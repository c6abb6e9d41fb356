/** Sessions that a failed start leaves behind, and why no call of the interface gets rid of them. */
module StuckSessions {
  import opened Bytes
  import opened Spdm
  import opened Crypto
  import opened ManagedBuffers
  import opened DeviceContext
  import opened Exchanges
  import opened Retrying
  import opened ConnectionRequester
  import opened SessionTable
  import opened TranscriptHash
  import opened SessionRequester
  import opened SessionCalls
  import opened SessionEffects
  import opened SessionGating
  import opened SessionRuns
  import opened SessionTheorems
  import opened SessionLockstep
  import opened RetryTransparency
  import opened ConnectionRuns
  import opened ApiRuns

  // ---------- What the requests of a start do to the table ----------

  /** The slot the next session gets. */
  function FirstFree(sessions: Slots): Option<nat> {
    FindFrom(sessions, INVALID_SESSION_ID, 0)
  }

  /** The first free slot gets a session with a new ID, and nothing else changes. */
  ghost predicate Takes(before: Slots, after: Slots, id: u32) {
    var i := FirstFree(before);
    && i.Some? && after == before[i.value := after[i.value]]
    && after[i.value].id == id && id != INVALID_SESSION_ID && forall j :: 0 <= j < MAX_SESSIONS ==> before[j].id != id
  }

  /** Every live session stays, and no other comes up. */
  ghost predicate SameLive(before: Slots, after: Slots) {
    forall k :: 0 <= k < MAX_SESSIONS ==>
      after[k] == before[k] || (before[k].id == INVALID_SESSION_ID && after[k].id == INVALID_SESSION_ID)
  }

  lemma TakesId(before: Slots, after: Slots, id: u32)
    requires Takes(before, after, id)
    ensures LiveIds(after) == LiveIds(before) + {id} && id !in LiveIds(before)
  {
    TakenIdIsNew(before, FirstFree(before).value, after[FirstFree(before).value]);
  }

  lemma SameLiveIds(before: Slots, after: Slots)
    requires SameLive(before, after)
    ensures LiveIds(after) == LiveIds(before)
  {
    forall id ensures id in LiveIds(after) <==> id in LiveIds(before) {
      if id in LiveIds(after) {
        var j :| 0 <= j < |after| && after[j].id == id && id != INVALID_SESSION_ID;
        assert before[j].id == id;
      }
      if id in LiveIds(before) {
        var j :| 0 <= j < |before| && before[j].id == id && id != INVALID_SESSION_ID;
        assert after[j].id == id;
      }
    }
  }

  /** Coherent tables after a start is half done: the session is found in its slot. */
  lemma TakenIsFound(before: Slots, after: Slots, id: u32)
    requires Takes(before, after, id)
    ensures FindSession(after, id) == FirstFree(before)
  {
    var i := FirstFree(before).value;
    var found := FindFrom(after, id, 0);
    assert after[i].id == id;
    assert after[found.value].id == id;
  }

  /** KEY_EXCHANGE takes a slot when it succeeds or leaks, and otherwise leaves the live sessions alone. */
  lemma KexOnTable(cr: Crypto, s: Context, hashType: byte, slot: byte, x: KexInput)
    requires Coherent(s.sessions)
    ensures var r := TryKeyExchange(cr, s, hashType, slot, x);
            SizeLaws(cr) ==>
              && (r.status == NoResponse ==> r.ctx.sessions == s.sessions)
              && if r.status == Success || KexLeaks(s, hashType, slot, x)
                 then Takes(s.sessions, r.ctx.sessions, r.out.sessionId)
                      && r.ctx.sessions[FirstFree(s.sessions).value].phase
                           == (if r.status == Success then Handshaking else Idle)
                 else SameLive(s.sessions, r.ctx.sessions)
  {
    hide SizeLaws, VerdictOn, MayExchangeKeys, KexParametersOk, ReqSlotOk, AllocateRequesterHalf,
         TryKeyExchange, Full, KeyExchangeRequest, OversizedOpaque, Coherent, FindFrom;
    var r := TryKeyExchange(cr, s, hashType, slot, x);
    KeyExchangeEffect(cr, s, hashType, slot, x);
    if r.status == NoResponse {
      KeyExchangeBusyRestores(cr, s, hashType, slot, x);
    }
    if SizeLaws(cr) && KexAnswered(s, slot, x) && !Full(s.sessions) {
      var id := KexId(s, slot, x);
      var m := LongOutcome(x.reply, KEY_EXCHANGE_RSP, KEY_EXCHANGE_MAX).message;
      var share := cr.dheShare(s.algorithms.dhe, x.seed);
      var s0 := s.(errorState := NoCapabilities);
      KexRequestSize(cr, s, hashType, slot, AllocateRequesterHalf(s.sessions), x.random, x.seed);
      VerdictIsGated(cr, s0, id, hashType,
                     KeyExchangeRequest(s, hashType, slot, AllocateRequesterHalf(s.sessions), x.random, share), share,
                     m);
      SameOpaque(s, hashType, m);
    }
  }

  /** The same for PSK_EXCHANGE; a session it establishes at once is not left behind. */
  lemma PskOnTable(cr: Crypto, s: Context, hashType: byte, x: PskInput)
    requires Coherent(s.sessions)
    ensures var r := TryPskExchange(cr, s, hashType, x);
            && (r.status == NoResponse ==> r.ctx.sessions == s.sessions)
            && if r.status == Success || PskLeaks(cr, s, hashType, x)
               then Takes(s.sessions, r.ctx.sessions, r.out)
                    && (r.status != Success || NeedsPskFinish(s) ==>
                          r.ctx.sessions[FirstFree(s.sessions).value].phase != Established)
               else SameLive(s.sessions, r.ctx.sessions)
  {
    hide MayExchangePsk, PskAlgorithmsOk, AllocateRequesterHalf, PskExchangeRequest, JudgePskExchange, TH2, Full,
         Coherent, NeedsPskFinish, FindFrom;
    var o := LongOutcome(x.reply, PSK_EXCHANGE_RSP, PSK_EXCHANGE_MAX);
    var r := TryPskExchange(cr, s, hashType, x);
    if PskAnswered(s, x) {
      var m := o.message;
      var half := AllocateRequesterHalf(s.sessions);
      if Full(s.sessions) {
        FullTableRefuses(s.sessions, At16(m, 4));
      } else {
        AllocatorAndAssignerAgree(s.sessions, At16(m, 4), true);
        var id := SessionIdOf(half, At16(m, 4));
        var req := PskRequestOf(s, hashType, x);
        var s0 := s.(errorState := NoCapabilities);
        assert [] + req == req;
        PskOutcomeIsPlain(cr, s0, id, hashType, req, m);
        assert NeedsPskFinish(s0) == NeedsPskFinish(s) by { PskNeedReadsFlags(s, s0); }
        assert r.ctx.sessions
                 == s.sessions[AssignSlot(s.sessions, id).value := PskOutcome(cr, s0, id, hashType, req, m).session];
      }
    }
  }

  lemma PskNeedReadsFlags(s: Context, t: Context)
    requires s.local == t.local && s.peerFlags == t.peerFlags
    ensures NeedsPskFinish(s) == NeedsPskFinish(t)
  {
  }

  /**
   The session a PSK_EXCHANGE_RSP leaves: keeps its ID unless it is freed, and is established by success without
   PSK_FINISH only.
   */
  lemma PskOutcomeIsPlain(cr: Crypto, s: Context, id: u32, hashType: byte, req: seq<byte>, m: seq<byte>)
    requires |m| >= 12
    ensures var y := PskOutcome(cr, s, id, hashType, req, m);
            var v := JudgePskExchange(cr, s, FreshSession(id, true).(messageK := req), hashType, m);
            && y.status != NoResponse
            && (y.session.phase == Established ==> y.status == Success && !NeedsPskFinish(s))
            && if y.status == Success || |req| > MAX_MESSAGE_BUFFER
                  || (v.PskAccepted? && !NeedsPskFinish(s) && Establish(cr, s, v.session).None?)
               then y.session.id == id
               else y.session == FreshSession(INVALID_SESSION_ID, false)
  {
    hide JudgePskExchange, NeedsPskFinish, TH2;
    assert [] + req == req;
    var x := FreshSession(id, true).(messageK := req);
    JudgedPskKeepsId(cr, s, x, hashType, m);
    JudgedPskWaits(cr, s, x, hashType, m);
  }

  lemma JudgedPskWaits(cr: Crypto, s: Context, x: Session, hashType: byte, m: seq<byte>)
    requires |m| >= 12
    ensures match JudgePskExchange(cr, s, x, hashType, m)
            case PskRejected(status, _) => status != NoResponse
            case PskAccepted(y) => y.phase == Handshaking
  {
    hide VersionSelectionOk, TH1, TH1Data, VerifyPskExchangeHmac, SummaryHashSize, HashSize;
  }

  // ---------- FINISH and PSK_FINISH ----------

  /** A request that touches the session with this ID and no other, and keeps its phase unless it succeeds. */
  ghost predicate Touches<R>(before: Slots, r: Step<R>, id: u32) {
    var f := FindSession(before, id);
    if f.None? then r.ctx.sessions == before
    else
      && r.ctx.sessions == before[f.value := r.ctx.sessions[f.value]] && r.ctx.sessions[f.value].id == id
      && (r.status != Success ==> r.ctx.sessions[f.value].phase == before[f.value].phase)
  }

  lemma {:induction false} RetryTouches<X(!new), R(!new)>(attempt: (Context, X) -> Step<R>, s: Context,
                                                          inputs: nat -> X, i: nat, left: nat, id: u32)
    requires forall c: Context, x: X :: Touches(c.sessions, attempt(c, x), id)
    ensures Touches(s.sessions, Retry(attempt, s, inputs, i, left), id)
    decreases left
  {
    hide FindSession;
    var r := attempt(s, inputs(i));
    assert Touches(s.sessions, r, id);
    if r.status == NoResponse && left > 0 {
      RetryTouches(attempt, r.ctx, inputs, i + 1, left - 1, id);
      var f := FindSession(s.sessions, id);
      if f.Some? {
        Replaced(s.sessions, f.value, r.ctx.sessions[f.value]);
      }
    }
  }

  lemma FinishTouches(cr: Crypto, s: Context, id: u32, param: byte, reply: Reply)
    ensures SizeLaws(cr) ==> Touches(s.sessions, TryFinish(cr, s, id, param, reply), id)
  {
    hide FindSession, SizeLaws, BuildFinish, JudgeFinish, IsCapable, FinishSlotOk, FinishRequestSize, Shrunk,
         ChainOfSlot, FinishHeader;
    var found := FindSession(s.sessions, id);
    if SizeLaws(cr) && found.Some? {
      var x := s.sessions[found.value];
      var s0 := WithLocalChain(s.(errorState := NoCapabilities), x, param);
      HeaderSize(x, param);
      FinishIsBuilt(cr, s0, x, FinishHeader(x, param));
      var b := BuildFinish(cr, s0, x, FinishHeader(x, param));
      var o := LongOutcome(reply, FINISH_RSP, FINISH_MAX);
      if o.Answer? {
        JudgedFinishKeeps(cr, s0, b.session, o.message);
      }
    }
  }

  lemma HeaderSize(x: Session, param: byte)
    ensures |FinishHeader(x, param)| == 4
  {
  }

  lemma JudgedFinishKeeps(cr: Crypto, s: Context, x: Session, m: seq<byte>)
    requires |m| >= 4
    ensures var r := JudgeFinish(cr, s, x, m);
            r.session.id == x.id && (r.status != Success ==> r.session.phase == x.phase)
    ensures var r := JudgePskFinish(cr, s, x, m);
            r.session.id == x.id && (r.status != Success ==> r.session.phase == x.phase)
  {
    hide TH2, VerifyFinishResponseHmac, HashSize, InTheClear;
  }

  lemma PskFinishTouches(cr: Crypto, s: Context, id: u32, x: PskFinishInput)
    ensures Touches(s.sessions, TryPskFinish(cr, s, id, x), id)
  {
    hide FindSession, BuildPskFinish, JudgePskFinish, IsCapable, HashSize, Shrunk;
    var found := FindSession(s.sessions, id);
    if found.Some? {
      var y := s.sessions[found.value];
      var s0 := s.(errorState := NoCapabilities);
      PskFinishIsBuilt(cr, s0, y, x.stale);
      var o := LongOutcome(x.reply, PSK_FINISH_RSP, 8);
      if o.Answer? {
        JudgedFinishKeeps(cr, s0, BuildPskFinish(cr, s0, y, x.stale).session, o.message);
      }
    }
  }

  // ---------- Failure atomicity of SpdmStartSession ----------

  /** The attempt that decides the KEY_EXCHANGE call leaks. */
  ghost predicate KexCallLeaks(cr: Crypto, s: Context, hashType: byte, slot: byte, inputs: nat -> KexInput, i: nat,
                               left: nat)
    decreases left
  {
    var r := TryKeyExchange(cr, s, hashType, slot, inputs(i));
    if r.status == NoResponse && left > 0 then KexCallLeaks(cr, r.ctx, hashType, slot, inputs, i + 1, left - 1)
    else KexLeaks(s, hashType, slot, inputs(i))
  }

  lemma {:induction false} KexCallOnTable(cr: Crypto, s: Context, hashType: byte, slot: byte, inputs: nat -> KexInput,
                                          i: nat, left: nat)
    requires Coherent(s.sessions)
    ensures var r := Retry(KexAttempt(cr, hashType, slot), s, inputs, i, left);
            SizeLaws(cr) ==>
              if r.status == Success || KexCallLeaks(cr, s, hashType, slot, inputs, i, left)
              then Takes(s.sessions, r.ctx.sessions, r.out.sessionId)
                   && r.ctx.sessions[FirstFree(s.sessions).value].phase
                        == (if r.status == Success then Handshaking else Idle)
              else SameLive(s.sessions, r.ctx.sessions)
    decreases left
  {
    hide SizeLaws, TryKeyExchange, KexLeaks, Coherent, Takes, SameLive;
    KexOnTable(cr, s, hashType, slot, inputs(i));
    var r := TryKeyExchange(cr, s, hashType, slot, inputs(i));
    assert KexAttempt(cr, hashType, slot)(s, inputs(i)) == r;
    if SizeLaws(cr) && r.status == NoResponse && left > 0 {
      KexCallOnTable(cr, r.ctx, hashType, slot, inputs, i + 1, left - 1);
    }
  }

  /** The attempt that decides the PSK_EXCHANGE call leaks. */
  ghost predicate PskCallLeaks(cr: Crypto, s: Context, hashType: byte, inputs: nat -> PskInput, i: nat, left: nat)
    decreases left
  {
    var r := TryPskExchange(cr, s, hashType, inputs(i));
    if r.status == NoResponse && left > 0 then PskCallLeaks(cr, r.ctx, hashType, inputs, i + 1, left - 1)
    else PskLeaks(cr, s, hashType, inputs(i))
  }

  lemma {:induction false} PskCallOnTable(cr: Crypto, s: Context, hashType: byte, inputs: nat -> PskInput, i: nat,
                                          left: nat)
    requires Coherent(s.sessions)
    ensures var r := Retry(PskAttempt(cr, hashType), s, inputs, i, left);
            && NeedsPskFinish(r.ctx) == NeedsPskFinish(s)
            && if r.status == Success || PskCallLeaks(cr, s, hashType, inputs, i, left)
               then Takes(s.sessions, r.ctx.sessions, r.out)
                    && (r.status != Success || NeedsPskFinish(s) ==>
                          r.ctx.sessions[FirstFree(s.sessions).value].phase != Established)
               else SameLive(s.sessions, r.ctx.sessions)
    decreases left
  {
    hide TryPskExchange, PskLeaks, Coherent, Takes, SameLive, NeedsPskFinish;
    PskOnTable(cr, s, hashType, inputs(i));
    PskFrame(cr, s, hashType, inputs(i));
    var r := TryPskExchange(cr, s, hashType, inputs(i));
    assert PskAttempt(cr, hashType)(s, inputs(i)) == r;
    PskNeedReadsFlags(s, r.ctx);
    if r.status == NoResponse && left > 0 {
      PskCallOnTable(cr, r.ctx, hashType, inputs, i + 1, left - 1);
    }
  }

  lemma PskFrame(cr: Crypto, s: Context, hashType: byte, x: PskInput)
    ensures var t := TryPskExchange(cr, s, hashType, x).ctx;
            t.local == s.local && t.peerFlags == s.peerFlags
  {
    hide JudgePskExchange, Conclude, IsCapable, PskAlgorithmsOk, AllocateRequesterHalf, AssignSlot, PskExchangeRequest;
  }

  /**
   The exchange of a start of either kind succeeded, or its deciding attempt took one of the exits that free nothing.
   */
  ghost predicate GotSession(cr: Crypto, s: Context, usePsk: bool, hashType: byte, slot: byte, x: StartInput) {
    var left := s.local.retryTimes;
    if usePsk then
      Retry(PskAttempt(cr, hashType), s, x.psk, 0, left).status == Success
      || PskCallLeaks(cr, s, hashType, x.psk, 0, left)
    else
      Retry(KexAttempt(cr, hashType, slot), s, x.kex, 0, left).status == Success
      || KexCallLeaks(cr, s, hashType, slot, x.kex, 0, left)
  }

  function StartOf(cr: Crypto, s: Context, usePsk: bool, hashType: byte, slot: byte, x: StartInput): Step<u32> {
    if usePsk then StartPsk(cr, s, hashType, x) else StartDhe(cr, s, hashType, slot, x)
  }

  /**
   What a start does to the table: a slot is taken, by a session that is not established unless the start succeeds, or
   nothing.
   */
  lemma StartOnTable(cr: Crypto, s: Context, usePsk: bool, hashType: byte, slot: byte, x: StartInput)
    requires Coherent(s.sessions)
    ensures var r := StartOf(cr, s, usePsk, hashType, slot, x);
            SizeLaws(cr) ==>
              if GotSession(cr, s, usePsk, hashType, slot, x)
              then Takes(s.sessions, r.ctx.sessions, r.out)
                   && (r.status != Success ==> r.ctx.sessions[FirstFree(s.sessions).value].phase != Established)
              else r.status != Success && SameLive(s.sessions, r.ctx.sessions)
  {
    hide SizeLaws, Coherent, FindSession, Touches, NeedsPskFinish, KexCallLeaks, PskCallLeaks, FindFrom, TryFinish,
         TryPskFinish, TryKeyExchange, TryPskExchange, Retry, SameLive;
    var left := s.local.retryTimes;
    if SizeLaws(cr) {
      if usePsk {
        PskCallOnTable(cr, s, hashType, x.psk, 0, left);
        var k := Retry(PskAttempt(cr, hashType), s, x.psk, 0, left);
        if k.status == Success && NeedsPskFinish(k.ctx) {
          forall c: Context, y
            ensures Touches(c.sessions, PskFinishAttempt(cr, k.out)(c, y), k.out) { PskFinishTouches(cr, c, k.out, y); }
          RetryTouches(PskFinishAttempt(cr, k.out), k.ctx, x.pskFinish, 0, left, k.out);
          StillTakes(s.sessions, k.ctx.sessions, Retry(PskFinishAttempt(cr, k.out), k.ctx, x.pskFinish, 0, left),
                     k.out);
        }
      } else {
        KexCallOnTable(cr, s, hashType, slot, x.kex, 0, left);
        var k := Retry(KexAttempt(cr, hashType, slot), s, x.kex, 0, left);
        if k.status == Success {
          TakenIsFound(s.sessions, k.ctx.sessions, k.out.sessionId);
          var y := k.ctx.sessions[FindSession(k.ctx.sessions, k.out.sessionId).value];
          match MutualAuth(y.mutAuthRequested, k.out.reqSlotParam, x.encapStatus, x.encapSlot)
          case GiveUp(_) => GiveUpIsFailure(y.mutAuthRequested, k.out.reqSlotParam, x.encapStatus, x.encapSlot);
          case Proceed(param) =>
            var finish := FinishAttempt(cr, k.out.sessionId, param);
            forall c: Context, r
              ensures Touches(c.sessions, finish(c, r),
                              k.out.sessionId) { FinishTouches(cr, c, k.out.sessionId, param, r); }
            RetryTouches(finish, k.ctx, x.finish, 0, left, k.out.sessionId);
            StillTakes(s.sessions, k.ctx.sessions, Retry(finish, k.ctx, x.finish, 0, left), k.out.sessionId);
        }
      }
    }
  }

  lemma StillTakes<R>(before: Slots, half: Slots, r: Step<R>, id: u32)
    requires Takes(before, half, id) && Touches(half, r, id)
    ensures Takes(before, r.ctx.sessions, id)
    ensures r.status != Success ==> r.ctx.sessions[FirstFree(before).value].phase == half[FirstFree(before).value].phase
  {
    hide FindFrom, FindSession;
    TakenIsFound(before, half, id);
  }

  /**
   A failed start keeps the set of live IDs if and only if its exchange gave it no session; otherwise exactly its own
   session stays behind, not established.
   */
  lemma StartIsAtomic(cr: Crypto, s: Context, usePsk: bool, hashType: byte, slot: byte, x: StartInput)
    requires Coherent(s.sessions)
    ensures var r := StartOf(cr, s, usePsk, hashType, slot, x);
            SizeLaws(cr) && r.status != Success ==>
              && (LiveIds(r.ctx.sessions) == LiveIds(s.sessions) <==> !GotSession(cr, s, usePsk, hashType, slot, x))
              && (GotSession(cr, s, usePsk, hashType, slot, x) ==>
                    LiveIds(r.ctx.sessions) == LiveIds(s.sessions) + {r.out} && r.out !in LiveIds(s.sessions))
  {
    hide SizeLaws, Coherent, GotSession, StartOf, Takes, SameLive, LiveIds;
    StartOnTable(cr, s, usePsk, hashType, slot, x);
    var r := StartOf(cr, s, usePsk, hashType, slot, x);
    if SizeLaws(cr) {
      if GotSession(cr, s, usePsk, hashType, slot, x) {
        TakesId(s.sessions, r.ctx.sessions, r.out);
      } else {
        SameLiveIds(s.sessions, r.ctx.sessions);
      }
    }
  }

  // ---------- Sessions left behind stay ----------

  /** A live session that is not established. */
  ghost predicate Stuck(x: Session) {
    x.id != INVALID_SESSION_ID && x.phase != Established
  }

  /** SpdmStopSession refuses it, under whatever ID it is asked to. */
  lemma {:induction false} StopKeepsStuck(s: Context, id: u32, replies: nat -> Reply, i: nat, left: nat, k: nat)
    requires k < MAX_SESSIONS && Stuck(s.sessions[k])
    ensures Retry(EndAttempt(id), s, replies, i, left).ctx.sessions[k] == s.sessions[k]
    decreases left
  {
    hide FindSession;
    var r := TryEndSession(s, id, replies(i));
    assert EndAttempt(id)(s, replies(i)) == r;
    if r.status == NoResponse && left > 0 {
      StopKeepsStuck(r.ctx, id, replies, i + 1, left - 1, k);
    }
  }

  /** No call of the interface touches it. */
  lemma CallKeepsStuck(cr: Crypto, s: Context, c: ApiCall, k: nat)
    requires k < MAX_SESSIONS && Coherent(s.sessions) && Public(c) && !CallOverruns(cr, s, c) && Stuck(s.sessions[k])
    ensures SizeLaws(cr) ==> AfterCall(cr, s, c).sessions[k] == s.sessions[k]
  {
    hide SizeLaws, Coherent, GotSession, Retry, StartPsk, StartDhe, FindFrom;
    match c {
      case Init(versionOnly, version, capabilities, algorithms) =>
        InitKeepsSessions(s, versionOnly, version, capabilities, algorithms);
      case Later(_) => LaterKeepsSessions(cr, s, c);
      case OfSession(call) =>
        match call {
          case Start(usePsk, hashType, slot, x) => StartOnTable(cr, s, usePsk, hashType, slot, x);
          case Stop(id, replies) => StopKeepsStuck(s, id, replies, 0, s.local.retryTimes, k);
        }
    }
  }

  /** Over every sequence of calls: a session that is stuck after the first j of them is there, unchanged, after all. */
  lemma {:induction false} StuckForEver(cr: Crypto, s: Context, calls: seq<ApiCall>, j: nat, k: nat)
    requires NoSessions(s) && (forall i :: 0 <= i < |calls| ==> Public(calls[i])) && CallsInBounds(cr, s, calls)
    requires j <= |calls| && k < MAX_SESSIONS && Stuck(AfterCalls(cr, s, calls[..j]).sessions[k])
    ensures SizeLaws(cr) ==> AfterCalls(cr, s, calls).sessions[k] == AfterCalls(cr, s, calls[..j]).sessions[k]
    decreases |calls|
  {
    hide SizeLaws, AfterCall, Coherent;
    if j == |calls| {
      assert calls[..j] == calls;
    } else if SizeLaws(cr) {
      var last := |calls| - 1;
      assert calls[..last][..j] == calls[..j];
      CallsInBoundsPrefix(cr, s, calls, last);
      StuckForEver(cr, s, calls[..last], j, k);
      EstablishedOverApiRuns(cr, s, calls[..last], k);
      assert Public(calls[last]) && !CallOverruns(cr, AfterCalls(cr, s, calls[..last]), calls[last]);
      CallKeepsStuck(cr, AfterCalls(cr, s, calls[..last]), calls[last], k);
    }
  }

  /** Once all four slots are stuck, the table never changes again and every later start fails. */
  lemma FullOfStuckIsFinal(cr: Crypto, s: Context, calls: seq<ApiCall>, j: nat, usePsk: bool, hashType: byte,
                           slot: byte, x: StartInput)
    requires NoSessions(s) && (forall i :: 0 <= i < |calls| ==> Public(calls[i])) && CallsInBounds(cr, s, calls)
    requires j <= |calls| && forall k :: 0 <= k < MAX_SESSIONS ==> Stuck(AfterCalls(cr, s, calls[..j]).sessions[k])
    ensures var t := AfterCalls(cr, s, calls);
            var r := StartOf(cr, t, usePsk, hashType, slot, x);
            SizeLaws(cr) ==>
              t.sessions == AfterCalls(cr, s, calls[..j]).sessions && r.status != Success
              && r.ctx.sessions == t.sessions
  {
    hide SizeLaws, AfterCalls, CallsInBounds, Coherent, StartDhe, StartPsk;
    var t := AfterCalls(cr, s, calls);
    if SizeLaws(cr) {
      EstablishedOverApiRuns(cr, s, calls, 0);
      forall k | 0 <= k < MAX_SESSIONS ensures t.sessions[k] == AfterCalls(cr, s, calls[..j]).sessions[k] {
        StuckForEver(cr, s, calls, j, k);
      }
      FullTableStartFails(cr, t, usePsk, hashType, slot, x);
    }
  }

  // ---------- Four leaks fill the table ----------

  /** A start whose KEY_EXCHANGE meets the leaking response. */
  ghost function LeakingStart(s: Context, hashType: byte, random: Nonce, seed: seq<byte>): ApiCall {
    OfSession(Start(false, hashType, 0,
      StartInput(_ => KexInput(random, seed, Says(LeakingResponse(s, hashType))), Success, None, _ => Says([]),
                 _ => PskInput(Zeros(MAX_HASH), Says([])), _ => PskFinishInput(Says([]), Zeros(MAX_HASH)))))
  }

  /** The first n slots are stuck and the others free. */
  ghost predicate StuckUpTo(sessions: Slots, n: nat) {
    n <= MAX_SESSIONS
    && (forall k :: 0 <= k < n ==> Stuck(sessions[k]))
    && forall k :: n <= k < MAX_SESSIONS ==> sessions[k] == FreshSession(INVALID_SESSION_ID, false)
  }

  lemma OneMoreLeak(cr: Crypto, s: Context, t: Context, hashType: byte, random: Nonce, seed: seq<byte>, n: nat)
    requires MayExchangeKeys(t) && SameConnection(s, t) && Coherent(t.sessions) && StuckUpTo(t.sessions, n)
             && n < MAX_SESSIONS
    ensures SizeLaws(cr) ==>
              var u := AfterCall(cr, t, LeakingStart(s, hashType, random, seed));
              MayExchangeKeys(u) && SameConnection(s, u) && StuckUpTo(u.sessions, n + 1)
  {
    hide SizeLaws, Coherent, TryKeyExchange, KexLeaks, LeakingResponse, IsCapable, StartPsk, InitConnection, After,
         LiveIds, FindFrom;
    if SizeLaws(cr) {
      assert t.sessions[n].id == INVALID_SESSION_ID;
      assert LeakingResponse(s, hashType) == LeakingResponse(t, hashType) by { SameLeak(s, t, hashType); }
      SomeResponseLeaks(cr, t, hashType, random, seed);
      var x := KexInput(random, seed, Says(LeakingResponse(t, hashType)));
      KeyExchangeIsAtomic(cr, t, hashType, 0, x);
      KexOnTable(cr, t, hashType, 0, x);
      LeakKeepsState(cr, t, hashType, x);
      var r := TryKeyExchange(cr, t, hashType, 0, x);
      assert KexAttempt(cr, hashType, 0)(t, x) == r;
      FirstFreeIs(t.sessions, n);
    }
  }

  lemma SameLeak(s: Context, t: Context, hashType: byte)
    requires SameConnection(s, t)
    ensures LeakingResponse(s, hashType) == LeakingResponse(t, hashType)
  {
    assert KexLayoutOf(s, hashType) == KexLayoutOf(t, hashType);
  }

  lemma LeakKeepsState(cr: Crypto, s: Context, hashType: byte, x: KexInput)
    requires MayExchangeKeys(s) && KexLeaks(s, hashType, 0, x)
    ensures var t := TryKeyExchange(cr, s, hashType, 0, x).ctx;
            MayExchangeKeys(t) && SameConnection(s, t)
  {
    hide VerdictOn, AllocateRequesterHalf, AssignSlot, ReqSlotOk, KeyExchangeRequest, OversizedOpaque, And;
  }

  lemma FirstFreeIs(sessions: Slots, n: nat)
    requires StuckUpTo(sessions, n) && n < MAX_SESSIONS
    ensures FirstFree(sessions) == Some(n)
  {
    var found := FindFrom(sessions, INVALID_SESSION_ID, 0);
    assert sessions[n].id == INVALID_SESSION_ID;
    assert forall k :: 0 <= k < n ==> Stuck(sessions[k]);
  }

  lemma {:induction false} LeaksFillUp(cr: Crypto, s: Context, calls: seq<ApiCall>, hashType: byte, random: Nonce,
                                       seed: seq<byte>)
    requires NoSessions(s) && MayExchangeKeys(s) && |calls| <= MAX_SESSIONS
    requires forall i :: 0 <= i < |calls| ==> calls[i] == LeakingStart(s, hashType, random, seed)
    ensures SizeLaws(cr) ==>
              var t := AfterCalls(cr, s, calls);
              && MayExchangeKeys(t) && SameConnection(s, t) && Coherent(t.sessions)
              && StuckUpTo(t.sessions, |calls|) && CallsInBounds(cr, s, calls)
    decreases |calls|
  {
    hide SizeLaws, AfterCall, Coherent, LeakingStart, MayExchangeKeys, SameConnection;
    if calls == [] {
      FreshIsCoherent(s);
      SameAsItself(s);
    } else if SizeLaws(cr) {
      var last := |calls| - 1;
      LeaksFillUp(cr, s, calls[..last], hashType, random, seed);
      OneMoreLeak(cr, s, AfterCalls(cr, s, calls[..last]), hashType, random, seed, last);
      OnlyStarts(cr, s, calls, hashType, random, seed);
      EstablishedOverApiRuns(cr, s, calls, 0);
    }
  }

  lemma SameAsItself(s: Context)
    ensures SameConnection(s, s)
  {
  }

  lemma OnlyStarts(cr: Crypto, s: Context, calls: seq<ApiCall>, hashType: byte, random: Nonce, seed: seq<byte>)
    requires forall i :: 0 <= i < |calls| ==> calls[i] == LeakingStart(s, hashType, random, seed)
    ensures CallsInBounds(cr, s, calls) && forall i :: 0 <= i < |calls| ==> Public(calls[i])
  {
    hide AfterCalls;
  }

  /**
   Four starts that meet the leaking response use up the table for good: whatever is called afterwards,
   re-initialisation included, the four sessions stay as they are and every start of either kind fails.
   */
  lemma FourLeaksAreFinal(cr: Crypto, s: Context, calls: seq<ApiCall>, leakType: byte, random: Nonce, seed: seq<byte>,
                          usePsk: bool, hashType: byte, slot: byte, x: StartInput)
    requires NoSessions(s) && MayExchangeKeys(s) && |calls| >= MAX_SESSIONS
    requires forall i :: 0 <= i < MAX_SESSIONS ==> calls[i] == LeakingStart(s, leakType, random, seed)
    requires (forall i :: 0 <= i < |calls| ==> Public(calls[i])) && CallsInBounds(cr, s, calls)
    ensures var t := AfterCalls(cr, s, calls);
            var r := StartOf(cr, t, usePsk, hashType, slot, x);
            SizeLaws(cr) ==>
              && (forall k :: 0 <= k < MAX_SESSIONS ==> Stuck(t.sessions[k]))
              && r.status != Success && r.ctx.sessions == t.sessions
  {
    hide SizeLaws, AfterCalls, CallsInBounds, Coherent, StartOf, LeakingStart, MayExchangeKeys, SameConnection, Stuck;
    if SizeLaws(cr) {
      LeaksFillUp(cr, s, calls[..MAX_SESSIONS], leakType, random, seed);
      FullOfStuckIsFinal(cr, s, calls, MAX_SESSIONS, usePsk, hashType, slot, x);
    }
  }
}
