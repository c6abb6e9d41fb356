/**
 Every run of session starts and stops, against any responder: coherence of the table and gating of what is established.
 */
module SessionRuns {
  import opened Bytes
  import opened Spdm
  import opened Crypto
  import opened ManagedBuffers
  import opened DeviceContext
  import opened Exchanges
  import opened Retrying
  import opened ConnectionRequester
  import opened SessionTable
  import opened TranscriptHash
  import opened SessionRequester
  import opened SessionCalls
  import opened SessionEffects
  import opened SessionGating

  /** The invariant of a run that started from `base`: a slot is as it was there, or gated on that connection. */
  ghost predicate SessionsOk(cr: Crypto, base: Context, t: Context) {
    && SameConnection(base, t) && Coherent(t.sessions)
    && forall i :: 0 <= i < MAX_SESSIONS ==> Gated(cr, base, t.sessions[i]) || t.sessions[i] == base.sessions[i]
  }

  /** The gates read nothing that session calls change. */
  lemma SameGates(cr: Crypto, s: Context, t: Context, x: Session)
    requires SameConnection(s, t)
    ensures Gated(cr, s, x) <==> Gated(cr, t, x)
    ensures Exchanged(cr, s, x) <==> Exchanged(cr, t, x)
    ensures PskSigned(cr, s, x) <==> PskSigned(cr, t, x)
    ensures DheGated(cr, s, x) <==> DheGated(cr, t, x)
    ensures InTheClear(s) <==> InTheClear(t)
    ensures SignatureSize(s.algorithms.reqBaseAsym) == SignatureSize(t.algorithms.reqBaseAsym)
  {
    hide HashSize, SignatureSize;
    assert PeerChainData(s) == PeerChainData(t);
    assert Head(cr, s) == Head(cr, t);
    if |x.signatures| == 1 {
      forall a, b, c ensures Finished(cr, s, x, a, b, c) <==> Finished(cr, t, x, a, b, c) {
      }
    }
  }

  /** Putting a session with the right half into slot i keeps the table coherent, and it is found there. */
  lemma StoredIsFound(sessions: seq<Session>, i: nat, x: Session)
    requires Coherent(sessions) && i < MAX_SESSIONS
    requires x.id == INVALID_SESSION_ID || RequesterHalf(x.id) == 0xFFFF - i
    ensures Coherent(sessions[i := x])
    ensures x.id != INVALID_SESSION_ID ==> FindSession(sessions[i := x], x.id) == Some(i)
  {
    var after := sessions[i := x];
    if x.id != INVALID_SESSION_ID {
      assert after[i].id == x.id;
      var found := FindFrom(after, x.id, 0);
      assert after[found.value].id == x.id;
    }
  }

  /** A slot that is replaced by a gated session with the right identity. */
  lemma StoredIsOk(cr: Crypto, base: Context, s: Context, t: Context, i: nat, x: Session)
    requires SessionsOk(cr, base, s) && SameConnection(s, t) && i < MAX_SESSIONS && t.sessions == s.sessions[i := x]
    requires x.id == INVALID_SESSION_ID || RequesterHalf(x.id) == 0xFFFF - i
    requires Gated(cr, base, x)
    ensures SessionsOk(cr, base, t)
    ensures x.id != INVALID_SESSION_ID ==> FindSession(t.sessions, x.id) == Some(i)
  {
    hide Gated, FindSession, Coherent;
    StoredIsFound(s.sessions, i, x);
  }

  /** The longest KEY_EXCHANGE request, and the longest K: request and response. */
  const KEY_EXCHANGE_REQUEST_MAX: nat := 42 + MAX_DHE_KEY + 20
  const MAX_K: nat := KEY_EXCHANGE_REQUEST_MAX + KEY_EXCHANGE_MAX

  /** A session that waits for FINISH. */
  ghost predicate Awaiting(cr: Crypto, base: Context, t: Context, id: u32) {
    var found := FindSession(t.sessions, id);
    found.Some? && Exchanged(cr, base, t.sessions[found.value]) && |t.sessions[found.value].messageK| <= MAX_K
  }

  lemma KexRequestSize(cr: Crypto, s: Context, hashType: byte, slot: byte, half: u16, random: Nonce, seed: seq<byte>)
    ensures SizeLaws(cr) ==>
              |KeyExchangeRequest(s, hashType, slot, half, random,
                                  cr.dheShare(s.algorithms.dhe, seed))| <= KEY_EXCHANGE_REQUEST_MAX
  {
    hide KeyExchangeRequest;
  }

  lemma KexFrame(cr: Crypto, s: Context, hashType: byte, slot: byte, x: KexInput)
    ensures SameConnection(s, TryKeyExchange(cr, s, hashType, slot, x).ctx)
  {
    hide VerdictOn, IsCapable, AllocateRequesterHalf, AssignSlot, ReqSlotOk, KeyExchangeRequest;
  }

  /** One KEY_EXCHANGE attempt keeps the invariant; success leaves the session ready for FINISH. */
  lemma KexKeeps(cr: Crypto, base: Context, s: Context, hashType: byte, slot: byte, x: KexInput)
    requires SessionsOk(cr, base, s)
    ensures var r := TryKeyExchange(cr, s, hashType, slot, x);
            && SessionsOk(cr, base, r.ctx)
            && (SizeLaws(cr) && r.status == Success ==> Awaiting(cr, base, r.ctx, r.out.sessionId))
  {
    hide SizeLaws, VerdictOn, MayExchangeKeys, KexParametersOk, ReqSlotOk, AllocateRequesterHalf, AssignSlot,
         TryKeyExchange, Exchanged, Full, KeyExchangeRequest, OversizedOpaque, FindSession;
    var r := TryKeyExchange(cr, s, hashType, slot, x);
    KexFrame(cr, s, hashType, slot, x);
    KeyExchangeEffect(cr, s, hashType, slot, x);
    if KexAnswered(s, slot, x) && !Full(s.sessions) {
      var id := KexId(s, slot, x);
      var i := AssignSlot(s.sessions, id).value;
      var m := LongOutcome(x.reply, KEY_EXCHANGE_RSP, KEY_EXCHANGE_MAX).message;
      AllocatorAndAssignerAgree(s.sessions, At16(m, 4), false);
      assert RequesterHalf(id) == 0xFFFF - i;
      var share := cr.dheShare(s.algorithms.dhe, x.seed);
      var s0 := s.(errorState := NoCapabilities);
      KexRequestSize(cr, s, hashType, slot, AllocateRequesterHalf(s.sessions), x.random, x.seed);
      VerdictIsGated(cr, s0, id, hashType,
                     KeyExchangeRequest(s, hashType, slot, AllocateRequesterHalf(s.sessions), x.random, share), share,
                     m);
      match KexVerdictOf(cr, s, hashType, slot, x) {
        case Rejected(_, _) => StoredIsOk(cr, base, s, r.ctx, i, FreshSession(INVALID_SESSION_ID, false));
        case Kept(y) => StoredIsOk(cr, base, s, r.ctx, i, y);
        case Accepted(y) =>
          SameGates(cr, base, s0, y);
          assert y.phase == Handshaking by { hide *; HandshakingAwaits(cr, s0, y); }
          StoredIsOk(cr, base, s, r.ctx, i, y);
      }
    }
  }

  lemma HandshakingAwaits(cr: Crypto, s: Context, x: Session)
    ensures Exchanged(cr, s, x) ==> x.phase == Handshaking && !x.usePsk && x.messageF == [] && Signed(cr, s, x)
  {
  }

  // ---------- FINISH ----------

  /** The session an answer or a refusal leaves in slot i, given what the request made of it. */
  function FinishOutcome(cr: Crypto, s0: Context, x: Session, built: Session, reply: Reply): SessionStep {
    match LongOutcome(reply, FINISH_RSP, FINISH_MAX)
    case Refused(code) =>
      SessionStep(RefusalStatus(code), built.(messageF := Shrunk(built.messageF, FinishRequestSize(s0, x))))
    case Answer(m) => JudgeFinish(cr, s0, built, m)
    case _ => SessionStep(DeviceError, built)
  }

  /** From a session that waits for FINISH, whatever comes back: refused, it waits on; established, it is gated. */
  lemma FinishOutcomeIsGated(cr: Crypto, s: Context, x: Session, param: byte, reply: Reply)
    requires Exchanged(cr, s, x)
    ensures var b := BuildFinish(cr, s, x, FinishHeader(x, param));
            SizeLaws(cr) ==>
              if !b.complete then b.session.id == x.id && b.session.phase == Handshaking
              else
                var r := FinishOutcome(cr, s, x, b.session, reply);
                && r.session.id == x.id && !r.session.usePsk
                && (r.status == NoResponse ==> r.session == x)
                && (r.status == Success <==> r.session.phase == Established)
                && (r.status == Success ==> DheGated(cr, s, r.session) && KeyedByTH2(cr, s, r.session))
  {
    hide BuildFinish, JudgeFinish, KeyedByTH2, Signed, ExchangeMacAccepted, DheGated, SizeLaws, HashSize,
         SignatureSize;
    HandshakingAwaits(cr, s, x);
    if SizeLaws(cr) {
      FinishIsBuilt(cr, s, x, FinishHeader(x, param));
      var b := BuildFinish(cr, s, x, FinishHeader(x, param));
      var o := LongOutcome(reply, FINISH_RSP, FINISH_MAX);
      if b.complete {
        var f := b.session.messageF;
        assert b.session.(messageF := []) == x;
        assert FinishRequestSize(s, b.session) == FinishRequestSize(s, x);
        assert f[..|f| - FinishRequestSize(s, x)] == [];
        assert f[..2] == f[..4][..2] == [VERSION_11, FINISH];
        if o.Answer? {
          FinishGate(cr, s, b.session, o.message);
        }
      }
    }
  }

  lemma FinishKeeps(cr: Crypto, base: Context, s: Context, id: u32, param: byte, reply: Reply)
    requires SessionsOk(cr, base, s) && Awaiting(cr, base, s, id)
    ensures var r := TryFinish(cr, s, id, param, reply);
            SizeLaws(cr) ==>
              && SessionsOk(cr, base, r.ctx)
              && (r.status == NoResponse ==> Awaiting(cr, base, r.ctx, id))
              && (r.status == Success ==> IsEstablished(cr, r.ctx, id, false))
  {
    hide BuildFinish, JudgeFinish, KeyedByTH2, Exchanged, DheGated, Gated, SizeLaws, FinishRequestSize, IsCapable,
         Coherent, FindSession, ChainOfSlot, FinishHeader;
    var i := FindSession(s.sessions, id).value;
    var x := s.sessions[i];
    assert RequesterHalf(x.id) == 0xFFFF - i by { CoherentAt(s.sessions, i); }
    if SizeLaws(cr) && MayExchangeKeys(s) && FinishSlotOk(s, x, param) && x.phase == Handshaking {
      var s0 := WithLocalChain(s.(errorState := NoCapabilities), x, param);
      SameGates(cr, base, s0, x);
      FinishOutcomeIsGated(cr, s0, x, param, reply);
      HandshakingAwaits(cr, base, x);
      var b := BuildFinish(cr, s0, x, FinishHeader(x, param));
      var y := if b.complete then FinishOutcome(cr, s0, x, b.session, reply).session else b.session;
      var r := TryFinish(cr, s, id, param, reply);
      assert r.ctx.sessions == s.sessions[i := y];
      SameGates(cr, base, s0, y);
      KeyedByTH2Ignores(cr, s0, r.ctx, y);
      assert Gated(cr, s0, y) by { GatedByDhe(cr, s0, y); }
      StoredIsOk(cr, base, s, r.ctx, i, y);
    }
  }

  lemma GatedByDhe(cr: Crypto, s: Context, x: Session)
    requires x.phase == Established ==> !x.usePsk && DheGated(cr, s, x)
    ensures Gated(cr, s, x)
  {
  }

  /** The session of this kind is established, and its data keys come from the TH2 this context computes. */
  ghost predicate IsEstablished(cr: Crypto, t: Context, id: u32, usePsk: bool) {
    var found := FindSession(t.sessions, id);
    && found.Some? && t.sessions[found.value].phase == Established && t.sessions[found.value].usePsk == usePsk
    && KeyedByTH2(cr, t, t.sessions[found.value])
  }

  lemma CoherentAt(sessions: seq<Session>, i: nat)
    requires Coherent(sessions) && i < MAX_SESSIONS && sessions[i].id != INVALID_SESSION_ID
    ensures RequesterHalf(sessions[i].id) == 0xFFFF - i
  {
  }

  // ---------- PSK ----------

  /** A PSK session that waits for PSK_FINISH. */
  ghost predicate PskAwaiting(cr: Crypto, base: Context, t: Context, id: u32) {
    var found := FindSession(t.sessions, id);
    found.Some? && PskSigned(cr, base, t.sessions[found.value]) && t.sessions[found.value].phase == Handshaking
  }

  /** The session a PSK_EXCHANGE_RSP leaves in its slot. */
  function PskOutcome(cr: Crypto, s0: Context, id: u32, hashType: byte, req: seq<byte>, m: seq<byte>): SessionStep
    requires |m| >= 12
  {
    var fresh_ := FreshSession(id, true);
    var k := Cached(MAX_MESSAGE_BUFFER, [], req);
    if k.None? then SessionStep(SecurityViolation, fresh_)
    else
      match JudgePskExchange(cr, s0, fresh_.(messageK := k.value), hashType, m)
      case PskRejected(status, _) => SessionStep(status, FreshSession(INVALID_SESSION_ID, false))
      case PskAccepted(x) => if NeedsPskFinish(s0) then SessionStep(Success, x) else Conclude(cr, s0, x)
  }

  lemma PskOutcomeIsGated(cr: Crypto, s: Context, id: u32, hashType: byte, req: seq<byte>, m: seq<byte>)
    requires |m| >= 12
    ensures var r := PskOutcome(cr, s, id, hashType, req, m);
            && r.status != NoResponse && (r.session.id == id || r.session.id == INVALID_SESSION_ID)
            && Gated(cr, s, r.session)
            && (r.status == Success ==>
                  r.session.id == id && PskSigned(cr, s, r.session)
                  && r.session.phase == (if NeedsPskFinish(s) then Handshaking else Established)
                  && (!NeedsPskFinish(s) ==> KeyedByTH2(cr, s, r.session)))
  {
    hide JudgePskExchange, NeedsPskFinish, Conclude, KeyedByTH2, PskSigned, PskGated, DheGated;
    var k := Cached(MAX_MESSAGE_BUFFER, [], req);
    if k.Some? {
      var x := FreshSession(id, true).(messageK := k.value);
      PskExchangeGate(cr, s, x, hashType, m);
      var v := JudgePskExchange(cr, s, x, hashType, m);
      if v.PskAccepted? {
        PskConcludeGate(cr, s, v.session);
        PskGatedIsSigned(cr, s, v.session);
        PskGatedIsSigned(cr, s, Conclude(cr, s, v.session).session);
      }
    }
  }

  lemma PskGatedIsSigned(cr: Crypto, s: Context, x: Session)
    ensures PskGated(cr, s, x) ==> PskSigned(cr, s, x)
    ensures PskSigned(cr, s, x) ==> x.usePsk
  {
  }

  lemma PskKeeps(cr: Crypto, base: Context, s: Context, hashType: byte, x: PskInput)
    requires SessionsOk(cr, base, s)
    ensures var r := TryPskExchange(cr, s, hashType, x);
            && SessionsOk(cr, base, r.ctx)
            && (r.status == Success ==>
                  if NeedsPskFinish(base) then PskAwaiting(cr, base, r.ctx, r.out)
                  else IsEstablished(cr, r.ctx, r.out, true))
  {
    hide MayExchangePsk, PskAlgorithmsOk, AllocateRequesterHalf, AssignSlot, PskExchangeRequest, JudgePskExchange,
         Conclude, KeyedByTH2, Full, Coherent, PskSigned, Gated, FindSession;
    var o := LongOutcome(x.reply, PSK_EXCHANGE_RSP, PSK_EXCHANGE_MAX);
    var r := TryPskExchange(cr, s, hashType, x);
    if MayExchangePsk(s) && PskAlgorithmsOk(s) && o.Answer? && 12 <= |o.message| <= PSK_EXCHANGE_MAX {
      var m := o.message;
      var half := AllocateRequesterHalf(s.sessions);
      var id := SessionIdOf(half, At16(m, 4));
      if Full(s.sessions) {
        FullTableRefuses(s.sessions, At16(m, 4));
      } else {
        AllocatorAndAssignerAgree(s.sessions, At16(m, 4), true);
        var i := AssignSlot(s.sessions, id).value;
        var s0 := s.(errorState := NoCapabilities);
        var req := PskExchangeRequest(s, hashType, half, x.random);
        PskOutcomeIsGated(cr, s0, id, hashType, req, m);
        var y := PskOutcome(cr, s0, id, hashType, req, m);
        SameGates(cr, base, s0, y.session);
        assert r.ctx.sessions == s.sessions[i := y.session] && r.status == y.status;
        assert RequesterHalf(id) == half;
        StoredIsOk(cr, base, s, r.ctx, i, y.session);
        KeyedByTH2Ignores(cr, s0, r.ctx, y.session);
        PskGatedIsSigned(cr, s0, y.session);
        assert NeedsPskFinish(base) == NeedsPskFinish(s0);
      }
    }
  }

  lemma PskFinishKeeps(cr: Crypto, base: Context, s: Context, id: u32, input: PskFinishInput)
    requires SessionsOk(cr, base, s) && PskAwaiting(cr, base, s, id)
    ensures var r := TryPskFinish(cr, s, id, input);
            && SessionsOk(cr, base, r.ctx)
            && (r.status == NoResponse ==> PskAwaiting(cr, base, r.ctx, id))
            && (r.status == Success ==> IsEstablished(cr, r.ctx, id, true))
  {
    hide BuildPskFinish, JudgePskFinish, KeyedByTH2, PskSigned, IsCapable, Coherent, FindSession, Gated, HashSize;
    var i := FindSession(s.sessions, id).value;
    var x := s.sessions[i];
    assert RequesterHalf(x.id) == 0xFFFF - i by { CoherentAt(s.sessions, i); }
    if MayExchangePsk(s) {
      var s0 := s.(errorState := NoCapabilities);
      var b := BuildPskFinish(cr, s0, x, input.stale);
      PskFinishIsBuilt(cr, s0, x, input.stale);
      SameGates(cr, base, s0, x);
      var o := LongOutcome(input.reply, PSK_FINISH_RSP, 8);
      var r := TryPskFinish(cr, s, id, input);
      var y := r.ctx.sessions[i];
      PskSignedIgnoresFinish(cr, s0, x, b.session);
      if b.complete && o.Answer? {
        PskFinishGate(cr, s0, b.session, o.message);
        PskGatedIsSigned(cr, s0, x);
        KeyedByTH2Ignores(cr, s0, r.ctx, y);
      } else {
        PskSignedIgnoresFinish(cr, s0, x, y);
      }
      SameGates(cr, base, s0, y);
      StoredIsOk(cr, base, s, r.ctx, i, y);
    }
  }

  lemma PskSignedIgnoresFinish(cr: Crypto, s: Context, x: Session, y: Session)
    requires PskSigned(cr, s, x) && y == x.(messageF := y.messageF)
    ensures PskSigned(cr, s, y)
    ensures x.phase == Handshaking ==> Gated(cr, s, y)
  {
  }

  // ---------- END_SESSION ----------

  lemma EndKeeps(cr: Crypto, base: Context, s: Context, id: u32, reply: Reply)
    requires SessionsOk(cr, base, s)
    ensures SessionsOk(cr, base, TryEndSession(s, id, reply).ctx)
  {
    hide FindSession, Coherent;
    var r := TryEndSession(s, id, reply);
    if r.status == Success {
      StoredIsOk(cr, base, s, r.ctx, FindSession(s.sessions, id).value, FreshSession(INVALID_SESSION_ID, false));
    }
  }

  // ---------- Whole calls and whole runs ----------

  lemma {:induction false} KexCallKeeps(cr: Crypto, base: Context, s: Context, hashType: byte, slot: byte,
                                        inputs: nat -> KexInput, i: nat, left: nat)
    requires SessionsOk(cr, base, s)
    ensures var r := Retry(KexAttempt(cr, hashType, slot), s, inputs, i, left);
            && SessionsOk(cr, base, r.ctx)
            && (SizeLaws(cr) && r.status == Success ==> Awaiting(cr, base, r.ctx, r.out.sessionId))
    decreases left
  {
    hide SessionsOk, Awaiting, SizeLaws, TryKeyExchange;
    KexKeeps(cr, base, s, hashType, slot, inputs(i));
    var r := TryKeyExchange(cr, s, hashType, slot, inputs(i));
    assert KexAttempt(cr, hashType, slot)(s, inputs(i)) == r;
    if r.status == NoResponse && left > 0 {
      KexCallKeeps(cr, base, r.ctx, hashType, slot, inputs, i + 1, left - 1);
    }
  }

  lemma {:induction false} FinishCallKeeps(cr: Crypto, base: Context, s: Context, id: u32, param: byte,
                                           replies: nat -> Reply, i: nat, left: nat)
    requires SessionsOk(cr, base, s) && Awaiting(cr, base, s, id)
    ensures SizeLaws(cr) ==>
              var r := Retry(FinishAttempt(cr, id, param), s, replies, i, left);
              SessionsOk(cr, base, r.ctx) && (r.status == Success ==> IsEstablished(cr, r.ctx, id, false))
    decreases left
  {
    hide SessionsOk, Awaiting, TryFinish, IsEstablished, SizeLaws;
    FinishKeeps(cr, base, s, id, param, replies(i));
    var r := TryFinish(cr, s, id, param, replies(i));
    assert FinishAttempt(cr, id, param)(s, replies(i)) == r;
    if SizeLaws(cr) && r.status == NoResponse && left > 0 {
      FinishCallKeeps(cr, base, r.ctx, id, param, replies, i + 1, left - 1);
    }
  }

  lemma {:induction false} PskCallKeeps(cr: Crypto, base: Context, s: Context, hashType: byte, inputs: nat -> PskInput,
                                        i: nat, left: nat)
    requires SessionsOk(cr, base, s)
    ensures var r := Retry(PskAttempt(cr, hashType), s, inputs, i, left);
            && SessionsOk(cr, base, r.ctx)
            && (r.status == Success ==>
                  if NeedsPskFinish(base) then PskAwaiting(cr, base, r.ctx, r.out)
                  else IsEstablished(cr, r.ctx, r.out, true))
    decreases left
  {
    hide SessionsOk, PskAwaiting, TryPskExchange, IsEstablished, NeedsPskFinish;
    PskKeeps(cr, base, s, hashType, inputs(i));
    var r := TryPskExchange(cr, s, hashType, inputs(i));
    assert PskAttempt(cr, hashType)(s, inputs(i)) == r;
    if r.status == NoResponse && left > 0 {
      PskCallKeeps(cr, base, r.ctx, hashType, inputs, i + 1, left - 1);
    }
  }

  lemma {:induction false} PskFinishCallKeeps(cr: Crypto, base: Context, s: Context, id: u32,
                                              replies: nat -> PskFinishInput, i: nat, left: nat)
    requires SessionsOk(cr, base, s) && PskAwaiting(cr, base, s, id)
    ensures var r := Retry(PskFinishAttempt(cr, id), s, replies, i, left);
            SessionsOk(cr, base, r.ctx) && (r.status == Success ==> IsEstablished(cr, r.ctx, id, true))
    decreases left
  {
    hide SessionsOk, PskAwaiting, TryPskFinish, IsEstablished;
    PskFinishKeeps(cr, base, s, id, replies(i));
    var r := TryPskFinish(cr, s, id, replies(i));
    assert PskFinishAttempt(cr, id)(s, replies(i)) == r;
    if r.status == NoResponse && left > 0 {
      PskFinishCallKeeps(cr, base, r.ctx, id, replies, i + 1, left - 1);
    }
  }

  lemma {:induction false} StopKeeps(cr: Crypto, base: Context, s: Context, id: u32, replies: nat -> Reply, i: nat,
                                     left: nat)
    requires SessionsOk(cr, base, s)
    ensures SessionsOk(cr, base, Retry(EndAttempt(id), s, replies, i, left).ctx)
    decreases left
  {
    hide SessionsOk, TryEndSession;
    EndKeeps(cr, base, s, id, replies(i));
    var r := TryEndSession(s, id, replies(i));
    assert EndAttempt(id)(s, replies(i)) == r;
    if r.status == NoResponse && left > 0 {
      StopKeeps(cr, base, r.ctx, id, replies, i + 1, left - 1);
    }
  }

  /** SpdmStartSession of either kind keeps the invariant, and a successful one leaves its session established. */
  lemma StartKeeps(cr: Crypto, base: Context, s: Context, usePsk: bool, hashType: byte, slot: byte, x: StartInput)
    requires SessionsOk(cr, base, s)
    ensures SizeLaws(cr) ==>
              var r := if usePsk then StartPsk(cr, s, hashType, x) else StartDhe(cr, s, hashType, slot, x);
              SessionsOk(cr, base, r.ctx) && (r.status == Success ==> IsEstablished(cr, r.ctx, r.out, usePsk))
  {
    var left := s.local.retryTimes;
    if usePsk {
      PskCallKeeps(cr, base, s, hashType, x.psk, 0, left);
      var k := Retry(PskAttempt(cr, hashType), s, x.psk, 0, left);
      assert NeedsPskFinish(base) == NeedsPskFinish(k.ctx) by {
        hide And;
      }
      if k.status == Success && NeedsPskFinish(k.ctx) {
        PskFinishCallKeeps(cr, base, k.ctx, k.out, x.pskFinish, 0, left);
      }
    } else {
      hide SessionsOk, IsEstablished, Exchanged, SizeLaws;
      KexCallKeeps(cr, base, s, hashType, slot, x.kex, 0, left);
      var k := Retry(KexAttempt(cr, hashType, slot), s, x.kex, 0, left);
      if SizeLaws(cr) && k.status == Success {
        var y := k.ctx.sessions[FindSession(k.ctx.sessions, k.out.sessionId).value];
        match MutualAuth(y.mutAuthRequested, k.out.reqSlotParam, x.encapStatus, x.encapSlot)
        case GiveUp(_) => GiveUpIsFailure(y.mutAuthRequested, k.out.reqSlotParam, x.encapStatus, x.encapSlot);
        case Proceed(param) => FinishCallKeeps(cr, base, k.ctx, k.out.sessionId, param, x.finish, 0, left);
      }
    }
  }

  lemma GiveUpIsFailure(mutAuthRequested: byte, param: byte, encapStatus: Status, encapSlot: Option<byte>)
    ensures var r := MutualAuth(mutAuthRequested, param, encapStatus, encapSlot);
            r.GiveUp? ==> r.status != Success
  {
  }

  /**
   Over every run of starts and stops with arbitrary replies: the live session in slot i carries
   requester half 0xFFFF - i, and every session established since `base` passed its gates.
   */
  lemma {:induction false} RunsStayGated(cr: Crypto, base: Context, s: Context, calls: seq<SessionCall>)
    requires SessionsOk(cr, base, s)
    ensures SizeLaws(cr) ==> SessionsOk(cr, base, Calls(cr, s, calls))
    decreases |calls|
  {
    hide SessionsOk, SizeLaws, StartPsk, StartDhe, IsEstablished;
    if SizeLaws(cr) && calls != [] {
      var c := calls[0];
      match c {
        case Start(usePsk, hashType, slot, x) => StartKeeps(cr, base, s, usePsk, hashType, slot, x);
        case Stop(id, replies) => StopKeeps(cr, base, s, id, replies, 0, s.local.retryTimes);
      }
      RunsStayGated(cr, base, Call(cr, s, c).1, calls[1..]);
    }
  }
}
