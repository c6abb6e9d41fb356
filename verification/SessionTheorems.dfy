/** The main statements about sessions. */
module SessionTheorems {
  import opened Bytes
  import opened Spdm
  import opened Crypto
  import opened ManagedBuffers
  import opened DeviceContext
  import opened Exchanges
  import opened Retrying
  import opened ConnectionRequester
  import opened SessionTable
  import opened TranscriptHash
  import opened SessionRequester
  import opened SessionCalls
  import opened SessionEffects
  import opened SessionGating
  import opened SessionRuns

  /** No session is in use, as after SpdmInitContext. */
  ghost predicate NoSessions(s: Context) {
    forall i :: 0 <= i < MAX_SESSIONS ==> s.sessions[i] == FreshSession(INVALID_SESSION_ID, false)
  }

  /**
   Coherence over whole runs: whatever half-IDs the responder picks, a live session sits in the slot
   its requester half names, live IDs are distinct, and the next start either finds the table full or
   takes a free slot that allocator and assigner agree on, with no duplicate in the way.
   */
  lemma RunsStayCoherent(cr: Crypto, s: Context, calls: seq<SessionCall>, responderHalf: u16)
    requires NoSessions(s)
    ensures SizeLaws(cr) ==>
              var t := Calls(cr, s, calls);
              var id := SessionIdOf(AllocateRequesterHalf(t.sessions), responderHalf);
              && (forall i :: 0 <= i < MAX_SESSIONS && t.sessions[i].id != INVALID_SESSION_ID ==>
                    RequesterHalf(t.sessions[i].id) == 0xFFFF - i)
              && (forall i, j :: 0 <= i < j < MAX_SESSIONS && t.sessions[i].id != INVALID_SESSION_ID ==>
                    t.sessions[i].id != t.sessions[j].id)
              && (Full(t.sessions) ==> AssignSlot(t.sessions, id).None?)
              && (!Full(t.sessions) ==>
                    && FindFrom(t.sessions, id, 0).None?
                    && AssignSlot(t.sessions, id) == Some(0xFFFF - AllocateRequesterHalf(t.sessions)))
  {
    hide SizeLaws, Gated, Calls, AllocateRequesterHalf, AssignSlot, FindFrom;
    FreshIsCoherent(s);
    RunsStayGated(cr, s, s, calls);
    if SizeLaws(cr) {
      var t := Calls(cr, s, calls);
      if Full(t.sessions) {
        FullTableRefuses(t.sessions, responderHalf);
      } else {
        AllocatorAndAssignerAgree(t.sessions, responderHalf, false);
      }
    }
  }

  lemma FreshIsGated(cr: Crypto, s: Context)
    ensures Gated(cr, s, FreshSession(INVALID_SESSION_ID, false))
  {
  }

  /**
   Gating over whole runs: every established DHE session had exactly one KEY_EXCHANGE_RSP signature
   accepted, and exactly one responder MAC: over the TH1 bytes when it came in KEY_EXCHANGE_RSP, over the
   TH2 bytes up to itself when the handshake is in the clear. An established PSK session had its one
   PSK_EXCHANGE_RSP MAC accepted.
   */
  lemma EstablishedMeansAuthenticated(cr: Crypto, s: Context, calls: seq<SessionCall>, i: nat)
    requires NoSessions(s) && i < MAX_SESSIONS
    ensures SizeLaws(cr) && Calls(cr, s, calls).sessions[i].phase == Established ==>
              var x := Calls(cr, s, calls).sessions[i];
              && |x.macs| == 1 && MacValid(cr, s, x, x.macs[0])
              && (!x.usePsk ==>
                    && |x.signatures| == 1 && PeerChainData(s).Some?
                    && cr.verify(s.algorithms.baseAsym, s.algorithms.baseHash, PeerChainData(s).value,
                                 x.signatures[0].transcript, x.signatures[0].signature)
                    && Head(cr, s) + x.messageK == TH1Bytes(x) + ExchangeMac(x)
                    && x.inTheClear == InTheClear(s)
                    && (!x.inTheClear ==> x.macs[0].transcript == TH1Bytes(x))
                    && (x.inTheClear ==>
                          exists mutual, request, response :: Finished(cr, s, x, mutual, request, response)))
              && (x.usePsk ==> s.messageA + x.messageK == x.macs[0].transcript + x.macs[0].mac)
  {
    hide SizeLaws, Calls, Finished, Coherent, PeerChainData, Head;
    FreshIsCoherent(s);
    FreshIsGated(cr, s);
    RunsStayGated(cr, s, s, calls);
  }

  lemma FreshIsCoherent(s: Context)
    requires NoSessions(s)
    ensures Coherent(s.sessions)
  {
  }

  /** A full table makes every start fail and changes nothing in it. */
  lemma FullTableStartFails(cr: Crypto, s: Context, usePsk: bool, hashType: byte, slot: byte, x: StartInput)
    requires Coherent(s.sessions) && Full(s.sessions)
    ensures var r := if usePsk then StartPsk(cr, s, hashType, x) else StartDhe(cr, s, hashType, slot, x);
            r.status != Success && r.ctx.sessions == s.sessions
  {
    if usePsk {
      FullTablePsk(cr, s, hashType, x.psk, 0, s.local.retryTimes);
    } else {
      FullTableKex(cr, s, hashType, slot, x.kex, 0, s.local.retryTimes);
    }
  }

  lemma {:induction false} FullTableKex(cr: Crypto, s: Context, hashType: byte, slot: byte, inputs: nat -> KexInput,
                                        i: nat, left: nat)
    requires Coherent(s.sessions) && Full(s.sessions)
    ensures var r := Retry(KexAttempt(cr, hashType, slot), s, inputs, i, left);
            r.status != Success && r.ctx.sessions == s.sessions
    decreases left
  {
    hide TryKeyExchange, Coherent, Full;
    KeyExchangeEffect(cr, s, hashType, slot, inputs(i));
    var r := TryKeyExchange(cr, s, hashType, slot, inputs(i));
    assert KexAttempt(cr, hashType, slot)(s, inputs(i)) == r;
    if r.status == NoResponse && left > 0 {
      FullTableKex(cr, r.ctx, hashType, slot, inputs, i + 1, left - 1);
    }
  }

  lemma {:induction false} FullTablePsk(cr: Crypto, s: Context, hashType: byte, inputs: nat -> PskInput, i: nat,
                                        left: nat)
    requires Coherent(s.sessions) && Full(s.sessions)
    ensures var r := Retry(PskAttempt(cr, hashType), s, inputs, i, left);
            r.status != Success && r.ctx.sessions == s.sessions
    decreases left
  {
    hide Coherent, Full, MayExchangePsk, PskAlgorithmsOk, AssignSlot, AllocateRequesterHalf, PskExchangeRequest,
         JudgePskExchange;
    var o := LongOutcome(inputs(i).reply, PSK_EXCHANGE_RSP, PSK_EXCHANGE_MAX);
    if o.Answer? && |o.message| >= 12 {
      FullTableRefuses(s.sessions, At16(o.message, 4));
    }
    var r := TryPskExchange(cr, s, hashType, inputs(i));
    assert PskAttempt(cr, hashType)(s, inputs(i)) == r;
    assert r.status != Success && r.ctx.sessions == s.sessions;
    if r.status == NoResponse && left > 0 {
      FullTablePsk(cr, r.ctx, hashType, inputs, i + 1, left - 1);
    }
  }

  // ---------- Failure atomicity of KEY_EXCHANGE ----------

  /** The response takes the exit that skips the clean-up: it gets a session and announces oversized opaque data. */
  ghost predicate KexLeaks(s: Context, hashType: byte, slot: byte, x: KexInput) {
    && KexAnswered(s, slot, x) && !Full(s.sessions)
    && OversizedOpaque(s, hashType, LongOutcome(x.reply, KEY_EXCHANGE_RSP, KEY_EXCHANGE_MAX).message)
  }

  /**
   A failed attempt leaves the set of live IDs as it was, and every attempt that made a Diffie-Hellman
   context frees it exactly once, if and only if the attempt does not take that exit.
   */
  lemma KeyExchangeIsAtomic(cr: Crypto, s: Context, hashType: byte, slot: byte, x: KexInput)
    requires Coherent(s.sessions)
    ensures var r := TryKeyExchange(cr, s, hashType, slot, x);
            SizeLaws(cr) ==>
              && r.out.dheCreated <= 1
              && (r.out.dheFreed == r.out.dheCreated <==> !KexLeaks(s, hashType, slot, x))
              && (r.status != Success && LiveIds(r.ctx.sessions) != LiveIds(s.sessions) <==>
                    KexLeaks(s, hashType, slot, x))
              && (KexLeaks(s, hashType, slot, x) ==>
                    r.status == SecurityViolation && |LiveIds(r.ctx.sessions) - LiveIds(s.sessions)| == 1)
  {
    hide SizeLaws, VerdictOn, MayExchangeKeys, KexParametersOk, ReqSlotOk, AllocateRequesterHalf, AssignSlot,
         TryKeyExchange, Exchanged, Full, KeyExchangeRequest, OversizedOpaque, LiveIds, Coherent;
    var r := TryKeyExchange(cr, s, hashType, slot, x);
    CreatedAtMostOnce(cr, s, hashType, slot, x);
    KeyExchangeEffect(cr, s, hashType, slot, x);
    if SizeLaws(cr) && KexAnswered(s, slot, x) && !Full(s.sessions) {
      var id := KexId(s, slot, x);
      var i := AssignSlot(s.sessions, id).value;
      var m := LongOutcome(x.reply, KEY_EXCHANGE_RSP, KEY_EXCHANGE_MAX).message;
      var share := cr.dheShare(s.algorithms.dhe, x.seed);
      var s0 := s.(errorState := NoCapabilities);
      KexRequestSize(cr, s, hashType, slot, AllocateRequesterHalf(s.sessions), x.random, x.seed);
      VerdictIsGated(cr, s0, id, hashType,
                     KeyExchangeRequest(s, hashType, slot, AllocateRequesterHalf(s.sessions), x.random, share), share,
                     m);
      assert OversizedOpaque(s, hashType, m) == OversizedOpaque(s0, hashType, m) by { SameOpaque(s, hashType, m); }
      match KexVerdictOf(cr, s, hashType, slot, x) {
        case Rejected(_, _) => FreedIdsStay(s.sessions, i, FreshSession(INVALID_SESSION_ID, false));
        case Kept(y) => TakenIdIsNew(s.sessions, i, y);
        case Accepted(y) =>
      }
    }
  }

  lemma SameOpaque(s: Context, hashType: byte, m: seq<byte>)
    ensures OversizedOpaque(s, hashType, m) == OversizedOpaque(s.(errorState := NoCapabilities), hashType, m)
  {
    assert KexLayoutOf(s, hashType) == KexLayoutOf(s.(errorState := NoCapabilities), hashType);
  }

  lemma CreatedAtMostOnce(cr: Crypto, s: Context, hashType: byte, slot: byte, x: KexInput)
    ensures TryKeyExchange(cr, s, hashType, slot, x).out.dheCreated <= 1
  {
    hide VerdictOn, IsCapable, AllocateRequesterHalf, AssignSlot, ReqSlotOk, KeyExchangeRequest;
  }

  lemma FreedIdsStay(sessions: seq<Session>, i: nat, x: Session)
    requires i < |sessions| && sessions[i].id == INVALID_SESSION_ID && x.id == INVALID_SESSION_ID
    ensures LiveIds(sessions[i := x]) == LiveIds(sessions)
  {
    var after := sessions[i := x];
    forall id | id in LiveIds(sessions) ensures id in LiveIds(after) {
      var j :| 0 <= j < |sessions| && sessions[j].id == id;
      assert after[j].id == id;
    }
  }

  lemma TakenIdIsNew(sessions: seq<Session>, i: nat, x: Session)
    requires i < |sessions| && sessions[i].id == INVALID_SESSION_ID && x.id != INVALID_SESSION_ID
    requires forall j :: 0 <= j < |sessions| ==> sessions[j].id != x.id
    ensures LiveIds(sessions[i := x]) == LiveIds(sessions) + {x.id} && x.id !in LiveIds(sessions)
    ensures LiveIds(sessions[i := x]) - LiveIds(sessions) == {x.id}
  {
    var after := sessions[i := x];
    assert after[i].id == x.id;
    forall id | id in LiveIds(sessions) ensures id in LiveIds(after) {
      var j :| 0 <= j < |sessions| && sessions[j].id == id;
      assert after[j].id == id;
    }
  }

  /** A response that announces 0xFFFF bytes of opaque data. */
  ghost function LeakingResponse(s: Context, hashType: byte): (m: seq<byte>) {
    var l := KexLayoutOf(s, hashType);
    [VERSION_11, KEY_EXCHANGE_RSP] + Zeros(38 + l.share + l.summary) + [0xFF, 0xFF] + Zeros(l.signature + l.mac)
  }

  /** Any coherent table with room loses a slot to it: the session stays live though the call failed. */
  lemma SomeResponseLeaks(cr: Crypto, s: Context, hashType: byte, random: Nonce, seed: seq<byte>)
    requires MayExchangeKeys(s) && Coherent(s.sessions) && !Full(s.sessions)
    ensures KexLeaks(s, hashType, 0, KexInput(random, seed, Says(LeakingResponse(s, hashType))))
  {
    hide IsCapable, Full;
    var l := KexLayoutOf(s, hashType);
    var m := LeakingResponse(s, hashType);
    var n := 40 + l.share + l.summary;
    assert m[1] == KEY_EXCHANGE_RSP && m[6] == 0 && m[7] == 0;
    assert m[n] == 0xFF && m[n + 1] == 0xFF;
    assert At16(m, n) == 0xFFFF;
  }

  // ---------- Failure atomicity of PSK_EXCHANGE ----------

  /** The response a PSK_EXCHANGE attempt gets to judge. */
  ghost predicate PskAnswered(s: Context, x: PskInput) {
    var o := LongOutcome(x.reply, PSK_EXCHANGE_RSP, PSK_EXCHANGE_MAX);
    MayExchangePsk(s) && PskAlgorithmsOk(s) && o.Answer? && 12 <= |o.message| <= PSK_EXCHANGE_MAX
  }

  /** The request of the attempt. */
  ghost function PskRequestOf(s: Context, hashType: byte, x: PskInput): seq<byte> {
    PskExchangeRequest(s, hashType, AllocateRequesterHalf(s.sessions), x.random)
  }

  /**
   The exits that leave a session behind: K cannot take the request, or the response is accepted, the responder keeps
   no context, and TH2 or the data keys fail after that.
   */
  ghost predicate PskLeaks(cr: Crypto, s: Context, hashType: byte, x: PskInput) {
    && PskAnswered(s, x) && !Full(s.sessions)
    && var m := LongOutcome(x.reply, PSK_EXCHANGE_RSP, PSK_EXCHANGE_MAX).message;
       var req := PskRequestOf(s, hashType, x);
       var id := SessionIdOf(AllocateRequesterHalf(s.sessions), At16(m, 4));
       var s0 := s.(errorState := NoCapabilities);
       var v := JudgePskExchange(cr, s0, FreshSession(id, true).(messageK := req), hashType, m);
       || |req| > MAX_MESSAGE_BUFFER
       || (v.PskAccepted? && !NeedsPskFinish(s0) && Establish(cr, s0, v.session).None?)
  }

  /** A failed PSK_EXCHANGE attempt leaves the set of live IDs as it was if and only if it takes neither exit. */
  lemma PskExchangeIsAtomic(cr: Crypto, s: Context, hashType: byte, x: PskInput)
    requires Coherent(s.sessions)
    ensures var r := TryPskExchange(cr, s, hashType, x);
            && (r.status != Success && LiveIds(r.ctx.sessions) != LiveIds(s.sessions) <==> PskLeaks(cr, s, hashType, x))
            && (PskLeaks(cr, s, hashType, x) ==>
                  r.status == SecurityViolation && LiveIds(r.ctx.sessions) == LiveIds(s.sessions) + {r.out}
                  && r.out !in LiveIds(s.sessions))
  {
    hide MayExchangePsk, PskAlgorithmsOk, AllocateRequesterHalf, AssignSlot, PskExchangeRequest, JudgePskExchange, TH2,
         Full, Coherent, LiveIds, NeedsPskFinish;
    var o := LongOutcome(x.reply, PSK_EXCHANGE_RSP, PSK_EXCHANGE_MAX);
    var r := TryPskExchange(cr, s, hashType, x);
    if PskAnswered(s, x) {
      var m := o.message;
      var half := AllocateRequesterHalf(s.sessions);
      if Full(s.sessions) {
        FullTableRefuses(s.sessions, At16(m, 4));
      } else {
        AllocatorAndAssignerAgree(s.sessions, At16(m, 4), true);
        var id := SessionIdOf(half, At16(m, 4));
        var i := AssignSlot(s.sessions, id).value;
        var req := PskRequestOf(s, hashType, x);
        var s0 := s.(errorState := NoCapabilities);
        var y := PskOutcome(cr, s0, id, hashType, req, m);
        assert [] + req == req;
        JudgedPskKeepsId(cr, s0, FreshSession(id, true).(messageK := req), hashType, m);
        assert r.ctx.sessions == s.sessions[i := y.session] && r.status == y.status && r.out == id;
        if y.session.id == INVALID_SESSION_ID {
          FreedIdsStay(s.sessions, i, y.session);
        } else {
          assert y.session.id == id;
          TakenIdIsNew(s.sessions, i, y.session);
        }
      }
    }
  }

  lemma JudgedPskKeepsId(cr: Crypto, s: Context, x: Session, hashType: byte, m: seq<byte>)
    requires |m| >= 12
    ensures match JudgePskExchange(cr, s, x, hashType, m)
            case PskRejected(status, _) => status != Success
            case PskAccepted(y) => y.id == x.id
  {
    hide VersionSelectionOk, TH1, TH1Data, VerifyPskExchangeHmac, SummaryHashSize, HashSize;
  }

  /** KEY and MAC material of a PSK_EXCHANGE_RSP that says nothing but its MAC. */
  ghost function PskBody(s: Context, hashType: byte): (m: seq<byte>)
    ensures |m| == 12 + SummaryHashSize(s, true, hashType) && m[1] == PSK_EXCHANGE_RSP
            && forall i :: 2 <= i < |m| ==> m[i] == 0
  {
    [VERSION_11, PSK_EXCHANGE_RSP] + Zeros(10 + SummaryHashSize(s, true, hashType))
  }

  /**
   The leak is within reach of a responder that does everything right: its MAC is accepted, and then the data keys
   cannot be derived. The call fails and the session stays, handshaking.
   */
  lemma SomePskResponseLeaks(cr: Crypto, s: Context, hashType: byte, x: PskInput, keys: Keys)
    requires MayExchangePsk(s) && PskAlgorithmsOk(s) && Coherent(s.sessions) && !Full(s.sessions) && !NeedsPskFinish(s)
    requires s.local.securedVersionCount == 0 && |s.messageA| <= MAX_SMALL_BUFFER && |s.local.pskHint| <= 16
             && SizeLaws(cr)
    requires var th1 := s.messageA + (PskRequestOf(s, hashType, x) + PskBody(s, hashType));
             var mac := cr.hmac(s.algorithms.baseHash, keys.responseFinished, th1);
             && cr.handshakeKeys(s.algorithms.baseHash, cr.psk(s.local.pskHint), Hashed(cr, s, th1)) == Some(keys)
             && x.reply == Says(PskBody(s, hashType) + mac)
             && !cr.dataKeys(s.algorithms.baseHash, cr.psk(s.local.pskHint), Hashed(cr, s, th1 + mac))
    ensures PskLeaks(cr, s, hashType, x)
  {
    hide Full, Coherent, MayExchangePsk, PskAlgorithmsOk, NeedsPskFinish, AllocateRequesterHalf, IsCapable,
         SummaryHashSize, HashSize;
    var req := PskRequestOf(s, hashType, x);
    var body := PskBody(s, hashType);
    var th1 := s.messageA + (req + body);
    var mac := cr.hmac(s.algorithms.baseHash, keys.responseFinished, th1);
    var m := body + mac;
    assert |mac| == HashSize(s.algorithms.baseHash);
    SmallSummary(s, hashType);
    assert LongOutcome(x.reply, PSK_EXCHANGE_RSP, PSK_EXCHANGE_MAX) == Answer(m);
    assert At16(m, 8) == 0 && At16(m, 10) == 0;
    var end := |body|;
    assert m[..end] == body && m[end..end + |mac|] == mac;
    var s0 := s.(errorState := NoCapabilities);
    var id := SessionIdOf(AllocateRequesterHalf(s.sessions), At16(m, 4));
    assert SummaryHashSize(s0, true, hashType) == SummaryHashSize(s, true, hashType) by { SameSummary(s, hashType); }
    var x1 := FreshSession(id, true).(messageK := req + body);
    PskMacAccepted(cr, s0, x1, keys, mac);
    assert NeedsPskFinish(s0) == NeedsPskFinish(s) by { SameNeed(s); }
  }

  lemma SmallSummary(s: Context, hashType: byte)
    ensures SummaryHashSize(s, true, hashType) <= MAX_HASH
  {
  }

  lemma SameSummary(s: Context, hashType: byte)
    ensures SummaryHashSize(s.(errorState := NoCapabilities), true, hashType) == SummaryHashSize(s, true, hashType)
  {
  }

  lemma SameNeed(s: Context)
    ensures NeedsPskFinish(s.(errorState := NoCapabilities)) == NeedsPskFinish(s)
  {
  }

  /** A right MAC is accepted, and without data keys the session is not established. */
  lemma PskMacAccepted(cr: Crypto, s: Context, x: Session, keys: Keys, mac: seq<byte>)
    requires x.usePsk && x.messageF == [] && |s.messageA + x.messageK + mac| <= MAX_MESSAGE_BUFFER
    requires cr.handshakeKeys(s.algorithms.baseHash, cr.psk(s.local.pskHint), Hashed(cr, s, s.messageA + x.messageK))
               == Some(keys)
    requires mac == cr.hmac(s.algorithms.baseHash, keys.responseFinished, s.messageA + x.messageK)
    ensures var v := JudgePskMac(cr, s, x, mac);
            && v.PskAccepted?
            && (!cr.dataKeys(s.algorithms.baseHash, cr.psk(s.local.pskHint),
                             Hashed(cr, s, s.messageA + x.messageK + mac)) ==>
                  Establish(cr, s, v.session).None?)
  {
    assert s.messageA + [] == s.messageA;
    var k := s.messageA + x.messageK;
    assert k + [] == k;
    assert s.messageA + (x.messageK + mac) == k + mac;
    assert k + mac + [] == k + mac && k + mac + [] + [] == k + mac;
  }

  // ---------- TH prefix ----------

  /**
   In every successful DHE start, what TH2 hashes is what TH1 hashed, then the optional KEY_EXCHANGE
   HMAC, the optional digest of the requester's chain, and F: the FINISH request and its response. The handshake keys
   were made from TH1, the data keys from TH2.
   */
  lemma TH1IsPrefixOfTH2(cr: Crypto, base: Context, calls: seq<SessionCall>, hashType: byte, slot: byte, x: StartInput)
    requires NoSessions(base)
    ensures var r := StartDhe(cr, Calls(cr, base, calls), hashType, slot, x);
            SizeLaws(cr) && r.status == Success ==>
              && FindSession(r.ctx.sessions, r.out).Some?
              && var y := r.ctx.sessions[FindSession(r.ctx.sessions, r.out).value];
              !y.usePsk && |y.signatures| == 1 && PrefixHolds(cr, r.ctx, y)
  {
    hide SizeLaws, Finished, Coherent, PeerChainData, Head, Signed, MutualDigest, StartDhe, FindSession, TH2Data,
         Calls;
    FreshIsCoherent(base);
    FreshIsGated(cr, base);
    RunsStayGated(cr, base, base, calls);
    if SizeLaws(cr) {
      var s := Calls(cr, base, calls);
      StartKeeps(cr, base, s, false, hashType, slot, x);
      var r := StartDhe(cr, s, hashType, slot, x);
      if r.status == Success {
        var y := r.ctx.sessions[FindSession(r.ctx.sessions, r.out).value];
        SameGates(cr, base, r.ctx, y);
        PrefixFromGates(cr, r.ctx, y);
      }
    }
  }

  /** The decomposition of TH2, over the context that holds the session. */
  ghost predicate PrefixHolds(cr: Crypto, t: Context, y: Session)
    requires |y.signatures| == 1
  {
    && cr.handshakeKeys(t.algorithms.baseHash, y.secret, Hashed(cr, t, TH1Bytes(y))) == Some(y.keys)
    && TH2Data(cr, t, y, true) == Some(TH1Bytes(y) + ExchangeMac(y) + MutualDigest(cr, t, y) + y.messageF)
    && cr.dataKeys(t.algorithms.baseHash, y.secret,
                   Hashed(cr, t, TH1Bytes(y) + ExchangeMac(y) + MutualDigest(cr, t, y) + y.messageF))
    && (y.mutAuthRequested == 0 ==> MutualDigest(cr, t, y) == [])
    && (y.inTheClear ==> ExchangeMac(y) == [])
    && exists mutual, request, response :: Finished(cr, t, y, mutual, request, response)
  }

  lemma PrefixFromGates(cr: Crypto, t: Context, y: Session)
    requires !y.usePsk && DheGated(cr, t, y) && KeyedByTH2(cr, t, y)
    ensures |y.signatures| == 1 && PrefixHolds(cr, t, y)
  {
    hide Finished, PeerChainData, TH2Data, Head;
    TH2Bytes(cr, t, y);
  }
}
