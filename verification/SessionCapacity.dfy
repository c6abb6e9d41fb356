/**
 Session transcripts never run out of room. The reference below is the same DHE start on transcripts
 without any bound, where messages are concatenated and transcripts hashed directly; the code on its
 fixed buffers computes the same thing.
 */
module SessionCapacity {
  import opened Bytes
  import opened Spdm
  import opened Crypto
  import opened ManagedBuffers
  import opened DeviceContext
  import opened Exchanges
  import opened Retrying
  import opened ConnectionRequester
  import opened SessionTable
  import opened TranscriptHash
  import opened SessionRequester
  import opened SessionCalls
  import opened SessionEffects
  import opened SessionGating
  import opened SessionRuns
  import opened SessionTheorems

  // ---------- KEY_EXCHANGE without bounds ----------

  ghost function UnboundedMac(cr: Crypto, s: Context, x: Session, mac: seq<byte>): KexVerdict {
    var th := Head(cr, s) + x.messageK;
    if InTheClear(s) then Accepted(x.(phase := Handshaking, inTheClear := true))
    else if mac != cr.hmac(s.algorithms.baseHash, x.keys.responseFinished, th) then
      Rejected(SecurityViolation, KeyExchangeFailure)
    else
      var evidence := AcceptedMac(s.algorithms.baseHash, x.keys.responseFinished, th, mac);
      Accepted(x.(messageK := x.messageK + mac, phase := Handshaking, inTheClear := false, macs := x.macs + [evidence]))
  }

  ghost function UnboundedSignature(cr: Crypto, s: Context, x: Session, share: seq<byte>, peerShare: seq<byte>,
                                    signature: seq<byte>, mac: seq<byte>): KexVerdict {
    var chain := PeerChainData(s);
    var th := Head(cr, s) + x.messageK;
    if chain.None? || !cr.verify(s.algorithms.baseAsym, s.algorithms.baseHash, chain.value, th, signature) then
      Rejected(SecurityViolation, KeyExchangeFailure)
    else
      var secret := cr.dheSecret(s.algorithms.dhe, share, peerShare);
      if secret.None? then Rejected(SecurityViolation, NoCapabilities)
      else
        var keys := cr.handshakeKeys(s.algorithms.baseHash, secret.value, Hashed(cr, s, th + signature));
        if keys.None? then Rejected(SecurityViolation, NoCapabilities)
        else
          var evidence := AcceptedSignature(s.algorithms.baseAsym, s.algorithms.baseHash, chain.value, th, signature);
          UnboundedMac(cr, s, x.(messageK := x.messageK + signature, secret := secret.value, keys := keys.value,
                                   signatures := x.signatures + [evidence]), mac)
  }

  ghost function UnboundedVerdict(cr: Crypto, s: Context, id: u32, hashType: byte, req: seq<byte>, share: seq<byte>,
                                  m: seq<byte>): KexVerdict {
    var l := KexLayoutOf(s, hashType);
    var fixed := 42 + l.share + l.summary;
    var x := FreshSession(id, false).(messageK := req);
    if |m| < fixed + l.signature + l.mac then Rejected(DeviceError, NoCapabilities)
    else
      var end: nat := fixed + At16(m, fixed - 2) as int;
      if end > fixed + MAX_OPAQUE then Kept(x)
      else if |m| < end + l.signature + l.mac then Rejected(DeviceError, NoCapabilities)
      else if !VersionSelectionOk(s.local, m[fixed..end]) then Rejected(Unsupported, NoCapabilities)
      else UnboundedSignature(cr, s, x.(messageK := req + m[..end], mutAuthRequested := m[6]), share,
                              m[40..40 + l.share],
                              m[end..end + l.signature], m[end + l.signature..end + l.signature + l.mac])
  }

  /** An attempt that has no response to judge appends nothing. */
  ghost function UnboundedKeyExchange(cr: Crypto, s: Context, hashType: byte, slot: byte, x: KexInput): Step<KexOut> {
    if !KexAnswered(s, slot, x) || AssignSlot(s.sessions, KexId(s, slot, x)).None? then
      TryKeyExchange(cr, s, hashType, slot, x)
    else
      var share := cr.dheShare(s.algorithms.dhe, x.seed);
      var m := LongOutcome(x.reply, KEY_EXCHANGE_RSP, KEY_EXCHANGE_MAX).message;
      var s0 := s.(errorState := NoCapabilities);
      var id := KexId(s, slot, x);
      var req := KeyExchangeRequest(s, hashType, slot, AllocateRequesterHalf(s.sessions), x.random, share);
      Settled(s0, AssignSlot(s.sessions, id).value, id, m[7], UnboundedVerdict(cr, s0, id, hashType, req, share, m))
  }

  // ---------- FINISH without bounds ----------

  /** The transcript FINISH signs, MACs and hashes; none without the chains it needs. */
  ghost function UnboundedTH2(cr: Crypto, s: Context, x: Session): Option<seq<byte>> {
    if PeerChainData(s).None? || (x.mutAuthRequested != 0 && LocalChainData(s).None?) then None
    else Some(Head(cr, s) + x.messageK + MutualDigest(cr, s, x) + x.messageF)
  }

  ghost function UnboundedFinishMac(cr: Crypto, s: Context, x: Session): Built {
    var th := UnboundedTH2(cr, s, x);
    if th.None? then Built(false, x)
    else Built(true, x.(messageF := x.messageF + cr.hmac(s.algorithms.baseHash, x.keys.requestFinished, th.value)))
  }

  ghost function UnboundedBuild(cr: Crypto, s: Context, x: Session, header: seq<byte>): Built {
    var b := x.(messageF := x.messageF + header);
    var th := UnboundedTH2(cr, s, b);
    if x.mutAuthRequested == 0 then UnboundedFinishMac(cr, s, b)
    else if th.None? then Built(false, b)
    else
      var signature := cr.requesterSign(s.algorithms.reqBaseAsym, s.algorithms.baseHash, th.value);
      if signature.None? then Built(false, b)
      else UnboundedFinishMac(cr, s, b.(messageF := b.messageF + signature.value))
  }

  ghost function UnboundedConclude(cr: Crypto, s: Context, x: Session): SessionStep {
    var th := UnboundedTH2(cr, s, x);
    if th.None? || !cr.dataKeys(s.algorithms.baseHash, x.secret, Hashed(cr, s, th.value)) then
      SessionStep(SecurityViolation, x)
    else SessionStep(Success, x.(phase := Established))
  }

  ghost function UnboundedJudge(cr: Crypto, s: Context, x: Session, m: seq<byte>): SessionStep {
    var h := if InTheClear(s) then HashSize(s.algorithms.baseHash) else 0;
    if |m| != 4 + h then SessionStep(DeviceError, x)
    else
      var b := x.(messageF := x.messageF + m[..4]);
      var th := UnboundedTH2(cr, s, b);
      if !InTheClear(s) then UnboundedConclude(cr, s, b)
      else if th.None? || m[4..] != cr.hmac(s.algorithms.baseHash, x.keys.responseFinished, th.value) then
        SessionStep(SecurityViolation, b)
      else
        var evidence := AcceptedMac(s.algorithms.baseHash, x.keys.responseFinished, th.value, m[4..]);
        UnboundedConclude(cr, s, b.(messageF := b.messageF + m[4..], macs := b.macs + [evidence]))
  }

  ghost function UnboundedFinish(cr: Crypto, s: Context, id: u32, param: byte, reply: Reply): Step<()> {
    var found := FindSession(s.sessions, id);
    if !MayExchangeKeys(s) || found.None? || s.sessions[found.value].phase != Handshaking
       || !FinishSlotOk(s, s.sessions[found.value], param) then TryFinish(cr, s, id, param, reply)
    else
      var i := found.value;
      var x := s.sessions[i];
      var s0 := WithLocalChain(s.(errorState := NoCapabilities), x, param);
      var built := UnboundedBuild(cr, s0, x, FinishHeader(x, param));
      if !built.complete then Stored(s0, i, SessionStep(SecurityViolation, built.session))
      else
        match LongOutcome(reply, FINISH_RSP, FINISH_MAX)
        case Refused(code) => Stored(AfterRefusal(s0, code), i, SessionStep(RefusalStatus(code), x))
        case Answer(m) => Stored(s0, i, UnboundedJudge(cr, s0, built.session, m))
        case _ => Stored(s0, i, SessionStep(DeviceError, built.session))
  }

  // ---------- The code never meets a bound ----------

  const MAX_F: nat := 4 + MAX_ASYM_KEY + MAX_HASH + FINISH_MAX
  const MAX_TH: nat := MAX_SMALL_BUFFER + MAX_HASH + MAX_K + MAX_HASH + MAX_F

  /** The longest transcript has 3824 bytes, and the buffer 4608. */
  lemma LongestTranscript()
    ensures MAX_K == 2792 && MAX_F == 648 && MAX_TH == 3824 && MAX_TH < MAX_MESSAGE_BUFFER == 4608
  {
  }

  /** A and the digest of the responder's chain. */
  lemma HeadFits(cr: Crypto, s: Context)
    requires |s.messageA| <= MAX_SMALL_BUFFER
    ensures SizeLaws(cr) ==> |Head(cr, s)| <= MAX_SMALL_BUFFER + MAX_HASH
    ensures SizeLaws(cr) ==> forall x: Session :: |MutualDigest(cr, s, x)| <= MAX_HASH
  {
    hide PeerChainData, LocalChainData;
  }

  lemma TH1Fits(cr: Crypto, s: Context, x: Session)
    requires |s.messageA| <= MAX_SMALL_BUFFER && !x.usePsk && |x.messageK| <= MAX_K
    ensures SizeLaws(cr) && PeerChainData(s).Some? ==> TH1Data(cr, s, x, true) == Some(Head(cr, s) + x.messageK)
    ensures PeerChainData(s).None? ==> TH1Data(cr, s, x, true).None?
  {
    hide PeerChainData;
    HeadFits(cr, s);
  }

  lemma MacFits(cr: Crypto, s: Context, x: Session, mac: seq<byte>)
    requires |s.messageA| <= MAX_SMALL_BUFFER && !x.usePsk && |x.messageK| + |mac| <= MAX_K && PeerChainData(s).Some?
    ensures SizeLaws(cr) ==> JudgeMac(cr, s, x, mac) == UnboundedMac(cr, s, x, mac)
  {
    hide PeerChainData, InTheClear, TH1Data, Head;
    TH1Fits(cr, s, x);
  }

  lemma SignatureFits(cr: Crypto, s: Context, x: Session, share: seq<byte>, peerShare: seq<byte>, signature: seq<byte>,
                      mac: seq<byte>)
    requires |s.messageA| <= MAX_SMALL_BUFFER && !x.usePsk && |x.messageK| + |signature| + |mac| <= MAX_K
    ensures SizeLaws(cr) ==>
              JudgeSignature(cr, s, x, share, peerShare, signature, mac)
                == UnboundedSignature(cr, s, x, share, peerShare, signature, mac)
  {
    hide PeerChainData, TH1Data, Head, JudgeMac, UnboundedMac, SizeLaws;
    TH1Fits(cr, s, x);
    var secret := cr.dheSecret(s.algorithms.dhe, share, peerShare);
    if SizeLaws(cr) && VerifyKeyExchangeSignature(cr, s, x, signature) && secret.Some? {
      var th := Head(cr, s) + x.messageK;
      var evidence := AcceptedSignature(s.algorithms.baseAsym, s.algorithms.baseHash, PeerChainData(s).value, th,
                                        signature);
      var x2 := x.(messageK := x.messageK + signature, secret := secret.value, signatures := x.signatures + [evidence]);
      TH1Fits(cr, s, x2);
      assert Head(cr, s) + (x.messageK + signature) == th + signature;
      var keys := cr.handshakeKeys(s.algorithms.baseHash, secret.value, Hashed(cr, s, th + signature));
      if keys.Some? {
        MacFits(cr, s, x2.(keys := keys.value), mac);
      }
    }
  }

  lemma VerdictFits(cr: Crypto, s: Context, id: u32, hashType: byte, req: seq<byte>, share: seq<byte>, m: seq<byte>)
    requires |s.messageA| <= MAX_SMALL_BUFFER && |req| <= KEY_EXCHANGE_REQUEST_MAX && |m| <= KEY_EXCHANGE_MAX
    ensures SizeLaws(cr) ==>
              VerdictOn(cr, s, id, hashType, req, share, m) == UnboundedVerdict(cr, s, id, hashType, req, share, m)
  {
    hide JudgeSignature, UnboundedSignature, VersionSelectionOk, KexLayoutOf, SizeLaws;
    assert [] + req == req;
    var l := KexLayoutOf(s, hashType);
    var fixed := 42 + l.share + l.summary;
    if |m| >= fixed + l.signature + l.mac {
      var end: nat := fixed + At16(m, fixed - 2) as int;
      if |m| >= end + l.signature + l.mac {
        SignatureFits(cr, s, FreshSession(id, false).(messageK := req + m[..end], mutAuthRequested := m[6]), share,
                      m[40..40 + l.share], m[end..end + l.signature], m[end + l.signature..end + l.signature + l.mac]);
      }
    }
  }

  lemma KeyExchangeFits(cr: Crypto, s: Context, hashType: byte, slot: byte, x: KexInput)
    requires |s.messageA| <= MAX_SMALL_BUFFER
    ensures SizeLaws(cr) ==> TryKeyExchange(cr, s, hashType, slot, x) == UnboundedKeyExchange(cr, s, hashType, slot, x)
  {
    hide SizeLaws, VerdictOn, UnboundedVerdict, KeyExchangeRequest, Settled, AssignSlot, AllocateRequesterHalf,
         IsCapable;
    if SizeLaws(cr) && KexAnswered(s, slot, x) && AssignSlot(s.sessions, KexId(s, slot, x)).Some? {
      var share := cr.dheShare(s.algorithms.dhe, x.seed);
      var half := AllocateRequesterHalf(s.sessions);
      KexRequestSize(cr, s, hashType, slot, half, x.random, x.seed);
      VerdictFits(cr, s.(errorState := NoCapabilities), KexId(s, slot, x), hashType,
                  KeyExchangeRequest(s, hashType, slot, half, x.random, share), share,
                  LongOutcome(x.reply, KEY_EXCHANGE_RSP, KEY_EXCHANGE_MAX).message);
    }
  }

  /** The code's TH2 data is the unbounded one, and within 3824 bytes. */
  lemma TH2Fits(cr: Crypto, s: Context, x: Session)
    requires |s.messageA| <= MAX_SMALL_BUFFER && !x.usePsk && |x.messageK| <= MAX_K && |x.messageF| <= MAX_F
    ensures SizeLaws(cr) ==>
              && TH2Data(cr, s, x, true) == UnboundedTH2(cr, s, x)
              && (UnboundedTH2(cr, s, x).Some? ==> |UnboundedTH2(cr, s, x).value| <= MAX_TH)
  {
    hide PeerChainData, LocalChainData, SizeLaws;
    HeadFits(cr, s);
    var th := Head(cr, s) + x.messageK;
    assert th + [] == th;
  }

  lemma FinishMacFits(cr: Crypto, s: Context, x: Session)
    requires |s.messageA| <= MAX_SMALL_BUFFER && !x.usePsk && |x.messageK| <= MAX_K && |x.messageF| <= 4 + MAX_ASYM_KEY
    ensures SizeLaws(cr) ==>
              var b := BuildFinishMac(cr, s, x);
              && b == UnboundedFinishMac(cr, s, x) && b.session == x.(messageF := b.session.messageF)
              && |x.messageF| <= |b.session.messageF| <= |x.messageF| + MAX_HASH
              && b.session.messageF[..|x.messageF|] == x.messageF
              && (b.complete ==> |b.session.messageF| == |x.messageF| + HashSize(s.algorithms.baseHash))
  {
    hide TH2Data, UnboundedTH2;
    TH2Fits(cr, s, x);
  }

  /** The request is built as without bounds, and a refusal takes all of it back. */
  lemma BuildFits(cr: Crypto, s: Context, x: Session, header: seq<byte>)
    requires |s.messageA| <= MAX_SMALL_BUFFER && !x.usePsk && |x.messageK| <= MAX_K && x.messageF == [] && |header| == 4
    ensures SizeLaws(cr) ==>
              var b := BuildFinish(cr, s, x, header);
              && b == UnboundedBuild(cr, s, x, header) && b.session == x.(messageF := b.session.messageF)
              && |b.session.messageF| <= 4 + MAX_ASYM_KEY + MAX_HASH
              && (b.complete ==> |b.session.messageF| == FinishRequestSize(s, x))
  {
    hide TH2Data, UnboundedTH2, BuildFinishMac, UnboundedFinishMac, HashSize, SignatureSize;
    if SizeLaws(cr) {
      var b := x.(messageF := x.messageF + header);
      TH2Fits(cr, s, b);
      assert x.mutAuthRequested != 0 ==>
               TH2DataWith(cr, s, b, true, true) == TH2Data(cr, s, b, true) by { SameTH2(cr, s, b); }
      if x.mutAuthRequested == 0 {
        FinishMacFits(cr, s, b);
      } else if UnboundedTH2(cr, s, b).Some? {
        var signature := cr.requesterSign(s.algorithms.reqBaseAsym, s.algorithms.baseHash,
                                          UnboundedTH2(cr, s, b).value);
        if signature.Some? {
          FinishMacFits(cr, s, b.(messageF := b.messageF + signature.value));
        }
      }
    }
  }

  lemma SameTH2(cr: Crypto, s: Context, x: Session)
    ensures x.mutAuthRequested != 0 ==> TH2DataWith(cr, s, x, true, true) == TH2Data(cr, s, x, true)
  {
  }

  lemma ConcludeFits(cr: Crypto, s: Context, x: Session)
    requires |s.messageA| <= MAX_SMALL_BUFFER && !x.usePsk && |x.messageK| <= MAX_K && |x.messageF| <= MAX_F
    ensures SizeLaws(cr) ==> Conclude(cr, s, x) == UnboundedConclude(cr, s, x)
  {
    hide TH2Data, UnboundedTH2, SizeLaws;
    TH2Fits(cr, s, x);
  }

  lemma JudgeFits(cr: Crypto, s: Context, x: Session, m: seq<byte>)
    requires |s.messageA| <= MAX_SMALL_BUFFER && !x.usePsk && |x.messageK| <= MAX_K
             && |x.messageF| <= 4 + MAX_ASYM_KEY + MAX_HASH && |m| >= 4
    ensures SizeLaws(cr) ==> JudgeFinish(cr, s, x, m) == UnboundedJudge(cr, s, x, m)
  {
    hide TH2Data, UnboundedTH2, SizeLaws, Conclude, UnboundedConclude, InTheClear;
    var b := x.(messageF := x.messageF + m[..4]);
    TH2Fits(cr, s, b);
    ConcludeFits(cr, s, b);
    if SizeLaws(cr) && UnboundedTH2(cr, s, b).Some? && |m| <= FINISH_MAX {
      var evidence := AcceptedMac(s.algorithms.baseHash, x.keys.responseFinished, UnboundedTH2(cr, s, b).value, m[4..]);
      ConcludeFits(cr, s, b.(messageF := b.messageF + m[4..], macs := b.macs + [evidence]));
    }
  }

  lemma FinishFits(cr: Crypto, base: Context, s: Context, id: u32, param: byte, reply: Reply)
    requires |s.messageA| <= MAX_SMALL_BUFFER && Awaiting(cr, base, s, id)
    ensures SizeLaws(cr) ==> TryFinish(cr, s, id, param, reply) == UnboundedFinish(cr, s, id, param, reply)
  {
    hide BuildFinish, UnboundedBuild, JudgeFinish, UnboundedJudge, Exchanged, SizeLaws, IsCapable, FindSession,
         ChainOfSlot, HashSize, SignatureSize;
    var i := FindSession(s.sessions, id).value;
    var x := s.sessions[i];
    HandshakingAwaits(cr, base, x);
    if SizeLaws(cr) && MayExchangeKeys(s) && FinishSlotOk(s, x, param) {
      var s0 := WithLocalChain(s.(errorState := NoCapabilities), x, param);
      BuildFits(cr, s0, x, FinishHeader(x, param));
      var b := BuildFinish(cr, s0, x, FinishHeader(x, param));
      if b.complete {
        var f := b.session.messageF;
        assert f[..|f| - FinishRequestSize(s0, x)] == [];
        assert b.session.(messageF := []) == x;
        var o := LongOutcome(reply, FINISH_RSP, FINISH_MAX);
        if o.Answer? {
          JudgeFits(cr, s0, b.session, o.message);
        }
      }
    }
  }

  // ---------- Whole starts ----------

  ghost function UnboundedKeyExchanges(cr: Crypto, s: Context, hashType: byte, slot: byte, inputs: nat -> KexInput,
                                       i: nat, left: nat): Step<KexOut>
    decreases left
  {
    var r := UnboundedKeyExchange(cr, s, hashType, slot, inputs(i));
    if r.status != NoResponse || left == 0 then r
    else UnboundedKeyExchanges(cr, r.ctx, hashType, slot, inputs, i + 1, left - 1)
  }

  ghost function UnboundedFinishes(cr: Crypto, s: Context, id: u32, param: byte, replies: nat -> Reply, i: nat,
                                   left: nat): Step<()>
    decreases left
  {
    var r := UnboundedFinish(cr, s, id, param, replies(i));
    if r.status != NoResponse || left == 0 then r else UnboundedFinishes(cr, r.ctx, id, param, replies, i + 1, left - 1)
  }

  ghost function UnboundedStart(cr: Crypto, s: Context, hashType: byte, slot: byte, x: StartInput): Step<u32> {
    var k := UnboundedKeyExchanges(cr, s, hashType, slot, x.kex, 0, s.local.retryTimes);
    var id := k.out.sessionId;
    var found := FindSession(k.ctx.sessions, id);
    if k.status != Success then Step(k.status, k.ctx, id)
    else if found.None? then Step(Unsupported, k.ctx, id)
    else
      match MutualAuth(k.ctx.sessions[found.value].mutAuthRequested, k.out.reqSlotParam, x.encapStatus, x.encapSlot)
      case GiveUp(status) => Step(status, k.ctx, id)
      case Proceed(param) =>
        var f := UnboundedFinishes(cr, k.ctx, id, param, x.finish, 0, s.local.retryTimes);
        Step(f.status, f.ctx, id)
  }

  lemma {:induction false} KeyExchangesFit(cr: Crypto, base: Context, s: Context, hashType: byte, slot: byte,
                                           inputs: nat -> KexInput, i: nat, left: nat)
    requires SessionsOk(cr, base, s) && |base.messageA| <= MAX_SMALL_BUFFER
    ensures SizeLaws(cr) ==>
              Retry(KexAttempt(cr, hashType, slot), s, inputs, i, left)
                == UnboundedKeyExchanges(cr, s, hashType, slot, inputs, i, left)
    decreases left
  {
    hide TryKeyExchange, UnboundedKeyExchange, SizeLaws, Coherent, Gated;
    KeyExchangeFits(cr, s, hashType, slot, inputs(i));
    KexKeeps(cr, base, s, hashType, slot, inputs(i));
    var r := TryKeyExchange(cr, s, hashType, slot, inputs(i));
    assert KexAttempt(cr, hashType, slot)(s, inputs(i)) == r;
    if SizeLaws(cr) && r.status == NoResponse && left > 0 {
      KeyExchangesFit(cr, base, r.ctx, hashType, slot, inputs, i + 1, left - 1);
    }
  }

  lemma {:induction false} FinishesFit(cr: Crypto, base: Context, s: Context, id: u32, param: byte,
                                       replies: nat -> Reply, i: nat, left: nat)
    requires SessionsOk(cr, base, s) && Awaiting(cr, base, s, id) && |base.messageA| <= MAX_SMALL_BUFFER
    ensures SizeLaws(cr) ==>
              Retry(FinishAttempt(cr, id, param), s, replies, i, left)
                == UnboundedFinishes(cr, s, id, param, replies, i, left)
    decreases left
  {
    hide TryFinish, UnboundedFinish, SizeLaws, Coherent, Gated, Awaiting;
    FinishFits(cr, base, s, id, param, replies(i));
    FinishKeeps(cr, base, s, id, param, replies(i));
    var r := TryFinish(cr, s, id, param, replies(i));
    assert FinishAttempt(cr, id, param)(s, replies(i)) == r;
    if SizeLaws(cr) && r.status == NoResponse && left > 0 {
      FinishesFit(cr, base, r.ctx, id, param, replies, i + 1, left - 1);
    }
  }

  /** With any coherent table, a DHE start does exactly what it would do on unbounded transcripts. */
  lemma StartHasRoom(cr: Crypto, s: Context, hashType: byte, slot: byte, x: StartInput)
    requires Coherent(s.sessions) && |s.messageA| <= MAX_SMALL_BUFFER
    ensures SizeLaws(cr) ==> StartDhe(cr, s, hashType, slot, x) == UnboundedStart(cr, s, hashType, slot, x)
  {
    hide SizeLaws, Coherent, Gated, UnboundedKeyExchanges, UnboundedFinishes, Exchanged, FindSession;
    if SizeLaws(cr) {
      var left := s.local.retryTimes;
      KeyExchangesFit(cr, s, s, hashType, slot, x.kex, 0, left);
      KexCallKeeps(cr, s, s, hashType, slot, x.kex, 0, left);
      var k := Retry(KexAttempt(cr, hashType, slot), s, x.kex, 0, left);
      if k.status == Success {
        var y := k.ctx.sessions[FindSession(k.ctx.sessions, k.out.sessionId).value];
        var step := MutualAuth(y.mutAuthRequested, k.out.reqSlotParam, x.encapStatus, x.encapSlot);
        if step.Proceed? {
          FinishesFit(cr, s, k.ctx, k.out.sessionId, step.param, x.finish, 0, left);
        }
      }
    }
  }

  /**
   Against any responder and after any run of starts and stops, a DHE start does exactly what it would
   do on unbounded transcripts: no append to K or F and no TH concatenation ever fails for lack of room.
   */
  lemma StartNeverRunsOutOfRoom(cr: Crypto, base: Context, calls: seq<SessionCall>, hashType: byte, slot: byte,
                                x: StartInput)
    requires NoSessions(base) && |base.messageA| <= MAX_SMALL_BUFFER
    ensures SizeLaws(cr) ==>
              StartDhe(cr, Calls(cr, base, calls), hashType, slot, x)
                == UnboundedStart(cr, Calls(cr, base, calls), hashType, slot, x)
  {
    hide SizeLaws, Coherent, Gated, Calls, StartDhe, UnboundedStart;
    FreshIsCoherent(base);
    RunsStayGated(cr, base, base, calls);
    if SizeLaws(cr) {
      StartHasRoom(cr, Calls(cr, base, calls), hashType, slot, x);
    }
  }
}
