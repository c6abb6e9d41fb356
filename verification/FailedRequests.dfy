/**
 What a request that fails leaves behind. A request that is refused is taken back; one whose answer is lost, or is not
 the one expected, stays in the transcript; one that cannot be sent was never there.
 */
module FailedRequests {
  import opened Bytes
  import opened Spdm
  import opened Crypto
  import opened ManagedBuffers
  import opened DeviceContext
  import opened Exchanges
  import opened ConnectionRequester
  import opened CertificateTransfer
  import opened SessionTable
  import opened Measurement
  import opened TranscriptHash
  import opened SessionRequester
  import opened SessionGating
  import opened SessionCapacity
  import opened Meaning
  import opened ExactConnection
  import opened CertificateGate
  import opened ExactMeasurement
  import opened ExactSessions

  /** How an ERROR ends a request: BUSY may be retried, REQUEST_RESYNCH throws the connection away. */
  function TakenBack<R>(s: Context, code: byte, out: R): Step<R> {
    Step(if code == 0x03 then NoResponse else DeviceError, s.(state := if code == 0x43 then NotStarted else s.state),
         out)
  }

  /** A failed GET_CAPABILITIES. */
  lemma CapabilitiesFails(s: Context, r: Reply)
    ensures var t := TryGetCapabilities(s, r);
            var o := ShortOutcome(r, 0x61);
            var q := CapabilitiesQuestion(s);
            t.status != Success ==>
              t == if s.state != AfterVersion then Step(Unsupported, s, ())
                   else if r.first.SendFails? then Step(DeviceError, s, ())
                   else if |s.messageA| + |q| > 0x100 then Step(SecurityViolation, s, ())
                   else if o.Refused? then TakenBack(s, o.code, ())
                   else
                     var good := o.Answer? && |o.message| == 12 && o.message[0] == Version(s)
                                 && (Version(s) == 0x11 ==> !BadResponderFlags(At32(o.message, 8)));
                     Step(if good then SecurityViolation else DeviceError, s.(messageA := s.messageA + q), ())
  {
    hide Version, Bit, BadResponderFlags, ResponderFlagsOk;
    assert GetCapabilitiesRequest(s) == CapabilitiesQuestion(s);
    if r.first.Arrives? && |r.first.bytes| >= 12 {
      FlagsByBits(At32(r.first.bytes, 8));
    }
  }

  /** A failed NEGOTIATE_ALGORITHMS, as long as the response has not got into A. */
  lemma AlgorithmsFails(s: Context, r: Reply)
    ensures var t := TryNegotiateAlgorithms(s, r);
            var o := ShortOutcome(r, 0x63);
            var q := AlgorithmsQuestion(s);
            var shaped := o.Answer? && AlgorithmsReplyEnd(o.message).Some?;
            !(s.state == AfterCapabilities && shaped && |s.messageA| + |q| + At16(o.message, 4) as int <= 0x100) ==>
              t == if s.state != AfterCapabilities then Step(Unsupported, s, ())
                   else if r.first.SendFails? then Step(DeviceError, s, ())
                   else if |s.messageA| + |q| > 0x100 then Step(SecurityViolation, s, ())
                   else if o.Refused? then TakenBack(s, o.code, ())
                   else Step(if shaped then SecurityViolation else DeviceError, s.(messageA := s.messageA + q), ())
  {
    hide NegotiateRequest, AlgorithmsQuestion, AlgorithmsReplyEnd, AdoptAlgorithms;
    QuestionIs(s);
  }

  /** A failed GET_DIGESTS, as long as the response has not got into B. */
  lemma DigestsFails(cr: Crypto, s: Context, r: Reply)
    ensures var t := TryGetDigests(cr, s, r);
            var o := LongOutcome(r, 0x01, 516);
            var s0 := s.(errorState := NoCapabilities);
            var n := if o.Answer? then 4 + Named(o.message[3]) * HashSize(s.algorithms.baseHash) else 0;
            var shaped := o.Answer? && |o.message| <= 516 && Named(o.message[3]) > 0 && n <= |o.message|;
            !(Bit(s.peerFlags, 1) && s.state == Negotiated && shaped && |s.messageB| + 4 + n <= 0x1200) ==>
              t == if !Bit(s.peerFlags, 1) || s.state != Negotiated then Step(Unsupported, s, ())
                   else if r.first.SendFails? then Step(DeviceError, s0, ())
                   else if |s.messageB| + 4 > 0x1200 then Step(SecurityViolation, s0, ())
                   else if o.Refused? then TakenBack(s0, o.code, ())
                   else Step(if shaped then SecurityViolation else DeviceError,
                             s0.(messageB := s.messageB + [Version(s), 0x81, 0, 0]), ())
  {
    hide Bit, IsCapable, Version, SlotsIn, HashSize, Named;
    Queries(s, true);
    var o := LongOutcome(r, 0x01, 516);
    if o.Answer? {
      NamedIs(o.message[3]);
    }
  }

  /** A failed CHALLENGE, as long as the response has not been found complete. */
  lemma ChallengeFails(cr: Crypto, s: Context, slot: byte, hashType: byte, x: ChallengeInput)
    ensures var t := TryChallenge(cr, s, slot, hashType, x);
            var o := LongOutcome(x.reply, 0x03, 1702);
            var s0 := s.(errorState := NoCapabilities);
            var reached := Bit(s.peerFlags, 2)
               && s.state in {Negotiated, AfterDigests, AfterCertificate, Authenticated};
            && (!reached ==> t == Step(Unsupported, s, ()))
            && (reached && !MayChallenge(s, slot) ==> t == Step(InvalidParameter, s, ()))
            && (MayChallenge(s, slot) && !o.Answer? ==>
                  t == if x.reply.first.SendFails? then Step(DeviceError, s0, ())
                       else if |s.messageC| + 36 > 0x100 then Step(SecurityViolation, s0, ())
                       else if o.Refused? then TakenBack(s0, o.code, ())
                       else Step(DeviceError,
                                 s0.(messageC := s.messageC + [Version(s), 0x83, slot, hashType] + x.nonce), ()))
            && (MayChallenge(s, slot) && o.Answer? && |s.messageC| + 36 > 0x100 ==>
                  t == Step(SecurityViolation, s0, ()))
            && (MayChallenge(s, slot) && o.Answer? && |s.messageC| + 36 <= 0x100
                && !ChallengeAnswered(s, slot, hashType, o.message) ==>
                  t == Step(AuthStatus(cr, s, slot, hashType, o.message),
                            s0.(messageC := s.messageC + [Version(s), 0x83, slot, hashType] + x.nonce,
                                errorState := if AuthMisses(cr, s, slot, hashType, o.message) then CertificateFailure
                                              else NoCapabilities), ()))
  {
    hide Bit, IsCapable, Version, HashSize, SignatureSize, SummarySize, CheckChallengeAuth, ForSlot, AuthStatus,
         AuthMisses;
    Queries(s, true);
    var o := LongOutcome(x.reply, 0x03, 1702);
    var c := s.messageC + ([Version(s), 0x83, slot, hashType] + x.nonce);
    assert c == s.messageC + [Version(s), 0x83, slot, hashType] + x.nonce;
    if o.Answer? && MayChallenge(s, slot) && |s.messageC| + 36 <= 0x100
       && !ChallengeAnswered(s, slot, hashType, o.message) {
      AuthFails(cr, s, s.(errorState := NoCapabilities, messageC := c), slot, hashType, o.message, x.encapOk);
    }
  }

  /** The response is long enough and for the slot, but does not carry the digest of the known chain. */
  ghost predicate AuthMisses(cr: Crypto, s: Context, slot: byte, hashType: byte, m: seq<byte>)
    requires |m| >= 4
  {
    && |m| <= 1702 && ForSlot(s, slot, m) && 38 + HashSize(s.algorithms.baseHash) + SummarySize(s, hashType) < |m|
    && !Digested(cr, s, m)
  }

  /**
   The status of a response that is not complete: its size and slot, its digest, its opaque data, its signature, the
   room.
   */
  ghost function AuthStatus(cr: Crypto, s: Context, slot: byte, hashType: byte, m: seq<byte>): Status
    requires |m| >= 4
  {
    var n := 38 + HashSize(s.algorithms.baseHash) + SummarySize(s, hashType);
    if |m| > 1702 || !ForSlot(s, slot, m) || |m| <= n then DeviceError
    else if !Digested(cr, s, m) || SignedPart(s, hashType, m) > n + 1024 then SecurityViolation
    else if SignedPart(s, hashType, m) + SignatureSize(s.algorithms.baseAsym) > |m| then DeviceError
    else SecurityViolation
  }

  lemma AuthFails(cr: Crypto, s: Context, s1: Context, slot: byte, hashType: byte, m: seq<byte>, encapOk: bool)
    requires s1 == s.(errorState := NoCapabilities, messageC := s1.messageC) && |m| >= 4 && MayChallenge(s, slot)
    requires |s1.messageC| == |s.messageC| + 36 && !ChallengeAnswered(s, slot, hashType, m)
    ensures CheckChallengeAuth(cr, s1, slot, hashType, m, encapOk)
         == Step(AuthStatus(cr, s, slot, hashType, m),
                 s1.(errorState := if AuthMisses(cr, s, slot, hashType, m) then CertificateFailure else NoCapabilities),
                 ())
  {
    hide HashSize, SignatureSize, SummarySize, SummaryHashSize, ForSlot, AuthAttributesOk, Digested, PeerChainHashOk,
         ChallengeSignatureOk, MayChallenge;
    SummarySizeIs(s1, hashType);
    SameSummary(s, s1, hashType);
    AttributesMean(s, s1, slot, m);
    if 4 + HashSize(s.algorithms.baseHash) <= |m| {
      DigestMeans(cr, s, s1, m);
    }
  }

  /** A round of GET_CERTIFICATE that stops. */
  lemma RoundFails(s: Context, slot: byte, length: u16, chain: seq<byte>, r: Reply)
    requires |chain| <= 0x1200
    ensures var round := CertificateRound(s, slot, length, chain, r);
            var o := LongOutcome(r, 0x02, 1032);
            var asked := s.(messageB := s.messageB + [Version(s), 0x82, slot, 0] + Le16(|chain|) + Le16(length));
            round.Stopped? ==>
              round == if r.first.SendFails? then Stopped(DeviceError, s)
                       else if |s.messageB| + 8 > 0x1200 then Stopped(SecurityViolation, s)
                       else if o.Refused? then
                         Stopped(TakenBack(s, o.code, ()).status, TakenBack(s, o.code, ()).ctx)
                       else if !Carries(r, slot) then Stopped(DeviceError, asked)
                       else
                         var both := s.messageB + RoundBytes(s, slot, length, |chain|, r);
                         Stopped(SecurityViolation, if |both| > 0x1200 then asked else s.(messageB := both))
  {
    hide Version;
    var o := LongOutcome(r, 0x02, 1032);
    var request := [Version(s), 0x82, slot, 0] + Le16(|chain|) + Le16(length);
    assert request == GetCertificateRequest(s, slot, |chain|, length);
    assert s.messageB + request == s.messageB + [Version(s), 0x82, slot, 0] + Le16(|chain|) + Le16(length);
    if Carries(r, slot) {
      var m := o.message;
      var n: int := At16(m, 4);
      assert Message(r) == m[..8 + n] && Portion(r) == m[8..8 + n];
      assert s.messageB + request + m[..8 + n] == s.messageB + RoundBytes(s, slot, length, |chain|, r);
    }
  }

  /** A failed GET_CERTIFICATE that makes no round. */
  lemma CertificateFails(cr: Crypto, s: Context, slot: byte, length: u16, capacity: Option<nat>, peer: nat -> Reply)
    ensures var t := TryGetCertificate(cr, s, slot, length, capacity, peer);
            var may := Bit(s.peerFlags, 1) && s.state in {Negotiated, AfterDigests, AfterCertificate};
            && (!may ==> t == Step(Unsupported, s, ()))
            && (may && slot >= 8 ==> t == Step(InvalidParameter, s, ()))
  {
    hide IsCapable, Bit, CertificateLoop;
    Queries(s, true);
  }

  /**
   A failed GET_MEASUREMENTS: M keeps the request when the answer is lost, and starts anew when the answer is not the
   one expected.
   */
  lemma MeasurementsFail(cr: Crypto, s: Context, c: MeasurementCall, x: MeasurementInput)
    ensures var t := TryGetMeasurement(cr, s, c, x);
            var o := LongOutcome(x.reply, 0x60, 2146);
            var q := MeasurementQuestion(s, c, x.nonce);
            var s0 := s.(errorState := NoCapabilities);
            var none := Measured(0, []);
            MayAsk(s, c) && !o.Answer? ==>
              t == if x.reply.first.SendFails? then Step(DeviceError, s0, none)
                   else if |s.messageM| + |q| > 0x1200 then Step(SecurityViolation, s0, none)
                   else if o.Refused? then TakenBack(s0, o.code, none)
                   else Step(DeviceError, s0.(messageM := if o.WrongCode? then [] else s.messageM + q), none)
    ensures var t := TryGetMeasurement(cr, s, c, x);
            !MayAsk(s, c) ==> t.status in {Unsupported, InvalidParameter} && t.ctx == s.(errorState := t.ctx.errorState)
  {
    hide MayMeasure, SlotParamOk, IsCapable, MayAsk, Version, CheckRecord, CacheResponse, Deliver;
    GuardsMean(s, c);
    QuestionIsAsked(s, c, x.nonce);
  }

  /** A MEASUREMENTS response that is turned down: when M starts anew, and when it keeps the request. */
  lemma MeasurementsTurnedDown(cr: Crypto, s: Context, c: MeasurementCall, x: MeasurementInput)
    ensures var t := TryGetMeasurement(cr, s, c, x);
            var o := LongOutcome(x.reply, 0x60, 2146);
            var q := MeasurementQuestion(s, c, x.nonce);
            MayAsk(s, c) && o.Answer? && |s.messageM| + |q| <= 0x1200 && !Shaped(s, c, o.message) ==>
              && t.status == (if SlotOff(s, c, o.message) || OpaqueOff(s, c, o.message) then SecurityViolation
                              else DeviceError)
              && t.ctx == s.(errorState := NoCapabilities,
                             messageM := if StartsAnew(s, c, o.message) then [] else s.messageM + q)
  {
    hide MayMeasure, SlotParamOk, IsCapable, MayAsk, Version, CheckRecord, CacheResponse, Deliver, SlotOff, OpaqueOff,
         StartsAnew, Shaped, SignatureSize;
    GuardsMean(s, c);
    QuestionIsAsked(s, c, x.nonce);
    var o := LongOutcome(x.reply, 0x60, 2146);
    if o.Answer? {
      var s1 := s.(errorState := NoCapabilities, messageM := s.messageM + MeasurementQuestion(s, c, x.nonce));
      if CheckRecord(s1, c, o.message).Good? {
        TailOff(cr, s, s1, c, o.message);
      } else {
        RecordOff(s, s1, c, o.message);
      }
    }
  }

  /** The numbers of the response fit what was asked for: the record lies inside it and is not too long. */
  ghost predicate Counted(c: MeasurementCall, m: seq<byte>) {
    && 8 <= |m| <= 2146 && 8 + Length(c, m) <= |m|
    && (if c.operation == 0 then m[4..8] == [0, 0, 0, 0]
        else (if c.operation == 0xFF then m[4] != 0 else m[4] == 1) && Length(c, m) < 568)
  }

  /** Everything up to the opaque data is there. */
  ghost predicate Headed(c: MeasurementCall, m: seq<byte>) {
    Counted(c, m) && 8 + Length(c, m) + (if c.attribute == 1 then 32 else 0) + 2 <= |m|
  }

  /** A signed response is for another slot than was asked for. */
  ghost predicate SlotOff(s: Context, c: MeasurementCall, m: seq<byte>) {
    Headed(c, m) && c.attribute == 1 && Version(s) == 0x11 && m[3] != c.slot
  }

  /** The response announces too much opaque data. */
  ghost predicate OpaqueOff(s: Context, c: MeasurementCall, m: seq<byte>) {
    Headed(c, m) && TailEnd(c, m) > 8 + Length(c, m) + (if c.attribute == 1 then 32 else 0) + 2 + 1024
  }

  ghost predicate StartsAnew(s: Context, c: MeasurementCall, m: seq<byte>) {
    || (8 <= |m| <= 2146 && c.operation == 0 && m[4..8] != [0, 0, 0, 0])
    || (Counted(c, m) && c.attribute == 1 && (!Headed(c, m) || SlotOff(s, c, m)))
  }

  lemma RecordOff(s: Context, s1: Context, c: MeasurementCall, m: seq<byte>)
    requires CheckRecord(s1, c, m).Bad? && s1.messageM != []
    ensures !Counted(c, m) && CheckRecord(s1, c, m).ctx == (if StartsAnew(s, c, m) then s1.(messageM := []) else s1)
    ensures !SlotOff(s, c, m) && !OpaqueOff(s, c, m)
  {
    hide Version;
    ChecksExactly(s1, c, m);
    if |m| >= 8 {
      assert m[4..8] == [m[4], m[5], m[6], m[7]];
    }
  }

  lemma TailOff(cr: Crypto, s: Context, s1: Context, c: MeasurementCall, m: seq<byte>)
    requires s1 == s.(errorState := NoCapabilities, messageM := s1.messageM) && CheckRecord(s1, c, m).Good?
    ensures !Shaped(s, c, m) ==>
              var r := CacheResponse(cr, s1, c, m, CheckRecord(s1, c, m).length);
              && r.0 == (if SlotOff(s, c, m) || OpaqueOff(s, c, m) then SecurityViolation else DeviceError)
              && r.1 == (if StartsAnew(s, c, m) then s1.(messageM := []) else s1)
  {
    hide SignatureSize, HashSize, Version, Length, CheckRecord;
    ChecksExactly(s1, c, m);
    assert Version(s1) == Version(s) by { SameVersion(s, s1); }
  }

  // ---------- Session requests ----------

  /** KEY_EXCHANGE without an answer to judge. */
  lemma KeyExchangeFails(cr: Crypto, s: Context, hashType: byte, slot: byte, x: KexInput)
    ensures var t := TryKeyExchange(cr, s, hashType, slot, x);
            var o := LongOutcome(x.reply, 0x64, 2218);
            var reached := FlagsOf(s, true).Both(9)
               && s.state in {Negotiated, AfterDigests, AfterCertificate, Authenticated};
            var named := slot < 8 || (slot == 0xFF && s.local.peerChain != []);
            && (!reached ==> t.status == Unsupported && t.ctx == s)
            && (reached && !named ==> t.status == InvalidParameter && t.ctx == s)
            && (reached && named && o.Refused? ==>
                  var b := TakenBack(s.(errorState := NoCapabilities), o.code, ());
                  t.status == b.status && t.ctx == b.ctx)
            && (reached && named && !o.Refused? && !KexGetsAnswer(s, slot, x) ==>
                  t.status == DeviceError && t.ctx == s.(errorState := NoCapabilities))
  {
    hide IsCapable, Bit, VerdictOn, AllocateRequesterHalf, AssignSlot, KeyExchangeRequest;
    Queries(s, true);
  }

  /** PSK_EXCHANGE without an answer to judge. */
  lemma PskExchangeFails(cr: Crypto, s: Context, hashType: byte, x: PskInput)
    ensures var t := TryPskExchange(cr, s, hashType, x);
            var f := FlagsOf(s, true);
            var o := LongOutcome(x.reply, 0x66, 1228);
            var reached := f.BothPsk() && s.state in {Negotiated, AfterDigests, AfterCertificate, Authenticated};
            var ready := (f.Measures() ==>
                            s.algorithms.measurementSpec == 1 && MeasurementHashSize(s.algorithms.measurementHash) != 0)
                         && HashSize(s.algorithms.baseHash) != 0 && s.algorithms.keySchedule == 1;
            && (!reached ==> t == Step(Unsupported, s, 0))
            && (reached && !ready ==> t == Step(DeviceError, s, 0))
            && (reached && ready && o.Refused? ==> t == TakenBack(s.(errorState := NoCapabilities), o.code, 0))
            && (reached && ready && !o.Refused? && !PskGetsAnswer(s, x) ==>
                  t == Step(DeviceError, s.(errorState := NoCapabilities), 0))
  {
    hide IsCapable, Bit, JudgePskExchange, AllocateRequesterHalf, AssignSlot, PskExchangeRequest, Conclude, HashSize,
         MeasurementHashSize, NeedsPskFinish;
    Queries(s, true);
  }

  /** FINISH, PSK_FINISH and END_SESSION without a session to work on. */
  lemma NoSessionToFinish(cr: Crypto, s: Context, id: u32, param: byte, reply: Reply, x: PskFinishInput)
    ensures var found := FindSession(s.sessions, id);
            var reached := s.state in {Negotiated, AfterDigests, AfterCertificate, Authenticated};
            var waits := found.Some? && s.sessions[found.value].phase == Handshaking;
            && (!(reached && FlagsOf(s, true).Both(9) && waits) ==>
                  TryFinish(cr, s, id, param, reply) == Step(Unsupported, s, ()))
            && (reached && FlagsOf(s, true).Both(9) && waits && !MayFinish(s, s.sessions[found.value], param) ==>
                  TryFinish(cr, s, id, param, reply) == Step(InvalidParameter, s, ()))
            && (!(reached && FlagsOf(s, true).BothPsk() && waits) ==>
                  TryPskFinish(cr, s, id, x) == Step(Unsupported, s, ()))
            && (!(reached && found.Some? && s.sessions[found.value].phase == Established) ==>
                  TryEndSession(s, id, reply) == Step(Unsupported, s, ()))
  {
    hide IsCapable, Bit, FindSession, BuildFinish, JudgeFinish, BuildPskFinish, JudgePskFinish;
    Queries(s, true);
  }

  /** END_SESSION that is not acknowledged. */
  lemma EndSessionFails(s: Context, id: u32, reply: Reply)
    ensures var t := TryEndSession(s, id, reply);
            var found := FindSession(s.sessions, id);
            var o := LongOutcome(reply, 0x6C, 8);
            s.state in {Negotiated, AfterDigests, AfterCertificate, Authenticated}
            && found.Some? && s.sessions[found.value].phase == Established && !(o.Answer? && |o.message| == 4) ==>
              t == if o.Refused? then TakenBack(s.(errorState := NoCapabilities), o.code, ())
                   else Step(DeviceError, s.(errorState := NoCapabilities), ())
  {
    hide FindSession;
  }

  /** Keys can be derived for the exchange k. */
  ghost predicate Keyed(cr: Crypto, s: Context, share: seq<byte>, peerShare: seq<byte>, k: seq<byte>) {
    exists secret, keys :: KexKeys(cr, s, share, peerShare, k, secret, keys)
  }

  /**
   Why a KEY_EXCHANGE_RSP is turned down: too short, a version that was not selected, a signature or MAC that is wrong,
   keys that cannot be derived. Only the response that announces too much opaque data keeps its session.
   */
  lemma KexTurnedDown(cr: Crypto, s: Context, id: u32, hashType: byte, q: seq<byte>, share: seq<byte>, m: seq<byte>)
    requires |m| >= 40
    ensures var v := UnboundedVerdict(cr, s, id, hashType, q, share, m);
            var c := CutsOf(s, hashType);
            var n := 42 + c.d + c.g;
            var end := KexEnd(s, hashType, m);
            if |m| < n + c.sig + c.mac then v == Rejected(DeviceError, NoCapabilities)
            else if end > n + 1024 then v == Kept(FreshSession(id, false).(messageK := q))
            else if |m| < end + c.sig + c.mac then v == Rejected(DeviceError, NoCapabilities)
            else if !SelectsVersion(s.local, m[n..end]) then v == Rejected(Unsupported, NoCapabilities)
            else
              var k := q + m[..end];
              var signature := m[end..end + c.sig];
              var verified := Known(s) != []
                && cr.verify(s.algorithms.baseAsym, s.algorithms.baseHash,
                             Certificates(Known(s), HashSize(s.algorithms.baseHash)), ExchangeBytes(cr, s, k),
                             signature);
              var keyed := Keyed(cr, s, share, m[40..40 + c.d], k + signature);
              && (!verified ==> v == Rejected(SecurityViolation, KeyExchangeFailure))
              && (verified && !keyed ==> v == Rejected(SecurityViolation, NoCapabilities))
              && (verified && keyed ==> v.Accepted? || v == Rejected(SecurityViolation, KeyExchangeFailure))
  {
    hide SummarySize, SummaryHashSize, DhePubKeySize, SignatureSize, HashSize, InTheClear, KexLayoutOf, Bit,
         SelectsVersion, VersionSelectionOk, UnboundedSignature, ExchangeBytes, Known, Certificates, Keyed;
    LayoutMeans(s, hashType);
    var c := CutsOf(s, hashType);
    var n := 42 + c.d + c.g;
    var end := KexEnd(s, hashType, m);
    if n <= |m| && end <= |m| {
      OpaqueDataIs(s.local, m[n..end]);
      if end + c.sig + c.mac <= |m| {
        var x := FreshSession(id, false).(messageK := q + m[..end], mutAuthRequested := m[6]);
        SignatureFails(cr, s, x, share, m[40..40 + c.d], m[end..end + c.sig], m[end + c.sig..end + c.sig + c.mac]);
      }
    }
  }

  lemma SignatureFails(cr: Crypto, s: Context, x: Session, share: seq<byte>, peerShare: seq<byte>, signature: seq<byte>,
                       mac: seq<byte>)
    ensures var v := UnboundedSignature(cr, s, x, share, peerShare, signature, mac);
            var verified := Known(s) != []
              && cr.verify(s.algorithms.baseAsym, s.algorithms.baseHash,
                           Certificates(Known(s), HashSize(s.algorithms.baseHash)), ExchangeBytes(cr, s, x.messageK),
                           signature);
            var keyed := Keyed(cr, s, share, peerShare, x.messageK + signature);
            && (!verified ==> v == Rejected(SecurityViolation, KeyExchangeFailure))
            && (verified && !keyed ==> v == Rejected(SecurityViolation, NoCapabilities))
            && (verified && keyed ==> v.Accepted? || v == Rejected(SecurityViolation, KeyExchangeFailure))
  {
    hide HashSize, InTheClear, Bit, Certificates, Known;
    if Known(s) != [] {
      HeadIs(cr, s, x.messageK);
      HeadIs(cr, s, x.messageK + signature);
      assert Head(cr, s) + x.messageK + signature == Head(cr, s) + (x.messageK + signature);
      var secret := cr.dheSecret(s.algorithms.dhe, share, peerShare);
      if secret.Some? {
        var keys := cr.handshakeKeys(s.algorithms.baseHash, secret.value,
                                     Hashed(cr, s, Head(cr, s) + x.messageK + signature));
        if keys.Some? {
          assert KexKeys(cr, s, share, peerShare, x.messageK + signature, secret.value, keys.value);
        }
      }
    } else {
      assert PeerChainData(s).None? by { NoChainKnown(s); }
    }
  }

  lemma NoChainKnown(s: Context)
    requires Known(s) == []
    ensures PeerChainData(s).None?
  {
  }

  /** The same for a PSK_EXCHANGE_RSP. */
  lemma PskTurnedDown(cr: Crypto, s: Context, id: u32, hashType: byte, q: seq<byte>, m: seq<byte>)
    requires |m| >= 12 && |q| <= 0x1200
    ensures var v := JudgePskExchange(cr, s, FreshSession(id, true).(messageK := q), hashType, m);
            var end := PskEnd(s, hashType, m);
            var h := HashSize(s.algorithms.baseHash);
            if end + h > |m| then v == PskRejected(DeviceError, NoCapabilities)
            else if !SelectsVersion(s.local, m[end - At16(m, 10) as int..end]) then
              v == PskRejected(Unsupported, NoCapabilities)
            else
              var th := s.messageA + (q + m[..end]);
              var keys := cr.handshakeKeys(s.algorithms.baseHash, cr.psk(s.local.pskHint),
                                           cr.hash(s.algorithms.baseHash, th));
              v.PskAccepted? || v ==
                PskRejected(SecurityViolation,
                            if |th| <= 0x1200 && keys.Some?
                               && m[end..end + h] != cr.hmac(s.algorithms.baseHash, keys.value.responseFinished, th)
                               && |q| + end <= 0x1200
                            then KeyExchangeFailure else NoCapabilities)
  {
    hide SummarySize, SummaryHashSize, HashSize, SelectsVersion, VersionSelectionOk;
    SummarySizeIs(s, hashType);
    var end := PskEnd(s, hashType, m);
    var h := HashSize(s.algorithms.baseHash);
    if end + h <= |m| {
      OpaqueDataIs(s.local, m[end - At16(m, 10) as int..end]);
      assert s.messageA + [] + (q + m[..end]) == s.messageA + (q + m[..end]);
    }
  }
}
