/** BUSY leaves no trace: which requests can be retried as if the refused attempts had never been made. */
module RetryTransparency {
  import opened Bytes
  import opened Spdm
  import opened Crypto
  import opened ManagedBuffers
  import opened DeviceContext
  import opened Exchanges
  import opened Retrying
  import opened ConnectionRequester
  import opened CertificateTransfer
  import opened Measurement
  import opened SessionTable
  import opened TranscriptHash
  import opened SessionRequester
  import opened SessionCalls
  import opened SessionGating

  // The attempts that the retry loops of the connection requests repeat.

  function VersionAttempt(): (Context, Reply) -> Step<()> { (c: Context, r: Reply) => TryGetVersion(c, r) }

  function CapabilitiesAttempt(): (Context, Reply) -> Step<()> { (c: Context, r: Reply) => TryGetCapabilities(c, r) }

  function AlgorithmsAttempt(): (Context, Reply) -> Step<()> { (c: Context, r: Reply) => TryNegotiateAlgorithms(c, r) }

  function DigestsAttempt(cr: Crypto): (Context, Reply) -> Step<()> {
    (c: Context, r: Reply) => TryGetDigests(cr, c, r)
  }

  function ChallengeAttempt(cr: Crypto, slot: byte, hashType: byte): (Context, ChallengeInput) -> Step<()> {
    (c: Context, x: ChallengeInput) => TryChallenge(cr, c, slot, hashType, x)
  }

  function CertificateAttempt(cr: Crypto, slot: byte, length: u16,
                              capacity: Option<nat>): (Context, nat -> Reply) -> Step<()> {
    (c: Context, peer: nat -> Reply) => TryGetCertificate(cr, c, slot, length, capacity, peer)
  }

  function MeasurementAttempt(cr: Crypto, call: MeasurementCall): (Context, MeasurementInput) -> Step<Measured> {
    (c: Context, x: MeasurementInput) => TryGetMeasurement(cr, c, call, x)
  }

  // ---------- One refused attempt ----------

  lemma CapabilitiesBusy(s: Context, x: Reply)
    requires TryGetCapabilities(s, x).status == NoResponse
    ensures TryGetCapabilities(s, x).ctx == s
  {
  }

  lemma AlgorithmsBusy(s: Context, x: Reply)
    requires TryNegotiateAlgorithms(s, x).status == NoResponse
    ensures TryNegotiateAlgorithms(s, x).ctx == s
  {
    hide NegotiateRequest, AlgorithmsReplyEnd, BaseAlgorithmsOk, SessionAlgorithmsOk;
  }

  lemma DigestsBusy(cr: Crypto, s: Context, x: Reply, y: Reply)
    requires TryGetDigests(cr, s, x).status == NoResponse
    ensures TryGetDigests(cr, TryGetDigests(cr, s, x).ctx, y) == TryGetDigests(cr, s, y)
  {
    hide DigestsReplySize, HashSize, And;
    var t := TryGetDigests(cr, s, x).ctx;
    assert t == s.(errorState := NoCapabilities);
    assert t.(errorState := NoCapabilities) == t;
    assert IsCapable(t, true, 0, CERT_CAP);
    if LongOutcome(y, DIGESTS, 4 + MAX_HASH * MAX_SLOTS).Answer? {
      SameDigestsSize(s, t, LongOutcome(y, DIGESTS, 4 + MAX_HASH * MAX_SLOTS).message);
    }
  }

  lemma SameDigestsSize(s: Context, t: Context, m: seq<byte>)
    requires s.algorithms == t.algorithms
    ensures DigestsReplySize(s, m) == DigestsReplySize(t, m)
  {
    hide HashSize, SlotsIn;
  }

  lemma ChallengeBusy(cr: Crypto, s: Context, slot: byte, hashType: byte, x: ChallengeInput, y: ChallengeInput)
    requires TryChallenge(cr, s, slot, hashType, x).status == NoResponse
    ensures TryChallenge(cr, TryChallenge(cr, s, slot, hashType, x).ctx, slot, hashType, y)
              == TryChallenge(cr, s, slot, hashType, y)
  {
    hide And, PeerChainHashOk, ChallengeSignatureOk, AuthAttributesOk, RequesterAuthLayout;
    var t := TryChallenge(cr, s, slot, hashType, x).ctx;
    assert t == s.(errorState := NoCapabilities);
    hide CheckChallengeAuth;
    assert ChallengeRequest(t, slot, hashType, y.nonce) == ChallengeRequest(s, slot, hashType, y.nonce);
  }

  lemma MeasurementBusy(cr: Crypto, s: Context, c: MeasurementCall, x: MeasurementInput, y: MeasurementInput)
    requires TryGetMeasurement(cr, s, c, x).status == NoResponse
    ensures TryGetMeasurement(cr, TryGetMeasurement(cr, s, c, x).ctx, c, y) == TryGetMeasurement(cr, s, c, y)
  {
    hide And, FindSession, Deliver, CheckRecord, CacheResponse;
    MeasurementBusyRestores(cr, s, c, x);
    var t := s.(errorState := NoCapabilities);
    assert GetMeasurementsRequest(t, c, y.nonce) == GetMeasurementsRequest(s, c, y.nonce);
  }

  lemma MeasurementBusyRestores(cr: Crypto, s: Context, c: MeasurementCall, x: MeasurementInput)
    requires TryGetMeasurement(cr, s, c, x).status == NoResponse
    ensures MayMeasure(s, c) && SlotParamOk(s, c) && !(IsCapable(s, true, 0, MEAS_CAP_NO_SIG) && c.attribute != 0)
    ensures TryGetMeasurement(cr, s, c, x).ctx == s.(errorState := NoCapabilities)
  {
    hide And, FindSession, MayMeasure, SlotParamOk, IsCapable, MeasurementSignatureOk, RecordOk, SignatureSize,
         CheckRecord;
  }

  lemma KeyExchangeBusy(cr: Crypto, s: Context, hashType: byte, slot: byte, x: KexInput, y: KexInput)
    requires TryKeyExchange(cr, s, hashType, slot, x).status == NoResponse
    ensures TryKeyExchange(cr, TryKeyExchange(cr, s, hashType, slot, x).ctx, hashType, slot, y)
              == TryKeyExchange(cr, s, hashType, slot, y)
  {
    hide And, AllocateRequesterHalf, AssignSlot, VerdictOn;
    KeyExchangeBusyRestores(cr, s, hashType, slot, x);
    var t := s.(errorState := NoCapabilities);
    assert t.(errorState := NoCapabilities) == t;
    hide HandleKeyExchangeResponse;
    var share := cr.dheShare(s.algorithms.dhe, y.seed);
    var half := AllocateRequesterHalf(s.sessions);
    assert KeyExchangeRequest(t, hashType, slot, half, y.random, share)
             == KeyExchangeRequest(s, hashType, slot, half, y.random, share);
  }

  lemma KeyExchangeBusyRestores(cr: Crypto, s: Context, hashType: byte, slot: byte, x: KexInput)
    requires TryKeyExchange(cr, s, hashType, slot, x).status == NoResponse
    ensures MayExchangeKeys(s) && KexParametersOk(s, slot)
    ensures TryKeyExchange(cr, s, hashType, slot, x).ctx == s.(errorState := NoCapabilities)
  {
    hide And, AllocateRequesterHalf, AssignSlot, VerdictOn, KeyExchangeRequest, IsCapable, ReqSlotOk;
    var o := LongOutcome(x.reply, KEY_EXCHANGE_RSP, KEY_EXCHANGE_MAX);
    if o.Answer? && |o.message| >= 40 {
      var s0 := s.(errorState := NoCapabilities);
      var share := cr.dheShare(s.algorithms.dhe, x.seed);
      var half := AllocateRequesterHalf(s.sessions);
      VerdictIsGated(cr, s0, SessionIdOf(half, At16(o.message, 4)), hashType,
                     KeyExchangeRequest(s, hashType, slot, half, x.random, share), share, o.message);
    }
  }

  lemma JudgementsDecide(cr: Crypto, s: Context, x: Session, m: seq<byte>)
    requires |m| >= 4
    ensures JudgeFinish(cr, s, x, m).status != NoResponse && JudgePskFinish(cr, s, x, m).status != NoResponse
  {
    hide TH2, TH2Data, InTheClear, HashSize;
  }

  /** A refused FINISH leaves F, and the whole session, as it was. */
  lemma FinishBusyRestores(cr: Crypto, s: Context, id: u32, param: byte, x: Reply)
    requires TryFinish(cr, s, id, param, x).status == NoResponse
    ensures FindSession(s.sessions, id).Some?
    ensures var y := s.sessions[FindSession(s.sessions, id).value];
            && MayExchangeKeys(s) && y.phase == Handshaking && FinishSlotOk(s, y, param)
            && (SizeLaws(cr) ==>
                  TryFinish(cr, s, id, param, x).ctx == WithLocalChain(s.(errorState := NoCapabilities), y, param))
  {
    hide BuildFinish, JudgeFinish, IsCapable, FindSession, SizeLaws, ChainOfSlot, FinishRequestSize, FinishSlotOk,
         Shrunk;
    var i := FindSession(s.sessions, id).value;
    var y := s.sessions[i];
    var s0 := WithLocalChain(s.(errorState := NoCapabilities), y, param);
    var b := BuildFinish(cr, s0, y, FinishHeader(y, param));
    FinishIsBuilt(cr, s0, y, FinishHeader(y, param));
    var o := LongOutcome(x, FINISH_RSP, FINISH_MAX);
    if b.complete && o.Answer? {
      JudgementsDecide(cr, s0, b.session, o.message);
    }
    if SizeLaws(cr) && o.Refused? {
      assert b.session.(messageF := y.messageF) == y;
      assert s.sessions[i := y] == s.sessions;
    }
  }

  lemma FinishBusy(cr: Crypto, s: Context, id: u32, param: byte, x: Reply, y: Reply)
    requires TryFinish(cr, s, id, param, x).status == NoResponse
    ensures SizeLaws(cr) ==>
              TryFinish(cr, TryFinish(cr, s, id, param, x).ctx, id, param, y) == TryFinish(cr, s, id, param, y)
  {
    FinishBusyRestores(cr, s, id, param, x);
    hide BuildFinish, JudgeFinish, FindSession, SizeLaws, ChainOfSlot, And, Shrunk, FinishRequestSize, FinishHeader;
    if SizeLaws(cr) {
      var i := FindSession(s.sessions, id).value;
      var t := WithLocalChain(s.(errorState := NoCapabilities), s.sessions[i], param);
      assert t == TryFinish(cr, s, id, param, x).ctx;
      assert WithLocalChain(t.(errorState := NoCapabilities), t.sessions[i], param) == t;
    }
  }

  lemma PskFinishBusyRestores(cr: Crypto, s: Context, id: u32, x: PskFinishInput)
    requires TryPskFinish(cr, s, id, x).status == NoResponse
    ensures FindSession(s.sessions, id).Some? && MayExchangePsk(s)
            && s.sessions[FindSession(s.sessions, id).value].phase == Handshaking
    ensures SizeLaws(cr) ==> TryPskFinish(cr, s, id, x).ctx == s.(errorState := NoCapabilities)
  {
    hide BuildPskFinish, JudgePskFinish, IsCapable, FindSession, SizeLaws, Shrunk;
    var i := FindSession(s.sessions, id).value;
    var y := s.sessions[i];
    var s0 := s.(errorState := NoCapabilities);
    var b := BuildPskFinish(cr, s0, y, x.stale);
    PskFinishIsBuilt(cr, s0, y, x.stale);
    var o := LongOutcome(x.reply, PSK_FINISH_RSP, 8);
    if b.complete && o.Answer? {
      JudgementsDecide(cr, s0, b.session, o.message);
    }
    if SizeLaws(cr) && o.Refused? {
      assert b.session.(messageF := y.messageF) == y;
      assert s.sessions[i := y] == s.sessions;
    }
  }

  lemma PskFinishBusy(cr: Crypto, s: Context, id: u32, x: PskFinishInput, y: PskFinishInput)
    requires TryPskFinish(cr, s, id, x).status == NoResponse
    ensures SizeLaws(cr) ==> TryPskFinish(cr, TryPskFinish(cr, s, id, x).ctx, id, y) == TryPskFinish(cr, s, id, y)
  {
    PskFinishBusyRestores(cr, s, id, x);
    hide BuildPskFinish, JudgePskFinish, FindSession, SizeLaws, And, Shrunk;
    var t := s.(errorState := NoCapabilities);
    assert t.(errorState := NoCapabilities) == t;
  }

  lemma PskAnswerDecides(cr: Crypto, s: Context, hashType: byte, half: u16, req: seq<byte>, m: seq<byte>)
    ensures HandlePskResponse(cr, s, hashType, half, req, m).status != NoResponse
  {
    hide AssignSlot, VersionSelectionOk, TH1, TH1Data, TH2, VerifyPskExchangeHmac, SummaryHashSize, HashSize,
         NeedsPskFinish;
  }

  lemma PskExchangeBusy(cr: Crypto, s: Context, hashType: byte, x: PskInput, y: PskInput)
    requires TryPskExchange(cr, s, hashType, x).status == NoResponse
    ensures TryPskExchange(cr, TryPskExchange(cr, s, hashType, x).ctx, hashType, y)
              == TryPskExchange(cr, s, hashType, y)
  {
    hide HandlePskResponse, AllocateRequesterHalf, And, HashSize, MeasurementHashSize;
    var o := LongOutcome(x.reply, PSK_EXCHANGE_RSP, PSK_EXCHANGE_MAX);
    var half := AllocateRequesterHalf(s.sessions);
    if o.Answer? {
      PskAnswerDecides(cr, s.(errorState := NoCapabilities), hashType, half,
                       PskExchangeRequest(s, hashType, half, x.random), o.message);
    }
    var t := s.(errorState := NoCapabilities);
    assert t.(errorState := NoCapabilities) == t;
    assert PskExchangeRequest(t, hashType, half, y.random) == PskExchangeRequest(s, hashType, half, y.random);
  }

  lemma EndSessionBusy(s: Context, id: u32, x: Reply, y: Reply)
    requires TryEndSession(s, id, x).status == NoResponse
    ensures TryEndSession(TryEndSession(s, id, x).ctx, id, y) == TryEndSession(s, id, y)
  {
    hide FindSession;
    var t := s.(errorState := NoCapabilities);
    assert t.(errorState := NoCapabilities) == t;
  }

  // ---------- The retry loops ----------

  /** Ten requests can be refused with BUSY any number of times without a trace. */
  lemma TenRequestsRewind(cr: Crypto, slot: byte, hashType: byte, call: MeasurementCall, id: u32, param: byte)
    ensures Rewinds(CapabilitiesAttempt(), (x: Reply) => true)
    ensures Rewinds(AlgorithmsAttempt(), (x: Reply) => true)
    ensures Rewinds(DigestsAttempt(cr), (x: Reply) => true)
    ensures Rewinds(ChallengeAttempt(cr, slot, hashType), (x: ChallengeInput) => true)
    ensures Rewinds(MeasurementAttempt(cr, call), (x: MeasurementInput) => true)
    ensures Rewinds(KexAttempt(cr, hashType, slot), (x: KexInput) => true)
    ensures Rewinds(PskAttempt(cr, hashType), (x: PskInput) => true)
    ensures Rewinds(EndAttempt(id), (x: Reply) => true)
    ensures SizeLaws(cr) ==> Rewinds(FinishAttempt(cr, id, param), (x: Reply) => true)
    ensures SizeLaws(cr) ==> Rewinds(PskFinishAttempt(cr, id), (x: PskFinishInput) => true)
  {
    hide TryGetCapabilities, TryNegotiateAlgorithms, TryGetDigests, TryChallenge, TryGetMeasurement, TryKeyExchange,
         TryFinish, TryPskFinish, TryPskExchange, TryEndSession, SizeLaws;
    forall s, x, y | TryGetCapabilities(s, x).status == NoResponse
      ensures TryGetCapabilities(TryGetCapabilities(s, x).ctx, y)
                == TryGetCapabilities(s, y) { CapabilitiesBusy(s, x); }
    forall s, x, y | TryNegotiateAlgorithms(s, x).status == NoResponse
      ensures TryNegotiateAlgorithms(TryNegotiateAlgorithms(s, x).ctx, y)
                == TryNegotiateAlgorithms(s, y) { AlgorithmsBusy(s, x); }
    forall s, x, y | TryGetDigests(cr, s, x).status == NoResponse
      ensures TryGetDigests(cr, TryGetDigests(cr, s, x).ctx, y) == TryGetDigests(cr, s, y) { DigestsBusy(cr, s, x, y); }
    forall s, x, y | TryChallenge(cr, s, slot, hashType, x).status == NoResponse
      ensures TryChallenge(cr, TryChallenge(cr, s, slot, hashType, x).ctx, slot, hashType, y)
                == TryChallenge(cr, s, slot, hashType, y) {
      ChallengeBusy(cr, s, slot, hashType, x, y);
    }
    forall s, x, y | TryGetMeasurement(cr, s, call, x).status == NoResponse
      ensures TryGetMeasurement(cr, TryGetMeasurement(cr, s, call, x).ctx, call, y)
                == TryGetMeasurement(cr, s, call, y) {
      MeasurementBusy(cr, s, call, x, y);
    }
    forall s, x, y | TryKeyExchange(cr, s, hashType, slot, x).status == NoResponse
      ensures TryKeyExchange(cr, TryKeyExchange(cr, s, hashType, slot, x).ctx, hashType, slot, y)
                == TryKeyExchange(cr, s, hashType, slot, y) {
      KeyExchangeBusy(cr, s, hashType, slot, x, y);
    }
    forall s, x, y | TryPskExchange(cr, s, hashType, x).status == NoResponse
      ensures TryPskExchange(cr, TryPskExchange(cr, s, hashType, x).ctx, hashType, y)
                == TryPskExchange(cr, s, hashType, y) {
      PskExchangeBusy(cr, s, hashType, x, y);
    }
    forall s, x, y | TryEndSession(s, id, x).status == NoResponse
      ensures TryEndSession(TryEndSession(s, id, x).ctx, id, y)
                == TryEndSession(s, id, y) { EndSessionBusy(s, id, x, y); }
    if SizeLaws(cr) {
      forall s, x, y | TryFinish(cr, s, id, param, x).status == NoResponse
        ensures TryFinish(cr, TryFinish(cr, s, id, param, x).ctx, id, param, y) == TryFinish(cr, s, id, param, y) {
        FinishBusy(cr, s, id, param, x, y);
      }
      forall s, x, y | TryPskFinish(cr, s, id, x).status == NoResponse
        ensures TryPskFinish(cr, TryPskFinish(cr, s, id, x).ctx, id, y) == TryPskFinish(cr, s, id, y) {
        PskFinishBusy(cr, s, id, x, y);
      }
    }
  }

  /** So retrying them is transparent: for every start, all replies and every number of refusals within RetryTimes. */
  lemma TenRequestsAreTransparent(cr: Crypto, slot: byte, hashType: byte, call: MeasurementCall, id: u32, param: byte)
    ensures Transparent(CapabilitiesAttempt())
    ensures Transparent(AlgorithmsAttempt())
    ensures Transparent(DigestsAttempt(cr))
    ensures Transparent(ChallengeAttempt(cr, slot, hashType))
    ensures Transparent(MeasurementAttempt(cr, call))
    ensures Transparent(KexAttempt(cr, hashType, slot))
    ensures Transparent(PskAttempt(cr, hashType))
    ensures Transparent(EndAttempt(id))
    ensures SizeLaws(cr) ==> Transparent(FinishAttempt(cr, id, param)) && Transparent(PskFinishAttempt(cr, id))
  {
    hide Transparent, Rewinds, SizeLaws;
    TenRequestsRewind(cr, slot, hashType, call, id, param);
    RewindsMeansTransparent(CapabilitiesAttempt());
    RewindsMeansTransparent(AlgorithmsAttempt());
    RewindsMeansTransparent(DigestsAttempt(cr));
    RewindsMeansTransparent(ChallengeAttempt(cr, slot, hashType));
    RewindsMeansTransparent(MeasurementAttempt(cr, call));
    RewindsMeansTransparent(KexAttempt(cr, hashType, slot));
    RewindsMeansTransparent(PskAttempt(cr, hashType));
    RewindsMeansTransparent(EndAttempt(id));
    if SizeLaws(cr) {
      RewindsMeansTransparent(FinishAttempt(cr, id, param));
      RewindsMeansTransparent(PskFinishAttempt(cr, id));
    }
  }

  // ---------- GET_VERSION ----------

  /** A refused GET_VERSION has already reset A, B and C. */
  lemma VersionBusy(s: Context, x: Reply)
    requires TryGetVersion(s, x).status == NoResponse
    ensures TryGetVersion(s, x).ctx == s.(state := NotStarted, messageA := [], messageB := [], messageC := [])
    ensures x.first.Arrives?
  {
  }

  /**
   The next attempt ends as if the refused one had not been made, unless it cannot even be sent and there was something
   to lose.
   */
  lemma VersionRewindsExactly(s: Context, x: Reply, y: Reply)
    requires TryGetVersion(s, x).status == NoResponse
    ensures TryGetVersion(TryGetVersion(s, x).ctx, y) == TryGetVersion(s, y) <==>
              !y.first.SendFails? || (s.messageA == [] && s.messageB == [] && s.messageC == [])
  {
    VersionBusy(s, x);
    var t := TryGetVersion(s, x).ctx;
    if y.first.SendFails? {
      assert TryGetVersion(t, y).ctx.messageA == [] && TryGetVersion(s, y).ctx.messageA == s.messageA;
      assert TryGetVersion(t, y).ctx.messageB == [] && TryGetVersion(s, y).ctx.messageB == s.messageB;
      assert TryGetVersion(t, y).ctx.messageC == [] && TryGetVersion(s, y).ctx.messageC == s.messageC;
      assert s.messageA == [] && s.messageB == [] && s.messageC == [] ==> t == s.(state := NotStarted);
    }
  }

  /**
   GET_VERSION after k refused attempts, 1 <= k <= RetryTimes, ends as the deciding attempt alone if and only if
   that attempt is sent or the transcripts were empty to begin with.
   */
  lemma VersionRetry(s: Context, inputs: nat -> Reply, k: nat)
    requires 1 <= k <= s.local.retryTimes
    requires forall j: nat :: j < k ==> TryGetVersion(s, inputs(j)).status == NoResponse
    requires TryGetVersion(s, inputs(k)).status != NoResponse
    ensures Retry(VersionAttempt(), s, inputs, 0, s.local.retryTimes) == TryGetVersion(s, inputs(k)) <==>
              !inputs(k).first.SendFails? || (s.messageA == [] && s.messageB == [] && s.messageC == [])
  {
    hide TryGetVersion;
    var t := TryGetVersion(s, inputs(0)).ctx;
    assert TryGetVersion(s, inputs(0)).status == NoResponse;
    VersionBusy(s, inputs(0));
    assert VersionAttempt()(s, inputs(0)) == TryGetVersion(s, inputs(0));
    VersionRetries(s, t, inputs, 1, k, s.local.retryTimes as int - 1);
    VersionRewindsExactly(s, inputs(0), inputs(k));
  }

  /** From the reset context on, nothing more is lost. */
  lemma {:induction false} VersionRetries(s: Context, t: Context, inputs: nat -> Reply, i: nat, k: nat, left: nat)
    requires i <= k && k - i <= left
    requires t == s.(state := NotStarted, messageA := [], messageB := [], messageC := [])
    requires forall j: nat :: j < k ==> TryGetVersion(s, inputs(j)).status == NoResponse
    requires TryGetVersion(s, inputs(k)).status != NoResponse
    ensures Retry(VersionAttempt(), t, inputs, i, left) == TryGetVersion(t, inputs(k))
    decreases k - i
  {
    hide TryGetVersion;
    var r := TryGetVersion(t, inputs(i));
    assert VersionAttempt()(t, inputs(i)) == r;
    SameVersionStatus(s, t, inputs(i));
    if i < k {
      assert TryGetVersion(s, inputs(i)).status == NoResponse;
      VersionBusy(t, inputs(i));
      assert r.ctx == t;
      VersionRetries(s, t, inputs, i + 1, k, left - 1);
    }
  }

  lemma SameVersionStatus(s: Context, t: Context, x: Reply)
    ensures TryGetVersion(s, x).status == TryGetVersion(t, x).status
  {
    hide CompatibleVersions;
  }

  /** A connection with a transcript loses it when a refused GET_VERSION is followed by one that cannot be sent. */
  lemma VersionRetryLosesTranscript(s: Context, inputs: nat -> Reply)
    requires s.local.retryTimes >= 1 && s.messageA != []
    requires inputs(0) == BusyReply(VERSION_10) && inputs(1).first.SendFails?
    ensures Retry(VersionAttempt(), s, inputs, 0, s.local.retryTimes) != TryGetVersion(s, inputs(1))
  {
    var busy := ErrorMessage(VERSION_10, BUSY, 0);
    assert inputs(0).first == Arrives(busy) && busy[0] == VERSION_10;
    assert TryGetVersion(s, inputs(0)).status == NoResponse;
    VersionRetry(s, inputs, 1);
  }
}
