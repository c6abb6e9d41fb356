/** Every run of requester attempts, in any order and against any responder (SpdmRequesterLib*.c). */
module ConnectionRuns {
  import opened Bytes
  import opened Spdm
  import opened Crypto
  import opened ManagedBuffers
  import opened DeviceContext
  import opened Exchanges
  import opened Retrying
  import opened AlgorithmTables
  import opened ConnectionRequester
  import opened CertificateTransfer
  import opened Measurement
  import opened SessionTable
  import opened SessionRequester
  import opened SessionGating
  import opened RetryTransparency
  import opened Meaning
  import opened ExactConnection
  import opened CertificateGate

  /**
   One attempt at one request, with everything it meets from outside. For GET_CERTIFICATE that includes `wild`, what
   the context holds after a copy that overruns the buffer of the chain: anything at all.
   */
  datatype Attempt =
    | GetVersion(reply: Reply)
    | GetCapabilities(reply: Reply)
    | NegotiateAlgorithms(reply: Reply)
    | GetDigests(reply: Reply)
    | GetCertificate(slot: byte, length: u16, capacity: Option<nat>, peer: nat -> Reply, wild: Context)
    | Challenge(slot: byte, hashType: byte, challenge: ChallengeInput)
    | GetMeasurements(call: MeasurementCall, measurement: MeasurementInput)
    | KeyExchange(hashType: byte, slot: byte, kex: KexInput)
    | Finish(id: u32, param: byte, reply: Reply)
    | PskExchange(hashType: byte, psk: PskInput)
    | PskFinish(id: u32, pskFinish: PskFinishInput)
    | EndSession(id: u32, reply: Reply)

  function After(cr: Crypto, s: Context, a: Attempt): Context {
    match a
    case GetVersion(r) => TryGetVersion(s, r).ctx
    case GetCapabilities(r) => TryGetCapabilities(s, r).ctx
    case NegotiateAlgorithms(r) => TryNegotiateAlgorithms(s, r).ctx
    case GetDigests(r) => TryGetDigests(cr, s, r).ctx
    case GetCertificate(slot, length, capacity, peer, wild) =>
      if Overruns(cr, s, slot, length, peer) then wild else TryGetCertificate(cr, s, slot, length, capacity, peer).ctx
    case Challenge(slot, hashType, x) => TryChallenge(cr, s, slot, hashType, x).ctx
    case GetMeasurements(c, x) => TryGetMeasurement(cr, s, c, x).ctx
    case KeyExchange(hashType, slot, x) => TryKeyExchange(cr, s, hashType, slot, x).ctx
    case Finish(id, param, r) => TryFinish(cr, s, id, param, r).ctx
    case PskExchange(hashType, x) => TryPskExchange(cr, s, hashType, x).ctx
    case PskFinish(id, x) => TryPskFinish(cr, s, id, x).ctx
    case EndSession(id, r) => TryEndSession(s, id, r).ctx
  }

  function Run(cr: Crypto, s: Context, attempts: seq<Attempt>): Context {
    if attempts == [] then s else After(cr, Run(cr, s, attempts[..|attempts| - 1]), attempts[|attempts| - 1])
  }

  /** The attempt overruns the buffer its chain ends in. */
  predicate AttemptOverruns(cr: Crypto, s: Context, a: Attempt) {
    a.GetCertificate? && Overruns(cr, s, a.slot, a.length, a.peer)
  }

  /** No attempt of the run does: of every accepted chain the portions total at most 0x1000 bytes. */
  ghost predicate InBounds(cr: Crypto, s: Context, attempts: seq<Attempt>) {
    forall i :: 0 <= i < |attempts| ==> !AttemptOverruns(cr, Run(cr, s, attempts[..i]), attempts[i])
  }

  lemma InBoundsPrefix(cr: Crypto, s: Context, attempts: seq<Attempt>, n: nat)
    requires n <= |attempts| && InBounds(cr, s, attempts)
    ensures InBounds(cr, s, attempts[..n])
  {
    hide Run, AttemptOverruns;
    forall i | 0 <= i < n ensures !AttemptOverruns(cr, Run(cr, s, attempts[..n][..i]), attempts[..n][i]) {
      assert attempts[..n][..i] == attempts[..i];
    }
  }

  /** A retried request is a run of at most RetryTimes + 1 attempts. */
  lemma {:induction false} RetryIsARun<X(!new), R(!new)>(
      cr: Crypto, f: (Context, X) -> Step<R>, g: X -> Attempt, base: Context, run: seq<Attempt>, s: Context,
      inputs: nat -> X,
      i: nat, left: nat) returns (longer: seq<Attempt>)
    requires s == Run(cr, base, run)
    requires forall c, x :: AttemptOverruns(cr, c, g(x)) || f(c, x).ctx == After(cr, c, g(x))
    ensures InBounds(cr, base, longer) ==> Retry(f, s, inputs, i, left).ctx == Run(cr, base, longer)
    ensures |run| < |longer| <= |run| + left + 1 && longer[..|run|] == run
    decreases left
  {
    hide After, AttemptOverruns;
    var a := g(inputs(i));
    longer := run + [a];
    assert longer[..|run|] == run && longer[|run|] == a;
    var r := f(s, inputs(i));
    if r.status == NoResponse && left > 0 && r.ctx == After(cr, s, a) {
      var before := longer;
      longer := RetryIsARun(cr, f, g, base, before, r.ctx, inputs, i + 1, left - 1);
      assert longer[..|run|] == before[..|run|];
    }
    if InBounds(cr, base, longer) {
      assert longer[|run|] == a && !AttemptOverruns(cr, Run(cr, base, longer[..|run|]), longer[|run|]);
    }
  }

  // ---------- What each attempt leaves alone ----------

  /** The reply is the ERROR message that throws the connection away. */
  predicate Resynchs(r: Reply) {
    r.first.Arrives? && |r.first.bytes| >= 4 && r.first.bytes[1] == ERROR && r.first.bytes[2] == REQUEST_RESYNCH
  }

  /** The attempt meets such a reply. */
  ghost predicate MeetsResynch(a: Attempt) {
    match a
    case GetVersion(r) => Resynchs(r)
    case GetCapabilities(r) => Resynchs(r)
    case NegotiateAlgorithms(r) => Resynchs(r)
    case GetDigests(r) => Resynchs(r)
    case GetCertificate(_, _, _, peer, _) => exists i: nat :: Resynchs(peer(i))
    case Challenge(_, _, x) => Resynchs(x.reply)
    case GetMeasurements(_, x) => Resynchs(x.reply)
    case KeyExchange(_, _, x) => Resynchs(x.reply)
    case Finish(_, _, r) => Resynchs(r)
    case PskExchange(_, x) => Resynchs(x.reply)
    case PskFinish(_, x) => Resynchs(x.reply)
    case EndSession(_, r) => Resynchs(r)
  }

  /** Versions, flags, algorithms and A are untouched, and the state is the same or thrown away. */
  ghost predicate LeavesConnection(s: Context, t: Context) {
    && t.local == s.local && t.versions == s.versions && t.peerFlags == s.peerFlags && t.algorithms == s.algorithms
    && t.messageA == s.messageA
    && (t.state == s.state || t.state == NotStarted || (s.state.Reached(Negotiated) && t.state.Reached(Negotiated)))
  }

  lemma DigestsLeave(cr: Crypto, s: Context, r: Reply)
    ensures LeavesConnection(s, TryGetDigests(cr, s, r).ctx)
    ensures TryGetDigests(cr, s, r).ctx.state in {s.state, NotStarted, AfterDigests}
    ensures TryGetDigests(cr, s, r).ctx.state == NotStarted ==> s.state == NotStarted || Resynchs(r)
    ensures TryGetDigests(cr, s, r).ctx.state == AfterDigests ==> s.state == Negotiated || s.state == AfterDigests
  {
    hide IsCapable, DigestsReplySize, PeerDigestOk;
  }

  lemma ChallengeLeaves(cr: Crypto, s: Context, slot: byte, hashType: byte, x: ChallengeInput)
    ensures LeavesConnection(s, TryChallenge(cr, s, slot, hashType, x).ctx)
    ensures TryChallenge(cr, s, slot, hashType, x).ctx.state in {s.state, NotStarted, Authenticated}
    ensures TryChallenge(cr, s, slot, hashType, x).ctx.state == NotStarted ==>
              s.state == NotStarted || Resynchs(x.reply)
  {
    hide IsCapable, PeerChainHashOk, ChallengeSignatureOk, AuthAttributesOk, RequesterAuthLayout, ChallengeRequest;
  }

  ghost predicate OnlyM(s: Context, t: Context) {
    t == s.(messageM := t.messageM, errorState := t.errorState)
  }

  lemma CacheResponseLeaves(cr: Crypto, s: Context, c: MeasurementCall, m: seq<byte>, r: nat)
    requires 8 + r <= |m|
    ensures OnlyM(s, CacheResponse(cr, s, c, m, r).1)
  {
    hide MeasurementSignatureOk, SignatureSize, Version;
  }

  lemma CheckRecordLeaves(s: Context, c: MeasurementCall, m: seq<byte>)
    ensures CheckRecord(s, c, m).Bad? ==> OnlyM(s, CheckRecord(s, c, m).ctx)
  {
    hide RecordLength;
  }

  lemma DeliverLeaves(s: Context, c: MeasurementCall, m: seq<byte>, r: nat)
    requires 8 + r <= |m|
    ensures OnlyM(s, Deliver(s, c, m, r).ctx)
  {
    hide RecordOk;
  }

  lemma MeasurementLeaves(cr: Crypto, s: Context, c: MeasurementCall, x: MeasurementInput)
    ensures var t := TryGetMeasurement(cr, s, c, x).ctx;
            OnlyM(s, t) || (OnlyM(s.(state := NotStarted), t) && Resynchs(x.reply))
  {
    hide MayMeasure, SlotParamOk, IsCapable, CheckRecord, CacheResponse, Deliver, GetMeasurementsRequest;
    var s1 := s.(errorState := NoCapabilities, messageM := s.messageM + GetMeasurementsRequest(s, c, x.nonce));
    var o := LongOutcome(x.reply, MEASUREMENTS, MEASUREMENTS_MAX);
    if o.Answer? {
      CheckRecordLeaves(s1, c, o.message);
      var checked := CheckRecord(s1, c, o.message);
      if checked.Good? {
        CacheResponseLeaves(cr, s1, c, o.message, checked.length);
        DeliverLeaves(CacheResponse(cr, s1, c, o.message, checked.length).1, c, o.message, checked.length);
      }
    }
  }

  lemma {:induction false} CertificateLoopLeaves(cr: Crypto, s: Context, slot: byte, length: u16, chain: seq<byte>,
                                                 capacity: Option<nat>, peer: nat -> Reply, i: nat)
    requires s.state == Negotiated || s.state == AfterDigests || s.state == AfterCertificate
    ensures var t := CertificateLoop(cr, s, slot, length, chain, capacity, peer, i).ctx;
            && LeavesConnection(s, t)
            && (t.state == s.state || t.state == AfterCertificate
                || (t.state == NotStarted && exists j: nat :: Resynchs(peer(j))))
    decreases MAX_MESSAGE_BUFFER - |s.messageB|
  {
    hide GetCertificateRequest, PortionOk, PeerChainAccepted;
    var round := CertificateRound(s, slot, length, chain, peer(i));
    assert round.Stopped? && round.ctx.state == NotStarted ==> Resynchs(peer(i));
    if round.Completed? && round.remainder != 0 {
      CertificateLoopLeaves(cr, round.ctx, slot, length, round.chain, capacity, peer, i + 1);
    }
  }

  lemma SessionAttemptsLeave(cr: Crypto, s: Context, a: Attempt)
    requires a.KeyExchange? || a.Finish? || a.PskExchange? || a.PskFinish? || a.EndSession?
    ensures SameConnection(s, After(cr, s, a))
    ensures After(cr, s, a).state == s.state || (After(cr, s, a).state == NotStarted && MeetsResynch(a))
  {
    hide TryGetVersion, TryGetCapabilities, TryNegotiateAlgorithms, TryGetDigests, TryGetCertificate, TryChallenge,
         TryGetMeasurement, TryKeyExchange, TryFinish, TryPskExchange, TryPskFinish, TryEndSession;
    match a
    case KeyExchange(hashType, slot, x) => KexLeaves(cr, s, hashType, slot, x);
    case Finish(id, param, r) => FinishLeaves(cr, s, id, param, r);
    case PskExchange(hashType, x) => PskLeaves(cr, s, hashType, x);
    case PskFinish(id, x) => PskFinishLeaves(cr, s, id, x);
    case EndSession(id, r) => EndLeaves(s, id, r);
  }

  ghost predicate OnlySessions(s: Context, t: Context, r: Reply) {
    SameConnection(s, t) && (t.state == s.state || (t.state == NotStarted && Resynchs(r)))
  }

  lemma KexLeaves(cr: Crypto, s: Context, hashType: byte, slot: byte, x: KexInput)
    ensures OnlySessions(s, TryKeyExchange(cr, s, hashType, slot, x).ctx, x.reply)
  {
    hide VerdictOn, IsCapable, AllocateRequesterHalf, AssignSlot, ReqSlotOk, KeyExchangeRequest;
  }

  lemma FinishLeaves(cr: Crypto, s: Context, id: u32, param: byte, r: Reply)
    ensures OnlySessions(s, TryFinish(cr, s, id, param, r).ctx, r)
  {
    hide BuildFinish, JudgeFinish, IsCapable, FindSession, ChainOfSlot, FinishRequestSize, FinishSlotOk, Shrunk;
  }

  lemma PskLeaves(cr: Crypto, s: Context, hashType: byte, x: PskInput)
    ensures OnlySessions(s, TryPskExchange(cr, s, hashType, x).ctx, x.reply)
  {
    hide JudgePskExchange, Conclude, IsCapable, PskAlgorithmsOk, AllocateRequesterHalf, AssignSlot,
         PskExchangeRequest;
  }

  lemma PskFinishLeaves(cr: Crypto, s: Context, id: u32, x: PskFinishInput)
    ensures OnlySessions(s, TryPskFinish(cr, s, id, x).ctx, x.reply)
  {
    hide BuildPskFinish, JudgePskFinish, IsCapable, FindSession, HashSize, Shrunk;
  }

  lemma EndLeaves(s: Context, id: u32, r: Reply)
    ensures OnlySessions(s, TryEndSession(s, id, r).ctx, r)
  {
    hide FindSession;
  }

  // ---------- The invariant ----------

  /** What a negotiated connection guarantees about its algorithms: every capability in use has a known algorithm. */
  ghost predicate NegotiatedWell(s: Context) {
    s.state.Reached(Negotiated) ==>
      && GoodBase(FlagsOf(s, true), s.algorithms)
      && (NoSessionAlgorithms(s.algorithms) || GoodSession(FlagsOf(s, true), s.algorithms))
  }

  /** NEGOTIATE_ALGORITHMS reaches Negotiated only with such algorithms. */
  lemma NegotiationIsChecked(s: Context, r: Reply)
    ensures var t := TryNegotiateAlgorithms(s, r).ctx;
            && t.local == s.local && t.peerFlags == s.peerFlags
            && (t.state == s.state || (t.state == NotStarted && Resynchs(r))
                || (s.state == AfterCapabilities && t.state == Negotiated))
            && (t.state == Negotiated && s.state == AfterCapabilities ==> NegotiatedWell(t))
            && (s.state != AfterCapabilities ==> t == s)
  {
    hide TryNegotiateAlgorithms, AlgorithmsReplyEnd, GoodBase, GoodSession, NoSessionAlgorithms, AlgorithmsQuestion;
    AlgorithmsExactly(s, r);
  }

  lemma CapabilitiesLeave(s: Context, r: Reply)
    ensures var t := TryGetCapabilities(s, r).ctx;
            t == s || (s.state == AfterVersion && t.state in {NotStarted, AfterVersion, AfterCapabilities}
                       && (t.state == NotStarted ==> Resynchs(r)))
  {
    hide ResponderFlagsOk, GetCapabilitiesRequest;
  }

  lemma VersionLeaves(s: Context, r: Reply)
    ensures TryGetVersion(s, r).ctx.state in {NotStarted, AfterVersion}
  {
    hide CompatibleVersions;
  }

  lemma CertificateLeaves(cr: Crypto, s: Context, slot: byte, length: u16, capacity: Option<nat>, peer: nat -> Reply)
    ensures var t := TryGetCertificate(cr, s, slot, length, capacity, peer).ctx;
            && LeavesConnection(s, t)
            && (t.state == s.state || (t.state == NotStarted && exists j: nat :: Resynchs(peer(j)))
                || (t.state == AfterCertificate && AfterCertificate.Reached(s.state)))
  {
    hide CertificateLoop, IsCapable;
    if MayGetCertificate(s) && slot < MAX_SLOTS {
      CertificateLoopLeaves(cr, s.(errorState := NoCapabilities), slot, BlockLength(length), [], capacity, peer, 0);
    }
  }

  /** A connection that keeps flags and algorithms, and was negotiated if it is, keeps the invariant. */
  lemma LeavingKeeps(s: Context, t: Context)
    requires NegotiatedWell(s) && s.local == t.local && s.peerFlags == t.peerFlags && s.algorithms == t.algorithms
    requires t.state.Reached(Negotiated) ==> s.state.Reached(Negotiated)
    ensures NegotiatedWell(t)
  {
    hide BaseAlgorithmsOk, SessionAlgorithmsOk;
  }

  /**
   One attempt: the invariant is kept, and apart from GET_VERSION the state rises, stays or is thrown away by
   REQUEST_RESYNCH.
   */
  lemma AttemptKeeps(cr: Crypto, s: Context, a: Attempt)
    requires NegotiatedWell(s) && !AttemptOverruns(cr, s, a)
    ensures var t := After(cr, s, a);
            && NegotiatedWell(t)
            && (t.state.Reached(s.state) || (a.GetVersion? && t.state in {NotStarted, AfterVersion})
                || (t.state == NotStarted && MeetsResynch(a)))
  {
    hide NegotiatedWell, TryGetVersion, TryGetCapabilities, TryNegotiateAlgorithms, TryGetDigests, TryGetCertificate,
         TryChallenge, TryGetMeasurement, TryKeyExchange, TryFinish, TryPskExchange, TryPskFinish, TryEndSession;
    var t := After(cr, s, a);
    match a {
      case GetVersion(r) => VersionLeaves(s, r); EarlyIsWell(t);
      case GetCapabilities(r) => CapabilitiesLeave(s, r); EarlyIsWell(t);
      case NegotiateAlgorithms(r) => NegotiationIsChecked(s, r); EarlyIsWell(t);
      case GetDigests(r) => DigestsLeave(cr, s, r); LeavingKeeps(s, t);
      case GetCertificate(slot, length, capacity, peer, _) =>
        CertificateLeaves(cr, s, slot, length, capacity, peer); LeavingKeeps(s, t);
      case Challenge(slot, hashType, x) => ChallengeLeaves(cr, s, slot, hashType, x); LeavingKeeps(s, t);
      case GetMeasurements(c, x) => MeasurementLeaves(cr, s, c, x); LeavingKeeps(s, t);
      case _ => SessionAttemptsLeave(cr, s, a); LeavingKeeps(s, t);
    }
  }

  lemma EarlyIsWell(t: Context)
    ensures !t.state.Reached(Negotiated) ==> NegotiatedWell(t)
  {
  }

  /**
   Over every run of attempts with arbitrary replies: at Negotiated and above the hash is a known single
   algorithm, CHAL and MEAS capabilities imply known signature and measurement algorithms, and the four
   session algorithms are all zero or meet every capability-conditioned check.
   */
  lemma {:induction false} RunsNegotiateWell(cr: Crypto, s: Context, attempts: seq<Attempt>)
    requires s.state == NotStarted && InBounds(cr, s, attempts)
    ensures NegotiatedWell(Run(cr, s, attempts))
    decreases |attempts|
  {
    hide NegotiatedWell, After;
    if attempts == [] {
      EarlyIsWell(s);
    } else {
      var n := |attempts| - 1;
      InBoundsPrefix(cr, s, attempts, n);
      RunsNegotiateWell(cr, s, attempts[..n]);
      AttemptKeeps(cr, Run(cr, s, attempts[..n]), attempts[n]);
    }
  }

  /**
   Over every run, a step that lowers the state is GET_VERSION, or throws the connection away because of
   REQUEST_RESYNCH.
   */
  lemma StateOnlyDropsToNotStarted(cr: Crypto, s: Context, attempts: seq<Attempt>, i: nat)
    requires s.state == NotStarted && i < |attempts| && InBounds(cr, s, attempts)
    ensures var before := Run(cr, s, attempts[..i]).state;
            var after := Run(cr, s, attempts[..i + 1]).state;
            after.Reached(before) || (attempts[i].GetVersion? && after in {NotStarted, AfterVersion})
            || (after == NotStarted && MeetsResynch(attempts[i]))
  {
    hide NegotiatedWell, After;
    assert attempts[..i + 1][..i] == attempts[..i] && attempts[..i + 1][i] == attempts[i];
    InBoundsPrefix(cr, s, attempts, i);
    RunsNegotiateWell(cr, s, attempts[..i]);
    AttemptKeeps(cr, Run(cr, s, attempts[..i]), attempts[i]);
  }

  // ---------- Authentication ----------

  /**
   A successful CHALLENGE: C grew by the request and the signed part of the response, which carries the digest of the
   known chain and a signature that the certificates of that chain verify over A, B and C.
   */
  ghost predicate ChallengeSigned(cr: Crypto, s: Context, t: Context, slot: byte, hashType: byte, x: ChallengeInput) {
    var o := LongOutcome(x.reply, 0x03, 1702);
    && o.Answer?
    && var m := o.message;
       var end := SignedPart(s, hashType, m);
       var sig := SignatureSize(s.algorithms.baseAsym);
    && end + sig <= |m| && Digested(cr, s, m)
    && t.messageC == s.messageC + [Version(s), 0x83, slot, hashType] + x.nonce + m[..end]
    && |t.messageA| + |t.messageB| + |t.messageC| <= 0x1200 && Known(s) != []
    && cr.verify(t.algorithms.baseAsym, t.algorithms.baseHash, Certificates(Known(s), HashSize(t.algorithms.baseHash)),
                 t.messageA + t.messageB + t.messageC, m[end..end + sig])
  }

  lemma ChallengeIsSigned(cr: Crypto, s: Context, slot: byte, hashType: byte, x: ChallengeInput)
    ensures var r := TryChallenge(cr, s, slot, hashType, x);
            (r.ctx.state == Authenticated && s.state != Authenticated ==> r.status == Success)
            && (r.status == Success ==> ChallengeSigned(cr, s, r.ctx, slot, hashType, x))
  {
    hide TryChallenge, SummarySize, HashSize, SignatureSize, MayChallenge, ForSlot, Digested, Certificates, Known,
         Version;
    ChallengeExactly(cr, s, slot, hashType, x);
  }

  /**
   Over every run, the step that makes the connection Authenticated is a CHALLENGE, and the signature in its
   response is one that the certificates of the peer's chain verify over the A, B and C that the context then holds.
   */
  lemma AuthenticatedByChallenge(cr: Crypto, s: Context, attempts: seq<Attempt>, i: nat)
    requires i < |attempts| && InBounds(cr, s, attempts)
    ensures var before := Run(cr, s, attempts[..i]);
            var after := Run(cr, s, attempts[..i + 1]);
            before.state != Authenticated && after.state == Authenticated ==>
              attempts[i].Challenge?
              && ChallengeSigned(cr, before, after, attempts[i].slot, attempts[i].hashType, attempts[i].challenge)
  {
    hide TryGetVersion, TryGetCapabilities, TryNegotiateAlgorithms, TryGetDigests, TryGetCertificate, TryChallenge,
         TryGetMeasurement, TryKeyExchange, TryFinish, TryPskExchange, TryPskFinish, TryEndSession, ChallengeSigned;
    assert attempts[..i + 1][..i] == attempts[..i] && attempts[..i + 1][i] == attempts[i];
    var c := Run(cr, s, attempts[..i]);
    match attempts[i] {
      case GetVersion(r) => VersionLeaves(c, r);
      case GetCapabilities(r) => CapabilitiesLeave(c, r);
      case NegotiateAlgorithms(r) => NegotiationIsChecked(c, r);
      case GetDigests(r) => DigestsLeave(cr, c, r);
      case GetCertificate(slot, length, capacity, peer, _) => CertificateLeaves(cr, c, slot, length, capacity, peer);
      case Challenge(slot, hashType, x) => ChallengeIsSigned(cr, c, slot, hashType, x);
      case GetMeasurements(call, x) => MeasurementLeaves(cr, c, call, x);
      case _ => SessionAttemptsLeave(cr, c, attempts[i]);
    }
  }

  // ---------- The chain ----------

  /** An attempt stores no chain, or it is GET_CERTIFICATE and the chain is genuine. */
  lemma StoresGenuine(cr: Crypto, s: Context, a: Attempt)
    requires !AttemptOverruns(cr, s, a)
    ensures var t := After(cr, s, a);
            t.peerChain == s.peerChain || (a.GetCertificate? && Genuine(cr, s, t.peerChain))
  {
    hide TryGetVersion, TryGetCapabilities, TryNegotiateAlgorithms, TryGetDigests, TryGetCertificate, TryChallenge,
         TryGetMeasurement, TryKeyExchange, TryFinish, TryPskExchange, TryPskFinish, TryEndSession, Genuine, Overruns,
         ChallengeAnswered, Digested, SignedWith, BadResponderFlags, AlgorithmsReplyEnd, Joined, JoinedBytes;
    match a {
      case GetVersion(r) => VersionExactly(s, r);
      case GetCapabilities(r) => CapabilitiesExactly(s, r);
      case NegotiateAlgorithms(r) => AlgorithmsExactly(s, r);
      case GetDigests(r) => DigestsExactly(cr, s, r);
      case GetCertificate(slot, length, capacity, peer, _) => CertificateExactly(cr, s, slot, length, capacity, peer);
      case Challenge(slot, hashType, x) => ChallengeExactly(cr, s, slot, hashType, x);
      case GetMeasurements(c, x) => MeasurementLeaves(cr, s, c, x);
      case _ => SessionAttemptsLeave(cr, s, a);
    }
  }

  /**
   Over every run, the chain the requester holds is the one it began with, or one that a GET_CERTIFICATE of the run got
   and that was genuine then: it passed X.509 validation and matches the provisioned root hash, or, where none is
   provisioned, the provisioned chain.
   */
  lemma {:induction false} ChainIsGenuine(cr: Crypto, s: Context, attempts: seq<Attempt>)
    requires InBounds(cr, s, attempts)
    ensures var chain := Run(cr, s, attempts).peerChain;
            || chain == s.peerChain
            || exists i :: 0 <= i < |attempts| && attempts[i].GetCertificate? && Genuine(cr, Run(cr, s, attempts[..i]),
                                                                                         chain)
    decreases |attempts|
  {
    hide After, Genuine;
    if attempts != [] {
      var n := |attempts| - 1;
      var before := Run(cr, s, attempts[..n]);
      InBoundsPrefix(cr, s, attempts, n);
      ChainIsGenuine(cr, s, attempts[..n]);
      StoresGenuine(cr, before, attempts[n]);
      var chain := Run(cr, s, attempts).peerChain;
      if chain == before.peerChain && chain != s.peerChain {
        var i :| 0 <= i < n && attempts[..n][i].GetCertificate? && Genuine(cr, Run(cr, s, attempts[..n][..i]), chain);
        assert attempts[..n][..i] == attempts[..i];
      }
    }
  }

  // ---------- InitConnection and the size of A ----------

  /** SpdmInitConnection: the three requests with their retry loops. */
  function InitConnection(s: Context, versionOnly: bool, version: nat -> Reply, capabilities: nat -> Reply,
                          algorithms: nat -> Reply): (Status, Context) {
    var v := Retry(VersionAttempt(), s, version, 0, s.local.retryTimes);
    if v.status != Success || versionOnly then (v.status, v.ctx)
    else
      var c := Retry(CapabilitiesAttempt(), v.ctx, capabilities, 0, s.local.retryTimes);
      if c.status != Success then (c.status, c.ctx)
      else
        var n := Retry(AlgorithmsAttempt(), c.ctx, algorithms, 0, s.local.retryTimes);
        (n.status, n.ctx)
  }

  const A_AFTER_VERSION: nat := 4 + 6 + 2 * MAX_VERSIONS
  const A_AFTER_CAPABILITIES: nat := A_AFTER_VERSION + 12 + 12
  const A_MAX: nat := A_AFTER_CAPABILITIES + 48 + ALGORITHMS_MAX

  lemma {:induction false} VersionBoundsA(s: Context, replies: nat -> Reply, i: nat, left: nat)
    ensures var r := Retry(VersionAttempt(), s, replies, i, left);
            |r.ctx.messageA| <= A_AFTER_VERSION || (r.status != Success && r.ctx.messageA == s.messageA)
    decreases left
  {
    hide CompatibleVersions;
    var r := TryGetVersion(s, replies(i));
    assert VersionAttempt()(s, replies(i)) == r;
    if r.status == NoResponse && left > 0 {
      VersionBoundsA(r.ctx, replies, i + 1, left - 1);
    }
  }

  lemma {:induction false} CapabilitiesBoundA(s: Context, replies: nat -> Reply, i: nat, left: nat)
    requires |s.messageA| <= A_AFTER_VERSION
    ensures |Retry(CapabilitiesAttempt(), s, replies, i, left).ctx.messageA| <= A_AFTER_CAPABILITIES
    decreases left
  {
    hide ResponderFlagsOk;
    var r := TryGetCapabilities(s, replies(i));
    assert CapabilitiesAttempt()(s, replies(i)) == r;
    if r.status == NoResponse && left > 0 {
      CapabilitiesBoundA(r.ctx, replies, i + 1, left - 1);
    }
  }

  lemma {:induction false} PlainTablesSize(ts: seq<StructTable>)
    requires forall i :: 0 <= i < |ts| ==> ts[i].extended == []
    ensures |EncodeTables(ts)| == 4 * |ts|
    decreases |ts|
  {
    if ts != [] {
      PlainTablesSize(ts[1..]);
      assert |EncodeTable(ts[0])| == 4;
    }
  }

  lemma NegotiateRequestSize(s: Context)
    ensures |NegotiateRequest(s)| <= 48
  {
    PlainTablesSize(OfferTables(s.local.algorithms));
  }

  lemma {:induction false} AlgorithmsBoundA(s: Context, replies: nat -> Reply, i: nat, left: nat)
    requires |s.messageA| <= A_AFTER_CAPABILITIES
    ensures |Retry(AlgorithmsAttempt(), s, replies, i, left).ctx.messageA| <= A_MAX
    decreases left
  {
    hide NegotiateRequest, AlgorithmsReplyEnd, BaseAlgorithmsOk, SessionAlgorithmsOk, LoadTables;
    NegotiateRequestSize(s);
    var r := TryNegotiateAlgorithms(s, replies(i));
    assert AlgorithmsAttempt()(s, replies(i)) == r;
    if r.status == NoResponse && left > 0 {
      AlgorithmsBusy(s, replies(i));
      AlgorithmsBoundA(r.ctx, replies, i + 1, left - 1);
    }
  }

  lemma InitBoundsA(s: Context, versionOnly: bool, version: nat -> Reply, capabilities: nat -> Reply,
                    algorithms: nat -> Reply)
    requires |s.messageA| <= A_MAX
    ensures |InitConnection(s, versionOnly, version, capabilities, algorithms).1.messageA| <= A_MAX
    ensures A_MAX == 208
  {
    hide Retry;
    VersionBoundsA(s, version, 0, s.local.retryTimes);
    var v := Retry(VersionAttempt(), s, version, 0, s.local.retryTimes);
    if v.status == Success && !versionOnly {
      CapabilitiesBoundA(v.ctx, capabilities, 0, s.local.retryTimes);
      var c := Retry(CapabilitiesAttempt(), v.ctx, capabilities, 0, s.local.retryTimes);
      if c.status == Success {
        AlgorithmsBoundA(c.ctx, algorithms, 0, s.local.retryTimes);
      }
    }
  }
}
