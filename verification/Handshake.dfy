/** The whole connection: five exchanges in the order an application makes them. */
module Handshake {
  import opened Bytes
  import opened Spdm
  import opened Crypto
  import opened ManagedBuffers
  import opened DeviceContext
  import opened Exchanges
  import opened ConnectionRequester
  import opened ConnectionResponder
  import opened CertificateTransfer
  import opened Negotiation
  import opened Lockstep
  import opened Reassembly
  import opened EndToEnd

  /** What the application chooses and what either end draws at random or measures. */
  datatype Setup = Setup(slot: byte, length: u16, hashType: byte, nonceQ: Nonce, nonceP: Nonce, measured: seq<byte>,
                         stale: u32)

  /** A peer that gives these replies and then falls silent. */
  function FromReplies(replies: seq<Reply>): nat -> Reply {
    (i: nat) => if i < |replies| then replies[i] else Reply(ReceiveFails, ReceiveFails)
  }

  datatype Result = Result(statuses: seq<Status>, q: Context, p: Context)

  /** GET_CAPABILITIES, NEGOTIATE_ALGORITHMS and GET_DIGESTS against the responder's handlers. */
  function FirstThree(cr: Crypto, q: Context, p: Context, x: Setup): Result {
    var r1 := HandleGetCapabilities(p, Normal, GetCapabilitiesRequest(q), x.stale);
    var t1 := TryGetCapabilities(q, Says(r1.message));
    var r2 := HandleNegotiateAlgorithms(r1.ctx, Normal, NegotiateRequest(t1.ctx));
    var t2 := TryNegotiateAlgorithms(t1.ctx, Says(r2.message));
    var r3 := HandleGetDigests(cr, r2.ctx, Normal, GetDigestsRequest(t2.ctx));
    var t3 := TryGetDigests(cr, t2.ctx, Says(r3.message));
    Result([t1.status, t2.status, t3.status], t3.ctx, r3.ctx)
  }

  /** GET_CERTIFICATE and CHALLENGE against the responder's handlers. */
  function LastTwo(cr: Crypto, q: Context, p: Context, x: Setup): Result {
    var s4 := Serve(q.(errorState := NoCapabilities), p, x.slot, BlockLength(x.length), []);
    var t4 := TryGetCertificate(cr, q, x.slot, x.length, None, FromReplies(s4.replies));
    var req := ChallengeRequest(t4.ctx, x.slot, x.hashType, x.nonceQ);
    var r5 := HandleChallenge(cr, s4.p, Normal, req, x.nonceP, Some(x.measured));
    var t5 := TryChallenge(cr, t4.ctx, x.slot, x.hashType, ChallengeInput(x.nonceQ, Says(r5.message), true));
    Result([t4.status, t5.status], t5.ctx, r5.ctx)
  }

  function Connect(cr: Crypto, q: Context, p: Context, x: Setup): Result {
    var a := FirstThree(cr, q, p, x);
    var b := LastTwo(cr, a.q, a.p, x);
    Result(a.statuses + b.statuses, b.q, b.p)
  }

  function SummaryBytes(flags: u32, hashType: byte, hash: nat): nat {
    if FlagIn(flags, MEAS_CAP) && (hashType == 1 || hashType == 0xFF) then hash else 0
  }

  /** Bytes the five exchanges add to messages A, B and C. */
  function AddedToA(version: byte): nat {
    if version == VERSION_11 then 12 + 12 + 48 + 52 else 4 + 12 + 32 + 36
  }

  function AddedByDigests(p: Context, h: nat): nat {
    8 + p.local.slotCount * h
  }

  function AddedByCertificate(chain: seq<byte>, length: u16): nat
    requires length > 0
  {
    16 * Rounds(|chain|, BlockLength(length)) + |chain|
  }

  function AddedToC(p: Context, hashType: byte, h: nat): nat {
    36 + 38 + h + SummaryBytes(p.local.flags, hashType, h) + |p.local.opaqueChallengeAuth|
  }

  /** The transcripts of the whole connection fit their buffers. */
  ghost predicate Room(q: Context, p: Context, x: Setup, h: nat, chain: seq<byte>) {
    && x.length > 0
    && |q.messageA| + AddedToA(Version(q)) <= MAX_SMALL_BUFFER
    && |q.messageB| + AddedByDigests(p, h) + AddedByCertificate(chain, x.length) <= MAX_MESSAGE_BUFFER
    && |q.messageC| + AddedToC(p, x.hashType, h) <= MAX_SMALL_BUFFER
    && |q.messageA| + AddedToA(Version(q)) + |q.messageB| + AddedByDigests(p, h) + AddedByCertificate(chain, x.length)
       + |q.messageC| + AddedToC(p, x.hashType, h) <= MAX_MESSAGE_BUFFER
  }

  /** The selection passes the responder's own checks once it knows the requester's flags. */
  predicate SelectionSuffices(q: Context, p: Context) {
    var view := p.(peerFlags := q.local.flags);
    && BaseAlgorithmsOk(view, false, Selection(q, p))
    && (Version(q) == VERSION_11 ==> SessionAlgorithmsOk(view, false, Selection(q, p)))
  }

  /** Two contexts that agree after VERSION. */
  ghost predicate Start(q: Context, p: Context) {
    && q.versions == p.versions
    && q.messageA == p.messageA && q.messageB == p.messageB && q.messageC == p.messageC
    && q.state == AfterVersion && p.state == AfterVersion
  }

  ghost predicate Ready(cr: Crypto, q: Context, p: Context, x: Setup) {
    var hash := Selection(q, p).baseHash;
    var chain := ChainOfSlot(p.local, x.slot);
    && SizeLaws(cr) && Start(q, p)
    && ResponderFlagsOk(p.local.flags, Version(q)) && RequesterFlagsOk(q.local.flags, Version(q))
    && FlagIn(p.local.flags, CERT_CAP) && FlagIn(p.local.flags, CHAL_CAP)
    && SelectionSuffices(q, p)
    && q.local.peerChain == [] && q.local.peerRootHash == []
    && x.slot < p.local.slotCount <= MAX_SLOTS
    && 4 + HashSize(hash) < |chain| <= MAX_CERT_CHAIN && cr.chainOk(hash, chain)
    && ResponderKeyMatches(cr, ChainData(chain, hash))
    && !p.local.basicMutAuthRequested
    && (x.hashType == 0 || x.hashType == 1 || x.hashType == 0xFF)
    && Room(q, p, x, HashSize(hash), chain)
  }

  /** The two contexts once the algorithms are agreed and the digests are through. */
  ghost predicate Midway(q: Context, p: Context, a: Result, h: nat, agreed: Algorithms) {
    && a.q.messageA == a.p.messageA && |a.q.messageA| == |q.messageA| + AddedToA(Version(q))
    && a.q.messageB == a.p.messageB && |a.q.messageB| == |q.messageB| + AddedByDigests(p, h)
    && a.q == q.(messageA := a.q.messageA, messageB := a.q.messageB, peerCtExponent := a.q.peerCtExponent,
                 peerFlags := p.local.flags, algorithms := agreed, errorState := NoError, state := AfterDigests)
    && a.p == p.(messageA := a.p.messageA, messageB := a.p.messageB, peerCtExponent := a.p.peerCtExponent,
                 peerFlags := a.p.peerFlags, algorithms := agreed, state := AfterDigests)
    && (Version(q) == VERSION_11 ==> a.p.peerFlags == q.local.flags)
  }

  /** The requester's checks on the selection pass when the responder's did. */
  lemma BothAcceptSelection(q1: Context, p1: Context, view: Context, sel: Algorithms)
    requires q1.peerFlags == p1.local.flags == view.local.flags && view.peerFlags == q1.local.flags
    ensures BaseAlgorithmsOk(q1, true, sel) == BaseAlgorithmsOk(view, false, sel) == BaseAlgorithmsOk(p1, false, sel)
    ensures SessionAlgorithmsOk(q1, true, sel) == SessionAlgorithmsOk(view, false, sel)
    ensures p1.peerFlags == view.peerFlags ==>
              SessionAlgorithmsOk(p1, false, sel) == SessionAlgorithmsOk(view, false, sel)
  {
    hide HashSize, MeasurementHashSize, SignatureSize, DhePubKeySize, AeadKeySize, And;
  }

  /** NEGOTIATE_ALGORITHMS succeeds with the agreed algorithms. */
  lemma NegotiationSucceeds(q1: Context, p1: Context, view: Context)
    requires q1.versions == p1.versions && q1.messageA == p1.messageA
    requires q1.state == AfterCapabilities && p1.state == AfterCapabilities
    requires q1.peerFlags == p1.local.flags == view.local.flags && view.peerFlags == q1.local.flags
    requires Version(q1) == VERSION_11 ==> p1.peerFlags == view.peerFlags
    requires BaseAlgorithmsOk(view, false, Selection(q1, p1))
    requires Version(q1) == VERSION_11 ==> SessionAlgorithmsOk(view, false, Selection(q1, p1))
    requires |q1.messageA| + (if Version(q1) == VERSION_11 then 48 + 52 else 32 + 36) <= MAX_SMALL_BUFFER
    ensures var req := NegotiateRequest(q1);
            var r := HandleNegotiateAlgorithms(p1, Normal, req);
            var a := q1.messageA + req + r.message;
            && |req + r.message| == (if Version(q1) == VERSION_11 then 48 + 52 else 32 + 36)
            && TryNegotiateAlgorithms(q1, Says(r.message))
               == Step(Success, q1.(messageA := a, algorithms := Agreed(Version(q1), Selection(q1, p1)),
                                    state := Negotiated), ())
            && r.ctx == p1.(messageA := a, algorithms := Agreed(Version(q1), Selection(q1, p1)), state := Negotiated)
  {
    hide BaseAlgorithmsOk, SessionAlgorithmsOk, Selection, NegotiateRequest, AlgorithmsResponse,
         HandleNegotiateAlgorithms, TryNegotiateAlgorithms;
    var sel := Selection(q1, p1);
    BothAcceptSelection(q1, p1, view, sel);
    ResponderReadsRequest(q1, p1);
    RequesterReadsResponse(Version(q1), sel, q1.algorithms);
    ResponderNegotiates(q1, p1);
    RequesterNegotiates(q1, sel);
  }

  lemma FirstThreeSucceed(cr: Crypto, q: Context, p: Context, x: Setup)
    requires Ready(cr, q, p, x)
    ensures var a := FirstThree(cr, q, p, x);
            && a.statuses == [Success, Success, Success]
            && Midway(q, p, a, HashSize(Selection(q, p).baseHash), Agreed(Version(q), Selection(q, p)))
  {
    hide TryGetCapabilities, HandleGetCapabilities, TryNegotiateAlgorithms, HandleNegotiateAlgorithms, TryGetDigests,
         HandleGetDigests, GetCapabilitiesRequest, NegotiateRequest, BaseAlgorithmsOk, SessionAlgorithmsOk,
         Selection, SizeLaws, ResponderFlagsOk, RequesterFlagsOk, HashSize, FlagIn, ResponderKeyMatches, ChainData,
         AddedByCertificate, AddedToC, WithoutSessionAlgorithms;
    CapabilitiesSucceed(q, p, x.stale);
    var r1 := HandleGetCapabilities(p, Normal, GetCapabilitiesRequest(q), x.stale);
    var q1 := TryGetCapabilities(q, Says(r1.message)).ctx;
    SelectionIsLocal(q, p, q1, r1.ctx);
    NegotiationSucceeds(q1, r1.ctx, p.(peerFlags := q.local.flags));
    var r2 := HandleNegotiateAlgorithms(r1.ctx, Normal, NegotiateRequest(q1));
    var q2 := TryNegotiateAlgorithms(q1, Says(r2.message)).ctx;
    AgreedKeepsBase(Version(q), Selection(q, p));
    ChainIsProvisioned(p.local, x.slot);
    DigestsSucceed(cr, q2, r2.ctx);
  }

  /** The selection depends on the provisioned algorithms, the version and the algorithms before. */
  lemma SelectionIsLocal(q: Context, p: Context, q1: Context, p1: Context)
    requires q.local == q1.local && p.local == p1.local && q.versions == q1.versions && p.algorithms == p1.algorithms
    ensures Selection(q, p) == Selection(q1, p1)
  {
  }

  lemma AgreedKeepsBase(version: byte, sel: Algorithms)
    ensures Agreed(version, sel).baseHash == sel.baseHash && Agreed(version, sel).baseAsym == sel.baseAsym
  {
  }

  lemma ChainIsProvisioned(l: Local, slot: nat)
    ensures ChainOfSlot(l, slot) != [] ==> AnyChainProvisioned(l)
  {
  }

  lemma LastTwoSucceed(cr: Crypto, q: Context, p: Context, x: Setup, a: Result)
    requires Ready(cr, q, p, x)
    requires Midway(q, p, a, HashSize(Selection(q, p).baseHash), Agreed(Version(q), Selection(q, p)))
    ensures var b := LastTwo(cr, a.q, a.p, x);
            && b.statuses == [Success, Success]
            && b.q == a.q.(messageB := b.q.messageB, messageC := b.q.messageC,
                           peerChain := ChainOfSlot(p.local, x.slot),
                           errorState := NoError, state := Authenticated)
            && b.p == a.p.(messageB := b.p.messageB, messageC := b.p.messageC, state := Authenticated)
            && b.q.messageB == b.p.messageB && b.q.messageC == b.p.messageC
            && |b.q.messageA| + |b.q.messageB| + |b.q.messageC| <= 0x1200
  {
    hide TryGetCertificate, TryChallenge, HandleChallenge, Serve, Selection, SizeLaws, BaseAlgorithmsOk,
         SessionAlgorithmsOk, ResponderFlagsOk, RequesterFlagsOk, HashSize, ResponderKeyMatches, ChainData,
         AddedByDigests, RoundsCompleted, WithoutSessionAlgorithms, Rounds, ChallengeRequest, AddedToA,
         SignatureSize;
    var chain := ChainOfSlot(p.local, x.slot);
    AgreedKeepsBase(Version(q), Selection(q, p));
    var s := a.q.(errorState := NoCapabilities);
    assert CanServe(s, a.p, x.slot, chain, 0, BlockLength(x.length));
    var t := Serve(s, a.p, x.slot, BlockLength(x.length), []);
    CertificateSucceeds(cr, a.q, a.p, x.slot, x.length, chain, FromReplies(t.replies));
    var q4 := TryGetCertificate(cr, a.q, x.slot, x.length, None, FromReplies(t.replies)).ctx;
    ChallengeNeedsASigner(q, p);
    ChallengeSucceeds(cr, q4, t.p, x.slot, x.hashType, x.nonceQ, x.nonceP, x.measured);
  }

  lemma ChallengeNeedsASigner(q: Context, p: Context)
    ensures SelectionSuffices(q, p) && FlagIn(p.local.flags, CHAL_CAP) ==> SignatureSize(Selection(q, p).baseAsym) != 0
  {
    hide Selection, SessionAlgorithmsOk, SignatureSize, And;
  }

  /**
   End to end: from contexts that agree after VERSION, with compatible flags and algorithms, a
   provisioned slot, a chain that validates and room in the transcripts, all five exchanges succeed,
   both ends are Authenticated, and the requester verified the signature over the very bytes the
   responder signed.
   */
  lemma ConnectionAuthenticates(cr: Crypto, q: Context, p: Context, x: Setup)
    requires Ready(cr, q, p, x)
    ensures var c := Connect(cr, q, p, x);
            && c.statuses == [Success, Success, Success, Success, Success]
            && c.q.state == Authenticated && c.p.state == Authenticated
            && c.q.messageA == c.p.messageA && c.q.messageB == c.p.messageB && c.q.messageC == c.p.messageC
            && |c.q.messageA| + |c.q.messageB| + |c.q.messageC| <= 0x1200
            && Connected(q, p, x, c)
  {
    hide FirstThree, LastTwo, Ready, Selection;
    FirstThreeSucceed(cr, q, p, x);
    LastTwoSucceed(cr, q, p, x, FirstThree(cr, q, p, x));
  }

  /** What the two ends have in common afterwards, and what the connection left alone. */
  ghost predicate Connected(q: Context, p: Context, x: Setup, c: Result) {
    && c.q.messageA == c.p.messageA && |c.q.messageA| == |q.messageA| + AddedToA(Version(q))
    && c.q.algorithms == c.p.algorithms == Agreed(Version(q), Selection(q, p))
    && c.q.peerChain == ChainOfSlot(p.local, x.slot)
    && c.q.peerFlags == p.local.flags && (Version(q) == VERSION_11 ==> c.p.peerFlags == q.local.flags)
    && c.q.local == q.local && c.p.local == p.local && c.p.peerChain == p.peerChain && c.q.sessions == q.sessions
    && c.p.sessions == p.sessions
  }
}
