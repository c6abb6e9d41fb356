/** From just after VERSION to Authenticated: every step of an honest connection succeeds. */
module EndToEnd {
  import opened Bytes
  import opened Spdm
  import opened Crypto
  import opened ManagedBuffers
  import opened DeviceContext
  import opened Exchanges
  import opened AlgorithmTables
  import opened ConnectionRequester
  import opened ConnectionResponder
  import opened CertificateTransfer
  import opened Negotiation
  import opened Lockstep
  import opened Reassembly

  /** GET_CAPABILITIES succeeds when each end accepts the other's flags and message A has room. */
  lemma CapabilitiesSucceed(q: Context, p: Context, stale: u32)
    requires q.versions == p.versions && q.messageA == p.messageA
    requires q.state == AfterVersion && p.state == AfterVersion
    requires ResponderFlagsOk(p.local.flags, Version(q)) && RequesterFlagsOk(q.local.flags, Version(q))
    requires |q.messageA| + |GetCapabilitiesRequest(q)| + 12 <= MAX_SMALL_BUFFER
    ensures var req := GetCapabilitiesRequest(q);
            var r := HandleGetCapabilities(p, Normal, req, stale);
            var a := q.messageA + req + r.message;
            && |r.message| == 12
            && TryGetCapabilities(q, Says(r.message))
               == Step(Success, q.(messageA := a, peerCtExponent := p.local.ctExponent, peerFlags := p.local.flags,
                                   state := AfterCapabilities), ())
            && r.ctx == p.(messageA := a, peerCtExponent := r.ctx.peerCtExponent, peerFlags := r.ctx.peerFlags,
                           state := AfterCapabilities)
            && (Version(q) == VERSION_11 ==> r.ctx.peerFlags == q.local.flags)
  {
    hide GetCapabilitiesRequest, CapabilitiesResponse, ResponderFlagsOk, FlagsConsistent;
    CapabilitiesRequestReads(q);
    var req := GetCapabilitiesRequest(q);
    assert |req| == (if Version(q) == VERSION_11 then 12 else 4);
    var r := HandleGetCapabilities(p, Normal, req, stale);
    assert r.message == CapabilitiesResponse(p);
  }

  /** GET_DIGESTS succeeds when a slot is provisioned and message B has room. */
  lemma DigestsSucceed(cr: Crypto, q: Context, p: Context)
    requires SizeLaws(cr) && q.versions == p.versions && q.messageB == p.messageB && q.algorithms == p.algorithms
    requires q.state == Negotiated && p.state == Negotiated
    requires FlagIn(q.peerFlags, CERT_CAP) && FlagIn(p.local.flags, CERT_CAP)
    requires q.local.peerChain == [] && 0 < p.local.slotCount <= MAX_SLOTS && AnyChainProvisioned(p.local)
    requires |q.messageB| + 8 + p.local.slotCount * HashSize(p.algorithms.baseHash) <= MAX_MESSAGE_BUFFER
    ensures var req := GetDigestsRequest(q);
            var r := HandleGetDigests(cr, p, Normal, req);
            var b := q.messageB + req + r.message;
            && |req + r.message| == 8 + p.local.slotCount * HashSize(p.algorithms.baseHash)
            && TryGetDigests(cr, q, Says(r.message))
               == Step(Success, q.(messageB := b, errorState := NoError, state := AfterDigests), ())
            && r.ctx == p.(messageB := b, state := AfterDigests)
  {
    hide DigestsResponse, DigestsReplySize, SizeLaws, AnyChainProvisioned, HashSize;
    DigestsAreTakenWhole(cr, q, p);
    var m := DigestsResponse(cr, p);
    assert m[..|m|] == m;
  }

  /** GET_CERTIFICATE succeeds with the responder's replies and stores the chain. */
  lemma CertificateSucceeds(cr: Crypto, q: Context, p: Context, slot: byte, length: u16, chain: seq<byte>,
                            peer: nat -> Reply)
    requires slot < MAX_SLOTS && 0 < length && q.local.peerChain == [] && q.local.peerRootHash == []
    requires CanServe(q.(errorState := NoCapabilities), p, slot, chain, 0, BlockLength(length))
    requires |chain| > 4 + HashSize(q.algorithms.baseHash) && cr.chainOk(q.algorithms.baseHash, chain)
    requires var t := Serve(q.(errorState := NoCapabilities), p, slot, BlockLength(length), []);
             forall j :: 0 <= j < |t.replies| ==> peer(j) == t.replies[j]
    ensures var t := Serve(q.(errorState := NoCapabilities), p, slot, BlockLength(length), []);
            var c := TryGetCertificate(cr, q, slot, length, None, peer);
            && c == Step(Success, q.(messageB := t.p.messageB, peerChain := chain, errorState := NoError,
                                     state := AfterCertificate), ())
            && t.p == p.(messageB := t.p.messageB, state := AfterCertificate)
            && |t.p.messageB| == |q.messageB| + 16 * Rounds(|chain|, BlockLength(length)) + |chain|
            && RoundsCompleted(q.(errorState := NoCapabilities), slot, BlockLength(length), [], peer, 0)
               == Rounds(|chain|, BlockLength(length))
  {
    hide Serve, CertificateLoop, RoundsCompleted, IsCapable, ChainOfSlot, Rounds, FinishCertificate;
    var s := q.(errorState := NoCapabilities);
    var m := BlockLength(length);
    TransferFinishes(cr, s, p, slot, m, chain, peer);
    CapabilityIgnoresTranscripts(q, true, s);
  }

  /**
   A responder provisioned with a chain of more than 0x1000 bytes, and no other oddity, makes the requester overrun
   the buffer the chain ends in: the call reports success.
   */
  lemma LongChainOverruns(cr: Crypto, q: Context, p: Context, slot: byte, length: u16, chain: seq<byte>,
                          peer: nat -> Reply)
    requires slot < MAX_SLOTS && 0 < length && q.local.peerChain == [] && q.local.peerRootHash == []
             && |q.peerChain| <= 0x1000
    requires CanServe(q.(errorState := NoCapabilities), p, slot, chain, 0, BlockLength(length))
             && |chain| > 0x1000
    requires |chain| > 4 + HashSize(q.algorithms.baseHash) && cr.chainOk(q.algorithms.baseHash, chain)
    requires var t := Serve(q.(errorState := NoCapabilities), p, slot, BlockLength(length), []);
             forall j :: 0 <= j < |t.replies| ==> peer(j) == t.replies[j]
    ensures Overruns(cr, q, slot, length, peer)
    ensures TryGetCertificate(cr, q, slot, length, None, peer).status == Success
  {
    hide CanServe, Serve, TryGetCertificate, Overruns, RoundsCompleted, Rounds, HashSize;
    CertificateSucceeds(cr, q, p, slot, length, chain, peer);
    StoredChainFitsExactly(cr, q, slot, length, None, peer);
  }

  /** Such a chain has room in message B: 0x1001 bytes in five blocks. */
  lemma LongChainFitsMessageB(q: Context, p: Context, slot: byte, chain: seq<byte>)
    requires MayGetCertificate(q) && IsCapable(p, false, 0, CERT_CAP) && p.state == Negotiated
             && slot < p.local.slotCount
    requires ChainOfSlot(p.local, slot) == chain && |chain| == 0x1001
    requires q.messageB == p.messageB && |q.messageB| <= 400
    ensures CanServe(q, p, slot, chain, 0, MAX_CERT_BLOCK)
  {
    hide MayGetCertificate, IsCapable, ChainOfSlot;
    assert Rounds(1, 1024) == 1 && Rounds(1025, 1024) == 2 && Rounds(2049, 1024) == 3 && Rounds(3073, 1024) == 4
           && Rounds(4097, 1024) == 5;
  }

  /** The loop under the same conditions, from an empty assembly buffer. */
  lemma TransferFinishes(cr: Crypto, s: Context, p: Context, slot: byte, m: u16, chain: seq<byte>, peer: nat -> Reply)
    requires CanServe(s, p, slot, chain, 0, m) && s.local.peerChain == [] && s.local.peerRootHash == []
    requires |chain| > 4 + HashSize(s.algorithms.baseHash) && cr.chainOk(s.algorithms.baseHash, chain)
    requires var t := Serve(s, p, slot, m, []);
             forall j :: 0 <= j < |t.replies| ==> peer(j) == t.replies[j]
    ensures var t := Serve(s, p, slot, m, []);
            && CertificateLoop(cr, s, slot, m, [], None, peer, 0)
               == Step(Success, s.(messageB := t.p.messageB, peerChain := chain, errorState := NoError,
                                   state := AfterCertificate), ())
            && t.p == p.(messageB := t.p.messageB, state := AfterCertificate)
            && |t.p.messageB| == |s.messageB| + 16 * Rounds(|chain|, m) + |chain|
            && RoundsCompleted(s, slot, m, [], peer, 0) == Rounds(|chain|, m)
  {
    hide Serve, CertificateLoop, RoundsCompleted, IsCapable, ChainOfSlot, Rounds, MayGetCertificate, HashSize,
         FinishCertificate, CanServe;
    assert chain[..0] == [];
    TransferReassembles(s, p, slot, chain, 0, m);
    var t := Serve(s, p, slot, m, []);
    ServeDrivesFromStart(cr, s, p, slot, m, peer);
    GoodChainIsStored(cr, t.q, chain);
  }

  lemma ServeDrivesFromStart(cr: Crypto, s: Context, p: Context, slot: byte, m: u16, peer: nat -> Reply)
    requires var t := Serve(s, p, slot, m, []);
             t.complete && forall j :: 0 <= j < |t.replies| ==> peer(j) == t.replies[j]
    ensures var t := Serve(s, p, slot, m, []);
            && CertificateLoop(cr, s, slot, m, [], None, peer, 0) == FinishCertificate(cr, t.q, t.chain, None)
            && RoundsCompleted(s, slot, m, [], peer, 0) == |t.replies|
  {
    hide Serve, CertificateLoop, RoundsCompleted, FinishCertificate, HandleGetCertificate, CertificateRound,
         GetCertificateRequest, Replays;
    ReplaysFromStart(peer, Serve(s, p, slot, m, []).replies);
    ServeDrivesTheLoop(cr, s, p, slot, m, [], None, peer, 0);
  }

  /** Without anything provisioned to compare it with, a chain that passes validation is stored. */
  lemma GoodChainIsStored(cr: Crypto, s: Context, chain: seq<byte>)
    requires s.local.peerChain == [] && s.local.peerRootHash == [] && |chain| <= MAX_MESSAGE_BUFFER
    requires |chain| > 4 + HashSize(s.algorithms.baseHash) && cr.chainOk(s.algorithms.baseHash, chain)
    ensures FinishCertificate(cr, s, chain, None) == Step(Success, s.(peerChain := chain, errorState := NoError), ())
  {
    hide HashSize;
  }

  /** CHALLENGE succeeds on a stored chain whose key the responder signs with. */
  lemma ChallengeSucceeds(cr: Crypto, q: Context, p: Context, slot: byte, hashType: byte,
                          nonceQ: Nonce, nonceP: Nonce, measured: seq<byte>)
    requires SizeLaws(cr) && q.versions == p.versions && q.algorithms == p.algorithms
    requires q.messageA == p.messageA && q.messageB == p.messageB && q.messageC == p.messageC
    requires q.state.Reached(Negotiated) && p.state.Reached(Negotiated) && q.peerFlags == p.local.flags
    requires FlagIn(p.local.flags, CHAL_CAP) && !p.local.basicMutAuthRequested
    requires slot < p.local.slotCount <= MAX_SLOTS
    requires hashType == 0 || hashType == 1 || hashType == 0xFF
    requires q.peerChain == ChainOfSlot(p.local, slot) && q.peerChain != []
    requires ResponderKeyMatches(cr, ChainData(q.peerChain, q.algorithms.baseHash))
    requires SignatureSize(q.algorithms.baseAsym) != 0
    requires var body := 38 + HashSize(q.algorithms.baseHash) + SummaryHashSize(q, true, hashType)
               + |p.local.opaqueChallengeAuth|;
             |q.messageC| + 36 + body <= MAX_SMALL_BUFFER
             && |q.messageA| + |q.messageB| + |q.messageC| + 36 + body <= MAX_MESSAGE_BUFFER
    ensures var req := ChallengeRequest(q, slot, hashType, nonceQ);
            var r := HandleChallenge(cr, p, Normal, req, nonceP, Some(measured));
            var t := TryChallenge(cr, q, slot, hashType, ChallengeInput(nonceQ, Says(r.message), true));
            && t.status == Success && t.ctx.messageC == r.ctx.messageC
            && t.ctx == q.(messageC := t.ctx.messageC, errorState := NoError, state := Authenticated)
            && r.ctx == p.(messageC := r.ctx.messageC, state := Authenticated)
            && |t.ctx.messageA| + |t.ctx.messageB| + |t.ctx.messageC| <= 0x1200
  {
    hide SizeLaws, HandleChallenge, CheckChallengeAuth, ChallengeAuthBody, SummaryHash, SummaryHashSize,
         FlagIn, HashSize, SignatureSize, ResponderKeyMatches, ChainData, ChainOfSlot, IsCapable, ChallengeRequest;
    var req := ChallengeRequest(q, slot, hashType, nonceQ);
    var s1 := q.(errorState := NoCapabilities, messageC := q.messageC + req);
    ResponderSigns(cr, q, p, slot, hashType, nonceQ, nonceP, measured);
    var r := HandleChallenge(cr, p, Normal, req, nonceP, Some(measured));
    var summary := SummaryHash(cr, p, hashType, Some(measured)).value;
    var body := ChallengeAuthBody(cr, p, slot, nonceP, summary);
    var s2 := s1.(messageC := s1.messageC + body);
    SameCapabilities(s1, q, hashType);
    SameCapabilities(q, q, hashType);
    RequesterAccepts(cr, s1, p, slot, hashType, nonceP, summary);
  }

  lemma SameCapabilities(s: Context, s': Context, hashType: byte)
    requires s.local == s'.local && s.peerFlags == s'.peerFlags && s.algorithms == s'.algorithms
    ensures SummaryHashSize(s, true, hashType) == SummaryHashSize(s', true, hashType)
    ensures IsCapable(s, true, 0, CHAL_CAP) == FlagIn(s'.peerFlags, CHAL_CAP)
  {
  }

  /** The responder's half of a successful CHALLENGE. */
  lemma ResponderSigns(cr: Crypto, q: Context, p: Context, slot: byte, hashType: byte,
                       nonceQ: Nonce, nonceP: Nonce, measured: seq<byte>)
    requires SizeLaws(cr) && q.algorithms == p.algorithms && q.peerFlags == p.local.flags
    requires p.state.Reached(Negotiated)
    requires FlagIn(p.local.flags, CHAL_CAP) && !p.local.basicMutAuthRequested
    requires slot < p.local.slotCount <= MAX_SLOTS
    requires hashType == 0 || hashType == 1 || hashType == 0xFF
    requires ResponderKeyMatches(cr, ChainData(q.peerChain, q.algorithms.baseHash))
    requires SignatureSize(q.algorithms.baseAsym) != 0
    requires var body := 38 + HashSize(q.algorithms.baseHash) + SummaryHashSize(q, true, hashType)
               + |p.local.opaqueChallengeAuth|;
             |p.messageC| + 36 + body <= MAX_SMALL_BUFFER
             && |p.messageA| + |p.messageB| + |p.messageC| + 36 + body <= MAX_MESSAGE_BUFFER
    ensures var req := ChallengeRequest(q, slot, hashType, nonceQ);
            var r := HandleChallenge(cr, p, Normal, req, nonceP, Some(measured));
            var summary := SummaryHash(cr, p, hashType, Some(measured));
            && summary.Some? && |summary.value| == SummaryHashSize(q, true, hashType)
            && var body := ChallengeAuthBody(cr, p, slot, nonceP, summary.value);
               && |p.messageC + req + body| <= MAX_SMALL_BUFFER
               && r.ctx == p.(messageC := p.messageC + req + body, state := Authenticated)
               && |r.ctx.messageA| + |r.ctx.messageB| + |r.ctx.messageC| <= 0x1200
               && var signed := r.ctx.messageA + r.ctx.messageB + r.ctx.messageC;
                  var signature := cr.responderSign(p.algorithms.baseAsym, p.algorithms.baseHash, signed);
                  && signature.Some? && |signature.value| == SignatureSize(q.algorithms.baseAsym)
                  && r.message == body + signature.value && |body| >= 4 && r.message[1] == CHALLENGE_AUTH
  {
    hide HashSize, ChainData, ChallengeAuthBody;
    var req := ChallengeRequest(q, slot, hashType, nonceQ);
    SummarySizesAgree(cr, q, p, hashType, Some(measured));
    var summary := SummaryHash(cr, p, hashType, Some(measured)).value;
    ChallengeBodyReads(cr, p, slot, nonceP, summary, []);
  }

  /** The requester's half: a response with the right layout, chain hash and signature is accepted. */
  lemma RequesterAccepts(cr: Crypto, s1: Context, p: Context, slot: byte, hashType: byte, nonceP: Nonce,
                         summary: seq<byte>)
    requires SizeLaws(cr) && s1.algorithms == p.algorithms
    requires slot < MAX_SLOTS && !p.local.basicMutAuthRequested
    requires |summary| == SummaryHashSize(s1, true, hashType)
    requires s1.peerChain == ChainOfSlot(p.local, slot) && s1.peerChain != []
    requires ResponderKeyMatches(cr, ChainData(s1.peerChain, s1.algorithms.baseHash))
    requires SignatureSize(s1.algorithms.baseAsym) != 0
    requires var body := ChallengeAuthBody(cr, p, slot, nonceP, summary);
             |s1.messageC + body| <= MAX_SMALL_BUFFER && |s1.messageA| + |s1.messageB| + |s1.messageC + body| <= 0x1200
    ensures var body := ChallengeAuthBody(cr, p, slot, nonceP, summary);
            var s2 := s1.(messageC := s1.messageC + body);
            var signed := s2.messageA + s2.messageB + s2.messageC;
            var signature := cr.responderSign(s1.algorithms.baseAsym, s1.algorithms.baseHash, signed);
            && signature.Some?
            && CheckChallengeAuth(cr, s1, slot, hashType, body + signature.value, true)
               == Step(Success, s2.(errorState := NoError, state := Authenticated), ())
  {
    hide HashSize, SignatureSize, ChainData, ChainOfSlot, SummaryHashSize, SizeLaws, IsCapable,
         ChallengeAuthBody, CheckChallengeAuth, Pow2;
    var body := ChallengeAuthBody(cr, p, slot, nonceP, summary);
    var s2 := s1.(messageC := s1.messageC + body);
    var signed := s2.messageA + s2.messageB + s2.messageC;
    var signature := cr.responderSign(s1.algorithms.baseAsym, s1.algorithms.baseHash, signed);
    assert signature.Some? && M1M2(s2) == Some(signed);
    ChallengeBodyReads(cr, p, slot, nonceP, summary, signature.value);
    SlotBitFits(slot);
    assert ChallengeSignatureOk(cr, s2, signature.value);
    GoodResponseIsAccepted(cr, s1, slot, hashType, body, signature.value);
  }

  /** Any response with this layout that passes the attribute, chain-hash and signature checks is accepted. */
  lemma GoodResponseIsAccepted(cr: Crypto, s1: Context, slot: byte, hashType: byte, body: seq<byte>,
                               signature: seq<byte>)
    requires var l := RequesterAuthLayout(s1, hashType);
             var m := body + signature;
             && 38 + l.hash + l.summary <= |body| && |signature| == l.signature && 0 < l.signature <= MAX_ASYM_KEY
             && |s1.messageC + body| <= MAX_SMALL_BUFFER
             && At16(m, 36 + l.hash + l.summary) == |body| - (38 + l.hash + l.summary)
             && AuthAttributesOk(s1, slot, m) && m[2] < 0x80
             && PeerChainHashOk(cr, s1, m[4..4 + l.hash])
             && ChallengeSignatureOk(cr, s1.(messageC := s1.messageC + body), signature)
    ensures CheckChallengeAuth(cr, s1, slot, hashType, body + signature, true)
         == Step(Success, s1.(messageC := s1.messageC + body, errorState := NoError, state := Authenticated), ())
  {
    hide RequesterAuthLayout, ChallengeSignatureOk, PeerChainHashOk, AuthAttributesOk;
    var m := body + signature;
    assert m[..|body|] == body;
    assert m[|body|..|body| + |signature|] == signature;
  }

  lemma SlotBitFits(slot: byte)
    requires slot < MAX_SLOTS
    ensures Pow2(slot) < 0x100
  {
    Pow2Values();
    assert slot == 0 || slot == 1 || slot == 2 || slot == 3 || slot == 4 || slot == 5 || slot == 6 || slot == 7;
  }
}
