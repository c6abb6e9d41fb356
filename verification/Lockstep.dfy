/** The two ends exchange connection messages: their transcripts, algorithms and capabilities stay equal. */
module Lockstep {
  import opened Bytes
  import opened Spdm
  import opened Crypto
  import opened ManagedBuffers
  import opened DeviceContext
  import opened Exchanges
  import opened AlgorithmTables
  import opened ConnectionRequester
  import opened ConnectionResponder
  import opened CertificateTransfer
  import opened Negotiation

  /** What requester q and responder p share at the point q has reached. */
  ghost predicate Agree(q: Context, p: Context) {
    && q.versions == p.versions
    && q.messageA == p.messageA && q.messageB == p.messageB && q.messageC == p.messageC
    && (q.state.Reached(AfterCapabilities) ==>
          q.peerFlags == p.local.flags && (Version(q) == VERSION_11 ==> p.peerFlags == q.local.flags))
    && (q.state.Reached(Negotiated) ==> q.algorithms == p.algorithms)
  }

  /** In 1.1 the two roles answer every capability query alike. */
  lemma CapabilityAnswersAgree(q: Context, p: Context, requesterMask: u32, responderMask: u32)
    requires Agree(q, p) && q.state.Reached(AfterCapabilities) && Version(q) == VERSION_11
    ensures IsCapable(q, true, requesterMask, responderMask) == IsCapable(p, false, requesterMask, responderMask)
  {
  }

  // ---------- GET_CAPABILITIES ----------

  lemma CapabilitiesRequestReads(q: Context)
    ensures var m := GetCapabilitiesRequest(q);
            Version(q) == VERSION_11 ==> At32(m, 8) == q.local.flags && m[5] == q.local.ctExponent
  {
    if Version(q) == VERSION_11 {
      At32Within(GetCapabilitiesRequest(q), 8, q.local.flags);
    }
  }

  lemma CapabilitiesKeepAgreement(q: Context, p: Context, stale: u32)
    requires Agree(q, p)
    ensures var r := HandleGetCapabilities(p, Normal, GetCapabilitiesRequest(q), stale);
            var t := TryGetCapabilities(q, Says(r.message));
            t.status == Success ==> Agree(t.ctx, r.ctx) && t.ctx.state == r.ctx.state == AfterCapabilities
  {
    hide GetCapabilitiesRequest, CapabilitiesResponse, ResponderFlagsOk, RequesterFlagsOk;
    var req := GetCapabilitiesRequest(q);
    var r := HandleGetCapabilities(p, Normal, req, stale);
    var t := TryGetCapabilities(q, Says(r.message));
    CapabilitiesRequestReads(q);
    if t.status == Success {
      assert r.message[1] == CAPABILITIES;
      assert r.message == CapabilitiesResponse(p);
    }
  }

  // ---------- GET_DIGESTS ----------

  lemma {:induction false} DigestsHaveTheirSize(cr: Crypto, p: Context, n: nat)
    requires SizeLaws(cr)
    ensures |SlotDigests(cr, p, n)| == n * HashSize(p.algorithms.baseHash)
  {
    if n > 0 {
      DigestsHaveTheirSize(cr, p, n - 1);
    }
  }

  /** Bit k of the mask with the low n bits set. */
  lemma {:induction false} SlotMaskBits(n: nat, k: nat)
    ensures Bit(SlotMask(n), k) <==> k < n
    decreases k
  {
    if n == 0 {
      ZeroHasNoBit(k);
    } else if k > 0 {
      SlotMaskBits(n - 1, k - 1);
      assert SlotMask(n) / 2 == SlotMask(n - 1);
    }
  }

  lemma {:induction false} SlotsInMask(mask: byte, n: nat, k: nat)
    requires mask == SlotMask(n)
    ensures SlotsIn(mask, k) == Min(n, k)
    decreases k
  {
    if k > 0 {
      SlotsInMask(mask, n, k - 1);
      SlotMaskBits(n, k - 1);
    }
  }

  lemma SlotMaskFits(n: nat)
    requires n <= MAX_SLOTS
    ensures SlotMask(n) < 0x100
  {
    Pow2Values();
    assert n == 0 || n == 1 || n == 2 || n == 3 || n == 4 || n == 5 || n == 6 || n == 7 || n == 8;
  }

  /** The requester takes a DIGESTS response whole. */
  lemma DigestsAreTakenWhole(cr: Crypto, q: Context, p: Context)
    requires SizeLaws(cr) && q.algorithms == p.algorithms && p.local.slotCount <= MAX_SLOTS
    ensures var m := DigestsResponse(cr, p);
            && |m| == 4 + p.local.slotCount * HashSize(p.algorithms.baseHash) && m[1] == DIGESTS
            && (DigestsReplySize(q, m).Some? ==> DigestsReplySize(q, m).value == |m|)
            && (0 < p.local.slotCount ==> DigestsReplySize(q, m).Some?)
  {
    var m := DigestsResponse(cr, p);
    SlotMaskFits(p.local.slotCount);
    SlotsInMask(m[3], p.local.slotCount, MAX_SLOTS);
    DigestsHaveTheirSize(cr, p, p.local.slotCount);
    var h := HashSize(p.algorithms.baseHash);
    assert p.local.slotCount * h <= MAX_SLOTS * MAX_HASH;
  }

  lemma DigestsKeepAgreement(cr: Crypto, q: Context, p: Context)
    requires SizeLaws(cr) && Agree(q, p) && p.local.slotCount <= MAX_SLOTS
    ensures var r := HandleGetDigests(cr, p, Normal, GetDigestsRequest(q));
            var t := TryGetDigests(cr, q, Says(r.message));
            t.status == Success ==> Agree(t.ctx, r.ctx) && t.ctx.state == r.ctx.state == AfterDigests
  {
    hide DigestsResponse, DigestsReplySize, SizeLaws, PeerDigestOk, AnyChainProvisioned;
    var r := HandleGetDigests(cr, p, Normal, GetDigestsRequest(q));
    var t := TryGetDigests(cr, q, Says(r.message));
    if t.status == Success {
      DigestsAreTakenWhole(cr, q, p);
      var m := DigestsResponse(cr, p);
      assert r.message == m;
      assert m[..|m|] == m;
    }
  }

  // ---------- GET_CERTIFICATE ----------

  lemma CertificateRequestReads(q: Context, slot: byte, offset: u16, length: u16)
    ensures var m := GetCertificateRequest(q, slot, offset, length);
            m[1] == GET_CERTIFICATE && m[2] == slot && At16(m, 4) == offset && At16(m, 6) == length
  {
  }

  lemma CertificateResponseReads(p: Context, slot: byte, chain: seq<byte>, offset: nat, length: nat)
    requires offset < |chain| && length <= 0xFFFF
    ensures var m := CertificateResponse(p, slot, chain, offset, length);
            var k := PortionLength(|chain|, offset, length);
            && m[1] == CERTIFICATE && m[2] == slot && At16(m, 4) == k
            && At16(m, 6) == (|chain| - (offset + k)) % 0x1_0000
            && m[8..8 + k] == chain[offset..offset + k] && m[..8 + k] == m
  {
    hide PortionLength;
    var m := CertificateResponse(p, slot, chain, offset, length);
    var k := PortionLength(|chain|, offset, length);
    At16Within(m, 4, k);
    At16Within(m, 6, (|chain| - (offset + k)) % 0x1_0000);
  }

  lemma CertificateKeepsAgreement(q: Context, p: Context, slot: byte, length: u16, chain: seq<byte>)
    requires Agree(q, p) && |chain| <= MAX_MESSAGE_BUFFER
    ensures var r := HandleGetCertificate(p, Normal, GetCertificateRequest(q, slot, |chain|, length));
            var t := CertificateRound(q, slot, length, chain, Says(r.message));
            MayGetCertificate(q) && t.Completed? ==>
              Agree(t.ctx, r.ctx) && t.ctx.state == r.ctx.state == AfterCertificate
  {
    hide GetCertificateRequest, CertificateResponse, PortionLength, PortionOk;
    var req := GetCertificateRequest(q, slot, |chain|, length);
    var r := HandleGetCertificate(p, Normal, req);
    var t := CertificateRound(q, slot, length, chain, Says(r.message));
    CertificateRequestReads(q, slot, |chain|, length);
    if MayGetCertificate(q) && t.Completed? {
      assert r.message[1] == CERTIFICATE;
      CertificateResponseReads(p, slot, ChainOfSlot(p.local, slot), |chain|, length);
    }
  }

  // ---------- CHALLENGE ----------

  /** The layout of the signed part of CHALLENGE_AUTH, whatever follows it. */
  lemma ChallengeBodyReads(cr: Crypto, p: Context, slot: byte, nonce: Nonce, summary: seq<byte>, tail: seq<byte>)
    requires SizeLaws(cr)
    ensures var body := ChallengeAuthBody(cr, p, slot, nonce, summary);
            var h := HashSize(p.algorithms.baseHash);
            var o := p.local.opaqueChallengeAuth;
            var signer: nat := if slot == 0xFF then p.local.provisionedSlot else slot;
            && |body| == 38 + h + |summary| + |o|
            && (body + tail)[1] == CHALLENGE_AUTH
            && (body + tail)[2] == slot % 0x10 + (if AsksBasicMutAuth(p) then 0x80 else 0)
            && (body + tail)[3] == (if slot < 8 then Pow2(slot) % 0x100 else 0)
            && (body + tail)[4..4 + h] == cr.hash(p.algorithms.baseHash, ChainOfSlot(p.local, signer))
            && At16(body + tail, 36 + h + |summary|) == |o| % 0x1_0000
            && (body + tail)[..|body|] == body
  {
    hide AsksBasicMutAuth, HashSize, Pow2;
    var body := ChallengeAuthBody(cr, p, slot, nonce, summary);
    var h := HashSize(p.algorithms.baseHash);
    var signer: nat := if slot == 0xFF then p.local.provisionedSlot else slot;
    assert |cr.hash(p.algorithms.baseHash, ChainOfSlot(p.local, signer))| == h;
    At16Within(body + tail, 36 + h + |summary|, |p.local.opaqueChallengeAuth| % 0x1_0000);
  }

  /** Both ends expect the same summary hash size. */
  lemma SummarySizesAgree(cr: Crypto, q: Context, p: Context, hashType: byte, measured: Option<seq<byte>>)
    requires SizeLaws(cr) && q.peerFlags == p.local.flags && q.algorithms == p.algorithms
    ensures SummaryHash(cr, p, hashType, measured).Some? ==>
              |SummaryHash(cr, p, hashType, measured).value| == SummaryHashSize(q, true, hashType)
  {
  }

  /** The parts of a CHALLENGE_AUTH response the handler sends when it does not refuse. */
  lemma ChallengeAnswer(cr: Crypto, p: Context, req: seq<byte>, nonce: Nonce, measured: Option<seq<byte>>)
    requires |req| >= 4
    ensures var r := HandleChallenge(cr, p, Normal, req, nonce, measured);
            var summary := SummaryHash(cr, p, req[3], measured);
            |r.message| >= 4 && (r.message[1] != ERROR ==>
              && summary.Some? && |req| == 36
              && var body := ChallengeAuthBody(cr, p, req[2], nonce, summary.value);
                 && |p.messageC + req + body| <= MAX_SMALL_BUFFER
                 && r.ctx.messageC == p.messageC + req + body
                 && r.ctx == p.(messageC := r.ctx.messageC, state := r.ctx.state)
                 && M1M2(r.ctx).Some?
                 && var signature := cr.responderSign(p.algorithms.baseAsym, p.algorithms.baseHash, M1M2(r.ctx).value);
                    signature.Some? && r.message == body + signature.value)
  {
    hide SummaryHash, AsksBasicMutAuth, IsCapable;
  }

  /** The requester caches exactly the signed part of a response with this layout. */
  lemma RequesterTakesBody(cr: Crypto, s1: Context, slot: byte, hashType: byte, body: seq<byte>, tail: seq<byte>,
                           encapOk: bool)
    requires var l := RequesterAuthLayout(s1, hashType);
             && 38 + l.hash + l.summary <= |body|
             && At16(body + tail, 36 + l.hash + l.summary) == |body| - (38 + l.hash + l.summary)
    ensures var t := CheckChallengeAuth(cr, s1, slot, hashType, body + tail, encapOk);
            t.status == Success ==>
              && t.ctx == s1.(messageC := s1.messageC + body, errorState := NoError, state := Authenticated)
              && |t.ctx.messageC| <= MAX_SMALL_BUFFER
  {
    hide RequesterAuthLayout, ChallengeSignatureOk, PeerChainHashOk, AuthAttributesOk;
    assert (body + tail)[..|body|] == body;
  }

  lemma ChallengeKeepsAgreement(cr: Crypto, q: Context, p: Context, slot: byte, hashType: byte,
                                nonceQ: Nonce, nonceP: Nonce, measured: Option<seq<byte>>, encapOk: bool)
    requires SizeLaws(cr) && Agree(q, p)
    ensures var r := HandleChallenge(cr, p, Normal, ChallengeRequest(q, slot, hashType, nonceQ), nonceP, measured);
            var t := TryChallenge(cr, q, slot, hashType, ChallengeInput(nonceQ, Says(r.message), encapOk));
            t.status == Success ==> Agree(t.ctx, r.ctx) && t.ctx.state == Authenticated
  {
    hide SizeLaws, HandleChallenge, CheckChallengeAuth, ChallengeAuthBody, SummaryHash, SummaryHashSize, M1M2,
         IsCapable, HashSize, SignatureSize;
    var req := ChallengeRequest(q, slot, hashType, nonceQ);
    var r := HandleChallenge(cr, p, Normal, req, nonceP, measured);
    var t := TryChallenge(cr, q, slot, hashType, ChallengeInput(nonceQ, Says(r.message), encapOk));
    ChallengeAnswer(cr, p, req, nonceP, measured);
    if t.status == Success {
      var s1 := q.(errorState := NoCapabilities, messageC := q.messageC + req);
      SummarySizesAgree(cr, s1, p, hashType, measured);
      var summary := SummaryHash(cr, p, hashType, measured).value;
      var body := ChallengeAuthBody(cr, p, slot, nonceP, summary);
      var tail := r.message[|body|..];
      assert r.message == body + tail;
      ChallengeBodyReads(cr, p, slot, nonceP, summary, tail);
      RequesterTakesBody(cr, s1, slot, hashType, body, tail, encapOk);
    }
  }
}
