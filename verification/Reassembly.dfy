/** The certificate loop against the responder's own handler. */
module Reassembly {
  import opened Bytes
  import opened Spdm
  import opened Crypto
  import opened ManagedBuffers
  import opened DeviceContext
  import opened Exchanges
  import opened ConnectionResponder
  import opened CertificateTransfer
  import opened Lockstep

  /** How a transfer between the two ends went: their contexts, the bytes assembled and the replies given. */
  datatype Transfer = Transfer(q: Context, p: Context, chain: seq<byte>, replies: seq<Reply>, complete: bool)

  /** The loop with every request answered by SpdmGetResponseCertificate. */
  function Serve(q: Context, p: Context, slot: byte, length: u16, chain: seq<byte>): Transfer
    decreases MAX_MESSAGE_BUFFER - |q.messageB|
  {
    if |chain| > MAX_MESSAGE_BUFFER then Transfer(q, p, chain, [], false)
    else
      var r := HandleGetCertificate(p, Normal, GetCertificateRequest(q, slot, |chain|, length));
      match CertificateRound(q, slot, length, chain, Says(r.message))
      case Stopped(_, q') => Transfer(q', r.ctx, chain, [Says(r.message)], false)
      case Completed(q', chain', remainder) =>
        if remainder == 0 then Transfer(q', r.ctx, chain', [Says(r.message)], true)
        else
          var t := Serve(q', r.ctx, slot, length, chain');
          t.(replies := [Says(r.message)] + t.replies)
  }

  /** From the i-th reply on, the peer sends these. */
  predicate Replays(peer: nat -> Reply, i: nat, replies: seq<Reply>) {
    forall j :: 0 <= j < |replies| ==> peer(i + j) == replies[j]
  }

  lemma ReplaysFromStart(peer: nat -> Reply, replies: seq<Reply>)
    requires forall j :: 0 <= j < |replies| ==> peer(j) == replies[j]
    ensures Replays(peer, 0, replies)
  {
    forall j | 0 <= j < |replies| ensures peer(0 + j) == replies[j] {
      assert peer(j) == replies[j];
    }
  }

  /** A completed transfer is what the requester's loop does when the peer gives these replies. */
  lemma {:induction false} ServeDrivesTheLoop(cr: Crypto, q: Context, p: Context, slot: byte, length: u16,
                                              chain: seq<byte>, capacity: Option<nat>, peer: nat -> Reply, i: nat)
    requires var t := Serve(q, p, slot, length, chain);
             t.complete && Replays(peer, i, t.replies)
    ensures var t := Serve(q, p, slot, length, chain);
            && CertificateLoop(cr, q, slot, length, chain, capacity, peer, i)
                 == FinishCertificate(cr, t.q, t.chain, capacity)
            && RoundsCompleted(q, slot, length, chain, peer, i) == |t.replies|
    decreases MAX_MESSAGE_BUFFER - |q.messageB|
  {
    hide HandleGetCertificate, CertificateRound, FinishCertificate, GetCertificateRequest;
    var t := Serve(q, p, slot, length, chain);
    var r := HandleGetCertificate(p, Normal, GetCertificateRequest(q, slot, |chain|, length));
    var round := CertificateRound(q, slot, length, chain, Says(r.message));
    assert peer(i + 0) == t.replies[0] == Says(r.message);
    if round.remainder != 0 {
      var rest := Serve(round.ctx, r.ctx, slot, length, round.chain);
      forall j | 0 <= j < |rest.replies| ensures peer(i + 1 + j) == rest.replies[j] {
        assert peer(i + (j + 1)) == t.replies[j + 1];
      }
      ServeDrivesTheLoop(cr, round.ctx, r.ctx, slot, length, round.chain, capacity, peer, i + 1);
    }
  }

  /** Rounds needed for n bytes in blocks of m. */
  function Rounds(n: nat, m: nat): nat
    requires m > 0
  {
    if n <= m then 1 else 1 + Rounds(n - m, m)
  }

  lemma {:induction false} RoundsIsCeiling(n: nat, m: nat)
    requires n > 0 && m > 0
    ensures Rounds(n, m) == (n + m - 1) / m
    decreases n
  {
    if n <= m {
      assert (n + m - 1) / m == 1 by {
        assert n + m - 1 == 1 * m + (n - 1);
        Quotient(n + m - 1, m, 1, n - 1);
      }
    } else {
      RoundsIsCeiling(n - m, m);
      var x := n - 1;
      Quotient(x + m, m, x / m + 1, x % m);
    }
  }

  lemma Quotient(x: int, m: int, q: int, r: int)
    requires m > 0 && 0 <= r < m && x == q * m + r
    ensures x / m == q
  {
    var d := q - x / m;
    assert d * m == q * m - x / m * m;
    assert x / m * m + x % m == x;
    Multiples(d, m);
  }

  lemma Multiples(d: int, m: int)
    requires m > 0
    ensures d >= 1 ==> d * m >= m
    ensures d <= -1 ==> d * m <= -m
  {
  }

  /** Both ends may exchange the rest of the chain: states, capability, slot and room in message B. */
  ghost predicate CanServe(q: Context, p: Context, slot: byte, chain: seq<byte>, offset: nat, m: nat): (r: bool)
    ensures r ==> offset < |chain| <= MAX_MESSAGE_BUFFER && 0 < m
  {
    && MayGetCertificate(q)
    && (p.state == Negotiated || p.state == AfterDigests || p.state == AfterCertificate)
    && IsCapable(p, false, 0, CERT_CAP)
    && slot < p.local.slotCount && ChainOfSlot(p.local, slot) == chain
    && offset < |chain| <= MAX_MESSAGE_BUFFER && 0 < m <= MAX_CERT_BLOCK
    && q.messageB == p.messageB
    && |q.messageB| + 16 * Rounds(|chain| - offset, m) + (|chain| - offset) <= MAX_MESSAGE_BUFFER
  }

  /** One round moves exactly one block, and offset, portion and remainder add up to the chain. */
  lemma RoundServesABlock(q: Context, p: Context, slot: byte, chain: seq<byte>, offset: nat, m: nat)
    requires CanServe(q, p, slot, chain, offset, m)
    ensures var req := GetCertificateRequest(q, slot, offset, m);
            var r := HandleGetCertificate(p, Normal, req);
            var round := CertificateRound(q, slot, m, chain[..offset], Says(r.message));
            var k := Min(m, |chain| - offset);
            && round.Completed?
            && round.chain == chain[..offset + k]
            && offset + k + round.remainder == |chain|
            && round.ctx == q.(messageB := q.messageB + req + r.message, state := AfterCertificate)
            && r.ctx == p.(messageB := p.messageB + req + r.message, state := AfterCertificate)
            && |req + r.message| == 16 + k
  {
    hide GetCertificateRequest, CertificateResponse, MayGetCertificate, IsCapable, ChainOfSlot;
    var req := GetCertificateRequest(q, slot, offset, m);
    CertificateRequestReads(q, slot, offset, m);
    CertificateResponseReads(p, slot, chain, offset, m);
    assert |chain[..offset]| == offset;
    var k := Min(m, |chain| - offset);
    assert chain[..offset] + chain[offset..offset + k] == chain[..offset + k];
    assert Rounds(|chain| - offset, m) >= 1;
    var resp := CertificateResponse(p, slot, chain, offset, m);
    assert q.messageB + req + resp == q.messageB + (req + resp);
  }

  /**
   Reassembly: for every non-empty chain and every block length, if message B has room the
   transfer completes, the requester holds exactly the chain, it took as many rounds as there are
   blocks, and the two ends cached the same bytes.
   */
  lemma {:induction false} TransferReassembles(q: Context, p: Context, slot: byte, chain: seq<byte>, offset: nat,
                                               m: nat)
    requires CanServe(q, p, slot, chain, offset, m)
    ensures var t := Serve(q, p, slot, m, chain[..offset]);
            && t.complete && t.chain == chain
            && |t.replies| == Rounds(|chain| - offset, m)
            && t.q.messageB == t.p.messageB
            && |t.q.messageB| == |q.messageB| + 16 * Rounds(|chain| - offset, m) + (|chain| - offset)
            && t.q == q.(messageB := t.q.messageB, state := AfterCertificate)
            && t.p == p.(messageB := t.p.messageB, state := AfterCertificate)
    decreases |chain| - offset
  {
    hide GetCertificateRequest, HandleGetCertificate, CertificateRound, IsCapable, ChainOfSlot;
    RoundServesABlock(q, p, slot, chain, offset, m);
    var req := GetCertificateRequest(q, slot, offset, m);
    var r := HandleGetCertificate(p, Normal, req);
    var round := CertificateRound(q, slot, m, chain[..offset], Says(r.message));
    if offset + m < |chain| {
      CapabilityIgnoresTranscripts(q, true, round.ctx);
      CapabilityIgnoresTranscripts(p, false, r.ctx);
      TransferReassembles(round.ctx, r.ctx, slot, chain, offset + m, m);
    } else {
      assert chain[..|chain|] == chain;
    }
  }

  lemma CapabilityIgnoresTranscripts(s: Context, isRequester: bool, s': Context)
    requires s'.local == s.local && s'.peerFlags == s.peerFlags
    ensures forall a: u32, b: u32 :: IsCapable(s', isRequester, a, b) == IsCapable(s, isRequester, a, b)
  {
  }
}
