/**
 What GET_CERTIFICATE lets in, against any peer: the portions it joins, the bytes it caches and the chain it stores.
 */
module CertificateGate {
  import opened Bytes
  import opened Spdm
  import opened Crypto
  import opened ManagedBuffers
  import opened DeviceContext
  import opened Exchanges
  import opened CertificateTransfer
  import opened Meaning

  /**
   A chain that passes the checks: X.509 validation, and the provisioned root hash or, without one, the provisioned
   chain.
   */
  ghost predicate Genuine(cr: Crypto, s: Context, chain: seq<byte>) {
    var h := HashSize(s.algorithms.baseHash);
    && 4 + h < |chain| <= 0x1200 && cr.chainOk(s.algorithms.baseHash, chain)
    && (s.local.peerRootHash != [] ==> chain[4..4 + h] == s.local.peerRootHash)
    && (s.local.peerRootHash == [] && s.local.peerChain != [] ==> chain == s.local.peerChain)
  }

  lemma AcceptedIsGenuine(cr: Crypto, s: Context, chain: seq<byte>)
    ensures PeerChainAccepted(cr, s, chain) <==> Genuine(cr, s, chain)
  {
    hide HashSize;
  }

  // ---------- One round ----------

  /** A CERTIFICATE response for the slot that carries what it announces: Length, Remainder, portion. */
  ghost predicate Carries(r: Reply, slot: byte) {
    var o := LongOutcome(r, 0x02, 1032);
    && o.Answer? && 8 <= |o.message| <= 1032 && o.message[2] == slot
    && 8 + At16(o.message, 4) as int <= |o.message|
  }

  ghost function Message(r: Reply): seq<byte> {
    var o := LongOutcome(r, 0x02, 1032);
    if o.Answer? && |o.message| >= 8 && 8 + At16(o.message, 4) as int <= |o.message|
    then o.message[..8 + At16(o.message, 4)] else Zeros(8)
  }

  ghost function Portion(r: Reply): seq<byte> {
    if |Message(r)| >= 8 then Message(r)[8..] else []
  }

  ghost function Remainder(r: Reply): u16 {
    if |Message(r)| >= 8 then At16(Message(r), 6) else 0
  }

  /**
   The bytes of one round: the request for the block at this offset, and the response up to the end of its portion.
   */
  ghost function RoundBytes(s: Context, slot: byte, length: u16, offset: u16, r: Reply): seq<byte> {
    [Version(s), 0x82, slot, 0] + Le16(offset) + Le16(length) + Message(r)
  }

  /** A round completes exactly when its response carries a portion and there is room for it in both buffers. */
  lemma RoundExactly(s: Context, slot: byte, length: u16, chain: seq<byte>, r: Reply)
    requires |chain| <= 0x1200
    ensures var round := CertificateRound(s, slot, length, chain, r);
            && (round.Completed? <==>
                  && Carries(r, slot) && |s.messageB| + |RoundBytes(s, slot, length, |chain|, r)| <= 0x1200
                  && |chain| + |Portion(r)| <= 0x1200)
            && (round.Completed? ==>
                  round == Completed(s.(messageB := s.messageB + RoundBytes(s, slot, length, |chain|, r),
                                        state := AfterCertificate), chain + Portion(r), Remainder(r)))
            && (round.Stopped? ==>
                  && round.status != Success && round.ctx.peerChain == s.peerChain
                  && (round.ctx.state == s.state || round.ctx.state == NotStarted))
  {
    hide Version;
    var o := LongOutcome(r, 0x02, 1032);
    var request := [Version(s), 0x82, slot, 0] + Le16(|chain|) + Le16(length);
    assert request == GetCertificateRequest(s, slot, |chain|, length);
    if Carries(r, slot) {
      var m := o.message;
      var n: int := At16(m, 4);
      assert Message(r) == m[..8 + n] && Portion(r) == m[8..8 + n];
      assert At16(Message(r), 6) == At16(m, 6);
      assert s.messageB + request + m[..8 + n] == s.messageB + RoundBytes(s, slot, length, |chain|, r);
    }
  }

  // ---------- The transfer ----------

  /** The portions of n replies, joined. */
  ghost function Joined(peer: nat -> Reply, i: nat, n: nat): seq<byte>
    decreases n
  {
    if n == 0 then [] else Portion(peer(i)) + Joined(peer, i + 1, n - 1)
  }

  /** The bytes of n rounds from this offset on. */
  ghost function JoinedBytes(s: Context, slot: byte, length: u16, offset: nat, peer: nat -> Reply, i: nat,
                             n: nat): seq<byte>
    decreases n
  {
    if n == 0 || offset > 0x1200 then []
    else
      RoundBytes(s, slot, length, offset, peer(i))
      + JoinedBytes(s, slot, length, offset + |Portion(peer(i))|, peer, i + 1, n - 1)
  }

  /**
   How a transfer ends that has got to its last portion: a genuine chain is stored, and the call succeeds unless the
   caller's buffer is too small; any other chain is a security violation that stores nothing.
   */
  ghost function Concluded(cr: Crypto, s: Context, whole: seq<byte>, bytes: seq<byte>,
                           capacity: Option<nat>): Step<()> {
    var s' := s.(messageB := s.messageB + bytes, state := AfterCertificate);
    if !Genuine(cr, s, whole) then Step(SecurityViolation, s'.(errorState := CertificateFailure), ())
    else Step(if capacity.Some? && capacity.value < |whole| then BufferTooSmall else Success,
              s'.(peerChain := whole, errorState := NoError), ())
  }

  lemma ConcludedLater(cr: Crypto, s: Context, s': Context, whole: seq<byte>, first: seq<byte>, rest: seq<byte>,
                       capacity: Option<nat>)
    requires s' == s.(messageB := s.messageB + first, state := AfterCertificate)
    ensures Concluded(cr, s', whole, rest, capacity) == Concluded(cr, s, whole, first + rest, capacity)
  {
    hide Genuine;
    GenuineIgnores(cr, s, s', whole);
    assert s.messageB + first + rest == s.messageB + (first + rest);
  }

  lemma LastPortion(cr: Crypto, s: Context, s': Context, whole: seq<byte>, bytes: seq<byte>, capacity: Option<nat>)
    requires s' == s.(messageB := s.messageB + bytes, state := AfterCertificate)
    ensures FinishCertificate(cr, s', whole, capacity) == Concluded(cr, s, whole, bytes, capacity)
  {
    hide Genuine, PeerChainAccepted;
    AcceptedIsGenuine(cr, s', whole);
    GenuineIgnores(cr, s, s', whole);
  }

  /**
   The loop from round i on, with `chain` assembled so far: it concludes on the joined portions if its last completed
   round announced no remainder, and otherwise fails and stores nothing.
   */
  lemma {:induction false} LoopExactly(cr: Crypto, s: Context, slot: byte, length: u16, chain: seq<byte>,
                                       capacity: Option<nat>, peer: nat -> Reply, i: nat)
    requires |chain| <= 0x1200
    ensures var t := CertificateLoop(cr, s, slot, length, chain, capacity, peer, i);
            var n := RoundsCompleted(s, slot, length, chain, peer, i);
            if n > 0 && Remainder(peer(i + n - 1)) == 0
            then t == Concluded(cr, s, chain + Joined(peer, i, n), JoinedBytes(s, slot, length, |chain|, peer, i, n),
                                capacity)
            else t.status != Success && t.ctx.peerChain == s.peerChain
    decreases MAX_MESSAGE_BUFFER - |s.messageB|
  {
    hide CertificateRound, Concluded, RoundBytes, Portion, Remainder, FinishCertificate, Carries;
    RoundExactly(s, slot, length, chain, peer(i));
    var round := CertificateRound(s, slot, length, chain, peer(i));
    if round.Completed? {
      var s' := round.ctx;
      var first := RoundBytes(s, slot, length, |chain|, peer(i));
      if round.remainder != 0 {
        LoopExactly(cr, s', slot, length, round.chain, capacity, peer, i + 1);
        var n := RoundsCompleted(s', slot, length, round.chain, peer, i + 1);
        JoinedIgnores(s, s', slot, length, |round.chain|, peer, i + 1, n);
        assert round.chain + Joined(peer, i + 1, n) == chain + Joined(peer, i, n + 1);
        ConcludedLater(cr, s, s', chain + Joined(peer, i, n + 1), first,
                       JoinedBytes(s, slot, length, |round.chain|, peer, i + 1, n), capacity);
      } else {
        assert Joined(peer, i, 1) == Portion(peer(i)) + [] == Portion(peer(i));
        assert JoinedBytes(s, slot, length, |chain|, peer, i, 1) == first + [] == first;
        LastPortion(cr, s, s', round.chain, first, capacity);
      }
    }
  }

  lemma GenuineIgnores(cr: Crypto, s: Context, t: Context, chain: seq<byte>)
    requires t.local == s.local && t.algorithms == s.algorithms
    ensures Genuine(cr, s, chain) <==> Genuine(cr, t, chain)
  {
  }

  lemma {:induction false} JoinedIgnores(s: Context, t: Context, slot: byte, length: u16, offset: nat,
                                         peer: nat -> Reply, i: nat, n: nat)
    requires t.versions == s.versions
    ensures JoinedBytes(s, slot, length, offset, peer, i, n) == JoinedBytes(t, slot, length, offset, peer, i, n)
    decreases n
  {
    hide Portion, Message;
    if n > 0 && offset <= 0x1200 {
      JoinedIgnores(s, t, slot, length, offset + |Portion(peer(i))|, peer, i + 1, n - 1);
    }
  }

  /** The same for a whole attempt, whose blocks are at most 1024 bytes. */
  lemma CertificateExactly(cr: Crypto, s: Context, slot: byte, length: u16, capacity: Option<nat>, peer: nat -> Reply)
    ensures var t := TryGetCertificate(cr, s, slot, length, capacity, peer);
            var block: u16 := if length < 1024 then length else 1024;
            var n := RoundsCompleted(s.(errorState := NoCapabilities), slot, block, [], peer, 0);
            if && Bit(s.peerFlags, 1) && s.state in {Negotiated, AfterDigests, AfterCertificate} && slot < 8
               && n > 0 && Remainder(peer(n - 1)) == 0
            then t == Concluded(cr, s, Joined(peer, 0, n), JoinedBytes(s, slot, block, 0, peer, 0, n), capacity)
            else t.status != Success && t.ctx.peerChain == s.peerChain
  {
    hide CertificateLoop, RoundsCompleted, Genuine, Remainder, IsCapable, Bit, Joined, JoinedBytes;
    Queries(s, true);
    var s0 := s.(errorState := NoCapabilities);
    var block: u16 := if length < 1024 then length else 1024;
    LoopExactly(cr, s0, slot, block, [], capacity, peer, 0);
    var n := RoundsCompleted(s0, slot, block, [], peer, 0);
    assert [] + Joined(peer, 0, n) == Joined(peer, 0, n);
    GenuineIgnores(cr, s, s0, Joined(peer, 0, n));
    JoinedIgnores(s, s0, slot, block, 0, peer, 0, n);
  }
}
