/** GET_CERTIFICATE: the requester's chunk loop (SpdmRequesterLibGetCertificate.c). */
module CertificateTransfer {
  import opened Bytes
  import opened Spdm
  import opened Crypto
  import opened ManagedBuffers
  import opened DeviceContext
  import opened Exchanges

  const CERTIFICATE_MAX: nat := 8 + MAX_CERT_BLOCK

  function GetCertificateRequest(s: Context, slot: byte, offset: u16, length: u16): (m: seq<byte>)
    ensures |m| == 8
  {
    [Version(s), GET_CERTIFICATE, slot, 0] + Le16(offset) + Le16(length)
  }

  /** The response has the requested slot and really carries the portion it announces. */
  predicate PortionOk(m: seq<byte>, slot: byte) {
    && 8 <= |m| <= CERTIFICATE_MAX
    && At16(m, 4) <= MAX_CERT_BLOCK
    && m[2] == slot
    && 8 + At16(m, 4) <= |m|
  }

  /** One turn of the loop: it either stops the attempt or caches both messages and extends the chain. */
  datatype Round = Stopped(status: Status, ctx: Context) | Completed(ctx: Context, chain: seq<byte>, remainder: u16)

  function CertificateRound(s: Context, slot: byte, length: u16, chain: seq<byte>, r: Reply): (round: Round)
    ensures round.Completed? ==>
      && |s.messageB| + 16 <= |round.ctx.messageB| <= MAX_MESSAGE_BUFFER
      && |chain| <= |round.chain| <= MAX_MESSAGE_BUFFER
    ensures round.Completed? ==>
      var o := LongOutcome(r, CERTIFICATE, CERTIFICATE_MAX);
      o.Answer? && PortionOk(o.message, slot) && |round.chain| == |chain| + At16(o.message, 4) as int
    ensures round.Stopped? ==> round.status != Success
  {
    if |chain| > MAX_MESSAGE_BUFFER then Stopped(SecurityViolation, s)
    else
      var outcome := LongOutcome(r, CERTIFICATE, CERTIFICATE_MAX);
      var cached := Cached(MAX_MESSAGE_BUFFER, s.messageB, GetCertificateRequest(s, slot, |chain|, length));
      if outcome.NotSent? then Stopped(DeviceError, s)
      else if cached.None? then Stopped(SecurityViolation, s)
      else
        var s1 := s.(messageB := cached.value);
        match outcome
        case Refused(code) => Stopped(RefusalStatus(code), AfterRefusal(s, code))
        case Answer(m) =>
          if !PortionOk(m, slot) then Stopped(DeviceError, s1)
          else
            var portion: int := At16(m, 4);
            var cached2 := Cached(MAX_MESSAGE_BUFFER, s1.messageB, m[..8 + portion]);
            if cached2.None? then Stopped(SecurityViolation, s1)
            else
              var s2 := s1.(messageB := cached2.value);
              var longer := Cached(MAX_MESSAGE_BUFFER, chain, m[8..8 + portion]);
              if longer.None? then Stopped(SecurityViolation, s2)
              else Completed(s2.(state := AfterCertificate), longer.value, At16(m, 6))
        case _ => Stopped(DeviceError, s1)
  }

  /** After the last portion: the assembled chain is checked, stored and handed to the caller. */
  function FinishCertificate(cr: Crypto, s: Context, chain: seq<byte>, capacity: Option<nat>): Step<()> {
    if !PeerChainAccepted(cr, s, chain) then Step(SecurityViolation, s.(errorState := CertificateFailure), ())
    else
      var s' := s.(peerChain := chain, errorState := NoError);
      if capacity.Some? && capacity.value < |chain| then Step(BufferTooSmall, s', ()) else Step(Success, s', ())
  }

  /**
   The loop from round i on. It ends against every peer, because a completed round leaves at least
   sixteen more bytes in message B.
   */
  function CertificateLoop(cr: Crypto, s: Context, slot: byte, length: u16, chain: seq<byte>, capacity: Option<nat>,
                           peer: nat -> Reply, i: nat): Step<()>
    decreases MAX_MESSAGE_BUFFER - |s.messageB|
  {
    match CertificateRound(s, slot, length, chain, peer(i))
    case Stopped(status, s') => Step(status, s', ())
    case Completed(s', chain', remainder) =>
      if remainder == 0 then FinishCertificate(cr, s', chain', capacity)
      else CertificateLoop(cr, s', slot, length, chain', capacity, peer, i + 1)
  }

  /** The number of rounds the loop completes. */
  function RoundsCompleted(s: Context, slot: byte, length: u16, chain: seq<byte>, peer: nat -> Reply, i: nat): nat
    decreases MAX_MESSAGE_BUFFER - |s.messageB|
  {
    match CertificateRound(s, slot, length, chain, peer(i))
    case Stopped(_, _) => 0
    case Completed(s', chain', remainder) =>
      if remainder == 0 then 1 else 1 + RoundsCompleted(s', slot, length, chain', peer, i + 1)
  }

  /** The block length the loop asks for. */
  function BlockLength(length: u16): u16 {
    Min(length, MAX_CERT_BLOCK)
  }

  /** The guards at the head of TrySpdmGetCertificate. */
  predicate MayGetCertificate(s: Context) {
    && IsCapable(s, true, 0, CERT_CAP)
    && (s.state == Negotiated || s.state == AfterDigests || s.state == AfterCertificate)
  }

  /** TrySpdmGetCertificate. */
  function TryGetCertificate(cr: Crypto, s: Context, slot: byte, length: u16, capacity: Option<nat>,
                             peer: nat -> Reply): Step<()> {
    if !MayGetCertificate(s) then Step(Unsupported, s, ())
    else if slot >= MAX_SLOTS then Step(InvalidParameter, s, ())
    else CertificateLoop(cr, s.(errorState := NoCapabilities), slot, BlockLength(length), [], capacity, peer, 0)
  }

  /** Against any peer whatever, no attempt completes more rounds than message B has room for. */
  lemma {:induction false} RoundsAreBounded(s: Context, slot: byte, length: u16, chain: seq<byte>, peer: nat -> Reply,
                                            i: nat)
    requires |s.messageB| <= MAX_MESSAGE_BUFFER
    ensures 16 * RoundsCompleted(s, slot, length, chain, peer, i) <= MAX_MESSAGE_BUFFER - |s.messageB|
    decreases MAX_MESSAGE_BUFFER - |s.messageB|
  {
    var round := CertificateRound(s, slot, length, chain, peer(i));
    if round.Completed? && round.remainder != 0 {
      RoundsAreBounded(round.ctx, slot, length, round.chain, peer, i + 1);
    }
  }

  /** So one attempt completes at most 288 rounds, even when every portion is empty and none is the last. */
  lemma AtMost288Rounds(s: Context, slot: byte, length: u16, peer: nat -> Reply)
    requires |s.messageB| <= MAX_MESSAGE_BUFFER
    ensures RoundsCompleted(s, slot, length, [], peer, 0) <= 288
  {
    RoundsAreBounded(s, slot, length, [], peer, 0);
  }

  /** The reply of a peer that never sends a byte of the chain and always announces more. */
  function EmptyPortion(version: byte, slot: byte): Reply {
    Says([version, CERTIFICATE, slot, 0] + Le16(0) + Le16(1))
  }

  /** The bound is reached: such a peer keeps the loop going until message B is full. */
  lemma {:induction false} EmptyPortionsFillMessageB(s: Context, slot: byte, length: u16, peer: nat -> Reply, i: nat)
    requires |s.messageB| <= MAX_MESSAGE_BUFFER
    requires forall j: nat :: j >= i ==> peer(j) == EmptyPortion(VERSION_11, slot)
    ensures RoundsCompleted(s, slot, length, [], peer, i) == (MAX_MESSAGE_BUFFER - |s.messageB|) / 16
    decreases MAX_MESSAGE_BUFFER - |s.messageB|
  {
    var m: seq<byte> := [VERSION_11, CERTIFICATE, slot, 0] + Le16(0) + Le16(1);
    assert peer(i) == Says(m);
    assert At16(m, 4) == 0 && At16(m, 6) == 1;
    assert m[..8] == m && m[8..8] == [];
    if |s.messageB| + 16 <= MAX_MESSAGE_BUFFER {
      var round := CertificateRound(s, slot, length, [], peer(i));
      assert round.Completed? && round.chain == [];
      EmptyPortionsFillMessageB(round.ctx, slot, length, peer, i + 1);
    }
  }

  // ---------- The home of the chain ----------

  /** The lengths of the portions the peer sends, over all completed rounds. */
  function PortionsTotal(s: Context, slot: byte, length: u16, chain: seq<byte>, peer: nat -> Reply, i: nat): nat
    decreases MAX_MESSAGE_BUFFER - |s.messageB|
  {
    match CertificateRound(s, slot, length, chain, peer(i))
    case Stopped(_, _) => 0
    case Completed(t, longer, remainder) =>
      At16(LongOutcome(peer(i), CERTIFICATE, CERTIFICATE_MAX).message, 4) as int
      + if remainder == 0 then 0 else PortionsTotal(t, slot, length, longer, peer, i + 1)
  }

  /** The transfer gets to its last portion, and the assembled chain passes its checks. */
  predicate TransferAccepted(cr: Crypto, s: Context, slot: byte, length: u16, chain: seq<byte>, peer: nat -> Reply,
                             i: nat)
    decreases MAX_MESSAGE_BUFFER - |s.messageB|
  {
    match CertificateRound(s, slot, length, chain, peer(i))
    case Stopped(_, _) => false
    case Completed(t, longer, remainder) =>
      if remainder == 0 then PeerChainAccepted(cr, t, longer)
      else TransferAccepted(cr, t, slot, length, longer, peer, i + 1)
  }

  /**
   The accepted chain is longer than the 0x1000 bytes of PeerUsedCertChainBuffer, so that the final copy runs over the
   fields behind it. Everything before the copy is as the step function says; what the context holds after it is not.
   */
  predicate Overruns(cr: Crypto, s: Context, slot: byte, length: u16, peer: nat -> Reply) {
    var s0 := s.(errorState := NoCapabilities);
    && MayGetCertificate(s) && slot < MAX_SLOTS
    && TransferAccepted(cr, s0, slot, BlockLength(length), [], peer, 0)
    && PortionsTotal(s0, slot, BlockLength(length), [], peer, 0) > MAX_CERT_CHAIN
  }

  /** A chain is stored exactly when the transfer is accepted, and it has the length of the portions together. */
  lemma {:induction false} StoredChain(cr: Crypto, s: Context, slot: byte, length: u16, chain: seq<byte>,
                                       capacity: Option<nat>, peer: nat -> Reply, i: nat)
    ensures var t := CertificateLoop(cr, s, slot, length, chain, capacity, peer, i).ctx;
            if TransferAccepted(cr, s, slot, length, chain, peer, i)
            then |t.peerChain| == |chain| + PortionsTotal(s, slot, length, chain, peer, i)
            else t.peerChain == s.peerChain
    decreases MAX_MESSAGE_BUFFER - |s.messageB|
  {
    hide PeerChainAccepted, GetCertificateRequest, PortionOk, LongOutcome;
    var round := CertificateRound(s, slot, length, chain, peer(i));
    RoundKeepsStoredChain(s, slot, length, chain, peer(i));
    if round.Completed? && round.remainder != 0 {
      hide CertificateRound;
      StoredChain(cr, round.ctx, slot, length, round.chain, capacity, peer, i + 1);
    }
  }

  lemma RoundKeepsStoredChain(s: Context, slot: byte, length: u16, chain: seq<byte>, r: Reply)
    ensures CertificateRound(s, slot, length, chain, r).ctx.peerChain == s.peerChain
  {
    hide GetCertificateRequest, PortionOk;
  }

  /** The stored chain fits its 0x1000-byte home after an attempt if and only if the attempt does not overrun it. */
  lemma StoredChainFitsExactly(cr: Crypto, s: Context, slot: byte, length: u16, capacity: Option<nat>,
                               peer: nat -> Reply)
    requires |s.peerChain| <= 0x1000
    ensures |TryGetCertificate(cr, s, slot, length, capacity, peer).ctx.peerChain| <= 0x1000 <==>
              !Overruns(cr, s, slot, length, peer)
  {
    hide CertificateLoop, TransferAccepted, PortionsTotal, IsCapable;
    StoredChain(cr, s.(errorState := NoCapabilities), slot, BlockLength(length), [], capacity, peer, 0);
  }
}
