/** What the queries that every request relies on mean, in bits and bytes. */
module Meaning {
  import opened Bytes
  import opened Spdm
  import opened Crypto
  import opened ManagedBuffers
  import opened DeviceContext
  import opened Exchanges
  import opened AlgorithmTables
  import opened ConnectionRequester

  // ---------- Words and bits ----------

  /** Words lie low byte first. */
  lemma LittleEndian(x: u32, m: seq<byte>, i: nat)
    requires i + 4 <= |m|
    ensures Le32(x) == [x % 0x100, x / 0x100 % 0x100, x / 0x1_0000 % 0x100, x / 0x100_0000]
    ensures x < 0x1_0000 ==> Le16(x) == [x % 0x100, x / 0x100]
    ensures At16(m, i) as int == m[i] as int + 0x100 * (m[i + 1] as int)
    ensures At32(m, i) as int ==
              m[i] as int + 0x100 * (m[i + 1] as int) + 0x1_0000 * (m[i + 2] as int) + 0x100_0000 * (m[i + 3] as int)
  {
  }

  function BitValue(x: nat, k: nat): nat {
    if Bit(x, k) then 1 else 0
  }

  /** A bit field of width one or two is made of the bits from its shift on. */
  lemma {:induction false} FieldsAreBits(flags: nat, shift: nat)
    ensures flags / Pow2(shift) % 2 == BitValue(flags, shift)
    ensures flags / Pow2(shift) % 4 == BitValue(flags, shift) + 2 * BitValue(flags, shift + 1)
    decreases shift
  {
    if shift > 0 {
      FieldsAreBits(flags / 2, shift - 1);
      Halves(flags, Pow2(shift - 1));
    } else {
      assert Bit(flags, 1) == Bit(flags / 2, 0);
    }
  }

  lemma Halves(x: nat, d: nat)
    requires d > 0
    ensures x / (2 * d) == x / 2 / d
  {
    var q := x / 2 / d;
    var r := x / 2 % d;
    assert x / 2 == q * d + r;
    assert x == 2 * q * d + (2 * r + x % 2) && 2 * r + x % 2 < 2 * d;
    DivisionIs(x, 2 * d, q, 2 * r + x % 2);
  }

  lemma DivisionIs(x: nat, d: nat, q: nat, r: nat)
    requires d > 0 && r < d && x == q * d + r
    ensures x / d == q
  {
    var e := x / d - q;
    assert x / d * d + x % d == q * d + r;
    assert e * d == r - x % d;
  }

  /** Two flag words answer a query by the bits they have in common with its two masks. */
  lemma CapableByBits(s: Context, isRequester: bool, k: nat, n: nat)
    requires Pow2(k) < 0x1_0000_0000 && Pow2(n) < 0x1_0000_0000
    ensures IsCapable(s, isRequester, Pow2(k), Pow2(n)) <==>
              if isRequester then Bit(s.local.flags, k) && Bit(s.peerFlags, n)
              else Bit(s.peerFlags, k) && Bit(s.local.flags, n)
    ensures IsCapable(s, isRequester, 0, Pow2(n)) <==> if isRequester then Bit(s.peerFlags, n)
                                                       else Bit(s.local.flags, n)
    ensures IsCapable(s, isRequester, Pow2(k), 0) <==> if isRequester then Bit(s.local.flags, k)
                                                       else Bit(s.peerFlags, k)
  {
    AndWithSingleBit(s.local.flags, k);
    AndWithSingleBit(s.local.flags, n);
    AndWithSingleBit(s.peerFlags, k);
    AndWithSingleBit(s.peerFlags, n);
  }

  /** The masks of the capabilities, by the bits of the flag word of SPDM 1.1. */
  lemma CapabilityMasks()
    ensures CERT_CAP == Pow2(1) && CHAL_CAP == Pow2(2) && MEAS_CAP == Pow2(3) + Pow2(4) && MEAS_CAP_NO_SIG == Pow2(3)
    ensures ENCRYPT_CAP == Pow2(6) && MAC_CAP == Pow2(7) && MUT_AUTH_CAP == Pow2(8) && KEY_EX_CAP == Pow2(9)
    ensures PSK_CAP == Pow2(10) + Pow2(11) && PSK_CAP_RESPONDER_WITH_CONTEXT == Pow2(11)
    ensures HANDSHAKE_IN_THE_CLEAR_CAP == Pow2(15) && PUB_KEY_ID_CAP == Pow2(16)
  {
    assert Pow2(4) == 0x10;
    assert Pow2(8) == 0x100 by { assert Pow2(8) == 0x10 * Pow2(4); }
    assert Pow2(12) == 0x1000 by { assert Pow2(12) == 0x10 * Pow2(8); }
    assert Pow2(16) == 0x1_0000 by { assert Pow2(16) == 0x10 * Pow2(12); }
    assert Pow2(6) == 4 * Pow2(4) && Pow2(7) == 8 * Pow2(4);
    assert Pow2(9) == 2 * Pow2(8) && Pow2(10) == 4 * Pow2(8) && Pow2(11) == 8 * Pow2(8) && Pow2(15) == 8 * Pow2(12);
  }

  /** A mask of two neighbouring bits asks for either. */
  lemma {:induction false} AndWithTwoBits(x: nat, k: nat)
    ensures And(x, Pow2(k) + Pow2(k + 1)) != 0 <==> Bit(x, k) || Bit(x, k + 1)
    decreases k
  {
    if x == 0 {
      ZeroHasNoBit(k);
      ZeroHasNoBit(k + 1);
    } else if k > 0 {
      AndWithTwoBits(x / 2, k - 1);
      var mask := Pow2(k) + Pow2(k + 1);
      assert mask / 2 == Pow2(k - 1) + Pow2(k) && mask % 2 == 0;
    } else {
      assert Pow2(0) + Pow2(1) == 3;
      assert Bit(x, 1) == Bit(x / 2, 0);
      assert And(x / 2, 1) != 0 <==> x / 2 % 2 == 1;
    }
  }

  /** What the two ends have announced; q is the requester's flag word and p the responder's. */
  datatype Announced = Announced(q: u32, p: u32)
  {
    // bit k of both words
    predicate Both(k: nat) { Bit(q, k) && Bit(p, k) }

    // bit k of the responder's word
    predicate Responder(k: nat) { Bit(p, k) }

    predicate Requester(k: nat) { Bit(q, k) }

    predicate Measures() { Bit(p, 3) || Bit(p, 4) }

    predicate BothPsk() { (Bit(q, 10) || Bit(q, 11)) && (Bit(p, 10) || Bit(p, 11)) }
  }

  function FlagsOf(s: Context, isRequester: bool): Announced {
    if isRequester then Announced(s.local.flags, s.peerFlags) else Announced(s.peerFlags, s.local.flags)
  }

  /** Every query that is made of the two words. */
  lemma Queries(s: Context, r: bool)
    ensures var f := FlagsOf(s, r);
            && (IsCapable(s, r, 0, CERT_CAP) <==> f.Responder(1)) && (IsCapable(s, r, 0, CHAL_CAP) <==> f.Responder(2))
            && (IsCapable(s, r, 0, MEAS_CAP) <==> f.Measures())
            && (IsCapable(s, r, 0, MEAS_CAP_NO_SIG) <==> f.Responder(3))
            && (IsCapable(s, r, ENCRYPT_CAP, ENCRYPT_CAP) <==> f.Both(6))
            && (IsCapable(s, r, MAC_CAP, MAC_CAP) <==> f.Both(7))
    ensures var f := FlagsOf(s, r);
            && (IsCapable(s, r, MUT_AUTH_CAP, MUT_AUTH_CAP) <==> f.Both(8))
            && (IsCapable(s, r, KEY_EX_CAP, KEY_EX_CAP) <==> f.Both(9))
            && (IsCapable(s, r, PSK_CAP, PSK_CAP) <==> f.BothPsk())
            && (IsCapable(s, r, 0, PSK_CAP_RESPONDER_WITH_CONTEXT) <==> f.Responder(11))
            && (IsCapable(s, r, HANDSHAKE_IN_THE_CLEAR_CAP, HANDSHAKE_IN_THE_CLEAR_CAP) <==> f.Both(15))
            && (IsCapable(s, r, CERT_CAP, 0) <==> f.Requester(1)) && (IsCapable(s, r, CHAL_CAP, 0) <==> f.Requester(2))
            && (IsCapable(s, r, PUB_KEY_ID_CAP, 0) <==> f.Requester(16))
  {
    hide And, Bit, Pow2;
    CapabilityMasks();
    CapableByBits(s, r, 1, 1);
    CapableByBits(s, r, 2, 2);
    CapableByBits(s, r, 3, 3);
    CapableByBits(s, r, 6, 6);
    CapableByBits(s, r, 7, 7);
    CapableByBits(s, r, 8, 8);
    CapableByBits(s, r, 9, 9);
    CapableByBits(s, r, 11, 11);
    CapableByBits(s, r, 15, 15);
    CapableByBits(s, r, 16, 16);
    AndWithTwoBits(s.local.flags, 3);
    AndWithTwoBits(s.peerFlags, 3);
    AndWithTwoBits(s.local.flags, 10);
    AndWithTwoBits(s.peerFlags, 10);
  }

  // ---------- Algorithms ----------

  const NO_SIZE: nat := 0

  /** The sizes of the algorithms of DSP0274, by the bit that stands for each. */
  const HASH_SIZES: seq<nat> := [32, 48, 64, 32, 48, 64]
  const MEASUREMENT_HASH_SIZES: seq<nat> := [0xFFFF_FFFF, 32, 48, 64, 32, 48, 64]
  const SIGNATURE_SIZES: seq<nat> := [256, 256, 384, 384, 64, 512, 512, 96, 132]
  const DHE_SIZES: seq<nat> := [256, 384, 512, 64, 96, 132]
  const AEAD_SIZES: seq<nat> := [16, 32, 32]

  /** One known algorithm has its size, every other word none. */
  ghost predicate SizedBy(alg: nat, size: nat, sizes: seq<nat>) {
    if exists k :: 0 <= k < |sizes| && alg == Pow2(k)
    then exists k :: 0 <= k < |sizes| && alg == Pow2(k) && size == sizes[k]
    else size == NO_SIZE
  }

  lemma Powers()
    ensures Pow2(0) == 1 && Pow2(1) == 2 && Pow2(2) == 4 && Pow2(3) == 8 && Pow2(4) == 0x10 && Pow2(5) == 0x20
    ensures Pow2(6) == 0x40 && Pow2(7) == 0x80 && Pow2(8) == 0x100
  {
    assert Pow2(4) == 0x10;
    assert Pow2(8) == 0x10 * Pow2(4);
  }

  lemma SizesByBit(alg: u32)
    ensures SizedBy(alg, HashSize(alg), HASH_SIZES)
    ensures SizedBy(alg, MeasurementHashSize(alg), MEASUREMENT_HASH_SIZES)
    ensures SizedBy(alg, SignatureSize(alg), SIGNATURE_SIZES)
    ensures alg < 0x1_0000 ==> SizedBy(alg, DhePubKeySize(alg), DHE_SIZES) && SizedBy(alg, AeadKeySize(alg), AEAD_SIZES)
  {
    hide Pow2;
    Powers();
    Sized(alg, HashSize(alg), HASH_SIZES);
    Sized(alg, MeasurementHashSize(alg), MEASUREMENT_HASH_SIZES);
    Sized(alg, SignatureSize(alg), SIGNATURE_SIZES);
    if alg < 0x1_0000 {
      Sized(alg, DhePubKeySize(alg), DHE_SIZES);
      Sized(alg, AeadKeySize(alg), AEAD_SIZES);
    }
  }

  lemma Sized(alg: nat, size: nat, sizes: seq<nat>)
    requires forall k :: 0 <= k < |sizes| && alg == Pow2(k) ==> size == sizes[k]
    requires (forall k :: 0 <= k < |sizes| ==> alg != Pow2(k)) ==> size == NO_SIZE
    ensures SizedBy(alg, size, sizes)
  {
    hide Pow2;
  }

  // The families of DSP0274, each from its strongest member down.
  const SHA2: seq<u32> := [0x4, 0x2, 0x1]
  const ECDSA: seq<u32> := [0x100, 0x80, 0x10]
  const RSA_PSS: seq<u32> := [0x40, 0x8, 0x2]
  const RSA_SSA: seq<u32> := [0x20, 0x4, 0x1]
  const ECDHE: seq<u16> := [0x20, 0x10, 0x8]
  const FFDHE: seq<u16> := [0x4, 0x2, 0x1]

  ghost predicate Descending(sizes: seq<nat>) {
    (forall i :: 0 <= i < |sizes| - 1 ==> sizes[i] > sizes[i + 1]) && forall i :: 0 <= i < |sizes| ==> sizes[i] > 0
  }

  /**
   The responder prefers stronger algorithms, and among families ECDSA to RSA, PSS to SSA and elliptic curves to finite
   fields; for the requester's signature it prefers RSA.
   */
  lemma PriorityOrder()
    ensures HASH_PRIORITY == SHA2 && Descending([HashSize(SHA2[0]), HashSize(SHA2[1]), HashSize(SHA2[2])])
    ensures ASYM_PRIORITY == ECDSA + RSA_PSS + RSA_SSA && REQ_ASYM_PRIORITY == RSA_PSS + RSA_SSA + ECDSA
    ensures forall family :: family in {ECDSA, RSA_PSS, RSA_SSA} ==>
              Descending([SignatureSize(family[0]), SignatureSize(family[1]), SignatureSize(family[2])])
    ensures DHE_PRIORITY == ECDHE + FFDHE
    ensures forall family :: family in {ECDHE, FFDHE} ==>
              Descending([DhePubKeySize(family[0]), DhePubKeySize(family[1]), DhePubKeySize(family[2])])
    ensures AEAD_PRIORITY == [0x2, 0x1, 0x4] && AeadKeySize(0x2) > AeadKeySize(0x1) > 0
    ensures MEASUREMENT_HASH_PRIORITY == [0x8, 0x4, 0x2, 0x1]
    ensures Descending([MeasurementHashSize(0x8), MeasurementHashSize(0x4), MeasurementHashSize(0x2)])
    ensures KEY_SCHEDULE_PRIORITY == [0x1] && MEASUREMENT_SPEC_PRIORITY == [0x1]
  {
  }

  // ---------- Versions ----------

  /** Messages are 1.1 exactly when an entry of the negotiated list has 0x11 in its upper byte. */
  lemma VersionByEntries(s: Context)
    ensures Version(s) == (if exists i :: 0 <= i < |s.versions| && s.versions[i] / 0x100 == 0x11 then 0x11 else 0x10)
  {
    forall i | 0 <= i < |s.versions|
      ensures s.versions[i] / 0x100 == 0x11 <==>
                Major(s.versions[i]) == VERSION_11 / 0x10 && Minor(s.versions[i]) == VERSION_11 % 0x10
    {
      var v := s.versions[i];
      assert v / 0x1000 == v / 0x100 / 0x10;
    }
    if i :| 0 <= i < |s.versions| && s.versions[i] / 0x100 == 0x11 {
      assert VersionIn(s.versions, VERSION_11);
    }
  }

  // ---------- Certificate chains ----------

  /** A chain is a header, the hash of the root certificate and the certificates. */
  ghost predicate Made(chain: seq<byte>, root: seq<byte>, certificates: seq<byte>, baseHash: u32) {
    |root| == HashSize(baseHash) && exists header: seq<byte> :: |header| == 4 && chain == header + root + certificates
  }

  lemma CertificatesOf(chain: seq<byte>, root: seq<byte>, certificates: seq<byte>, baseHash: u32)
    requires Made(chain, root, certificates, baseHash)
    ensures ChainData(chain, baseHash) == certificates && chain != []
    ensures chain[4..4 + HashSize(baseHash)] == root
  {
    var header: seq<byte> :| |header| == 4 && chain == header + root + certificates;
    assert chain[4..4 + |root|] == root && chain[4 + |root|..] == certificates;
  }

  /** The responder's chain is known to the requester: received, or provisioned and nothing received. */
  ghost predicate KnownChain(s: Context, chain: seq<byte>) {
    s.peerChain == chain || (s.peerChain == [] && s.local.peerChain == chain)
  }

  /** Signatures are checked against the certificates of the chain that is known, without header and root hash. */
  lemma KnownCertificates(s: Context, chain: seq<byte>, root: seq<byte>, certificates: seq<byte>)
    requires Made(chain, root, certificates, s.algorithms.baseHash)
    ensures KnownChain(s, chain) ==> PeerChain(s) == chain && PeerChainData(s) == Some(certificates)
    ensures s.localChain == chain ==> LocalChainData(s) == Some(certificates)
  {
    CertificatesOf(chain, root, certificates, s.algorithms.baseHash);
  }

  /** Without a chain there are no certificates. */
  lemma NoCertificates(s: Context)
    ensures PeerChainData(s).None? <==> s.peerChain == [] && s.local.peerChain == []
    ensures LocalChainData(s).None? <==> s.localChain == []
  {
  }

  // ---------- Replies ----------

  /** The bytes are an ERROR message with this code. */
  predicate IsError(m: seq<byte>, code: byte) {
    |m| >= 4 && m[1] == 0x7F && m[2] == code
  }

  /** The bytes are a message with this code. */
  predicate HasCode(m: seq<byte>, code: byte) {
    |m| >= 4 && m[1] == code
  }

  /**
   The five ways a request can come back: which bytes are the answer, and when a request is refused, unanswered, not
   even sent, or answered by something else. RESPONSE_NOT_READY is followed once, and only to an answer that fits.
   */
  lemma RepliesMean(r: Reply, expected: byte, maxSize: nat, m: seq<byte>, code: byte)
    requires expected != 0x7F
    ensures var o := LongOutcome(r, expected, maxSize);
            && (o == Answer(m) <==>
                  && HasCode(m, expected)
                  && (r.first == Arrives(m)
                      || (r.first.Arrives? && IsError(r.first.bytes, 0x42) && r.ifReady == Arrives(m)
                          && |m| <= maxSize)))
            && (o == Refused(code) <==> code != 0x42 && r.first.Arrives? && IsError(r.first.bytes, code))
            && (o == WrongCode <==>
                  r.first.Arrives? && |r.first.bytes| >= 4 && r.first.bytes[1] != 0x7F && r.first.bytes[1] != expected)
            && (o == NotSent <==> r.first.SendFails?)
    ensures var o := ShortOutcome(r, expected);
            && (o == Answer(m) <==> HasCode(m, expected) && r.first == Arrives(m))
            && (o == Refused(code) <==> r.first.Arrives? && IsError(r.first.bytes, code))
            && (o == WrongCode <==>
                  r.first.Arrives? && |r.first.bytes| >= 4 && r.first.bytes[1] != 0x7F && r.first.bytes[1] != expected)
            && (o == NotSent <==> r.first.SendFails?)
  {
  }

  /** Only BUSY may be retried, and only REQUEST_RESYNCH throws the connection away. */
  lemma RefusalsMean(s: Context, code: byte)
    ensures RefusalStatus(code) == (if code == 0x03 then NoResponse else DeviceError)
    ensures AfterRefusal(s, code) == s.(state := if code == 0x43 then NotStarted else s.state)
  {
  }
}
