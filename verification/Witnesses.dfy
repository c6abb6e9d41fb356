/** The conditions of the end-to-end theorems can be met. */
module Witnesses {
  import opened Bytes
  import opened Spdm
  import opened Crypto
  import opened DeviceContext
  import opened ConnectionRequester
  import opened ConnectionResponder
  import opened CertificateTransfer
  import opened AlgorithmTables
  import opened Negotiation
  import opened Reassembly
  import opened Handshake
  import opened SessionTable
  import opened SessionResponder
  import opened SessionLockstep
  import opened WholeProtocol

  /** A toy implementation of the services that obeys the laws. */
  function ToyCrypto(): Crypto {
    Crypto(
      (a: u32, d: seq<byte>) => Zeros(HashSize(a)),
      (a: u32, k: seq<byte>, d: seq<byte>) => Zeros(HashSize(a)),
      (a: u32, c: seq<byte>) => true,
      (a: u32, h: u32, d: seq<byte>) => Some(Zeros(SignatureSize(a))),
      (a: u16, h: u32, d: seq<byte>) => Some(Zeros(SignatureSize(a))),
      (a: u32, h: u32, c: seq<byte>, d: seq<byte>, s: seq<byte>) => true,
      (a: u16, h: u32, c: seq<byte>, d: seq<byte>, s: seq<byte>) => true,
      (g: u16, r: seq<byte>) => Zeros(DhePubKeySize(g)),
      (g: u16, a: seq<byte>, b: seq<byte>) => Some([]),
      (h: seq<byte>) => [],
      (h: u32, s: seq<byte>, t: seq<byte>) => Some(Keys([], [])),
      (h: u32, s: seq<byte>, t: seq<byte>) => true)
  }

  const OFFER: Algorithms := Algorithms(1, 8, 0x100, 4, 0x20, 2, 0x40, 1)
  const CHAIN: seq<byte> := Zeros(100)

  // Flags of a requester and of a responder that can exchange keys and authenticate mutually.
  const REQUESTER_FLAGS: u32 := 0x1382
  const RESPONDER_FLAGS: u32 := 0x1386

  function Peer(flags: u32): Context {
    Context(Local(flags, 0, OFFER, [Chain(CHAIN)], 1, 0, [], [], [], false, [], 0, 0),
            AfterVersion, [0x1100], 0, 0, OFFER, [], [], [], [], [], [], NoError,
            seq(MAX_SESSIONS, _ => FreshSession(INVALID_SESSION_ID, false)), 0)
  }

  lemma ToyLaws()
    ensures SizeLaws(ToyCrypto())
    ensures forall c: seq<byte> :: ResponderKeyMatches(ToyCrypto(), c) && RequesterKeyMatches(ToyCrypto(), c)
    ensures DheAgrees(ToyCrypto()) && KeysDerive(ToyCrypto())
  {
  }

  /** When both sides offer just the first entry of a table, it is selected. */
  lemma FirstIsSelected(table: seq<u32>)
    requires table != [] && table[0] != 0
    ensures Prioritize(table, table[0], table[0]) == table[0]
  {
    AndItself(table[0]);
  }

  lemma ToySelection()
    ensures Selection(Peer(REQUESTER_FLAGS), Peer(RESPONDER_FLAGS)) == OFFER
  {
    hide Prioritize;
    FirstIsSelected(HASH_PRIORITY);
    FirstIsSelected(ASYM_PRIORITY);
    FirstIsSelected(REQ_ASYM_PRIORITY);
    FirstIsSelected(DHE_PRIORITY);
    FirstIsSelected(AEAD_PRIORITY);
    FirstIsSelected(KEY_SCHEDULE_PRIORITY);
    FirstIsSelected(MEASUREMENT_HASH_PRIORITY);
    FirstIsSelected(MEASUREMENT_SPEC_PRIORITY);
    assert Version(Peer(REQUESTER_FLAGS)) == VERSION_11 by { ToyVersion(REQUESTER_FLAGS); }
  }

  lemma ToyVersion(flags: u32)
    ensures Version(Peer(flags)) == VERSION_11
  {
    var p := Peer(flags);
    assert p.versions[0] == 0x1100 && Major(0x1100) == 1 && Minor(0x1100) == 1;
  }

  lemma ToyFlags()
    ensures ResponderFlagsOk(RESPONDER_FLAGS, VERSION_11) && RequesterFlagsOk(REQUESTER_FLAGS, VERSION_11)
  {
    Pow2Values();
    assert Pow2(9) == 0x200 && Pow2(10) == 0x400 && Pow2(11) == 0x800 && Pow2(12) == 0x1000;
    assert Pow2(13) == 0x2000 && Pow2(14) == 0x4000 && Pow2(15) == 0x8000 && Pow2(16) == 0x1_0000;
  }

  lemma ToyCapabilities()
    ensures FlagIn(RESPONDER_FLAGS, CERT_CAP) && FlagIn(RESPONDER_FLAGS, CHAL_CAP) && !FlagIn(RESPONDER_FLAGS, MEAS_CAP)
    ensures FlagIn(RESPONDER_FLAGS, KEY_EX_CAP) && FlagIn(REQUESTER_FLAGS, KEY_EX_CAP)
    ensures FlagIn(RESPONDER_FLAGS, MUT_AUTH_CAP) && FlagIn(REQUESTER_FLAGS, MUT_AUTH_CAP)
            && FlagIn(REQUESTER_FLAGS, CERT_CAP)
  {
    LowBits();
    MeasurementBits();
    SessionBits(RESPONDER_FLAGS);
    SessionBits(REQUESTER_FLAGS);
    hide And;
  }

  lemma LowBits()
    ensures And(0x1386, 2) == 2 && And(0x1386, 4) == 4 && And(0x1382, 2) == 2
  {
  }

  lemma MeasurementBits()
    ensures And(0x1386, 0x18) == 0
  {
  }

  lemma SessionBits(flags: u32)
    requires flags == 0x1382 || flags == 0x1386
    ensures And(flags, 0x100) != 0 && And(flags, 0x200) != 0
  {
    Pow2Values();
    assert Pow2(9) == 0x200;
    AndWithSingleBit(flags, 8);
    AndWithSingleBit(flags, 9);
    UpperBit(flags, 0);
    UpperBit(flags, 1);
    assert flags / 0x100 == 0x13 && Bit(0x13, 0) && Bit(0x13, 1);
  }

  lemma UpperBit(x: nat, k: nat)
    ensures Bit(x, 8 + k) == Bit(x / 0x100, k)
  {
    assert Bit(x, 8 + k) == Bit(x / 2, 7 + k) == Bit(x / 2 / 2, 6 + k) == Bit(x / 2 / 2 / 2, 5 + k)
             == Bit(x / 2 / 2 / 2 / 2, 4 + k);
    var y := x / 0x10;
    assert x / 2 / 2 / 2 / 2 == y && y / 2 / 2 / 2 / 2 == x / 0x100;
    assert Bit(y, 4 + k) == Bit(y / 2, 3 + k) == Bit(y / 2 / 2, 2 + k) == Bit(y / 2 / 2 / 2, 1 + k)
             == Bit(y / 2 / 2 / 2 / 2, k);
  }

  lemma ToySuffices()
    ensures SelectionSuffices(Peer(REQUESTER_FLAGS), Peer(RESPONDER_FLAGS))
  {
    hide Selection, FlagIn;
    ToySelection();
    ToyCapabilities();
    ToyVersion(REQUESTER_FLAGS);
  }

  lemma ToyMutualAuthentication()
    ensures MutAuthAsked(Peer(RESPONDER_FLAGS).(peerFlags := REQUESTER_FLAGS), EncapState(true, 0, 2)) == 2
  {
    ToyCapabilities();
    hide And;
  }

  /** The theorem about the whole protocol is about something, with mutual authentication and without. */
  lemma WholeProtocolIsPossible()
    ensures var q, p := Peer(REQUESTER_FLAGS), Peer(RESPONDER_FLAGS);
            && Ready(ToyCrypto(), q, p, Setup(0, 1024, 0, Zeros(NONCE_SIZE), Zeros(NONCE_SIZE), [], 0))
            && SessionWanted(ToyCrypto(), q, p, 0, KexEnv(Zeros(NONCE_SIZE), [], Some([]), EncapState(true, 0, 0)),
                             Encapsulated(None, []))
            && SessionWanted(ToyCrypto(), q, p, 0, KexEnv(Zeros(NONCE_SIZE), [], Some([]), EncapState(true, 0, 2)),
                             Encapsulated(None, CHAIN))
            && MutAuthAsked(p.(peerFlags := q.local.flags), EncapState(true, 0, 2)) == 2
  {
    hide Selection, SelectionSuffices, SizeLaws, ResponderKeyMatches, ResponderFlagsOk, RequesterFlagsOk, FlagIn,
         DheAgrees, KeysDerive;
    ToyLaws();
    ToySelection();
    ToySuffices();
    ToyFlags();
    ToyCapabilities();
    ToyVersion(REQUESTER_FLAGS);
    ToyMutualAuthentication();
    assert Rounds(100, 1024) == 1;
    assert Peer(REQUESTER_FLAGS).sessions[0].id == INVALID_SESSION_ID
           && Peer(RESPONDER_FLAGS).sessions[0].id == INVALID_SESSION_ID;
  }
}
