/** The device context shared by both roles and the queries made of it (SpdmCommonLibContextData.c). */
module DeviceContext {
  import opened Bytes
  import opened Spdm
  import opened Crypto
  import opened ManagedBuffers

  datatype ConnectionState =
    | NotStarted
    | AfterVersion
    | AfterCapabilities
    | Negotiated
    | AfterDigests
    | AfterCertificate
    | Authenticated
  {
    function Rank(): nat {
      match this
      case NotStarted => 0
      case AfterVersion => 1
      case AfterCapabilities => 2
      case Negotiated => 3
      case AfterDigests => 4
      case AfterCertificate => 5
      case Authenticated => 6
    }

    predicate Reached(other: ConnectionState) {
      Rank() >= other.Rank()
    }
  }

  datatype ErrorState =
    | NoError
    | NoCapabilities
    | CertificateFailure
    | MeasurementAuthFailure
    | KeyExchangeFailure

  datatype Algorithms = Algorithms(
    measurementSpec: byte,
    measurementHash: u32,
    baseAsym: u32,
    baseHash: u32,
    dhe: u16,
    aead: u16,
    reqBaseAsym: u16,
    keySchedule: u16
  )

  datatype ProvisionedChain = NoChain | Chain(bytes: seq<byte>)

  /** What the device owner provisions before any message is exchanged. */
  datatype Local = Local(
    flags: u32,
    ctExponent: byte,
    algorithms: Algorithms,
    chains: seq<ProvisionedChain>,
    slotCount: nat,
    provisionedSlot: nat,
    peerRootHash: seq<byte>,
    peerChain: seq<byte>,
    opaqueChallengeAuth: seq<byte>,
    basicMutAuthRequested: bool,
    pskHint: seq<byte>,
    securedVersionCount: nat,
    retryTimes: byte
  )

  datatype SessionPhase = Idle | Handshaking | Established

  /** A signature the requester accepted, with everything it was checked against. */
  datatype AcceptedSignature = AcceptedSignature(
    asym: u32, baseHash: u32, chainData: seq<byte>, transcript: seq<byte>, signature: seq<byte>)

  /** A responder MAC the requester accepted. */
  datatype AcceptedMac = AcceptedMac(baseHash: u32, key: seq<byte>, transcript: seq<byte>, mac: seq<byte>)

  /**
   One slot of the session table. The last three fields are history: they record what the requester
   accepted while it set the session up, and no operation reads them.
   */
  datatype Session = Session(
    id: u32,
    usePsk: bool,
    mutAuthRequested: byte,
    phase: SessionPhase,
    secret: seq<byte>,
    keys: Keys,
    messageK: seq<byte>,
    messageF: seq<byte>,
    signatures: seq<AcceptedSignature>,
    macs: seq<AcceptedMac>,
    inTheClear: bool
  )

  const INVALID_SESSION_ID: u32 := 0

  /** SpdmSessionInfoInit: everything but the identity is cleared. */
  function FreshSession(id: u32, usePsk: bool): Session {
    Session(id, usePsk, 0, Idle, [], Keys([], []), [], [], [], [], false)
  }

  /** The session table always has its four slots. */
  type Slots = ss: seq<Session> | |ss| == MAX_SESSIONS
    witness seq(MAX_SESSIONS, _ => FreshSession(INVALID_SESSION_ID, false))

  datatype Context = Context(
    local: Local,
    state: ConnectionState,
    versions: seq<u16>,
    peerFlags: u32,
    peerCtExponent: byte,
    algorithms: Algorithms,
    peerChain: seq<byte>,
    localChain: seq<byte>,
    messageA: seq<byte>,
    messageB: seq<byte>,
    messageC: seq<byte>,
    messageM: seq<byte>,
    errorState: ErrorState,
    sessions: Slots,
    latestSessionId: u32
  )

  /** The result of one attempt: its status, the context it leaves and what it returns. */
  datatype Step<+R> = Step(status: Status, ctx: Context, out: R)

  /** Appending a message to a transcript of capacity `max`, or nothing when it does not fit. */
  function Cached(max: nat, transcript: seq<byte>, message: seq<byte>): (r: Option<seq<byte>>)
    ensures r.Some? ==> |r.value| <= max
  {
    if |transcript| + |message| > max then None else Some(transcript + message)
  }

  /** ShrinkManagedBuffer whose status the caller ignores. */
  function Shrunk(transcript: seq<byte>, n: nat): seq<byte> {
    if n > |transcript| then transcript else transcript[..|transcript| - n]
  }

  function Major(v: u16): nat { v / 0x1000 }

  function Minor(v: u16): nat { v / 0x100 % 0x10 }

  predicate VersionIn(versions: seq<u16>, version: byte) {
    exists i :: 0 <= i < |versions| && Major(versions[i]) == version / 0x10 && Minor(versions[i]) == version % 0x10
  }

  /** SpdmIsVersionSupported. */
  predicate IsVersionSupported(s: Context, version: byte) {
    VersionIn(s.versions, version)
  }

  /** The version byte of every message but GET_VERSION. */
  function Version(s: Context): (v: byte)
    ensures v == VERSION_10 || v == VERSION_11
  {
    if IsVersionSupported(s, VERSION_11) then VERSION_11 else VERSION_10
  }

  predicate FlagIn(flags: u32, mask: u32) {
    mask == 0 || And(flags, mask) != 0
  }

  /** SpdmIsCapabilitiesFlagSupported. */
  predicate IsCapable(s: Context, isRequester: bool, requesterMask: u32, responderMask: u32) {
    var requesterFlags := if isRequester then s.local.flags else s.peerFlags;
    var responderFlags := if isRequester then s.peerFlags else s.local.flags;
    FlagIn(requesterFlags, requesterMask) && FlagIn(responderFlags, responderMask)
  }

  /** The provisioned chain of a slot; empty when the slot holds none. */
  function ChainOfSlot(l: Local, slot: nat): seq<byte> {
    if slot < |l.chains| && l.chains[slot].Chain? then l.chains[slot].bytes else []
  }

  /** SpdmGetPeerCertChainBuffer: the chain received, else the chain provisioned; empty when neither. */
  function PeerChain(s: Context): seq<byte> {
    if s.peerChain != [] then s.peerChain else s.local.peerChain
  }

  /** A chain without its header and root hash. */
  function ChainData(chain: seq<byte>, baseHash: u32): seq<byte> {
    if |chain| >= 4 + HashSize(baseHash) then chain[4 + HashSize(baseHash)..] else []
  }

  /** SpdmGetPeerCertChainData and SpdmGetLocalCertChainData. */
  function PeerChainData(s: Context): Option<seq<byte>> {
    if PeerChain(s) == [] then None else Some(ChainData(PeerChain(s), s.algorithms.baseHash))
  }

  function LocalChainData(s: Context): Option<seq<byte>> {
    if s.localChain == [] then None else Some(ChainData(s.localChain, s.algorithms.baseHash))
  }

  /** What one large buffer holds, or nothing. */
  function InOneBuffer(m: seq<byte>): Option<seq<byte>> {
    if |m| <= MAX_MESSAGE_BUFFER then Some(m) else None
  }

  /** SpdmCalculateM1M2 outside mutual authentication. */
  function M1M2(s: Context): Option<seq<byte>> {
    InOneBuffer(s.messageA + s.messageB + s.messageC)
  }

  /** SpdmGetMeasurementSummaryHashSize. */
  function SummaryHashSize(s: Context, isRequester: bool, hashType: byte): nat {
    if !IsCapable(s, isRequester, 0, MEAS_CAP) then 0
    else if hashType == 1 || hashType == 0xFF then HashSize(s.algorithms.baseHash)
    else 0
  }

  /** SpdmVerifyPeerCertChainBuffer. */
  predicate PeerChainAccepted(cr: Crypto, s: Context, chain: seq<byte>) {
    var h := HashSize(s.algorithms.baseHash);
    && |chain| <= MAX_MESSAGE_BUFFER
    && |chain| > 4 + h
    && cr.chainOk(s.algorithms.baseHash, chain)
    && (if s.local.peerRootHash != [] then
          |s.local.peerRootHash| == h && chain[4..4 + h] == s.local.peerRootHash
        else s.local.peerChain != [] ==> chain == s.local.peerChain)
  }

  /** The loop of SpdmIsVersionSupported. */
  method FindVersion(s: Context, version: byte) returns (found: bool)
    ensures found <==> IsVersionSupported(s, version)
  {
    var i := 0;
    while i < |s.versions|
      invariant 0 <= i <= |s.versions|
      invariant forall j :: 0 <= j < i ==>
        !(Major(s.versions[j]) == version / 0x10 && Minor(s.versions[j]) == version % 0x10)
    {
      if Major(s.versions[i]) == version / 0x10 && Minor(s.versions[i]) == version % 0x10 {
        return true;
      }
      i := i + 1;
    }
    return false;
  }

  /** SpdmCalculateM1M2 as it runs: appends to a local managed buffer, of MutB and MutC or of A, B and C. */
  method CalculateM1M2(s: Context, isMut: bool, mutB: seq<byte>, mutC: seq<byte>) returns (r: Option<seq<byte>>)
    ensures isMut ==> r == if |mutB| + |mutC| <= 0x1200 then Some(mutB + mutC) else None
    ensures !isMut ==> r == if |s.messageA| + |s.messageB| + |s.messageC| <= 0x1200
                            then Some(s.messageA + s.messageB + s.messageC) else None
  {
    var buffer := new ManagedBuffer(MAX_MESSAGE_BUFFER);
    var status;
    if isMut {
      status := buffer.Append(Data(mutB));
      if status != Success {
        return None;
      }
      status := buffer.Append(Data(mutC));
      if status != Success {
        return None;
      }
      assert [] + mutB == mutB;
      return Some(buffer.data[..buffer.size]);
    }
    status := buffer.Append(Data(s.messageA));
    if status != Success {
      return None;
    }
    status := buffer.Append(Data(s.messageB));
    if status != Success {
      return None;
    }
    status := buffer.Append(Data(s.messageC));
    if status != Success {
      return None;
    }
    assert [] + s.messageA == s.messageA;
    return Some(buffer.data[..buffer.size]);
  }
}
