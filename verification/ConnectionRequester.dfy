/**
 The requester's side of connection set-up, one attempt at a time: GET_VERSION, GET_CAPABILITIES,
 NEGOTIATE_ALGORITHMS, GET_DIGESTS and CHALLENGE.
 */
module ConnectionRequester {
  import opened Bytes
  import opened Spdm
  import opened Crypto
  import opened ManagedBuffers
  import opened DeviceContext
  import opened Exchanges
  import opened AlgorithmTables

  type Nonce = n: seq<byte> | |n| == NONCE_SIZE witness Zeros(NONCE_SIZE)

  // ---------- GET_VERSION ----------

  function GetVersionRequest(): seq<byte> {
    [VERSION_10, GET_VERSION, 0, 0]
  }

  predicate Compatible(v: u16) {
    v / 0x100 == VERSION_11 || v / 0x100 == VERSION_10
  }

  /** The compatible ones among the first n entries of a VERSION response, in order. */
  function CompatibleVersions(m: seq<byte>, n: nat): (vs: seq<u16>)
    requires 6 + 2 * n <= |m|
    ensures |vs| <= n
  {
    if n == 0 then []
    else
      var vs := CompatibleVersions(m, n - 1);
      var v := At16(m, 4 + 2 * n);
      if Compatible(v) then vs + [v] else vs
  }

  /** The size of a well-formed VERSION response. */
  function VersionReplySize(m: seq<byte>): (n: Option<nat>)
    ensures n.Some? ==> 8 <= n.value <= |m| && n.value <= 6 + 2 * MAX_VERSIONS && n.value == 6 + 2 * (m[5] as int)
  {
    if |m| < 6 || |m| > 6 + 2 * MAX_VERSIONS then None
    else if m[5] > MAX_VERSIONS || m[5] == 0 || |m| < 6 + 2 * m[5] then None
    else Some(6 + 2 * m[5])
  }

  /** TrySpdmGetVersion. */
  function TryGetVersion(s: Context, r: Reply): Step<()> {
    var s0 := s.(state := NotStarted);
    var early := r.first.Arrives? && |r.first.bytes| >= 4 && r.first.bytes[0] != VERSION_10;
    var outcome := if early then Dropped else ShortOutcome(r, VERSION);
    if outcome.NotSent? then Step(DeviceError, s0, ())
    else
      var s1 := s0.(messageA := GetVersionRequest(), messageB := [], messageC := []);
      match outcome
      case Refused(code) => Step(RefusalStatus(code), AfterRefusal(s1.(messageA := []), code), ())
      case Answer(m) =>
        var size := VersionReplySize(m);
        if size.None? then Step(DeviceError, s1, ())
        else
          var s2 := s1.(messageA := s1.messageA + m[..size.value]);
          var vs := CompatibleVersions(m, m[5]);
          if vs == [] then Step(DeviceError, s2, ())
          else Step(Success, s2.(versions := vs, state := AfterVersion), ())
      case _ => Step(DeviceError, s1, ())
  }

  // ---------- GET_CAPABILITIES ----------

  function FlagField(flags: u32, shift: nat, width: nat): nat
    requires width > 0
  {
    flags / Pow2(shift) % width
  }

  /** The rules both roles check on 1.1 flags. */
  predicate FlagsConsistent(flags: u32) {
    var cert := FlagField(flags, 1, 2);
    var encrypt := FlagField(flags, 6, 2);
    var mac := FlagField(flags, 7, 2);
    var mutAuth := FlagField(flags, 8, 2);
    var keyEx := FlagField(flags, 9, 2);
    var psk := FlagField(flags, 10, 4);
    var encap := FlagField(flags, 12, 2);
    var inTheClear := FlagField(flags, 15, 2);
    var pubKeyId := FlagField(flags, 16, 2);
    && !(encrypt != 0 && psk == 0 && keyEx == 0)
    && !(mac != 0 && psk == 0 && keyEx == 0)
    && !(keyEx != 0 && encrypt == 0 && mac == 0)
    && !(psk != 0 && encrypt == 0 && mac == 0)
    && !(mutAuth != 0 && encap == 0)
    && !(inTheClear != 0 && keyEx == 0)
    && !(encrypt == 0 && mac == 0 && inTheClear != 0)
    && !(pubKeyId != 0 && cert != 0)
  }

  /** The requester's SpdmCheckFlagCompability. */
  predicate ResponderFlagsOk(flags: u32, version: byte) {
    version == VERSION_11 ==>
      FlagsConsistent(flags) && FlagField(flags, 3, 4) != 3 && FlagField(flags, 10, 4) != 3
  }

  function GetCapabilitiesRequest(s: Context): (m: seq<byte>)
    ensures |m| == if Version(s) == VERSION_11 then 12 else 4
    ensures m[0] == Version(s)
  {
    var header := [Version(s), GET_CAPABILITIES, 0, 0];
    if Version(s) == VERSION_11 then header + [0, s.local.ctExponent, 0, 0] + Le32(s.local.flags) else header
  }

  /** TrySpdmGetCapabilities. */
  function TryGetCapabilities(s: Context, r: Reply): Step<()> {
    if s.state != AfterVersion then Step(Unsupported, s, ())
    else
      var outcome := ShortOutcome(r, CAPABILITIES);
      var cached := Cached(MAX_SMALL_BUFFER, s.messageA, GetCapabilitiesRequest(s));
      if outcome.NotSent? then Step(DeviceError, s, ())
      else if cached.None? then Step(SecurityViolation, s, ())
      else
        var s1 := s.(messageA := cached.value);
        match outcome
        case Refused(code) => Step(RefusalStatus(code), AfterRefusal(s, code), ())
        case Answer(m) =>
          if |m| != 12 || m[0] != Version(s) || !ResponderFlagsOk(At32(m, 8), m[0]) then Step(DeviceError, s1, ())
          else
            var cached2 := Cached(MAX_SMALL_BUFFER, s1.messageA, m);
            if cached2.None? then Step(SecurityViolation, s1, ())
            else Step(Success, s1.(messageA := cached2.value, peerCtExponent := m[5], peerFlags := At32(m, 8),
                                   state := AfterCapabilities), ())
        case _ => Step(DeviceError, s1, ())
  }

  // ---------- NEGOTIATE_ALGORITHMS ----------

  function OfferTables(a: Algorithms): seq<StructTable> {
    [StructTable(ALG_DHE, a.dhe, []), StructTable(ALG_AEAD, a.aead, []),
     StructTable(ALG_REQ_BASE_ASYM, a.reqBaseAsym, []), StructTable(ALG_KEY_SCHEDULE, a.keySchedule, [])]
  }

  function NegotiateHead(version: byte, tables: byte, a: Algorithms): (m: seq<byte>)
    ensures |m| == 32
  {
    [version, NEGOTIATE_ALGORITHMS, tables, 0] + Le16(32 + 4 * (tables as int)) + [a.measurementSpec, 0]
    + Le32(a.baseAsym) + Le32(a.baseHash) + Zeros(12) + [0, 0, 0, 0]
  }

  function NegotiateRequest(s: Context): (m: seq<byte>)
    ensures |m| >= 32
  {
    if Version(s) == VERSION_11
    then NegotiateHead(VERSION_11, 4, s.local.algorithms) + EncodeTables(OfferTables(s.local.algorithms))
    else NegotiateHead(VERSION_10, 0, s.local.algorithms)
  }

  /**
   Where the struct tables end in a message with `headSize` fixed bytes followed by extended
   algorithms and tables; None when it is malformed.
   */
  function TablesScan(m: seq<byte>, headSize: nat, extLimit: nat): (r: Option<nat>)
    requires 32 <= headSize <= |m|
    ensures r.Some? ==> TablesStart(m, headSize) <= r.value <= |m|
    ensures r.Some? && m[0] >= VERSION_11 ==> ScanTables(m, TablesStart(m, headSize), m[2], extLimit).Some?
  {
    var start := TablesStart(m, headSize);
    if |m| < start + 4 * (m[2] as int) then None
    else if m[0] >= VERSION_11 then ScanTables(m, start, m[2], extLimit) else Some(start)
  }

  /** Where the struct tables start: after the head and the extended algorithms counted in its last four bytes. */
  function TablesStart(m: seq<byte>, headSize: nat): nat
    requires 32 <= headSize <= |m|
  {
    headSize + 4 * (m[headSize - 4] as int) + 4 * (m[headSize - 3] as int)
  }

  const ALGORITHMS_HEAD: nat := 36
  const ALGORITHMS_MAX: nat := 36 + 32 + 32 + 16

  /** The end of an ALGORITHMS response the requester's parser accepts. */
  function AlgorithmsReplyEnd(m: seq<byte>): (r: Option<nat>)
    ensures r.Some? ==> 36 <= r.value <= |m| <= ALGORITHMS_MAX && r.value == At16(m, 4)
    ensures r.Some? && m[0] >= VERSION_11 ==> ScanTables(m, TablesStart(m, ALGORITHMS_HEAD), m[2], 1).Some?
  {
    if |m| < ALGORITHMS_HEAD || |m| > ALGORITHMS_MAX || m[32] > 1 || m[33] > 1 then None
    else
      var end := TablesScan(m, ALGORITHMS_HEAD, 1);
      if end.Some? && end.value == At16(m, 4) then end else None
  }

  /** The checks on the four algorithms every version negotiates. */
  predicate BaseAlgorithmsOk(s: Context, isRequester: bool, a: Algorithms) {
    && (IsCapable(s, isRequester, 0, MEAS_CAP) ==>
          a.measurementSpec == MEASUREMENT_SPEC_DMTF && MeasurementHashSize(a.measurementHash) != 0)
    && HashSize(a.baseHash) != 0
    && (IsCapable(s, isRequester, 0, CHAL_CAP) ==> SignatureSize(a.baseAsym) != 0)
  }

  /** The capability-conditioned checks on the four session algorithms. */
  predicate SessionAlgorithmsOk(s: Context, isRequester: bool, a: Algorithms) {
    SessionSizesOk(s, isRequester, a) && KeyScheduleOk(s, isRequester, a)
  }

  predicate SessionSizesOk(s: Context, isRequester: bool, a: Algorithms) {
    && (IsCapable(s, isRequester, KEY_EX_CAP, KEY_EX_CAP) ==> DhePubKeySize(a.dhe) != 0)
    && (IsCapable(s, isRequester, ENCRYPT_CAP, ENCRYPT_CAP) || IsCapable(s, isRequester, MAC_CAP, MAC_CAP) ==>
          AeadKeySize(a.aead) != 0)
    && (IsCapable(s, isRequester, MUT_AUTH_CAP, MUT_AUTH_CAP) ==> SignatureSize(a.reqBaseAsym) != 0)
  }

  predicate KeyScheduleOk(s: Context, isRequester: bool, a: Algorithms) {
    IsCapable(s, isRequester, KEY_EX_CAP, KEY_EX_CAP) || IsCapable(s, isRequester, PSK_CAP, PSK_CAP) ==>
      a.keySchedule == KEY_SCHEDULE_HMAC_HASH
  }

  predicate NoSessionAlgorithms(a: Algorithms) {
    a.dhe == 0 && a.aead == 0 && a.reqBaseAsym == 0 && a.keySchedule == 0
  }

  function WithoutSessionAlgorithms(a: Algorithms): Algorithms {
    a.(dhe := 0, aead := 0, reqBaseAsym := 0, keySchedule := 0)
  }

  /** The four base selections of an ALGORITHMS response over what the connection had before. */
  function BaseSelections(a: Algorithms, m: seq<byte>): Algorithms
    requires |m| >= ALGORITHMS_HEAD
  {
    a.(measurementSpec := m[6], measurementHash := At32(m, 8), baseAsym := At32(m, 12), baseHash := At32(m, 16))
  }

  /** TrySpdmNegotiateAlgorithms after an acceptable response has been cached. */
  function AdoptAlgorithms(s: Context, m: seq<byte>): Step<()>
    requires AlgorithmsReplyEnd(m).Some?
  {
    var base := BaseSelections(s.algorithms, m);
    if !BaseAlgorithmsOk(s, true, base) then Step(SecurityViolation, s.(algorithms := base), ())
    else if m[0] >= VERSION_11 then
      var all := LoadTables(m, TablesStart(m, ALGORITHMS_HEAD), m[2], 1, base);
      if !SessionAlgorithmsOk(s, true, all) then Step(SecurityViolation, s.(algorithms := all), ())
      else Step(Success, s.(algorithms := all, state := Negotiated), ())
    else
      Step(Success, s.(algorithms := WithoutSessionAlgorithms(base), state := Negotiated), ())
  }

  /** TrySpdmNegotiateAlgorithms. */
  function TryNegotiateAlgorithms(s: Context, r: Reply): Step<()> {
    if s.state != AfterCapabilities then Step(Unsupported, s, ())
    else
      var outcome := ShortOutcome(r, ALGORITHMS);
      var cached := Cached(MAX_SMALL_BUFFER, s.messageA, NegotiateRequest(s));
      if outcome.NotSent? then Step(DeviceError, s, ())
      else if cached.None? then Step(SecurityViolation, s, ())
      else
        var s1 := s.(messageA := cached.value);
        match outcome
        case Refused(code) => Step(RefusalStatus(code), AfterRefusal(s, code), ())
        case Answer(m) =>
          var end := AlgorithmsReplyEnd(m);
          if end.None? then Step(DeviceError, s1, ())
          else
            var cached2 := Cached(MAX_SMALL_BUFFER, s1.messageA, m[..end.value]);
            if cached2.None? then Step(SecurityViolation, s1, ())
            else AdoptAlgorithms(s1.(messageA := cached2.value), m)
        case _ => Step(DeviceError, s1, ())
  }

  // ---------- GET_DIGESTS ----------

  function GetDigestsRequest(s: Context): seq<byte> {
    [Version(s), GET_DIGESTS, 0, 0]
  }

  /** How many of the first n slots a slot mask names. */
  function SlotsIn(mask: byte, n: nat): (c: nat)
    ensures c <= n
  {
    if n == 0 then 0 else SlotsIn(mask, n - 1) + if Bit(mask, n - 1) then 1 else 0
  }

  /** The size of a well-formed DIGESTS response under the negotiated hash. */
  function DigestsReplySize(s: Context, m: seq<byte>): (n: Option<nat>)
    ensures n.Some? ==> 4 + HashSize(s.algorithms.baseHash) <= n.value <= |m|
  {
    var h := HashSize(s.algorithms.baseHash);
    if |m| < 4 || |m| > 4 + MAX_HASH * MAX_SLOTS then None
    else
      var count := SlotsIn(m[3], MAX_SLOTS);
      if count == 0 || |m| < 4 + count * h then None else Some(4 + count * h)
  }

  /** SpdmVerifyPeerDigests. */
  predicate PeerDigestOk(cr: Crypto, s: Context, digest: seq<byte>) {
    s.local.peerChain != [] ==> digest == cr.hash(s.algorithms.baseHash, s.local.peerChain)
  }

  /** TrySpdmGetDigest. */
  function TryGetDigests(cr: Crypto, s: Context, r: Reply): Step<()> {
    if !IsCapable(s, true, 0, CERT_CAP) || s.state != Negotiated then Step(Unsupported, s, ())
    else
      var s0 := s.(errorState := NoCapabilities);
      var outcome := LongOutcome(r, DIGESTS, 4 + MAX_HASH * MAX_SLOTS);
      var cached := Cached(MAX_MESSAGE_BUFFER, s.messageB, GetDigestsRequest(s));
      if outcome.NotSent? then Step(DeviceError, s0, ())
      else if cached.None? then Step(SecurityViolation, s0, ())
      else
        var s1 := s0.(messageB := cached.value);
        match outcome
        case Refused(code) => Step(RefusalStatus(code), AfterRefusal(s0, code), ())
        case Answer(m) =>
          var size := DigestsReplySize(s, m);
          if size.None? then Step(DeviceError, s1, ())
          else
            var cached2 := Cached(MAX_MESSAGE_BUFFER, s1.messageB, m[..size.value]);
            if cached2.None? then Step(SecurityViolation, s1, ())
            else
              var s2 := s1.(messageB := cached2.value);
              if !PeerDigestOk(cr, s, m[4..4 + HashSize(s.algorithms.baseHash)])
              then Step(SecurityViolation, s2.(errorState := CertificateFailure), ())
              else Step(Success, s2.(errorState := NoError, state := AfterDigests), ())
        case _ => Step(DeviceError, s1, ())
  }

  /** The slot-counting loop of TrySpdmGetDigest. */
  method CountSlots(mask: byte) returns (count: nat)
    ensures count == SlotsIn(mask, MAX_SLOTS)
  {
    count := 0;
    for i := 0 to MAX_SLOTS
      invariant count == SlotsIn(mask, i)
    {
      if Bit(mask, i) {
        count := count + 1;
      }
    }
  }

  // ---------- CHALLENGE ----------

  function ChallengeRequest(s: Context, slot: byte, hashType: byte, nonce: Nonce): (m: seq<byte>)
    ensures |m| == 36
  {
    [Version(s), CHALLENGE, slot, hashType] + nonce
  }

  const CHALLENGE_AUTH_MAX: nat := 4 + MAX_HASH + NONCE_SIZE + MAX_HASH + 2 + MAX_OPAQUE + MAX_ASYM_KEY

  /** Sizes that fix the layout of a CHALLENGE_AUTH response: digest, summary hash and signature. */
  datatype AuthLayout = AuthLayout(hash: nat, summary: nat, signature: nat)

  function RequesterAuthLayout(s: Context, hashType: byte): AuthLayout {
    AuthLayout(HashSize(s.algorithms.baseHash), SummaryHashSize(s, true, hashType),
               SignatureSize(s.algorithms.baseAsym))
  }

  /** The response names the requested slot, and mutual authentication only when it was negotiated. */
  predicate AuthAttributesOk(s: Context, slot: byte, m: seq<byte>)
    requires |m| >= 4
  {
    && (if slot == 0xFF then m[2] % 0x10 == 0xF && m[3] == 0
        else m[2] % 0x10 == slot && m[3] == Pow2(slot))
    && (m[2] / 0x80 == 1 ==> IsCapable(s, true, MUT_AUTH_CAP, MUT_AUTH_CAP))
  }

  /** SpdmVerifyCertificateChainHash. */
  predicate PeerChainHashOk(cr: Crypto, s: Context, digest: seq<byte>) {
    PeerChain(s) != [] && digest == cr.hash(s.algorithms.baseHash, PeerChain(s))
  }

  /** SpdmVerifyChallengeAuthSignature for the requester. */
  predicate ChallengeSignatureOk(cr: Crypto, s: Context, signature: seq<byte>) {
    && M1M2(s).Some? && PeerChainData(s).Some?
    && cr.verify(s.algorithms.baseAsym, s.algorithms.baseHash, PeerChainData(s).value, M1M2(s).value, signature)
  }

  /** TrySpdmChallenge once a response with the right code is there; `encapOk` is the encapsulated step's result. */
  function CheckChallengeAuth(cr: Crypto, s1: Context, slot: byte, hashType: byte, m: seq<byte>,
                              encapOk: bool): Step<()>
    requires |m| >= 4
  {
    var l := RequesterAuthLayout(s1, hashType);
    var fixed := 38 + l.hash + l.summary;
    if |m| > CHALLENGE_AUTH_MAX || !AuthAttributesOk(s1, slot, m) || |m| <= fixed then Step(DeviceError, s1, ())
    else if !PeerChainHashOk(cr, s1, m[4..4 + l.hash]) then
      Step(SecurityViolation, s1.(errorState := CertificateFailure), ())
    else
      var opaque_ := At16(m, fixed - 2);
      if opaque_ > MAX_OPAQUE then Step(SecurityViolation, s1, ())
      else if |m| < fixed + opaque_ + l.signature then Step(DeviceError, s1, ())
      else
        var cached := Cached(MAX_SMALL_BUFFER, s1.messageC, m[..fixed + opaque_]);
        if cached.None? then Step(SecurityViolation, s1, ())
        else
          var s2 := s1.(messageC := cached.value);
          if !ChallengeSignatureOk(cr, s2, m[fixed + opaque_..fixed + opaque_ + l.signature]) then
            Step(SecurityViolation, s2.(errorState := CertificateFailure), ())
          else if m[2] / 0x80 == 1 && !encapOk then
            Step(SecurityViolation, s2.(errorState := CertificateFailure), ())
          else Step(Success, s2.(errorState := NoError, state := Authenticated), ())
  }

  /** The inputs of one CHALLENGE attempt. */
  datatype ChallengeInput = ChallengeInput(nonce: Nonce, reply: Reply, encapOk: bool)

  /** TrySpdmChallenge. */
  function TryChallenge(cr: Crypto, s: Context, slot: byte, hashType: byte, x: ChallengeInput): Step<()> {
    if !IsCapable(s, true, 0, CHAL_CAP) || !s.state.Reached(Negotiated) then Step(Unsupported, s, ())
    else if (slot >= MAX_SLOTS && slot != 0xFF) || (slot == 0xFF && s.local.peerChain == []) then
      Step(InvalidParameter, s, ())
    else
      var s0 := s.(errorState := NoCapabilities);
      var outcome := LongOutcome(x.reply, CHALLENGE_AUTH, CHALLENGE_AUTH_MAX);
      var cached := Cached(MAX_SMALL_BUFFER, s.messageC, ChallengeRequest(s, slot, hashType, x.nonce));
      if outcome.NotSent? then Step(DeviceError, s0, ())
      else if cached.None? then Step(SecurityViolation, s0, ())
      else
        var s1 := s0.(messageC := cached.value);
        match outcome
        case Refused(code) => Step(RefusalStatus(code), AfterRefusal(s0, code), ())
        case Answer(m) => CheckChallengeAuth(cr, s1, slot, hashType, m, x.encapOk)
        case _ => Step(DeviceError, s1, ())
  }
}
