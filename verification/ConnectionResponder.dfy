/** The responder's handlers for connection set-up: each maps a request to a context and a reply. */
module ConnectionResponder {
  import opened Bytes
  import opened Spdm
  import opened Crypto
  import opened ManagedBuffers
  import opened DeviceContext
  import opened AlgorithmTables
  import opened ConnectionRequester

  datatype ResponseState = Normal | Busy | NeedResync | NotReady | ProcessingEncap

  datatype Response = Response(ctx: Context, message: seq<byte>)

  function Fail(p: Context, code: byte, data: byte): Response {
    Response(p, ErrorMessage(Version(p), code, data))
  }

  /** SpdmResponderHandleResponseState; a NOT_READY reply carries the request code and a token. */
  function NotNow(p: Context, mode: ResponseState, request: byte, token: byte): (r: Response)
    requires mode != Normal
    ensures |r.message| >= 4 && r.message[1] == ERROR
    ensures mode == Busy ==> r == Response(p, ErrorMessage(Version(p), BUSY, 0))
  {
    match mode
    case Busy => Fail(p, BUSY, 0)
    case NeedResync => Response(p.(state := NotStarted), ErrorMessage(Version(p), REQUEST_RESYNCH, 0))
    case NotReady => Response(p, ErrorMessage(Version(p), RESPONSE_NOT_READY, 0) + [1, request, token, 1])
    case ProcessingEncap => Fail(p, REQUEST_IN_FLIGHT, 0)
  }

  /** AppendManagedBuffer whose status the caller ignores. */
  function Appended(max: nat, transcript: seq<byte>, message: seq<byte>): seq<byte> {
    if |transcript| + |message| > max then transcript else transcript + message
  }

  // ---------- CAPABILITIES ----------

  /** The responder's SpdmCheckFlagCompability. */
  predicate RequesterFlagsOk(flags: u32, version: byte) {
    version == VERSION_11 ==>
      && FlagsConsistent(flags)
      && FlagField(flags, 3, 4) == 0 && FlagField(flags, 5, 2) == 0
      && FlagField(flags, 10, 4) != 2 && FlagField(flags, 10, 4) != 3
  }

  function CapabilitiesResponse(p: Context): (m: seq<byte>)
    ensures |m| == 12 && m[0] == Version(p) && m[1] == CAPABILITIES && m[5] == p.local.ctExponent
    ensures At32(m, 8) == p.local.flags
  {
    [Version(p), CAPABILITIES, 0, 0, 0, p.local.ctExponent, 0, 0] + Le32(p.local.flags)
  }

  /** SpdmGetResponseCapability. `stale` is what a 4-byte request leaves where its flags would be. */
  function HandleGetCapabilities(p: Context, mode: ResponseState, req: seq<byte>, stale: u32): Response
    requires |req| >= 4
  {
    if mode != Normal then NotNow(p, mode, req[1], 0)
    else if p.state != AfterVersion then Fail(p, UNEXPECTED_REQUEST, 0)
    else if |req| != (if Version(p) == VERSION_11 then 12 else 4) then Fail(p, INVALID_REQUEST, 0)
    else
      var flags := if |req| == 12 then At32(req, 8) else stale;
      if !RequesterFlagsOk(flags, req[0]) then Fail(p, INVALID_REQUEST, 0)
      else
        var m := CapabilitiesResponse(p);
        var a := Appended(MAX_SMALL_BUFFER, Appended(MAX_SMALL_BUFFER, p.messageA, req), m);
        var p1 := p.(messageA := a, state := AfterCapabilities);
        if Version(p) == VERSION_11
        then Response(p1.(peerCtExponent := req[5], peerFlags := flags), m)
        else Response(p1.(peerCtExponent := 0, peerFlags := 0), m)
  }

  // ---------- ALGORITHMS ----------

  function Narrow(x: u32): u16 {
    x % 0x1_0000
  }

  /** The eight selections, made from the responder's own algorithms and the offer. */
  function SelectAlgorithms(local: Algorithms, offer: Algorithms): Algorithms {
    Algorithms(
      Prioritize(MEASUREMENT_SPEC_PRIORITY, local.measurementSpec, offer.measurementSpec) % 0x100,
      Prioritize(MEASUREMENT_HASH_PRIORITY, local.measurementHash, offer.measurementHash),
      Prioritize(ASYM_PRIORITY, local.baseAsym, offer.baseAsym),
      Prioritize(HASH_PRIORITY, local.baseHash, offer.baseHash),
      Narrow(Prioritize(DHE_PRIORITY, local.dhe, offer.dhe)),
      Narrow(Prioritize(AEAD_PRIORITY, local.aead, offer.aead)),
      Narrow(Prioritize(REQ_ASYM_PRIORITY, local.reqBaseAsym, offer.reqBaseAsym)),
      Narrow(Prioritize(KEY_SCHEDULE_PRIORITY, local.keySchedule, offer.keySchedule)))
  }

  const NEGOTIATE_HEAD: nat := 32

  /** What the responder takes the requester to offer. */
  function OfferIn(p: Context, req: seq<byte>): Algorithms
    requires |req| >= NEGOTIATE_HEAD && TablesScan(req, NEGOTIATE_HEAD, 15).Some?
  {
    var base := p.algorithms.(measurementSpec := req[6], measurementHash := p.local.algorithms.measurementHash,
                              baseAsym := At32(req, 8), baseHash := At32(req, 12));
    if req[0] >= VERSION_11 then LoadTables(req, TablesStart(req, NEGOTIATE_HEAD), req[2], 15, base) else base
  }

  function AlgorithmsHead(version: byte, tables: byte, a: Algorithms): (m: seq<byte>)
    ensures |m| == 36
  {
    [version, ALGORITHMS, tables, 0] + Le16(36 + 4 * (tables as int)) + [a.measurementSpec, 0]
    + Le32(a.measurementHash) + Le32(a.baseAsym) + Le32(a.baseHash) + Zeros(12) + [0, 0, 0, 0]
  }

  function AlgorithmsResponse(version: byte, a: Algorithms): seq<byte> {
    if version == VERSION_11
    then AlgorithmsHead(version, 4, a) + EncodeTables(OfferTables(a))
    else AlgorithmsHead(version, 0, a)
  }

  function WithBase(a: Algorithms, b: Algorithms): Algorithms {
    a.(measurementSpec := b.measurementSpec, measurementHash := b.measurementHash,
       baseAsym := b.baseAsym, baseHash := b.baseHash)
  }

  /** The checks made after the response has been cached. */
  function ConcludeNegotiation(p: Context, offer: Algorithms, selected: Algorithms, m: seq<byte>): Response {
    var base := WithBase(offer, selected);
    if !BaseAlgorithmsOk(p, false, base) then Fail(p.(algorithms := base), INVALID_REQUEST, 0)
    else if Version(p) == VERSION_11 then
      if !SessionSizesOk(p, false, selected) then Fail(p.(algorithms := selected), INVALID_REQUEST, 0)
      else if !KeyScheduleOk(p, false, selected) then
        Fail(p.(algorithms := selected), UNSUPPORTED_REQUEST, NEGOTIATE_ALGORITHMS)
      else Response(p.(algorithms := selected, state := Negotiated), m)
    else Response(p.(algorithms := WithoutSessionAlgorithms(base), state := Negotiated), m)
  }

  /** SpdmGetResponseAlgorithm; a failure status is turned into an ERROR message by SpdmBuildResponse. */
  function HandleNegotiateAlgorithms(p: Context, mode: ResponseState, req: seq<byte>): Response
    requires |req| >= 4
  {
    if mode != Normal then NotNow(p, mode, req[1], 0)
    else if p.state != AfterCapabilities then Fail(p, UNEXPECTED_REQUEST, 0)
    else if |req| < NEGOTIATE_HEAD || TablesScan(req, NEGOTIATE_HEAD, 15).None? then Fail(p, INVALID_REQUEST, 0)
    else
      var end := TablesScan(req, NEGOTIATE_HEAD, 15).value;
      if end != At16(req, 4) then Fail(p, UNSUPPORTED_REQUEST, req[1])
      else
        var cached := Cached(MAX_SMALL_BUFFER, p.messageA, req[..end]);
        if cached.None? then Fail(p, INVALID_REQUEST, 0)
        else
          var offer := OfferIn(p, req);
          var selected := SelectAlgorithms(p.local.algorithms, offer);
          var m := AlgorithmsResponse(Version(p), selected);
          var cached2 := Cached(MAX_SMALL_BUFFER, cached.value, m);
          if cached2.None? then Fail(p.(messageA := cached.value, algorithms := offer), INVALID_REQUEST, 0)
          else ConcludeNegotiation(p.(messageA := cached2.value), offer, selected, m)
  }

  // ---------- DIGESTS ----------

  /** The mask with the low n bits set. */
  function SlotMask(n: nat): (mask: nat)
    ensures mask == Pow2(n) - 1
  {
    if n == 0 then 0 else SlotMask(n - 1) + Pow2(n - 1)
  }

  /** The digests of the first n slots, in slot order. */
  function SlotDigests(cr: Crypto, p: Context, n: nat): seq<byte> {
    if n == 0 then []
    else SlotDigests(cr, p, n - 1) + cr.hash(p.algorithms.baseHash, ChainOfSlot(p.local, n - 1))
  }

  predicate AnyChainProvisioned(l: Local) {
    exists i :: 0 <= i < |l.chains| && l.chains[i].Chain?
  }

  function DigestsResponse(cr: Crypto, p: Context): seq<byte> {
    [Version(p), DIGESTS, 0, SlotMask(p.local.slotCount) % 0x100] + SlotDigests(cr, p, p.local.slotCount)
  }

  /** SpdmGetResponseDigest. */
  function HandleGetDigests(cr: Crypto, p: Context, mode: ResponseState, req: seq<byte>): Response
    requires |req| >= 4
  {
    if mode != Normal then NotNow(p, mode, req[1], 0)
    else if !IsCapable(p, false, 0, CERT_CAP) then Fail(p, UNSUPPORTED_REQUEST, GET_DIGESTS)
    else if p.state != Negotiated then Fail(p, UNEXPECTED_REQUEST, 0)
    else if |req| != 4 then Fail(p, INVALID_REQUEST, 0)
    else
      var cached := Cached(MAX_MESSAGE_BUFFER, p.messageB, req);
      if cached.None? then Fail(p, INVALID_REQUEST, 0)
      else
        var p1 := p.(messageB := cached.value);
        if !AnyChainProvisioned(p.local) then Fail(p1, UNSUPPORTED_REQUEST, GET_DIGESTS)
        else
          var m := DigestsResponse(cr, p);
          var cached2 := Cached(MAX_MESSAGE_BUFFER, p1.messageB, m);
          if cached2.None? then Fail(p1, INVALID_REQUEST, 0)
          else Response(p1.(messageB := cached2.value, state := AfterDigests), m)
  }

  /** The mask and digest loop of SpdmGetResponseDigest. */
  method BuildDigests(cr: Crypto, p: Context) returns (mask: nat, digests: seq<byte>)
    ensures mask == SlotMask(p.local.slotCount) && digests == SlotDigests(cr, p, p.local.slotCount)
  {
    mask, digests := 0, [];
    for i := 0 to p.local.slotCount
      invariant mask == SlotMask(i) && digests == SlotDigests(cr, p, i)
    {
      mask := mask + Pow2(i);
      digests := digests + cr.hash(p.algorithms.baseHash, ChainOfSlot(p.local, i));
    }
  }

  // ---------- CERTIFICATE ----------

  /** The portion served for an offset and a length, and what remains after it. */
  function PortionLength(n: nat, offset: nat, length: nat): (k: nat)
    requires offset < n
    ensures k <= length && offset + k <= n
  {
    Min(Min(length, MAX_CERT_BLOCK), n - offset)
  }

  function CertificateResponse(p: Context, slot: byte, chain: seq<byte>, offset: nat, length: nat): (m: seq<byte>)
    requires offset < |chain| && length <= 0xFFFF
    ensures |m| == 8 + PortionLength(|chain|, offset, length)
  {
    var k := PortionLength(|chain|, offset, length);
    [Version(p), CERTIFICATE, slot, 0] + Le16(k) + Le16((|chain| - (offset + k)) % 0x1_0000) + chain[offset..offset + k]
  }

  /** SpdmGetResponseCertificate. */
  function HandleGetCertificate(p: Context, mode: ResponseState, req: seq<byte>): Response
    requires |req| >= 4
  {
    if mode != Normal then NotNow(p, mode, req[1], 0)
    else if p.state != Negotiated && p.state != AfterDigests && p.state != AfterCertificate then
      Fail(p, UNEXPECTED_REQUEST, 0)
    else if !IsCapable(p, false, 0, CERT_CAP) then Fail(p, UNSUPPORTED_REQUEST, GET_CERTIFICATE)
    else if |req| != 8 then Fail(p, INVALID_REQUEST, 0)
    else
      var cached := Cached(MAX_MESSAGE_BUFFER, p.messageB, req);
      if cached.None? then Fail(p, INVALID_REQUEST, 0)
      else
        var p1 := p.(messageB := cached.value);
        var slot := req[2];
        var chain := ChainOfSlot(p.local, slot);
        if slot >= p.local.slotCount || At16(req, 4) >= |chain| then Fail(p1, INVALID_REQUEST, 0)
        else
          var m := CertificateResponse(p, slot, chain, At16(req, 4), At16(req, 6));
          var cached2 := Cached(MAX_MESSAGE_BUFFER, p1.messageB, m);
          if cached2.None? then Fail(p1, INVALID_REQUEST, 0)
          else Response(p1.(messageB := cached2.value, state := AfterCertificate), m)
  }

  // ---------- CHALLENGE_AUTH ----------

  /** The responder asks for basic mutual authentication only when both sides announced what it needs. */
  predicate AsksBasicMutAuth(p: Context) {
    && IsCapable(p, false, MUT_AUTH_CAP, MUT_AUTH_CAP)
    && IsCapable(p, false, CHAL_CAP, 0)
    && (IsCapable(p, false, CERT_CAP, 0) || IsCapable(p, false, PUB_KEY_ID_CAP, 0))
    && p.local.basicMutAuthRequested
  }

  /** SpdmGenerateMeasurementSummaryHash over the device's measurement data; None is its failure. */
  function SummaryHash(cr: Crypto, p: Context, hashType: byte, measured: Option<seq<byte>>): Option<seq<byte>> {
    if !IsCapable(p, false, 0, MEAS_CAP) || hashType == 0 then Some([])
    else if hashType == 1 || hashType == 0xFF then
      if measured.Some? then Some(cr.hash(p.algorithms.baseHash, measured.value)) else None
    else None
  }

  /** CHALLENGE_AUTH up to and including the opaque data, which is the part that gets signed. */
  function ChallengeAuthBody(cr: Crypto, p: Context, slot: byte, nonce: Nonce, summary: seq<byte>): seq<byte> {
    var attribute := slot % 0x10 + if AsksBasicMutAuth(p) then 0x80 else 0;
    var mask := if slot < 8 then Pow2(slot) % 0x100 else 0;
    var signer: nat := if slot == 0xFF then p.local.provisionedSlot else slot;
    [Version(p), CHALLENGE_AUTH, attribute, mask]
    + cr.hash(p.algorithms.baseHash, ChainOfSlot(p.local, signer)) + nonce + summary
    + Le16(|p.local.opaqueChallengeAuth| % 0x1_0000) + p.local.opaqueChallengeAuth
  }

  /** SpdmGetResponseChallengeAuth. */
  function HandleChallenge(cr: Crypto, p: Context, mode: ResponseState, req: seq<byte>, nonce: Nonce,
                           measured: Option<seq<byte>>): Response
    requires |req| >= 4
  {
    if mode != Normal then NotNow(p, mode, req[1], 0)
    else if !IsCapable(p, false, 0, CHAL_CAP) then Fail(p, UNSUPPORTED_REQUEST, CHALLENGE)
    else if !p.state.Reached(Negotiated) then Fail(p, UNEXPECTED_REQUEST, 0)
    else if |req| != 36 then Fail(p, INVALID_REQUEST, 0)
    else
      var cached := Cached(MAX_SMALL_BUFFER, p.messageC, req);
      if cached.None? then Fail(p, INVALID_REQUEST, 0)
      else
        var p1 := p.(messageC := cached.value);
        var summary := SummaryHash(cr, p, req[3], measured);
        if (req[2] != 0xFF && req[2] >= p.local.slotCount) || summary.None? then Fail(p1, INVALID_REQUEST, 0)
        else
          var body := ChallengeAuthBody(cr, p, req[2], nonce, summary.value);
          var cached2 := Cached(MAX_SMALL_BUFFER, p1.messageC, body);
          if cached2.None? then Fail(p1, INVALID_REQUEST, 0)
          else
            var p2 := p1.(messageC := cached2.value);
            var signature := if M1M2(p2).None? then None
                             else cr.responderSign(p.algorithms.baseAsym, p.algorithms.baseHash, M1M2(p2).value);
            if signature.None? then Fail(p2, UNSUPPORTED_REQUEST, CHALLENGE_AUTH)
            else Response(if AsksBasicMutAuth(p) then p2 else p2.(state := Authenticated), body + signature.value)
  }
}
