/** The responder's handlers as they run, on the device context they update. */
module ResponderCode {
  import opened Bytes
  import opened Spdm
  import opened Crypto
  import opened ManagedBuffers
  import opened DeviceContext
  import opened Exchanges
  import opened AlgorithmTables
  import opened ConnectionRequester
  import opened ConnectionResponder
  import opened Device

  /** SpdmResponderHandleResponseState. */
  method HandleResponseState(d: Device, mode: ResponseState, request: byte, token: byte) returns (m: seq<byte>)
    requires d.Valid() && mode != Normal
    modifies d.Repr
    ensures d.Valid() && Response(d.View(), m) == NotNow(old(d.View()), mode, request, token)
  {
    hide Device.Valid, Device.View, VersionIn;
    var version := Version(d.View());
    match mode
    case Busy => return ErrorMessage(version, BUSY, 0);
    case NeedResync =>
      m := ErrorMessage(version, REQUEST_RESYNCH, 0);
      d.SetState(NotStarted);
    case NotReady => return ErrorMessage(version, RESPONSE_NOT_READY, 0) + [1, request, token, 1];
    case ProcessingEncap => return ErrorMessage(version, REQUEST_IN_FLIGHT, 0);
  }

  /** SpdmGetResponseCapability. */
  method GetResponseCapability(d: Device, mode: ResponseState, req: seq<byte>, stale: u32) returns (m: seq<byte>)
    requires d.Valid() && |req| >= 4
    modifies d.Repr
    ensures d.Valid() && Response(d.View(), m) == HandleGetCapabilities(old(d.View()), mode, req, stale)
  {
    hide Device.Valid, Device.View, RequesterFlagsOk, CapabilitiesResponse, VersionIn;
    var p := d.View();
    if mode != Normal {
      m := HandleResponseState(d, mode, req[1], 0);
      return;
    }
    if p.state != AfterVersion {
      return ErrorMessage(Version(p), UNEXPECTED_REQUEST, 0);
    }
    if |req| != (if Version(p) == VERSION_11 then 12 else 4) {
      return ErrorMessage(Version(p), INVALID_REQUEST, 0);
    }
    var flags := if |req| == 12 then At32(req, 8) else stale;
    if !RequesterFlagsOk(flags, req[0]) {
      return ErrorMessage(Version(p), INVALID_REQUEST, 0);
    }
    var _ := d.AppendA(req);
    m := CapabilitiesResponse(p);
    var _ := d.AppendA(m);
    if Version(p) == VERSION_11 {
      d.SetPeerCapabilities(req[5], flags);
    } else {
      d.SetPeerCapabilities(0, 0);
    }
    d.SetState(AfterCapabilities);
  }

  /** The mask and the digests of the provisioned slots; then SpdmGetResponseDigest around it. */
  method GetResponseDigest(cr: Crypto, d: Device, mode: ResponseState, req: seq<byte>) returns (m: seq<byte>)
    requires d.Valid() && |req| >= 4
    modifies d.Repr
    ensures d.Valid() && Response(d.View(), m) == HandleGetDigests(cr, old(d.View()), mode, req)
  {
    hide Device.Valid, Device.View, IsCapable, SlotMask, SlotDigests, VersionIn, AnyChainProvisioned;
    var p := d.View();
    if mode != Normal {
      m := HandleResponseState(d, mode, req[1], 0);
      return;
    }
    if !IsCapable(p, false, 0, CERT_CAP) {
      return ErrorMessage(Version(p), UNSUPPORTED_REQUEST, GET_DIGESTS);
    }
    if p.state != Negotiated {
      return ErrorMessage(Version(p), UNEXPECTED_REQUEST, 0);
    }
    if |req| != 4 {
      return ErrorMessage(Version(p), INVALID_REQUEST, 0);
    }
    var ok := d.AppendB(req);
    if !ok {
      return ErrorMessage(Version(p), INVALID_REQUEST, 0);
    }
    if !AnyChainProvisioned(p.local) {
      return ErrorMessage(Version(p), UNSUPPORTED_REQUEST, GET_DIGESTS);
    }
    var mask, digests := BuildDigests(cr, p);
    m := [Version(p), DIGESTS, 0, mask % 0x100] + digests;
    ok := d.AppendB(m);
    if !ok {
      return ErrorMessage(Version(p), INVALID_REQUEST, 0);
    }
    d.SetState(AfterDigests);
  }

  /** The clamps on the length, and the response they lead to. */
  method CutPortion(p: Context, slot: byte, chain: seq<byte>, offset: nat, requested: nat) returns (m: seq<byte>)
    requires offset < |chain| && requested <= 0xFFFF
    ensures m == CertificateResponse(p, slot, chain, offset, requested)
  {
    var length := requested;
    if length > MAX_CERT_BLOCK {
      length := MAX_CERT_BLOCK;
    }
    if offset + length > |chain| {
      length := |chain| - offset;
    }
    var remainder := |chain| - (offset + length);
    m := [Version(p), CERTIFICATE, slot, 0] + Le16(length) + Le16(remainder % 0x1_0000)
      + chain[offset..offset + length];
  }

  /** SpdmGetResponseCertificate. */
  method GetResponseCertificate(d: Device, mode: ResponseState, req: seq<byte>) returns (m: seq<byte>)
    requires d.Valid() && |req| >= 4
    modifies d.Repr
    ensures d.Valid() && Response(d.View(), m) == HandleGetCertificate(old(d.View()), mode, req)
  {
    hide Device.Valid, Device.View, IsCapable, VersionIn, ChainOfSlot, CertificateResponse;
    var p := d.View();
    if mode != Normal {
      m := HandleResponseState(d, mode, req[1], 0);
      return;
    }
    if p.state != Negotiated && p.state != AfterDigests && p.state != AfterCertificate {
      return ErrorMessage(Version(p), UNEXPECTED_REQUEST, 0);
    }
    if !IsCapable(p, false, 0, CERT_CAP) {
      return ErrorMessage(Version(p), UNSUPPORTED_REQUEST, GET_CERTIFICATE);
    }
    if |req| != 8 {
      return ErrorMessage(Version(p), INVALID_REQUEST, 0);
    }
    var ok := d.AppendB(req);
    if !ok {
      return ErrorMessage(Version(p), INVALID_REQUEST, 0);
    }
    var slot := req[2];
    if slot >= p.local.slotCount {
      return ErrorMessage(Version(p), INVALID_REQUEST, 0);
    }
    var chain := ChainOfSlot(p.local, slot);
    if At16(req, 4) >= |chain| {
      return ErrorMessage(Version(p), INVALID_REQUEST, 0);
    }
    m := CutPortion(p, slot, chain, At16(req, 4), At16(req, 6));
    ok := d.AppendB(m);
    if !ok {
      return ErrorMessage(Version(p), INVALID_REQUEST, 0);
    }
    d.SetState(AfterCertificate);
  }

  /** SpdmGetResponseAlgorithm, with the two passes over the struct tables and the eight selections. */
  method GetResponseAlgorithm(d: Device, mode: ResponseState, req: seq<byte>) returns (m: seq<byte>)
    requires d.Valid() && |req| >= 4
    modifies d.Repr
    ensures d.Valid() && Response(d.View(), m) == HandleNegotiateAlgorithms(old(d.View()), mode, req)
  {
    hide Device.Valid, Device.View, VersionIn, TablesScan, OfferIn, SelectAlgorithms, AlgorithmsResponse,
         ConcludeNegotiation;
    var p := d.View();
    if mode != Normal {
      m := HandleResponseState(d, mode, req[1], 0);
      return;
    }
    if p.state != AfterCapabilities {
      return ErrorMessage(Version(p), UNEXPECTED_REQUEST, 0);
    }
    if |req| < NEGOTIATE_HEAD {
      return ErrorMessage(Version(p), INVALID_REQUEST, 0);
    }
    var end := ScanRequest(req);
    if end.None? {
      return ErrorMessage(Version(p), INVALID_REQUEST, 0);
    }
    if end.value != At16(req, 4) {
      return ErrorMessage(Version(p), UNSUPPORTED_REQUEST, req[1]);
    }
    var ok := d.AppendA(req[..end.value]);
    if !ok {
      return ErrorMessage(Version(p), INVALID_REQUEST, 0);
    }
    var offer := ReadOffer(p, req);
    d.SetAlgorithms(offer);
    var selected := Select(p.local.algorithms, offer);
    m := AlgorithmsResponse(Version(p), selected);
    ok := d.AppendA(m);
    if !ok {
      return ErrorMessage(Version(p), INVALID_REQUEST, 0);
    }
    ConcludeOverwrites(p.(messageA := p.messageA + req[..end.value] + m), offer, selected, m);
    m := Conclude(d, offer, selected, m);
  }

  method ScanRequest(req: seq<byte>) returns (r: Option<nat>)
    requires |req| >= NEGOTIATE_HEAD
    ensures r == TablesScan(req, NEGOTIATE_HEAD, 15)
  {
    var start := TablesStart(req, NEGOTIATE_HEAD);
    if |req| < start + 4 * (req[2] as int) {
      return None;
    }
    if req[0] >= VERSION_11 {
      var e, _ := ScanLoop(req, start, req[2], 15);
      return e;
    }
    return Some(start);
  }

  method ReadOffer(p: Context, req: seq<byte>) returns (offer: Algorithms)
    requires |req| >= NEGOTIATE_HEAD && TablesScan(req, NEGOTIATE_HEAD, 15).Some?
    ensures offer == OfferIn(p, req)
  {
    offer := p.algorithms.(measurementSpec := req[6], measurementHash := p.local.algorithms.measurementHash,
                           baseAsym := At32(req, 8), baseHash := At32(req, 12));
    if req[0] >= VERSION_11 {
      var all, _ := LoadLoop(req, TablesStart(req, NEGOTIATE_HEAD), req[2], 15, offer);
      offer := all;
    }
  }

  /** The eight calls of SpdmPrioritizeAlgorithm. */
  method Select(local: Algorithms, offer: Algorithms) returns (r: Algorithms)
    ensures r == SelectAlgorithms(local, offer)
  {
    hide Prioritize;
    var spec := PrioritizeAlgorithm(MEASUREMENT_SPEC_PRIORITY, local.measurementSpec, offer.measurementSpec);
    var measurementHash := PrioritizeAlgorithm(MEASUREMENT_HASH_PRIORITY, local.measurementHash, offer.measurementHash);
    var asym := PrioritizeAlgorithm(ASYM_PRIORITY, local.baseAsym, offer.baseAsym);
    var hash := PrioritizeAlgorithm(HASH_PRIORITY, local.baseHash, offer.baseHash);
    var dhe := PrioritizeAlgorithm(DHE_PRIORITY, local.dhe, offer.dhe);
    var aead := PrioritizeAlgorithm(AEAD_PRIORITY, local.aead, offer.aead);
    var reqAsym := PrioritizeAlgorithm(REQ_ASYM_PRIORITY, local.reqBaseAsym, offer.reqBaseAsym);
    var keySchedule := PrioritizeAlgorithm(KEY_SCHEDULE_PRIORITY, local.keySchedule, offer.keySchedule);
    r := Algorithms(spec % 0x100, measurementHash, asym, hash, Narrow(dhe), Narrow(aead), Narrow(reqAsym),
                    Narrow(keySchedule));
  }

  /** Storing and checking the selections after the response has been cached. */
  method Conclude(d: Device, offer: Algorithms, selected: Algorithms, response: seq<byte>) returns (m: seq<byte>)
    requires d.Valid()
    modifies d.Repr
    ensures d.Valid() && Response(d.View(), m) == ConcludeNegotiation(old(d.View()), offer, selected, response)
  {
    hide Device.Valid, Device.View, VersionIn, BaseAlgorithmsOk, SessionSizesOk, KeyScheduleOk;
    var p := d.View();
    var base := WithBase(offer, selected);
    d.SetAlgorithms(base);
    if !BaseAlgorithmsOk(p, false, base) {
      return ErrorMessage(Version(p), INVALID_REQUEST, 0);
    }
    if Version(p) == VERSION_11 {
      d.SetAlgorithms(selected);
      if !SessionSizesOk(p, false, selected) {
        return ErrorMessage(Version(p), INVALID_REQUEST, 0);
      }
      if !KeyScheduleOk(p, false, selected) {
        return ErrorMessage(Version(p), UNSUPPORTED_REQUEST, NEGOTIATE_ALGORITHMS);
      }
    } else {
      d.SetAlgorithms(WithoutSessionAlgorithms(base));
    }
    d.SetState(Negotiated);
    return response;
  }

  /** What was stored of the offer is overwritten. */
  lemma ConcludeOverwrites(p: Context, offer: Algorithms, selected: Algorithms, m: seq<byte>)
    ensures ConcludeNegotiation(p.(algorithms := offer), offer, selected, m)
              == ConcludeNegotiation(p, offer, selected, m)
  {
    hide And, HashSize, SignatureSize, DhePubKeySize, AeadKeySize, MeasurementHashSize;
  }

  /** SpdmGetResponseChallengeAuth. */
  method GetResponseChallengeAuth(cr: Crypto, d: Device, mode: ResponseState, req: seq<byte>, nonce: Nonce,
                                  measured: Option<seq<byte>>)
      returns (m: seq<byte>)
    requires d.Valid() && |req| >= 4
    modifies d.Repr
    ensures d.Valid() && Response(d.View(), m) == HandleChallenge(cr, old(d.View()), mode, req, nonce, measured)
  {
    hide Device.Valid, Device.View, IsCapable, VersionIn, SummaryHash, ChallengeAuthBody, AsksBasicMutAuth;
    var p := d.View();
    if mode != Normal {
      m := HandleResponseState(d, mode, req[1], 0);
      return;
    }
    if !IsCapable(p, false, 0, CHAL_CAP) {
      return ErrorMessage(Version(p), UNSUPPORTED_REQUEST, CHALLENGE);
    }
    if !p.state.Reached(Negotiated) {
      return ErrorMessage(Version(p), UNEXPECTED_REQUEST, 0);
    }
    if |req| != 36 {
      return ErrorMessage(Version(p), INVALID_REQUEST, 0);
    }
    var ok := d.AppendC(req);
    if !ok {
      return ErrorMessage(Version(p), INVALID_REQUEST, 0);
    }
    var slot := req[2];
    if slot != 0xFF && slot >= p.local.slotCount {
      return ErrorMessage(Version(p), INVALID_REQUEST, 0);
    }
    var summary := SummaryHash(cr, p, req[3], measured);
    if summary.None? {
      return ErrorMessage(Version(p), INVALID_REQUEST, 0);
    }
    m := ChallengeAuthBody(cr, p, slot, nonce, summary.value);
    ok := d.AppendC(m);
    if !ok {
      return ErrorMessage(Version(p), INVALID_REQUEST, 0);
    }
    var m1m2 := CalculateM1M2(d.View(), false, [], []);
    var signature := if m1m2.None? then None
                     else cr.responderSign(p.algorithms.baseAsym, p.algorithms.baseHash, m1m2.value);
    if signature.None? {
      return ErrorMessage(Version(p), UNSUPPORTED_REQUEST, CHALLENGE_AUTH);
    }
    m := m + signature.value;
    if !AsksBasicMutAuth(p) {
      d.SetState(Authenticated);
    }
  }
}
