/** The requester's functions as they run, on the device context they update. */
module RequesterCode {
  import opened Bytes
  import opened Spdm
  import opened Crypto
  import opened ManagedBuffers
  import opened DeviceContext
  import opened Exchanges
  import opened AlgorithmTables
  import opened ConnectionRequester
  import opened CertificateTransfer
  import opened Measurement
  import opened Device

  /** The filter loop over a VERSION response. */
  method FilterVersions(m: seq<byte>, n: nat) returns (vs: seq<u16>)
    requires 6 + 2 * n <= |m|
    ensures vs == CompatibleVersions(m, n)
  {
    vs := [];
    for i := 0 to n
      invariant vs == CompatibleVersions(m, i)
    {
      var v := At16(m, 6 + 2 * i);
      if v / 0x100 == VERSION_11 || v / 0x100 == VERSION_10 {
        vs := vs + [v];
      }
    }
  }

  /** TrySpdmGetVersion. */
  method GetVersion(d: Device, r: Reply) returns (status: Status)
    requires d.Valid()
    modifies d.Repr
    ensures d.Valid() && Step(status, d.View(), ()) == TryGetVersion(old(d.View()), r)
  {
    hide Device.Valid, Device.View, CompatibleVersions;
    d.SetState(NotStarted);
    if r.first.SendFails? {
      return DeviceError;
    }
    d.ResetTranscripts();
    var ok := d.AppendA(GetVersionRequest());
    assert [] + GetVersionRequest() == GetVersionRequest();
    if !r.first.Arrives? || |r.first.bytes| < 4 || r.first.bytes[0] != VERSION_10 {
      return DeviceError;
    }
    var m := r.first.bytes;
    if m[1] == ERROR {
      d.Shrink(MessageA, 4);
      status := d.HandleSimpleError(m[2]);
      return;
    }
    if m[1] != VERSION || |m| < 6 || |m| > 6 + 2 * MAX_VERSIONS || m[5] > MAX_VERSIONS || m[5] == 0
       || |m| < 6 + 2 * m[5] {
      return DeviceError;
    }
    ok := d.AppendA(m[..6 + 2 * (m[5] as int)]);
    var vs := FilterVersions(m, m[5]);
    if vs == [] {
      return DeviceError;
    }
    d.SetVersions(vs);
    d.SetState(AfterVersion);
    return Success;
  }

  /** TrySpdmGetCapabilities. */
  method GetCapabilities(d: Device, r: Reply) returns (status: Status)
    requires d.Valid()
    modifies d.Repr
    ensures d.Valid() && Step(status, d.View(), ()) == TryGetCapabilities(old(d.View()), r)
  {
    hide Device.Valid, Device.View, ResponderFlagsOk, GetCapabilitiesRequest, Version;
    var s := d.View();
    if s.state != AfterVersion {
      return Unsupported;
    }
    var request := GetCapabilitiesRequest(s);
    var version := Version(s);
    if r.first.SendFails? {
      return DeviceError;
    }
    var ok := d.AppendA(request);
    if !ok {
      return SecurityViolation;
    }
    if !r.first.Arrives? || |r.first.bytes| < 4 {
      return DeviceError;
    }
    var m := r.first.bytes;
    if m[1] == ERROR {
      ShrunkAppend(old(d.View()).messageA, request);
      d.Shrink(MessageA, |request|);
      status := d.HandleSimpleError(m[2]);
      return;
    }
    if m[1] != CAPABILITIES || |m| != 12 || m[0] != version || !ResponderFlagsOk(At32(m, 8), m[0]) {
      return DeviceError;
    }
    ok := d.AppendA(m);
    if !ok {
      return SecurityViolation;
    }
    d.SetPeerCapabilities(m[5], At32(m, 8));
    d.SetState(AfterCapabilities);
    return Success;
  }

  /** TrySpdmNegotiateAlgorithms, with the two passes over the struct tables. */
  method NegotiateAlgorithms(d: Device, r: Reply) returns (status: Status)
    requires d.Valid()
    modifies d.Repr
    ensures d.Valid()
    ensures Step(status, d.View(), ()) == TryNegotiateAlgorithms(old(d.View()), r)
  {
    hide Device.Valid, Device.View, NegotiateRequest, AdoptAlgorithms, AlgorithmsReplyEnd;
    var s := d.View();
    if s.state != AfterCapabilities {
      return Unsupported;
    }
    var request := NegotiateRequest(s);
    if r.first.SendFails? {
      return DeviceError;
    }
    var ok := d.AppendA(request);
    if !ok {
      return SecurityViolation;
    }
    if !r.first.Arrives? || |r.first.bytes| < 4 {
      return DeviceError;
    }
    var m := r.first.bytes;
    if m[1] == ERROR {
      ShrunkAppend(s.messageA, request);
      d.Shrink(MessageA, |request|);
      status := d.HandleSimpleError(m[2]);
      return;
    }
    if m[1] != ALGORITHMS {
      return DeviceError;
    }
    var end := ScanAlgorithms(m);
    if end.None? {
      return DeviceError;
    }
    ok := d.AppendA(m[..end.value]);
    if !ok {
      return SecurityViolation;
    }
    status := Adopt(d, m);
  }

  /** The checks on the size of an ALGORITHMS response, with the first pass over its tables. */
  method ScanAlgorithms(m: seq<byte>) returns (r: Option<nat>)
    ensures r == AlgorithmsReplyEnd(m)
  {
    if |m| < ALGORITHMS_HEAD || |m| > ALGORITHMS_MAX || m[32] > 1 || m[33] > 1 {
      return None;
    }
    var end: nat := ALGORITHMS_HEAD + 4 * (m[32] as int) + 4 * (m[33] as int);
    if |m| < end + 4 * (m[2] as int) {
      return None;
    }
    if m[0] >= VERSION_11 {
      var e, _ := ScanLoop(m, end, m[2], 1);
      if e.None? {
        return None;
      }
      end := e.value;
    }
    if end != At16(m, 4) {
      return None;
    }
    return Some(end);
  }

  /** Storing and checking the selections, with the second pass. */
  method Adopt(d: Device, m: seq<byte>) returns (status: Status)
    requires d.Valid() && AlgorithmsReplyEnd(m).Some?
    modifies d.Repr
    ensures d.Valid()
    ensures Step(status, d.View(), ()) == AdoptAlgorithms(old(d.View()), m)
  {
    hide Device.Valid, Device.View, BaseAlgorithmsOk, SessionAlgorithmsOk, AlgorithmsReplyEnd, LoadTables;
    var s := d.View();
    var selected := BaseSelections(s.algorithms, m);
    d.SetAlgorithms(selected);
    if !BaseAlgorithmsOk(s, true, selected) {
      return SecurityViolation;
    }
    if m[0] >= VERSION_11 {
      var all, _ := LoadLoop(m, TablesStart(m, ALGORITHMS_HEAD), m[2], 1, selected);
      selected := all;
      d.SetAlgorithms(selected);
      if !SessionAlgorithmsOk(s, true, selected) {
        return SecurityViolation;
      }
    } else {
      d.SetAlgorithms(WithoutSessionAlgorithms(selected));
    }
    d.SetState(Negotiated);
    return Success;
  }

  /** The size checks on a DIGESTS response. */
  method DigestsSize(s: Context, m: seq<byte>) returns (r: Option<nat>)
    ensures r == DigestsReplySize(s, m)
  {
    hide HashSize;
    if |m| < 4 || |m| > 4 + MAX_HASH * MAX_SLOTS {
      return None;
    }
    var h := HashSize(s.algorithms.baseHash);
    var count := CountSlots(m[3]);
    if count == 0 || |m| < 4 + count * h {
      return None;
    }
    return Some(4 + count * h);
  }

  /** TrySpdmGetDigest. */
  method GetDigests(cr: Crypto, d: Device, r: Reply) returns (status: Status)
    requires d.Valid()
    modifies d.Repr
    ensures d.Valid()
    ensures Step(status, d.View(), ()) == TryGetDigests(cr, old(d.View()), r)
  {
    hide Device.Valid, Device.View, LongOutcome, Shrunk, GetDigestsRequest, IsCapable, DigestsReplySize,
         PeerDigestOk, HashSize;
    var s := d.View();
    if !IsCapable(s, true, 0, CERT_CAP) || s.state != Negotiated {
      return Unsupported;
    }
    d.SetErrorState(NoCapabilities);
    var request := GetDigestsRequest(s);
    if r.first.SendFails? {
      return DeviceError;
    }
    var ok := d.AppendB(request);
    if !ok {
      return SecurityViolation;
    }
    ShrunkAppend(s.messageB, request);
    var o;
    o, status := Receive(d, MessageB, |request|, r, DIGESTS, 4 + MAX_HASH * MAX_SLOTS);
    if status != Success {
      return;
    }
    var m := o.message;
    var size := DigestsSize(s, m);
    if size.None? {
      return DeviceError;
    }
    ok := d.AppendB(m[..size.value]);
    if !ok {
      return SecurityViolation;
    }
    if !PeerDigestOk(cr, s, m[4..4 + HashSize(s.algorithms.baseHash)]) {
      d.SetErrorState(CertificateFailure);
      return SecurityViolation;
    }
    d.SetErrorState(NoError);
    d.SetState(AfterDigests);
    return Success;
  }

  /** TrySpdmChallenge. */
  method Challenge(cr: Crypto, d: Device, slot: byte, hashType: byte, x: ChallengeInput) returns (status: Status)
    requires d.Valid()
    modifies d.Repr
    ensures d.Valid()
    ensures Step(status, d.View(), ()) == TryChallenge(cr, old(d.View()), slot, hashType, x)
  {
    hide Device.Valid, Device.View, LongOutcome, IsCapable, ChallengeRequest, CheckChallengeAuth;
    var s := d.View();
    if !IsCapable(s, true, 0, CHAL_CAP) || !s.state.Reached(Negotiated) {
      return Unsupported;
    }
    if (slot >= MAX_SLOTS && slot != 0xFF) || (slot == 0xFF && s.local.peerChain == []) {
      return InvalidParameter;
    }
    d.SetErrorState(NoCapabilities);
    var request := ChallengeRequest(s, slot, hashType, x.nonce);
    if x.reply.first.SendFails? {
      return DeviceError;
    }
    var ok := d.AppendC(request);
    if !ok {
      return SecurityViolation;
    }
    ShrunkAppend(s.messageC, request);
    var o;
    o, status := Receive(d, MessageC, |request|, x.reply, CHALLENGE_AUTH, CHALLENGE_AUTH_MAX);
    if status != Success {
      return;
    }
    status := CheckAuth(cr, d, slot, hashType, o.message, x.encapOk);
  }

  /** SpdmVerifyChallengeAuthSignature: M1M2 is assembled, then the signature is checked against the peer's chain. */
  method VerifyChallengeSignature(cr: Crypto, s: Context, signature: seq<byte>) returns (ok: bool)
    ensures ok == ChallengeSignatureOk(cr, s, signature)
  {
    var m1m2 := CalculateM1M2(s, false, [], []);
    if m1m2.None? {
      return false;
    }
    var chain := PeerChainData(s);
    if chain.None? {
      return false;
    }
    return cr.verify(s.algorithms.baseAsym, s.algorithms.baseHash, chain.value, m1m2.value, signature);
  }

  /** TrySpdmChallenge from the response on. */
  method CheckAuth(cr: Crypto, d: Device, slot: byte, hashType: byte, m: seq<byte>, encapOk: bool)
      returns (status: Status)
    requires d.Valid() && |m| >= 4
    modifies d.Repr
    ensures d.Valid()
    ensures Step(status, d.View(), ()) == CheckChallengeAuth(cr, old(d.View()), slot, hashType, m, encapOk)
  {
    hide Device.Valid, Device.View, AuthAttributesOk, PeerChainHashOk, ChallengeSignatureOk, IsCapable, HashSize,
         SignatureSize;
    var s := d.View();
    if |m| > CHALLENGE_AUTH_MAX || !AuthAttributesOk(s, slot, m) {
      return DeviceError;
    }
    var l := RequesterAuthLayout(s, hashType);
    var ptr := 4 + l.hash + NONCE_SIZE + l.summary;
    if |m| <= ptr + 2 {
      return DeviceError;
    }
    if !PeerChainHashOk(cr, s, m[4..4 + l.hash]) {
      d.SetErrorState(CertificateFailure);
      return SecurityViolation;
    }
    var opaqueLength: nat := At16(m, ptr);
    if opaqueLength > MAX_OPAQUE {
      return SecurityViolation;
    }
    ptr := ptr + 2 + opaqueLength;
    if |m| < ptr + l.signature {
      return DeviceError;
    }
    var ok := d.AppendC(m[..ptr]);
    if !ok {
      return SecurityViolation;
    }
    var verified := VerifyChallengeSignature(cr, d.View(), m[ptr..ptr + l.signature]);
    if !verified || (m[2] / 0x80 == 1 && !encapOk) {
      d.SetErrorState(CertificateFailure);
      return SecurityViolation;
    }
    d.SetErrorState(NoError);
    d.SetState(Authenticated);
    return Success;
  }

  /** One turn of the certificate loop: the chain read so far is in the local buffer. */
  method CertificateTurn(d: Device, chain: ManagedBuffer, slot: byte, length: u16, r: Reply)
      returns (status: Status, remainder: u16)
    requires d.Valid() && chain.Valid() && chain.data.Length == MAX_MESSAGE_BUFFER
    requires chain !in d.Repr && chain.data !in d.Repr
    modifies d.Repr, chain, chain.data
    ensures d.Valid() && chain.Valid()
    ensures match CertificateRound(old(d.View()), slot, length, old(chain.Contents()), r)
            case Stopped(st, s) => status == st && d.View() == s
            case Completed(s, longer, rest) =>
              status == Success && d.View() == s && chain.Contents() == longer && remainder == rest
  {
    hide Device.Valid, Device.View, LongOutcome, GetCertificateRequest, PortionOk, Shrunk;
    remainder := 0;
    var s := d.View();
    var request := GetCertificateRequest(s, slot, chain.size, length);
    if r.first.SendFails? {
      return DeviceError, 0;
    }
    var ok := d.AppendB(request);
    if !ok {
      return SecurityViolation, 0;
    }
    ShrunkAppend(s.messageB, request);
    var o;
    o, status := Receive(d, MessageB, |request|, r, CERTIFICATE, CERTIFICATE_MAX);
    if status != Success {
      return;
    }
    var m := o.message;
    if !PortionOk(m, slot) {
      return DeviceError, 0;
    }
    PortionSizes(m, slot);
    var portion: nat := At16(m, 4);
    ok := d.AppendB(m[..8 + portion]);
    if !ok {
      return SecurityViolation, 0;
    }
    var appended := chain.Append(Data(m[8..8 + portion]));
    if appended != Success {
      return SecurityViolation, 0;
    }
    d.SetState(AfterCertificate);
    return Success, At16(m, 6);
  }

  lemma PortionSizes(m: seq<byte>, slot: byte)
    requires PortionOk(m, slot)
    ensures |m| >= 8 && 8 + At16(m, 4) <= |m|
  {
  }

  /** TrySpdmGetCertificate; `overruns` tells whether its final copy runs over the end of PeerUsedCertChainBuffer. */
  method GetCertificate(cr: Crypto, d: Device, slot: byte, length: u16, capacity: Option<nat>, peer: nat -> Reply)
      returns (status: Status, overruns: bool)
    requires d.Valid()
    modifies d.Repr
    ensures d.Valid()
    ensures Step(status, d.View(), ()) == TryGetCertificate(cr, old(d.View()), slot, length, capacity, peer)
    ensures overruns <==> Overruns(cr, old(d.View()), slot, length, peer)
  {
    hide Device.Valid, Device.View, IsCapable, CertificateRound, PeerChainAccepted, LongOutcome;
    var s := d.View();
    if !MayGetCertificate(s) {
      return Unsupported, false;
    }
    if slot >= MAX_SLOTS {
      return InvalidParameter, false;
    }
    d.SetErrorState(NoCapabilities);
    ghost var s0 := d.View();
    var block := BlockLength(length);
    var chain := new ManagedBuffer(MAX_MESSAGE_BUFFER);
    var i: nat := 0;
    var remainder: u16 := 1;
    while remainder != 0
      invariant d.Valid() && chain.Valid() && chain.data.Length == MAX_MESSAGE_BUFFER
      invariant chain !in d.Repr && chain.data !in d.Repr
      invariant TryGetCertificate(cr, s, slot, length, capacity, peer) ==
                  if remainder == 0 then FinishCertificate(cr, d.View(), chain.Contents(), capacity)
                  else CertificateLoop(cr, d.View(), slot, block, chain.Contents(), capacity, peer, i)
      invariant TransferAccepted(cr, s0, slot, block, [], peer, 0) <==>
                  if remainder == 0 then PeerChainAccepted(cr, d.View(), chain.Contents())
                  else TransferAccepted(cr, d.View(), slot, block, chain.Contents(), peer, i)
      invariant PortionsTotal(s0, slot, block, [], peer, 0) ==
                  |chain.Contents()| + if remainder == 0 then 0
                                       else PortionsTotal(d.View(), slot, block, chain.Contents(), peer, i)
      decreases if remainder == 0 then 0 else 1, MAX_MESSAGE_BUFFER - |d.View().messageB|
    {
      status, remainder := CertificateTurn(d, chain, slot, block, peer(i));
      if status != Success {
        return status, false;
      }
      i := i + 1;
    }
    status, overruns := FinishChain(cr, d, chain.Contents(), capacity);
  }

  /** The assembled chain is checked and stored; `overruns` when it is longer than its home. */
  method FinishChain(cr: Crypto, d: Device, chain: seq<byte>, capacity: Option<nat>)
      returns (status: Status, overruns: bool)
    requires d.Valid()
    modifies d.Repr
    ensures d.Valid()
    ensures Step(status, d.View(), ()) == FinishCertificate(cr, old(d.View()), chain, capacity)
    ensures overruns <==> PeerChainAccepted(cr, old(d.View()), chain) && |chain| > MAX_CERT_CHAIN
  {
    hide Device.Valid, Device.View, PeerChainAccepted;
    if !PeerChainAccepted(cr, d.View(), chain) {
      d.SetErrorState(CertificateFailure);
      return SecurityViolation, false;
    }
    d.SetPeerChain(chain);
    overruns := |chain| > MAX_CERT_CHAIN;
    d.SetErrorState(NoError);
    if capacity.Some? && capacity.value < |chain| {
      return BufferTooSmall, overruns;
    }
    return Success, overruns;
  }

  /** TrySpdmGetMeasurement. */
  method GetMeasurement(cr: Crypto, d: Device, call: MeasurementCall, x: MeasurementInput)
      returns (status: Status, out: Measured)
    requires d.Valid()
    modifies d.Repr
    ensures d.Valid()
    ensures Step(status, d.View(), out) == TryGetMeasurement(cr, old(d.View()), call, x)
  {
    hide Device.Valid, Device.View, LongOutcome, IsCapable, MayMeasure, SlotParamOk, GetMeasurementsRequest,
         CheckRecord, CacheResponse, Deliver;
    out := Measured(0, []);
    var s := d.View();
    if !MayMeasure(s, call) {
      return Unsupported, out;
    }
    if !SlotParamOk(s, call) {
      return InvalidParameter, out;
    }
    d.SetErrorState(NoCapabilities);
    if IsCapable(s, true, 0, MEAS_CAP_NO_SIG) && call.attribute != 0 {
      return InvalidParameter, out;
    }
    var request := GetMeasurementsRequest(s, call, x.nonce);
    if x.reply.first.SendFails? {
      return DeviceError, out;
    }
    var ok := d.AppendM(request);
    if !ok {
      return SecurityViolation, out;
    }
    ShrunkAppend(s.messageM, request);
    var o;
    o, status := Receive(d, MessageM, |request|, x.reply, MEASUREMENTS, MEASUREMENTS_MAX);
    if status != Success {
      if o.WrongCode? {
        d.ResetM();
      }
      return;
    }
    var length: Option<nat>;
    length := CheckSizes(d, call, o.message);
    if length.None? {
      return DeviceError, out;
    }
    status := CacheMeasurement(cr, d, call, o.message, length.value);
    if status != Success {
      return;
    }
    status, out := HandOver(d, call, o.message, length.value);
  }

  /** The checks on the number of blocks and the length of the record. */
  method CheckSizes(d: Device, call: MeasurementCall, m: seq<byte>) returns (length: Option<nat>)
    requires d.Valid()
    modifies d.Repr
    ensures d.Valid()
    ensures match CheckRecord(old(d.View()), call, m)
            case Bad(s) => length.None? && d.View() == s
            case Good(n) => length == Some(n) && d.View() == old(d.View())
  {
    hide Device.Valid, Device.View, RecordLength;
    if |m| < 8 || |m| > MEASUREMENTS_MAX {
      return None;
    }
    if call.operation == TOTAL_NUMBER {
      if m[4] != 0 {
        d.ResetM();
        return None;
      }
    } else if call.operation == ALL_MEASUREMENTS {
      if m[4] == 0 {
        return None;
      }
    } else if m[4] != 1 {
      return None;
    }
    var n := RecordLength(m);
    if call.operation == TOTAL_NUMBER {
      if n != 0 {
        d.ResetM();
        return None;
      }
    } else {
      if |m| < 8 + n || n >= MAX_RECORD {
        return None;
      }
    }
    return Some(n);
  }

  /** Nonce, opaque data and signature, and what becomes of message M. */
  method CacheMeasurement(cr: Crypto, d: Device, call: MeasurementCall, m: seq<byte>, n: nat) returns (status: Status)
    requires d.Valid() && 8 + n <= |m|
    modifies d.Repr
    ensures d.Valid() && (status, d.View()) == CacheResponse(cr, old(d.View()), call, m, n)
  {
    hide Device.Valid, Device.View, SignatureSize, MeasurementSignatureOk, Version;
    var s := d.View();
    var ptr := 8 + n;
    if call.attribute == GENERATE_SIGNATURE {
      var signatureSize := SignatureSize(s.algorithms.baseAsym);
      if |m| < ptr + NONCE_SIZE + 2 {
        d.ResetM();
        return DeviceError;
      }
      if Version(s) == VERSION_11 && m[3] != call.slot {
        d.ResetM();
        return SecurityViolation;
      }
      ptr := ptr + NONCE_SIZE;
      var opaqueLength: nat := At16(m, ptr);
      if opaqueLength > MAX_OPAQUE {
        return SecurityViolation;
      }
      ptr := ptr + 2 + opaqueLength;
      if |m| < ptr + signatureSize {
        return DeviceError;
      }
      var ok := d.AppendM(m[..ptr]);
      if !ok {
        d.ResetM();
        return SecurityViolation;
      }
      if !MeasurementSignatureOk(cr, d.View(), m[ptr..ptr + signatureSize]) {
        d.SetErrorState(MeasurementAuthFailure);
        d.ResetM();
        return SecurityViolation;
      }
      d.ResetM();
    } else {
      if |m| < ptr + 2 {
        return DeviceError;
      }
      var opaqueLength: nat := At16(m, ptr);
      if opaqueLength > MAX_OPAQUE {
        return SecurityViolation;
      }
      ptr := ptr + 2 + opaqueLength;
      if |m| < ptr {
        return DeviceError;
      }
      var ok := d.AppendM(m[..ptr]);
      if !ok {
        d.ResetM();
        return SecurityViolation;
      }
    }
    return Success;
  }

  /** The number of blocks, and the record after the walk over its blocks. */
  method HandOver(d: Device, call: MeasurementCall, m: seq<byte>, n: nat) returns (status: Status, out: Measured)
    requires d.Valid() && 8 + n <= |m| && (call.operation != TOTAL_NUMBER ==> n < MAX_RECORD)
    modifies d.Repr
    ensures d.Valid() && Step(status, d.View(), out) == Deliver(old(d.View()), call, m, n)
  {
    hide Device.Valid, Device.View, RecordOk;
    if call.operation == TOTAL_NUMBER {
      out := Measured(m[2], []);
      if m[2] == 0xFF || m[2] == 0 {
        return DeviceError, out;
      }
    } else {
      out := Measured(m[4], []);
      if call.capacity < n {
        return BufferTooSmall, out;
      }
      if n < 4 {
        return DeviceError, out;
      }
      var s := d.View();
      var ok, _, _ := WalkBlocks(m, n, s.algorithms.measurementSpec, m[4]);
      if !ok {
        return DeviceError, out;
      }
      out := Measured(m[4], m[8..8 + n]);
    }
    d.SetErrorState(NoError);
    return Success, out;
  }
}
