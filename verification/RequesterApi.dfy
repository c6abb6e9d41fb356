/** The retry loops and the calls an application makes (SpdmRequesterLibCommunication.c). */
module RequesterApi {
  import opened Bytes
  import opened Spdm
  import opened Crypto
  import opened ManagedBuffers
  import opened DeviceContext
  import opened Exchanges
  import opened Retrying
  import opened ConnectionRequester
  import opened CertificateTransfer
  import opened Measurement
  import opened SessionTable
  import opened SessionRequester
  import opened SessionCalls
  import opened RetryTransparency
  import opened ConnectionRuns
  import opened Device
  import RequesterCode
  import SessionCode

  // The retry loop around each request.

  method GetVersionRetrying(d: Device, replies: nat -> Reply) returns (status: Status)
    requires d.Valid()
    modifies d.Repr
    ensures d.Valid()
            && Step(status, d.View(), ()) == Retry(VersionAttempt(), old(d.View()), replies, 0, d.local.retryTimes)
  {
    hide Device.Valid, Device.View, TryGetVersion;
    var retry: nat, i: nat := d.local.retryTimes, 0;
    status := RequesterCode.GetVersion(d, replies(0));
    while status == NoResponse && retry != 0
      invariant d.Valid() && i + retry == d.local.retryTimes
      invariant Retried(VersionAttempt(), old(d.View()), replies, i, retry, Step(status, d.View(), ()))
      decreases retry
    {
      retry, i := retry - 1, i + 1;
      status := RequesterCode.GetVersion(d, replies(i));
    }
  }

  method GetCapabilitiesRetrying(d: Device, replies: nat -> Reply) returns (status: Status)
    requires d.Valid()
    modifies d.Repr
    ensures d.Valid()
            && Step(status, d.View(), ()) == Retry(CapabilitiesAttempt(), old(d.View()), replies, 0, d.local.retryTimes)
  {
    hide Device.Valid, Device.View, TryGetCapabilities;
    var retry: nat, i: nat := d.local.retryTimes, 0;
    status := RequesterCode.GetCapabilities(d, replies(0));
    while status == NoResponse && retry != 0
      invariant d.Valid() && i + retry == d.local.retryTimes
      invariant Retried(CapabilitiesAttempt(), old(d.View()), replies, i, retry, Step(status, d.View(), ()))
      decreases retry
    {
      retry, i := retry - 1, i + 1;
      status := RequesterCode.GetCapabilities(d, replies(i));
    }
  }

  method NegotiateRetrying(d: Device, replies: nat -> Reply) returns (status: Status)
    requires d.Valid()
    modifies d.Repr
    ensures d.Valid()
            && Step(status, d.View(), ()) == Retry(AlgorithmsAttempt(), old(d.View()), replies, 0, d.local.retryTimes)
  {
    hide Device.Valid, Device.View, TryNegotiateAlgorithms;
    var retry: nat, i: nat := d.local.retryTimes, 0;
    status := RequesterCode.NegotiateAlgorithms(d, replies(0));
    while status == NoResponse && retry != 0
      invariant d.Valid() && i + retry == d.local.retryTimes
      invariant Retried(AlgorithmsAttempt(), old(d.View()), replies, i, retry, Step(status, d.View(), ()))
      decreases retry
    {
      retry, i := retry - 1, i + 1;
      status := RequesterCode.NegotiateAlgorithms(d, replies(i));
    }
  }

  method GetDigestsRetrying(cr: Crypto, d: Device, replies: nat -> Reply) returns (status: Status)
    requires d.Valid()
    modifies d.Repr
    ensures d.Valid()
            && Step(status, d.View(), ()) == Retry(DigestsAttempt(cr), old(d.View()), replies, 0, d.local.retryTimes)
  {
    hide Device.Valid, Device.View, TryGetDigests;
    var retry: nat, i: nat := d.local.retryTimes, 0;
    status := RequesterCode.GetDigests(cr, d, replies(0));
    while status == NoResponse && retry != 0
      invariant d.Valid() && i + retry == d.local.retryTimes
      invariant Retried(DigestsAttempt(cr), old(d.View()), replies, i, retry, Step(status, d.View(), ()))
      decreases retry
    {
      retry, i := retry - 1, i + 1;
      status := RequesterCode.GetDigests(cr, d, replies(i));
    }
  }

  method GetCertificateRetrying(cr: Crypto, d: Device, slot: byte, length: u16, capacity: Option<nat>,
                                peers: nat -> nat -> Reply) returns (status: Status)
    requires d.Valid()
    modifies d.Repr
    ensures d.Valid() && Step(status, d.View(), ()) == Retry(CertificateAttempt(cr, slot, length, capacity),
                                                             old(d.View()), peers, 0, d.local.retryTimes)
  {
    hide Device.Valid, Device.View, TryGetCertificate;
    var retry: nat, i: nat := d.local.retryTimes, 0;
    var overruns;
    status, overruns := RequesterCode.GetCertificate(cr, d, slot, length, capacity, peers(0));
    while status == NoResponse && retry != 0
      invariant d.Valid() && i + retry == d.local.retryTimes
      invariant Retried(CertificateAttempt(cr, slot, length, capacity), old(d.View()), peers, i, retry,
                        Step(status, d.View(), ()))
      decreases retry
    {
      retry, i := retry - 1, i + 1;
      status, overruns := RequesterCode.GetCertificate(cr, d, slot, length, capacity, peers(i));
    }
  }

  method ChallengeRetrying(cr: Crypto, d: Device, slot: byte, hashType: byte, inputs: nat -> ChallengeInput)
      returns (status: Status)
    requires d.Valid()
    modifies d.Repr
    ensures d.Valid() && Step(status, d.View(), ()) == Retry(ChallengeAttempt(cr, slot, hashType), old(d.View()),
                                                             inputs, 0, d.local.retryTimes)
  {
    hide Device.Valid, Device.View, TryChallenge;
    var retry: nat, i: nat := d.local.retryTimes, 0;
    status := RequesterCode.Challenge(cr, d, slot, hashType, inputs(0));
    while status == NoResponse && retry != 0
      invariant d.Valid() && i + retry == d.local.retryTimes
      invariant Retried(ChallengeAttempt(cr, slot, hashType), old(d.View()), inputs, i, retry,
                        Step(status, d.View(), ()))
      decreases retry
    {
      retry, i := retry - 1, i + 1;
      status := RequesterCode.Challenge(cr, d, slot, hashType, inputs(i));
    }
  }

  method GetMeasurementRetrying(cr: Crypto, d: Device, call: MeasurementCall, inputs: nat -> MeasurementInput)
      returns (status: Status, out: Measured)
    requires d.Valid()
    modifies d.Repr
    ensures d.Valid() && Step(status, d.View(), out) == Retry(MeasurementAttempt(cr, call), old(d.View()), inputs, 0,
                                                              d.local.retryTimes)
  {
    hide Device.Valid, Device.View, TryGetMeasurement;
    var retry: nat, i: nat := d.local.retryTimes, 0;
    status, out := RequesterCode.GetMeasurement(cr, d, call, inputs(0));
    while status == NoResponse && retry != 0
      invariant d.Valid() && i + retry == d.local.retryTimes
      invariant Retried(MeasurementAttempt(cr, call), old(d.View()), inputs, i, retry, Step(status, d.View(), out))
      decreases retry
    {
      retry, i := retry - 1, i + 1;
      status, out := RequesterCode.GetMeasurement(cr, d, call, inputs(i));
    }
  }

  method KeyExchangeRetrying(cr: Crypto, d: Device, hashType: byte, slot: byte, inputs: nat -> KexInput)
      returns (status: Status, out: KexOut)
    requires d.Valid()
    modifies d.Repr
    ensures d.Valid() && Step(status, d.View(), out) == Retry(KexAttempt(cr, hashType, slot), old(d.View()), inputs, 0,
                                                              d.local.retryTimes)
  {
    hide Device.Valid, Device.View, TryKeyExchange;
    var retry: nat, i: nat := d.local.retryTimes, 0;
    status, out := SessionCode.KeyExchange(cr, d, hashType, slot, inputs(0));
    while status == NoResponse && retry != 0
      invariant d.Valid() && i + retry == d.local.retryTimes
      invariant Retried(KexAttempt(cr, hashType, slot), old(d.View()), inputs, i, retry, Step(status, d.View(), out))
      decreases retry
    {
      retry, i := retry - 1, i + 1;
      status, out := SessionCode.KeyExchange(cr, d, hashType, slot, inputs(i));
    }
  }

  method FinishRetrying(cr: Crypto, d: Device, id: u32, param: byte, replies: nat -> Reply) returns (status: Status)
    requires d.Valid()
    modifies d.Repr
    ensures d.Valid() && Step(status, d.View(), ()) == Retry(FinishAttempt(cr, id, param), old(d.View()), replies, 0,
                                                             d.local.retryTimes)
  {
    hide Device.Valid, Device.View, TryFinish;
    var retry: nat, i: nat := d.local.retryTimes, 0;
    status := SessionCode.Finish(cr, d, id, param, replies(0));
    while status == NoResponse && retry != 0
      invariant d.Valid() && i + retry == d.local.retryTimes
      invariant Retried(FinishAttempt(cr, id, param), old(d.View()), replies, i, retry, Step(status, d.View(), ()))
      decreases retry
    {
      retry, i := retry - 1, i + 1;
      status := SessionCode.Finish(cr, d, id, param, replies(i));
    }
  }

  method PskExchangeRetrying(cr: Crypto, d: Device, hashType: byte, inputs: nat -> PskInput)
      returns (status: Status, out: u32)
    requires d.Valid()
    modifies d.Repr
    ensures d.Valid() && Step(status, d.View(), out) == Retry(PskAttempt(cr, hashType), old(d.View()), inputs, 0,
                                                              d.local.retryTimes)
  {
    hide Device.Valid, Device.View, TryPskExchange;
    var retry: nat, i: nat := d.local.retryTimes, 0;
    status, out := SessionCode.PskExchange(cr, d, hashType, inputs(0));
    while status == NoResponse && retry != 0
      invariant d.Valid() && i + retry == d.local.retryTimes
      invariant Retried(PskAttempt(cr, hashType), old(d.View()), inputs, i, retry, Step(status, d.View(), out))
      decreases retry
    {
      retry, i := retry - 1, i + 1;
      status, out := SessionCode.PskExchange(cr, d, hashType, inputs(i));
    }
  }

  method PskFinishRetrying(cr: Crypto, d: Device, id: u32, replies: nat -> PskFinishInput) returns (status: Status)
    requires d.Valid()
    modifies d.Repr
    ensures d.Valid() && Step(status, d.View(), ()) == Retry(PskFinishAttempt(cr, id), old(d.View()), replies, 0,
                                                             d.local.retryTimes)
  {
    hide Device.Valid, Device.View, TryPskFinish;
    var retry: nat, i: nat := d.local.retryTimes, 0;
    status := SessionCode.PskFinish(cr, d, id, replies(0));
    while status == NoResponse && retry != 0
      invariant d.Valid() && i + retry == d.local.retryTimes
      invariant Retried(PskFinishAttempt(cr, id), old(d.View()), replies, i, retry, Step(status, d.View(), ()))
      decreases retry
    {
      retry, i := retry - 1, i + 1;
      status := SessionCode.PskFinish(cr, d, id, replies(i));
    }
  }

  method EndSessionRetrying(d: Device, id: u32, replies: nat -> Reply) returns (status: Status)
    requires d.Valid()
    modifies d.Repr
    ensures d.Valid()
            && Step(status, d.View(), ()) == Retry(EndAttempt(id), old(d.View()), replies, 0, d.local.retryTimes)
  {
    hide Device.Valid, Device.View, TryEndSession;
    var retry: nat, i: nat := d.local.retryTimes, 0;
    status := SessionCode.EndSession(d, id, replies(0));
    while status == NoResponse && retry != 0
      invariant d.Valid() && i + retry == d.local.retryTimes
      invariant Retried(EndAttempt(id), old(d.View()), replies, i, retry, Step(status, d.View(), ()))
      decreases retry
    {
      retry, i := retry - 1, i + 1;
      status := SessionCode.EndSession(d, id, replies(i));
    }
  }

  /** SpdmInitConnection. */
  method Connect(d: Device, versionOnly: bool, version: nat -> Reply, capabilities: nat -> Reply,
                 algorithms: nat -> Reply) returns (status: Status)
    requires d.Valid()
    modifies d.Repr
    ensures d.Valid()
            && (status, d.View()) == InitConnection(old(d.View()), versionOnly, version, capabilities, algorithms)
  {
    hide Device.Valid, Device.View, Retry;
    status := GetVersionRetrying(d, version);
    if status != Success || versionOnly {
      return;
    }
    status := GetCapabilitiesRetrying(d, capabilities);
    if status != Success {
      return;
    }
    status := NegotiateRetrying(d, algorithms);
  }

  /** SpdmStartSession. */
  method StartSession(cr: Crypto, d: Device, usePsk: bool, hashType: byte, slot: byte, x: StartInput)
      returns (status: Status, id: u32)
    requires d.Valid()
    modifies d.Repr
    ensures d.Valid()
    ensures Step(status, d.View(), id) == if usePsk then StartPsk(cr, old(d.View()), hashType, x)
                                          else StartDhe(cr, old(d.View()), hashType, slot, x)
  {
    hide Device.Valid, Device.View, Retry, FindSession, MutualAuth, NeedsPskFinish;
    if !usePsk {
      var out;
      status, out := KeyExchangeRetrying(cr, d, hashType, slot, x.kex);
      id := out.sessionId;
      if status != Success {
        return;
      }
      var found := d.FindSlot(id);
      if found.None? {
        return Unsupported, id;
      }
      var step := MutualAuth(d.View().sessions[found.value].mutAuthRequested, out.reqSlotParam, x.encapStatus,
                             x.encapSlot);
      if step.GiveUp? {
        return step.status, id;
      }
      status := FinishRetrying(cr, d, id, step.param, x.finish);
    } else {
      status, id := PskExchangeRetrying(cr, d, hashType, x.psk);
      if status != Success {
        return;
      }
      if NeedsPskFinish(d.View()) {
        status := PskFinishRetrying(cr, d, id, x.pskFinish);
      }
    }
  }

  /** Any run of session starts and stops on the device, as Calls describes it. */
  method RunCalls(cr: Crypto, d: Device, calls: seq<SessionCall>)
    requires d.Valid()
    modifies d.Repr
    ensures d.Valid() && d.View() == Calls(cr, old(d.View()), calls)
    decreases |calls|
  {
    hide Device.Valid, Device.View, Retry, StartDhe, StartPsk;
    if calls == [] {
      return;
    }
    match calls[0] {
      case Start(usePsk, hashType, slot, x) =>
        var _, _ := StartSession(cr, d, usePsk, hashType, slot, x);
      case Stop(id, replies) =>
        var _ := EndSessionRetrying(d, id, replies);
    }
    RunCalls(cr, d, calls[1..]);
  }
}
