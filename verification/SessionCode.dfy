/** The requester's session functions as they run, on the device context and its session table. */
module SessionCode {
  import opened Bytes
  import opened Spdm
  import opened Crypto
  import opened ManagedBuffers
  import opened DeviceContext
  import opened Exchanges
  import opened ConnectionRequester
  import opened SessionTable
  import opened TranscriptHash
  import opened SessionRequester
  import opened Device

  /** Slot i, and no other, carries the ID. */
  ghost predicate Only(sessions: seq<Session>, i: nat, id: u32): (r: bool)
    ensures r ==> |sessions| == MAX_SESSIONS && i < MAX_SESSIONS && sessions[i].id == id
  {
    && |sessions| == MAX_SESSIONS && i < MAX_SESSIONS && id != INVALID_SESSION_ID && sessions[i].id == id
    && forall j :: 0 <= j < MAX_SESSIONS && j != i ==> sessions[j].id != id
  }

  lemma OnlyIsFound(sessions: seq<Session>, i: nat, id: u32)
    requires Only(sessions, i, id)
    ensures FindSession(sessions, id) == Some(i)
  {
    var found := FindFrom(sessions, id, 0);
    assert sessions[i].id == id;
  }

  lemma OnlyStays(sessions: seq<Session>, i: nat, id: u32, x: Session)
    requires Only(sessions, i, id) && x.id == id
    ensures Only(sessions[i := x], i, id) && FindSession(sessions[i := x], id) == Some(i)
  {
    OnlyIsFound(sessions[i := x], i, id);
  }

  /** The KEY_EXCHANGE session in slot i has just been assigned, and no error has been noted yet. */
  ghost predicate Pending(s: Context, i: nat, id: u32) {
    Only(s.sessions, i, id) && s.latestSessionId == id && s.errorState == NoCapabilities
  }

  /** SpdmFreeSessionId on the failing exits of KEY_EXCHANGE. */
  method Abandon(d: Device, i: nat, id: u32)
    requires d.Valid() && Only(d.View().sessions, i, id)
    modifies d.Repr
    ensures d.Valid()
    ensures d.View() == old(d.View()).(sessions := old(d.View()).sessions[i := FreshSession(INVALID_SESSION_ID, false)])
  {
    hide Device.Valid, Device.View, FindSession;
    OnlyIsFound(d.View().sessions, i, id);
    d.FreeSession(id);
  }

  /** The HMAC gate and what follows it. */
  method AcceptMac(cr: Crypto, d: Device, i: nat, id: u32, param: byte, mac: seq<byte>) returns (status: Status)
    requires d.Valid() && Pending(d.View(), i, id)
    modifies d.Repr
    ensures d.Valid()
    ensures Step(status, d.View(), KexOut(id, param, 1, 1)) ==
              Settled(old(d.View()), i, id, param, JudgeMac(cr, old(d.View()), old(d.View()).sessions[i], mac))
  {
    hide Device.Valid, Device.View, InTheClear, TH1Data, Only;
    var s := d.View();
    var x := s.sessions[i];
    if InTheClear(s) {
      x := x.(inTheClear := true);
    } else {
      if !VerifyKeyExchangeHmac(cr, s, x, mac) {
        Abandon(d, i, id);
        d.SetErrorState(KeyExchangeFailure);
        return SecurityViolation;
      }
      var ok := d.AppendK(i, mac);
      if !ok {
        Abandon(d, i, id);
        return SecurityViolation;
      }
      var evidence := AcceptedMac(s.algorithms.baseHash, x.keys.responseFinished, TH1Data(cr, s, x, true).value, mac);
      x := d.View().sessions[i].(inTheClear := false, macs := x.macs + [evidence]);
    }
    d.SetSession(i, x.(phase := Handshaking));
    d.SetErrorState(NoError);
    return Success;
  }

  /**
   The signature gate, the shared secret and the handshake keys. `freed` counts frees of the Diffie-Hellman context.
   */
  method AcceptSignature(cr: Crypto, d: Device, i: nat, id: u32, param: byte, share: seq<byte>, peerShare: seq<byte>,
                         signature: seq<byte>, mac: seq<byte>) returns (status: Status, freed: nat)
    requires d.Valid() && Pending(d.View(), i, id)
    modifies d.Repr
    ensures d.Valid()
    ensures Step(status, d.View(), KexOut(id, param, 1, freed)) ==
              Settled(old(d.View()), i, id, param,
                      JudgeSignature(cr, old(d.View()), old(d.View()).sessions[i], share, peerShare, signature, mac))
  {
    hide Device.Valid, Device.View, TH1Data, JudgeMac, FindSession, Only;
    var s := d.View();
    var x := s.sessions[i];
    if !VerifyKeyExchangeSignature(cr, s, x, signature) {
      Abandon(d, i, id);
      freed := 1;
      d.SetErrorState(KeyExchangeFailure);
      return SecurityViolation, freed;
    }
    var evidence := AcceptedSignature(s.algorithms.baseAsym, s.algorithms.baseHash, PeerChainData(s).value,
                                      TH1Data(cr, s, x, true).value, signature);
    var ok := d.AppendK(i, signature);
    if !ok {
      Abandon(d, i, id);
      freed := 1;
      return SecurityViolation, freed;
    }
    var secret := cr.dheSecret(s.algorithms.dhe, share, peerShare);
    freed := 1;
    if secret.None? {
      OnlyStays(s.sessions, i, id, d.View().sessions[i]);
      Abandon(d, i, id);
      return SecurityViolation, freed;
    }
    x := d.View().sessions[i].(secret := secret.value, signatures := x.signatures + [evidence]);
    OnlyStays(s.sessions, i, id, x);
    d.SetSession(i, x);
    assert d.View().sessions == s.sessions[i := x];
    var th1 := TH1(cr, s, x, true);
    if th1.None? {
      Abandon(d, i, id);
      return SecurityViolation, freed;
    }
    var keys := cr.handshakeKeys(s.algorithms.baseHash, secret.value, th1.value);
    if keys.None? {
      Abandon(d, i, id);
      return SecurityViolation, freed;
    }
    OnlyStays(s.sessions, i, id, x.(keys := keys.value));
    d.SetSession(i, x.(keys := keys.value));
    assert d.View().sessions == s.sessions[i := x.(keys := keys.value)];
    MacIgnoresTable(cr, s, d.View(), x.(keys := keys.value), mac);
    status := AcceptMac(cr, d, i, id, param, mac);
  }

  lemma MacIgnoresTable(cr: Crypto, s: Context, t: Context, x: Session, mac: seq<byte>)
    requires t == s.(sessions := t.sessions, latestSessionId := t.latestSessionId)
    ensures JudgeMac(cr, s, x, mac) == JudgeMac(cr, t, x, mac)
  {
    hide And;
    assert TH1Data(cr, s, x, true) == TH1Data(cr, t, x, true);
  }

  lemma SignatureIgnoresTable(cr: Crypto, s: Context, t: Context, x: Session, share: seq<byte>, peerShare: seq<byte>,
                              signature: seq<byte>, mac: seq<byte>)
    requires t == s.(sessions := t.sessions, latestSessionId := t.latestSessionId)
    ensures JudgeSignature(cr, s, x, share, peerShare, signature, mac)
              == JudgeSignature(cr, t, x, share, peerShare, signature, mac)
  {
    hide And, JudgeMac, TH1Data, PeerChainData;
    assert forall y: Session :: TH1Data(cr, s, y, true) == TH1Data(cr, t, y, true) by {
      forall y: Session ensures TH1Data(cr, s, y, true) == TH1Data(cr, t, y, true) { TH1IgnoresTable(cr, s, t, y); }
    }
    assert PeerChainData(s) == PeerChainData(t) by { ChainIgnoresTable(s, t); }
    assert forall y: Session :: JudgeMac(cr, s, y, mac) == JudgeMac(cr, t, y, mac) by {
      forall y: Session
        ensures JudgeMac(cr, s, y, mac) == JudgeMac(cr, t, y, mac) { MacIgnoresTable(cr, s, t, y, mac); }
    }
  }

  lemma ChainIgnoresTable(s: Context, t: Context)
    requires t == s.(sessions := t.sessions, latestSessionId := t.latestSessionId)
    ensures PeerChainData(s) == PeerChainData(t)
  {
  }

  lemma TH1IgnoresTable(cr: Crypto, s: Context, t: Context, x: Session)
    requires t == s.(sessions := t.sessions, latestSessionId := t.latestSessionId)
    ensures TH1Data(cr, s, x, true) == TH1Data(cr, t, x, true)
  {
  }

  /** From the assigned session with the request in K to the end of TrySpdmSendReceiveKeyExchange. */
  method AcceptResponse(cr: Crypto, d: Device, i: nat, id: u32, hashType: byte, share: seq<byte>, m: seq<byte>)
      returns (status: Status, freed: nat)
    requires d.Valid() && Pending(d.View(), i, id) && |m| >= 40
    modifies d.Repr
    ensures d.Valid()
    ensures Step(status, d.View(), KexOut(id, m[7], 1, freed)) ==
              Settled(old(d.View()), i, id, m[7],
                      JudgeKeyExchange(cr, old(d.View()), old(d.View()).sessions[i], hashType, share, m))
  {
    hide Device.Valid, Device.View, KexLayoutOf, JudgeSignature, VersionSelectionOk, FindSession, Only;
    var s := d.View();
    var l := KexLayoutOf(s, hashType);
    if |m| < 42 + l.share + l.summary + l.signature + l.mac {
      Abandon(d, i, id);
      return DeviceError, 1;
    }
    var ptr := 40 + l.share + l.summary;
    var opaqueLength: nat := At16(m, ptr);
    if opaqueLength > MAX_OPAQUE {
      assert s.sessions[i := s.sessions[i]] == s.sessions;
      return SecurityViolation, 0;
    }
    ptr := ptr + 2;
    if |m| < ptr + opaqueLength + l.signature + l.mac {
      Abandon(d, i, id);
      return DeviceError, 1;
    }
    if !VersionSelectionOk(s.local, m[ptr..ptr + opaqueLength]) {
      Abandon(d, i, id);
      return Unsupported, 1;
    }
    ptr := ptr + opaqueLength;
    var ok := d.AppendK(i, m[..ptr]);
    if !ok {
      Abandon(d, i, id);
      return SecurityViolation, 1;
    }
    var x := d.View().sessions[i].(mutAuthRequested := m[6]);
    OnlyStays(s.sessions, i, id, x);
    d.SetSession(i, x);
    assert d.View().sessions == s.sessions[i := x];
    SignatureIgnoresTable(cr, s, d.View(), x, share, m[40..40 + l.share], m[ptr..ptr + l.signature],
                          m[ptr + l.signature..ptr + l.signature + l.mac]);
    status, freed := AcceptSignature(cr, d, i, id, m[7], share, m[40..40 + l.share], m[ptr..ptr + l.signature],
                                     m[ptr + l.signature..ptr + l.signature + l.mac]);
  }

  lemma ResponseIgnoresTable(cr: Crypto, s: Context, t: Context, x: Session, hashType: byte, share: seq<byte>,
                             m: seq<byte>)
    requires t == s.(sessions := t.sessions, latestSessionId := t.latestSessionId)
    ensures JudgeKeyExchange(cr, s, x, hashType, share, m) == JudgeKeyExchange(cr, t, x, hashType, share, m)
  {
    hide And, JudgeSignature, VersionSelectionOk, DhePubKeySize, SignatureSize, HashSize, KexLayoutOf;
    assert KexLayoutOf(s, hashType) == KexLayoutOf(t, hashType) by { LayoutIgnoresTable(s, t, hashType); }
    var l := KexLayoutOf(s, hashType);
    var fixed := 42 + l.share + l.summary;
    if |m| >= fixed + l.signature + l.mac {
      var end: nat := fixed + At16(m, fixed - 2) as int;
      if |m| >= end + l.signature + l.mac {
        SignatureIgnoresTable(cr, s, t, x.(messageK := x.messageK + m[..end], mutAuthRequested := m[6]), share,
                              m[40..40 + l.share],
                              m[end..end + l.signature], m[end + l.signature..end + l.signature + l.mac]);
      }
    }
  }

  lemma LayoutIgnoresTable(s: Context, t: Context, hashType: byte)
    requires t == s.(sessions := t.sessions, latestSessionId := t.latestSessionId)
    ensures KexLayoutOf(s, hashType) == KexLayoutOf(t, hashType)
  {
    hide And, DhePubKeySize, SignatureSize, HashSize;
  }

  /** TrySpdmSendReceiveKeyExchange. */
  method KeyExchange(cr: Crypto, d: Device, hashType: byte, slot: byte, x: KexInput)
      returns (status: Status, out: KexOut)
    requires d.Valid()
    modifies d.Repr
    ensures d.Valid()
    ensures Step(status, d.View(), out) == TryKeyExchange(cr, old(d.View()), hashType, slot, x)
  {
    hide Device.Valid, Device.View, LongOutcome, MayExchangeKeys, KexParametersOk, KeyExchangeRequest, ReqSlotOk,
         JudgeKeyExchange, AllocateRequesterHalf, FindSession, AssignSlot;
    var s := d.View();
    if !MayExchangeKeys(s) {
      return Unsupported, KexOut(0, 0, 0, 0);
    }
    if !KexParametersOk(s, slot) {
      return InvalidParameter, KexOut(0, 0, 0, 0);
    }
    d.SetErrorState(NoCapabilities);
    var half := d.AllocateHalf();
    var share := cr.dheShare(s.algorithms.dhe, x.seed);
    var request := KeyExchangeRequest(s, hashType, slot, half, x.random, share);
    out := KexOut(0, 0, 1, 1);
    if x.reply.first.SendFails? {
      return DeviceError, out;
    }
    var o;
    o, status := Receive(d, NoTranscript, 0, x.reply, KEY_EXCHANGE_RSP, KEY_EXCHANGE_MAX);
    if status != Success {
      return;
    }
    var m := o.message;
    if |m| < 40 || |m| > KEY_EXCHANGE_MAX || !ReqSlotOk(d.View(), m) {
      return DeviceError, out;
    }
    var id := SessionIdOf(half, At16(m, 4));
    var r := d.AssignSession(id, false);
    if r.None? {
      return DeviceError, KexOut(id, m[7], 1, 1);
    }
    var i := r.value;
    var freed;
    status, freed := Judge(cr, d, i, id, hashType, request, share, m);
    SettledOverwrites(cr, s.(errorState := NoCapabilities), i, id, hashType, request, share, m);
    return status, KexOut(id, m[7], 1, freed);
  }

  /** The request goes into K of the assigned session; then the response is judged. */
  method Judge(cr: Crypto, d: Device, i: nat, id: u32, hashType: byte, request: seq<byte>, share: seq<byte>,
               m: seq<byte>)
      returns (status: Status, freed: nat)
    requires d.Valid() && Pending(d.View(), i, id) && |m| >= 40 && d.View().sessions[i] == FreshSession(id, false)
    modifies d.Repr
    ensures d.Valid()
    ensures Step(status, d.View(), KexOut(id, m[7], 1, freed)) ==
              Settled(old(d.View()), i, id, m[7], VerdictOn(cr, old(d.View()), id, hashType, request, share, m))
  {
    hide Device.Valid, Device.View, JudgeKeyExchange, FindSession;
    var s := d.View();
    var ok := d.AppendK(i, request);
    if !ok {
      Abandon(d, i, id);
      return SecurityViolation, 1;
    }
    OnlyStays(s.sessions, i, id, d.View().sessions[i]);
    ResponseIgnoresTable(cr, s, d.View(), d.View().sessions[i], hashType, share, m);
    status, freed := AcceptResponse(cr, d, i, id, hashType, share, m);
  }

  /** The verdict does not depend on the slot just assigned, and settling overwrites it. */
  lemma SettledOverwrites(cr: Crypto, s: Context, i: nat, id: u32, hashType: byte, request: seq<byte>, share: seq<byte>,
                          m: seq<byte>)
    requires |m| >= 40 && i < MAX_SESSIONS
    ensures var t := s.(sessions := s.sessions[i := FreshSession(id, false)], latestSessionId := id);
            Settled(t, i, id, m[7], VerdictOn(cr, t, id, hashType, request, share, m)) ==
              Settled(s, i, id, m[7], VerdictOn(cr, s, id, hashType, request, share, m))
  {
    hide JudgeKeyExchange;
    var t := s.(sessions := s.sessions[i := FreshSession(id, false)], latestSessionId := id);
    var k := Cached(MAX_MESSAGE_BUFFER, [], request);
    if k.Some? {
      ResponseIgnoresTable(cr, s, t, FreshSession(id, false).(messageK := k.value), hashType, share, m);
    }
    var v := VerdictOn(cr, s, id, hashType, request, share, m);
    var x := if v.Rejected? then FreshSession(INVALID_SESSION_ID, false) else v.session;
    assert t.sessions[i := x] == s.sessions[i := x];
  }

  // ---------- FINISH ----------

  /** The MAC of the FINISH request. */
  method AppendFinishMac(cr: Crypto, d: Device, i: nat) returns (ok: bool)
    requires d.Valid() && i < MAX_SESSIONS
    modifies d.Repr
    ensures d.Valid()
    ensures var b := BuildFinishMac(cr, old(d.View()), old(d.View()).sessions[i]);
            ok == b.complete && d.View() == old(d.View()).(sessions := old(d.View()).sessions[i := b.session])
  {
    hide Device.Valid, Device.View, TH2Data;
    var s := d.View();
    assert s.sessions[i := s.sessions[i]] == s.sessions;
    var mac := GenerateFinishRequestHmac(cr, s, s.sessions[i]);
    if mac.None? {
      return false;
    }
    ok := d.AppendF(i, mac.value);
  }

  /** The FINISH request, cached in F field by field. */
  method BuildRequest(cr: Crypto, d: Device, i: nat, header: seq<byte>) returns (ok: bool)
    requires d.Valid() && i < MAX_SESSIONS
    modifies d.Repr
    ensures d.Valid()
    ensures var b := BuildFinish(cr, old(d.View()), old(d.View()).sessions[i], header);
            ok == b.complete && d.View() == old(d.View()).(sessions := old(d.View()).sessions[i := b.session])
  {
    hide Device.Valid, Device.View, TH2DataWith, BuildFinishMac;
    var s := d.View();
    var x := s.sessions[i];
    assert s.sessions[i := x] == s.sessions;
    ok := d.AppendF(i, header);
    if !ok {
      return;
    }
    x := d.View().sessions[i];
    if x.mutAuthRequested != 0 {
      TH2IgnoresTable(cr, s, d.View(), x);
      var signature := GenerateFinishSignature(cr, d.View(), x);
      if signature.None? {
        return false;
      }
      ok := d.AppendF(i, signature.value);
      if !ok {
        return;
      }
    }
    x := d.View().sessions[i];
    FinishMacIgnoresTable(cr, s, d.View(), x);
    ok := AppendFinishMac(cr, d, i);
  }

  lemma TH2IgnoresTable(cr: Crypto, s: Context, t: Context, x: Session)
    requires t == s.(sessions := t.sessions)
    ensures forall mutual: bool :: TH2DataWith(cr, s, x, true, mutual) == TH2DataWith(cr, t, x, true, mutual)
  {
  }

  lemma FinishMacIgnoresTable(cr: Crypto, s: Context, t: Context, x: Session)
    requires t == s.(sessions := t.sessions)
    ensures BuildFinishMac(cr, s, x) == BuildFinishMac(cr, t, x)
  {
    hide TH2DataWith;
    TH2IgnoresTable(cr, s, t, x);
  }

  /** TH2 and the data keys. */
  method ConcludeSession(cr: Crypto, d: Device, i: nat) returns (status: Status)
    requires d.Valid() && i < MAX_SESSIONS
    modifies d.Repr
    ensures d.Valid() && Step(status, d.View(), ()) == Stored(old(d.View()), i,
                                                              Conclude(cr, old(d.View()), old(d.View()).sessions[i]))
  {
    hide Device.Valid, Device.View, TH2Data;
    var s := d.View();
    var x := s.sessions[i];
    assert s.sessions[i := x] == s.sessions;
    var th2 := TH2(cr, s, x, true);
    if th2.None? || !cr.dataKeys(s.algorithms.baseHash, x.secret, th2.value) {
      return SecurityViolation;
    }
    d.SetSession(i, x.(phase := Established));
    d.SetErrorState(NoError);
    return Success;
  }

  lemma ConcludeIgnoresTable(cr: Crypto, s: Context, t: Context, x: Session)
    requires t == s.(sessions := t.sessions)
    ensures Conclude(cr, s, x) == Conclude(cr, t, x)
  {
    hide TH2DataWith;
    TH2IgnoresTable(cr, s, t, x);
  }

  /** The FINISH_RSP, its HMAC in the clear, and the end of the handshake. */
  method AcceptFinish(cr: Crypto, d: Device, i: nat, m: seq<byte>) returns (status: Status)
    requires d.Valid() && i < MAX_SESSIONS && |m| >= 4
    modifies d.Repr
    ensures d.Valid()
            && Step(status, d.View(), ())
                 == Stored(old(d.View()), i, JudgeFinish(cr, old(d.View()), old(d.View()).sessions[i], m))
  {
    hide Device.Valid, Device.View, InTheClear, TH2Data, Conclude, HashSize;
    var s := d.View();
    var x := s.sessions[i];
    assert s.sessions[i := x] == s.sessions;
    var macSize := if InTheClear(s) then HashSize(s.algorithms.baseHash) else 0;
    if |m| != 4 + macSize {
      return DeviceError;
    }
    var ok := d.AppendF(i, m[..4]);
    if !ok {
      return SecurityViolation;
    }
    x := x.(messageF := x.messageF + m[..4]);
    if InTheClear(s) {
      if !VerifyFinishResponseHmac(cr, s, x, m[4..]) {
        return SecurityViolation;
      }
      ok := d.AppendF(i, m[4..]);
      if !ok {
        return SecurityViolation;
      }
      var evidence := AcceptedMac(s.algorithms.baseHash, x.keys.responseFinished, TH2Data(cr, s, x, true).value,
                                  m[4..]);
      x := x.(messageF := x.messageF + m[4..], macs := x.macs + [evidence]);
      d.SetSession(i, x);
    }
    ConcludeIgnoresTable(cr, s, d.View(), x);
    assert d.View() == s.(sessions := s.sessions[i := x]);
    status := ConcludeSession(cr, d, i);
  }

  /** TrySpdmSendReceiveFinish. */
  method Finish(cr: Crypto, d: Device, id: u32, param: byte, reply: Reply) returns (status: Status)
    requires d.Valid()
    modifies d.Repr
    ensures d.Valid() && Step(status, d.View(), ()) == TryFinish(cr, old(d.View()), id, param, reply)
  {
    hide Device.Valid, Device.View, MayExchangeKeys, FindSession, FinishSlotOk, ChainOfSlot, FinishFrom;
    var s := d.View();
    var r := d.FindSlot(id);
    if !MayExchangeKeys(s) || r.None? {
      return Unsupported;
    }
    var i := r.value;
    var x := s.sessions[i];
    if x.phase != Handshaking {
      return Unsupported;
    }
    if !FinishSlotOk(s, x, param) {
      return InvalidParameter;
    }
    d.SetErrorState(NoCapabilities);
    if x.mutAuthRequested != 0 {
      d.SetLocalChain(ChainOfSlot(s.local, if param == 0xFF then s.local.provisionedSlot else param));
    }
    status := ExchangeFinish(cr, d, i, param, reply);
  }

  /** Building the request, sending it and taking the response. */
  method ExchangeFinish(cr: Crypto, d: Device, i: nat, param: byte, reply: Reply) returns (status: Status)
    requires d.Valid() && i < MAX_SESSIONS && d.View().errorState == NoCapabilities
    modifies d.Repr
    ensures d.Valid()
            && Step(status, d.View(), ()) == FinishFrom(cr, old(d.View()), i, old(d.View()).sessions[i], param, reply)
  {
    hide Device.Valid, Device.View, LongOutcome, BuildFinish, JudgeFinish, FinishRequestSize, FinishHeader;
    var s := d.View();
    var x := s.sessions[i];
    var ok := BuildRequest(cr, d, i, FinishHeader(x, param));
    if !ok {
      return SecurityViolation;
    }
    if reply.first.SendFails? {
      return DeviceError;
    }
    var o;
    o, status := Receive(d, MessageF(i), FinishRequestSize(s, x), reply, FINISH_RSP, FINISH_MAX);
    if status != Success {
      return;
    }
    JudgeFinishIgnoresTable(cr, s, d.View(), d.View().sessions[i], o.message);
    status := AcceptFinish(cr, d, i, o.message);
  }

  lemma JudgeFinishIgnoresTable(cr: Crypto, s: Context, t: Context, x: Session, m: seq<byte>)
    requires t == s.(sessions := t.sessions) && |m| >= 4
    ensures JudgeFinish(cr, s, x, m) == JudgeFinish(cr, t, x, m)
  {
    hide And, TH2DataWith, HashSize, Conclude;
    assert InTheClear(s) == InTheClear(t);
    var b := x.(messageF := x.messageF + m[..4]);
    TH2IgnoresTable(cr, s, t, b);
    ConcludeIgnoresTable(cr, s, t, b);
    if TH2Data(cr, s, b, true).Some? {
      var evidence := AcceptedMac(s.algorithms.baseHash, x.keys.responseFinished, TH2Data(cr, s, b, true).value,
                                  m[4..]);
      ConcludeIgnoresTable(cr, s, t, b.(messageF := b.messageF + m[4..], macs := b.macs + [evidence]));
    }
  }

  // ---------- END_SESSION ----------

  /** TrySpdmSendReceiveEndSession. */
  method EndSession(d: Device, id: u32, reply: Reply) returns (status: Status)
    requires d.Valid()
    modifies d.Repr
    ensures d.Valid() && Step(status, d.View(), ()) == TryEndSession(old(d.View()), id, reply)
  {
    hide Device.Valid, Device.View, LongOutcome, FindSession;
    var s := d.View();
    var r := d.FindSlot(id);
    if !s.state.Reached(Negotiated) || r.None? || s.sessions[r.value].phase != Established {
      return Unsupported;
    }
    d.SetErrorState(NoCapabilities);
    if reply.first.SendFails? {
      return DeviceError;
    }
    var o;
    o, status := Receive(d, NoTranscript, 0, reply, END_SESSION_ACK, 8);
    if status != Success {
      return;
    }
    if |o.message| != 4 {
      return DeviceError;
    }
    d.FreeSession(id);
    d.SetErrorState(NoError);
    return Success;
  }

  // ---------- PSK_EXCHANGE and PSK_FINISH ----------

  /** From the assigned session with the request in K to the handshaking session. */
  method AcceptPsk(cr: Crypto, d: Device, i: nat, id: u32, hashType: byte, m: seq<byte>) returns (status: Status)
    requires d.Valid() && Pending(d.View(), i, id) && |m| >= 12
    modifies d.Repr
    ensures d.Valid()
    ensures var s := old(d.View());
            match JudgePskExchange(cr, s, s.sessions[i], hashType, m)
            case PskRejected(st, error) =>
              status == st && st != Success
              && d.View()
                   == s.(sessions := s.sessions[i := FreshSession(INVALID_SESSION_ID, false)], errorState := error)
            case PskAccepted(y) =>
              status == Success && d.View() == s.(sessions := s.sessions[i := y], errorState := NoError)
  {
    hide Device.Valid, Device.View, HashSize, SummaryHashSize, VersionSelectionOk, JudgePskMac, FindSession;
    var s := d.View();
    var h := HashSize(s.algorithms.baseHash);
    var opaqueLength: nat := At16(m, 10);
    var ptr: nat := 12 + SummaryHashSize(s, true, hashType) + At16(m, 8) as int;
    if |m| < ptr + opaqueLength + h {
      Abandon(d, i, id);
      return DeviceError;
    }
    if !VersionSelectionOk(s.local, m[ptr..ptr + opaqueLength]) {
      Abandon(d, i, id);
      return Unsupported;
    }
    ptr := ptr + opaqueLength;
    var ok := d.AppendK(i, m[..ptr]);
    if !ok {
      Abandon(d, i, id);
      return SecurityViolation;
    }
    OnlyStays(s.sessions, i, id, d.View().sessions[i]);
    PskMacIgnoresTable(cr, s, d.View(), d.View().sessions[i], m[ptr..ptr + h]);
    status := AcceptPskMac(cr, d, i, id, m[ptr..ptr + h]);
  }

  /** The handshake keys and the HMAC gate. */
  method AcceptPskMac(cr: Crypto, d: Device, i: nat, id: u32, mac: seq<byte>) returns (status: Status)
    requires d.Valid() && Pending(d.View(), i, id)
    modifies d.Repr
    ensures d.Valid()
    ensures var s := old(d.View());
            match JudgePskMac(cr, s, s.sessions[i], mac)
            case PskRejected(st, error) =>
              status == st && st != Success
              && d.View()
                   == s.(sessions := s.sessions[i := FreshSession(INVALID_SESSION_ID, false)], errorState := error)
            case PskAccepted(y) =>
              status == Success && d.View() == s.(sessions := s.sessions[i := y], errorState := NoError)
  {
    hide Device.Valid, Device.View, TH1Data, FindSession;
    var s := d.View();
    var x := s.sessions[i];
    var th1 := TH1(cr, s, x, true);
    if th1.None? {
      Abandon(d, i, id);
      return SecurityViolation;
    }
    var secret := cr.psk(s.local.pskHint);
    var keys := cr.handshakeKeys(s.algorithms.baseHash, secret, th1.value);
    if keys.None? {
      Abandon(d, i, id);
      return SecurityViolation;
    }
    x := x.(secret := secret, keys := keys.value);
    if !VerifyPskExchangeHmac(cr, s, x, mac) {
      Abandon(d, i, id);
      d.SetErrorState(KeyExchangeFailure);
      return SecurityViolation;
    }
    var ok := d.AppendK(i, mac);
    if !ok {
      Abandon(d, i, id);
      return SecurityViolation;
    }
    PskTranscript(cr, s, x, s.sessions[i]);
    var evidence := AcceptedMac(s.algorithms.baseHash, keys.value.responseFinished, TH1Data(cr, s, x, true).value, mac);
    d.SetSession(i, x.(messageK := x.messageK + mac, phase := Handshaking, macs := x.macs + [evidence]));
    d.SetErrorState(NoError);
    return Success;
  }

  /** TH1 is taken over K, whatever the keys. */
  lemma PskTranscript(cr: Crypto, s: Context, x: Session, y: Session)
    requires x == y.(secret := x.secret, keys := x.keys)
    ensures TH1Data(cr, s, x, true) == TH1Data(cr, s, y, true)
  {
  }

  lemma PskMacIgnoresTable(cr: Crypto, s: Context, t: Context, x: Session, mac: seq<byte>)
    requires t == s.(sessions := t.sessions, latestSessionId := t.latestSessionId)
    ensures JudgePskMac(cr, s, x, mac) == JudgePskMac(cr, t, x, mac)
  {
    hide TH1Data;
    forall y: Session ensures TH1Data(cr, s, y, true) == TH1Data(cr, t, y, true) { TH1IgnoresTable(cr, s, t, y); }
  }

  lemma PskIgnoresTable(cr: Crypto, s: Context, t: Context, x: Session, hashType: byte, m: seq<byte>)
    requires t == s.(sessions := t.sessions, latestSessionId := t.latestSessionId) && |m| >= 12
    ensures JudgePskExchange(cr, s, x, hashType, m) == JudgePskExchange(cr, t, x, hashType, m)
  {
    hide And, HashSize, VersionSelectionOk, JudgePskMac;
    var h := HashSize(s.algorithms.baseHash);
    assert SummaryHashSize(s, true, hashType) == SummaryHashSize(t, true, hashType);
    var end: nat := 12 + SummaryHashSize(s, true, hashType) + At16(m, 8) as int + At16(m, 10) as int;
    if |m| >= end + h {
      PskMacIgnoresTable(cr, s, t, x.(messageK := x.messageK + m[..end]), m[end..end + h]);
    }
  }

  /** TrySpdmSendReceivePskExchange. */
  method PskExchange(cr: Crypto, d: Device, hashType: byte, x: PskInput) returns (status: Status, id: u32)
    requires d.Valid()
    modifies d.Repr
    ensures d.Valid() && Step(status, d.View(), id) == TryPskExchange(cr, old(d.View()), hashType, x)
  {
    hide Device.Valid, Device.View, LongOutcome, MayExchangePsk, PskAlgorithmsOk, PskExchangeRequest,
         AllocateRequesterHalf, HandlePskResponse;
    id := 0;
    var s := d.View();
    if !MayExchangePsk(s) {
      return Unsupported, 0;
    }
    if !PskAlgorithmsOk(s) {
      return DeviceError, 0;
    }
    d.SetErrorState(NoCapabilities);
    var half := d.AllocateHalf();
    var request := PskExchangeRequest(s, hashType, half, x.random);
    if x.reply.first.SendFails? {
      return DeviceError, 0;
    }
    var o;
    o, status := Receive(d, NoTranscript, 0, x.reply, PSK_EXCHANGE_RSP, PSK_EXCHANGE_MAX);
    if status != Success {
      return;
    }
    status, id := StartPskSession(cr, d, hashType, half, request, o.message);
  }

  /** TrySpdmSendReceivePskExchange from the response on. */
  method StartPskSession(cr: Crypto, d: Device, hashType: byte, half: u16, request: seq<byte>, m: seq<byte>)
      returns (status: Status, id: u32)
    requires d.Valid() && d.View().errorState == NoCapabilities
    modifies d.Repr
    ensures d.Valid() && Step(status, d.View(), id) == HandlePskResponse(cr, old(d.View()), hashType, half, request, m)
  {
    hide Device.Valid, Device.View, NeedsPskFinish, JudgePskExchange, Conclude, AssignSlot, FindSession;
    var s := d.View();
    if |m| < 12 || |m| > PSK_EXCHANGE_MAX {
      return DeviceError, 0;
    }
    id := SessionIdOf(half, At16(m, 4));
    var r := d.AssignSession(id, true);
    if r.None? {
      return DeviceError, id;
    }
    var i := r.value;
    var ok := d.AppendK(i, request);
    if !ok {
      return SecurityViolation, id;
    }
    PskIgnoresTable(cr, s, d.View(), d.View().sessions[i], hashType, m);
    status := AcceptPsk(cr, d, i, id, hashType, m);
    if status != Success {
      return;
    }
    if !NeedsPskFinish(s) {
      PskConcludeIgnores(cr, s, d.View(), d.View().sessions[i]);
      status := ConcludeSession(cr, d, i);
    }
  }

  lemma PskConcludeIgnores(cr: Crypto, s: Context, t: Context, x: Session)
    requires t == s.(sessions := t.sessions, latestSessionId := t.latestSessionId, errorState := t.errorState)
    ensures Conclude(cr, s, x) == Conclude(cr, t, x)
  {
    assert TH2Data(cr, s, x, true) == TH2Data(cr, t, x, true);
  }

  /** The PSK_FINISH request, cached in F field by field. */
  method BuildPskRequest(cr: Crypto, d: Device, i: nat, stale: Stale) returns (ok: bool)
    requires d.Valid() && i < MAX_SESSIONS
    modifies d.Repr
    ensures d.Valid()
    ensures var b := BuildPskFinish(cr, old(d.View()), old(d.View()).sessions[i], stale);
            ok == b.complete && d.View() == old(d.View()).(sessions := old(d.View()).sessions[i := b.session])
  {
    hide Device.Valid, Device.View, HashSize, FinishData;
    var s := d.View();
    assert s.sessions[i := s.sessions[i]] == s.sessions;
    ok := d.AppendF(i, [VERSION_11, PSK_FINISH, 0, 0]);
    if !ok {
      return;
    }
    var x := d.View().sessions[i];
    var mac := GeneratePskFinishHmac(cr, s, x);
    ok := d.AppendF(i, if mac.Some? then mac.value else stale[..HashSize(s.algorithms.baseHash)]);
  }

  /** TrySpdmSendReceivePskFinish. */
  method PskFinish(cr: Crypto, d: Device, id: u32, input: PskFinishInput) returns (status: Status)
    requires d.Valid()
    modifies d.Repr
    ensures d.Valid() && Step(status, d.View(), ()) == TryPskFinish(cr, old(d.View()), id, input)
  {
    hide Device.Valid, Device.View, MayExchangePsk, FindSession, PskFinishFrom;
    var s := d.View();
    var r := d.FindSlot(id);
    if !MayExchangePsk(s) || r.None? || s.sessions[r.value].phase != Handshaking {
      return Unsupported;
    }
    d.SetErrorState(NoCapabilities);
    status := ExchangePskFinish(cr, d, r.value, input);
  }

  /** Building the request, sending it and taking the response. */
  method ExchangePskFinish(cr: Crypto, d: Device, i: nat, input: PskFinishInput) returns (status: Status)
    requires d.Valid() && i < MAX_SESSIONS && d.View().errorState == NoCapabilities
    modifies d.Repr
    ensures d.Valid() && Step(status, d.View(), ()) == PskFinishFrom(cr, old(d.View()), i, input)
  {
    hide Device.Valid, Device.View, LongOutcome, BuildPskFinish, JudgePskFinish, HashSize;
    var s := d.View();
    var ok := BuildPskRequest(cr, d, i, input.stale);
    if !ok {
      return SecurityViolation;
    }
    if input.reply.first.SendFails? {
      return DeviceError;
    }
    var o;
    o, status := Receive(d, MessageF(i), 4 + HashSize(s.algorithms.baseHash), input.reply, PSK_FINISH_RSP, 8);
    if status != Success {
      return;
    }
    PskJudgeIgnoresTable(cr, s, d.View(), d.View().sessions[i], o.message);
    status := AcceptPskFinish(cr, d, i, o.message);
  }

  /** The PSK_FINISH_RSP and the end of the handshake. */
  method AcceptPskFinish(cr: Crypto, d: Device, i: nat, m: seq<byte>) returns (status: Status)
    requires d.Valid() && i < MAX_SESSIONS
    modifies d.Repr
    ensures d.Valid()
            && Step(status, d.View(), ())
                 == Stored(old(d.View()), i, JudgePskFinish(cr, old(d.View()), old(d.View()).sessions[i], m))
  {
    hide Device.Valid, Device.View, Conclude;
    var s := d.View();
    assert s.sessions[i := s.sessions[i]] == s.sessions;
    if |m| != 4 {
      return DeviceError;
    }
    var ok := d.AppendF(i, m);
    if !ok {
      return SecurityViolation;
    }
    ConcludeIgnoresTable(cr, s, d.View(), d.View().sessions[i]);
    status := ConcludeSession(cr, d, i);
  }

  lemma PskJudgeIgnoresTable(cr: Crypto, s: Context, t: Context, x: Session, m: seq<byte>)
    requires t == s.(sessions := t.sessions)
    ensures JudgePskFinish(cr, s, x, m) == JudgePskFinish(cr, t, x, m)
  {
    hide Conclude;
    ConcludeIgnoresTable(cr, s, t, x.(messageF := x.messageF + m));
  }
}
