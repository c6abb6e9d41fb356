/** The responder's KEY_EXCHANGE and FINISH handlers (SpdmResponderLibKeyExchange.c, SpdmResponderLibFinish.c). */
module SessionResponder {
  import opened Bytes
  import opened Spdm
  import opened Crypto
  import opened ManagedBuffers
  import opened DeviceContext
  import opened ConnectionRequester
  import opened ConnectionResponder
  import opened SessionTable
  import opened TranscriptHash
  import opened SessionRequester

  /** What the handlers read of the encapsulation context and of the mutual-authentication setting. */
  datatype EncapState = EncapState(errorFree: bool, reqSlot: byte, mutAuthRequested: byte)

  /** What one KEY_EXCHANGE_RSP draws at random, measures and reads from outside. */
  datatype KexEnv = KexEnv(random: Nonce, seed: seq<byte>, measured: Option<seq<byte>>, encap: EncapState)

  predicate ResponderInTheClear(p: Context) {
    IsCapable(p, false, HANDSHAKE_IN_THE_CLEAR_CAP, HANDSHAKE_IN_THE_CLEAR_CAP)
  }

  /** SpdmProcessOpaqueDataSupportedVersionData. */
  predicate SupportedVersionOk(l: Local, m: seq<byte>) {
    l.securedVersionCount == 0
    || (|m| == 20 && m[..15] == [0x46, 0x54, 0x4D, 0x44, 1, 1, 0, 0, 0, 0, 5, 0, 1, 1, 1] && m[16] == 0x11)
  }

  /** SpdmBuildOpaqueDataVersionSelectionData. */
  function VersionSelectionOpaque(l: Local): (m: seq<byte>)
    ensures |m| == if l.securedVersionCount == 0 then 0 else 16
  {
    if l.securedVersionCount == 0 then []
    else [0x46, 0x54, 0x4D, 0x44, 1, 1, 0, 0, 0, 0, 4, 0, 1, 0, 0x00, 0x11]
  }

  /** The mutual authentication the responder asks for. */
  function MutAuthAsked(p: Context, e: EncapState): byte {
    if IsCapable(p, false, MUT_AUTH_CAP, MUT_AUTH_CAP)
       && (IsCapable(p, false, CERT_CAP, 0) || IsCapable(p, false, PUB_KEY_ID_CAP, 0))
    then e.mutAuthRequested else 0
  }

  /** KEY_EXCHANGE_RSP up to and including the opaque data, which is the part that gets signed. */
  function KexBody(p: Context, half: u16, e: KexEnv, share: seq<byte>, summary: seq<byte>): (m: seq<byte>)
    ensures |m| == 42 + |share| + |summary| + |VersionSelectionOpaque(p.local)|
  {
    var asked := MutAuthAsked(p, e.encap);
    [VERSION_11, KEY_EXCHANGE_RSP, 0, 0] + Le16(half) + [asked, if asked != 0 then e.encap.reqSlot % 0x10 else 0]
    + e.random + share + summary + Le16(|VersionSelectionOpaque(p.local)|) + VersionSelectionOpaque(p.local)
  }

  /** How the part that owns a session ends. */
  datatype KexAnswer = Refuse(code: byte, data: byte) | Install(session: Session, message: seq<byte>)

  /** The signature, the handshake keys and the HMAC, appended to K one after the other. */
  function SignAnswer(cr: Crypto, p: Context, session: Session, body: seq<byte>): KexAnswer {
    var signature := GenerateKeyExchangeSignature(cr, p, session);
    if signature.None? then Refuse(UNSUPPORTED_REQUEST, KEY_EXCHANGE_RSP)
    else
      var k := Cached(MAX_MESSAGE_BUFFER, session.messageK, signature.value);
      if k.None? then Refuse(INVALID_REQUEST, 0)
      else
        var session2 := session.(messageK := k.value);
        var th1 := TH1(cr, p, session2, false);
        var keys := if th1.None? then None else cr.handshakeKeys(p.algorithms.baseHash, session.secret, th1.value);
        if keys.None? then Refuse(INVALID_REQUEST, 0)
        else MacAnswer(cr, p, session2.(keys := keys.value), body + signature.value)
  }

  function MacAnswer(cr: Crypto, p: Context, session: Session, message: seq<byte>): KexAnswer {
    if ResponderInTheClear(p) then Install(session.(phase := Handshaking), message)
    else
      var mac := GenerateKeyExchangeHmac(cr, p, session);
      if mac.None? then Refuse(UNSUPPORTED_REQUEST, KEY_EXCHANGE_RSP)
      else
        var k := Cached(MAX_MESSAGE_BUFFER, session.messageK, mac.value);
        if k.None? then Refuse(INVALID_REQUEST, 0)
        else Install(session.(messageK := k.value, phase := Handshaking), message + mac.value)
  }

  /** The assigned session from the request on; every refusal frees it. */
  function OpenSession(cr: Crypto, p: Context, i: nat, id: u32, req: seq<byte>, e: KexEnv): Response
    requires i < MAX_SESSIONS && |req| >= 40 + DhePubKeySize(p.algorithms.dhe)
  {
    var p1 := p.(latestSessionId := id);
    var freed := p1.(sessions := p.sessions[i := FreshSession(INVALID_SESSION_ID, false)]);
    var k0 := Cached(MAX_MESSAGE_BUFFER, [], req);
    var d := DhePubKeySize(p.algorithms.dhe);
    var share := cr.dheShare(p.algorithms.dhe, e.seed);
    var secret := cr.dheSecret(p.algorithms.dhe, share, req[40..40 + d]);
    var summary := SummaryHash(cr, p, req[2], e.measured);
    if k0.None? || secret.None? || summary.None? then Fail(freed, INVALID_REQUEST, 0)
    else
      var chain := ChainOfSlot(p.local, if req[3] == 0xFF then p.local.provisionedSlot else req[3]);
      var body := KexBody(p, ResponderHalf(id), e, share, summary.value);
      var k1 := Cached(MAX_MESSAGE_BUFFER, k0.value, body);
      if k1.None? then Fail(freed.(localChain := chain), INVALID_REQUEST, 0)
      else
        var session := FreshSession(id, false).(messageK := k1.value, secret := secret.value,
                                                mutAuthRequested := MutAuthAsked(p, e.encap));
        match SignAnswer(cr, p1.(localChain := chain), session, body)
        case Refuse(code, data) => Fail(freed.(localChain := chain), code, data)
        case Install(x, m) => Response(p1.(localChain := chain, sessions := p.sessions[i := x]), m)
  }

  /** SpdmGetResponseKeyExchange. */
  function HandleKeyExchange(cr: Crypto, p: Context, mode: ResponseState, req: seq<byte>, e: KexEnv): Response
    requires |req| >= 4
  {
    var d := DhePubKeySize(p.algorithms.dhe);
    if mode != Normal then NotNow(p, mode, req[1], 0)
    else if !IsCapable(p, false, KEY_EX_CAP, KEY_EX_CAP) then Fail(p, UNSUPPORTED_REQUEST, KEY_EXCHANGE)
    else if !p.state.Reached(Negotiated) then Fail(p, UNEXPECTED_REQUEST, 0)
    else if IsCapable(p, false, MUT_AUTH_CAP, MUT_AUTH_CAP) && !e.encap.errorFree then Fail(p, INVALID_REQUEST, 0)
    else if req[3] != 0xFF && req[3] >= p.local.slotCount then Fail(p, INVALID_REQUEST, 0)
    else if |req| < 42 + d then Fail(p, INVALID_REQUEST, 0)
    else
      var end: nat := 42 + d + At16(req, 40 + d) as int;
      if |req| < end || !SupportedVersionOk(p.local, req[42 + d..end]) then Fail(p, INVALID_REQUEST, 0)
      else
        var half := AllocateHalf(p.sessions, ResponderHalf);
        var id := SessionIdOf(At16(req, 4), half);
        var slot := AssignSlot(p.sessions, id);
        if half == 0 || slot.None? then Fail(p, SESSION_LIMIT_EXCEEDED, 0)
        else OpenSession(cr, p, slot.value, id, req[..end], e)
  }

  // ---------- FINISH ----------

  /** What a FINISH request makes of the session: an error with the session as far as it got, or a response. */
  datatype FinishAnswer =
    | Reject(session: Session, code: byte, data: byte)
    | Conclusion(session: Session, message: seq<byte>)

  /** The request's signature and MAC, appended to F as they are verified. */
  function VerifyRequest(cr: Crypto, p: Context, x: Session, req: seq<byte>, sig: nat): FinishAnswer
    requires |req| >= 4 + sig
  {
    var b1 := WithF(x, req[..4]);
    if b1.None? then Reject(x, INVALID_REQUEST, 0)
    else if x.mutAuthRequested == 0 then VerifyRequestMac(cr, p, b1.value, req[4 + sig..])
    else if !VerifyFinishSignature(cr, p, b1.value, req[4..4 + sig]) then Reject(b1.value, DECRYPT_ERROR, 0)
    else
      var b2 := WithF(b1.value, req[4..4 + sig]);
      if b2.None? then Reject(b1.value, INVALID_REQUEST, 0) else VerifyRequestMac(cr, p, b2.value, req[4 + sig..])
  }

  function VerifyRequestMac(cr: Crypto, p: Context, x: Session, mac: seq<byte>): FinishAnswer {
    var b := WithF(x, mac);
    if !VerifyFinishRequestHmac(cr, p, x, mac) then Reject(x, DECRYPT_ERROR, 0)
    else if b.None? then Reject(x, INVALID_REQUEST, 0)
    else AnswerFinish(cr, p, b.value)
  }

  /** FINISH_RSP, its HMAC when the handshake is in the clear, TH2 and the data keys. */
  function AnswerFinish(cr: Crypto, p: Context, x: Session): FinishAnswer {
    var header: seq<byte> := [VERSION_11, FINISH_RSP, 0, 0];
    var b := WithF(x, header);
    if b.None? then Reject(x, INVALID_REQUEST, 0)
    else if !ResponderInTheClear(p) then ConcludeFinish(cr, p, b.value, header)
    else
      var mac := GenerateFinishResponseHmac(cr, p, b.value);
      if mac.None? then Reject(b.value, UNSUPPORTED_REQUEST, FINISH_RSP)
      else
        var b2 := WithF(b.value, mac.value);
        if b2.None? then Reject(b.value, INVALID_REQUEST, 0) else ConcludeFinish(cr, p, b2.value, header + mac.value)
  }

  function ConcludeFinish(cr: Crypto, p: Context, x: Session, message: seq<byte>): FinishAnswer {
    var th2 := TH2(cr, p, x, false);
    if th2.None? || !cr.dataKeys(p.algorithms.baseHash, x.secret, th2.value) then Reject(x, INVALID_REQUEST, 0)
    else Conclusion(x, message)
  }

  /** SpdmGetResponseFinish; `inSession` is the session the request came in, if any. */
  function HandleFinish(cr: Crypto, p: Context, mode: ResponseState, req: seq<byte>, inSession: Option<u32>,
                        reqSlot: byte): Response
    requires |req| >= 4
  {
    if mode != Normal then NotNow(p, mode, req[1], 0)
    else if !IsCapable(p, false, KEY_EX_CAP, KEY_EX_CAP) then Fail(p, UNSUPPORTED_REQUEST, KEY_EXCHANGE)
    else if !p.state.Reached(Negotiated) then Fail(p, UNEXPECTED_REQUEST, 0)
    else if ResponderInTheClear(p) == inSession.Some? then Fail(p, INVALID_REQUEST, 0)
    else
      var found := FindSession(p.sessions, if inSession.Some? then inSession.value else p.latestSessionId);
      if found.None? || p.sessions[found.value].phase != Handshaking then Fail(p, INVALID_REQUEST, 0)
      else
        var x := p.sessions[found.value];
        var sig := if x.mutAuthRequested != 0 then SignatureSize(p.algorithms.reqBaseAsym) else 0;
        if (x.mutAuthRequested == 0) != (req[2] == 0) || |req| != 4 + sig + HashSize(p.algorithms.baseHash) then
          Fail(p, INVALID_REQUEST, 0)
        else if (req[3] != 0xFF && req[3] >= p.local.slotCount) || (req[3] != 0xFF && req[3] != reqSlot) then
          Fail(p, INVALID_REQUEST, 0)
        else
          match VerifyRequest(cr, p, x, req, sig)
          case Reject(y, code, data) => Fail(p.(sessions := p.sessions[found.value := y]), code, data)
          case Conclusion(y, m) => Response(p.(sessions := p.sessions[found.value := y]), m)
  }

  /** SpdmBuildResponse once the response is on its way: FINISH_RSP establishes the session it belongs to. */
  function AfterSending(p: Context, message: seq<byte>, inSession: Option<u32>): Context {
    var found := FindSession(p.sessions, if inSession.Some? then inSession.value else p.latestSessionId);
    if |message| >= 2 && message[1] == FINISH_RSP && ResponderInTheClear(p) != inSession.Some? && found.Some?
    then p.(sessions := p.sessions[found.value := p.sessions[found.value].(phase := Established)])
    else p
  }
}
