/**
 The requester's side of sessions: KEY_EXCHANGE, FINISH, PSK_EXCHANGE, PSK_FINISH and END_SESSION, one attempt each.
 */
module SessionRequester {
  import opened Bytes
  import opened Spdm
  import opened Crypto
  import opened ManagedBuffers
  import opened DeviceContext
  import opened Exchanges
  import opened ConnectionRequester
  import opened SessionTable
  import opened TranscriptHash

  // ---------- Opaque data of the exchanges ----------

  /** SpdmBuildOpaqueDataSupportedVersionData. */
  function SupportedVersionOpaque(l: Local): (m: seq<byte>)
    ensures |m| == if l.securedVersionCount == 0 then 0 else 20
  {
    if l.securedVersionCount == 0 then []
    else [0x46, 0x54, 0x4D, 0x44, 1, 1, 0, 0, 0, 0, 5, 0, 1, 1, 1, 0x00, 0x11, 0, 0, 0]
  }

  /** SpdmProcessOpaqueDataVersionSelectionData. */
  predicate VersionSelectionOk(l: Local, m: seq<byte>) {
    l.securedVersionCount == 0
    || (|m| == 16 && m[..14] == [0x46, 0x54, 0x4D, 0x44, 1, 1, 0, 0, 0, 0, 4, 0, 1, 0] && m[15] == 0x11)
  }

  /** Handshake messages travel outside the session. */
  predicate InTheClear(s: Context) {
    IsCapable(s, true, HANDSHAKE_IN_THE_CLEAR_CAP, HANDSHAKE_IN_THE_CLEAR_CAP)
  }

  // ---------- KEY_EXCHANGE ----------

  const KEY_EXCHANGE_MAX: nat := 40 + MAX_DHE_KEY + MAX_HASH + 2 + MAX_OPAQUE + MAX_ASYM_KEY + MAX_HASH

  /** Randomness and replies of one KEY_EXCHANGE attempt. */
  datatype KexInput = KexInput(random: Nonce, seed: seq<byte>, reply: Reply)

  /** What an attempt returns, and how often it created and freed a Diffie-Hellman context. */
  datatype KexOut = KexOut(sessionId: u32, reqSlotParam: byte, dheCreated: nat, dheFreed: nat)

  function KeyExchangeRequest(s: Context, hashType: byte, slot: byte, half: u16, random: Nonce,
                              share: seq<byte>): (m: seq<byte>)
    ensures |m| == 42 + |share| + |SupportedVersionOpaque(s.local)|
  {
    [VERSION_11, KEY_EXCHANGE, hashType, slot] + Le16(half) + [0, 0] + random + share
    + Le16(|SupportedVersionOpaque(s.local)|) + SupportedVersionOpaque(s.local)
  }

  /** Field sizes of KEY_EXCHANGE_RSP under the negotiated algorithms; no HMAC in the clear. */
  datatype KexLayout = KexLayout(share: nat, summary: nat, signature: nat, mac: nat)

  function KexLayoutOf(s: Context, hashType: byte): KexLayout {
    KexLayout(DhePubKeySize(s.algorithms.dhe), SummaryHashSize(s, true, hashType), SignatureSize(s.algorithms.baseAsym),
              if InTheClear(s) then 0 else HashSize(s.algorithms.baseHash))
  }

  /** The slot the responder wants the requester to authenticate with is acceptable. */
  predicate ReqSlotOk(s: Context, m: seq<byte>)
    requires |m| >= 40
  {
    if m[6] != 0 then m[7] == 0xF || m[7] < s.local.slotCount else m[7] == 0
  }

  /**
   How the part of an attempt that owns a session ends: the session is freed, kept as it is by the
   one exit that skips all clean-up, or set up.
   */
  datatype KexVerdict =
    | Rejected(status: Status, error: ErrorState)
    | Kept(session: Session)
    | Accepted(session: Session)

  /** The response announces more opaque data than the protocol allows. */
  predicate OversizedOpaque(s: Context, hashType: byte, m: seq<byte>) {
    var l := KexLayoutOf(s, hashType);
    && |m| >= 42 + l.share + l.summary + l.signature + l.mac
    && At16(m, 40 + l.share + l.summary) > MAX_OPAQUE
  }

  /** From the assigned session with the request in K to the verdict on the response m. */
  function JudgeKeyExchange(cr: Crypto, s: Context, session: Session, hashType: byte, share: seq<byte>,
                            m: seq<byte>): KexVerdict {
    var l := KexLayoutOf(s, hashType);
    var fixed := 42 + l.share + l.summary;
    if |m| < fixed + l.signature + l.mac then Rejected(DeviceError, NoCapabilities)
    else
      var opq: nat := At16(m, fixed - 2);
      if opq > MAX_OPAQUE then Kept(session)
      else if |m| < fixed + opq + l.signature + l.mac then Rejected(DeviceError, NoCapabilities)
      else if !VersionSelectionOk(s.local, m[fixed..fixed + opq]) then Rejected(Unsupported, NoCapabilities)
      else
        var k1 := Cached(MAX_MESSAGE_BUFFER, session.messageK, m[..fixed + opq]);
        if k1.None? then Rejected(SecurityViolation, NoCapabilities)
        else JudgeSignature(cr, s, session.(messageK := k1.value, mutAuthRequested := m[6]), share,
                            m[40..40 + l.share], m[fixed + opq..fixed + opq + l.signature],
                            m[fixed + opq + l.signature..fixed + opq + l.signature + l.mac])
  }

  /** The signature, key and HMAC gates, in this order. */
  function JudgeSignature(cr: Crypto, s: Context, session: Session, share: seq<byte>, peerShare: seq<byte>,
                          signature: seq<byte>, mac: seq<byte>): KexVerdict {
    if !VerifyKeyExchangeSignature(cr, s, session, signature) then Rejected(SecurityViolation, KeyExchangeFailure)
    else
      var evidence := AcceptedSignature(s.algorithms.baseAsym, s.algorithms.baseHash, PeerChainData(s).value,
                                        TH1Data(cr, s, session, true).value, signature);
      var k2 := Cached(MAX_MESSAGE_BUFFER, session.messageK, signature);
      var secret := cr.dheSecret(s.algorithms.dhe, share, peerShare);
      if k2.None? || secret.None? then Rejected(SecurityViolation, NoCapabilities)
      else
        var session2 := session.(messageK := k2.value, secret := secret.value,
                                 signatures := session.signatures + [evidence]);
        var th1 := TH1(cr, s, session2, true);
        if th1.None? then Rejected(SecurityViolation, NoCapabilities)
        else
          var keys := cr.handshakeKeys(s.algorithms.baseHash, secret.value, th1.value);
          if keys.None? then Rejected(SecurityViolation, NoCapabilities)
          else JudgeMac(cr, s, session2.(keys := keys.value), mac)
  }

  function JudgeMac(cr: Crypto, s: Context, session: Session, mac: seq<byte>): KexVerdict {
    if InTheClear(s) then Accepted(session.(phase := Handshaking, inTheClear := true))
    else if !VerifyKeyExchangeHmac(cr, s, session, mac) then Rejected(SecurityViolation, KeyExchangeFailure)
    else
      var k3 := Cached(MAX_MESSAGE_BUFFER, session.messageK, mac);
      if k3.None? then Rejected(SecurityViolation, NoCapabilities)
      else
        var evidence := AcceptedMac(s.algorithms.baseHash, session.keys.responseFinished,
                                    TH1Data(cr, s, session, true).value, mac);
        Accepted(session.(messageK := k3.value, phase := Handshaking, inTheClear := false,
                          macs := session.macs + [evidence]))
  }

  /** The verdict on a response for the session just assigned. */
  function VerdictOn(cr: Crypto, s: Context, id: u32, hashType: byte, req: seq<byte>, share: seq<byte>,
                     m: seq<byte>): KexVerdict {
    var k := Cached(MAX_MESSAGE_BUFFER, [], req);
    if k.None? then Rejected(SecurityViolation, NoCapabilities)
    else JudgeKeyExchange(cr, s, FreshSession(id, false).(messageK := k.value), hashType, share, m)
  }

  predicate MayExchangeKeys(s: Context) {
    IsCapable(s, true, KEY_EX_CAP, KEY_EX_CAP) && s.state.Reached(Negotiated)
  }

  predicate KexParametersOk(s: Context, slot: byte) {
    !(slot >= MAX_SLOTS && slot != 0xFF) && !(slot == 0xFF && s.local.peerChain == [])
  }

  /** TrySpdmSendReceiveKeyExchange once a response m with the right code is there. */
  function HandleKeyExchangeResponse(cr: Crypto, s0: Context, hashType: byte, half: u16, req: seq<byte>,
                                     share: seq<byte>, m: seq<byte>): Step<KexOut> {
    if |m| < 40 || |m| > KEY_EXCHANGE_MAX || !ReqSlotOk(s0, m) then Step(DeviceError, s0, KexOut(0, 0, 1, 1))
    else
      var id := SessionIdOf(half, At16(m, 4));
      var slot := AssignSlot(s0.sessions, id);
      if slot.None? then Step(DeviceError, s0, KexOut(id, m[7], 1, 1))
      else
        Settled(s0, slot.value, id, m[7], VerdictOn(cr, s0, id, hashType, req, share, m))
  }

  /** The verdict put into effect: slot, last-error word, and the Diffie-Hellman context. */
  function Settled(s0: Context, i: nat, id: u32, param: byte, verdict: KexVerdict): Step<KexOut>
    requires i < MAX_SESSIONS
  {
    var s1 := s0.(latestSessionId := id);
    match verdict
    case Rejected(status, error) =>
      Step(status, s1.(sessions := s0.sessions[i := FreshSession(INVALID_SESSION_ID, false)], errorState := error),
           KexOut(id, param, 1, 1))
    case Kept(session) =>
      Step(SecurityViolation, s1.(sessions := s0.sessions[i := session]), KexOut(id, param, 1, 0))
    case Accepted(session) =>
      Step(Success, s1.(sessions := s0.sessions[i := session], errorState := NoError), KexOut(id, param, 1, 1))
  }

  /** TrySpdmSendReceiveKeyExchange. */
  function TryKeyExchange(cr: Crypto, s: Context, hashType: byte, slot: byte, x: KexInput): Step<KexOut> {
    if !MayExchangeKeys(s) then Step(Unsupported, s, KexOut(0, 0, 0, 0))
    else if !KexParametersOk(s, slot) then Step(InvalidParameter, s, KexOut(0, 0, 0, 0))
    else
      var s0 := s.(errorState := NoCapabilities);
      var half := AllocateRequesterHalf(s.sessions);
      var share := cr.dheShare(s.algorithms.dhe, x.seed);
      match LongOutcome(x.reply, KEY_EXCHANGE_RSP, KEY_EXCHANGE_MAX)
      case Refused(code) => Step(RefusalStatus(code), AfterRefusal(s0, code), KexOut(0, 0, 1, 1))
      case Answer(m) =>
        HandleKeyExchangeResponse(cr, s0, hashType, half, KeyExchangeRequest(s, hashType, slot, half, x.random, share),
                                  share, m)
      case _ => Step(DeviceError, s0, KexOut(0, 0, 1, 1))
  }

  // ---------- FINISH ----------

  const FINISH_MAX: nat := 4 + MAX_HASH

  /** A session with one more message in F. */
  function WithF(session: Session, message: seq<byte>): Option<Session> {
    var f := Cached(MAX_MESSAGE_BUFFER, session.messageF, message);
    if f.None? then None else Some(session.(messageF := f.value))
  }

  /** The FINISH request is cached field by field; the flag tells whether all of it was. */
  datatype Built = Built(complete: bool, session: Session)

  function BuildFinish(cr: Crypto, s: Context, session: Session, header: seq<byte>): Built {
    var b1 := WithF(session, header);
    if b1.None? then Built(false, session)
    else if session.mutAuthRequested != 0 then
      var signature := GenerateFinishSignature(cr, s, b1.value);
      if signature.None? then Built(false, b1.value)
      else
        var b2 := WithF(b1.value, signature.value);
        if b2.None? then Built(false, b1.value) else BuildFinishMac(cr, s, b2.value)
    else BuildFinishMac(cr, s, b1.value)
  }

  function BuildFinishMac(cr: Crypto, s: Context, session: Session): Built {
    var mac := GenerateFinishRequestHmac(cr, s, session);
    if mac.None? then Built(false, session)
    else
      var b := WithF(session, mac.value);
      if b.None? then Built(false, session) else Built(true, b.value)
  }

  /** Size of the FINISH request, which is what a refusal shrinks F by. */
  function FinishRequestSize(s: Context, session: Session): nat {
    4 + (if session.mutAuthRequested != 0 then SignatureSize(s.algorithms.reqBaseAsym) else 0)
      + HashSize(s.algorithms.baseHash)
  }

  /** TH2 and the data keys, the last gate of either kind of session. */
  function Establish(cr: Crypto, s: Context, session: Session): Option<Session> {
    var th2 := TH2(cr, s, session, true);
    if th2.None? || !cr.dataKeys(s.algorithms.baseHash, session.secret, th2.value) then None
    else Some(session.(phase := Established))
  }

  datatype SessionStep = SessionStep(status: Status, session: Session)

  /** The FINISH_RSP m, its HMAC when the handshake is in the clear, and TH2. */
  function JudgeFinish(cr: Crypto, s: Context, session: Session, m: seq<byte>): SessionStep
    requires |m| >= 4
  {
    var h := if InTheClear(s) then HashSize(s.algorithms.baseHash) else 0;
    if |m| != 4 + h then SessionStep(DeviceError, session)
    else
      var b := WithF(session, m[..4]);
      if b.None? then SessionStep(SecurityViolation, session)
      else if InTheClear(s) then
        if !VerifyFinishResponseHmac(cr, s, b.value, m[4..]) then SessionStep(SecurityViolation, b.value)
        else
          var b2 := WithF(b.value, m[4..]);
          if b2.None? then SessionStep(SecurityViolation, b.value)
          else
            var evidence := AcceptedMac(s.algorithms.baseHash, session.keys.responseFinished,
                                        TH2Data(cr, s, b.value, true).value, m[4..]);
            Conclude(cr, s, b2.value.(macs := b2.value.macs + [evidence]))
      else Conclude(cr, s, b.value)
  }

  function Conclude(cr: Crypto, s: Context, session: Session): SessionStep {
    var e := Establish(cr, s, session);
    if e.None? then SessionStep(SecurityViolation, session) else SessionStep(Success, e.value)
  }

  predicate FinishSlotOk(s: Context, session: Session, param: byte) {
    if session.mutAuthRequested != 0 then param < s.local.slotCount || param == 0xFF else param == 0
  }

  /** The chain the requester authenticates with, when the responder asked for it. */
  function WithLocalChain(s: Context, session: Session, param: byte): Context {
    var slot: nat := if param == 0xFF then s.local.provisionedSlot else param;
    if session.mutAuthRequested != 0 then s.(localChain := ChainOfSlot(s.local, slot)) else s
  }

  function FinishHeader(session: Session, param: byte): seq<byte> {
    if session.mutAuthRequested != 0 then [VERSION_11, FINISH, 1, param] else [VERSION_11, FINISH, 0, 0]
  }

  /** Storing a session back, with the last-error word of a success or a failure. */
  function Stored(s: Context, i: nat, r: SessionStep): Step<()>
    requires i < |s.sessions|
  {
    Step(r.status, s.(sessions := s.sessions[i := r.session],
                      errorState := if r.status == Success then NoError else s.errorState), ())
  }

  /** TrySpdmSendReceiveFinish. */
  function TryFinish(cr: Crypto, s: Context, id: u32, param: byte, reply: Reply): Step<()> {
    var found := FindSession(s.sessions, id);
    if !MayExchangeKeys(s) || found.None? || s.sessions[found.value].phase != Handshaking then Step(Unsupported, s, ())
    else
      var i := found.value;
      var session := s.sessions[i];
      if !FinishSlotOk(s, session, param) then Step(InvalidParameter, s, ())
      else
        FinishFrom(cr, WithLocalChain(s.(errorState := NoCapabilities), session, param), i, session, param, reply)
  }

  /** TrySpdmSendReceiveFinish once its parameters are settled. */
  function FinishFrom(cr: Crypto, s0: Context, i: nat, session: Session, param: byte, reply: Reply): Step<()>
    requires i < MAX_SESSIONS
  {
    var built := BuildFinish(cr, s0, session, FinishHeader(session, param));
    if !built.complete then Stored(s0, i, SessionStep(SecurityViolation, built.session))
    else
      match LongOutcome(reply, FINISH_RSP, FINISH_MAX)
      case Refused(code) =>
        var shrunk := Shrunk(built.session.messageF, FinishRequestSize(s0, session));
        Stored(AfterRefusal(s0, code), i, SessionStep(RefusalStatus(code), built.session.(messageF := shrunk)))
      case Answer(m) => Stored(s0, i, JudgeFinish(cr, s0, built.session, m))
      case _ => Stored(s0, i, SessionStep(DeviceError, built.session))
  }

  // ---------- PSK_EXCHANGE ----------

  const PSK_EXCHANGE_MAX: nat := 12 + MAX_HASH + MAX_HASH + MAX_OPAQUE + MAX_HASH

  type PskRandom = n: seq<byte> | |n| == MAX_HASH witness Zeros(MAX_HASH)

  datatype PskInput = PskInput(random: PskRandom, reply: Reply)

  function PskExchangeRequest(s: Context, hashType: byte, half: u16, random: PskRandom): (m: seq<byte>)
    ensures |m| == 12 + |s.local.pskHint| + MAX_HASH + |SupportedVersionOpaque(s.local)|
  {
    [VERSION_11, PSK_EXCHANGE, hashType, 0] + Le16(half) + Le16(|s.local.pskHint| % 0x1_0000) + Le16(MAX_HASH)
    + Le16(|SupportedVersionOpaque(s.local)|) + s.local.pskHint + random + SupportedVersionOpaque(s.local)
  }

  /** The algorithm checks repeated because NEGOTIATE_ALGORITHMS may have been skipped. */
  predicate PskAlgorithmsOk(s: Context) {
    && (IsCapable(s, true, 0, MEAS_CAP) ==>
          s.algorithms.measurementSpec == MEASUREMENT_SPEC_DMTF
          && MeasurementHashSize(s.algorithms.measurementHash) != 0)
    && HashSize(s.algorithms.baseHash) != 0
    && s.algorithms.keySchedule == KEY_SCHEDULE_HMAC_HASH
  }

  /** The responder keeps context, so PSK_FINISH is needed. */
  predicate NeedsPskFinish(s: Context) {
    IsCapable(s, true, 0, PSK_CAP_RESPONDER_WITH_CONTEXT)
  }

  datatype PskVerdict = PskRejected(status: Status, error: ErrorState) | PskAccepted(session: Session)

  function JudgePskExchange(cr: Crypto, s: Context, session: Session, hashType: byte, m: seq<byte>): PskVerdict
    requires |m| >= 12
  {
    var h := HashSize(s.algorithms.baseHash);
    var summary := SummaryHashSize(s, true, hashType);
    var context: nat := At16(m, 8);
    var opq: nat := At16(m, 10);
    var end := 12 + summary + context + opq;
    if |m| < end + h then PskRejected(DeviceError, NoCapabilities)
    else if !VersionSelectionOk(s.local, m[end - opq..end]) then PskRejected(Unsupported, NoCapabilities)
    else
      var k1 := Cached(MAX_MESSAGE_BUFFER, session.messageK, m[..end]);
      if k1.None? then PskRejected(SecurityViolation, NoCapabilities)
      else JudgePskMac(cr, s, session.(messageK := k1.value), m[end..end + h])
  }

  function JudgePskMac(cr: Crypto, s: Context, session: Session, mac: seq<byte>): PskVerdict {
    var th1 := TH1(cr, s, session, true);
    var secret := cr.psk(s.local.pskHint);
    var keys := if th1.None? then None else cr.handshakeKeys(s.algorithms.baseHash, secret, th1.value);
    if keys.None? then PskRejected(SecurityViolation, NoCapabilities)
    else
      var session2 := session.(secret := secret, keys := keys.value);
      if !VerifyPskExchangeHmac(cr, s, session2, mac) then PskRejected(SecurityViolation, KeyExchangeFailure)
      else
        var k2 := Cached(MAX_MESSAGE_BUFFER, session.messageK, mac);
        if k2.None? then PskRejected(SecurityViolation, NoCapabilities)
        else
          var evidence := AcceptedMac(s.algorithms.baseHash, keys.value.responseFinished,
                                      TH1Data(cr, s, session2, true).value, mac);
          PskAccepted(session2.(messageK := k2.value, phase := Handshaking, macs := session.macs + [evidence]))
  }

  predicate MayExchangePsk(s: Context) {
    IsCapable(s, true, PSK_CAP, PSK_CAP) && s.state.Reached(Negotiated)
  }

  function HandlePskResponse(cr: Crypto, s0: Context, hashType: byte, half: u16, req: seq<byte>,
                             m: seq<byte>): Step<u32> {
    if |m| < 12 || |m| > PSK_EXCHANGE_MAX then Step(DeviceError, s0, 0)
    else
      var id := SessionIdOf(half, At16(m, 4));
      var slot := AssignSlot(s0.sessions, id);
      if slot.None? then Step(DeviceError, s0, id)
      else
        var i := slot.value;
        var s1 := s0.(latestSessionId := id);
        var fresh_ := FreshSession(id, true);
        var k := Cached(MAX_MESSAGE_BUFFER, [], req);
        if k.None? then Step(SecurityViolation, s1.(sessions := s0.sessions[i := fresh_]), id)
        else
          match JudgePskExchange(cr, s0, fresh_.(messageK := k.value), hashType, m)
          case PskRejected(status, error) =>
            Step(status,
                 s1.(sessions := s0.sessions[i := FreshSession(INVALID_SESSION_ID, false)], errorState := error), id)
          case PskAccepted(session) =>
            var r := if NeedsPskFinish(s0) then SessionStep(Success, session) else Conclude(cr, s0, session);
            Step(r.status, s1.(sessions := s0.sessions[i := r.session], errorState := NoError), id)
  }

  /** TrySpdmSendReceivePskExchange. */
  function TryPskExchange(cr: Crypto, s: Context, hashType: byte, x: PskInput): Step<u32> {
    if !MayExchangePsk(s) then Step(Unsupported, s, 0)
    else if !PskAlgorithmsOk(s) then Step(DeviceError, s, 0)
    else
      var s0 := s.(errorState := NoCapabilities);
      var half := AllocateRequesterHalf(s.sessions);
      match LongOutcome(x.reply, PSK_EXCHANGE_RSP, PSK_EXCHANGE_MAX)
      case Refused(code) => Step(RefusalStatus(code), AfterRefusal(s0, code), 0)
      case Answer(m) => HandlePskResponse(cr, s0, hashType, half, PskExchangeRequest(s, hashType, half, x.random), m)
      case _ => Step(DeviceError, s0, 0)
  }

  // ---------- PSK_FINISH ----------

  type Stale = n: seq<byte> | |n| == MAX_HASH witness Zeros(MAX_HASH)

  /** The reply to one PSK_FINISH attempt, and what lay in memory where its MAC goes. */
  datatype PskFinishInput = PskFinishInput(reply: Reply, stale: Stale)

  /** The PSK_FINISH request; a MAC that could not be computed leaves the stale bytes in its place. */
  function BuildPskFinish(cr: Crypto, s: Context, session: Session, stale: Stale): Built {
    var b1 := WithF(session, [VERSION_11, PSK_FINISH, 0, 0]);
    if b1.None? then Built(false, session)
    else
      var mac := GeneratePskFinishHmac(cr, s, b1.value);
      var b2 := WithF(b1.value, if mac.Some? then mac.value else stale[..HashSize(s.algorithms.baseHash)]);
      if b2.None? then Built(false, b1.value) else Built(true, b2.value)
  }

  function JudgePskFinish(cr: Crypto, s: Context, session: Session, m: seq<byte>): SessionStep {
    if |m| != 4 then SessionStep(DeviceError, session)
    else
      var b := WithF(session, m);
      if b.None? then SessionStep(SecurityViolation, session) else Conclude(cr, s, b.value)
  }

  /** TrySpdmSendReceivePskFinish. */
  function TryPskFinish(cr: Crypto, s: Context, id: u32, x: PskFinishInput): Step<()> {
    var found := FindSession(s.sessions, id);
    if !MayExchangePsk(s) || found.None? || s.sessions[found.value].phase != Handshaking then Step(Unsupported, s, ())
    else
      PskFinishFrom(cr, s.(errorState := NoCapabilities), found.value, x)
  }

  /** TrySpdmSendReceivePskFinish on the session in slot i. */
  function PskFinishFrom(cr: Crypto, s0: Context, i: nat, x: PskFinishInput): Step<()>
    requires i < MAX_SESSIONS
  {
    var built := BuildPskFinish(cr, s0, s0.sessions[i], x.stale);
    if !built.complete then Stored(s0, i, SessionStep(SecurityViolation, built.session))
    else
      match LongOutcome(x.reply, PSK_FINISH_RSP, 8)
      case Refused(code) =>
        var shrunk := Shrunk(built.session.messageF, 4 + HashSize(s0.algorithms.baseHash));
        Stored(AfterRefusal(s0, code), i, SessionStep(RefusalStatus(code), built.session.(messageF := shrunk)))
      case Answer(m) => Stored(s0, i, JudgePskFinish(cr, s0, built.session, m))
      case _ => Stored(s0, i, SessionStep(DeviceError, built.session))
  }

  // ---------- END_SESSION ----------

  /** TrySpdmSendReceiveEndSession. */
  function TryEndSession(s: Context, id: u32, reply: Reply): Step<()> {
    var found := FindSession(s.sessions, id);
    if !s.state.Reached(Negotiated) || found.None? || s.sessions[found.value].phase != Established then
      Step(Unsupported, s, ())
    else
      var s0 := s.(errorState := NoCapabilities);
      match LongOutcome(reply, END_SESSION_ACK, 8)
      case Refused(code) => Step(RefusalStatus(code), AfterRefusal(s0, code), ())
      case Answer(m) =>
        if |m| != 4 then Step(DeviceError, s0, ())
        else Step(Success, s.(sessions := s.sessions[found.value := FreshSession(INVALID_SESSION_ID, false)],
                              errorState := NoError), ())
      case _ => Step(DeviceError, s0, ())
  }
}
