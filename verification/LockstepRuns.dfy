/** Lockstep over whole runs of connection exchanges. */
module LockstepRuns {
  import opened Bytes
  import opened Spdm
  import opened Crypto
  import opened ManagedBuffers
  import opened DeviceContext
  import opened Exchanges
  import opened ConnectionRequester
  import opened ConnectionResponder
  import opened CertificateTransfer
  import opened Negotiation
  import opened Lockstep

  type Assembled = c: seq<byte> | |c| <= MAX_MESSAGE_BUFFER witness []

  /** One request and its reply, with everything either end draws at random or reads from outside. */
  datatype Exchange =
    | CapabilitiesExchange(stale: u32)
    | AlgorithmsExchange
    | DigestsExchange
    | CertificateExchange(slot: byte, length: u16, chain: Assembled)
    | ChallengeExchange(slot: byte, hashType: byte, nonceQ: Nonce, nonceP: Nonce, measured: Option<seq<byte>>,
                        encapOk: bool)

  /** An exchange, and the response state the responder is in when the request arrives. */
  datatype Event = Event(exchange: Exchange, mode: ResponseState)

  function RequestOf(q: Context, x: Exchange): (m: seq<byte>)
    ensures |m| >= 4
  {
    match x
    case CapabilitiesExchange(_) => GetCapabilitiesRequest(q)
    case AlgorithmsExchange => NegotiateRequest(q)
    case DigestsExchange => GetDigestsRequest(q)
    case CertificateExchange(slot, length, chain) => GetCertificateRequest(q, slot, |chain|, length)
    case ChallengeExchange(slot, hashType, nonceQ, _, _, _) => ChallengeRequest(q, slot, hashType, nonceQ)
  }

  /** The responder's handler for the exchange. */
  function Served(cr: Crypto, p: Context, mode: ResponseState, req: seq<byte>, x: Exchange): Response
    requires |req| >= 4
  {
    match x
    case CapabilitiesExchange(stale) => HandleGetCapabilities(p, mode, req, stale)
    case AlgorithmsExchange => HandleNegotiateAlgorithms(p, mode, req)
    case DigestsExchange => HandleGetDigests(cr, p, mode, req)
    case CertificateExchange(_, _, _) => HandleGetCertificate(p, mode, req)
    case ChallengeExchange(_, _, _, nonceP, measured, _) => HandleChallenge(cr, p, mode, req, nonceP, measured)
  }

  /** One turn of the certificate loop as an attempt of its own. */
  function CertificateTurn(q: Context, slot: byte, length: u16, chain: Assembled, r: Reply): Step<()> {
    if !MayGetCertificate(q) then Step(Unsupported, q, ())
    else
      match CertificateRound(q, slot, length, chain, r)
      case Stopped(status, q') => Step(status, q', ())
      case Completed(q', _, _) => Step(Success, q', ())
  }

  /** The requester's attempt, given the reply. */
  function Received(cr: Crypto, q: Context, x: Exchange, r: Reply): Step<()> {
    match x
    case CapabilitiesExchange(_) => TryGetCapabilities(q, r)
    case AlgorithmsExchange => TryNegotiateAlgorithms(q, r)
    case DigestsExchange => TryGetDigests(cr, q, r)
    case CertificateExchange(slot, length, chain) => CertificateTurn(q, slot, length, chain, r)
    case ChallengeExchange(slot, hashType, nonceQ, _, _, encapOk) =>
      TryChallenge(cr, q, slot, hashType, ChallengeInput(nonceQ, r, encapOk))
  }

  function Respond(cr: Crypto, q: Context, p: Context, e: Event): Response {
    Served(cr, p, e.mode, RequestOf(q, e.exchange), e.exchange)
  }

  function Attempt(cr: Crypto, q: Context, p: Context, e: Event): Step<()> {
    Received(cr, q, e.exchange, Says(Respond(cr, q, p, e).message))
  }

  // ---------- ERROR replies ----------

  /** The reply is an ERROR message of the kind that a requester simply takes its request back for. */
  predicate IsRefusal(m: seq<byte>) {
    |m| >= 4 && m[1] == ERROR && m[2] != RESPONSE_NOT_READY && m[2] != REQUEST_RESYNCH
  }

  /** A requester that is refused keeps everything but its last-error word. */
  lemma RefusalLeavesRequester(cr: Crypto, q: Context, x: Exchange, m: seq<byte>)
    requires IsRefusal(m)
    ensures var t := Received(cr, q, x, Says(m)).ctx;
            t == q || t == q.(errorState := NoCapabilities)
  {
    hide IsCapable, NegotiateRequest, GetCapabilitiesRequest, AdoptAlgorithms, CheckChallengeAuth,
         GetCertificateRequest, ChallengeRequest;
  }

  /**
   The handler takes the request into its transcript and turns it down afterwards. Per request: the guards that
   let it be cached, and the guards that fail behind that point.
   */
  ghost predicate LateError(cr: Crypto, q: Context, p: Context, x: Exchange) {
    match x
    case CapabilitiesExchange(_) => false
    case AlgorithmsExchange =>
      p.state == AfterCapabilities && |p.messageA| + |NegotiateRequest(q)| <= MAX_SMALL_BUFFER
      && !ResponderAnswers(q, p)
    case DigestsExchange =>
      && IsCapable(p, false, 0, CERT_CAP) && p.state == Negotiated && |p.messageB| + 4 <= MAX_MESSAGE_BUFFER
      && (!AnyChainProvisioned(p.local) || |p.messageB| + 4 + |DigestsResponse(cr, p)| > MAX_MESSAGE_BUFFER)
    case CertificateExchange(slot, length, chain) =>
      var own := ChainOfSlot(p.local, slot);
      && (p.state == Negotiated || p.state == AfterDigests || p.state == AfterCertificate)
      && IsCapable(p, false, 0, CERT_CAP) && |p.messageB| + 8 <= MAX_MESSAGE_BUFFER
      && (slot >= p.local.slotCount || |chain| >= |own|
          || |p.messageB| + 16 + PortionLength(|own|, |chain|, length) > MAX_MESSAGE_BUFFER)
    case ChallengeExchange(slot, hashType, nonceQ, nonceP, measured, _) =>
      && IsCapable(p, false, 0, CHAL_CAP) && p.state.Reached(Negotiated) && |p.messageC| + 36 <= MAX_SMALL_BUFFER
      && !ChallengeServed(cr, p, ChallengeRequest(q, slot, hashType, nonceQ), slot, hashType, nonceP, measured)
  }

  /** What CHALLENGE_AUTH needs behind the cached request: a slot, a summary hash, room, and a signature. */
  ghost predicate ChallengeServed(cr: Crypto, p: Context, req: seq<byte>, slot: byte, hashType: byte, nonce: Nonce,
                                  measured: Option<seq<byte>>) {
    var summary := SummaryHash(cr, p, hashType, measured);
    && (slot == 0xFF || slot < p.local.slotCount) && summary.Some?
    && var c := p.messageC + req + ChallengeAuthBody(cr, p, slot, nonce, summary.value);
    && |c| <= MAX_SMALL_BUFFER && M1M2(p.(messageC := c)).Some?
    && cr.responderSign(p.algorithms.baseAsym, p.algorithms.baseHash, M1M2(p.(messageC := c)).value).Some?
  }

  /**
   An ERROR reply of a responder in its normal state: the context is untouched, or the error is late and a transcript
   has grown.
   */
  ghost predicate ErrorEffect(p: Context, r: Response, late: bool) {
    && (late ==>
          && IsRefusal(r.message)
          && (|r.ctx.messageA| > |p.messageA| || |r.ctx.messageB| > |p.messageB| || |r.ctx.messageC| > |p.messageC|))
    && (!late && |r.message| >= 2 && r.message[1] == ERROR ==> IsRefusal(r.message) && r.ctx == p)
  }

  lemma CapabilitiesError(p: Context, req: seq<byte>, stale: u32)
    requires |req| >= 4
    ensures ErrorEffect(p, HandleGetCapabilities(p, Normal, req, stale), false)
  {
    hide CapabilitiesResponse, RequesterFlagsOk, VersionIn;
  }

  lemma AlgorithmsError(cr: Crypto, q: Context, p: Context)
    requires q.versions == p.versions
    ensures ErrorEffect(p, HandleNegotiateAlgorithms(p, Normal, NegotiateRequest(q)),
                        LateError(cr, q, p, AlgorithmsExchange))
  {
    hide BaseAlgorithmsOk, SessionSizesOk, KeyScheduleOk, SelectAlgorithms, NegotiateRequest, AlgorithmsResponse,
         OfferIn, TablesScan, WithBase, WithoutSessionAlgorithms, VersionIn, ResponderAnswers, Selection;
    ResponderNegotiates(q, p);
    ResponderReadsRequest(q, p);
    var req := NegotiateRequest(q);
    assert req[..|req|] == req;
    AnswersFit(q, p);
    ResponseCode(Version(p), Selection(q, p));
    ResponseCode(Version(p), SelectAlgorithms(p.local.algorithms, OfferIn(p, req)));
  }

  lemma ResponseCode(version: byte, a: Algorithms)
    ensures |AlgorithmsResponse(version, a)| >= 2 && AlgorithmsResponse(version, a)[1] == ALGORITHMS
  {
  }

  lemma AnswersFit(q: Context, p: Context)
    ensures ResponderAnswers(q, p) ==>
              p.state == AfterCapabilities && |p.messageA| + |NegotiateRequest(q)| <= MAX_SMALL_BUFFER
  {
  }

  lemma DigestsError(cr: Crypto, q: Context, p: Context)
    ensures ErrorEffect(p, HandleGetDigests(cr, p, Normal, GetDigestsRequest(q)), LateError(cr, q, p, DigestsExchange))
  {
    hide IsCapable, SlotDigests, SlotMask, AnyChainProvisioned, VersionIn;
  }

  lemma CertificateError(cr: Crypto, q: Context, p: Context, slot: byte, length: u16, chain: Assembled)
    ensures ErrorEffect(p, HandleGetCertificate(p, Normal, GetCertificateRequest(q, slot, |chain|, length)),
                        LateError(cr, q, p, CertificateExchange(slot, length, chain)))
  {
    hide IsCapable, ChainOfSlot, VersionIn, PortionLength, GetCertificateRequest, CertificateResponse;
    CertificateRequestReads(q, slot, |chain|, length);
    if |chain| < |ChainOfSlot(p.local, slot)| {
      CertificateResponseReads(p, slot, ChainOfSlot(p.local, slot), |chain|, length);
    }
  }

  lemma ChallengeError(cr: Crypto, q: Context, p: Context, slot: byte, hashType: byte, nonceQ: Nonce, nonceP: Nonce,
                       measured: Option<seq<byte>>, encapOk: bool)
    ensures ErrorEffect(p,
                        HandleChallenge(cr, p, Normal, ChallengeRequest(q, slot, hashType, nonceQ), nonceP, measured),
                        LateError(cr, q, p, ChallengeExchange(slot, hashType, nonceQ, nonceP, measured, encapOk)))
  {
    hide IsCapable, SummaryHash, AsksBasicMutAuth, VersionIn, M1M2, ChainOfSlot, Pow2, ChallengeAuthBody;
    var req := ChallengeRequest(q, slot, hashType, nonceQ);
    assert req[2] == slot && req[3] == hashType;
    var summary := SummaryHash(cr, p, hashType, measured);
    if summary.Some? {
      BodyCode(cr, p, slot, nonceP, summary.value);
    }
  }

  lemma BodyCode(cr: Crypto, p: Context, slot: byte, nonce: Nonce, summary: seq<byte>)
    ensures |ChallengeAuthBody(cr, p, slot, nonce, summary)| >= 4
            && ChallengeAuthBody(cr, p, slot, nonce, summary)[1] == CHALLENGE_AUTH
  {
    hide AsksBasicMutAuth, ChainOfSlot, Pow2, VersionIn;
  }

  /** Every handler. */
  lemma ServedError(cr: Crypto, q: Context, p: Context, x: Exchange)
    requires q.versions == p.versions
    ensures ErrorEffect(p, Served(cr, p, Normal, RequestOf(q, x), x), LateError(cr, q, p, x))
  {
    hide ErrorEffect, HandleGetCapabilities, HandleNegotiateAlgorithms, HandleGetDigests, HandleGetCertificate,
         HandleChallenge;
    match x
    case CapabilitiesExchange(stale) => CapabilitiesError(p, RequestOf(q, x), stale);
    case AlgorithmsExchange => AlgorithmsError(cr, q, p);
    case DigestsExchange => DigestsError(cr, q, p);
    case CertificateExchange(slot, length, chain) => CertificateError(cr, q, p, slot, length, chain);
    case ChallengeExchange(slot, hashType, nonceQ, nonceP, measured, encapOk) =>
      ChallengeError(cr, q, p, slot, hashType, nonceQ, nonceP, measured, encapOk);
  }

  /**
   An exchange that a responder in its normal state answers with ERROR keeps the two ends in agreement if and
   only if the error is not late; and late errors are the only ones that break it.
   */
  lemma ErrorBreaksAgreementExactly(cr: Crypto, q: Context, p: Context, x: Exchange)
    requires Agree(q, p)
    ensures var r := Respond(cr, q, p, Event(x, Normal));
            var t := Attempt(cr, q, p, Event(x, Normal));
            |r.message| >= 2 && r.message[1] == ERROR && !Agree(t.ctx, r.ctx) <==> LateError(cr, q, p, x)
  {
    hide Served, Received, LateError;
    ServedError(cr, q, p, x);
    var r := Respond(cr, q, p, Event(x, Normal));
    if IsRefusal(r.message) {
      RefusalLeavesRequester(cr, q, x, r.message);
    }
  }

  /**
   The failing family: a responder without a chain takes GET_DIGESTS into B before it turns it down. The
   requester takes it back, and B differs from then on.
   */
  lemma DigestsErrorBreaksLockstep(cr: Crypto, q: Context, p: Context)
    requires Agree(q, p) && q.state == Negotiated && p.state == Negotiated && IsCapable(p, false, 0, CERT_CAP)
    requires !AnyChainProvisioned(p.local) && |p.messageB| + 4 <= MAX_MESSAGE_BUFFER
    ensures var r := Respond(cr, q, p, Event(DigestsExchange, Normal));
            var t := Attempt(cr, q, p, Event(DigestsExchange, Normal));
            r.message[1] == ERROR && t.ctx.messageB == q.messageB && |r.ctx.messageB| == |t.ctx.messageB| + 4
            && !Agree(t.ctx, r.ctx)
  {
    hide AnyChainProvisioned, VersionIn, And;
    ErrorBreaksAgreementExactly(cr, q, p, DigestsExchange);
  }

  // ---------- Responders that are not in their normal state ----------

  /** A BUSY reply changes nothing but the requester's last-error word. */
  lemma BusyChangesNothing(cr: Crypto, q: Context, p: Context, x: Exchange)
    ensures Respond(cr, q, p, Event(x, Busy)) == Response(p, ErrorMessage(Version(p), BUSY, 0))
    ensures var t := Attempt(cr, q, p, Event(x, Busy));
            t.ctx == q || t.ctx == q.(errorState := NoCapabilities)
  {
    hide Received, RequestOf, VersionIn;
    NotNormal(cr, q, p, Event(x, Busy));
    RefusalLeavesRequester(cr, q, x, ErrorMessage(Version(p), BUSY, 0));
  }

  lemma NotNormal(cr: Crypto, q: Context, p: Context, e: Event)
    requires e.mode != Normal
    ensures Respond(cr, q, p, e) == NotNow(p, e.mode, RequestOf(q, e.exchange)[1], 0)
  {
    hide NotNow;
  }

  /** REQUEST_RESYNCH throws away the state of a requester that had sent the request, and nothing else. */
  lemma ResynchLeavesRequester(cr: Crypto, q: Context, x: Exchange, m: seq<byte>)
    requires |m| >= 4 && m[1] == ERROR && m[2] == REQUEST_RESYNCH
    ensures var t := Received(cr, q, x, Says(m)).ctx;
            t == q.(errorState := t.errorState, state := t.state) && (t.state == q.state || t.state == NotStarted)
  {
    hide IsCapable, NegotiateRequest, GetCapabilitiesRequest, AdoptAlgorithms, CheckChallengeAuth,
         GetCertificateRequest, ChallengeRequest;
  }

  /** BUSY, REQUEST_RESYNCH and REQUEST_IN_FLIGHT keep the two ends in agreement. */
  lemma OtherStatesKeepAgreement(cr: Crypto, q: Context, p: Context, e: Event)
    requires Agree(q, p) && (e.mode == Busy || e.mode == NeedResync || e.mode == ProcessingEncap)
    ensures Agree(Attempt(cr, q, p, e).ctx, Respond(cr, q, p, e).ctx)
  {
    hide Received, Respond, VersionIn;
    NotNormal(cr, q, p, e);
    var m := Respond(cr, q, p, e).message;
    if e.mode == NeedResync {
      ResynchLeavesRequester(cr, q, e.exchange, m);
    } else {
      RefusalLeavesRequester(cr, q, e.exchange, m);
    }
  }

  // ---------- Runs ----------

  /** The exchange is completed by the requester, or turned down without a trace. */
  ghost predicate Harmless(cr: Crypto, q: Context, p: Context, e: Event) {
    match e.mode
    case Normal =>
      || Attempt(cr, q, p, e).status == Success
      || (IsRefusal(Respond(cr, q, p, e).message) && !LateError(cr, q, p, e.exchange))
    case NotReady => false
    case _ => true
  }

  /** One harmless exchange keeps the two ends in agreement. */
  lemma StepKeepsAgreement(cr: Crypto, q: Context, p: Context, e: Event)
    requires SizeLaws(cr) && Agree(q, p) && p.local.slotCount <= MAX_SLOTS
    ensures Harmless(cr, q, p, e) ==> Agree(Attempt(cr, q, p, e).ctx, Respond(cr, q, p, e).ctx)
  {
    hide SizeLaws, TryGetCapabilities, TryNegotiateAlgorithms, TryGetDigests, TryChallenge, CertificateRound,
         HandleGetCapabilities, HandleNegotiateAlgorithms, HandleGetDigests, HandleGetCertificate, HandleChallenge,
         Optimal, LateError, Agree;
    if Harmless(cr, q, p, e) {
      if e.mode != Normal {
        OtherStatesKeepAgreement(cr, q, p, e);
      } else if Attempt(cr, q, p, e).status != Success {
        ErrorBreaksAgreementExactly(cr, q, p, e.exchange);
      } else {
        match e.exchange
        case CapabilitiesExchange(stale) => CapabilitiesKeepAgreement(q, p, stale);
        case AlgorithmsExchange => AlgorithmsKeepAgreement(q, p);
        case DigestsExchange => DigestsKeepAgreement(cr, q, p);
        case CertificateExchange(slot, length, chain) => CertificateKeepsAgreement(q, p, slot, length, chain);
        case ChallengeExchange(slot, hashType, nonceQ, nonceP, measured, encapOk) =>
          ChallengeKeepsAgreement(cr, q, p, slot, hashType, nonceQ, nonceP, measured, encapOk);
      }
    }
  }

  lemma AlgorithmsKeepAgreement(q: Context, p: Context)
    requires Agree(q, p)
    ensures var r := HandleNegotiateAlgorithms(p, Normal, NegotiateRequest(q));
            var t := TryNegotiateAlgorithms(q, Says(r.message));
            t.status == Success ==> Agree(t.ctx, r.ctx) && t.ctx.state == r.ctx.state == Negotiated
  {
    hide HandleNegotiateAlgorithms, NegotiateRequest, Optimal, AdoptAlgorithms;
    NegotiationAgrees(q, p);
  }

  /** No exchange touches what the owner provisioned. */
  lemma ResponderLocalIsKept(cr: Crypto, q: Context, p: Context, e: Event)
    ensures Respond(cr, q, p, e).ctx.local == p.local
  {
    hide IsCapable, NegotiateRequest, GetCapabilitiesRequest, BaseAlgorithmsOk, SessionSizesOk, KeyScheduleOk,
         SelectAlgorithms, OfferIn, AlgorithmsResponse, TablesScan, CapabilitiesResponse, RequesterFlagsOk,
         DigestsResponse, CertificateResponse, ChallengeAuthBody, SummaryHash, Version, AsksBasicMutAuth;
  }

  /** Every exchange of the run is harmless. */
  ghost predicate Undisturbed(cr: Crypto, q: Context, p: Context, es: seq<Event>)
    decreases |es|
  {
    es == [] || (&& Harmless(cr, q, p, es[0])
                 && Undisturbed(cr, Attempt(cr, q, p, es[0]).ctx, Respond(cr, q, p, es[0]).ctx, es[1..]))
  }

  /** The two contexts at the end of a run. */
  function Play(cr: Crypto, q: Context, p: Context, es: seq<Event>): (Context, Context)
    decreases |es|
  {
    if es == [] then (q, p)
    else Play(cr, Attempt(cr, q, p, es[0]).ctx, Respond(cr, q, p, es[0]).ctx, es[1..])
  }

  /**
   Lockstep: over every run of exchanges that are completed, turned down before they are cached, or met by a busy,
   resynching or encapsulating responder, transcripts A, B and C, the negotiated algorithms and, in 1.1, the answers to
   all capability queries stay equal at both ends.
   */
  lemma {:induction false} LockstepRun(cr: Crypto, q: Context, p: Context, es: seq<Event>)
    requires SizeLaws(cr) && Agree(q, p) && p.local.slotCount <= MAX_SLOTS
    ensures Undisturbed(cr, q, p, es) ==> Agree(Play(cr, q, p, es).0, Play(cr, q, p, es).1)
    decreases |es|
  {
    hide Agree, SizeLaws, Attempt, Respond, Harmless;
    if es != [] && Undisturbed(cr, q, p, es) {
      StepKeepsAgreement(cr, q, p, es[0]);
      ResponderLocalIsKept(cr, q, p, es[0]);
      LockstepRun(cr, Attempt(cr, q, p, es[0]).ctx, Respond(cr, q, p, es[0]).ctx, es[1..]);
    }
  }

  /**
   And only late errors break it: from agreeing contexts, an exchange answered with ERROR in the normal state is
   harmless unless late.
   */
  lemma ErrorsAreHarmlessUnlessLate(cr: Crypto, q: Context, p: Context, x: Exchange)
    requires Agree(q, p)
    ensures var r := Respond(cr, q, p, Event(x, Normal));
            |r.message| >= 2 && r.message[1] == ERROR && Attempt(cr, q, p, Event(x, Normal)).status != Success ==>
              (Harmless(cr, q, p, Event(x, Normal)) <==> Agree(Attempt(cr, q, p, Event(x, Normal)).ctx, r.ctx))
  {
    hide Agree, Served, Received, LateError;
    assert q.versions == p.versions by { AgreeOnVersions(q, p); }
    ServedError(cr, q, p, x);
    ErrorBreaksAgreementExactly(cr, q, p, x);
  }

  lemma AgreeOnVersions(q: Context, p: Context)
    requires Agree(q, p)
    ensures q.versions == p.versions
  {
  }
}
