/** Starting and stopping sessions (SpdmRequesterLibCommunication.c), with the retry loops around each request. */
module SessionCalls {
  import opened Bytes
  import opened Spdm
  import opened Crypto
  import opened ManagedBuffers
  import opened DeviceContext
  import opened Exchanges
  import opened Retrying
  import opened SessionTable
  import opened SessionRequester

  /**
   Everything a start meets from outside: randomness and replies per attempt, and the result of the
   encapsulated mutual-authentication step with the slot number it may return.
   */
  datatype StartInput = StartInput(
    kex: nat -> KexInput, encapStatus: Status, encapSlot: Option<byte>, finish: nat -> Reply,
    psk: nat -> PskInput, pskFinish: nat -> PskFinishInput)

  // The attempts that the retry loops repeat.

  function KexAttempt(cr: Crypto, hashType: byte, slot: byte): (Context, KexInput) -> Step<KexOut> {
    (c: Context, x: KexInput) => TryKeyExchange(cr, c, hashType, slot, x)
  }

  function FinishAttempt(cr: Crypto, id: u32, param: byte): (Context, Reply) -> Step<()> {
    (c: Context, r: Reply) => TryFinish(cr, c, id, param, r)
  }

  function PskAttempt(cr: Crypto, hashType: byte): (Context, PskInput) -> Step<u32> {
    (c: Context, x: PskInput) => TryPskExchange(cr, c, hashType, x)
  }

  function PskFinishAttempt(cr: Crypto, id: u32): (Context, PskFinishInput) -> Step<()> {
    (c: Context, x: PskFinishInput) => TryPskFinish(cr, c, id, x)
  }

  function EndAttempt(id: u32): (Context, Reply) -> Step<()> {
    (c: Context, r: Reply) => TryEndSession(c, id, r)
  }

  /** The slot FINISH authenticates with, or how the mutual-authentication step ends the start. */
  datatype MutualStep = Proceed(param: byte) | GiveUp(status: Status)

  function MutualAuth(mutAuthRequested: byte, param: byte, encapStatus: Status, encapSlot: Option<byte>): MutualStep {
    var r := if mutAuthRequested == 0 || mutAuthRequested == 1 then Proceed(param)
             else if mutAuthRequested == 2 || mutAuthRequested == 4 then
               if encapStatus != Success then GiveUp(encapStatus)
               else Proceed(if param == 0 && encapSlot.Some? then encapSlot.value else param)
             else GiveUp(Unsupported);
    if r == Proceed(0xF) then Proceed(0xFF) else r
  }

  /** SpdmStartSession without PSK. */
  function StartDhe(cr: Crypto, s: Context, hashType: byte, slot: byte, x: StartInput): Step<u32> {
    var k := Retry(KexAttempt(cr, hashType, slot), s, x.kex, 0, s.local.retryTimes);
    var id := k.out.sessionId;
    var found := FindSession(k.ctx.sessions, id);
    if k.status != Success then Step(k.status, k.ctx, id)
    else if found.None? then Step(Unsupported, k.ctx, id)
    else
      match MutualAuth(k.ctx.sessions[found.value].mutAuthRequested, k.out.reqSlotParam, x.encapStatus, x.encapSlot)
      case GiveUp(status) => Step(status, k.ctx, id)
      case Proceed(param) =>
        var f := Retry(FinishAttempt(cr, id, param), k.ctx, x.finish, 0, s.local.retryTimes);
        Step(f.status, f.ctx, id)
  }

  /** SpdmStartSession with PSK. */
  function StartPsk(cr: Crypto, s: Context, hashType: byte, x: StartInput): Step<u32> {
    var k := Retry(PskAttempt(cr, hashType), s, x.psk, 0, s.local.retryTimes);
    if k.status != Success || !NeedsPskFinish(k.ctx) then k
    else
      var f := Retry(PskFinishAttempt(cr, k.out), k.ctx, x.pskFinish, 0, s.local.retryTimes);
      Step(f.status, f.ctx, k.out)
  }

  /** SpdmStopSession. */
  function StopSession(s: Context, id: u32, replies: nat -> Reply): Step<()> {
    Retry(EndAttempt(id), s, replies, 0, s.local.retryTimes)
  }

  datatype SessionCall =
    | Start(usePsk: bool, hashType: byte, slot: byte, input: StartInput)
    | Stop(id: u32, replies: nat -> Reply)

  function Call(cr: Crypto, s: Context, c: SessionCall): (Status, Context) {
    match c
    case Start(usePsk, hashType, slot, x) =>
      var r := if usePsk then StartPsk(cr, s, hashType, x) else StartDhe(cr, s, hashType, slot, x);
      (r.status, r.ctx)
    case Stop(id, replies) =>
      var r := StopSession(s, id, replies);
      (r.status, r.ctx)
  }

  function Calls(cr: Crypto, s: Context, cs: seq<SessionCall>): Context
    decreases |cs|
  {
    if cs == [] then s else Calls(cr, Call(cr, s, cs[0]).1, cs[1..])
  }
}

/** What one session attempt does to the table. */
module SessionEffects {
  import opened Bytes
  import opened Spdm
  import opened Crypto
  import opened ManagedBuffers
  import opened DeviceContext
  import opened Exchanges
  import opened SessionTable
  import opened TranscriptHash
  import opened SessionRequester

  /** The response an attempt gets to judge: right code, size and requester slot. */
  ghost predicate KexAnswered(s: Context, slot: byte, x: KexInput) {
    var o := LongOutcome(x.reply, KEY_EXCHANGE_RSP, KEY_EXCHANGE_MAX);
    && MayExchangeKeys(s) && KexParametersOk(s, slot)
    && o.Answer? && 40 <= |o.message| <= KEY_EXCHANGE_MAX && ReqSlotOk(s, o.message)
  }

  /** The verdict on an answered attempt. */
  ghost function KexVerdictOf(cr: Crypto, s: Context, hashType: byte, slot: byte, x: KexInput): KexVerdict
    requires KexAnswered(s, slot, x)
  {
    var share := cr.dheShare(s.algorithms.dhe, x.seed);
    VerdictOn(cr, s.(errorState := NoCapabilities), KexId(s, slot, x), hashType,
              KeyExchangeRequest(s, hashType, slot, AllocateRequesterHalf(s.sessions), x.random, share), share,
              LongOutcome(x.reply, KEY_EXCHANGE_RSP, KEY_EXCHANGE_MAX).message)
  }

  /** The ID an answered attempt makes. */
  ghost function KexId(s: Context, slot: byte, x: KexInput): u32
    requires KexAnswered(s, slot, x)
  {
    SessionIdOf(AllocateRequesterHalf(s.sessions),
                At16(LongOutcome(x.reply, KEY_EXCHANGE_RSP, KEY_EXCHANGE_MAX).message, 4))
  }

  /** An attempt on a coherent table: nothing happens to it, or slot i of it gets the verdict. */
  lemma KeyExchangeEffect(cr: Crypto, s: Context, hashType: byte, slot: byte, x: KexInput)
    requires Coherent(s.sessions)
    ensures var r := TryKeyExchange(cr, s, hashType, slot, x);
            if !KexAnswered(s, slot, x) || Full(s.sessions) then
              r.status != Success && r.ctx.sessions == s.sessions && r.out.dheFreed == r.out.dheCreated
            else
              var id := KexId(s, slot, x);
              var i := AssignSlot(s.sessions, id);
              && i.Some? && s.sessions[i.value].id == INVALID_SESSION_ID
              && r.out.sessionId == id && r.out.dheCreated == 1
              && match KexVerdictOf(cr, s, hashType, slot, x)
                 case Rejected(status, error) =>
                   r.status == status && r.out.dheFreed == 1
                   && r.ctx.sessions == s.sessions[i.value := FreshSession(INVALID_SESSION_ID, false)]
                 case Kept(session) =>
                   r.status == SecurityViolation && r.out.dheFreed == 0
                   && r.ctx.sessions == s.sessions[i.value := session]
                 case Accepted(session) =>
                   r.status == Success && r.out.dheFreed == 1 && r.ctx.sessions == s.sessions[i.value := session]
  {
    hide VerdictOn, KeyExchangeRequest, KexLayoutOf, IsCapable, AllocateRequesterHalf, AssignSlot, Coherent, Full;
    if KexAnswered(s, slot, x) {
      var m := LongOutcome(x.reply, KEY_EXCHANGE_RSP, KEY_EXCHANGE_MAX).message;
      if Full(s.sessions) {
        FullTableRefuses(s.sessions, At16(m, 4));
      } else {
        AllocatorAndAssignerAgree(s.sessions, At16(m, 4), false);
      }
    }
  }
}
