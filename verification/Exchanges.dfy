/** What one request can come back with, and how errors are handled (SpdmRequesterLibHandleErrorResponse.c). */
module Exchanges {
  import opened Bytes
  import opened Spdm
  import opened ManagedBuffers
  import opened DeviceContext

  /** One use of the transport: the send fails, the receive fails, or bytes arrive. */
  datatype Io = SendFails | ReceiveFails | Arrives(bytes: seq<byte>)

  /** The transport's behaviour for one attempt; `ifReady` answers RESPOND_IF_READY when one is sent. */
  datatype Reply = Reply(first: Io, ifReady: Io)

  /** The peer answers with exactly these bytes. */
  function Says(m: seq<byte>): Reply {
    Reply(Arrives(m), ReceiveFails)
  }

  datatype Outcome =
    | NotSent                    // nothing was cached
    | Dropped                    // device error; the request stays cached
    | WrongCode                  // an unexpected response code; the request stays cached
    | Refused(code: byte)        // an ERROR message; the cached request is shrunk away
    | Answer(message: seq<byte>) // at least a header, with the expected code

  /** SpdmRequesterRespondIfReady. */
  function AfterNotReady(second: Io, expected: byte, maxSize: nat): Outcome {
    if second.Arrives? && |second.bytes| >= 4 && second.bytes[1] == expected && |second.bytes| <= maxSize
    then Answer(second.bytes)
    else Dropped
  }

  /** Commands that go through SpdmHandleErrorResponseMain. */
  function LongOutcome(r: Reply, expected: byte, maxSize: nat): (o: Outcome)
    ensures o.Answer? ==> |o.message| >= 4 && o.message[1] == expected
    ensures o.NotSent? <==> r.first.SendFails?
  {
    match r.first
    case SendFails => NotSent
    case ReceiveFails => Dropped
    case Arrives(m) =>
      if |m| < 4 then Dropped
      else if m[1] == ERROR then
        if m[2] == RESPONSE_NOT_READY then AfterNotReady(r.ifReady, expected, maxSize) else Refused(m[2])
      else if m[1] != expected then WrongCode
      else Answer(m)
  }

  /** Commands that go through SpdmHandleSimpleErrorResponse only. */
  function ShortOutcome(r: Reply, expected: byte): (o: Outcome)
    ensures o.Answer? ==> |o.message| >= 4 && o.message[1] == expected
    ensures o.NotSent? <==> r.first.SendFails?
  {
    match r.first
    case SendFails => NotSent
    case ReceiveFails => Dropped
    case Arrives(m) =>
      if |m| < 4 then Dropped
      else if m[1] == ERROR then Refused(m[2])
      else if m[1] != expected then WrongCode
      else Answer(m)
  }

  /** SpdmHandleSimpleErrorResponse: only BUSY may be tried again. */
  function RefusalStatus(code: byte): Status {
    if code == BUSY then NoResponse else DeviceError
  }

  /** SpdmHandleSimpleErrorResponse: REQUEST_RESYNCH throws the connection away. */
  function AfterRefusal(s: Context, code: byte): Context {
    if code == REQUEST_RESYNCH then s.(state := NotStarted) else s
  }

  /** The reply of a responder that cannot take the request now. */
  function BusyReply(version: byte): Reply {
    Says(ErrorMessage(version, BUSY, 0))
  }
}

/** The retry loop wrapped around every request. */
module Retrying {
  import opened Bytes
  import opened ManagedBuffers
  import opened DeviceContext

  /** Attempts number i, i+1, ... until one is not NO_RESPONSE or `left` retries are used up. */
  function Retry<X, R>(attempt: (Context, X) -> Step<R>, s: Context, inputs: nat -> X, i: nat, left: nat): Step<R>
    decreases left
  {
    var r := attempt(s, inputs(i));
    if r.status != NoResponse || left == 0 then r else Retry(attempt, r.ctx, inputs, i + 1, left - 1)
  }

  /** Attempt number i came out as r, with `left` retries to go. */
  ghost predicate Retried<X, R>(attempt: (Context, X) -> Step<R>, s: Context, inputs: nat -> X, i: nat, left: nat,
                                r: Step<R>) {
    Retry(attempt, s, inputs, 0, i + left) ==
      if r.status != NoResponse || left == 0 then r else Retry(attempt, r.ctx, inputs, i + 1, left - 1)
  }

  /** The loop itself; `attempts` counts the requests made. */
  method RetryLoop<X, R>(attempt: (Context, X) -> Step<R>, s: Context, inputs: nat -> X, retryTimes: nat)
    returns (r: Step<R>, attempts: nat)
    ensures r == Retry(attempt, s, inputs, 0, retryTimes)
    ensures 1 <= attempts <= retryTimes + 1
    ensures r.status == NoResponse ==> attempts == retryTimes + 1
  {
    var retry: nat := retryTimes;
    r := attempt(s, inputs(0));
    attempts := 1;
    while r.status == NoResponse && retry != 0
      invariant retry <= retryTimes && attempts == retryTimes - retry + 1
      invariant Retry(attempt, s, inputs, 0, retryTimes) ==
                if r.status != NoResponse || retry == 0 then r
                else Retry(attempt, r.ctx, inputs, attempts, retry - 1)
      decreases retry
    {
      retry := retry - 1;
      r := attempt(r.ctx, inputs(attempts));
      attempts := attempts + 1;
    }
  }

  /**
   An attempt that reports BUSY leaves a context from which any later attempt of the `decisive` kind
   proceeds exactly as from the context it started in.
   */
  ghost predicate Rewinds<X(!new), R>(attempt: (Context, X) -> Step<R>, decisive: X -> bool) {
    forall s, x, y :: attempt(s, x).status == NoResponse && decisive(y) ==>
      attempt(attempt(s, x).ctx, y) == attempt(s, y)
  }

  /** k BUSY attempts followed by another outcome end exactly as that last attempt alone. */
  lemma {:induction false} RetryIsTransparent<X(!new), R>(
      attempt: (Context, X) -> Step<R>, decisive: X -> bool, s: Context, inputs: nat -> X, i: nat, k: nat, left: nat)
    requires Rewinds(attempt, decisive) && k <= left
    requires forall j: nat :: i <= j <= i + k ==> decisive(inputs(j))
    requires forall j: nat :: i <= j < i + k ==> attempt(s, inputs(j)).status == NoResponse
    requires attempt(s, inputs(i + k)).status != NoResponse
    ensures Retry(attempt, s, inputs, i, left) == attempt(s, inputs(i + k))
    decreases k
  {
    if k > 0 {
      var r := attempt(s, inputs(i));
      assert r.status == NoResponse;
      forall j: nat | i + 1 <= j <= i + k
        ensures attempt(r.ctx, inputs(j)) == attempt(s, inputs(j))
      {
        assert decisive(inputs(j));
      }
      RetryIsTransparent(attempt, decisive, r.ctx, inputs, i + 1, k - 1, left - 1);
    }
  }

  /** k <= RetryTimes refusals followed by an attempt that is not refused end as that attempt alone. */
  ghost predicate Transparent<X(!new), R>(attempt: (Context, X) -> Step<R>) {
    forall s: Context, inputs: nat -> X, k: nat ::
      && k <= s.local.retryTimes
      && (forall j: nat :: j < k ==> attempt(s, inputs(j)).status == NoResponse)
      && attempt(s, inputs(k)).status != NoResponse ==>
        Retry(attempt, s, inputs, 0, s.local.retryTimes) == attempt(s, inputs(k))
  }

  lemma RewindsMeansTransparent<X(!new), R>(attempt: (Context, X) -> Step<R>)
    requires Rewinds(attempt, (x: X) => true)
    ensures Transparent(attempt)
  {
    hide Rewinds, Retry;
    forall s: Context, inputs: nat -> X, k: nat |
      && k <= s.local.retryTimes
      && (forall j: nat :: j < k ==> attempt(s, inputs(j)).status == NoResponse)
      && attempt(s, inputs(k)).status != NoResponse
      ensures Retry(attempt, s, inputs, 0, s.local.retryTimes) == attempt(s, inputs(k))
    {
      RetryIsTransparent(attempt, (x: X) => true, s, inputs, 0, k, s.local.retryTimes);
    }
  }

  // ---------- Attempts that do leave a trace ----------

  /** The context after k attempts from number i on. */
  function AfterAttempts<X, R>(attempt: (Context, X) -> Step<R>, s: Context, inputs: nat -> X, i: nat, k: nat): Context
    decreases k
  {
    if k == 0 then s else AfterAttempts(attempt, attempt(s, inputs(i)).ctx, inputs, i + 1, k - 1)
  }

  /** Those k attempts, one after the other, are all refused. */
  ghost predicate AllRefused<X, R>(attempt: (Context, X) -> Step<R>, s: Context, inputs: nat -> X, i: nat, k: nat)
    decreases k
  {
    k == 0 || (attempt(s, inputs(i)).status == NoResponse
               && AllRefused(attempt, attempt(s, inputs(i)).ctx, inputs, i + 1, k - 1))
  }

  /** The retry loop goes on behind k refused attempts, wherever they lead. */
  lemma {:induction false} RetryGoesOn<X, R>(attempt: (Context, X) -> Step<R>, s: Context, inputs: nat -> X, i: nat,
                                             k: nat, left: nat)
    requires k <= left && AllRefused(attempt, s, inputs, i, k)
    ensures Retry(attempt, s, inputs, i, left)
              == Retry(attempt, AfterAttempts(attempt, s, inputs, i, k), inputs, i + k, left - k)
    decreases k
  {
    if k > 0 {
      RetryGoesOn(attempt, attempt(s, inputs(i)).ctx, inputs, i + 1, k - 1, left - 1);
    }
  }
}
