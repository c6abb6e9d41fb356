/**
 Retrying GET_CERTIFICATE. A refused attempt takes back only the round that was refused: what earlier rounds
 exchanged stays in message B, and the next attempt starts over behind it.
 */
module CertificateRetry {
  import opened Bytes
  import opened Spdm
  import opened Crypto
  import opened ManagedBuffers
  import opened DeviceContext
  import opened Exchanges
  import opened Retrying
  import opened CertificateTransfer
  import opened RetryTransparency

  // ---------- What the loop leaves in message B ----------

  /** The bytes the loop adds to message B from round i on. */
  function Traffic(s: Context, slot: byte, length: u16, chain: seq<byte>, peer: nat -> Reply, i: nat): seq<byte>
    decreases MAX_MESSAGE_BUFFER - |s.messageB|
  {
    match CertificateRound(s, slot, length, chain, peer(i))
    case Stopped(_, t) => t.messageB[Min(|s.messageB|, |t.messageB|)..]
    case Completed(t, longer, remainder) =>
      t.messageB[|s.messageB|..] + if remainder == 0 then [] else Traffic(t, slot, length, longer, peer, i + 1)
  }

  /** The guard of the round's two exits for lack of room in message B. */
  predicate RoundOutOfRoom(s: Context, slot: byte, r: Reply) {
    var o := LongOutcome(r, CERTIFICATE, CERTIFICATE_MAX);
    && !o.NotSent?
    && (|s.messageB| + 8 > MAX_MESSAGE_BUFFER
        || (o.Answer? && PortionOk(o.message, slot)
            && |s.messageB| + 16 + At16(o.message, 4) as int > MAX_MESSAGE_BUFFER))
  }

  /** The loop ends because some round meets a full message B. */
  predicate OutOfRoom(s: Context, slot: byte, length: u16, chain: seq<byte>, peer: nat -> Reply, i: nat)
    decreases MAX_MESSAGE_BUFFER - |s.messageB|
  {
    match CertificateRound(s, slot, length, chain, peer(i))
    case Stopped(_, _) => RoundOutOfRoom(s, slot, peer(i))
    case Completed(t, longer, remainder) => remainder != 0 && OutOfRoom(t, slot, length, longer, peer, i + 1)
  }

  /** What one round does, by the room it meets. */
  lemma RoundEffect(s: Context, slot: byte, length: u16, chain: seq<byte>, r: Reply)
    requires |chain| <= |s.messageB| <= MAX_MESSAGE_BUFFER
    ensures match CertificateRound(s, slot, length, chain, r)
            case Stopped(status, t) =>
              && |s.messageB| <= |t.messageB| <= Min(|s.messageB| + 8, MAX_MESSAGE_BUFFER)
              && t.messageB[..|s.messageB|] == s.messageB
              && t == s.(messageB := t.messageB, state := t.state)
              && (status == SecurityViolation <==> RoundOutOfRoom(s, slot, r))
              && (status == NoResponse ==> t == s && LongOutcome(r, CERTIFICATE, CERTIFICATE_MAX) == Refused(BUSY))
              && (status == SecurityViolation ==> t.state == s.state)
            case Completed(t, longer, _) =>
              && !RoundOutOfRoom(s, slot, r)
              && |s.messageB| + 16 <= |t.messageB| <= MAX_MESSAGE_BUFFER && t.messageB[..|s.messageB|] == s.messageB
              && |longer| <= |t.messageB| && t == s.(messageB := t.messageB, state := AfterCertificate)
  {
    hide GetCertificateRequest, PortionOk;
    PortionFits(r, slot);
  }

  lemma PortionFits(r: Reply, slot: byte)
    ensures var o := LongOutcome(r, CERTIFICATE, CERTIFICATE_MAX);
            o.Answer? && PortionOk(o.message, slot) ==> |o.message| >= 8 && 8 + At16(o.message, 4) <= |o.message|
  {
  }

  /** Two rounds on the same chain and reply, one with no less in message B than the other. */
  lemma RoundsCompare(s: Context, t: Context, slot: byte, length: u16, chain: seq<byte>, r: Reply)
    requires t == s.(messageB := t.messageB, state := t.state)
             && |chain| <= |s.messageB| <= |t.messageB| <= MAX_MESSAGE_BUFFER
    ensures RoundOutOfRoom(s, slot, r) ==> RoundOutOfRoom(t, slot, r)
    ensures !RoundOutOfRoom(t, slot, r) ==>
              match CertificateRound(s, slot, length, chain, r)
              case Stopped(status, s') =>
                var b := CertificateRound(t, slot, length, chain, r);
                && b.Stopped? && b.status == status
                && b.ctx.messageB == t.messageB + s'.messageB[Min(|s.messageB|, |s'.messageB|)..]
              case Completed(s', longer, remainder) =>
                var b := CertificateRound(t, slot, length, chain, r);
                && b.Completed? && b.chain == longer && b.remainder == remainder
                && b.ctx.messageB == t.messageB + s'.messageB[|s.messageB|..]
  {
    hide PortionOk;
    assert GetCertificateRequest(s, slot, |chain|, length) == GetCertificateRequest(t, slot, |chain|, length);
    hide GetCertificateRequest;
    PortionFits(r, slot);
  }

  // ---------- Whole loops ----------

  /** What the loop leaves behind. */
  lemma {:induction false} LoopEffect(cr: Crypto, s: Context, slot: byte, length: u16, chain: seq<byte>,
                                      capacity: Option<nat>, peer: nat -> Reply, i: nat)
    requires |chain| <= |s.messageB| <= MAX_MESSAGE_BUFFER
    ensures var r := CertificateLoop(cr, s, slot, length, chain, capacity, peer, i);
            var e := Traffic(s, slot, length, chain, peer, i);
            var n := RoundsCompleted(s, slot, length, chain, peer, i);
            && r.ctx.messageB == s.messageB + e && |r.ctx.messageB| <= MAX_MESSAGE_BUFFER
            && (n > 0 <==> |e| >= 16)
            && (OutOfRoom(s, slot, length, chain, peer, i) ==>
                  r == Step(SecurityViolation,
                            s.(messageB := s.messageB + e, state := if n > 0 then AfterCertificate else s.state), ()))
            && (r.status == SecurityViolation && r.ctx.errorState != CertificateFailure ==>
                  OutOfRoom(s, slot, length, chain, peer, i))
            && (r.status == NoResponse ==>
                  r.ctx == s.(messageB := r.ctx.messageB, state := if n > 0 then AfterCertificate else s.state))
            && (r.status == NoResponse && n == 0 ==> e == [])
            && (r.status == NoResponse ==>
                  (n == 0 <==> LongOutcome(peer(i), CERTIFICATE, CERTIFICATE_MAX) == Refused(BUSY)))
    decreases MAX_MESSAGE_BUFFER - |s.messageB|
  {
    hide CertificateRound, RoundOutOfRoom, PeerChainAccepted;
    RoundEffect(s, slot, length, chain, peer(i));
    RefusalStops(s, slot, length, chain, peer(i));
    var round := CertificateRound(s, slot, length, chain, peer(i));
    if round.Completed? && round.remainder != 0 {
      LoopEffect(cr, round.ctx, slot, length, round.chain, capacity, peer, i + 1);
    }
  }

  lemma RefusalStops(s: Context, slot: byte, length: u16, chain: seq<byte>, r: Reply)
    ensures LongOutcome(r, CERTIFICATE, CERTIFICATE_MAX).Refused? ==>
              CertificateRound(s, slot, length, chain, r).Stopped?
  {
  }

  /** With more bytes in message B and still no lack of room, the loop exchanges the same bytes. */
  lemma {:induction false} SameTraffic(s: Context, t: Context, slot: byte, length: u16, chain: seq<byte>,
                                       peer: nat -> Reply, i: nat)
    requires t == s.(messageB := t.messageB, state := t.state)
             && |chain| <= |s.messageB| <= |t.messageB| <= MAX_MESSAGE_BUFFER
    requires !OutOfRoom(t, slot, length, chain, peer, i)
    ensures Traffic(s, slot, length, chain, peer, i) == Traffic(t, slot, length, chain, peer, i)
    decreases MAX_MESSAGE_BUFFER - |s.messageB|
  {
    hide CertificateRound, RoundOutOfRoom;
    RoundEffect(s, slot, length, chain, peer(i));
    RoundEffect(t, slot, length, chain, peer(i));
    RoundsCompare(s, t, slot, length, chain, peer(i));
    var a := CertificateRound(s, slot, length, chain, peer(i));
    var b := CertificateRound(t, slot, length, chain, peer(i));
    if a.Completed? && a.remainder != 0 {
      SameTraffic(a.ctx, b.ctx, slot, length, a.chain, peer, i + 1);
    }
  }

  /**
   Two loops from contexts that differ by `more` bytes in message B end alike exactly when both meet a full
   message B and the shorter one exchanges `more` first.
   */
  lemma LoopsCompare(cr: Crypto, s: Context, t: Context, more: seq<byte>, slot: byte, length: u16,
                     capacity: Option<nat>, peer: nat -> Reply)
    requires t == s.(messageB := s.messageB + more, state := AfterCertificate) && |t.messageB| <= MAX_MESSAGE_BUFFER
    requires |more| >= 16 && s.errorState == NoCapabilities
    ensures CertificateLoop(cr, t, slot, length, [], capacity, peer, 0)
              == CertificateLoop(cr, s, slot, length, [], capacity, peer, 0) <==>
              && OutOfRoom(t, slot, length, [], peer, 0) && OutOfRoom(s, slot, length, [], peer, 0)
              && Traffic(s, slot, length, [], peer, 0) == more + Traffic(t, slot, length, [], peer, 0)
  {
    hide CertificateLoop, OutOfRoom, Traffic, RoundsCompleted;
    LoopEffect(cr, s, slot, length, [], capacity, peer, 0);
    LoopEffect(cr, t, slot, length, [], capacity, peer, 0);
    var a := CertificateLoop(cr, s, slot, length, [], capacity, peer, 0);
    var b := CertificateLoop(cr, t, slot, length, [], capacity, peer, 0);
    var e := Traffic(s, slot, length, [], peer, 0);
    var f := Traffic(t, slot, length, [], peer, 0);
    assert s.messageB + more + f == s.messageB + (more + f);
    if OutOfRoom(t, slot, length, [], peer, 0) && OutOfRoom(s, slot, length, [], peer, 0) && e == more + f {
      assert a.ctx == b.ctx;
    }
    if a == b {
      Cancel(s.messageB, e, more + f);
      if !OutOfRoom(t, slot, length, [], peer, 0) {
        SameTraffic(s, t, slot, length, [], peer, 0);
        assert false;
      }
    }
  }

  lemma Cancel(b: seq<byte>, x: seq<byte>, y: seq<byte>)
    requires b + x == b + y
    ensures x == y
  {
    assert (b + x)[|b|..] == x && (b + y)[|b|..] == y;
  }

  // ---------- Retried attempts ----------

  /** BUSY comes as the answer to the first round. */
  predicate RefusedAtOnce(peer: nat -> Reply) {
    LongOutcome(peer(0), CERTIFICATE, CERTIFICATE_MAX) == Refused(BUSY)
  }

  /**
   What refused attempts that began in s leave: `more` bytes in message B, from at least one whole round or none at all.
   */
  ghost predicate Resumed(s: Context, t: Context, more: seq<byte>) {
    && t == s.(errorState := NoCapabilities, messageB := s.messageB + more,
               state := if more == [] then s.state else AfterCertificate)
    && (more == [] || (|more| >= 16 && MayGetCertificate(s))) && |t.messageB| <= MAX_MESSAGE_BUFFER
  }

  /** One more refused attempt. */
  lemma RefusedAttempt(cr: Crypto, s: Context, t: Context, more: seq<byte>, slot: byte, length: u16,
                       capacity: Option<nat>, peer: nat -> Reply)
    requires Resumed(s, t.(errorState := NoCapabilities), more)
    requires TryGetCertificate(cr, t, slot, length, capacity, peer).status == NoResponse
    ensures MayGetCertificate(s) && slot < MAX_SLOTS
    ensures var e := Traffic(t.(errorState := NoCapabilities), slot, BlockLength(length), [], peer, 0);
            && Resumed(s, TryGetCertificate(cr, t, slot, length, capacity, peer).ctx, more + e)
            && (e == [] <==> RefusedAtOnce(peer))
  {
    hide CertificateLoop, Traffic, RoundsCompleted, OutOfRoom, And, LongOutcome;
    assert MayGetCertificate(t) && slot < MAX_SLOTS;
    assert MayGetCertificate(s);
    var t0 := t.(errorState := NoCapabilities);
    LoopEffect(cr, t0, slot, BlockLength(length), [], capacity, peer, 0);
    var e := Traffic(t0, slot, BlockLength(length), [], peer, 0);
    assert s.messageB + more + e == s.messageB + (more + e);
  }

  /** So k refused attempts leave message B alone exactly when each is refused at once. */
  lemma {:induction false} RefusedAttempts(cr: Crypto, s: Context, t: Context, more: seq<byte>, slot: byte, length: u16,
                                           capacity: Option<nat>,
                                           inputs: nat -> nat -> Reply, i: nat, k: nat) returns (all: seq<byte>)
    requires Resumed(s, t.(errorState := NoCapabilities), more) && (k == 0 ==> t.errorState == NoCapabilities)
    requires AllRefused(CertificateAttempt(cr, slot, length, capacity), t, inputs, i, k)
    ensures Resumed(s, AfterAttempts(CertificateAttempt(cr, slot, length, capacity), t, inputs, i, k), all)
    ensures all == [] <==> more == [] && forall j: nat :: i <= j < i + k ==> RefusedAtOnce(inputs(j))
    ensures k > 0 ==> MayGetCertificate(s) && slot < MAX_SLOTS
    decreases k
  {
    hide TryGetCertificate, RefusedAtOnce, Traffic, MayGetCertificate;
    all := more;
    if k > 0 {
      var r := TryGetCertificate(cr, t, slot, length, capacity, inputs(i));
      assert CertificateAttempt(cr, slot, length, capacity)(t, inputs(i)) == r;
      RefusedAttempt(cr, s, t, more, slot, length, capacity, inputs(i));
      var e := Traffic(t.(errorState := NoCapabilities), slot, BlockLength(length), [], inputs(i), 0);
      all := RefusedAttempts(cr, s, r.ctx, more + e, slot, length, capacity, inputs, i + 1, k - 1);
    }
  }

  /**
   The later attempt meets a full message B both behind the refused ones and without them, and without them it
   exchanges what they left and then what it exchanges behind them.
   */
  ghost predicate RepeatsUntilFull(s: Context, t: Context, slot: byte, length: u16, peer: nat -> Reply) {
    && |s.messageB| <= |t.messageB|
    && OutOfRoom(s, slot, length, [], peer, 0) && OutOfRoom(t, slot, length, [], peer, 0)
    && Traffic(s, slot, length, [], peer, 0) == t.messageB[|s.messageB|..] + Traffic(t, slot, length, [], peer, 0)
  }

  /**
   k refused attempts followed by a deciding one, 1 <= k <= RetryTimes, end as the deciding attempt alone if and
   only if every refusal came at once, or message B is full either way and the same bytes filled it.
   */
  lemma CertificateRetryExactly(cr: Crypto, s: Context, slot: byte, length: u16, capacity: Option<nat>,
                                inputs: nat -> nat -> Reply, k: nat)
    requires |s.messageB| <= MAX_MESSAGE_BUFFER && 1 <= k <= s.local.retryTimes
    requires AllRefused(CertificateAttempt(cr, slot, length, capacity), s, inputs, 0, k)
    requires var t := AfterAttempts(CertificateAttempt(cr, slot, length, capacity), s, inputs, 0, k);
             TryGetCertificate(cr, t, slot, length, capacity, inputs(k)).status != NoResponse
    ensures var attempt := CertificateAttempt(cr, slot, length, capacity);
            var t := AfterAttempts(attempt, s, inputs, 0, k);
            Retry(attempt, s, inputs, 0, s.local.retryTimes)
              == TryGetCertificate(cr, s, slot, length, capacity, inputs(k)) <==>
              || (forall j: nat :: j < k ==> RefusedAtOnce(inputs(j)))
              || RepeatsUntilFull(s.(errorState := NoCapabilities), t, slot, BlockLength(length), inputs(k))
  {
    hide TryGetCertificate, RefusedAtOnce, RepeatsUntilFull, AllRefused, AfterAttempts;
    var attempt := CertificateAttempt(cr, slot, length, capacity);
    var t := AfterAttempts(attempt, s, inputs, 0, k);
    RetryGoesOn(attempt, s, inputs, 0, k, s.local.retryTimes);
    assert attempt(t, inputs(k)) == TryGetCertificate(cr, t, slot, length, capacity, inputs(k));
    assert s.messageB + [] == s.messageB;
    var more := RefusedAttempts(cr, s, s, [], slot, length, capacity, inputs, 0, k);
    LaterAttempt(cr, s, t, more, slot, length, capacity, inputs(k));
    assert (forall j: nat :: j < k ==> RefusedAtOnce(inputs(j))) <==>
             (forall j: nat :: 0 <= j < 0 + k ==> RefusedAtOnce(inputs(j)));
  }

  lemma LaterAttempt(cr: Crypto, s: Context, t: Context, more: seq<byte>, slot: byte, length: u16,
                     capacity: Option<nat>, peer: nat -> Reply)
    requires Resumed(s, t, more) && MayGetCertificate(s) && slot < MAX_SLOTS
    ensures TryGetCertificate(cr, t, slot, length, capacity, peer)
              == TryGetCertificate(cr, s, slot, length, capacity, peer) <==>
              more == [] || RepeatsUntilFull(s.(errorState := NoCapabilities), t, slot, BlockLength(length), peer)
  {
    hide CertificateLoop, Traffic, OutOfRoom, And;
    var s0 := s.(errorState := NoCapabilities);
    assert t.(errorState := NoCapabilities) == t && MayGetCertificate(t);
    assert t.messageB[|s.messageB|..] == more;
    if more == [] {
      assert s.messageB + [] == s.messageB;
    } else {
      LoopsCompare(cr, s0, t, more, slot, BlockLength(length), capacity, peer);
    }
  }

  /** Refusals that all come at once are transparent, however many there are within RetryTimes. */
  lemma CertificateRetry(cr: Crypto, s: Context, slot: byte, length: u16, capacity: Option<nat>,
                         inputs: nat -> nat -> Reply, k: nat)
    requires |s.messageB| <= MAX_MESSAGE_BUFFER && k <= s.local.retryTimes
    requires forall j: nat :: j < k ==>
               RefusedAtOnce(inputs(j))
               && TryGetCertificate(cr, s, slot, length, capacity, inputs(j)).status == NoResponse
    requires TryGetCertificate(cr, s, slot, length, capacity, inputs(k)).status != NoResponse
    ensures Retry(CertificateAttempt(cr, slot, length, capacity), s, inputs, 0, s.local.retryTimes) ==
              TryGetCertificate(cr, s, slot, length, capacity, inputs(k))
  {
    hide TryGetCertificate, RefusedAtOnce;
    var attempt := CertificateAttempt(cr, slot, length, capacity);
    if k > 0 {
      AtOnceRewinds(cr, s, slot, length, capacity, inputs(0));
    }
    StaysRefused(cr, s, s, slot, length, capacity, inputs, 0, k);
    RetryGoesOn(attempt, s, inputs, 0, k, s.local.retryTimes);
    var t := AfterAttempts(attempt, s, inputs, 0, k);
    assert attempt(t, inputs(k)) == TryGetCertificate(cr, t, slot, length, capacity, inputs(k));
  }

  /** An attempt refused at once changes the last-error word only, and no later attempt can tell. */
  lemma AtOnceRewinds(cr: Crypto, s: Context, slot: byte, length: u16, capacity: Option<nat>, x: nat -> Reply)
    requires |s.messageB| <= MAX_MESSAGE_BUFFER && RefusedAtOnce(x)
    requires TryGetCertificate(cr, s, slot, length, capacity, x).status == NoResponse
    ensures var t := TryGetCertificate(cr, s, slot, length, capacity, x).ctx;
            && t == s.(errorState := NoCapabilities)
            && forall y :: TryGetCertificate(cr, t, slot, length, capacity, y)
                 == TryGetCertificate(cr, s, slot, length, capacity, y)
  {
    hide CertificateLoop, Traffic, OutOfRoom, And, RefusedAtOnce, RepeatsUntilFull;
    assert s.messageB + [] == s.messageB;
    RefusedAttempt(cr, s, s, [], slot, length, capacity, x);
    var t := TryGetCertificate(cr, s, slot, length, capacity, x).ctx;
    forall y
      ensures TryGetCertificate(cr, t, slot, length, capacity, y)
                == TryGetCertificate(cr, s, slot, length, capacity, y) {
      LaterAttempt(cr, s, t, [], slot, length, capacity, y);
    }
  }

  lemma {:induction false} StaysRefused(cr: Crypto, s: Context, t: Context, slot: byte, length: u16,
                                        capacity: Option<nat>, inputs: nat -> nat -> Reply, i: nat, k: nat)
    requires |s.messageB| <= MAX_MESSAGE_BUFFER && i <= k && t.messageB == s.messageB
    requires forall j: nat :: j < k ==>
               RefusedAtOnce(inputs(j))
               && TryGetCertificate(cr, s, slot, length, capacity, inputs(j)).status == NoResponse
    requires forall y :: TryGetCertificate(cr, t, slot, length, capacity, y)
               == TryGetCertificate(cr, s, slot, length, capacity, y)
    ensures var attempt := CertificateAttempt(cr, slot, length, capacity);
            var u := AfterAttempts(attempt, t, inputs, i, k - i);
            && AllRefused(attempt, t, inputs, i, k - i)
            && forall y :: TryGetCertificate(cr, u, slot, length, capacity, y)
                 == TryGetCertificate(cr, s, slot, length, capacity, y)
    decreases k - i
  {
    hide TryGetCertificate, RefusedAtOnce;
    if i < k {
      var attempt := CertificateAttempt(cr, slot, length, capacity);
      assert attempt(t, inputs(i)) == TryGetCertificate(cr, t, slot, length, capacity, inputs(i));
      assert RefusedAtOnce(inputs(i));
      AtOnceRewinds(cr, t, slot, length, capacity, inputs(i));
      StaysRefused(cr, s, attempt(t, inputs(i)).ctx, slot, length, capacity, inputs, i + 1, k);
    }
  }

  /** A refused attempt is invisible to every later one if and only if it was refused at once. */
  lemma CertificateRewindsAlways(cr: Crypto, s: Context, slot: byte, length: u16, capacity: Option<nat>,
                                 x: nat -> Reply)
    requires |s.messageB| <= MAX_MESSAGE_BUFFER
    requires TryGetCertificate(cr, s, slot, length, capacity, x).status == NoResponse
    ensures (forall y :: TryGetCertificate(cr, TryGetCertificate(cr, s, slot, length, capacity, x).ctx, slot, length,
                                           capacity, y)
                         == TryGetCertificate(cr, s, slot, length, capacity, y)) <==> RefusedAtOnce(x)
  {
    if RefusedAtOnce(x) {
      AtOnceRewinds(cr, s, slot, length, capacity, x);
    } else {
      hide CertificateLoop, Traffic, And, RefusedAtOnce;
      assert s.messageB + [] == s.messageB;
      RefusedAttempt(cr, s, s, [], slot, length, capacity, x);
      var more := [] + Traffic(s.(errorState := NoCapabilities), slot, BlockLength(length), [], x, 0);
      var y: nat -> Reply := (_: nat) => Reply(SendFails, SendFails);
      LaterAttempt(cr, s, TryGetCertificate(cr, s, slot, length, capacity, x).ctx, more, slot, length, capacity, y);
      assert !OutOfRoom(s.(errorState := NoCapabilities), slot, BlockLength(length), [], y, 0);
    }
  }

  /** A peer that completes one round with an empty portion and then refuses. */
  lemma EmptyThenBusy(cr: Crypto, s: Context, slot: byte, length: u16, capacity: Option<nat>, peer: nat -> Reply)
    requires |s.messageB| + 24 <= MAX_MESSAGE_BUFFER
    requires peer(0) == EmptyPortion(VERSION_11, slot) && peer(1) == BusyReply(VERSION_11)
    ensures var r := CertificateLoop(cr, s, slot, length, [], capacity, peer, 0);
            r.status == NoResponse && |r.ctx.messageB| == |s.messageB| + 16
  {
    var m: seq<byte> := [VERSION_11, CERTIFICATE, slot, 0] + Le16(0) + Le16(1);
    assert peer(0) == Says(m) && At16(m, 4) == 0 && At16(m, 6) == 1;
    assert m[..8] == m && m[8..8] == [];
    var round := CertificateRound(s, slot, length, [], peer(0));
    assert round.Completed? && round.chain == [] && round.remainder == 1 && |round.ctx.messageB| == |s.messageB| + 16;
    var busy := ErrorMessage(VERSION_11, BUSY, 0);
    assert peer(1) == Says(busy) && LongOutcome(peer(1), CERTIFICATE, CERTIFICATE_MAX) == Refused(BUSY);
    var second := CertificateRound(round.ctx, slot, length, [], peer(1));
    assert second == Stopped(NoResponse, round.ctx);
    hide CertificateRound;
    assert CertificateLoop(cr, round.ctx, slot, length, [], capacity, peer, 1) == Step(NoResponse, round.ctx, ());
  }

  /**
   The failing family: a peer that completes a round with an empty portion, then refuses, then cannot be reached.
   The retried call leaves sixteen bytes in message B that the last attempt alone does not.
   */
  lemma CertificateRetryKeepsRounds(cr: Crypto, s: Context, slot: byte, length: u16, capacity: Option<nat>,
                                    inputs: nat -> nat -> Reply)
    requires MayGetCertificate(s) && slot < MAX_SLOTS && |s.messageB| + 24 <= MAX_MESSAGE_BUFFER
             && s.local.retryTimes >= 1
    requires inputs(0)(0) == EmptyPortion(VERSION_11, slot) && inputs(0)(1) == BusyReply(VERSION_11)
    requires inputs(1)(0).first.SendFails?
    ensures var r := Retry(CertificateAttempt(cr, slot, length, capacity), s, inputs, 0, s.local.retryTimes);
            var alone := TryGetCertificate(cr, s, slot, length, capacity, inputs(1));
            r.status == alone.status && |r.ctx.messageB| == |alone.ctx.messageB| + 16
  {
    hide And, CertificateLoop;
    var s0 := s.(errorState := NoCapabilities);
    EmptyThenBusy(cr, s0, slot, BlockLength(length), capacity, inputs(0));
    var first := TryGetCertificate(cr, s, slot, length, capacity, inputs(0));
    assert s.messageB + [] == s.messageB;
    RefusedAttempt(cr, s, s, [], slot, length, capacity, inputs(0));
    var attempt := CertificateAttempt(cr, slot, length, capacity);
    assert attempt(s, inputs(0)) == first;
    assert attempt(first.ctx, inputs(1)) == TryGetCertificate(cr, first.ctx, slot, length, capacity, inputs(1));
    NotSentKeepsB(cr, s, slot, length, capacity, inputs(1));
    NotSentKeepsB(cr, first.ctx, slot, length, capacity, inputs(1));
  }

  lemma NotSentKeepsB(cr: Crypto, s: Context, slot: byte, length: u16, capacity: Option<nat>, peer: nat -> Reply)
    requires peer(0).first.SendFails? && MayGetCertificate(s) && slot < MAX_SLOTS
    ensures TryGetCertificate(cr, s, slot, length, capacity, peer)
              == Step(DeviceError, s.(errorState := NoCapabilities), ())
  {
  }

  /**
   The other exception exists too: in a message B with room for one round and a half, the refused round cannot be told
   from the next.
   */
  lemma FullMessageBHidesRefusal(cr: Crypto, s: Context, slot: byte, length: u16, capacity: Option<nat>,
                                 x: nat -> Reply, y: nat -> Reply)
    requires MayGetCertificate(s) && slot < MAX_SLOTS && |s.messageB| == MAX_MESSAGE_BUFFER - 24
    requires x(0) == EmptyPortion(VERSION_11, slot) && x(1) == BusyReply(VERSION_11)
    requires y(0) == EmptyPortion(VERSION_11, slot) && y(1) == EmptyPortion(VERSION_11, slot)
    ensures var r := TryGetCertificate(cr, s, slot, length, capacity, x);
            && r.status == NoResponse && !RefusedAtOnce(x)
            && TryGetCertificate(cr, r.ctx, slot, length, capacity, y)
                 == TryGetCertificate(cr, s, slot, length, capacity, y)
  {
    var s0 := s.(errorState := NoCapabilities);
    var len := BlockLength(length);
    var m: seq<byte> := [VERSION_11, CERTIFICATE, slot, 0] + Le16(0) + Le16(1);
    assert x(0) == Says(m) && At16(m, 4) == 0 && At16(m, 6) == 1;
    assert m[..8] == m && m[8..8] == [];
    var round := CertificateRound(s0, slot, len, [], x(0));
    var t := round.ctx;
    assert round == Completed(t, [], 1) && |t.messageB| == MAX_MESSAGE_BUFFER - 8;
    var busy := ErrorMessage(VERSION_11, BUSY, 0);
    assert x(1) == Says(busy);
    assert CertificateRound(t, slot, len, [], x(1)) == Stopped(NoResponse, t);
    var full := CertificateRound(t, slot, len, [], y(0));
    assert full.Stopped? && y(1) == y(0);
    hide CertificateRound, And;
    LoopStops(cr, t, slot, len, [], capacity, x, 1);
    LoopStops(cr, t, slot, len, [], capacity, y, 0);
    LoopStops(cr, t, slot, len, [], capacity, y, 1);
    assert t == t.(errorState := NoCapabilities) && MayGetCertificate(t);
  }

  lemma LoopStops(cr: Crypto, s: Context, slot: byte, length: u16, chain: seq<byte>, capacity: Option<nat>,
                  peer: nat -> Reply, i: nat)
    ensures var round := CertificateRound(s, slot, length, chain, peer(i));
            round.Stopped? ==>
              CertificateLoop(cr, s, slot, length, chain, capacity, peer, i) == Step(round.status, round.ctx, ())
  {
  }
}
