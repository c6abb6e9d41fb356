/**
 Every sequence of calls of the requester's interface (SpdmRequesterLib.h): set-up and re-initialisation, the requests
 between, and starting and stopping sessions, in any order and against any responder.
 */
module ApiRuns {
  import opened Bytes
  import opened Spdm
  import opened Crypto
  import opened ManagedBuffers
  import opened DeviceContext
  import opened Exchanges
  import opened Retrying
  import opened AlgorithmTables
  import opened ConnectionRequester
  import opened CertificateTransfer
  import opened Measurement
  import opened SessionTable
  import opened TranscriptHash
  import opened SessionRequester
  import opened SessionCalls
  import opened SessionGating
  import opened SessionRuns
  import opened SessionTheorems
  import opened SessionCapacity
  import opened RetryTransparency
  import opened Meaning
  import opened ExactConnection
  import opened ConnectionRuns

  /**
   A call: connection set-up, starting or stopping a session, or an attempt at a request. A retried request is several
   attempts in a row.
   */
  datatype ApiCall =
    | Init(versionOnly: bool, version: nat -> Reply, capabilities: nat -> Reply, algorithms: nat -> Reply)
    | OfSession(call: SessionCall)
    | Later(attempt: Attempt)

  /** The three requests of connection set-up are only ever made by SpdmInitConnection. */
  predicate Callable(c: ApiCall) {
    c.Later? ==> !c.attempt.GetVersion? && !c.attempt.GetCapabilities? && !c.attempt.NegotiateAlgorithms?
  }

  /**
   The requests with a function of their own in the interface; those of a session are only made by its start or stop.
   */
  predicate Public(c: ApiCall) {
    c.Later? ==>
      c.attempt.GetDigests? || c.attempt.GetCertificate? || c.attempt.Challenge? || c.attempt.GetMeasurements?
  }

  function AfterCall(cr: Crypto, s: Context, c: ApiCall): Context {
    match c
    case Init(versionOnly, version, capabilities, algorithms) =>
      InitConnection(s, versionOnly, version, capabilities, algorithms).1
    case OfSession(call) => Call(cr, s, call).1
    case Later(a) => After(cr, s, a)
  }

  function AfterCalls(cr: Crypto, s: Context, calls: seq<ApiCall>): Context {
    if calls == [] then s else AfterCall(cr, AfterCalls(cr, s, calls[..|calls| - 1]), calls[|calls| - 1])
  }

  /** The call overruns the buffer its chain ends in. */
  predicate CallOverruns(cr: Crypto, s: Context, c: ApiCall) {
    c.Later? && AttemptOverruns(cr, s, c.attempt)
  }

  /** No call of the sequence does. */
  ghost predicate CallsInBounds(cr: Crypto, s: Context, calls: seq<ApiCall>) {
    forall i :: 0 <= i < |calls| ==> !CallOverruns(cr, AfterCalls(cr, s, calls[..i]), calls[i])
  }

  lemma CallsInBoundsPrefix(cr: Crypto, s: Context, calls: seq<ApiCall>, n: nat)
    requires n <= |calls| && CallsInBounds(cr, s, calls)
    ensures CallsInBounds(cr, s, calls[..n])
  {
    hide AfterCalls, CallOverruns;
    forall i | 0 <= i < n ensures !CallOverruns(cr, AfterCalls(cr, s, calls[..n][..i]), calls[..n][i]) {
      assert calls[..n][..i] == calls[..i];
    }
  }

  // ---------- The size of A ----------

  lemma {:induction false} RetryKeepsA<X(!new), R>(attempt: (Context, X) -> Step<R>, s: Context, inputs: nat -> X,
                                                   i: nat, left: nat)
    requires forall c, x :: attempt(c, x).ctx.messageA == c.messageA
    ensures Retry(attempt, s, inputs, i, left).ctx.messageA == s.messageA
    decreases left
  {
    var r := attempt(s, inputs(i));
    if r.status == NoResponse && left > 0 {
      RetryKeepsA(attempt, r.ctx, inputs, i + 1, left - 1);
    }
  }

  lemma DheStartKeepsA(cr: Crypto, s: Context, hashType: byte, slot: byte, x: StartInput)
    ensures StartDhe(cr, s, hashType, slot, x).ctx.messageA == s.messageA
  {
    hide Retry, TryKeyExchange, TryFinish, FindSession;
    var left := s.local.retryTimes;
    forall c, y ensures KexAttempt(cr, hashType, slot)(c, y).ctx.messageA == c.messageA {
      KexLeaves(cr, c, hashType, slot, y);
    }
    RetryKeepsA(KexAttempt(cr, hashType, slot), s, x.kex, 0, left);
    var k := Retry(KexAttempt(cr, hashType, slot), s, x.kex, 0, left);
    forall param: byte
      ensures Retry(FinishAttempt(cr, k.out.sessionId, param), k.ctx, x.finish, 0, left).ctx.messageA == s.messageA {
      forall c, r ensures FinishAttempt(cr, k.out.sessionId, param)(c, r).ctx.messageA == c.messageA {
        FinishLeaves(cr, c, k.out.sessionId, param, r);
      }
      RetryKeepsA(FinishAttempt(cr, k.out.sessionId, param), k.ctx, x.finish, 0, left);
    }
  }

  lemma PskStartKeepsA(cr: Crypto, s: Context, hashType: byte, x: StartInput)
    ensures StartPsk(cr, s, hashType, x).ctx.messageA == s.messageA
  {
    hide Retry, TryPskExchange, TryPskFinish, NeedsPskFinish;
    var left := s.local.retryTimes;
    forall c, y ensures PskAttempt(cr, hashType)(c, y).ctx.messageA == c.messageA {
      PskLeaves(cr, c, hashType, y);
    }
    RetryKeepsA(PskAttempt(cr, hashType), s, x.psk, 0, left);
    var k := Retry(PskAttempt(cr, hashType), s, x.psk, 0, left);
    forall c, y ensures PskFinishAttempt(cr, k.out)(c, y).ctx.messageA == c.messageA {
      PskFinishLeaves(cr, c, k.out, y);
    }
    RetryKeepsA(PskFinishAttempt(cr, k.out), k.ctx, x.pskFinish, 0, left);
  }

  lemma SessionCallKeepsA(cr: Crypto, s: Context, c: SessionCall)
    ensures Call(cr, s, c).1.messageA == s.messageA
  {
    hide StartDhe, StartPsk, Retry, TryEndSession;
    match c {
      case Start(usePsk, hashType, slot, x) =>
        DheStartKeepsA(cr, s, hashType, slot, x);
        PskStartKeepsA(cr, s, hashType, x);
      case Stop(id, replies) =>
        forall t, r ensures EndAttempt(id)(t, r).ctx.messageA == t.messageA {
          EndLeaves(t, id, r);
        }
        RetryKeepsA(EndAttempt(id), s, replies, 0, s.local.retryTimes);
    }
  }

  lemma LaterKeepsA(cr: Crypto, s: Context, a: Attempt)
    requires !a.GetVersion? && !a.GetCapabilities? && !a.NegotiateAlgorithms? && !AttemptOverruns(cr, s, a)
    ensures After(cr, s, a).messageA == s.messageA
  {
    hide TryGetVersion, TryGetCapabilities, TryNegotiateAlgorithms, TryGetDigests, TryGetCertificate, TryChallenge,
         TryGetMeasurement, TryKeyExchange, TryFinish, TryPskExchange, TryPskFinish, TryEndSession;
    match a {
      case GetDigests(r) => DigestsLeave(cr, s, r);
      case GetCertificate(slot, length, capacity, peer, _) => CertificateLeaves(cr, s, slot, length, capacity, peer);
      case Challenge(slot, hashType, x) => ChallengeLeaves(cr, s, slot, hashType, x);
      case GetMeasurements(c, x) => MeasurementLeaves(cr, s, c, x);
      case _ => SessionAttemptsLeave(cr, s, a);
    }
  }

  /** Against any responder, message A never exceeds 208 of its 256 bytes. */
  lemma {:induction false} MessageANeverExceeds208(cr: Crypto, s: Context, calls: seq<ApiCall>)
    requires |s.messageA| <= 208 && (forall i :: 0 <= i < |calls| ==> Callable(calls[i])) && CallsInBounds(cr, s, calls)
    ensures |AfterCalls(cr, s, calls).messageA| <= 208 < MAX_SMALL_BUFFER
    decreases |calls|
  {
    hide After, InitConnection, Call;
    if calls != [] {
      var n := |calls| - 1;
      CallsInBoundsPrefix(cr, s, calls, n);
      MessageANeverExceeds208(cr, s, calls[..n]);
      var t := AfterCalls(cr, s, calls[..n]);
      assert Callable(calls[n]) && !CallOverruns(cr, t, calls[n]);
      match calls[n] {
        case Init(versionOnly, version, capabilities, algorithms) =>
          InitBoundsA(t, versionOnly, version, capabilities, algorithms);
        case OfSession(call) => SessionCallKeepsA(cr, t, call);
        case Later(a) => LaterKeepsA(cr, t, a);
      }
    }
  }

  // ---------- Where connection set-up ends ----------

  lemma {:induction false} VersionReaches(s: Context, replies: nat -> Reply, i: nat, left: nat)
    ensures var r := Retry(VersionAttempt(), s, replies, i, left);
            r.ctx.state == (if r.status == Success then AfterVersion else NotStarted)
    decreases left
  {
    hide TryGetVersion, CompatibleVersions;
    VersionExactly(s, replies(i));
    var r := TryGetVersion(s, replies(i));
    assert VersionAttempt()(s, replies(i)) == r;
    if r.status == NoResponse && left > 0 {
      VersionReaches(r.ctx, replies, i + 1, left - 1);
    }
  }

  lemma {:induction false} CapabilitiesReach(s: Context, replies: nat -> Reply, i: nat, left: nat)
    requires s.state in {AfterVersion, NotStarted}
    ensures var r := Retry(CapabilitiesAttempt(), s, replies, i, left);
            if r.status == Success then r.ctx.state == AfterCapabilities else r.ctx.state in {AfterVersion, NotStarted}
    decreases left
  {
    hide TryGetCapabilities, BadResponderFlags, CapabilitiesQuestion;
    CapabilitiesExactly(s, replies(i));
    var r := TryGetCapabilities(s, replies(i));
    assert CapabilitiesAttempt()(s, replies(i)) == r;
    if r.status == NoResponse && left > 0 {
      CapabilitiesReach(r.ctx, replies, i + 1, left - 1);
    }
  }

  lemma {:induction false} AlgorithmsReach(s: Context, replies: nat -> Reply, i: nat, left: nat)
    requires s.state in {AfterCapabilities, NotStarted}
    ensures var r := Retry(AlgorithmsAttempt(), s, replies, i, left);
            if r.status == Success then r.ctx.state == Negotiated else r.ctx.state in {AfterCapabilities, NotStarted}
    decreases left
  {
    hide TryNegotiateAlgorithms, AlgorithmsReplyEnd, AlgorithmsQuestion, GoodBase, GoodSession;
    AlgorithmsExactly(s, replies(i));
    var r := TryNegotiateAlgorithms(s, replies(i));
    assert AlgorithmsAttempt()(s, replies(i)) == r;
    if r.status == NoResponse && left > 0 {
      AlgorithmsReach(r.ctx, replies, i + 1, left - 1);
    }
  }

  /**
   SpdmInitConnection, against any responder: success means that the state reached is that of the last request it was
   asked to make, and failure that it is an earlier one.
   */
  lemma InitReaches(s: Context, versionOnly: bool, version: nat -> Reply, capabilities: nat -> Reply,
                    algorithms: nat -> Reply)
    ensures var r := InitConnection(s, versionOnly, version, capabilities, algorithms);
            if r.0 == Success then r.1.state == (if versionOnly then AfterVersion else Negotiated)
            else r.1.state in (if versionOnly then {NotStarted} else {NotStarted, AfterVersion, AfterCapabilities})
  {
    hide Retry;
    var left := s.local.retryTimes;
    VersionReaches(s, version, 0, left);
    var v := Retry(VersionAttempt(), s, version, 0, left);
    if v.status == Success && !versionOnly {
      CapabilitiesReach(v.ctx, capabilities, 0, left);
      var c := Retry(CapabilitiesAttempt(), v.ctx, capabilities, 0, left);
      if c.status == Success {
        AlgorithmsReach(c.ctx, algorithms, 0, left);
      }
    }
  }

  // ---------- What leaves the sessions alone ----------

  lemma {:induction false} RetryKeepsSessions<X(!new), R>(attempt: (Context, X) -> Step<R>, s: Context,
                                                          inputs: nat -> X, i: nat, left: nat)
    requires forall c, x :: attempt(c, x).ctx.sessions == c.sessions
    ensures Retry(attempt, s, inputs, i, left).ctx.sessions == s.sessions
    decreases left
  {
    var r := attempt(s, inputs(i));
    if r.status == NoResponse && left > 0 {
      RetryKeepsSessions(attempt, r.ctx, inputs, i + 1, left - 1);
    }
  }

  lemma NegotiationKeepsSessions(s: Context, r: Reply)
    ensures TryNegotiateAlgorithms(s, r).ctx.sessions == s.sessions
  {
    hide NegotiateRequest, AlgorithmsReplyEnd, LoadTables, BaseAlgorithmsOk, SessionAlgorithmsOk;
  }

  lemma InitKeepsSessions(s: Context, versionOnly: bool, version: nat -> Reply, capabilities: nat -> Reply,
                          algorithms: nat -> Reply)
    ensures InitConnection(s, versionOnly, version, capabilities, algorithms).1.sessions == s.sessions
  {
    hide Retry, TryNegotiateAlgorithms, CompatibleVersions, ResponderFlagsOk;
    var left := s.local.retryTimes;
    RetryKeepsSessions(VersionAttempt(), s, version, 0, left);
    var v := Retry(VersionAttempt(), s, version, 0, left);
    RetryKeepsSessions(CapabilitiesAttempt(), v.ctx, capabilities, 0, left);
    var c := Retry(CapabilitiesAttempt(), v.ctx, capabilities, 0, left);
    forall t, r ensures AlgorithmsAttempt()(t, r).ctx.sessions == t.sessions {
      NegotiationKeepsSessions(t, r);
    }
    RetryKeepsSessions(AlgorithmsAttempt(), c.ctx, algorithms, 0, left);
  }

  lemma {:induction false} CertificateLoopKeepsSessions(
      cr: Crypto, s: Context, slot: byte, length: u16, chain: seq<byte>, capacity: Option<nat>, peer: nat -> Reply,
      i: nat)
    ensures CertificateLoop(cr, s, slot, length, chain, capacity, peer, i).ctx.sessions == s.sessions
    decreases MAX_MESSAGE_BUFFER - |s.messageB|
  {
    hide GetCertificateRequest, PortionOk, PeerChainAccepted;
    var round := CertificateRound(s, slot, length, chain, peer(i));
    if round.Completed? && round.remainder != 0 {
      CertificateLoopKeepsSessions(cr, round.ctx, slot, length, round.chain, capacity, peer, i + 1);
    }
  }

  lemma DigestsKeepSessions(cr: Crypto, s: Context, r: Reply)
    ensures TryGetDigests(cr, s, r).ctx.sessions == s.sessions
  {
    hide IsCapable, DigestsReplySize, PeerDigestOk;
  }

  lemma ChallengeKeepsSessions(cr: Crypto, s: Context, slot: byte, hashType: byte, x: ChallengeInput)
    ensures TryChallenge(cr, s, slot, hashType, x).ctx.sessions == s.sessions
  {
    hide IsCapable, PeerChainHashOk, ChallengeSignatureOk, AuthAttributesOk, RequesterAuthLayout, ChallengeRequest;
  }

  lemma LaterKeepsSessions(cr: Crypto, s: Context, c: ApiCall)
    requires c.Later? && Public(c) && !CallOverruns(cr, s, c)
    ensures AfterCall(cr, s, c).sessions == s.sessions
  {
    hide TryGetDigests, TryChallenge, TryGetMeasurement, CertificateLoop;
    match c.attempt {
      case GetDigests(r) => DigestsKeepSessions(cr, s, r);
      case GetCertificate(slot, length, capacity, peer, _) =>
        CertificateLoopKeepsSessions(cr, s.(errorState := NoCapabilities), slot, BlockLength(length), [], capacity,
                                     peer, 0);
      case Challenge(slot, hashType, x) => ChallengeKeepsSessions(cr, s, slot, hashType, x);
      case GetMeasurements(call, x) => MeasurementLeaves(cr, s, call, x);
      case _ =>
    }
  }

  lemma {:induction false} StopOnlyClears(s: Context, id: u32, replies: nat -> Reply, i: nat, left: nat, k: nat)
    requires k < MAX_SESSIONS
    ensures var x := Retry(EndAttempt(id), s, replies, i, left).ctx.sessions[k];
            x == s.sessions[k] || x == FreshSession(INVALID_SESSION_ID, false)
    decreases left
  {
    hide FindSession;
    var r := TryEndSession(s, id, replies(i));
    assert EndAttempt(id)(s, replies(i)) == r;
    if r.status == NoResponse && left > 0 {
      StopOnlyClears(r.ctx, id, replies, i + 1, left - 1, k);
    }
  }

  // ---------- The theorem ----------

  /**
   The session in slot k was set up by call number j, a start: it passed the gates of the connection that call met, and
   nothing has touched it since.
   */
  ghost predicate SetUpBy(cr: Crypto, s: Context, calls: seq<ApiCall>, k: nat, j: nat)
    requires k < MAX_SESSIONS
  {
    && j < |calls| && calls[j].OfSession? && calls[j].call.Start?
    && Gated(cr, AfterCalls(cr, s, calls[..j]), AfterCalls(cr, s, calls).sessions[k])
    && forall n :: j < n <= |calls| ==>
         AfterCalls(cr, s, calls[..n]).sessions[k] == AfterCalls(cr, s, calls).sessions[k]
  }

  /** One more call that leaves slot k alone. */
  lemma SetUpStays(cr: Crypto, s: Context, calls: seq<ApiCall>, k: nat, j: nat)
    requires k < MAX_SESSIONS && calls != [] && SetUpBy(cr, s, calls[..|calls| - 1], k, j)
    requires AfterCalls(cr, s, calls).sessions[k] == AfterCalls(cr, s, calls[..|calls| - 1]).sessions[k]
    ensures SetUpBy(cr, s, calls, k, j)
  {
    hide AfterCalls, Gated;
    var last := |calls| - 1;
    assert calls[..last][..j] == calls[..j];
    forall n | j < n <= |calls|
      ensures AfterCalls(cr, s, calls[..n]).sessions[k] == AfterCalls(cr, s, calls).sessions[k] {
      if n <= last {
        assert calls[..last][..n] == calls[..n];
      } else {
        assert calls[..n] == calls;
      }
    }
  }

  /** What one call can do to slot k: nothing, clear it, or, being a start, leave something gated there. */
  lemma CallOnSlot(cr: Crypto, s: Context, c: ApiCall, k: nat)
    requires k < MAX_SESSIONS && Coherent(s.sessions) && Public(c) && !CallOverruns(cr, s, c)
    ensures SizeLaws(cr) ==>
              var t := AfterCall(cr, s, c);
              && Coherent(t.sessions)
              && (t.sessions[k] == s.sessions[k] || t.sessions[k] == FreshSession(INVALID_SESSION_ID, false)
                  || (c.OfSession? && c.call.Start? && Gated(cr, s, t.sessions[k])))
  {
    hide Gated, Coherent, SizeLaws, Retry, StartPsk, StartDhe, IsEstablished;
    match c {
      case Init(versionOnly, version, capabilities, algorithms) =>
        InitKeepsSessions(s, versionOnly, version, capabilities, algorithms);
      case Later(_) => LaterKeepsSessions(cr, s, c);
      case OfSession(call) =>
        match call {
          case Start(usePsk, hashType, slot, x) => StartKeeps(cr, s, s, usePsk, hashType, slot, x);
          case Stop(id, replies) =>
            StopKeeps(cr, s, s, id, replies, 0, s.local.retryTimes);
            StopOnlyClears(s, id, replies, 0, s.local.retryTimes, k);
        }
    }
  }

  /**
   Over every sequence of calls, re-initialisation included: the session table is coherent, and every established
   session was set up by one start, on whose connection it passed its gates, and has not been touched since.
   */
  lemma {:induction false} EstablishedOverApiRuns(cr: Crypto, s: Context, calls: seq<ApiCall>, k: nat)
    requires NoSessions(s) && (forall i :: 0 <= i < |calls| ==> Public(calls[i])) && CallsInBounds(cr, s, calls)
             && k < MAX_SESSIONS
    ensures SizeLaws(cr) ==>
              && Coherent(AfterCalls(cr, s, calls).sessions)
              && (AfterCalls(cr, s, calls).sessions[k].phase == Established ==> exists j :: SetUpBy(cr, s, calls, k, j))
    decreases |calls|
  {
    hide SizeLaws, Coherent, AfterCall, SetUpBy;
    if calls == [] {
      FreshIsCoherent(s);
    } else {
      var last := |calls| - 1;
      CallsInBoundsPrefix(cr, s, calls, last);
      EstablishedOverApiRuns(cr, s, calls[..last], k);
      var before := AfterCalls(cr, s, calls[..last]);
      var after := AfterCalls(cr, s, calls);
      assert after == AfterCall(cr, before, calls[last]);
      if SizeLaws(cr) {
        assert Public(calls[last]) && !CallOverruns(cr, before, calls[last]);
        CallOnSlot(cr, before, calls[last], k);
        if after.sessions[k].phase == Established {
          if after.sessions[k] == before.sessions[k] {
            var j :| SetUpBy(cr, s, calls[..last], k, j);
            SetUpStays(cr, s, calls, k, j);
          } else {
            SetUpNow(cr, s, calls, k);
          }
        }
      }
    }
  }

  lemma SetUpNow(cr: Crypto, s: Context, calls: seq<ApiCall>, k: nat)
    requires k < MAX_SESSIONS && calls != [] && calls[|calls| - 1].OfSession? && calls[|calls| - 1].call.Start?
    requires Gated(cr, AfterCalls(cr, s, calls[..|calls| - 1]), AfterCalls(cr, s, calls).sessions[k])
    ensures SetUpBy(cr, s, calls, k, |calls| - 1)
  {
    hide AfterCalls, Gated;
    assert calls[..|calls|] == calls;
  }

  /**
   After every such sequence a DHE start does exactly what it would do on unbounded transcripts: no append to K or F and
   no TH concatenation fails for lack of room.
   */
  lemma StartsAlwaysHaveRoom(cr: Crypto, s: Context, calls: seq<ApiCall>, hashType: byte, slot: byte, x: StartInput)
    requires NoSessions(s) && |s.messageA| <= 208
    requires (forall i :: 0 <= i < |calls| ==> Public(calls[i])) && CallsInBounds(cr, s, calls)
    ensures var t := AfterCalls(cr, s, calls);
            SizeLaws(cr) ==> StartDhe(cr, t, hashType, slot, x) == UnboundedStart(cr, t, hashType, slot, x)
  {
    hide SizeLaws, AfterCalls, CallsInBounds, StartDhe, UnboundedStart;
    MessageANeverExceeds208(cr, s, calls);
    EstablishedOverApiRuns(cr, s, calls, 0);
    if SizeLaws(cr) {
      StartHasRoom(cr, AfterCalls(cr, s, calls), hashType, slot, x);
    }
  }
}
