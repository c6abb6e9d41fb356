/**
 The device context as the code keeps it: fields updated in place and four managed buffers. Its View is
 the value the step functions work on.
 */
module Device {
  import opened Bytes
  import opened Spdm
  import opened Crypto
  import opened ManagedBuffers
  import opened DeviceContext
  import opened Exchanges
  import opened SessionTable

  /** The transcript an error handler takes the request back from. */
  datatype Transcript = NoTranscript | MessageA | MessageB | MessageC | MessageM | MessageF(slot: nat)

  function ShrinkTranscript(s: Context, which: Transcript, n: nat): Context {
    match which
    case NoTranscript => s
    case MessageA => s.(messageA := Shrunk(s.messageA, n))
    case MessageB => s.(messageB := Shrunk(s.messageB, n))
    case MessageC => s.(messageC := Shrunk(s.messageC, n))
    case MessageM => s.(messageM := Shrunk(s.messageM, n))
    case MessageF(i) =>
      if i >= MAX_SESSIONS then s
      else s.(sessions := s.sessions[i := s.sessions[i].(messageF := Shrunk(s.sessions[i].messageF, n))])
  }

  class Device {
    const local: Local
    var state: ConnectionState
    var versions: seq<u16>
    var peerFlags: u32
    var peerCtExponent: byte
    var algorithms: Algorithms
    var peerChain: seq<byte>
    var localChain: seq<byte>
    var errorState: ErrorState
    const table: Table
    const a: ManagedBuffer
    const b: ManagedBuffer
    const c: ManagedBuffer
    const m: ManagedBuffer

    ghost const Repr: set<object>

    ghost predicate Valid()
      reads Repr
    {
      && Repr == {this, a, a.data, b, b.data, c, c.data, m, m.data, table, table.slots}
      && a.Valid() && b.Valid() && c.Valid() && m.Valid() && table.Valid()
      && a.data.Length == c.data.Length == MAX_SMALL_BUFFER
      && b.data.Length == m.data.Length == MAX_MESSAGE_BUFFER
      && a != b && a != c && a != m && b != c && b != m && c != m
      && a.data != b.data && a.data != c.data && a.data != m.data && b.data != c.data && b.data != m.data
      && c.data != m.data
    }

    function View(): (s: Context)
      requires Valid()
      reads Repr
      ensures s.local == local
    {
      Context(local, state, versions, peerFlags, peerCtExponent, algorithms, peerChain, localChain,
              a.Contents(), b.Contents(), c.Contents(), m.Contents(), errorState, table.slots[..],
              table.latestSessionId)
    }

    /** SpdmInitContext. */
    constructor (l: Local)
      ensures Valid() && fresh(Repr)
      ensures View()
                == Context(l, NotStarted, [], 0, 0, Algorithms(0, 0, 0, 0, 0, 0, 0, 0), [], [], [], [], [], [], NoError,
                                seq(MAX_SESSIONS, _ => FreshSession(INVALID_SESSION_ID, false)), 0)
    {
      local := l;
      state := NotStarted;
      versions := [];
      peerFlags, peerCtExponent := 0, 0;
      algorithms := Algorithms(0, 0, 0, 0, 0, 0, 0, 0);
      peerChain, localChain := [], [];
      errorState := NoError;
      var a0 := new ManagedBuffer(MAX_SMALL_BUFFER);
      var b0 := new ManagedBuffer(MAX_MESSAGE_BUFFER);
      var c0 := new ManagedBuffer(MAX_SMALL_BUFFER);
      var m0 := new ManagedBuffer(MAX_MESSAGE_BUFFER);
      var t0 := new Table();
      a, b, c, m, table := a0, b0, c0, m0, t0;
      Repr := {this, a0, a0.data, b0, b0.data, c0, c0.data, m0, m0.data, t0, t0.slots};
    }

    // SpdmAppendMessageA, B, C and M: the transcript grows, or nothing changes and the caller hears of it.

    method AppendA(message: seq<byte>) returns (ok: bool)
      requires Valid()
      modifies Repr
      ensures Valid() && ok == Cached(MAX_SMALL_BUFFER, old(View()).messageA, message).Some?
      ensures View() == if ok then old(View()).(messageA := old(View()).messageA + message) else old(View())
    {
      var status := a.Append(Data(message));
      ok := status == Success;
    }

    method AppendB(message: seq<byte>) returns (ok: bool)
      requires Valid()
      modifies Repr
      ensures Valid() && ok == Cached(MAX_MESSAGE_BUFFER, old(View()).messageB, message).Some?
      ensures View() == if ok then old(View()).(messageB := old(View()).messageB + message) else old(View())
    {
      var status := b.Append(Data(message));
      ok := status == Success;
    }

    method AppendC(message: seq<byte>) returns (ok: bool)
      requires Valid()
      modifies Repr
      ensures Valid() && ok == Cached(MAX_SMALL_BUFFER, old(View()).messageC, message).Some?
      ensures View() == if ok then old(View()).(messageC := old(View()).messageC + message) else old(View())
    {
      var status := c.Append(Data(message));
      ok := status == Success;
    }

    method AppendM(message: seq<byte>) returns (ok: bool)
      requires Valid()
      modifies Repr
      ensures Valid() && ok == Cached(MAX_MESSAGE_BUFFER, old(View()).messageM, message).Some?
      ensures View() == if ok then old(View()).(messageM := old(View()).messageM + message) else old(View())
    {
      var status := m.Append(Data(message));
      ok := status == Success;
    }

    /** ShrinkManagedBuffer on the transcript an error handler is given. */
    method Shrink(which: Transcript, n: nat)
      requires Valid()
      modifies Repr
      ensures Valid() && View() == ShrinkTranscript(old(View()), which, n)
    {
      match which
      case NoTranscript =>
      case MessageA => var _ := a.Shrink(n);
      case MessageB => var _ := b.Shrink(n);
      case MessageC => var _ := c.Shrink(n);
      case MessageM => var _ := m.Shrink(n);
      case MessageF(i) =>
        if i < MAX_SESSIONS {
          table.slots[i] := table.slots[i].(messageF := Shrunk(table.slots[i].messageF, n));
        }
    }

    method ResetM()
      requires Valid()
      modifies Repr
      ensures Valid() && View() == old(View()).(messageM := [])
    {
      m.Reset();
    }

    /** What GET_VERSION throws away once it has been sent. */
    method ResetTranscripts()
      requires Valid()
      modifies Repr
      ensures Valid() && View() == old(View()).(messageA := [], messageB := [], messageC := [])
    {
      a.Reset();
      b.Reset();
      c.Reset();
    }

    // Field updates.

    method SetState(x: ConnectionState)
      requires Valid()
      modifies Repr
      ensures Valid() && View() == old(View()).(state := x)
    {
      state := x;
    }

    method SetErrorState(x: ErrorState)
      requires Valid()
      modifies Repr
      ensures Valid() && View() == old(View()).(errorState := x)
    {
      errorState := x;
    }

    method SetAlgorithms(x: Algorithms)
      requires Valid()
      modifies Repr
      ensures Valid() && View() == old(View()).(algorithms := x)
    {
      algorithms := x;
    }

    method SetVersions(x: seq<u16>)
      requires Valid()
      modifies Repr
      ensures Valid() && View() == old(View()).(versions := x)
    {
      versions := x;
    }

    method SetPeerCapabilities(ctExponent: byte, flags: u32)
      requires Valid()
      modifies Repr
      ensures Valid() && View() == old(View()).(peerCtExponent := ctExponent, peerFlags := flags)
    {
      peerCtExponent := ctExponent;
      peerFlags := flags;
    }

    method SetPeerChain(x: seq<byte>)
      requires Valid()
      modifies Repr
      ensures Valid() && View() == old(View()).(peerChain := x)
    {
      peerChain := x;
    }

    method SetLocalChain(x: seq<byte>)
      requires Valid()
      modifies Repr
      ensures Valid() && View() == old(View()).(localChain := x)
    {
      localChain := x;
    }

    // The session table (SpdmCommonLibContextDataSession.c), one slot at a time.

    /** SpdmGetSessionInfoViaSessionId. */
    method FindSlot(id: u32) returns (r: Option<nat>)
      requires Valid()
      ensures r == FindSession(View().sessions, id)
    {
      r := table.Find(id);
    }

    /** SpdmAllocateReqSessionId. */
    method AllocateHalf() returns (half: u16)
      requires Valid()
      ensures half == AllocateRequesterHalf(View().sessions)
    {
      half := table.AllocateRequester();
    }

    /** SpdmAssignSessionId. */
    method AssignSession(id: u32, usePsk: bool) returns (r: Option<nat>)
      requires Valid()
      modifies Repr
      ensures Valid() && r == AssignSlot(old(View()).sessions, id)
      ensures r.None? ==> View() == old(View())
      ensures r.Some? ==>
                r.value < MAX_SESSIONS
                && View() == old(View()).(sessions := old(View()).sessions[r.value := FreshSession(id, usePsk)],
                                          latestSessionId := id)
    {
      r := table.Assign(id, usePsk);
    }

    /** SpdmFreeSessionId. */
    method FreeSession(id: u32)
      requires Valid()
      modifies Repr
      ensures Valid()
      ensures var r := FindSession(old(View()).sessions, id);
              var cleared := FreshSession(INVALID_SESSION_ID, false);
              View() == if r.Some? then old(View()).(sessions := old(View()).sessions[r.value := cleared])
                        else old(View())
    {
      var _ := table.Free(id);
    }

    /** Fields of the session in slot i. */
    method SetSession(i: nat, x: Session)
      requires Valid() && i < MAX_SESSIONS
      modifies Repr
      ensures Valid() && View() == old(View()).(sessions := old(View()).sessions[i := x])
    {
      table.slots[i] := x;
    }

    // SpdmAppendMessageK and F.

    method AppendK(i: nat, message: seq<byte>) returns (ok: bool)
      requires Valid() && i < MAX_SESSIONS
      modifies Repr
      ensures Valid() && ok == Cached(MAX_MESSAGE_BUFFER, old(View()).sessions[i].messageK, message).Some?
      ensures var x := old(View()).sessions[i];
              var longer := x.(messageK := x.messageK + message);
              View() == if ok then old(View()).(sessions := old(View()).sessions[i := longer]) else old(View())
    {
      var x := table.slots[i];
      if |x.messageK| + |message| > MAX_MESSAGE_BUFFER {
        return false;
      }
      table.slots[i] := x.(messageK := x.messageK + message);
      return true;
    }

    method AppendF(i: nat, message: seq<byte>) returns (ok: bool)
      requires Valid() && i < MAX_SESSIONS
      modifies Repr
      ensures Valid() && ok == Cached(MAX_MESSAGE_BUFFER, old(View()).sessions[i].messageF, message).Some?
      ensures var x := old(View()).sessions[i];
              var longer := x.(messageF := x.messageF + message);
              View() == if ok then old(View()).(sessions := old(View()).sessions[i := longer]) else old(View())
    {
      var x := table.slots[i];
      if |x.messageF| + |message| > MAX_MESSAGE_BUFFER {
        return false;
      }
      table.slots[i] := x.(messageF := x.messageF + message);
      return true;
    }

    /** SpdmHandleSimpleErrorResponse. */
    method HandleSimpleError(code: byte) returns (status: Status)
      requires Valid()
      modifies Repr
      ensures Valid() && View() == AfterRefusal(old(View()), code) && status == RefusalStatus(code)
    {
      if code == REQUEST_RESYNCH {
        state := NotStarted;
        return DeviceError;
      }
      if code == BUSY {
        return NoResponse;
      }
      return DeviceError;
    }
  }

  /** SpdmRequesterRespondIfReady. */
  method RespondIfReady(second: Io, expected: byte, maxSize: nat) returns (o: Outcome)
    ensures o == AfterNotReady(second, expected, maxSize)
  {
    if !second.Arrives? || |second.bytes| < 4 || second.bytes[1] != expected || |second.bytes| > maxSize {
      return Dropped;
    }
    return Answer(second.bytes);
  }

  /** Receiving and SpdmHandleErrorResponseMain, after a request of n bytes was sent and cached in `which`. */
  method Receive(d: Device, which: Transcript, n: nat, r: Reply, expected: byte, maxSize: nat)
      returns (o: Outcome, status: Status)
    requires d.Valid() && !r.first.SendFails?
    modifies d.Repr
    ensures d.Valid() && o == LongOutcome(r, expected, maxSize)
    ensures o.Refused? ==>
              status == RefusalStatus(o.code)
              && d.View() == AfterRefusal(ShrinkTranscript(old(d.View()), which, n), o.code)
    ensures !o.Refused? ==> d.View() == old(d.View()) && status == if o.Answer? then Success else DeviceError
  {
    hide Device.Valid, Device.View;
    if !r.first.Arrives? || |r.first.bytes| < 4 {
      return Dropped, DeviceError;
    }
    var m := r.first.bytes;
    if m[1] == ERROR {
      if m[2] == RESPONSE_NOT_READY {
        o := RespondIfReady(r.ifReady, expected, maxSize);
        return o, if o.Answer? then Success else DeviceError;
      }
      d.Shrink(which, n);
      status := d.HandleSimpleError(m[2]);
      return Refused(m[2]), status;
    }
    if m[1] != expected {
      return WrongCode, DeviceError;
    }
    return Answer(m), Success;
  }

  /** Taking back a message just appended. */
  lemma ShrunkAppend(transcript: seq<byte>, message: seq<byte>)
    ensures Shrunk(transcript + message, |message|) == transcript
  {
  }
}
