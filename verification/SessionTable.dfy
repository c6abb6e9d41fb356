/** The four-slot session table and the half-ID allocators (SpdmCommonLibContextDataSession.c). */
module SessionTable {
  import opened Bytes
  import opened Spdm
  import opened Crypto
  import opened DeviceContext

  /** The first slot from i on that carries the ID. */
  function FindFrom(sessions: seq<Session>, id: u32, i: nat): (r: Option<nat>)
    requires i <= |sessions|
    ensures r.Some? ==> i <= r.value < |sessions| && sessions[r.value].id == id
    ensures r.Some? ==> forall j :: i <= j < r.value ==> sessions[j].id != id
    ensures r.None? ==> forall j :: i <= j < |sessions| ==> sessions[j].id != id
    decreases |sessions| - i
  {
    if i == |sessions| then None
    else if sessions[i].id == id then Some(i)
    else FindFrom(sessions, id, i + 1)
  }

  /** SpdmGetSessionInfoViaSessionId. */
  function FindSession(sessions: seq<Session>, id: u32): (r: Option<nat>)
    ensures r.Some? ==> r.value < |sessions| && sessions[r.value].id == id && id != INVALID_SESSION_ID
  {
    if id == INVALID_SESSION_ID then None else FindFrom(sessions, id, 0)
  }

  /** The requester's half of an ID. */
  function RequesterHalf(id: u32): u16 { id / 0x1_0000 }

  function ResponderHalf(id: u32): u16 { id % 0x1_0000 }

  /** The first slot from i on whose ID has a zero half. */
  function FreeHalfFrom(sessions: seq<Session>, half: u32 -> u16, i: nat): (r: Option<nat>)
    requires i <= |sessions|
    ensures r.Some? ==> i <= r.value < |sessions| && half(sessions[r.value].id) == 0
    ensures r.Some? ==> forall j :: i <= j < r.value ==> half(sessions[j].id) != 0
    ensures r.None? ==> forall j :: i <= j < |sessions| ==> half(sessions[j].id) != 0
    decreases |sessions| - i
  {
    if i == |sessions| then None
    else if half(sessions[i].id) == 0 then Some(i)
    else FreeHalfFrom(sessions, half, i + 1)
  }

  /** SpdmAllocateReqSessionId and SpdmAllocateRspSessionId: 0xFFFF minus the slot, or 0 when none is free. */
  function AllocateHalf(sessions: seq<Session>, half: u32 -> u16): u16
    requires |sessions| <= MAX_SESSIONS
  {
    var r := FreeHalfFrom(sessions, half, 0);
    if r.Some? then 0xFFFF - r.value else 0
  }

  function AllocateRequesterHalf(sessions: seq<Session>): u16
    requires |sessions| <= MAX_SESSIONS
  {
    AllocateHalf(sessions, RequesterHalf)
  }

  /** SpdmAssignSessionId: the slot taken, or None for an invalid or duplicate ID or a full table. */
  function AssignSlot(sessions: seq<Session>, id: u32): (r: Option<nat>)
    ensures r.Some? ==> r.value < |sessions| && sessions[r.value].id == INVALID_SESSION_ID && id != INVALID_SESSION_ID
    ensures r.Some? ==> forall j :: 0 <= j < |sessions| ==> sessions[j].id != id
  {
    if id == INVALID_SESSION_ID || FindFrom(sessions, id, 0).Some? then None
    else FindFrom(sessions, INVALID_SESSION_ID, 0)
  }

  function SessionIdOf(requesterHalf: u16, responderHalf: u16): u32 {
    requesterHalf * 0x1_0000 + responderHalf
  }

  // ---------- The table as the code keeps it ----------

  class Table {
    const slots: array<Session>
    var latestSessionId: u32

    ghost predicate Valid() {
      slots.Length == MAX_SESSIONS
    }

    constructor ()
      ensures Valid() && fresh(slots) && latestSessionId == 0
      ensures forall i :: 0 <= i < MAX_SESSIONS ==>
                slots[i] == Session(0, false, 0, Idle, [], Keys([], []), [], [], [], [], false)
    {
      slots := new Session[MAX_SESSIONS](_ => FreshSession(INVALID_SESSION_ID, false));
      latestSessionId := 0;
    }

    method Find(id: u32) returns (r: Option<nat>)
      requires Valid()
      ensures r == FindSession(slots[..], id)
    {
      if id == INVALID_SESSION_ID {
        return None;
      }
      var i := 0;
      while i < slots.Length
        invariant 0 <= i <= slots.Length
        invariant FindFrom(slots[..], id, i) == FindFrom(slots[..], id, 0)
      {
        if slots[i].id == id {
          return Some(i);
        }
        i := i + 1;
      }
      return None;
    }

    method AllocateRequester() returns (half: u16)
      requires Valid()
      ensures half == AllocateRequesterHalf(slots[..])
    {
      var i := 0;
      while i < slots.Length
        invariant 0 <= i <= slots.Length
        invariant FreeHalfFrom(slots[..], RequesterHalf, i) == FreeHalfFrom(slots[..], RequesterHalf, 0)
      {
        if slots[i].id / 0x1_0000 == 0 {
          return 0xFFFF - i;
        }
        i := i + 1;
      }
      return 0;
    }

    method AllocateResponder() returns (half: u16)
      requires Valid()
      ensures half == AllocateHalf(slots[..], ResponderHalf)
    {
      var i := 0;
      while i < slots.Length
        invariant 0 <= i <= slots.Length
        invariant FreeHalfFrom(slots[..], ResponderHalf, i) == FreeHalfFrom(slots[..], ResponderHalf, 0)
      {
        if slots[i].id % 0x1_0000 == 0 {
          return 0xFFFF - i;
        }
        i := i + 1;
      }
      return 0;
    }

    method Assign(id: u32, usePsk: bool) returns (r: Option<nat>)
      requires Valid()
      modifies this, slots
      ensures r == old(AssignSlot(slots[..], id))
      ensures r.None? ==> slots[..] == old(slots[..]) && latestSessionId == old(latestSessionId)
      ensures r.Some? ==> slots[..] == old(slots[..])[r.value := FreshSession(id, usePsk)] && latestSessionId == id
    {
      if id == INVALID_SESSION_ID {
        return None;
      }
      var duplicate := Find(id);
      if duplicate.Some? {
        return None;
      }
      var i := 0;
      while i < slots.Length
        invariant 0 <= i <= slots.Length
        invariant slots[..] == old(slots[..]) && latestSessionId == old(latestSessionId)
        invariant FindFrom(slots[..], INVALID_SESSION_ID, i) == FindFrom(slots[..], INVALID_SESSION_ID, 0)
      {
        if slots[i].id == INVALID_SESSION_ID {
          slots[i] := FreshSession(id, usePsk);
          latestSessionId := id;
          return Some(i);
        }
        i := i + 1;
      }
      return None;
    }

    method Free(id: u32) returns (r: Option<nat>)
      requires Valid()
      modifies slots
      ensures r == old(FindSession(slots[..], id))
      ensures slots[..] == if r.Some? then old(slots[..])[r.value := FreshSession(INVALID_SESSION_ID, false)]
                           else old(slots[..])
    {
      r := Find(id);
      if r.Some? {
        slots[r.value] := FreshSession(INVALID_SESSION_ID, false);
      }
    }
  }

  // ---------- Coherence ----------

  /** Every live session in slot i carries the requester half 0xFFFF - i. */
  ghost predicate Coherent(sessions: seq<Session>) {
    && |sessions| == MAX_SESSIONS
    && forall i :: 0 <= i < MAX_SESSIONS ==>
         sessions[i].id == INVALID_SESSION_ID || RequesterHalf(sessions[i].id) == 0xFFFF - i
  }

  ghost predicate Full(sessions: seq<Session>) {
    forall i :: 0 <= i < |sessions| ==> sessions[i].id != INVALID_SESSION_ID
  }

  /** The set of IDs in use. */
  ghost function LiveIds(sessions: seq<Session>): set<u32> {
    set i | 0 <= i < |sessions| && sessions[i].id != INVALID_SESSION_ID :: sessions[i].id
  }

  /**
   In a coherent table with room, the allocator and the assigner pick the same slot whatever half the
   responder chooses, the duplicate check never fires, and the table stays coherent.
   */
  lemma AllocatorAndAssignerAgree(sessions: seq<Session>, responderHalf: u16, usePsk: bool)
    requires Coherent(sessions) && !Full(sessions)
    ensures var half := AllocateRequesterHalf(sessions);
            var id := SessionIdOf(half, responderHalf);
            var slot := AssignSlot(sessions, id);
            && FindFrom(sessions, id, 0).None?
            && slot.Some? && half == 0xFFFF - slot.value
            && Coherent(sessions[slot.value := FreshSession(id, usePsk)])
            && FindSession(sessions[slot.value := FreshSession(id, usePsk)], id) == slot
  {
    var free := FreeHalfFrom(sessions, RequesterHalf, 0);
    var half := AllocateRequesterHalf(sessions);
    assert free.Some?;
    var id := SessionIdOf(half, responderHalf);
    assert RequesterHalf(id) == half == 0xFFFF - free.value;
    forall j | 0 <= j < MAX_SESSIONS ensures sessions[j].id != id {
      if j == free.value {
        assert sessions[j].id == INVALID_SESSION_ID;
      }
    }
    var slot := AssignSlot(sessions, id);
    assert slot == Some(free.value);
    var taken := sessions[free.value := FreshSession(id, usePsk)];
    assert taken[free.value].id == id;
    var found := FindFrom(taken, id, 0);
    assert taken[found.value].id == id;
  }

  /** A full coherent table makes every assignment with the allocated half fail. */
  lemma FullTableRefuses(sessions: seq<Session>, responderHalf: u16)
    requires Coherent(sessions) && Full(sessions)
    ensures AllocateRequesterHalf(sessions) == 0
    ensures AssignSlot(sessions, SessionIdOf(AllocateRequesterHalf(sessions), responderHalf)).None?
  {
    assert FreeHalfFrom(sessions, RequesterHalf, 0).None?;
  }
}
