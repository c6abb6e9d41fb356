/** The bounded byte buffer every transcript lives in (SpdmCommonLibSupport.c). */
module ManagedBuffers {
  import opened Bytes
  import opened Spdm

  datatype Status =
    | Success
    | Unsupported
    | InvalidParameter
    | DeviceError
    | NoResponse
    | SecurityViolation
    | BufferTooSmall

  /** The source operand of an append: a null pointer with a size, or bytes. */
  datatype Source = Null(size: nat) | Data(bytes: seq<byte>)

  datatype Op = Append(source: Source) | Shrink(size: nat) | Reset

  /** What a buffer of capacity `max` holding `s` reports and holds after one operation. */
  function Apply(max: nat, s: seq<byte>, op: Op): (r: (Status, seq<byte>))
    requires |s| <= max
    ensures |r.1| <= max
    ensures r.0 != Success ==> r.1 == s
  {
    match op
    case Append(Null(n)) => (if n == 0 then Success else InvalidParameter, s)
    case Append(Data(d)) => if |d| > max - |s| then (BufferTooSmall, s) else (Success, s + d)
    case Shrink(n) => if n > |s| then (BufferTooSmall, s) else (Success, s[..|s| - n])
    case Reset => (Success, [])
  }

  function ApplyAll(max: nat, s: seq<byte>, ops: seq<Op>): (r: (seq<Status>, seq<byte>))
    requires |s| <= max
    ensures |r.1| <= max && |r.0| == |ops|
    decreases |ops|
  {
    if ops == [] then ([], s)
    else
      var (st, s') := Apply(max, s, ops[0]);
      var (sts, s'') := ApplyAll(max, s', ops[1..]);
      ([st] + sts, s'')
  }

  function Flatten(parts: seq<seq<byte>>): seq<byte> {
    if parts == [] then [] else parts[0] + Flatten(parts[1..])
  }

  function Appends(parts: seq<seq<byte>>): seq<Op> {
    seq(|parts|, i requires 0 <= i < |parts| => Append(Data(parts[i])))
  }

  predicate AllSucceed(statuses: seq<Status>) {
    forall i :: 0 <= i < |statuses| ==> statuses[i] == Success
  }

  lemma AllSucceedSplits(st: Status, rest: seq<Status>)
    ensures AllSucceed([st] + rest) <==> st == Success && AllSucceed(rest)
  {
    var all := [st] + rest;
    assert forall i :: 0 <= i < |rest| ==> rest[i] == all[i + 1];
    assert all[0] == st;
  }

  /** A run of appends succeeds as a whole exactly when its total fits, and then it leaves the concatenation behind. */
  lemma {:induction false} AppendsConcatenate(max: nat, s: seq<byte>, parts: seq<seq<byte>>)
    requires |s| <= max
    ensures AllSucceed(ApplyAll(max, s, Appends(parts)).0) <==> |s| + |Flatten(parts)| <= max
    ensures |s| + |Flatten(parts)| <= max ==> ApplyAll(max, s, Appends(parts)).1 == s + Flatten(parts)
    decreases |parts|
  {
    if parts == [] {
      assert s + [] == s;
    } else {
      var rest := Appends(parts[1..]);
      assert Appends(parts)[1..] == rest && Appends(parts)[0] == Append(Data(parts[0]));
      var (st, s') := Apply(max, s, Append(Data(parts[0])));
      AllSucceedSplits(st, ApplyAll(max, s', rest).0);
      if st == Success {
        AppendsConcatenate(max, s', parts[1..]);
        assert s + parts[0] + Flatten(parts[1..]) == s + Flatten(parts);
      }
    }
  }

  /** A run of operations can be cut anywhere: statuses and contents are those of the two parts. */
  lemma {:induction false} ApplyAllSplits(max: nat, s: seq<byte>, xs: seq<Op>, ys: seq<Op>)
    requires |s| <= max
    ensures var first := ApplyAll(max, s, xs);
            var second := ApplyAll(max, first.1, ys);
            ApplyAll(max, s, xs + ys) == (first.0 + second.0, second.1)
    decreases |xs|
  {
    if xs == [] {
      assert xs + ys == ys;
      assert [] + ApplyAll(max, s, ys).0 == ApplyAll(max, s, ys).0;
    } else {
      assert (xs + ys)[0] == xs[0] && (xs + ys)[1..] == xs[1..] + ys;
      var (st, s') := Apply(max, s, xs[0]);
      ApplyAllSplits(max, s', xs[1..], ys);
      var first := ApplyAll(max, s', xs[1..]);
      var second := ApplyAll(max, first.1, ys);
      assert [st] + (first.0 + second.0) == [st] + first.0 + second.0;
    }
  }

  /** Shrinking by the total size of the last appends restores what was there before them. */
  lemma ShrinkUndoesAppends(max: nat, s: seq<byte>, parts: seq<seq<byte>>)
    requires |s| + |Flatten(parts)| <= max
    ensures ApplyAll(max, s, Appends(parts) + [Shrink(|Flatten(parts)|)]).1 == s
  {
    var undo := [Shrink(|Flatten(parts)|)];
    AppendsConcatenate(max, s, parts);
    ApplyAllSplits(max, s, Appends(parts), undo);
    assert ApplyAll(max, s + Flatten(parts), undo).1 == (s + Flatten(parts))[..|s|] by {
      assert undo[1..] == [];
    }
  }

  class ManagedBuffer {
    const data: array<byte>
    var size: nat

    ghost predicate Valid()
      reads this, data
    {
      && (data.Length == MAX_MESSAGE_BUFFER || data.Length == MAX_SMALL_BUFFER)
      && size <= data.Length
    }

    function Contents(): (s: seq<byte>)
      requires Valid()
      reads this, data
      ensures |s| == size
    {
      data[..size]
    }

    /** InitManagedBuffer: an empty, zeroed buffer of one of the two sizes. */
    constructor (max: nat)
      requires max == MAX_MESSAGE_BUFFER || max == MAX_SMALL_BUFFER
      ensures Valid() && fresh(data) && data.Length == max && Contents() == []
      ensures forall i :: 0 <= i < data.Length ==> data[i] == 0
    {
      data := new byte[max](_ => 0);
      size := 0;
    }

    /** AppendManagedBuffer. */
    method Append(source: Source) returns (status: Status)
      requires Valid()
      modifies this, data
      ensures Valid()
      ensures (status, Contents()) == Apply(data.Length, old(Contents()), Op.Append(source))
    {
      if source.Null? {
        return if source.size == 0 then Success else InvalidParameter;
      }
      var d := source.bytes;
      if |d| > data.Length - size {
        return BufferTooSmall;
      }
      var i := 0;
      while i < |d|
        invariant 0 <= i <= |d|
        invariant size == old(size)
        invariant data[..size + i] == old(data[..size]) + d[..i]
      {
        data[size + i] := d[i];
        i := i + 1;
      }
      assert d[..i] == d;
      size := size + |d|;
      return Success;
    }

    /** ShrinkManagedBuffer: drops bytes at the end and leaves them stale in the array. */
    method Shrink(n: nat) returns (status: Status)
      requires Valid()
      modifies `size
      ensures Valid()
      ensures (status, Contents()) == Apply(data.Length, old(Contents()), Op.Shrink(n))
      ensures data[..] == old(data[..])
    {
      if n > size {
        return BufferTooSmall;
      }
      size := size - n;
      assert data[..size] == old(data[..size])[..size];
      return Success;
    }

    /** ResetManagedBuffer: empties the buffer and zeroes all of it. */
    method Reset()
      requires Valid()
      modifies this, data
      ensures Valid() && Contents() == []
      ensures forall i :: 0 <= i < data.Length ==> data[i] == 0
    {
      size := 0;
      var i := 0;
      while i < data.Length
        invariant 0 <= i <= data.Length && size == 0
        invariant forall j :: 0 <= j < i ==> data[j] == 0
      {
        data[i] := 0;
        i := i + 1;
      }
    }

    method Perform(op: Op) returns (status: Status)
      requires Valid()
      modifies this, data
      ensures Valid()
      ensures (status, Contents()) == Apply(data.Length, old(Contents()), op)
    {
      match op
      case Append(source) => status := Append(source);
      case Shrink(n) => status := Shrink(n);
      case Reset => Reset(); status := Success;
    }

    /** Any run of operations on the array is a run on the byte sequence it represents. */
    method Run(ops: seq<Op>) returns (statuses: seq<Status>)
      requires Valid()
      modifies this, data
      ensures Valid()
      ensures (statuses, Contents()) == ApplyAll(data.Length, old(Contents()), ops)
      decreases |ops|
    {
      if ops == [] {
        return [];
      }
      var status := Perform(ops[0]);
      var rest := Run(ops[1..]);
      return [status] + rest;
    }
  }
}
