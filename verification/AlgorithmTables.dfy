/** Priority selection and the variable-length algorithm tables of NEGOTIATE_ALGORITHMS and ALGORITHMS. */
module AlgorithmTables {
  import opened Bytes
  import opened Spdm
  import opened DeviceContext

  // ---------- Priority selection (SpdmResponderLibAlgorithm.c) ----------

  const HASH_PRIORITY: seq<u32> := [0x4, 0x2, 0x1]
  const ASYM_PRIORITY: seq<u32> := [0x100, 0x80, 0x10, 0x40, 0x8, 0x2, 0x20, 0x4, 0x1]
  const REQ_ASYM_PRIORITY: seq<u32> := [0x40, 0x8, 0x2, 0x20, 0x4, 0x1, 0x100, 0x80, 0x10]
  const DHE_PRIORITY: seq<u32> := [0x20, 0x10, 0x8, 0x4, 0x2, 0x1]
  const AEAD_PRIORITY: seq<u32> := [0x2, 0x1, 0x4]
  const KEY_SCHEDULE_PRIORITY: seq<u32> := [0x1]
  const MEASUREMENT_HASH_PRIORITY: seq<u32> := [0x8, 0x4, 0x2, 0x1]
  const MEASUREMENT_SPEC_PRIORITY: seq<u32> := [0x1]

  /** SpdmPrioritizeAlgorithm. */
  function Prioritize(table: seq<u32>, local: u32, peer: u32): (r: u32)
    ensures r == 0 || r in table
    decreases |table|, local, peer
  {
    if table == [] then 0
    else if And(And(local, peer), table[0]) != 0 then table[0]
    else Prioritize(table[1..], local, peer)
  }

  /** The algorithm bit is set in the offer. */
  predicate Offers(offer: u32, algorithm: u32) {
    And(offer, algorithm) == algorithm
  }

  predicate OfferedByBoth(algorithm: u32, local: u32, peer: u32) {
    Offers(local, algorithm) && Offers(peer, algorithm)
  }

  /** r is the first entry of the table that both sides offer, or 0 when there is none. */
  ghost predicate BestCommon(table: seq<u32>, local: u32, peer: u32, r: u32) {
    if r == 0 then forall i :: 0 <= i < |table| ==> !OfferedByBoth(table[i], local, peer)
    else exists k :: 0 <= k < |table| && r == table[k] && OfferedByBoth(table[k], local, peer)
                  && forall j :: 0 <= j < k ==> !OfferedByBoth(table[j], local, peer)
  }

  ghost predicate SingleBits(table: seq<u32>) {
    forall i :: 0 <= i < |table| ==> exists k: nat :: table[i] == Pow2(k)
  }

  /** For a one-bit entry, the masked AND is non-zero exactly when both sides offer the entry. */
  lemma MaskTestsCommonBit(local: u32, peer: u32, k: nat, t: u32)
    requires t == Pow2(k)
    ensures And(And(local, peer), t) != 0 <==> OfferedByBoth(t, local, peer)
  {
    BitOfAnd(local, peer, k);
    AndWithSingleBit(And(local, peer), k);
    AndWithSingleBit(local, k);
    AndWithSingleBit(peer, k);
  }

  /** The selection is the best common algorithm for every pair of offers. */
  lemma {:induction false} PrioritizeIsBest(table: seq<u32>, local: u32, peer: u32)
    requires SingleBits(table)
    ensures BestCommon(table, local, peer, Prioritize(table, local, peer))
    decreases |table|
  {
    if table != [] {
      var k: nat :| table[0] == Pow2(k);
      MaskTestsCommonBit(local, peer, k, table[0]);
      var rest := table[1..];
      assert SingleBits(rest) by {
        forall i | 0 <= i < |rest| ensures exists k: nat :: rest[i] == Pow2(k) {
          assert rest[i] == table[i + 1];
        }
      }
      PrioritizeIsBest(rest, local, peer);
      var r := Prioritize(table, local, peer);
      if And(And(local, peer), table[0]) == 0 {
        if r == 0 {
          forall i | 0 <= i < |table| ensures !OfferedByBoth(table[i], local, peer) {
            if i > 0 { assert table[i] == rest[i - 1]; }
          }
        } else {
          var m :| 0 <= m < |rest| && r == rest[m] && OfferedByBoth(rest[m], local, peer)
            && forall j :: 0 <= j < m ==> !OfferedByBoth(rest[j], local, peer);
          forall j | 0 <= j < m + 1 ensures !OfferedByBoth(table[j], local, peer) {
            if j > 0 { assert table[j] == rest[j - 1]; }
          }
          assert r == table[m + 1];
        }
      }
    }
  }

  lemma Pow2Values()
    ensures Pow2(0) == 0x1 && Pow2(1) == 0x2 && Pow2(2) == 0x4 && Pow2(3) == 0x8 && Pow2(4) == 0x10
    ensures Pow2(5) == 0x20 && Pow2(6) == 0x40 && Pow2(7) == 0x80 && Pow2(8) == 0x100
  {
    assert Pow2(4) == 0x10;
    assert Pow2(8) == 0x10 * Pow2(4);
  }

  /** Every table of the responder lists one-bit algorithms only. */
  lemma PriorityTablesAreSingleBits()
    ensures SingleBits(HASH_PRIORITY) && SingleBits(ASYM_PRIORITY) && SingleBits(REQ_ASYM_PRIORITY)
    ensures SingleBits(DHE_PRIORITY) && SingleBits(AEAD_PRIORITY) && SingleBits(KEY_SCHEDULE_PRIORITY)
    ensures SingleBits(MEASUREMENT_HASH_PRIORITY) && SingleBits(MEASUREMENT_SPEC_PRIORITY)
  {
    Pow2Values();
  }

  /** The selection loop. */
  method PrioritizeAlgorithm(table: seq<u32>, local: u32, peer: u32) returns (r: u32)
    ensures r == Prioritize(table, local, peer)
  {
    var common := And(local, peer);
    var i := 0;
    while i < |table|
      invariant 0 <= i <= |table|
      invariant Prioritize(table[i..], local, peer) == Prioritize(table, local, peer)
    {
      if And(common, table[i]) != 0 {
        return table[i];
      }
      assert table[i..][1..] == table[i + 1..];
      i := i + 1;
    }
    return 0;
  }

  // ---------- Struct tables ----------

  /** One entry: a type, two bytes of algorithm bits and up to 15 extended algorithms. */
  datatype StructTable = StructTable(algType: byte, supported: u16, extended: seq<u32>)

  function Le32s(xs: seq<u32>): (s: seq<byte>)
    ensures |s| == 4 * |xs|
  {
    if xs == [] then [] else Le32(xs[0]) + Le32s(xs[1..])
  }

  function EncodeTable(t: StructTable): (s: seq<byte>)
    requires |t.extended| <= 15
    ensures |s| == 4 + 4 * |t.extended|
  {
    [t.algType, 0x20 + |t.extended|] + Le16(t.supported) + Le32s(t.extended)
  }

  ghost predicate Encodable(ts: seq<StructTable>, extLimit: nat) {
    forall i :: 0 <= i < |ts| ==> |ts[i].extended| <= extLimit
  }

  function EncodeTables(ts: seq<StructTable>): (s: seq<byte>)
    requires forall i :: 0 <= i < |ts| ==> |ts[i].extended| <= 15
  {
    if ts == [] then [] else EncodeTable(ts[0]) + EncodeTables(ts[1..])
  }

  /** Size in bytes of the entry whose count byte is `algCount`. */
  function EntrySize(algCount: byte): nat {
    4 + 4 * (algCount % 0x10)
  }

  /** The checks of one turn of the first pass. */
  predicate EntryOk(buf: seq<byte>, off: nat, extLimit: nat) {
    && off + 4 <= |buf|
    && buf[off + 1] / 0x10 == 2
    && buf[off + 1] % 0x10 <= extLimit
    && off + EntrySize(buf[off + 1]) <= |buf|
  }

  /** First pass over n entries from off: the offset just after them, or None when one is malformed. */
  function ScanTables(buf: seq<byte>, off: nat, n: nat, extLimit: nat): (r: Option<nat>)
    ensures r.Some? && off <= |buf| ==> off + 4 * n <= r.value <= |buf|
    decreases n
  {
    if n == 0 then Some(off)
    else if !EntryOk(buf, off, extLimit) then None
    else ScanTables(buf, off + EntrySize(buf[off + 1]), n - 1, extLimit)
  }

  /** The switch on AlgType. */
  function StoreAlgorithm(a: Algorithms, algType: byte, supported: u16): Algorithms {
    if algType == ALG_DHE then a.(dhe := supported)
    else if algType == ALG_AEAD then a.(aead := supported)
    else if algType == ALG_REQ_BASE_ASYM then a.(reqBaseAsym := supported)
    else if algType == ALG_KEY_SCHEDULE then a.(keySchedule := supported)
    else a
  }

  /** Type and algorithm bits of each of the n entries a first pass accepted. */
  function ReadTables(buf: seq<byte>, off: nat, n: nat, extLimit: nat): seq<(byte, u16)>
    requires ScanTables(buf, off, n, extLimit).Some?
    decreases n
  {
    if n == 0 then []
    else [(buf[off], At16(buf, off + 2))] + ReadTables(buf, off + EntrySize(buf[off + 1]), n - 1, extLimit)
  }

  /** Storing a list of entries in order. */
  function StoreAll(a: Algorithms, ts: seq<(byte, u16)>): Algorithms
    decreases |ts|
  {
    if ts == [] then a else StoreAll(StoreAlgorithm(a, ts[0].0, ts[0].1), ts[1..])
  }

  /** Second pass over the n entries a first pass accepted. */
  function LoadTables(buf: seq<byte>, off: nat, n: nat, extLimit: nat, a: Algorithms): Algorithms
    requires ScanTables(buf, off, n, extLimit).Some?
  {
    StoreAll(a, ReadTables(buf, off, n, extLimit))
  }

  /** The offsets of the n entries a first pass accepted. */
  function EntryOffsets(buf: seq<byte>, off: nat, n: nat, extLimit: nat): (offs: seq<nat>)
    requires ScanTables(buf, off, n, extLimit).Some?
    ensures |offs| == n
    ensures forall i :: 0 <= i < n ==> EntryOk(buf, offs[i], extLimit)
    decreases n
  {
    if n == 0 then [] else [off] + EntryOffsets(buf, off + EntrySize(buf[off + 1]), n - 1, extLimit)
  }

  /** First pass as a loop: it stops at the first malformed entry. */
  method ScanLoop(buf: seq<byte>, off: nat, n: nat, extLimit: nat) returns (end: Option<nat>, visited: seq<nat>)
    ensures end == ScanTables(buf, off, n, extLimit)
    ensures end.Some? ==> visited == EntryOffsets(buf, off, n, extLimit)
  {
    var ptr: nat := off;
    visited := [];
    var i := 0;
    while i < n
      invariant 0 <= i <= n
      invariant ScanTables(buf, ptr, n - i, extLimit) == ScanTables(buf, off, n, extLimit)
      invariant ScanTables(buf, off, n, extLimit).Some? ==>
        visited + EntryOffsets(buf, ptr, n - i, extLimit) == EntryOffsets(buf, off, n, extLimit)
    {
      if |buf| < ptr || |buf| - ptr < 4 {
        return None, visited;
      }
      if buf[ptr + 1] / 0x10 != 2 || buf[ptr + 1] % 0x10 > extLimit {
        return None, visited;
      }
      if |buf| - ptr - 4 < 4 * (buf[ptr + 1] % 0x10) {
        return None, visited;
      }
      ghost var rest := n - i;
      if ScanTables(buf, off, n, extLimit).Some? {
        assert EntryOffsets(buf, ptr, rest, extLimit)
            == [ptr] + EntryOffsets(buf, ptr + EntrySize(buf[ptr + 1]), rest - 1, extLimit);
        assert visited + ([ptr] + EntryOffsets(buf, ptr + EntrySize(buf[ptr + 1]), rest - 1, extLimit))
            == visited + [ptr] + EntryOffsets(buf, ptr + EntrySize(buf[ptr + 1]), rest - 1, extLimit);
      }
      visited := visited + [ptr];
      ptr := ptr + EntrySize(buf[ptr + 1]);
      i := i + 1;
    }
    end := Some(ptr);
    assert visited + [] == visited;
  }

  /** Second pass as a loop: it visits exactly the offsets the first pass validated. */
  method LoadLoop(buf: seq<byte>, off: nat, n: nat, extLimit: nat, a: Algorithms)
    returns (r: Algorithms, visited: seq<nat>)
    requires ScanTables(buf, off, n, extLimit).Some?
    ensures r == LoadTables(buf, off, n, extLimit, a)
    ensures visited == EntryOffsets(buf, off, n, extLimit)
  {
    r := a;
    var ptr: nat := off;
    visited := [];
    var i := 0;
    while i < n
      invariant 0 <= i <= n
      invariant ScanTables(buf, ptr, n - i, extLimit).Some?
      invariant LoadTables(buf, ptr, n - i, extLimit, r) == LoadTables(buf, off, n, extLimit, a)
      invariant visited + EntryOffsets(buf, ptr, n - i, extLimit) == EntryOffsets(buf, off, n, extLimit)
    {
      ghost var next := EntryOffsets(buf, ptr + EntrySize(buf[ptr + 1]), n - i - 1, extLimit);
      assert visited + ([ptr] + next) == visited + [ptr] + next;
      r := StoreAlgorithm(r, buf[ptr], At16(buf, ptr + 2));
      visited := visited + [ptr];
      ptr := ptr + EntrySize(buf[ptr + 1]);
      i := i + 1;
    }
    assert visited + [] == visited;
  }

  /** What an encoded list says, without the extended algorithms. */
  function Entries(ts: seq<StructTable>): (es: seq<(byte, u16)>)
    ensures |es| == |ts|
  {
    if ts == [] then [] else [(ts[0].algType, ts[0].supported)] + Entries(ts[1..])
  }

  /** The value of the last table of a type, or `previous` when there is none. */
  function LastOf(ts: seq<StructTable>, algType: byte, previous: u16): u16 {
    if ts == [] then previous
    else LastOf(ts[1..], algType, if ts[0].algType == algType then ts[0].supported else previous)
  }

  function WithLast(a: Algorithms, ts: seq<StructTable>): Algorithms {
    a.(dhe := LastOf(ts, ALG_DHE, a.dhe), aead := LastOf(ts, ALG_AEAD, a.aead),
       reqBaseAsym := LastOf(ts, ALG_REQ_BASE_ASYM, a.reqBaseAsym),
       keySchedule := LastOf(ts, ALG_KEY_SCHEDULE, a.keySchedule))
  }

  lemma {:induction false} StoreAllKeepsTheLast(a: Algorithms, ts: seq<StructTable>)
    ensures StoreAll(a, Entries(ts)) == WithLast(a, ts)
    decreases |ts|
  {
    if ts != [] {
      var b := StoreAlgorithm(a, ts[0].algType, ts[0].supported);
      assert Entries(ts)[1..] == Entries(ts[1..]);
      StoreAllKeepsTheLast(b, ts[1..]);
    }
  }

  /** The bytes `part` lie in `buf` at `off`. */
  predicate LiesAt(buf: seq<byte>, off: nat, part: seq<byte>) {
    off + |part| <= |buf| && buf[off..off + |part|] == part
  }

  lemma LiesAtSplits(buf: seq<byte>, off: nat, x: seq<byte>, y: seq<byte>)
    requires LiesAt(buf, off, x + y)
    ensures LiesAt(buf, off, x) && LiesAt(buf, off + |x|, y)
  {
    var w := buf[off..off + |x + y|];
    assert buf[off..off + |x|] == w[..|x|] == x;
    assert buf[off + |x|..off + |x| + |y|] == w[|x|..] == y;
  }

  /** The entry at `off` reads as t, whatever its extended algorithms are. */
  predicate EntryIs(buf: seq<byte>, off: nat, t: StructTable) {
    && off + 4 + 4 * |t.extended| <= |buf|
    && buf[off] == t.algType && buf[off + 1] == 0x20 + |t.extended| && At16(buf, off + 2) == t.supported
  }

  /** The entries from `off` on read as ts. */
  predicate EntriesAre(buf: seq<byte>, off: nat, ts: seq<StructTable>)
    decreases |ts|
  {
    ts == [] || (EntryIs(buf, off, ts[0]) && EntriesAre(buf, off + 4 + 4 * |ts[0].extended|, ts[1..]))
  }

  lemma EncodedEntryIs(buf: seq<byte>, off: nat, t: StructTable)
    requires |t.extended| <= 15 && LiesAt(buf, off, EncodeTable(t))
    ensures EntryIs(buf, off, t)
  {
    var e := EncodeTable(t);
    var w := buf[off..off + |e|];
    assert buf[off] == w[0] && buf[off + 1] == w[1] && buf[off + 2] == w[2] && buf[off + 3] == w[3];
    assert e[2] == Le16(t.supported)[0] && e[3] == Le16(t.supported)[1];
  }

  lemma FirstEncodedEntryIs(buf: seq<byte>, off: nat, ts: seq<StructTable>)
    requires ts != [] && Encodable(ts, 15) && LiesAt(buf, off, EncodeTables(ts))
    ensures EntryIs(buf, off, ts[0])
    ensures LiesAt(buf, off + 4 + 4 * |ts[0].extended|, EncodeTables(ts[1..]))
  {
    LiesAtSplits(buf, off, EncodeTable(ts[0]), EncodeTables(ts[1..]));
    EncodedEntryIs(buf, off, ts[0]);
  }

  lemma {:induction false} EncodedEntriesAre(buf: seq<byte>, off: nat, ts: seq<StructTable>)
    requires Encodable(ts, 15) && LiesAt(buf, off, EncodeTables(ts))
    ensures EntriesAre(buf, off, ts)
    decreases |ts|
  {
    if ts != [] {
      FirstEncodedEntryIs(buf, off, ts);
      EncodedEntriesAre(buf, off + 4 + 4 * |ts[0].extended|, ts[1..]);
    }
  }

  /** Size in bytes of an encoded list. */
  function EncodedSize(ts: seq<StructTable>): nat {
    if ts == [] then 0 else 4 + 4 * |ts[0].extended| + EncodedSize(ts[1..])
  }

  lemma {:induction false} EncodingHasItsSize(ts: seq<StructTable>)
    requires Encodable(ts, 15)
    ensures |EncodeTables(ts)| == EncodedSize(ts)
    decreases |ts|
  {
    if ts != [] {
      EncodingHasItsSize(ts[1..]);
    }
  }

  /** The two passes over entries that read as ts: both succeed, end after them, and the second reads ts. */
  lemma {:induction false} PassesReadEntries(buf: seq<byte>, off: nat, ts: seq<StructTable>, extLimit: nat)
    requires extLimit <= 15 && Encodable(ts, extLimit) && EntriesAre(buf, off, ts)
    ensures ScanTables(buf, off, |ts|, extLimit) == Some(off + EncodedSize(ts))
    ensures ReadTables(buf, off, |ts|, extLimit) == Entries(ts)
    decreases |ts|
  {
    if ts != [] {
      PassesReadEntries(buf, off + 4 + 4 * |ts[0].extended|, ts[1..], extLimit);
    }
  }

  /** Whatever the first pass accepts reads as a list of tables, each with the fixed count of two and few extensions. */
  lemma {:induction false} ScannedIsEncoded(buf: seq<byte>, off: nat, n: nat, extLimit: nat)
      returns (ts: seq<StructTable>)
    requires off <= |buf| && extLimit <= 15 && ScanTables(buf, off, n, extLimit).Some?
    ensures |ts| == n && Encodable(ts, extLimit) && EntriesAre(buf, off, ts)
    ensures ScanTables(buf, off, n, extLimit) == Some(off + EncodedSize(ts))
    decreases n
  {
    ts := [];
    if n > 0 {
      var count: nat := buf[off + 1] % 0x10;
      var first := StructTable(buf[off], At16(buf, off + 2), seq(count, _ => 0));
      var rest := ScannedIsEncoded(buf, off + 4 + 4 * count, n - 1, extLimit);
      ts := [first] + rest;
      assert ts[1..] == rest;
    }
  }

  /** Encoding any list of tables and parsing it back yields the last value per algorithm type. */
  lemma TablesRoundTrip(pre: seq<byte>, ts: seq<StructTable>, post: seq<byte>, extLimit: nat, a: Algorithms)
    requires extLimit <= 15 && Encodable(ts, extLimit)
    ensures var buf := pre + EncodeTables(ts) + post;
            && ScanTables(buf, |pre|, |ts|, extLimit) == Some(|pre| + |EncodeTables(ts)|)
            && LoadTables(buf, |pre|, |ts|, extLimit, a) == WithLast(a, ts)
  {
    var buf := pre + EncodeTables(ts) + post;
    EncodedEntriesAre(buf, |pre|, ts);
    EncodingHasItsSize(ts);
    PassesReadEntries(buf, |pre|, ts, extLimit);
    StoreAllKeepsTheLast(a, ts);
  }
}
