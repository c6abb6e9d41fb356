/** When GET_MEASUREMENTS succeeds, what it hands out and what it leaves in M, in the bytes of the messages. */
module ExactMeasurement {
  import opened Bytes
  import opened Spdm
  import opened Crypto
  import opened ManagedBuffers
  import opened DeviceContext
  import opened Exchanges
  import opened ConnectionRequester
  import opened SessionTable
  import opened Measurement
  import opened Meaning
  import opened ExactConnection

  // ---------- The record ----------

  /** Byte i of the measurement record, which starts at byte 8 of the response; zero behind the bytes received. */
  function RecordByte(m: seq<byte>, i: nat): byte {
    if 8 + i < |m| then m[8 + i] else 0
  }

  /** The size of the block at offset o: its 16-bit length field, behind index and specification. */
  function SizeField(m: seq<byte>, o: nat): nat {
    RecordByte(m, o + 2) as int + 0x100 * (RecordByte(m, o + 3) as int)
  }

  /** The blocks lie one behind the other: a header of four bytes and the measurement, up to the end of the record. */
  ghost predicate Blocks(m: seq<byte>, r: nat, o: nat, at: seq<nat>) {
    && (o < r ==> at != [] && at[0] == o) && (o >= r ==> at == [])
    && (forall k :: 0 <= k < |at| ==> at[k] < r)
    && (forall k :: 0 <= k < |at| - 1 ==> at[k + 1] == at[k] + 4 + SizeField(m, at[k]))
    && (at != [] ==> at[|at| - 1] + 4 + SizeField(m, at[|at| - 1]) >= r)
  }

  lemma {:induction false} OffsetsAreBlocks(m: seq<byte>, r: nat, o: nat)
    ensures Blocks(m, r, o, BlockOffsets(m, r, o))
    decreases r - o
  {
    if o < r {
      var next := o + 4 + BlockSize(m, o) as int;
      OffsetsAreBlocks(m, r, next);
      var tail := BlockOffsets(m, r, next);
      var at := BlockOffsets(m, r, o);
      assert at == [o] + tail;
      assert SizeField(m, o) == BlockSize(m, o);
      forall k | 0 <= k < |at| - 1 ensures at[k + 1] == at[k] + 4 + SizeField(m, at[k]) {
        if k > 0 {
          assert at[k] == tail[k - 1] && at[k + 1] == tail[k];
        }
      }
      assert forall k :: 1 <= k < |at| ==> at[k] == tail[k - 1];
    }
  }

  predicate OneBit(spec: byte) {
    spec in {0x01, 0x02, 0x04, 0x08, 0x10, 0x20, 0x40, 0x80}
  }

  /**
   At most the announced number of blocks; each has one of the announced indices and the negotiated single-bit
   specification, and lies inside the record.
   */
  ghost predicate GoodBlocks(m: seq<byte>, r: nat, spec: byte, blocks: byte, at: seq<nat>) {
    && |at| <= blocks && (at != [] ==> OneBit(spec))
    && forall k :: 0 <= k < |at| ==>
         1 <= RecordByte(m, at[k]) <= blocks && RecordByte(m, at[k] + 1) == spec && at[k] + SizeField(m, at[k]) <= r
  }

  ghost predicate GoodRecord(m: seq<byte>, r: nat, spec: byte, blocks: byte) {
    exists at :: Blocks(m, r, 0, at) && GoodBlocks(m, r, spec, blocks, at)
  }

  /** There is only one way to cut a record into blocks. */
  lemma {:induction false} BlocksAreUnique(m: seq<byte>, r: nat, o: nat, a: seq<nat>, b: seq<nat>)
    requires Blocks(m, r, o, a) && Blocks(m, r, o, b)
    ensures a == b
    decreases r - o
  {
    if o < r {
      var next := o + 4 + SizeField(m, o);
      TailOfBlocks(m, r, o, a);
      TailOfBlocks(m, r, o, b);
      BlocksAreUnique(m, r, next, a[1..], b[1..]);
      assert a == [o] + a[1..] && b == [o] + b[1..];
    }
  }

  lemma TailOfBlocks(m: seq<byte>, r: nat, o: nat, a: seq<nat>)
    requires Blocks(m, r, o, a) && o < r
    ensures a != [] && a[0] == o && Blocks(m, r, o + 4 + SizeField(m, o), a[1..])
  {
    var t := a[1..];
    forall k | 0 <= k < |t| - 1 ensures t[k + 1] == t[k] + 4 + SizeField(m, t[k]) {
      assert t[k] == a[k + 1] && t[k + 1] == a[k + 2];
    }
    if t != [] {
      assert t[0] == a[1] && t[|t| - 1] == a[|a| - 1];
    }
  }

  /** The walk accepts exactly the good records. */
  lemma RecordExactly(m: seq<byte>, r: nat, spec: byte, blocks: byte)
    ensures RecordOk(m, r, spec, blocks, 0, 0) <==> GoodRecord(m, r, spec, blocks)
  {
    hide RecordOk, GoodBlocks, Blocks, BlockOffsets;
    var os := BlockOffsets(m, r, 0);
    OffsetsAreBlocks(m, r, 0);
    WalkMeans(m, r, spec, blocks);
    if GoodRecord(m, r, spec, blocks) {
      var at :| Blocks(m, r, 0, at) && GoodBlocks(m, r, spec, blocks, at);
      BlocksAreUnique(m, r, 0, at, os);
    }
  }

  lemma WalkMeans(m: seq<byte>, r: nat, spec: byte, blocks: byte)
    ensures RecordOk(m, r, spec, blocks, 0, 0) <==> GoodBlocks(m, r, spec, blocks, BlockOffsets(m, r, 0))
  {
    hide SingleBit, OneBit, BlockOffsets;
    var os := BlockOffsets(m, r, 0);
    BitsMean(spec);
    forall k | 0 <= k < |os|
      ensures BlockOk(m, r, spec, blocks, os[k]) <==>
                1 <= RecordByte(m, os[k]) <= blocks && RecordByte(m, os[k] + 1) == spec
                && os[k] + SizeField(m, os[k]) <= r
    {
    }
  }

  lemma BitsMean(spec: byte)
    ensures SingleBit(spec) <==> OneBit(spec)
  {
    Powers();
    if SingleBit(spec) {
      var k: nat :| k < 8 && spec == Pow2(k);
      assert k in {0, 1, 2, 3, 4, 5, 6, 7};
    }
    if OneBit(spec) {
      assert spec in {Pow2(0), Pow2(1), Pow2(2), Pow2(3), Pow2(4), Pow2(5), Pow2(6), Pow2(7)};
    }
  }

  // ---------- The exchange ----------

  /** GET_MEASUREMENTS as it lies on the wire: nonce and, in 1.1, the slot go with a request for a signature only. */
  function MeasurementQuestion(s: Context, c: MeasurementCall, nonce: Nonce): seq<byte> {
    [Version(s), 0xE0, c.attribute, c.operation]
    + (if c.attribute == 1 then nonce + (if Version(s) == 0x11 then [c.slot] else []) else [])
  }

  /** The guards of GET_MEASUREMENTS. */
  ghost predicate MayAsk(s: Context, c: MeasurementCall) {
    var f := FlagsOf(s, true);
    && f.Measures() && (f.Responder(3) ==> c.attribute == 0)
    && (c.slot < 8 || (c.slot == 0xF && s.local.peerChain != []))
    && match c.session
       case None => s.state == Authenticated
       case Some(id) =>
         var found := FindSession(s.sessions, id);
         && s.state in {Negotiated, AfterDigests, AfterCertificate, Authenticated}
         && found.Some? && s.sessions[found.value].phase == Established
  }

  lemma GuardsMean(s: Context, c: MeasurementCall)
    ensures MayMeasure(s, c) && SlotParamOk(s, c) && !(IsCapable(s, true, 0, MEAS_CAP_NO_SIG) && c.attribute != 0) <==>
              MayAsk(s, c)
  {
    hide IsCapable, Bit, FindSession;
    Queries(s, true);
  }

  /** The length of the record: a 24-bit word, and nothing when only the number of blocks was asked for. */
  function Length(c: MeasurementCall, m: seq<byte>): nat
    requires |m| >= 8
  {
    if c.operation == 0 then 0 else m[5] as int + 0x100 * (m[6] as int) + 0x1_0000 * (m[7] as int)
  }

  /** Where the part of the response that goes into M ends: behind record, nonce and opaque data. */
  function TailEnd(c: MeasurementCall, m: seq<byte>): nat
    requires |m| >= 8
  {
    var n := 8 + Length(c, m) + (if c.attribute == 1 then 32 else 0);
    if |m| < n + 2 then n + 2 else n + 2 + At16(m, n) as int
  }

  /** A response of the right shape for what was asked. */
  ghost predicate Shaped(s: Context, c: MeasurementCall, m: seq<byte>) {
    && 8 <= |m| <= 2146
    && (if c.operation == 0 then m[4..8] == [0, 0, 0, 0]
        else (if c.operation == 0xFF then m[4] != 0 else m[4] == 1) && Length(c, m) < 568)
    && var n := 8 + Length(c, m) + (if c.attribute == 1 then 32 else 0);
       var end := TailEnd(c, m);
    && n + 2 <= |m| && end <= n + 2 + 1024
    && end + (if c.attribute == 1 then SignatureSize(s.algorithms.baseAsym) else 0) <= |m|
    && (c.attribute == 1 && Version(s) == 0x11 ==> m[3] == c.slot)
  }

  /** The signature that was asked for verifies over all of M with request and response. */
  ghost predicate SignedRecord(cr: Crypto, s: Context, c: MeasurementCall, l: seq<byte>, m: seq<byte>)
    requires |m| >= 8
  {
    c.attribute == 1 ==>
      var end := TailEnd(c, m);
      && end + SignatureSize(s.algorithms.baseAsym) <= |m| && Known(s) != []
      && cr.verify(s.algorithms.baseAsym, s.algorithms.baseHash,
                   Certificates(Known(s), HashSize(s.algorithms.baseHash)), l,
                   m[end..end + SignatureSize(s.algorithms.baseAsym)])
  }

  /** What is handed out: a number of blocks, or a good record that the caller has room for. */
  ghost predicate HandsOut(s: Context, c: MeasurementCall, m: seq<byte>)
    requires |m| >= 8
  {
    if c.operation == 0 then m[2] != 0 && m[2] != 0xFF
    else 4 <= Length(c, m) <= c.capacity && GoodRecord(m, Length(c, m), s.algorithms.measurementSpec, m[4])
  }

  /** The whole response is taken into M, or M starts anew because a signature was asked for. */
  lemma CachesExactly(cr: Crypto, s: Context, c: MeasurementCall, m: seq<byte>)
    requires |m| >= 8 && 8 + Length(c, m) <= |m|
    requires 8 <= |m| <= 2146
    requires if c.operation == 0 then m[4..8] == [0, 0, 0, 0]
             else (if c.operation == 0xFF then m[4] != 0 else m[4] == 1) && Length(c, m) < 568
    ensures var r := CacheResponse(cr, s, c, m, Length(c, m));
            && (r.0 == Success <==>
                  && Shaped(s, c, m) && |s.messageM| + TailEnd(c, m) <= 0x1200
                  && SignedRecord(cr, s, c, s.messageM + m[..TailEnd(c, m)], m))
            && (r.0 == Success ==>
                  r.1 == s.(messageM := if c.attribute == 1 then [] else s.messageM + m[..TailEnd(c, m)]))
            && (Shaped(s, c, m) && r.0 != Success ==> r.0 == SecurityViolation && r.1.messageM == [])
  {
    hide SignatureSize, HashSize, Version, Length;
  }

  lemma ChecksExactly(s: Context, c: MeasurementCall, m: seq<byte>)
    ensures CheckRecord(s, c, m).Good? <==>
              && 8 <= |m| <= 2146 && 8 + Length(c, m) <= |m|
              && (if c.operation == 0 then m[4..8] == [0, 0, 0, 0]
                  else (if c.operation == 0xFF then m[4] != 0 else m[4] == 1) && Length(c, m) < 568)
    ensures CheckRecord(s, c, m).Good? ==> CheckRecord(s, c, m).length == Length(c, m)
  {
    if |m| >= 8 {
      assert m[4..8] == [m[4], m[5], m[6], m[7]];
    }
  }

  /**
   GET_MEASUREMENTS succeeds exactly on a response of the right shape whose signature, if one was asked for, the
   certificates of the known chain verify over all that M has gathered, and which has something to hand out.
   */
  lemma MeasurementsExactly(cr: Crypto, s: Context, c: MeasurementCall, x: MeasurementInput)
    ensures var r := TryGetMeasurement(cr, s, c, x);
            var o := LongOutcome(x.reply, 0x60, 2146);
            var q := MeasurementQuestion(s, c, x.nonce);
            if MayAsk(s, c) && o.Answer? && Shaped(s, c, o.message)
               && |s.messageM| + |q| + TailEnd(c, o.message) <= 0x1200 then
              var m := o.message;
              var l := s.messageM + q + m[..TailEnd(c, m)];
              && (r.status == Success <==> SignedRecord(cr, s, c, l, m) && HandsOut(s, c, m))
              && (r.status == Success ==>
                    && r.out == (if c.operation == 0 then Measured(m[2], [])
                                 else Measured(m[4], m[8..8 + Length(c, m)]))
                    && r.ctx == s.(messageM := if c.attribute == 1 then [] else l, errorState := NoError))
              && (!SignedRecord(cr, s, c, l, m) ==> r.status == SecurityViolation && r.ctx.messageM == [])
              && (SignedRecord(cr, s, c, l, m) && !HandsOut(s, c, m) ==>
                    && r.status == (if c.operation != 0 && c.capacity < Length(c, m) then BufferTooSmall
                                    else DeviceError)
                    && r.ctx == s.(messageM := if c.attribute == 1 then [] else l, errorState := NoCapabilities))
            else r.status != Success
  {
    hide MayMeasure, SlotParamOk, IsCapable, MayAsk, SignatureSize, HashSize, Version, CheckRecord, CacheResponse,
         RecordOk, GoodRecord, Shaped, SignedRecord, Length, TailEnd, RecordLength;
    GuardsMean(s, c);
    var q := MeasurementQuestion(s, c, x.nonce);
    assert GetMeasurementsRequest(s, c, x.nonce) == q by { QuestionIsAsked(s, c, x.nonce); }
    var o := LongOutcome(x.reply, 0x60, 2146);
    if o.Answer? {
      var m := o.message;
      var s1 := s.(errorState := NoCapabilities, messageM := s.messageM + q);
      ChecksExactly(s1, c, m);
      ShapedIsGood(s, c, m);
      if CheckRecord(s1, c, m).Good? {
        CachesExactly(cr, s1, c, m);
        SameShape(cr, s, s1, c, s1.messageM + m[..Min(TailEnd(c, m), |m|)], m);
        RecordExactly(m, Length(c, m), s.algorithms.measurementSpec, m[4]);
      }
    }
  }

  lemma QuestionIsAsked(s: Context, c: MeasurementCall, nonce: Nonce)
    ensures GetMeasurementsRequest(s, c, nonce) == MeasurementQuestion(s, c, nonce)
  {
    hide Version;
    var head := [Version(s), 0xE0, c.attribute, c.operation];
    assert head + [] == head;
    assert head + nonce + [] == head + (nonce + []) && head + nonce + [c.slot] == head + (nonce + [c.slot]);
  }

  lemma ShapedIsGood(s: Context, c: MeasurementCall, m: seq<byte>)
    ensures Shaped(s, c, m) ==>
              && 8 <= |m| <= 2146 && 8 + Length(c, m) <= |m| && TailEnd(c, m) <= |m|
              && (if c.operation == 0 then m[4..8] == [0, 0, 0, 0]
                  else (if c.operation == 0xFF then m[4] != 0 else m[4] == 1) && Length(c, m) < 568)
  {
    hide Length, Version, SignatureSize;
  }

  lemma SameShape(cr: Crypto, s: Context, t: Context, c: MeasurementCall, l: seq<byte>, m: seq<byte>)
    requires t == s.(errorState := t.errorState, messageM := t.messageM) && |m| >= 8
    ensures Shaped(s, c, m) <==> Shaped(t, c, m)
    ensures SignedRecord(cr, s, c, l, m) <==> SignedRecord(cr, t, c, l, m)
  {
    assert Version(s) == Version(t);
  }
}
