/** GET_MEASUREMENTS: message M and the walk over the measurement blocks (SpdmRequesterLibGetMeasurement.c). */
module Measurement {
  import opened Bytes
  import opened Spdm
  import opened Crypto
  import opened ManagedBuffers
  import opened DeviceContext
  import opened Exchanges
  import opened ConnectionRequester
  import opened SessionTable

  const MAX_RECORD: nat := (7 + MAX_HASH) * 8
  const MEASUREMENTS_MAX: nat := 8 + MAX_RECORD + NONCE_SIZE + 2 + MAX_OPAQUE + MAX_ASYM_KEY
  const GENERATE_SIGNATURE: byte := 1
  const TOTAL_NUMBER: byte := 0
  const ALL_MEASUREMENTS: byte := 0xFF

  // ---------- The walk over a record ----------

  /** A byte of the response buffer, which is zero behind the bytes received. */
  function ByteAt(m: seq<byte>, i: nat): byte {
    if i < |m| then m[i] else 0
  }

  // The header of the block at offset o of the record, which starts at byte 8 of the response.

  function BlockIndex(m: seq<byte>, o: nat): byte { ByteAt(m, 8 + o) }

  function BlockSpec(m: seq<byte>, o: nat): byte { ByteAt(m, 9 + o) }

  function BlockSize(m: seq<byte>, o: nat): u16 { ByteAt(m, 10 + o) as int + 0x100 * (ByteAt(m, 11 + o) as int) }

  /** Offsets of the blocks of a record of length r from offset o on. */
  function BlockOffsets(m: seq<byte>, r: nat, o: nat): (os: seq<nat>)
    ensures forall i :: 0 <= i < |os| ==> os[i] < r
    decreases r - o
  {
    if o >= r then [] else [o] + BlockOffsets(m, r, o + 4 + BlockSize(m, o) as int)
  }

  /** Where a walk from offset o ends. */
  function WalkEnd(m: seq<byte>, r: nat, o: nat): nat
    decreases r - o
  {
    if o >= r then o else WalkEnd(m, r, o + 4 + BlockSize(m, o) as int)
  }

  /** A block lies within the record, has the negotiated specification and an index among the announced blocks. */
  predicate BlockOk(m: seq<byte>, r: nat, spec: byte, blocks: byte, o: nat) {
    BlockSize(m, o) + o <= r && BlockSpec(m, o) == spec && 1 <= BlockIndex(m, o) <= blocks
  }

  predicate SingleBit(spec: byte) {
    exists k: nat :: k < 8 && spec == Pow2(k)
  }

  /**
   What an acceptable record is from offset o on: with those visited, at most the announced blocks, and all of them
   good.
   */
  predicate RecordOk(m: seq<byte>, r: nat, spec: byte, blocks: byte, o: nat, visited: nat) {
    var os := BlockOffsets(m, r, o);
    && visited + |os| <= blocks
    && (os != [] ==> SingleBit(spec))
    && forall i :: 0 <= i < |os| ==> BlockOk(m, r, spec, blocks, os[i])
  }

  predicate PowerOfTwo(x: nat) {
    x == 1 || (x > 0 && x % 2 == 0 && PowerOfTwo(x / 2))
  }

  /** x & (x - 1) is zero exactly for the powers of two. */
  lemma {:induction false} ClearingLowestBit(x: nat)
    requires x > 0
    ensures And(x, x - 1) == 0 <==> PowerOfTwo(x)
  {
    if x % 2 == 0 {
      ClearingLowestBit(x / 2);
      assert (x - 1) / 2 == x / 2 - 1;
    } else {
      AndItself(x / 2);
      assert (x - 1) / 2 == x / 2;
    }
  }

  lemma {:induction false} PowersAreBits(x: nat, bits: nat)
    requires x < Pow2(bits)
    ensures PowerOfTwo(x) ==> exists k: nat :: k < bits && x == Pow2(k)
    decreases bits
  {
    if PowerOfTwo(x) {
      if x == 1 {
        assert x == Pow2(0);
      } else {
        PowersAreBits(x / 2, bits - 1);
        var k: nat :| k < bits - 1 && x / 2 == Pow2(k);
        assert x == Pow2(k + 1);
      }
    }
  }

  lemma {:induction false} BitsArePowers(k: nat)
    ensures PowerOfTwo(Pow2(k))
  {
    if k > 0 {
      BitsArePowers(k - 1);
      assert Pow2(k) / 2 == Pow2(k - 1);
    }
  }

  /** The check the loop makes on a block's specification. */
  predicate SpecBitOk(spec: byte) {
    spec != 0 && And(spec, spec - 1) == 0
  }

  lemma SpecBitIsSingle(spec: byte)
    ensures SpecBitOk(spec) <==> SingleBit(spec)
  {
    assert Pow2(8) == 256;
    if spec != 0 {
      ClearingLowestBit(spec);
      PowersAreBits(spec, 8);
    }
    if SingleBit(spec) {
      var k: nat :| k < 8 && spec == Pow2(k);
      BitsArePowers(k);
    }
  }

  /** One block at a time. */
  lemma RecordOkStep(m: seq<byte>, r: nat, spec: byte, blocks: byte, o: nat, visited: nat)
    requires o < r && visited <= blocks
    ensures var next := o + 4 + BlockSize(m, o) as int;
            RecordOk(m, r, spec, blocks, o, visited) <==>
              visited < blocks && SingleBit(spec) && BlockOk(m, r, spec, blocks, o)
              && RecordOk(m, r, spec, blocks, next, visited + 1)
  {
    hide BlockOk, SingleBit;
    var os := BlockOffsets(m, r, o);
    var tail := BlockOffsets(m, r, o + 4 + BlockSize(m, o) as int);
    assert os == [o] + tail;
    if forall i :: 0 <= i < |os| ==> BlockOk(m, r, spec, blocks, os[i]) {
      assert BlockOk(m, r, spec, blocks, os[0]);
      forall i | 0 <= i < |tail| ensures BlockOk(m, r, spec, blocks, tail[i]) {
        assert tail[i] == os[i + 1];
      }
    }
  }

  /**
   The loop, with its 8-bit counter. It accepts exactly the acceptable records; then it has visited
   every block, its counter has not wrapped, and it ends at most four bytes behind the record.
   */
  method WalkBlocks(m: seq<byte>, r: nat, spec: byte, blocks: byte) returns (ok: bool, count: byte, end: nat)
    requires r < MAX_RECORD
    ensures ok <==> RecordOk(m, r, spec, blocks, 0, 0)
    ensures ok ==> r <= end <= r + 4 && end == WalkEnd(m, r, 0)
    ensures ok ==> count as int == 1 + |BlockOffsets(m, r, 0)|
  {
    hide RecordOk, SingleBit;
    var o: nat := 0;
    count := 1;
    while o < r
      invariant o <= r + 4 && 4 * (count as int - 1) <= o && 1 <= count as int <= blocks as int + 1
      invariant |BlockOffsets(m, r, 0)| == count as int - 1 + |BlockOffsets(m, r, o)|
      invariant WalkEnd(m, r, 0) == WalkEnd(m, r, o)
      invariant RecordOk(m, r, spec, blocks, 0, 0) <==> RecordOk(m, r, spec, blocks, o, count as int - 1)
      decreases r + 4 - o
    {
      RecordOkStep(m, r, spec, blocks, o, count as int - 1);
      if BlockSize(m, o) > r - o {
        return false, count, o;
      }
      SpecBitIsSingle(BlockSpec(m, o));
      if !SpecBitOk(BlockSpec(m, o)) {
        return false, count, o;
      }
      if BlockSpec(m, o) != spec {
        return false, count, o;
      }
      if BlockIndex(m, o) == 0 || BlockIndex(m, o) > blocks {
        return false, count, o;
      }
      if count > blocks {
        return false, count, o;
      }
      count := (count as int + 1) % 0x100;
      o := o + 4 + BlockSize(m, o) as int;
    }
    AllVisited(m, r, spec, blocks, o, count as int - 1);
    return true, count, o;
  }

  lemma AllVisited(m: seq<byte>, r: nat, spec: byte, blocks: byte, o: nat, visited: nat)
    requires o >= r && visited <= blocks
    ensures RecordOk(m, r, spec, blocks, o, visited)
  {
  }

  // ---------- The exchange ----------

  datatype MeasurementInput = MeasurementInput(nonce: Nonce, reply: Reply)

  /** What a caller asks for; `capacity` is the room for the record. */
  datatype MeasurementCall = MeasurementCall(session: Option<u32>, attribute: byte, operation: byte, slot: byte,
                                             capacity: nat)

  datatype Measured = Measured(blocks: byte, record: seq<byte>)

  function GetMeasurementsRequest(s: Context, c: MeasurementCall, nonce: Nonce): (m: seq<byte>)
    ensures |m| >= 4
  {
    var header := [Version(s), GET_MEASUREMENTS, c.attribute, c.operation];
    if c.attribute != GENERATE_SIGNATURE then header
    else header + nonce + (if Version(s) == VERSION_11 then [c.slot] else [])
  }

  /** The guards before anything changes. */
  predicate MayMeasure(s: Context, c: MeasurementCall) {
    && IsCapable(s, true, 0, MEAS_CAP)
    && match c.session
       case None => s.state.Reached(Authenticated)
       case Some(id) =>
         var found := FindSession(s.sessions, id);
         s.state.Reached(Negotiated) && found.Some? && s.sessions[found.value].phase == Established
  }

  predicate SlotParamOk(s: Context, c: MeasurementCall) {
    !(c.slot >= MAX_SLOTS && c.slot != 0xF) && !(c.slot == 0xF && s.local.peerChain == [])
  }

  function Reset(s: Context): Context { s.(messageM := []) }

  /** SpdmVerifyMeasurementSignature. */
  predicate MeasurementSignatureOk(cr: Crypto, s: Context, signature: seq<byte>) {
    PeerChainData(s).Some?
    && cr.verify(s.algorithms.baseAsym, s.algorithms.baseHash, PeerChainData(s).value, s.messageM, signature)
  }

  /** The length of the record, a 24-bit word. */
  function RecordLength(m: seq<byte>): nat
    requires |m| >= 8
  {
    m[5] as int + 0x100 * (m[6] as int) + 0x1_0000 * (m[7] as int)
  }

  /** What the checks on the sizes make of a response: fail, or go on with the record length. */
  datatype Checked = Bad(ctx: Context) | Good(length: nat)

  function CheckRecord(s: Context, c: MeasurementCall, m: seq<byte>): (r: Checked)
    ensures r.Good? ==>
              8 + r.length <= |m| <= MEASUREMENTS_MAX && (c.operation != TOTAL_NUMBER ==> r.length < MAX_RECORD)
  {
    if |m| < 8 || |m| > MEASUREMENTS_MAX then Bad(s)
    else if c.operation == TOTAL_NUMBER then
      if m[4] != 0 || RecordLength(m) != 0 then Bad(Reset(s)) else Good(0)
    else if (if c.operation == ALL_MEASUREMENTS then m[4] == 0 else m[4] != 1) then Bad(s)
    else if |m| < 8 + RecordLength(m) || RecordLength(m) >= MAX_RECORD then Bad(s)
    else Good(RecordLength(m))
  }

  /** What the signed or unsigned tail of the response makes of M. */
  function CacheResponse(cr: Crypto, s: Context, c: MeasurementCall, m: seq<byte>, r: nat): (Status, Context)
    requires 8 + r <= |m|
  {
    if c.attribute == GENERATE_SIGNATURE then
      var sig := SignatureSize(s.algorithms.baseAsym);
      var fixed := 8 + r + NONCE_SIZE + 2;
      if |m| < fixed then (DeviceError, Reset(s))
      else if Version(s) == VERSION_11 && m[3] != c.slot then (SecurityViolation, Reset(s))
      else
        var opq: nat := At16(m, fixed - 2);
        if opq > MAX_OPAQUE then (SecurityViolation, s)
        else if |m| < fixed + opq + sig then (DeviceError, s)
        else
          var cached := Cached(MAX_MESSAGE_BUFFER, s.messageM, m[..fixed + opq]);
          if cached.None? then (SecurityViolation, Reset(s))
          else if !MeasurementSignatureOk(cr, s.(messageM := cached.value), m[fixed + opq..fixed + opq + sig]) then
            (SecurityViolation, Reset(s).(errorState := MeasurementAuthFailure))
          else (Success, Reset(s))
    else
      var fixed := 8 + r + 2;
      if |m| < fixed then (DeviceError, s)
      else
        var opq: nat := At16(m, fixed - 2);
        if opq > MAX_OPAQUE then (SecurityViolation, s)
        else if |m| < fixed + opq then (DeviceError, s)
        else
          var cached := Cached(MAX_MESSAGE_BUFFER, s.messageM, m[..fixed + opq]);
          if cached.None? then (SecurityViolation, Reset(s)) else (Success, s.(messageM := cached.value))
  }

  /** What is handed to the caller after the response has been cached. */
  function Deliver(s: Context, c: MeasurementCall, m: seq<byte>, r: nat): Step<Measured>
    requires 8 + r <= |m|
  {
    if c.operation == TOTAL_NUMBER then
      if m[2] == 0xFF || m[2] == 0 then Step(DeviceError, s, Measured(m[2], []))
      else Step(Success, s.(errorState := NoError), Measured(m[2], []))
    else if c.capacity < r then Step(BufferTooSmall, s, Measured(m[4], []))
    else if r < 4 || !RecordOk(m, r, s.algorithms.measurementSpec, m[4], 0, 0) then
      Step(DeviceError, s, Measured(m[4], []))
    else Step(Success, s.(errorState := NoError), Measured(m[4], m[8..8 + r]))
  }

  /** TrySpdmGetMeasurement. */
  function TryGetMeasurement(cr: Crypto, s: Context, c: MeasurementCall, x: MeasurementInput): Step<Measured> {
    if !MayMeasure(s, c) then Step(Unsupported, s, Measured(0, []))
    else if !SlotParamOk(s, c) then Step(InvalidParameter, s, Measured(0, []))
    else
      var s0 := s.(errorState := NoCapabilities);
      var outcome := LongOutcome(x.reply, MEASUREMENTS, MEASUREMENTS_MAX);
      var cached := Cached(MAX_MESSAGE_BUFFER, s.messageM, GetMeasurementsRequest(s, c, x.nonce));
      if IsCapable(s, true, 0, MEAS_CAP_NO_SIG) && c.attribute != 0 then Step(InvalidParameter, s0, Measured(0, []))
      else if outcome.NotSent? then Step(DeviceError, s0, Measured(0, []))
      else if cached.None? then Step(SecurityViolation, s0, Measured(0, []))
      else
        var s1 := s0.(messageM := cached.value);
        match outcome
        case Refused(code) => Step(RefusalStatus(code), AfterRefusal(s0, code), Measured(0, []))
        case WrongCode => Step(DeviceError, Reset(s1), Measured(0, []))
        case Answer(m) =>
          (match CheckRecord(s1, c, m)
           case Bad(s2) => Step(DeviceError, s2, Measured(0, []))
           case Good(r) =>
             var (status, s2) := CacheResponse(cr, s1, c, m, r);
             if status != Success then Step(status, s2, Measured(0, [])) else Deliver(s2, c, m, r))
        case _ => Step(DeviceError, s1, Measured(0, []))
  }

  /** How much of a MEASUREMENTS response goes into message M: all of it up to the opaque data. */
  function Covered(c: MeasurementCall, m: seq<byte>): nat {
    if |m| < 8 then 0
    else
      var fixed := 8 + (if c.operation == TOTAL_NUMBER then 0 else RecordLength(m))
        + (if c.attribute == GENERATE_SIGNATURE then NONCE_SIZE else 0);
      if |m| < fixed + 2 then 0 else fixed + 2 + At16(m, fixed) as int
  }

  /**
   A successful GET_MEASUREMENTS extends M by request and response; when it asks for a signature, the signature
   was accepted over all that M had gathered, and M starts anew. A record handed out passed the walk.
   */
  lemma MeasurementIsCovered(cr: Crypto, s: Context, c: MeasurementCall, x: MeasurementInput)
    ensures var r := TryGetMeasurement(cr, s, c, x);
            var o := LongOutcome(x.reply, MEASUREMENTS, MEASUREMENTS_MAX);
            r.status == Success ==>
              && o.Answer? && Covered(c, o.message) <= |o.message|
              && var m := o.message;
                 var l := s.messageM + GetMeasurementsRequest(s, c, x.nonce) + m[..Covered(c, m)];
                 var sig := SignatureSize(s.algorithms.baseAsym);
              && (if c.attribute == GENERATE_SIGNATURE then
                    && r.ctx.messageM == [] && Covered(c, m) + sig <= |m| && PeerChainData(s).Some?
                    && cr.verify(s.algorithms.baseAsym, s.algorithms.baseHash, PeerChainData(s).value, l,
                                 m[Covered(c, m)..Covered(c, m) + sig])
                  else r.ctx.messageM == l)
              && (c.operation != TOTAL_NUMBER ==>
                    && |m| >= 8 + RecordLength(m) && r.out == Measured(m[4], m[8..8 + RecordLength(m)])
                    && RecordOk(m, RecordLength(m), s.algorithms.measurementSpec, m[4], 0, 0))
  {
    hide IsCapable, MayMeasure, SlotParamOk, GetMeasurementsRequest, RecordOk, SignatureSize, RecordLength,
         CacheResponse;
    var r := TryGetMeasurement(cr, s, c, x);
    if r.status == Success {
      var m := LongOutcome(x.reply, MEASUREMENTS, MEASUREMENTS_MAX).message;
      var s1 := s.(errorState := NoCapabilities, messageM := s.messageM + GetMeasurementsRequest(s, c, x.nonce));
      var checked := CheckRecord(s1, c, m);
      CachedIsCovered(cr, s1, c, m, checked.length);
      assert PeerChainData(s1) == PeerChainData(s);
    }
  }

  lemma CachedIsCovered(cr: Crypto, s: Context, c: MeasurementCall, m: seq<byte>, r: nat)
    requires 8 + r <= |m| && r == if c.operation == TOTAL_NUMBER then 0 else RecordLength(m)
    ensures var (status, t) := CacheResponse(cr, s, c, m, r);
            var sig := SignatureSize(s.algorithms.baseAsym);
            status == Success ==>
              && Covered(c, m) <= |m| && t == s.(messageM := t.messageM)
              && (if c.attribute == GENERATE_SIGNATURE then
                    && t.messageM == [] && Covered(c, m) + sig <= |m| && PeerChainData(s).Some?
                    && cr.verify(s.algorithms.baseAsym, s.algorithms.baseHash, PeerChainData(s).value,
                                 s.messageM + m[..Covered(c, m)],
                                 m[Covered(c, m)..Covered(c, m) + sig])
                  else t.messageM == s.messageM + m[..Covered(c, m)])
  {
    hide SignatureSize, RecordLength, Version, ChainData;
  }
}
