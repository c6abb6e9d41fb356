/**
 When the requests of connection set-up succeed and what success leaves behind, in the bytes of the messages: each is
 an equivalence over every context and every reply.
 */
module ExactConnection {
  import opened Bytes
  import opened Spdm
  import opened Crypto
  import opened ManagedBuffers
  import opened DeviceContext
  import opened Exchanges
  import opened AlgorithmTables
  import opened ConnectionRequester
  import opened ConnectionResponder
  import opened Meaning

  // ---------- GET_VERSION ----------

  /** Entry i of a VERSION response is for 1.0 or 1.1: its upper byte says so. */
  predicate Wanted(m: seq<byte>, i: nat) {
    8 + 2 * i <= |m| && (m[7 + 2 * i] == 0x10 || m[7 + 2 * i] == 0x11)
  }

  /** The versions kept are those of the wanted entries, each once and in order. */
  lemma {:induction false} KeptInOrder(m: seq<byte>, n: nat) returns (at: seq<nat>)
    requires 6 + 2 * n <= |m|
    ensures var vs := CompatibleVersions(m, n);
            && |vs| == |at|
            && (forall k :: 0 <= k < |at| ==> at[k] < n && Wanted(m, at[k]) && vs[k] == At16(m, 6 + 2 * at[k]))
            && (forall k, l :: 0 <= k < l < |at| ==> at[k] < at[l])
            && (forall i: nat :: i < n && Wanted(m, i) ==> i in at)
    decreases n
  {
    at := [];
    if n > 0 {
      at := KeptInOrder(m, n - 1);
      assert At16(m, 4 + 2 * n) / 0x100 == m[7 + 2 * (n - 1)];
      if Wanted(m, n - 1) {
        var before := at;
        at := at + [n - 1];
        assert forall i :: i in before ==> i in at;
        assert at[|before|] == n - 1;
      }
    }
  }

  lemma VersionExactly(s: Context, r: Reply)
    ensures var t := TryGetVersion(s, r);
            t.status == Success <==>
              && r.first.Arrives?
              && var m := r.first.bytes;
              && 6 <= |m| <= 16 && m[0] == 0x10 && m[1] == 0x04 && 1 <= m[5] <= 5 && 6 + 2 * (m[5] as int) <= |m|
              && exists i: nat :: i < m[5] && Wanted(m, i)
    ensures var t := TryGetVersion(s, r);
            t.status == Success ==>
              && r.first.Arrives? && 6 + 2 * (r.first.bytes[5] as int) <= |r.first.bytes|
              && var m := r.first.bytes;
                 var n: nat := m[5];
              && t.ctx == s.(state := AfterVersion, versions := CompatibleVersions(m, n),
                             messageA := [0x10, 0x84, 0, 0] + m[..6 + 2 * n], messageB := [], messageC := [])
    ensures var t := TryGetVersion(s, r);
            t.status != Success ==>
              if r.first.SendFails? then t == Step(DeviceError, s.(state := NotStarted), ())
              else
                && t.ctx == s.(state := NotStarted, messageA := t.ctx.messageA, messageB := [], messageC := [])
                && var refused := r.first.Arrives? && |r.first.bytes| >= 4 && r.first.bytes[..2] == [0x10, 0x7F];
                   var shaped := r.first.Arrives? && 6 <= |r.first.bytes| <= 16 && r.first.bytes[..2] == [0x10, 0x04]
                                 && 1 <= r.first.bytes[5] <= 5 && 6 + 2 * (r.first.bytes[5] as int) <= |r.first.bytes|;
                && t.status == (if refused && r.first.bytes[2] == 0x03 then NoResponse else DeviceError)
                && t.ctx.messageA == (if refused then []
                                      else if shaped then
                                        [0x10, 0x84, 0, 0] + r.first.bytes[..6 + 2 * (r.first.bytes[5] as int)]
                                      else [0x10, 0x84, 0, 0])
  {
    if r.first.Arrives? && |r.first.bytes| >= 4 {
      var m := r.first.bytes;
      assert m[..2] == [m[0], m[1]];
      if VersionReplySize(m).Some? {
        var at := KeptInOrder(m, m[5]);
        if at != [] {
          assert Wanted(m, at[0]);
        }
      }
    }
  }

  // ---------- GET_CAPABILITIES ----------

  /**
   A 1.1 flag word that contradicts itself. Bits: 1 CERT, 6 ENCRYPT, 7 MAC, 8 MUT_AUTH, 9 KEY_EX, 10 and 11 PSK,
   12 ENCAP, 15 HANDSHAKE_IN_THE_CLEAR, 16 PUB_KEY_ID.
   */
  ghost predicate Contradicts(f: u32) {
    var secured := Bit(f, 6) || Bit(f, 7);
    var psk := Bit(f, 10) || Bit(f, 11);
    || (secured && !psk && !Bit(f, 9))
    || (!secured && (Bit(f, 9) || psk || Bit(f, 15)))
    || (Bit(f, 8) && !Bit(f, 12))
    || (Bit(f, 15) && !Bit(f, 9))
    || (Bit(f, 16) && Bit(f, 1))
  }

  /** What a requester refuses of a responder: contradictions and the reserved values of MEAS and PSK. */
  ghost predicate BadResponderFlags(f: u32) {
    Contradicts(f) || (Bit(f, 3) && Bit(f, 4)) || (Bit(f, 10) && Bit(f, 11))
  }

  /** What a responder refuses of a requester: contradictions, measurements, and PSK with context or reserved. */
  ghost predicate BadRequesterFlags(f: u32) {
    Contradicts(f) || Bit(f, 3) || Bit(f, 4) || Bit(f, 5) || Bit(f, 11)
  }

  lemma FlagsByBits(f: u32)
    ensures FlagsConsistent(f) <==> !Contradicts(f)
    ensures ResponderFlagsOk(f, 0x11) <==> !BadResponderFlags(f)
    ensures RequesterFlagsOk(f, 0x11) <==> !BadRequesterFlags(f)
    ensures ResponderFlagsOk(f, 0x10) && RequesterFlagsOk(f, 0x10)
  {
    hide Bit, Pow2;
    FieldsAreBits(f, 1);
    FieldsAreBits(f, 3);
    FieldsAreBits(f, 5);
    FieldsAreBits(f, 6);
    FieldsAreBits(f, 7);
    FieldsAreBits(f, 8);
    FieldsAreBits(f, 9);
    FieldsAreBits(f, 10);
    FieldsAreBits(f, 12);
    FieldsAreBits(f, 15);
    FieldsAreBits(f, 16);
  }

  /** GET_CAPABILITIES as it lies on the wire. */
  function CapabilitiesQuestion(s: Context): (m: seq<byte>)
    ensures |m| == if Version(s) == 0x11 then 12 else 4
  {
    if Version(s) == 0x11 then [0x11, 0xE1, 0, 0, 0, s.local.ctExponent, 0, 0] + Le32(s.local.flags)
    else [0x10, 0xE1, 0, 0]
  }

  lemma CapabilitiesExactly(s: Context, r: Reply)
    ensures var t := TryGetCapabilities(s, r);
            t.status == Success <==>
              && s.state == AfterVersion && r.first.Arrives?
              && var m := r.first.bytes;
              && |m| == 12 && m[0] == Version(s) && m[1] == 0x61
              && (Version(s) == 0x11 ==> !BadResponderFlags(At32(m, 8)))
              && |s.messageA| + |CapabilitiesQuestion(s)| + 12 <= 0x100
    ensures var t := TryGetCapabilities(s, r);
            t.status == Success ==>
              && r.first.Arrives? && |r.first.bytes| == 12
              && var m := r.first.bytes;
              && t.ctx == s.(state := AfterCapabilities, peerFlags := At32(m, 8), peerCtExponent := m[5],
                             messageA := s.messageA + CapabilitiesQuestion(s) + m)
    ensures var t := TryGetCapabilities(s, r);
            t.status != Success ==>
              && t.ctx == s.(state := t.ctx.state, messageA := t.ctx.messageA)
              && (t.ctx.messageA == s.messageA || t.ctx.messageA == s.messageA + CapabilitiesQuestion(s))
              && (t.ctx.state == s.state
                  || (t.ctx.state == NotStarted && r.first.Arrives? && IsError(r.first.bytes, 0x43)))
    ensures var t := TryGetCapabilities(s, r);
            s.state == AfterVersion && r.first.Arrives? && |r.first.bytes| == 12
            && r.first.bytes[0] == 0x11 == Version(s)
            && r.first.bytes[1] == 0x61 && BadResponderFlags(At32(r.first.bytes, 8)) && |s.messageA| + 24 <= 0x100 ==>
              t == Step(DeviceError, s.(messageA := s.messageA + CapabilitiesQuestion(s)), ())
  {
    hide Version, Bit, BadResponderFlags, ResponderFlagsOk;
    var q := GetCapabilitiesRequest(s);
    assert q == CapabilitiesQuestion(s);
    if r.first.Arrives? && |r.first.bytes| >= 12 {
      FlagsByBits(At32(r.first.bytes, 8));
    }
  }

  // ---------- NEGOTIATE_ALGORITHMS ----------

  /** The hash is known, and what the responder announced to measure and to sign with is known. */
  ghost predicate GoodBase(f: Announced, a: Algorithms) {
    && HashSize(a.baseHash) != 0
    && (f.Measures() ==> a.measurementSpec == 1 && MeasurementHashSize(a.measurementHash) != 0)
    && (f.Responder(2) ==> SignatureSize(a.baseAsym) != 0)
  }

  /** What both announced to exchange keys, to protect messages and to authenticate mutually with is known. */
  ghost predicate GoodSession(f: Announced, a: Algorithms) {
    && (f.Both(9) ==> DhePubKeySize(a.dhe) != 0)
    && (f.Both(6) || f.Both(7) ==> AeadKeySize(a.aead) != 0)
    && (f.Both(8) ==> SignatureSize(a.reqBaseAsym) != 0)
    && (f.Both(9) || f.BothPsk() ==> a.keySchedule == 1)
  }

  /** Both roles make exactly these checks. */
  lemma ChecksMean(s: Context, r: bool, a: Algorithms)
    ensures BaseAlgorithmsOk(s, r, a) <==> GoodBase(FlagsOf(s, r), a)
    ensures SessionAlgorithmsOk(s, r, a) <==> GoodSession(FlagsOf(s, r), a)
    ensures SessionSizesOk(s, r, a) && KeyScheduleOk(s, r, a) <==> GoodSession(FlagsOf(s, r), a)
  {
    hide IsCapable, Bit, HashSize, MeasurementHashSize, SignatureSize, DhePubKeySize, AeadKeySize;
    Queries(s, r);
  }

  lemma SameVersion(s: Context, t: Context)
    requires s.versions == t.versions
    ensures Version(s) == Version(t)
  {
  }

  /** What a selection that fails the checks is answered with: the key schedule alone is an unsupported request. */
  ghost function NegotiationError(v: byte, f: Announced, a: Algorithms): seq<byte> {
    if GoodBase(f, a) && GoodSession(f, a.(keySchedule := 1)) then [v, 0x7F, 0x07, 0xE3] else [v, 0x7F, 0x01, 0]
  }

  lemma SizesIgnoreKeySchedule(s: Context, r: bool, a: Algorithms)
    ensures SessionSizesOk(s, r, a) <==>
              SessionSizesOk(s, r, a.(keySchedule := 1)) && KeyScheduleOk(s, r, a.(keySchedule := 1))
  {
    hide IsCapable, SignatureSize, DhePubKeySize, AeadKeySize;
  }

  /** They read the flags of both ends and nothing else of the context. */
  lemma ChecksReadFlags(s: Context, t: Context, a: Algorithms)
    requires s.local == t.local && s.peerFlags == t.peerFlags
    ensures BaseAlgorithmsOk(s, true, a) == BaseAlgorithmsOk(t, true, a)
    ensures SessionAlgorithmsOk(s, true, a) == SessionAlgorithmsOk(t, true, a)
  {
    hide GoodBase, GoodSession, BaseAlgorithmsOk, SessionAlgorithmsOk;
    ChecksMean(s, true, a);
    ChecksMean(t, true, a);
  }

  ghost predicate SameBase(a: Algorithms, b: Algorithms) {
    b == a.(dhe := b.dhe, aead := b.aead, reqBaseAsym := b.reqBaseAsym, keySchedule := b.keySchedule)
  }

  /** Reading the struct tables leaves the base algorithms alone. */
  lemma LoadKeepsBase(m: seq<byte>, off: nat, n: nat, extLimit: nat, a: Algorithms)
    requires ScanTables(m, off, n, extLimit).Some?
    ensures SameBase(a, LoadTables(m, off, n, extLimit, a))
  {
    StoreKeepsBase(a, ReadTables(m, off, n, extLimit));
  }

  lemma {:induction false} StoreKeepsBase(a: Algorithms, ts: seq<(byte, u16)>)
    ensures SameBase(a, StoreAll(a, ts))
    decreases |ts|
  {
    if ts != [] {
      StoreKeepsBase(StoreAlgorithm(a, ts[0].0, ts[0].1), ts[1..]);
    }
  }

  lemma BaseIgnoresSession(f: Announced, a: Algorithms, b: Algorithms)
    requires SameBase(a, b)
    ensures GoodBase(f, a) <==> GoodBase(f, b)
  {
  }

  /** NEGOTIATE_ALGORITHMS as it lies on the wire. */
  function AlgorithmsQuestion(s: Context): seq<byte> {
    var a := s.local.algorithms;
    var v := Version(s);
    [v, 0xE3, if v == 0x11 then 4 else 0, 0, if v == 0x11 then 48 else 32, 0, a.measurementSpec, 0]
    + Le32(a.baseAsym) + Le32(a.baseHash) + Zeros(16)
    + (if v == 0x11 then
         [2, 0x20] + Le16(a.dhe) + [3, 0x20] + Le16(a.aead) + [4, 0x20] + Le16(a.reqBaseAsym) + [5, 0x20]
           + Le16(a.keySchedule)
       else [])
  }

  lemma FourTables(a: Algorithms)
    ensures EncodeTables(OfferTables(a))
         == [2, 0x20] + Le16(a.dhe) + [3, 0x20] + Le16(a.aead) + [4, 0x20] + Le16(a.reqBaseAsym) + [5, 0x20]
           + Le16(a.keySchedule)
  {
    var ts := OfferTables(a);
    assert ts[1..][1..] == ts[2..] && ts[2..][1..] == ts[3..] && ts[3..][1..] == [];
    assert EncodeTables(ts[3..]) == EncodeTable(ts[3]) + [];
    assert EncodeTables(ts[2..]) == EncodeTable(ts[2]) + EncodeTables(ts[3..]);
    assert EncodeTables(ts[1..]) == EncodeTable(ts[1]) + EncodeTables(ts[2..]);
    assert EncodeTables(ts) == EncodeTable(ts[0]) + EncodeTables(ts[1..]);
  }

  lemma QuestionIs(s: Context)
    ensures NegotiateRequest(s) == AlgorithmsQuestion(s)
  {
    hide Version, EncodeTables;
    FourTables(s.local.algorithms);
    assert Zeros(12) + [0, 0, 0, 0] == Zeros(16);
    assert Le16(48) == [48, 0] && Le16(32) == [32, 0];
  }

  /** The tables of a message from `start` on: as many as its header says, read as a list that ends at `end`. */
  ghost predicate TablesFill(m: seq<byte>, start: nat, extLimit: nat, end: nat) {
    && |m| >= 3
    && exists ts: seq<StructTable> ::
         |ts| == m[2] && Encodable(ts, extLimit) && EntriesAre(m, start, ts) && start + EncodedSize(ts) == end
  }

  lemma ScanExactly(m: seq<byte>, start: nat, extLimit: nat, end: nat)
    requires 3 <= |m| && start <= |m| && extLimit <= 15
    ensures ScanTables(m, start, m[2], extLimit) == Some(end) <==> TablesFill(m, start, extLimit, end)
  {
    if ScanTables(m, start, m[2], extLimit) == Some(end) {
      var ts := ScannedIsEncoded(m, start, m[2], extLimit);
    }
    if TablesFill(m, start, extLimit, end) {
      var ts: seq<StructTable> :|
        |ts| == m[2] && Encodable(ts, extLimit) && EntriesAre(m, start, ts) && start + EncodedSize(ts) == end;
      PassesReadEntries(m, start, ts, extLimit);
    }
  }

  /** A response has the right shape exactly when its Length field is the end of its tables, or of its head in 1.0. */
  lemma ReplyShape(m: seq<byte>)
    ensures AlgorithmsReplyEnd(m).Some? <==>
              && 36 <= |m| <= 116 && m[32] <= 1 && m[33] <= 1
              && var start := 36 + 4 * (m[32] as int) + 4 * (m[33] as int);
              && start + 4 * (m[2] as int) <= |m|
              && if m[0] >= 0x11 then TablesFill(m, start, 1, At16(m, 4)) else start == At16(m, 4)
  {
    hide TablesFill, ScanTables;
    if 36 <= |m| {
      var start := 36 + 4 * (m[32] as int) + 4 * (m[33] as int);
      if start <= |m| {
        ScanExactly(m, start, 1, At16(m, 4));
      }
    }
  }

  /** The same for a request, as the responder reads it. */
  lemma RequestShape(m: seq<byte>)
    requires |m| >= 32
    ensures TablesScan(m, 32, 15) == Some(At16(m, 4)) <==>
              && var start := 32 + 4 * (m[28] as int) + 4 * (m[29] as int);
              && start + 4 * (m[2] as int) <= |m|
              && if m[0] >= 0x11 then TablesFill(m, start, 15, At16(m, 4)) else start == At16(m, 4)
  {
    hide TablesFill, ScanTables;
    var start := 32 + 4 * (m[28] as int) + 4 * (m[29] as int);
    if start <= |m| {
      ScanExactly(m, start, 15, At16(m, 4));
    }
  }

  /** The response is read into the algorithms: the four base selections of its head. */
  ghost predicate BaseOf(m: seq<byte>, a: Algorithms) {
    && |m| >= 36 && a.measurementSpec == m[6] && a.measurementHash == At32(m, 8)
    && a.baseAsym == At32(m, 12) && a.baseHash == At32(m, 16)
  }

  /**
   An ALGORITHMS response of the right shape is accepted exactly when every capability in use gets a known algorithm;
   otherwise it is a security violation, and the state stays. Nothing else changes the algorithms.
   */
  lemma AlgorithmsExactly(s: Context, r: Reply)
    ensures var t := TryNegotiateAlgorithms(s, r);
            var f := FlagsOf(s, true);
            var q := AlgorithmsQuestion(s);
            var a := t.ctx.algorithms;
            if && s.state == AfterCapabilities && r.first.Arrives? && HasCode(r.first.bytes, 0x63)
               && AlgorithmsReplyEnd(r.first.bytes).Some?
               && |s.messageA| + |q| + At16(r.first.bytes, 4) as int <= 0x100
            then
              var m := r.first.bytes;
              && BaseOf(m, a)
              && (t.status == Success <==> GoodBase(f, a) && (m[0] >= 0x11 ==> GoodSession(f, a)))
              && (t.status == Success && m[0] < 0x11 ==> NoSessionAlgorithms(a))
              && t == Step(if t.status == Success then Success else SecurityViolation,
                           s.(messageA := s.messageA + q + m[..At16(m, 4)], algorithms := a,
                              state := if t.status == Success then Negotiated else AfterCapabilities), ())
            else
              && t.status != Success && t.ctx == s.(state := t.ctx.state, messageA := t.ctx.messageA)
              && (t.ctx.messageA == s.messageA || t.ctx.messageA == s.messageA + q)
              && (t.ctx.state == s.state
                  || (t.ctx.state == NotStarted && r.first.Arrives? && IsError(r.first.bytes, 0x43)))
              && (s.state != AfterCapabilities ==> t.ctx == s)
  {
    hide NegotiateRequest, AlgorithmsQuestion, AlgorithmsReplyEnd, AdoptAlgorithms, GoodBase, GoodSession;
    QuestionIs(s);
    if r.first.Arrives? && AlgorithmsReplyEnd(r.first.bytes).Some? && s.state == AfterCapabilities {
      var m := r.first.bytes;
      var a := s.messageA + AlgorithmsQuestion(s) + m[..AlgorithmsReplyEnd(m).value];
      AdoptsExactly(s.(messageA := a), m);
    }
  }

  lemma AdoptsExactly(s: Context, m: seq<byte>)
    requires AlgorithmsReplyEnd(m).Some? && s.state == AfterCapabilities
    ensures var t := AdoptAlgorithms(s, m);
            var f := FlagsOf(s, true);
            var a := t.ctx.algorithms;
            && BaseOf(m, a)
            && (t.status == Success <==> GoodBase(f, a) && (m[0] >= 0x11 ==> GoodSession(f, a)))
            && (t.status == Success && m[0] < 0x11 ==> NoSessionAlgorithms(a))
            && t == Step(if t.status == Success then Success else SecurityViolation,
                         s.(algorithms := a, state := if t.status == Success then Negotiated else AfterCapabilities),
                         ())
  {
    hide AlgorithmsReplyEnd, LoadTables, GoodBase, GoodSession, BaseAlgorithmsOk, SessionAlgorithmsOk;
    var f := FlagsOf(s, true);
    var base := BaseSelections(s.algorithms, m);
    ChecksMean(s, true, base);
    if m[0] >= 0x11 {
      var all := LoadTables(m, TablesStart(m, ALGORITHMS_HEAD), m[2], 1, base);
      LoadKeepsBase(m, TablesStart(m, ALGORITHMS_HEAD), m[2], 1, base);
      ChecksMean(s, true, all);
      BaseIgnoresSession(f, base, all);
    } else {
      BaseIgnoresSession(f, base, WithoutSessionAlgorithms(base));
    }
  }

  /**
   The responder's twin: it selects and answers only with such algorithms, and turns the request down otherwise.
   */
  lemma ResponderConcludesExactly(p: Context, offer: Algorithms, selected: Algorithms, m: seq<byte>)
    requires p.state == AfterCapabilities
    ensures var r := ConcludeNegotiation(p, offer, selected, m);
            var f := FlagsOf(p, false);
            if GoodBase(f, selected) && (Version(p) == 0x11 ==> GoodSession(f, selected)) then
              && r.message == m && r.ctx.state == Negotiated && SameBase(selected, r.ctx.algorithms)
              && (if Version(p) == 0x11 then r.ctx.algorithms == selected else NoSessionAlgorithms(r.ctx.algorithms))
            else r.message == NegotiationError(Version(p), f, selected) && r.ctx.state == AfterCapabilities
  {
    hide Version, GoodBase, GoodSession, BaseAlgorithmsOk, SessionSizesOk, KeyScheduleOk;
    ChecksMean(p, false, selected.(keySchedule := 1));
    SizesIgnoreKeySchedule(p, false, selected);
    SameVersion(p, p.(algorithms := WithBase(offer, selected)));
    SameVersion(p, p.(algorithms := selected));
    var base := WithBase(offer, selected);
    ChecksMean(p, false, base);
    ChecksMean(p, false, selected);
    BaseIgnoresSession(FlagsOf(p, false), base, selected);
  }

  // ---------- GET_DIGESTS ----------

  /** The number of slots a mask names. */
  function Named(mask: byte): nat {
    BitValue(mask, 0) + BitValue(mask, 1) + BitValue(mask, 2) + BitValue(mask, 3)
    + BitValue(mask, 4) + BitValue(mask, 5) + BitValue(mask, 6) + BitValue(mask, 7)
  }

  lemma NamedIs(mask: byte)
    ensures SlotsIn(mask, MAX_SLOTS) == Named(mask)
  {
    hide Bit;
    assert SlotsIn(mask, 2) == BitValue(mask, 0) + BitValue(mask, 1);
    assert SlotsIn(mask, 4) == SlotsIn(mask, 2) + BitValue(mask, 2) + BitValue(mask, 3);
    assert SlotsIn(mask, 6) == SlotsIn(mask, 4) + BitValue(mask, 4) + BitValue(mask, 5);
    assert SlotsIn(mask, 8) == SlotsIn(mask, 6) + BitValue(mask, 6) + BitValue(mask, 7);
  }

  /**
   GET_DIGESTS succeeds on a DIGESTS response that has a digest for every slot it names, and whose first digest is that
   of the provisioned chain if there is one. A wrong digest is a security violation that leaves the state alone.
   */
  lemma DigestsExactly(cr: Crypto, s: Context, r: Reply)
    ensures var t := TryGetDigests(cr, s, r);
            var o := LongOutcome(r, 0x01, 516);
            var h := HashSize(s.algorithms.baseHash);
            var asked := s.messageB + [Version(s), 0x81, 0, 0];
            var answered := Bit(s.peerFlags, 1) && s.state == Negotiated && o.Answer? && |o.message| <= 516
                            && Named(o.message[3]) > 0 && 4 + Named(o.message[3]) * h <= |o.message|
                            && |asked| + 4 + Named(o.message[3]) * h <= 0x1200;
            && (t.status == Success <==>
                  answered && 4 + h <= |o.message|
                  && (s.local.peerChain != [] ==>
                        o.message[4..4 + h] == cr.hash(s.algorithms.baseHash, s.local.peerChain)))
            && (answered ==>
                  t.ctx.messageB == asked + o.message[..4 + Named(o.message[3]) * h]
                  && t == Step(if t.status == Success then Success else SecurityViolation,
                               s.(messageB := t.ctx.messageB,
                                  state := if t.status == Success then AfterDigests else s.state,
                                  errorState := if t.status == Success then NoError else CertificateFailure), ()))
            && (!answered ==>
                  && t.status != Success && (t.ctx.messageB == s.messageB || t.ctx.messageB == asked)
                  && t.ctx == s.(state := t.ctx.state, messageB := t.ctx.messageB, errorState := t.ctx.errorState))
  {
    hide Bit, IsCapable, Version, SlotsIn, HashSize, Named;
    Queries(s, true);
    var o := LongOutcome(r, 0x01, 516);
    if o.Answer? {
      NamedIs(o.message[3]);
      var n := Named(o.message[3]);
      var h := HashSize(s.algorithms.baseHash);
      assert n > 0 ==> n * h >= h;
    }
  }

  // ---------- CHALLENGE ----------

  /** The certificates of a chain: what follows the four bytes of its header and a root hash of h bytes. */
  ghost function Certificates(chain: seq<byte>, h: nat): seq<byte> {
    if |chain| >= 4 + h then chain[4 + h..] else []
  }

  /** The chain the requester knows, received or provisioned. */
  ghost function Known(s: Context): seq<byte> {
    if s.peerChain != [] then s.peerChain else s.local.peerChain
  }

  /** The size of a summary hash of this type. */
  ghost function SummarySize(s: Context, hashType: byte): nat {
    if (Bit(s.peerFlags, 3) || Bit(s.peerFlags, 4)) && (hashType == 1 || hashType == 0xFF) then
      HashSize(s.algorithms.baseHash)
    else 0
  }

  lemma SummarySizeIs(s: Context, hashType: byte)
    ensures SummaryHashSize(s, true, hashType) == SummarySize(s, hashType)
  {
    Queries(s, true);
    hide Bit, And;
  }

  /** Where the signed part of CHALLENGE_AUTH ends: behind the opaque data. */
  ghost function SignedPart(s: Context, hashType: byte, m: seq<byte>): nat {
    var n := 38 + HashSize(s.algorithms.baseHash) + SummarySize(s, hashType);
    if |m| < n then n else n + At16(m, n - 2) as int
  }

  /** The response is for the slot that was asked for, and asks back only if both ends can authenticate mutually. */
  ghost predicate ForSlot(s: Context, slot: byte, m: seq<byte>)
    requires |m| >= 4
  {
    && m[2] % 0x10 == (if slot == 0xFF then 0xF else slot)
    && m[3] == (if slot == 0xFF then 0 else Pow2(slot))
    && (m[2] >= 0x80 ==> Bit(s.local.flags, 8) && Bit(s.peerFlags, 8))
  }

  ghost predicate MayChallenge(s: Context, slot: byte) {
    && Bit(s.peerFlags, 2) && s.state in {Negotiated, AfterDigests, AfterCertificate, Authenticated}
    && (slot < 8 || (slot == 0xFF && s.local.peerChain != []))
  }

  /** A response that is complete up to the signature, behind a request that could be made. */
  ghost predicate ChallengeAnswered(s: Context, slot: byte, hashType: byte, m: seq<byte>)
    requires |m| >= 4
  {
    var n := 38 + HashSize(s.algorithms.baseHash) + SummarySize(s, hashType);
    var end := SignedPart(s, hashType, m);
    && MayChallenge(s, slot)
    && |m| <= 1702 && ForSlot(s, slot, m) && n < |m|
    && end <= n + 1024 && end + SignatureSize(s.algorithms.baseAsym) <= |m|
    && |s.messageC| + 36 + end <= 0x100
  }

  /** The response carries the digest of the chain the requester knows. */
  ghost predicate Digested(cr: Crypto, s: Context, m: seq<byte>) {
    var h := HashSize(s.algorithms.baseHash);
    4 + h <= |m| && Known(s) != [] && m[4..4 + h] == cr.hash(s.algorithms.baseHash, Known(s))
  }

  /** The certificates of that chain verify the signature over A, B and c, in this order. */
  ghost predicate SignedWith(cr: Crypto, s: Context, c: seq<byte>, signature: seq<byte>) {
    && |s.messageA| + |s.messageB| + |c| <= 0x1200 && Known(s) != []
    && cr.verify(s.algorithms.baseAsym, s.algorithms.baseHash,
                 Certificates(Known(s), HashSize(s.algorithms.baseHash)), s.messageA + s.messageB + c, signature)
  }

  /**
   CHALLENGE succeeds exactly when the response carries the digest of the known chain and a signature that its
   certificates verify over A, B and C, with the request and the signed part of the response in C. A wrong digest or
   signature is a security violation that leaves the state alone.
   */
  lemma ChallengeExactly(cr: Crypto, s: Context, slot: byte, hashType: byte, x: ChallengeInput)
    ensures var t := TryChallenge(cr, s, slot, hashType, x);
            var o := LongOutcome(x.reply, 0x03, 1702);
            if o.Answer? && ChallengeAnswered(s, slot, hashType, o.message) then
              var m := o.message;
              var end := SignedPart(s, hashType, m);
              var c := s.messageC + [Version(s), 0x83, slot, hashType] + x.nonce + m[..end];
              var signed := SignedWith(cr, s, c, m[end..end + SignatureSize(s.algorithms.baseAsym)]);
              && (t.status == Success <==> Digested(cr, s, m) && signed && (m[2] >= 0x80 ==> x.encapOk))
              && (t.status == Success ==> t.ctx == s.(messageC := c, state := Authenticated, errorState := NoError))
              && (t.status != Success ==>
                    var left := if Digested(cr, s, m) then c
                                else s.messageC + [Version(s), 0x83, slot, hashType] + x.nonce;
                    t == Step(SecurityViolation, s.(messageC := left, errorState := CertificateFailure), ()))
            else
              && t.status != Success && (t.ctx.state == s.state || t.ctx.state == NotStarted)
              && t.ctx == s.(state := t.ctx.state, messageC := t.ctx.messageC, errorState := t.ctx.errorState)
  {
    hide Bit, IsCapable, Version, HashSize, SignatureSize, SummarySize, CheckChallengeAuth, Digested, SignedWith,
         ForSlot;
    Queries(s, true);
    var o := LongOutcome(x.reply, 0x03, 1702);
    if o.Answer? && MayChallenge(s, slot) {
      var c := s.messageC + ([Version(s), 0x83, slot, hashType] + x.nonce);
      assert c == s.messageC + [Version(s), 0x83, slot, hashType] + x.nonce;
      AuthExactly(cr, s, s.(errorState := NoCapabilities, messageC := c), slot, hashType, o.message, x.encapOk);
    }
  }

  lemma AuthExactly(cr: Crypto, s: Context, s1: Context, slot: byte, hashType: byte, m: seq<byte>, encapOk: bool)
    requires s1 == s.(errorState := NoCapabilities, messageC := s1.messageC) && |m| >= 4 && MayChallenge(s, slot)
    requires |s1.messageC| == |s.messageC| + 36
    ensures var t := CheckChallengeAuth(cr, s1, slot, hashType, m, encapOk);
            if ChallengeAnswered(s, slot, hashType, m) then
              var end := SignedPart(s, hashType, m);
              var c := s1.messageC + m[..end];
              var signed := SignedWith(cr, s, c, m[end..end + SignatureSize(s.algorithms.baseAsym)]);
              && (t.status == Success <==> Digested(cr, s, m) && signed && (m[2] >= 0x80 ==> encapOk))
              && (t.status == Success ==> t.ctx == s.(messageC := c, state := Authenticated, errorState := NoError))
              && (t.status != Success ==>
                    var left := if Digested(cr, s, m) then c else s1.messageC;
                    t == Step(SecurityViolation, s.(messageC := left, errorState := CertificateFailure), ()))
            else
              t.status != Success && t.ctx == s.(messageC := t.ctx.messageC, errorState := t.ctx.errorState)
  {
    hide HashSize, SignatureSize, SummarySize, SummaryHashSize, ForSlot, AuthAttributesOk, Digested, PeerChainHashOk,
         SignedWith, ChallengeSignatureOk, MayChallenge;
    SummarySizeIs(s1, hashType);
    SameSummary(s, s1, hashType);
    AttributesMean(s, s1, slot, m);
    var h := HashSize(s.algorithms.baseHash);
    if 4 + h <= |m| {
      DigestMeans(cr, s, s1, m);
    }
    var end := SignedPart(s, hashType, m);
    if end + SignatureSize(s.algorithms.baseAsym) <= |m| {
      SignatureMeans(cr, s, s1.(messageC := s1.messageC + m[..end]),
                     m[end..end + SignatureSize(s.algorithms.baseAsym)]);
    }
  }

  lemma AttributesMean(s: Context, s1: Context, slot: byte, m: seq<byte>)
    requires s1.local == s.local && s1.peerFlags == s.peerFlags && |m| >= 4 && MayChallenge(s, slot)
    ensures AuthAttributesOk(s1, slot, m) <==> ForSlot(s, slot, m)
  {
    hide Bit, IsCapable, Pow2;
    Queries(s1, true);
  }

  lemma DigestMeans(cr: Crypto, s: Context, s1: Context, m: seq<byte>)
    requires s1 == s.(errorState := NoCapabilities, messageC := s1.messageC)
             && 4 + HashSize(s.algorithms.baseHash) <= |m|
    ensures PeerChainHashOk(cr, s1, m[4..4 + HashSize(s.algorithms.baseHash)]) <==> Digested(cr, s, m)
  {
    hide HashSize;
  }

  lemma SignatureMeans(cr: Crypto, s: Context, s2: Context, signature: seq<byte>)
    requires s2 == s.(errorState := NoCapabilities, messageC := s2.messageC)
    ensures ChallengeSignatureOk(cr, s2, signature) <==> SignedWith(cr, s, s2.messageC, signature)
  {
    hide HashSize;
  }

  lemma SameSummary(s: Context, t: Context, hashType: byte)
    requires t.peerFlags == s.peerFlags && t.algorithms == s.algorithms
    ensures SummarySize(s, hashType) == SummarySize(t, hashType)
  {
  }
}
