/** NEGOTIATE_ALGORITHMS between the requester and the responder's handler. */
module Negotiation {
  import opened Bytes
  import opened Spdm
  import opened ManagedBuffers
  import opened DeviceContext
  import opened Exchanges
  import opened AlgorithmTables
  import opened ConnectionRequester
  import opened ConnectionResponder

  /** The fields of a request head, whatever follows it. */
  lemma NegotiateHeadFields(version: byte, tables: byte, a: Algorithms, tail: seq<byte>)
    ensures var m := NegotiateHead(version, tables, a) + tail;
            && m[0] == version && m[1] == NEGOTIATE_ALGORITHMS && m[2] == tables
            && At16(m, 4) == 32 + 4 * (tables as int)
            && m[6] == a.measurementSpec && At32(m, 8) == a.baseAsym && At32(m, 12) == a.baseHash
            && TablesStart(m, NEGOTIATE_HEAD) == 32
  {
    var m := NegotiateHead(version, tables, a) + tail;
    At16Within(m, 4, 32 + 4 * (tables as int));
    At32Within(m, 8, a.baseAsym);
    At32Within(m, 12, a.baseHash);
  }

  /** The fields of a response head, whatever follows it. */
  lemma AlgorithmsHeadFields(version: byte, tables: byte, a: Algorithms, tail: seq<byte>)
    ensures var m := AlgorithmsHead(version, tables, a) + tail;
            && m[0] == version && m[1] == ALGORITHMS && m[2] == tables && At16(m, 4) == 36 + 4 * (tables as int)
            && m[6] == a.measurementSpec && At32(m, 8) == a.measurementHash
            && At32(m, 12) == a.baseAsym && At32(m, 16) == a.baseHash
            && m[32] == 0 && m[33] == 0 && TablesStart(m, ALGORITHMS_HEAD) == 36
  {
    var m := AlgorithmsHead(version, tables, a) + tail;
    At16Within(m, 4, 36 + 4 * (tables as int));
    At32Within(m, 8, a.measurementHash);
    At32Within(m, 12, a.baseAsym);
    At32Within(m, 16, a.baseHash);
  }

  /** Four one-entry tables take sixteen bytes and say exactly the four session algorithms. */
  lemma OfferTablesSay(a: Algorithms, b: Algorithms)
    ensures Encodable(OfferTables(a), 1) && |EncodeTables(OfferTables(a))| == 16
    ensures WithLast(b, OfferTables(a))
         == b.(dhe := a.dhe, aead := a.aead, reqBaseAsym := a.reqBaseAsym, keySchedule := a.keySchedule)
  {
    var ts := OfferTables(a);
    EncodingHasItsSize(ts);
    assert ts[1..][1..] == ts[2..] && ts[2..][1..] == ts[3..] && ts[3..][1..] == [];
    assert EncodedSize(ts) == 4 + EncodedSize(ts[1..]);
    assert EncodedSize(ts[1..]) == 4 + EncodedSize(ts[2..]);
    assert EncodedSize(ts[2..]) == 4 + EncodedSize(ts[3..]);
    assert EncodedSize(ts[3..]) == 4 + EncodedSize([]);
    LastOfFour(ts, ALG_DHE, b.dhe);
    LastOfFour(ts, ALG_AEAD, b.aead);
    LastOfFour(ts, ALG_REQ_BASE_ASYM, b.reqBaseAsym);
    LastOfFour(ts, ALG_KEY_SCHEDULE, b.keySchedule);
  }

  lemma LastOfFour(ts: seq<StructTable>, algType: byte, v: u16)
    requires |ts| == 4
    requires forall i, j :: 0 <= i < j < 4 ==> ts[i].algType != ts[j].algType
    ensures forall i :: 0 <= i < 4 && ts[i].algType == algType ==> LastOf(ts, algType, v) == ts[i].supported
  {
    assert ts[1..][1..] == ts[2..] && ts[2..][1..] == ts[3..] && ts[3..][1..] == [];
    var v0 := if ts[0].algType == algType then ts[0].supported else v;
    var v1 := if ts[1].algType == algType then ts[1].supported else v0;
    var v2 := if ts[2].algType == algType then ts[2].supported else v1;
    assert LastOf(ts, algType, v) == LastOf(ts[1..], algType, v0);
    assert LastOf(ts[1..], algType, v0) == LastOf(ts[2..], algType, v1);
    assert LastOf(ts[2..], algType, v1) == LastOf(ts[3..], algType, v2);
    var v3 := if ts[3].algType == algType then ts[3].supported else v2;
    assert LastOf(ts[3..], algType, v2) == LastOf([], algType, v3) == v3;
  }

  /** The offer a responder reads out of the requester's own request. */
  function OfferOf(version: byte, requester: Algorithms, responder: Algorithms, before: Algorithms): Algorithms {
    var base := before.(measurementSpec := requester.measurementSpec, measurementHash := responder.measurementHash,
                        baseAsym := requester.baseAsym, baseHash := requester.baseHash);
    if version == VERSION_11 then
      base.(dhe := requester.dhe, aead := requester.aead, reqBaseAsym := requester.reqBaseAsym,
            keySchedule := requester.keySchedule)
    else base
  }

  /** The responder accepts the requester's request whole and reads the requester's algorithms out of it. */
  lemma ResponderReadsRequest(q: Context, p: Context)
    ensures var req := NegotiateRequest(q);
            && |req| == (if Version(q) == VERSION_11 then 48 else 32)
            && TablesScan(req, NEGOTIATE_HEAD, 15) == Some(|req|) && At16(req, 4) == |req|
            && OfferIn(p, req) == OfferOf(Version(q), q.local.algorithms, p.local.algorithms, p.algorithms)
  {
    var a := q.local.algorithms;
    var req := NegotiateRequest(q);
    if Version(q) == VERSION_11 {
      var ts := OfferTables(a);
      var tail := EncodeTables(ts);
      NegotiateHeadFields(VERSION_11, 4, a, tail);
      var base := p.algorithms.(measurementSpec := req[6], measurementHash := p.local.algorithms.measurementHash,
                                baseAsym := At32(req, 8), baseHash := At32(req, 12));
      OfferTablesSay(a, base);
      TablesRoundTrip(NegotiateHead(VERSION_11, 4, a), ts, [], 15, base);
      assert NegotiateHead(VERSION_11, 4, a) + tail + [] == req;
    } else {
      NegotiateHeadFields(VERSION_10, 0, a, []);
      assert NegotiateHead(VERSION_10, 0, a) + [] == req;
    }
  }

  /** The requester's parser accepts the responder's response whole. */
  lemma RequesterReadsResponse(version: byte, sel: Algorithms, before: Algorithms)
    requires version == VERSION_11 || version == VERSION_10
    ensures var m := AlgorithmsResponse(version, sel);
            && |m| == (if version == VERSION_11 then 52 else 36)
            && m[0] == version && m[1] == ALGORITHMS
            && AlgorithmsReplyEnd(m) == Some(|m|)
            && BaseSelections(before, m) == WithBase(before, sel)
            && (version == VERSION_11 ==>
                  LoadTables(m, TablesStart(m, ALGORITHMS_HEAD), m[2], 1, BaseSelections(before, m)) == sel)
  {
    var m := AlgorithmsResponse(version, sel);
    if version == VERSION_11 {
      var ts := OfferTables(sel);
      AlgorithmsHeadFields(version, 4, sel, EncodeTables(ts));
      OfferTablesSay(sel, BaseSelections(before, m));
      TablesRoundTrip(AlgorithmsHead(version, 4, sel), ts, [], 1, BaseSelections(before, m));
      assert AlgorithmsHead(version, 4, sel) + EncodeTables(ts) + [] == m;
    } else {
      AlgorithmsHeadFields(version, 0, sel, []);
      assert AlgorithmsHead(version, 0, sel) + [] == m;
    }
  }

  /** What the responder selects for this requester. */
  function Selection(q: Context, p: Context): Algorithms {
    SelectAlgorithms(p.local.algorithms, OfferOf(Version(q), q.local.algorithms, p.local.algorithms, p.algorithms))
  }

  /** The algorithms both ends end up with. */
  function Agreed(version: byte, sel: Algorithms): Algorithms {
    if version == VERSION_11 then sel else WithoutSessionAlgorithms(sel)
  }

  /** The responder answers exactly when both messages fit and the selection passes its checks. */
  predicate ResponderAnswers(q: Context, p: Context) {
    var sel := Selection(q, p);
    && p.state == AfterCapabilities
    && |p.messageA| + |NegotiateRequest(q)| + |AlgorithmsResponse(Version(p), sel)| <= MAX_SMALL_BUFFER
    && BaseAlgorithmsOk(p, false, sel)
    && (Version(p) == VERSION_11 ==> SessionAlgorithmsOk(p, false, sel))
  }

  /** The base checks look at the base algorithms only. */
  lemma BaseChecksSeeBaseOnly(s: Context, isRequester: bool, a: Algorithms, b: Algorithms)
    ensures BaseAlgorithmsOk(s, isRequester, WithBase(a, b)) == BaseAlgorithmsOk(s, isRequester, b)
    ensures WithoutSessionAlgorithms(WithBase(a, b)) == WithoutSessionAlgorithms(b)
  {
  }

  /** The checks do not depend on message A. */
  lemma ChecksIgnoreTranscripts(s: Context, t: seq<byte>, isRequester: bool, a: Algorithms)
    ensures BaseAlgorithmsOk(s.(messageA := t), isRequester, a) == BaseAlgorithmsOk(s, isRequester, a)
    ensures SessionSizesOk(s.(messageA := t), isRequester, a) == SessionSizesOk(s, isRequester, a)
    ensures KeyScheduleOk(s.(messageA := t), isRequester, a) == KeyScheduleOk(s, isRequester, a)
  {
  }

  lemma ResponderNegotiates(q: Context, p: Context)
    requires q.versions == p.versions
    ensures var r := HandleNegotiateAlgorithms(p, Normal, NegotiateRequest(q));
            if ResponderAnswers(q, p) then
              var m := AlgorithmsResponse(Version(p), Selection(q, p));
              r == Response(p.(messageA := p.messageA + NegotiateRequest(q) + m,
                               algorithms := Agreed(Version(p), Selection(q, p)), state := Negotiated), m)
            else |r.message| == 4 && r.message[1] == ERROR
  {
    hide BaseAlgorithmsOk, SessionSizesOk, KeyScheduleOk, SelectAlgorithms, NegotiateRequest, AlgorithmsResponse,
         OfferIn, OfferOf, TablesScan, WithBase, WithoutSessionAlgorithms;
    ResponderReadsRequest(q, p);
    var req := NegotiateRequest(q);
    assert req[..|req|] == req;
    var sel := Selection(q, p);
    BaseChecksSeeBaseOnly(p.(messageA := p.messageA + req + AlgorithmsResponse(Version(p), sel)), false,
                          OfferIn(p, req), sel);
    ChecksIgnoreTranscripts(p, p.messageA + req + AlgorithmsResponse(Version(p), sel), false, sel);
  }

  /** The requester adopts exactly the responder's selection when it passes the requester's checks. */
  lemma RequesterNegotiates(q: Context, sel: Algorithms)
    requires q.state == AfterCapabilities
    requires |q.messageA| + |NegotiateRequest(q)| + |AlgorithmsResponse(Version(q), sel)| <= MAX_SMALL_BUFFER
    ensures var m := AlgorithmsResponse(Version(q), sel);
            var r := TryNegotiateAlgorithms(q, Says(m));
            if BaseAlgorithmsOk(q, true, sel) && (Version(q) == VERSION_11 ==> SessionAlgorithmsOk(q, true, sel)) then
              r == Step(Success, q.(messageA := q.messageA + NegotiateRequest(q) + m,
                                    algorithms := Agreed(Version(q), sel), state := Negotiated), ())
            else r.status == SecurityViolation
  {
    hide BaseAlgorithmsOk, SessionSizesOk, KeyScheduleOk, NegotiateRequest, AlgorithmsResponse, AlgorithmsReplyEnd,
         LoadTables, BaseSelections, WithBase, WithoutSessionAlgorithms;
    var m := AlgorithmsResponse(Version(q), sel);
    RequesterReadsResponse(Version(q), sel, q.algorithms);
    assert m[..|m|] == m;
    var a := q.messageA + NegotiateRequest(q) + m;
    BaseChecksSeeBaseOnly(q.(messageA := a), true, q.algorithms, sel);
    ChecksIgnoreTranscripts(q, a, true, sel);
  }

  /**
   Each field the requester offers is the responder's best common algorithm, the measurement hash is
   the best of the responder's own, and a 1.0 connection has no session algorithms.
   */
  ghost predicate Optimal(version: byte, q: Algorithms, p: Algorithms, a: Algorithms) {
    && BestCommon(MEASUREMENT_SPEC_PRIORITY, p.measurementSpec, q.measurementSpec, a.measurementSpec)
    && BestCommon(MEASUREMENT_HASH_PRIORITY, p.measurementHash, p.measurementHash, a.measurementHash)
    && BestCommon(ASYM_PRIORITY, p.baseAsym, q.baseAsym, a.baseAsym)
    && BestCommon(HASH_PRIORITY, p.baseHash, q.baseHash, a.baseHash)
    && (if version == VERSION_11 then
          && BestCommon(DHE_PRIORITY, p.dhe, q.dhe, a.dhe)
          && BestCommon(AEAD_PRIORITY, p.aead, q.aead, a.aead)
          && BestCommon(REQ_ASYM_PRIORITY, p.reqBaseAsym, q.reqBaseAsym, a.reqBaseAsym)
          && BestCommon(KEY_SCHEDULE_PRIORITY, p.keySchedule, q.keySchedule, a.keySchedule)
        else NoSessionAlgorithms(a))
  }

  /** Narrowing to the field's width loses nothing: every table entry fits. */
  lemma SelectionsFit(local: Algorithms, offer: Algorithms)
    ensures var s := SelectAlgorithms(local, offer);
            && s.measurementSpec == Prioritize(MEASUREMENT_SPEC_PRIORITY, local.measurementSpec, offer.measurementSpec)
            && s.dhe == Prioritize(DHE_PRIORITY, local.dhe, offer.dhe)
            && s.aead == Prioritize(AEAD_PRIORITY, local.aead, offer.aead)
            && s.reqBaseAsym == Prioritize(REQ_ASYM_PRIORITY, local.reqBaseAsym, offer.reqBaseAsym)
            && s.keySchedule == Prioritize(KEY_SCHEDULE_PRIORITY, local.keySchedule, offer.keySchedule)
  {
    hide Prioritize;
    StaysBelow(MEASUREMENT_SPEC_PRIORITY, 0x100, local.measurementSpec, offer.measurementSpec);
    StaysBelow(DHE_PRIORITY, 0x1_0000, local.dhe, offer.dhe);
    StaysBelow(AEAD_PRIORITY, 0x1_0000, local.aead, offer.aead);
    StaysBelow(REQ_ASYM_PRIORITY, 0x1_0000, local.reqBaseAsym, offer.reqBaseAsym);
    StaysBelow(KEY_SCHEDULE_PRIORITY, 0x1_0000, local.keySchedule, offer.keySchedule);
  }

  lemma StaysBelow(table: seq<u32>, bound: nat, local: u32, peer: u32)
    requires 0 < bound && forall i :: 0 <= i < |table| ==> table[i] < bound
    ensures Prioritize(table, local, peer) < bound
  {
    hide Prioritize;
  }

  lemma SelectionIsOptimal(q: Context, p: Context)
    ensures Optimal(Version(q), q.local.algorithms, p.local.algorithms, Agreed(Version(q), Selection(q, p)))
  {
    hide Prioritize, BestCommon, SingleBits;
    hide HASH_PRIORITY, ASYM_PRIORITY, REQ_ASYM_PRIORITY, DHE_PRIORITY, AEAD_PRIORITY, KEY_SCHEDULE_PRIORITY,
         MEASUREMENT_HASH_PRIORITY, MEASUREMENT_SPEC_PRIORITY;
    var l, o := p.local.algorithms, OfferOf(Version(q), q.local.algorithms, p.local.algorithms, p.algorithms);
    SelectionsFit(l, o);
    PriorityTablesAreSingleBits();
    PrioritizeIsBest(MEASUREMENT_SPEC_PRIORITY, l.measurementSpec, o.measurementSpec);
    PrioritizeIsBest(MEASUREMENT_HASH_PRIORITY, l.measurementHash, o.measurementHash);
    PrioritizeIsBest(ASYM_PRIORITY, l.baseAsym, o.baseAsym);
    PrioritizeIsBest(HASH_PRIORITY, l.baseHash, o.baseHash);
    PrioritizeIsBest(DHE_PRIORITY, l.dhe, o.dhe);
    PrioritizeIsBest(AEAD_PRIORITY, l.aead, o.aead);
    PrioritizeIsBest(REQ_ASYM_PRIORITY, l.reqBaseAsym, o.reqBaseAsym);
    PrioritizeIsBest(KEY_SCHEDULE_PRIORITY, l.keySchedule, o.keySchedule);
  }

  /**
   Agreement and optimality: whenever the requester succeeds against this responder, both ends hold
   the same algorithm record, it is optimal for the two offers, and message A grew by the same bytes.
   */
  lemma NegotiationAgrees(q: Context, p: Context)
    requires q.versions == p.versions && q.messageA == p.messageA
    ensures var r := HandleNegotiateAlgorithms(p, Normal, NegotiateRequest(q));
            var t := TryNegotiateAlgorithms(q, Says(r.message));
            t.status == Success ==>
            && t.ctx.algorithms == r.ctx.algorithms
            && Optimal(Version(q), q.local.algorithms, p.local.algorithms, t.ctx.algorithms)
            && t.ctx.messageA == r.ctx.messageA == q.messageA + NegotiateRequest(q) + r.message
            && t.ctx == q.(messageA := t.ctx.messageA, algorithms := t.ctx.algorithms, state := Negotiated)
            && r.ctx == p.(messageA := t.ctx.messageA, algorithms := t.ctx.algorithms, state := Negotiated)
  {
    hide BaseAlgorithmsOk, SessionAlgorithmsOk, NegotiateRequest, AlgorithmsResponse, Selection, Optimal,
         AdoptAlgorithms;
    ResponderNegotiates(q, p);
    var r := HandleNegotiateAlgorithms(p, Normal, NegotiateRequest(q));
    if TryNegotiateAlgorithms(q, Says(r.message)).status == Success {
      assert ResponderAnswers(q, p);
      RequesterNegotiates(q, Selection(q, p));
      SelectionIsOptimal(q, p);
    }
  }
}
