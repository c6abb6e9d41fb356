/** Where the session algorithms of a connection come from: the message just accepted, or whatever was there before. */
module StaleAlgorithms {
  import opened Bytes
  import opened Spdm
  import opened ManagedBuffers
  import opened DeviceContext
  import opened Exchanges
  import opened Retrying
  import opened AlgorithmTables
  import opened ConnectionRequester
  import opened ConnectionResponder
  import opened RetryTransparency
  import opened ConnectionRuns
  import opened Meaning
  import opened ExactConnection

  datatype Field = Dhe | Aead | ReqBaseAsym | KeySchedule

  function AlgType(f: Field): byte {
    match f
    case Dhe => ALG_DHE
    case Aead => ALG_AEAD
    case ReqBaseAsym => ALG_REQ_BASE_ASYM
    case KeySchedule => ALG_KEY_SCHEDULE
  }

  function Value(a: Algorithms, f: Field): u16 {
    match f
    case Dhe => a.dhe
    case Aead => a.aead
    case ReqBaseAsym => a.reqBaseAsym
    case KeySchedule => a.keySchedule
  }

  /** The same algorithms with another value in one field. */
  function With(a: Algorithms, f: Field, v: u16): Algorithms {
    match f
    case Dhe => a.(dhe := v)
    case Aead => a.(aead := v)
    case ReqBaseAsym => a.(reqBaseAsym := v)
    case KeySchedule => a.(keySchedule := v)
  }

  // ---------- Lists of entries ----------

  /** Some entry has the type of the field. */
  ghost predicate Mentioned(ts: seq<(byte, u16)>, f: Field) {
    exists i :: 0 <= i < |ts| && ts[i].0 == AlgType(f)
  }

  /** Entry i is the last one with the type of the field. */
  ghost predicate IsLast(ts: seq<(byte, u16)>, f: Field, i: nat) {
    && i < |ts| && ts[i].0 == AlgType(f)
    && forall j :: i < j < |ts| ==> ts[j].0 != AlgType(f)
  }

  /** The value comes from the last entry of its type, or is the old one and there is no such entry. */
  ghost predicate ComesFrom(ts: seq<(byte, u16)>, f: Field, old_: u16, value: u16) {
    if Mentioned(ts, f) then exists i: nat :: IsLast(ts, f, i) && value == ts[i].1 else value == old_
  }

  /** Storing one entry sets the field it has the type of and no other. */
  lemma StoreOne(a: Algorithms, algType: byte, v: u16, f: Field)
    ensures Value(StoreAlgorithm(a, algType, v), f) == if algType == AlgType(f) then v else Value(a, f)
  {
  }

  lemma {:induction false} StoredComesFrom(a: Algorithms, ts: seq<(byte, u16)>, f: Field)
    ensures ComesFrom(ts, f, Value(a, f), Value(StoreAll(a, ts), f))
    decreases |ts|
  {
    hide AlgType, Value;
    if ts != [] {
      var b := StoreAlgorithm(a, ts[0].0, ts[0].1);
      var rest := ts[1..];
      StoreOne(a, ts[0].0, ts[0].1, f);
      StoredComesFrom(b, rest, f);
      if Mentioned(rest, f) {
        var i: nat :| IsLast(rest, f, i) && Value(StoreAll(b, rest), f) == rest[i].1;
        assert ts[i + 1] == rest[i];
        assert IsLast(ts, f, i + 1);
      } else {
        assert forall j :: 1 <= j < |ts| ==> ts[j] == rest[j - 1];
        assert Mentioned(ts, f) <==> ts[0].0 == AlgType(f);
        assert Mentioned(ts, f) ==> IsLast(ts, f, 0);
      }
    }
  }

  /** What the old value of one field does to the outcome: nothing, or it is kept. */
  lemma {:induction false} StoredOver(a: Algorithms, ts: seq<(byte, u16)>, f: Field, v: u16)
    ensures StoreAll(With(a, f, v), ts) == if Mentioned(ts, f) then StoreAll(a, ts) else With(StoreAll(a, ts), f, v)
    decreases |ts|
  {
    if ts != [] {
      var rest := ts[1..];
      StoredOver(StoreAlgorithm(a, ts[0].0, ts[0].1), rest, f, v);
      assert forall j :: 1 <= j < |ts| ==> ts[j] == rest[j - 1];
      assert Mentioned(ts, f) <==> ts[0].0 == AlgType(f) || Mentioned(rest, f);
    }
  }

  // ---------- The requester ----------

  /** The entries of a 1.1 response the requester's parser accepts. */
  function ReplyTables(m: seq<byte>): seq<(byte, u16)>
    requires AlgorithmsReplyEnd(m).Some? && m[0] >= VERSION_11
  {
    ReadTables(m, TablesStart(m, ALGORITHMS_HEAD), m[2], 1)
  }

  /** The guards that lead NEGOTIATE_ALGORITHMS to the tables of the 1.1 response m. */
  predicate ReadsTables(s: Context, r: Reply, m: seq<byte>) {
    && s.state == AfterCapabilities && ShortOutcome(r, ALGORITHMS) == Answer(m)
    && AlgorithmsReplyEnd(m).Some? && m[0] >= VERSION_11
    && |s.messageA| + |NegotiateRequest(s)| + AlgorithmsReplyEnd(m).value <= MAX_SMALL_BUFFER
    && BaseAlgorithmsOk(s, true, BaseSelections(s.algorithms, m))
  }

  /** Success leads through them, or a 1.0 response leaves no session algorithms. */
  lemma SuccessReadsTables(s: Context, r: Reply)
    ensures TryNegotiateAlgorithms(s, r).status == Success ==>
              var o := ShortOutcome(r, ALGORITHMS);
              && o.Answer? && AlgorithmsReplyEnd(o.message).Some?
              && if o.message[0] >= VERSION_11 then ReadsTables(s, r, o.message)
                 else NoSessionAlgorithms(TryNegotiateAlgorithms(s, r).ctx.algorithms)
  {
    hide NegotiateRequest, AlgorithmsReplyEnd, LoadTables, SessionAlgorithmsOk, BaseAlgorithmsOk;
    var o := ShortOutcome(r, ALGORITHMS);
    if TryNegotiateAlgorithms(s, r).status == Success {
      var a := s.messageA + NegotiateRequest(s) + o.message[..AlgorithmsReplyEnd(o.message).value];
      ChecksReadFlags(s, s.(messageA := a), BaseSelections(s.algorithms, o.message));
    }
  }

  /** What the tables are loaded into. */
  lemma ReadAlgorithms(s: Context, r: Reply, m: seq<byte>)
    requires ReadsTables(s, r, m)
    ensures TryNegotiateAlgorithms(s, r).ctx.algorithms == StoreAll(BaseSelections(s.algorithms, m), ReplyTables(m))
  {
    hide NegotiateRequest, AlgorithmsReplyEnd, SessionAlgorithmsOk, BaseAlgorithmsOk, ReadTables, StoreAll;
    var a := s.messageA + NegotiateRequest(s) + m[..AlgorithmsReplyEnd(m).value];
    ChecksReadFlags(s, s.(messageA := a), BaseSelections(s.algorithms, m));
  }

  /** The previous algorithms decide none of the guards. */
  lemma ReadsTablesAnyway(s: Context, r: Reply, m: seq<byte>, a: Algorithms)
    requires ReadsTables(s, r, m)
    ensures ReadsTables(s.(algorithms := a), r, m)
  {
    hide AlgorithmsReplyEnd, HashSize, SignatureSize, MeasurementHashSize, And;
  }

  /**
   Every accepted response, whatever its tables are: each session algorithm of the connection is that of the last entry
   of its type in a 1.1 response, the old one when there is no such entry, and zero after a 1.0 response.
   */
  lemma NegotiatedComesFrom(s: Context, r: Reply, f: Field)
    ensures var t := TryNegotiateAlgorithms(s, r);
            t.status == Success ==>
              var o := ShortOutcome(r, ALGORITHMS);
              && o.Answer? && AlgorithmsReplyEnd(o.message).Some?
              && if o.message[0] >= VERSION_11
                 then ComesFrom(ReplyTables(o.message), f, Value(s.algorithms, f), Value(t.ctx.algorithms, f))
                 else Value(t.ctx.algorithms, f) == 0
  {
    hide TryNegotiateAlgorithms, AlgorithmsReplyEnd, ComesFrom, ReplyTables;
    SuccessReadsTables(s, r);
    var o := ShortOutcome(r, ALGORITHMS);
    if TryNegotiateAlgorithms(s, r).status == Success && o.message[0] >= VERSION_11 {
      ReadAlgorithms(s, r, o.message);
      StoredComesFrom(BaseSelections(s.algorithms, o.message), ReplyTables(o.message), f);
    }
  }

  /** The algorithms NEGOTIATE_ALGORITHMS leaves when `previous` were there before. */
  function Adopted(s: Context, r: Reply, previous: Algorithms): Algorithms {
    TryNegotiateAlgorithms(s.(algorithms := previous), r).ctx.algorithms
  }

  /** A field keeps its old value, for every old value, if and only if the response has no entry of its type. */
  lemma KeptExactly(s: Context, r: Reply, m: seq<byte>, f: Field)
    requires ReadsTables(s, r, m)
    ensures (forall v: u16 :: Value(Adopted(s, r, With(s.algorithms, f, v)), f) == v) <==> !Mentioned(ReplyTables(m), f)
  {
    hide TryNegotiateAlgorithms, AlgorithmsReplyEnd, Mentioned, ReplyTables, StoreAll, NegotiateRequest,
         BaseAlgorithmsOk;
    var ts := ReplyTables(m);
    var base := BaseSelections(s.algorithms, m);
    forall v: u16
      ensures Value(Adopted(s, r, With(s.algorithms, f, v)), f)
                == if Mentioned(ts, f) then Value(StoreAll(base, ts), f) else v
    {
      var a := With(s.algorithms, f, v);
      AdoptedIs(s, r, m, a);
      assert BaseSelections(a, m) == With(base, f, v);
      StoredOver(base, ts, f, v);
    }
    var other: u16 := if Value(StoreAll(base, ts), f) == 0 then 1 else 0;
    assert Mentioned(ts, f) ==> Value(Adopted(s, r, With(s.algorithms, f, other)), f) != other;
  }

  lemma AdoptedIs(s: Context, r: Reply, m: seq<byte>, a: Algorithms)
    requires ReadsTables(s, r, m)
    ensures Adopted(s, r, a) == StoreAll(BaseSelections(a, m), ReplyTables(m))
  {
    hide TryNegotiateAlgorithms, AlgorithmsReplyEnd, ReplyTables, StoreAll;
    ReadsTablesAnyway(s, r, m, a);
    ReadAlgorithms(s.(algorithms := a), r, m);
  }

  /** So the response alone decides the algorithms if and only if it has a table of each of the four types. */
  lemma ResponseDecidesExactly(s: Context, r: Reply, m: seq<byte>)
    requires ReadsTables(s, r, m)
    ensures (forall a, b :: Adopted(s, r, a) == Adopted(s, r, b)) <==> forall f: Field :: Mentioned(ReplyTables(m), f)
  {
    hide Adopted, AlgorithmsReplyEnd, Mentioned, ReplyTables, StoreAll, NegotiateRequest, BaseAlgorithmsOk;
    var ts := ReplyTables(m);
    if forall f: Field :: Mentioned(ts, f) {
      forall a, b ensures Adopted(s, r, a) == Adopted(s, r, b) {
        AdoptedIs(s, r, m, a);
        AdoptedIs(s, r, m, b);
        SameStored(BaseSelections(a, m), BaseSelections(b, m), ts);
      }
    } else {
      var f: Field :| !Mentioned(ts, f);
      KeptExactly(s, r, m, f);
      assert Value(Adopted(s, r, With(s.algorithms, f, 0)), f) == 0;
      assert Value(Adopted(s, r, With(s.algorithms, f, 1)), f) == 1;
    }
  }

  lemma SameStored(a: Algorithms, b: Algorithms, ts: seq<(byte, u16)>)
    requires SameBase(a, b) && forall f: Field :: Mentioned(ts, f)
    ensures StoreAll(a, ts) == StoreAll(b, ts)
  {
    hide Mentioned, StoreAll;
    assert b == With(With(With(With(a, Dhe, b.dhe), Aead, b.aead), ReqBaseAsym, b.reqBaseAsym), KeySchedule,
                     b.keySchedule);
    StoredOver(a, ts, Dhe, b.dhe);
    StoredOver(With(a, Dhe, b.dhe), ts, Aead, b.aead);
    StoredOver(With(With(a, Dhe, b.dhe), Aead, b.aead), ts, ReqBaseAsym, b.reqBaseAsym);
    StoredOver(With(With(With(a, Dhe, b.dhe), Aead, b.aead), ReqBaseAsym, b.reqBaseAsym), ts, KeySchedule,
               b.keySchedule);
  }

  // ---------- A response without tables ----------

  /** An ALGORITHMS response of 36 bytes: the four base selections and no table. */
  predicate NoTables(m: seq<byte>) {
    && |m| == ALGORITHMS_HEAD && m[0] == VERSION_11 && m[1] == ALGORITHMS && m[2] == 0 && At16(m, 4) == 36
    && m[32] == 0 && m[33] == 0
  }

  /** It is accepted when the old session algorithms pass the checks, and leaves them in force. */
  lemma NoTablesKeepAll(s: Context, m: seq<byte>)
    requires s.state == AfterCapabilities && NoTables(m)
    requires |s.messageA| + |NegotiateRequest(s)| + 36 <= MAX_SMALL_BUFFER
    requires BaseAlgorithmsOk(s, true, BaseSelections(s.algorithms, m)) && SessionAlgorithmsOk(s, true, s.algorithms)
    ensures var t := TryNegotiateAlgorithms(s, Says(m));
            && t.status == Success && t.ctx.state == Negotiated
            && forall f: Field :: Value(t.ctx.algorithms, f) == Value(s.algorithms, f)
  {
    hide NegotiateRequest, BaseAlgorithmsOk, SessionAlgorithmsOk;
    assert AlgorithmsReplyEnd(m) == Some(36);
    var a := s.messageA + NegotiateRequest(s) + m[..36];
    ChecksReadFlags(s, s.(messageA := a), BaseSelections(s.algorithms, m));
    assert SessionAlgorithmsOk(s.(messageA := a), true, BaseSelections(s.algorithms, m)) by {
      SessionChecksReadFields(s, s.(messageA := a), s.algorithms, BaseSelections(s.algorithms, m));
    }
  }

  lemma SessionChecksReadFields(s: Context, t: Context, a: Algorithms, b: Algorithms)
    requires s.local == t.local && s.peerFlags == t.peerFlags
    requires forall f: Field :: Value(a, f) == Value(b, f)
    ensures SessionAlgorithmsOk(s, true, a) == SessionAlgorithmsOk(t, true, b)
  {
    hide And, SignatureSize, DhePubKeySize, AeadKeySize;
    assert Value(a, Dhe) == Value(b, Dhe) && Value(a, Aead) == Value(b, Aead);
    assert Value(a, ReqBaseAsym) == Value(b, ReqBaseAsym) && Value(a, KeySchedule) == Value(b, KeySchedule);
  }

  /**
   The failing family, as a whole call: SpdmInitConnection on a context that has been used before, against a responder
   that answers VERSION and CAPABILITIES and then sends no table. The call succeeds, and all four session algorithms
   are those of the earlier connection.
   */
  lemma ReconnectKeepsOldAlgorithms(s: Context, v: Reply, c: Reply, m: seq<byte>)
    requires TryGetVersion(s, v).status == Success && NoTables(m)
    requires TryGetCapabilities(TryGetVersion(s, v).ctx, c).status == Success
    requires var t := TryGetCapabilities(TryGetVersion(s, v).ctx, c).ctx;
             BaseAlgorithmsOk(t, true, BaseSelections(s.algorithms, m)) && SessionAlgorithmsOk(t, true, s.algorithms)
    ensures var r := InitConnection(s, false, _ => v, _ => c, _ => Says(m));
            && r.0 == Success && r.1.state == Negotiated
            && forall f: Field :: Value(r.1.algorithms, f) == Value(s.algorithms, f)
  {
    hide TryGetVersion, TryGetCapabilities, TryNegotiateAlgorithms, BaseAlgorithmsOk, SessionAlgorithmsOk,
         BaseSelections;
    var left := s.local.retryTimes;
    var s1 := TryGetVersion(s, v).ctx;
    var s2 := TryGetCapabilities(s1, c).ctx;
    assert VersionAttempt()(s, v) == TryGetVersion(s, v);
    assert CapabilitiesAttempt()(s1, c) == TryGetCapabilities(s1, c);
    assert AlgorithmsAttempt()(s2, Says(m)) == TryNegotiateAlgorithms(s2, Says(m));
    VersionBoundsA(s, _ => v, 0, 0);
    CapabilitiesBoundA(s1, _ => c, 0, 0);
    NegotiateRequestSize(s2);
    SetUpKeepsAlgorithms(s, v, c);
    NoTablesKeepAll(s2, m);
  }

  lemma SetUpKeepsAlgorithms(s: Context, v: Reply, c: Reply)
    ensures var s1 := TryGetVersion(s, v).ctx;
            var r := TryGetCapabilities(s1, c);
            r.ctx.algorithms == s.algorithms && (r.status == Success ==> r.ctx.state == AfterCapabilities)
  {
    hide CompatibleVersions, ResponderFlagsOk, GetCapabilitiesRequest;
  }

  // ---------- The responder ----------

  /** The other end does the same with the offer: a table missing from a 1.1 request leaves what the context had. */
  lemma OfferComesFrom(p: Context, req: seq<byte>, f: Field)
    requires |req| >= NEGOTIATE_HEAD && TablesScan(req, NEGOTIATE_HEAD, 15).Some? && req[0] >= VERSION_11
    ensures ComesFrom(ReadTables(req, TablesStart(req, NEGOTIATE_HEAD), req[2], 15), f, Value(p.algorithms, f),
                      Value(OfferIn(p, req), f))
  {
    hide TablesScan, ComesFrom, ReadTables;
    var base := p.algorithms.(measurementSpec := req[6], measurementHash := p.local.algorithms.measurementHash,
                              baseAsym := At32(req, 8), baseHash := At32(req, 12));
    StoredComesFrom(base, ReadTables(req, TablesStart(req, NEGOTIATE_HEAD), req[2], 15), f);
  }
}
