/** What the responder's handlers answer and leave behind, in the bytes of the messages. */
module ExactResponder {
  import opened Bytes
  import opened Spdm
  import opened Crypto
  import opened ManagedBuffers
  import opened DeviceContext
  import opened AlgorithmTables
  import opened ConnectionRequester
  import opened ConnectionResponder
  import opened SessionTable
  import opened TranscriptHash
  import opened SessionRequester
  import opened SessionResponder
  import opened SessionCapacity
  import opened SessionLockstep
  import opened Meaning
  import opened ExactConnection
  import opened ExactSessions

  /** The request is turned down with this ERROR, and the context is p. */
  function TurnedDown(p: Context, code: byte, data: byte): Response {
    Response(p, [Version(p), 0x7F, code, data])
  }

  /**
   A responder that is busy, out of step, not ready or in an encapsulated exchange says so; only the second drops the
   connection.
   */
  lemma OtherStates(p: Context, mode: ResponseState, request: byte, token: byte)
    requires mode != Normal
    ensures NotNow(p, mode, request, token) ==
              match mode
              case Busy => TurnedDown(p, 0x03, 0)
              case NeedResync => Response(p.(state := NotStarted), [Version(p), 0x7F, 0x43, 0])
              case NotReady => Response(p, [Version(p), 0x7F, 0x42, 0, 1, request, token, 1])
              case ProcessingEncap => TurnedDown(p, 0x08, 0)
  {
    hide Version;
  }

  // ---------- CAPABILITIES ----------

  /** The transcript with a message behind it, or as it was when there is no room. */
  function Grown(t: seq<byte>, m: seq<byte>, max: nat): seq<byte> {
    if |t| + |m| <= max then t + m else t
  }

  lemma CapabilitiesHandled(p: Context, req: seq<byte>, stale: u32)
    requires |req| >= 4
    ensures var r := HandleGetCapabilities(p, Normal, req, stale);
            var v := Version(p);
            var flags := if |req| == 12 then At32(req, 8) else stale;
            var m := [v, 0x61, 0, 0, 0, p.local.ctExponent, 0, 0] + Le32(p.local.flags);
            r == if p.state != AfterVersion then TurnedDown(p, 0x04, 0)
                 else if |req| != (if v == 0x11 then 12 else 4) || (req[0] == 0x11 && BadRequesterFlags(flags)) then
                   TurnedDown(p, 0x01, 0)
                 else Response(p.(messageA := Grown(Grown(p.messageA, req, 0x100), m, 0x100),
                                  state := AfterCapabilities,
                                  peerFlags := if v == 0x11 then flags else 0,
                                  peerCtExponent := if v == 0x11 then req[5] else 0), m)
  {
    hide Version, BadRequesterFlags, RequesterFlagsOk;
    var flags := if |req| == 12 then At32(req, 8) else stale;
    FlagsByBits(flags);
    assert req[0] != 0x11 ==> RequesterFlagsOk(flags, req[0]) by { OtherVersionsPass(flags, req[0]); }
  }

  lemma OtherVersionsPass(flags: u32, version: byte)
    ensures version != 0x11 ==> RequesterFlagsOk(flags, version) && ResponderFlagsOk(flags, version)
  {
  }

  // ---------- ALGORITHMS ----------

  /** ALGORITHMS as it lies on the wire. */
  function AlgorithmsAnswer(v: byte, a: Algorithms): seq<byte> {
    [v, 0x63, if v == 0x11 then 4 else 0, 0, if v == 0x11 then 52 else 36, 0, a.measurementSpec, 0]
    + Le32(a.measurementHash) + Le32(a.baseAsym) + Le32(a.baseHash) + Zeros(16)
    + (if v == 0x11 then
         [2, 0x20] + Le16(a.dhe) + [3, 0x20] + Le16(a.aead) + [4, 0x20] + Le16(a.reqBaseAsym) + [5, 0x20]
           + Le16(a.keySchedule)
       else [])
  }

  lemma AnswerIs(v: byte, a: Algorithms)
    ensures AlgorithmsResponse(v, a) == AlgorithmsAnswer(v, a)
  {
    hide EncodeTables;
    FourTables(a);
    assert Zeros(12) + [0, 0, 0, 0] == Zeros(16);
    assert Le16(52) == [52, 0] && Le16(36) == [36, 0];
  }

  /** The offer that is read from a request: base algorithms from the head, and the responder's own measurement hash. */
  lemma OfferReads(p: Context, req: seq<byte>)
    requires |req| >= 32 && TablesScan(req, 32, 15).Some?
    ensures var a := OfferIn(p, req);
            && a.measurementSpec == req[6] && a.measurementHash == p.local.algorithms.measurementHash
            && a.baseAsym == At32(req, 8) && a.baseHash == At32(req, 12)
  {
    hide TablesScan, LoadTables;
    var base := p.algorithms.(measurementSpec := req[6], measurementHash := p.local.algorithms.measurementHash,
                              baseAsym := At32(req, 8), baseHash := At32(req, 12));
    if req[0] >= 0x11 {
      LoadKeepsBase(req, TablesStart(req, 32), req[2], 15, base);
    }
  }

  /**
   NEGOTIATE_ALGORITHMS is answered with the selection if the request has the length it announces, both messages fit A,
   and every capability in use gets a known algorithm; each failure has its ERROR.
   */
  lemma AlgorithmsHandled(p: Context, req: seq<byte>)
    requires |req| >= 4
    ensures var r := HandleNegotiateAlgorithms(p, Normal, req);
            var f := FlagsOf(p, false);
            if p.state != AfterCapabilities then r == TurnedDown(p, 0x04, 0)
            else if |req| < 32 || TablesScan(req, 32, 15).None? then r == TurnedDown(p, 0x01, 0)
            else if TablesScan(req, 32, 15).value != At16(req, 4) then r == TurnedDown(p, 0x07, req[1])
            else if |p.messageA| + At16(req, 4) as int > 0x100 then r == TurnedDown(p, 0x01, 0)
            else
              var selected := SelectAlgorithms(p.local.algorithms, OfferIn(p, req));
              var m := AlgorithmsAnswer(Version(p), selected);
              var asked := p.messageA + req[..At16(req, 4)];
              if |asked| + |m| > 0x100 then
                r.message == [Version(p), 0x7F, 0x01, 0]
                && r.ctx == p.(messageA := asked, algorithms := r.ctx.algorithms)
              else
                && r.ctx.messageA == asked + m
                && r.ctx == p.(messageA := asked + m, algorithms := r.ctx.algorithms, state := r.ctx.state)
                && if GoodBase(f, selected) && (Version(p) == 0x11 ==> GoodSession(f, selected)) then
                     && r.message == m && r.ctx.state == Negotiated && SameBase(selected, r.ctx.algorithms)
                     && (if Version(p) == 0x11 then r.ctx.algorithms == selected
                         else NoSessionAlgorithms(r.ctx.algorithms))
                   else r.message == NegotiationError(Version(p), f, selected) && r.ctx.state == AfterCapabilities
  {
    hide Version, TablesScan, SelectAlgorithms, OfferIn, AlgorithmsResponse, AlgorithmsAnswer, ConcludeNegotiation,
         GoodBase, GoodSession, NegotiationError;
    if p.state == AfterCapabilities && |req| >= 32 && TablesScan(req, 32, 15).Some?
       && TablesScan(req, 32, 15).value == At16(req, 4) {
      var selected := SelectAlgorithms(p.local.algorithms, OfferIn(p, req));
      var m := AlgorithmsAnswer(Version(p), selected);
      AnswerIs(Version(p), selected);
      var p1 := p.(messageA := p.messageA + req[..At16(req, 4)] + m);
      ResponderConcludesExactly(p1, OfferIn(p, req), selected, m);
      ConcludeLeaves(p1, OfferIn(p, req), selected, m);
      SameVersion(p1, p);
      SameVersion(p.(messageA := p.messageA + req[..At16(req, 4)], algorithms := OfferIn(p, req)), p);
    }
  }

  lemma ConcludeLeaves(p: Context, offer: Algorithms, selected: Algorithms, m: seq<byte>)
    ensures var r := ConcludeNegotiation(p, offer, selected, m);
            r.ctx == p.(algorithms := r.ctx.algorithms, state := r.ctx.state)
  {
    hide BaseAlgorithmsOk, SessionSizesOk, KeyScheduleOk, Version;
  }

  // ---------- DIGESTS ----------

  /** The chain a slot holds. */
  function InSlot(l: Local, slot: nat): seq<byte> {
    if slot < |l.chains| && l.chains[slot].Chain? then l.chains[slot].bytes else []
  }

  lemma {:induction false} DigestsSize(cr: Crypto, p: Context, n: nat)
    requires SizeLaws(cr)
    ensures |SlotDigests(cr, p, n)| == n * HashSize(p.algorithms.baseHash)
    decreases n
  {
    hide HashSize, ChainOfSlot, SizeLaws;
    if n > 0 {
      DigestsSize(cr, p, n - 1);
      HashedSize(cr, p.algorithms.baseHash, ChainOfSlot(p.local, n - 1));
    }
  }

  /** The digests lie in slot order, each at its place. */
  lemma {:induction false} DigestAt(cr: Crypto, p: Context, n: nat, k: nat)
    requires SizeLaws(cr) && k < n
    ensures var h := HashSize(p.algorithms.baseHash);
            var at := k * h;
            && at + h <= |SlotDigests(cr, p, n)|
            && SlotDigests(cr, p, n)[at..at + h] == cr.hash(p.algorithms.baseHash, InSlot(p.local, k))
    decreases n
  {
    hide HashSize, SizeLaws, InSlot, ChainOfSlot;
    SameChain(p.local, n - 1);
    var h := HashSize(p.algorithms.baseHash);
    var before := SlotDigests(cr, p, n - 1);
    var last := cr.hash(p.algorithms.baseHash, ChainOfSlot(p.local, n - 1));
    HashedSize(cr, p.algorithms.baseHash, ChainOfSlot(p.local, n - 1));
    DigestsSize(cr, p, n - 1);
    var at := k * h;
    if k < n - 1 {
      DigestAt(cr, p, n - 1, k);
      SlicesOfSum(before, last, at, at + h);
    } else {
      assert at == |before|;
      SlicesOfSum(before, last, 0, 0);
    }
  }

  lemma SlicesOfSum(s: seq<byte>, t: seq<byte>, i: nat, j: nat)
    requires i <= j <= |s|
    ensures (s + t)[i..j] == s[i..j] && (s + t)[|s|..|s| + |t|] == t
  {
  }

  lemma HashedSize(cr: Crypto, a: u32, d: seq<byte>)
    requires SizeLaws(cr)
    ensures |cr.hash(a, d)| == HashSize(a)
  {
  }

  lemma DigestsHandled(cr: Crypto, p: Context, req: seq<byte>)
    requires |req| >= 4
    ensures var r := HandleGetDigests(cr, p, Normal, req);
            var m := [Version(p), 0x01, 0, (Pow2(p.local.slotCount) - 1) % 0x100]
              + SlotDigests(cr, p, p.local.slotCount);
            var asked := p.(messageB := p.messageB + req);
            r == if !Bit(p.local.flags, 1) then TurnedDown(p, 0x07, 0x81)
                 else if p.state != Negotiated then TurnedDown(p, 0x04, 0)
                 else if |req| != 4 || |p.messageB| + 4 > 0x1200 then TurnedDown(p, 0x01, 0)
                 else if forall i :: 0 <= i < |p.local.chains| ==> p.local.chains[i] == NoChain then
                   TurnedDown(asked, 0x07, 0x81)
                 else if |asked.messageB| + |m| > 0x1200 then TurnedDown(asked, 0x01, 0)
                 else Response(p.(messageB := asked.messageB + m, state := AfterDigests), m)
  {
    hide IsCapable, Bit, Version, SlotDigests, Pow2;
    Queries(p, false);
    assert SlotMask(p.local.slotCount) == Pow2(p.local.slotCount) - 1;
    SameVersion(p, p.(messageB := p.messageB + req));
    if forall i :: 0 <= i < |p.local.chains| ==> p.local.chains[i] == NoChain {
      assert !AnyChainProvisioned(p.local);
    } else {
      var i :| 0 <= i < |p.local.chains| && p.local.chains[i] != NoChain;
      assert p.local.chains[i].Chain?;
    }
  }

  // ---------- CERTIFICATE ----------

  /** CERTIFICATE carries the block asked for, at most 1024 bytes and at most what is left, and says what remains. */
  lemma CertificateHandled(p: Context, req: seq<byte>)
    requires |req| >= 4
    ensures var r := HandleGetCertificate(p, Normal, req);
            var asked := p.(messageB := p.messageB + req);
            if p.state !in {Negotiated, AfterDigests, AfterCertificate} then r == TurnedDown(p, 0x04, 0)
            else if !Bit(p.local.flags, 1) then r == TurnedDown(p, 0x07, 0x82)
            else if |req| != 8 || |p.messageB| + 8 > 0x1200 then r == TurnedDown(p, 0x01, 0)
            else
              var chain := InSlot(p.local, req[2]);
              var o: nat := At16(req, 4);
              if req[2] >= p.local.slotCount || o >= |chain| then r == TurnedDown(asked, 0x01, 0)
              else
                var l: nat := if At16(req, 6) < 1024 then At16(req, 6) else 1024;
                var k := if l < |chain| - o then l else |chain| - o;
                var m := [Version(p), 0x02, req[2], 0] + Le16(k) + Le16((|chain| - o - k) % 0x1_0000) + chain[o..o + k];
                r == if |asked.messageB| + |m| > 0x1200 then TurnedDown(asked, 0x01, 0)
                     else Response(p.(messageB := asked.messageB + m, state := AfterCertificate), m)
  {
    hide IsCapable, Bit, Version, CertificateResponse, PortionLength, InSlot, ChainOfSlot;
    Queries(p, false);
    SameVersion(p, p.(messageB := p.messageB + req));
    if |req| == 8 {
      var chain := InSlot(p.local, req[2]);
      assert ChainOfSlot(p.local, req[2]) == chain by { SameChain(p.local, req[2]); }
      if At16(req, 4) < |chain| {
        PortionIs(p, req[2], chain, At16(req, 4), At16(req, 6));
      }
    }
  }

  lemma SameChain(l: Local, slot: nat)
    ensures ChainOfSlot(l, slot) == InSlot(l, slot)
  {
  }

  lemma PortionIs(p: Context, slot: byte, chain: seq<byte>, o: nat, length: u16)
    requires o < |chain|
    ensures var l: nat := if length < 1024 then length else 1024;
            var k := if l < |chain| - o then l else |chain| - o;
            CertificateResponse(p, slot, chain, o, length) ==
              [Version(p), 0x02, slot, 0] + Le16(k) + Le16((|chain| - o - k) % 0x1_0000) + chain[o..o + k]
  {
    hide Version;
  }

  // ---------- CHALLENGE_AUTH ----------

  /**
   Basic mutual authentication is asked for when it is wanted, both announced it, and the requester can be challenged.
   */
  lemma AsksMeans(p: Context)
    ensures var f := FlagsOf(p, false);
            AsksBasicMutAuth(p) <==>
              p.local.basicMutAuthRequested && f.Both(8) && f.Requester(2) && (f.Requester(1) || f.Requester(16))
  {
    hide IsCapable, Bit;
    Queries(p, false);
  }

  /** CHALLENGE_AUTH up to the signature, as it lies on the wire. */
  ghost function AuthBody(cr: Crypto, p: Context, slot: byte, nonce: Nonce, summary: seq<byte>): seq<byte> {
    [Version(p), 0x03, slot % 0x10 + (if AsksBasicMutAuth(p) then 0x80 else 0),
     if slot < 8 then Pow2(slot) % 0x100 else 0]
    + cr.hash(p.algorithms.baseHash, InSlot(p.local, if slot == 0xFF then p.local.provisionedSlot else slot))
    + nonce + summary + Le16(|p.local.opaqueChallengeAuth| % 0x1_0000) + p.local.opaqueChallengeAuth
  }

  /** The summary hash a request of this type gets: none, the digest of the measurements, or a failure. */
  ghost function Summary(cr: Crypto, p: Context, hashType: byte, measured: Option<seq<byte>>): Option<seq<byte>> {
    if !FlagsOf(p, false).Measures() || hashType == 0 then Some([])
    else if hashType in {1, 0xFF} && measured.Some? then Some(cr.hash(p.algorithms.baseHash, measured.value))
    else None
  }

  /** CHALLENGE is answered with a signature over A, B and C, with request and response body in C. */
  lemma ChallengeHandled(cr: Crypto, p: Context, req: seq<byte>, nonce: Nonce, measured: Option<seq<byte>>)
    requires |req| >= 4
    ensures var r := HandleChallenge(cr, p, Normal, req, nonce, measured);
            if !Bit(p.local.flags, 2) then r == TurnedDown(p, 0x07, 0x83)
            else if p.state !in {Negotiated, AfterDigests, AfterCertificate, Authenticated} then
              r == TurnedDown(p, 0x04, 0)
            else if |req| != 36 || |p.messageC| + 36 > 0x100 then r == TurnedDown(p, 0x01, 0)
            else
              var asked := p.(messageC := p.messageC + req);
              var summary := Summary(cr, p, req[3], measured);
              if (req[2] != 0xFF && req[2] >= p.local.slotCount) || summary.None? then r == TurnedDown(asked, 0x01, 0)
              else
                var body := AuthBody(cr, p, req[2], nonce, summary.value);
                if |asked.messageC| + |body| > 0x100 then r == TurnedDown(asked, 0x01, 0)
                else
                  var c := asked.messageC + body;
                  var signature := if |p.messageA| + |p.messageB| + |c| > 0x1200 then None
                                   else cr.responderSign(p.algorithms.baseAsym, p.algorithms.baseHash,
                                                         p.messageA + p.messageB + c);
                  r == if signature.None? then TurnedDown(p.(messageC := c), 0x07, 0x03)
                       else Response(p.(messageC := c, state := if AsksBasicMutAuth(p) then p.state else Authenticated),
                                     body + signature.value)
  {
    hide IsCapable, Bit, Version, AsksBasicMutAuth, Pow2;
    Queries(p, false);
    SameVersion(p, p.(messageC := p.messageC + req));
    if |req| == 36 {
      var summary := Summary(cr, p, req[3], measured);
      assert SummaryHash(cr, p, req[3], measured) == summary;
      if summary.Some? {
        assert ChallengeAuthBody(cr, p, req[2], nonce, summary.value) == AuthBody(cr, p, req[2], nonce, summary.value);
        SameVersion(p, p.(messageC := p.messageC + req + AuthBody(cr, p, req[2], nonce, summary.value)));
      }
    }
  }

  // ---------- KEY_EXCHANGE_RSP and FINISH_RSP ----------

  /** KEY_EXCHANGE_RSP up to the signature, as it lies on the wire. */
  lemma KexBodyIs(p: Context, half: u16, e: KexEnv, share: seq<byte>, summary: seq<byte>)
    ensures var f := FlagsOf(p, false);
            var asked := if f.Both(8) && (f.Requester(1) || f.Requester(16)) then e.encap.mutAuthRequested else 0;
            var selected: seq<byte> := if p.local.securedVersionCount == 0 then []
                                       else [0x46, 0x54, 0x4D, 0x44, 1, 1, 0, 0, 0, 0, 4, 0, 1, 0, 0x00, 0x11];
            && MutAuthAsked(p, e.encap) == asked
            && KexBody(p, half, e, share, summary) ==
                 [0x11, 0x64, 0, 0] + Le16(half) + [asked, if asked != 0 then e.encap.reqSlot % 0x10 else 0] + e.random
                 + share + summary + Le16(|selected|) + selected
  {
    hide IsCapable, Bit;
    Queries(p, false);
  }

  /**
   The opaque data of a request that a responder takes: the supported-version element with version 1.1, if it supports
   any.
   */
  predicate OffersVersion(l: Local, m: seq<byte>) {
    l.securedVersionCount == 0
    || (|m| == 20 && m[0] == 0x46 && m[1] == 0x54 && m[2] == 0x4D && m[3] == 0x44 && m[4] == 1 && m[5] == 1 && m[6] == 0
        && m[7] == 0 && m[8] == 0 && m[9] == 0 && m[10] == 5 && m[11] == 0 && m[12] == 1 && m[13] == 1 && m[14] == 1
        && m[16] == 0x11)
  }

  lemma OfferMeans(l: Local, m: seq<byte>)
    ensures SupportedVersionOk(l, m) <==> OffersVersion(l, m)
  {
    if |m| == 20 {
      var head: seq<byte> := [0x46, 0x54, 0x4D, 0x44, 1, 1, 0, 0, 0, 0, 5, 0, 1, 1, 1];
      if OffersVersion(l, m) && l.securedVersionCount != 0 {
        assert m[..15] == head;
      }
      if m[..15] == head {
        assert forall i :: 0 <= i < 15 ==> m[i] == m[..15][i] == head[i];
      }
    }
  }

  /** The guards of KEY_EXCHANGE, in order, each with its ERROR. */
  lemma KexGuards(cr: Crypto, p: Context, req: seq<byte>, e: KexEnv)
    requires |req| >= 4
    ensures var r := HandleKeyExchange(cr, p, Normal, req, e);
            var f := FlagsOf(p, false);
            var d := DhePubKeySize(p.algorithms.dhe);
            if !f.Both(9) then r == TurnedDown(p, 0x07, 0xE4)
            else if p.state !in {Negotiated, AfterDigests, AfterCertificate, Authenticated} then
              r == TurnedDown(p, 0x04, 0)
            else if || (f.Both(8) && !e.encap.errorFree) || (req[3] != 0xFF && req[3] >= p.local.slotCount)
                    || |req| < 42 + d || |req| < 42 + d + At16(req, 40 + d) as int
                 then r == TurnedDown(p, 0x01, 0)
            else
              var offered := req[42 + d..42 + d + At16(req, 40 + d) as int];
              var full := forall i :: 0 <= i < 4 ==> ResponderHalf(p.sessions[i].id) != 0;
              && (!OffersVersion(p.local, offered) ==> r == TurnedDown(p, 0x01, 0))
              && (OffersVersion(p.local, offered) && full ==> r == TurnedDown(p, 0x0A, 0))
  {
    hide IsCapable, Bit, Version, DhePubKeySize, SupportedVersionOk, OffersVersion, OpenSession, AssignSlot;
    Queries(p, false);
    var d := DhePubKeySize(p.algorithms.dhe);
    if |req| >= 42 + d && |req| >= 42 + d + At16(req, 40 + d) as int {
      OfferMeans(p.local, req[42 + d..42 + d + At16(req, 40 + d) as int]);
    }
    if forall i :: 0 <= i < 4 ==> ResponderHalf(p.sessions[i].id) != 0 {
      assert FreeHalfFrom(p.sessions, ResponderHalf, 0).None?;
    }
  }

  /** The requester's half above the responder's. */
  function NewId(half: u16, i: nat): u32
    requires i < 4
  {
    half * 0x1_0000 + (0xFFFF - i)
  }

  /** A request that passes the guards. */
  ghost predicate KexPasses(p: Context, req: seq<byte>, e: KexEnv) {
    var f := FlagsOf(p, false);
    var d := DhePubKeySize(p.algorithms.dhe);
    && f.Both(9) && p.state in {Negotiated, AfterDigests, AfterCertificate, Authenticated}
    && (f.Both(8) ==> e.encap.errorFree)
    && |req| >= 42 + d && (req[3] == 0xFF || req[3] < p.local.slotCount)
    && |req| >= 42 + d + At16(req, 40 + d) as int
    && OffersVersion(p.local, req[42 + d..42 + d + At16(req, 40 + d) as int])
  }

  /**
   Behind the guards the responder's half is 0xFFFF minus the first slot i without one, and the session goes to the
   first free slot j. A duplicate ID or a full table is over the limit; bytes behind the opaque data are dropped.
   */
  lemma KexOpens(cr: Crypto, p: Context, req: seq<byte>, e: KexEnv, i: nat, j: nat)
    requires KexPasses(p, req, e)
    requires i < 4 && ResponderHalf(p.sessions[i].id) == 0
             && forall k :: 0 <= k < i ==> ResponderHalf(p.sessions[k].id) != 0
    requires j <= 4 && (j < 4 ==> p.sessions[j].id == 0) && forall k :: 0 <= k < j ==> p.sessions[k].id != 0
    ensures var d := DhePubKeySize(p.algorithms.dhe);
            var id := NewId(At16(req, 4), i);
            var known := exists k :: 0 <= k < 4 && p.sessions[k].id == id;
            HandleKeyExchange(cr, p, Normal, req, e) ==
              if known || j == 4 then TurnedDown(p, 0x0A, 0)
              else OpenSession(cr, p, j, id, req[..42 + d + At16(req, 40 + d) as int], e)
  {
    hide IsCapable, Bit, Version, DhePubKeySize, SupportedVersionOk, OffersVersion, OpenSession;
    Queries(p, false);
    var d := DhePubKeySize(p.algorithms.dhe);
    OfferMeans(p.local, req[42 + d..42 + d + At16(req, 40 + d) as int]);
    assert FreeHalfFrom(p.sessions, ResponderHalf, 0) == Some(i);
    assert FindFrom(p.sessions, 0, 0) == if j < 4 then Some(j) else None;
  }

  /** What the responder signs, MACs and hashes in KEY_EXCHANGE: A, the digest of its certificates and K, if it fits. */
  ghost function OwnTranscript(cr: Crypto, p: Context, k: seq<byte>): Option<seq<byte>> {
    var th := p.messageA
              + cr.hash(p.algorithms.baseHash, Certificates(p.localChain, HashSize(p.algorithms.baseHash))) + k;
    if p.localChain != [] && |th| <= 0x1200 then Some(th) else None
  }

  lemma OwnTranscriptIs(cr: Crypto, p: Context, x: Session)
    requires !x.usePsk
    ensures TH1Data(cr, p, x, false) == OwnTranscript(cr, p, x.messageK)
  {
    hide HashSize;
  }

  /**
   The second half of KEY_EXCHANGE_RSP: the signature is over K without it, the keys and the MAC over K with it; what
   cannot be signed is unsupported, what cannot be kept or keyed is an invalid request.
   */
  lemma AnswerSigned(cr: Crypto, p: Context, x: Session, body: seq<byte>)
    requires !x.usePsk
    ensures var th := OwnTranscript(cr, p, x.messageK);
            var sig := if th.None? then None
                       else cr.responderSign(p.algorithms.baseAsym, p.algorithms.baseHash, th.value);
            SignAnswer(cr, p, x, body) ==
              if sig.None? then Refuse(0x07, 0x64)
              else
                var k := x.messageK + sig.value;
                var th1 := OwnTranscript(cr, p, k);
                var keys := if |k| > 0x1200 || th1.None? then None
                            else cr.handshakeKeys(p.algorithms.baseHash, x.secret,
                                                  cr.hash(p.algorithms.baseHash, th1.value));
                if keys.None? then Refuse(0x01, 0)
                else
                  var mac := if FlagsOf(p, false).Both(15) then []
                             else cr.hmac(p.algorithms.baseHash, keys.value.responseFinished, th1.value);
                  if |k + mac| > 0x1200 then Refuse(0x01, 0)
                  else Install(x.(messageK := k + mac, keys := keys.value, phase := Handshaking),
                               body + sig.value + mac)
  {
    hide TH1Data, OwnTranscript, IsCapable, Bit;
    Queries(p, false);
    OwnTranscriptIs(cr, p, x);
    var sig := GenerateKeyExchangeSignature(cr, p, x);
    if sig.Some? {
      var k := x.messageK + sig.value;
      var x2 := x.(messageK := k);
      OwnTranscriptIs(cr, p, x2);
      assert k + [] == k && body + sig.value + [] == body + sig.value;
      if TH1(cr, p, x2, false).Some? {
        var keys := cr.handshakeKeys(p.algorithms.baseHash, x.secret, TH1(cr, p, x2, false).value);
        if keys.Some? {
          OwnTranscriptIs(cr, p, x2.(keys := keys.value));
        }
      }
    }
  }

  /**
   KEY_EXCHANGE in a free slot: K is the request and the answer, the secret is that of the two shares, and the chain is
   that of the slot asked for. A refusal leaves the slot free.
   */
  lemma SessionOpened(cr: Crypto, p: Context, i: nat, id: u32, req: seq<byte>, e: KexEnv)
    requires i < 4 && |req| >= 40 + DhePubKeySize(p.algorithms.dhe)
    ensures var a := p.algorithms;
            var share := cr.dheShare(a.dhe, e.seed);
            var secret := cr.dheSecret(a.dhe, share, req[40..40 + DhePubKeySize(a.dhe)]);
            var summary := Summary(cr, p, req[2], e.measured);
            var freed := p.(latestSessionId := id, sessions := p.sessions[i := FreshSession(0, false)]);
            OpenSession(cr, p, i, id, req, e) ==
              if |req| > 0x1200 || secret.None? || summary.None? then TurnedDown(freed, 0x01, 0)
              else
                var chain := InSlot(p.local, if req[3] == 0xFF then p.local.provisionedSlot else req[3]);
                var kept := freed.(localChain := chain);
                var body := KexBody(p, id % 0x1_0000, e, share, summary.value);
                if |req + body| > 0x1200 then TurnedDown(kept, 0x01, 0)
                else
                  var x := FreshSession(id, false).(messageK := req + body, secret := secret.value,
                                                    mutAuthRequested := MutAuthAsked(p, e.encap));
                  match SignAnswer(cr, p.(latestSessionId := id, localChain := chain), x, body)
                  case Refuse(code, data) => TurnedDown(kept, code, data)
                  case Install(y, m) => Response(kept.(sessions := p.sessions[i := y]), m)
  {
    hide IsCapable, Bit, Version, DhePubKeySize, SignAnswer, KexBody, MutAuthAsked;
    Queries(p, false);
    var freed := p.(latestSessionId := id, sessions := p.sessions[i := FreshSession(0, false)]);
    var chain := InSlot(p.local, if req[3] == 0xFF then p.local.provisionedSlot else req[3]);
    SameVersion(p, freed);
    SameVersion(p, freed.(localChain := chain));
    assert [] + req == req;
  }

  /** The guards of FINISH, in order, each with its ERROR. */
  lemma FinishGuards(cr: Crypto, p: Context, req: seq<byte>, inSession: Option<u32>, reqSlot: byte)
    requires |req| >= 4
    ensures var r := HandleFinish(cr, p, Normal, req, inSession, reqSlot);
            var f := FlagsOf(p, false);
            var found := FindSession(p.sessions, if inSession.Some? then inSession.value else p.latestSessionId);
            var h := HashSize(p.algorithms.baseHash);
            if !f.Both(9) then r == TurnedDown(p, 0x07, 0xE4)
            else if p.state !in {Negotiated, AfterDigests, AfterCertificate, Authenticated} then
              r == TurnedDown(p, 0x04, 0)
            else if f.Both(15) == inSession.Some? || found.None? || p.sessions[found.value].phase != Handshaking
                 then r == TurnedDown(p, 0x01, 0)
            else
              var x := p.sessions[found.value];
              var sig := if x.mutAuthRequested != 0 then SignatureSize(p.algorithms.reqBaseAsym) else 0;
              if (x.mutAuthRequested != 0) != (req[2] != 0) || |req| != 4 + sig + h
                 || (req[3] != 0xFF && req[3] != reqSlot)
                 || (req[3] != 0xFF && req[3] >= p.local.slotCount)
              then r == TurnedDown(p, 0x01, 0)
              else r.ctx == p.(sessions := p.sessions[found.value := r.ctx.sessions[found.value]])
  {
    hide IsCapable, Bit, Version, FindSession, VerifyRequest, HashSize, SignatureSize;
    Queries(p, false);
  }

  /** In another state both handlers say so. */
  lemma SessionHandlersNotNow(cr: Crypto, p: Context, mode: ResponseState, req: seq<byte>, e: KexEnv,
                              inSession: Option<u32>, reqSlot: byte)
    requires |req| >= 4 && mode != Normal
    ensures HandleKeyExchange(cr, p, mode, req, e) == NotNow(p, mode, req[1], 0)
    ensures HandleFinish(cr, p, mode, req, inSession, reqSlot) == NotNow(p, mode, req[1], 0)
  {
    hide NotNow;
  }

  /**
   Once FINISH_RSP is on its way, the session it belongs to is established: the one the request came in, or in the clear
   the latest one. Nothing else changes.
   */
  lemma SendingEstablishes(p: Context, message: seq<byte>, inSession: Option<u32>)
    ensures var found := FindSession(p.sessions, if inSession.Some? then inSession.value else p.latestSessionId);
            AfterSending(p, message, inSession) ==
              if |message| >= 2 && message[1] == 0x65 && FlagsOf(p, false).Both(15) != inSession.Some? && found.Some?
              then p.(sessions := p.sessions[found.value := p.sessions[found.value].(phase := Established)]) else p
  {
    hide IsCapable, Bit, FindSession;
    Queries(p, false);
  }

  /** What FINISH is signed, MACed and hashed over before its own bytes, as the responder sees it. */
  ghost function OwnPrefix(cr: Crypto, p: Context, x: Session): seq<byte> {
    var h := HashSize(p.algorithms.baseHash);
    p.messageA + cr.hash(p.algorithms.baseHash, Certificates(p.localChain, h)) + x.messageK
    + (if x.mutAuthRequested != 0 then cr.hash(p.algorithms.baseHash, Certificates(Known(p), h)) else [])
  }

  /** FINISH_RSP: a header, and in the clear the MAC over everything before it. */
  ghost function FinishAnswerBytes(cr: Crypto, p: Context, x: Session, req: seq<byte>): seq<byte> {
    var header: seq<byte> := [0x11, 0x65, 0, 0];
    if FlagsOf(p, false).Both(15)
    then header + cr.hmac(p.algorithms.baseHash, x.keys.responseFinished, OwnPrefix(cr, p, x) + (req + header))
    else header
  }

  lemma OwnPrefixIs(cr: Crypto, p: Context, x: Session, f: seq<byte>)
    requires p.localChain != [] && (x.mutAuthRequested != 0 ==> Known(p) != [])
    ensures LocalChainData(p).Some?
    ensures x.mutAuthRequested != 0 ==>
              PeerChainData(p) == Some(Certificates(Known(p), HashSize(p.algorithms.baseHash)))
    ensures OwnFinishHead(cr, p, x.(messageF := f)) == OwnPrefix(cr, p, x)
  {
    hide HashSize;
  }

  lemma NoOwnPrefix(cr: Crypto, p: Context, x: Session, m: bool)
    requires !x.usePsk && (p.localChain == [] || (m && Known(p) == []))
    ensures TH2DataWith(cr, p, x, false, m).None?
  {
  }

  /**
   A FINISH request of the right size is accepted exactly when its signature, if mutual authentication was asked for,
   and its MAC are right over the responder's own transcript, and data keys can be derived. Then F holds request and
   response. Otherwise F holds what was right, and the ERROR tells a wrong signature or MAC from keys that fail.
   */
  lemma FinishHandled(cr: Crypto, p: Context, x: Session, req: seq<byte>, sig: nat)
    requires |p.messageA| <= 0x100 && !x.usePsk && x.messageF == [] && |x.messageK| <= 2792
    requires |req| == 4 + sig + HashSize(p.algorithms.baseHash) && sig <= 512 && (x.mutAuthRequested == 0 ==> sig == 0)
    ensures var r := VerifyRequest(cr, p, x, req, sig);
            var prefix := OwnPrefix(cr, p, x);
            var rsp := FinishAnswerBytes(cr, p, x, req);
            SizeLaws(cr) ==>
              r == if x.mutAuthRequested != 0
                      && !(p.localChain != [] && Known(p) != []
                           && cr.reqVerify(p.algorithms.reqBaseAsym, p.algorithms.baseHash,
                                           Certificates(Known(p), HashSize(p.algorithms.baseHash)),
                                           prefix + req[..4], req[4..4 + sig]))
                   then Reject(x.(messageF := req[..4]), 0x06, 0)
                   else if p.localChain == []
                           || req[4 + sig..] != cr.hmac(p.algorithms.baseHash, x.keys.requestFinished,
                                                        prefix + req[..4 + sig])
                   then Reject(x.(messageF := req[..4 + sig]), 0x06, 0)
                   else if !cr.dataKeys(p.algorithms.baseHash, x.secret,
                                        cr.hash(p.algorithms.baseHash, prefix + (req + rsp)))
                   then Reject(x.(messageF := req + rsp), 0x01, 0)
                   else Conclusion(x.(messageF := req + rsp), rsp)
  {
    hide SizeLaws, HashSize, Bit, IsCapable, ResponderInTheClear, TH2Data, TH2DataWith, OwnPrefix, OwnFinishHead, Known,
         AnswerFinish, LocalChainData, PeerChainData;
    if SizeLaws(cr) {
      var b1 := x.(messageF := req[..4]);
      assert [] + req[..4] == req[..4] && req[..4] + req[4..4 + sig] == req[..4 + sig];
      assert req[..4 + sig] + req[4 + sig..] == req;
      assert sig == 0 ==> req[..4 + sig] == req[..4] && req[4 + sig..] == req[4..];
      if p.localChain != [] && (x.mutAuthRequested != 0 ==> Known(p) != []) {
        TH2Of(cr, p, x, req[..4]);
        TH2Of(cr, p, x, req[..4 + sig]);
        SignedMutually(cr, p, b1);
        OwnPrefixIs(cr, p, x, []);
        AnswersFinish(cr, p, x, req);
      } else {
        NoOwnPrefix(cr, p, b1, true);
        NoTH2(cr, p, b1);
        NoTH2(cr, p, x.(messageF := req[..4 + sig]));
        if x.mutAuthRequested == 0 {
          NoOwnPrefix(cr, p, b1, false);
        }
      }
    }
  }

  lemma NoTH2(cr: Crypto, p: Context, x: Session)
    requires !x.usePsk && (p.localChain == [] || (x.mutAuthRequested != 0 && Known(p) == []))
    ensures TH2Data(cr, p, x, false).None?
  {
    NoOwnPrefix(cr, p, x, x.mutAuthRequested != 0);
  }

  lemma TH2Of(cr: Crypto, p: Context, x: Session, f: seq<byte>)
    requires SizeLaws(cr) && |p.messageA| <= 0x100 && !x.usePsk && |x.messageK| <= 2792 && |f| <= 648
    requires p.localChain != [] && (x.mutAuthRequested != 0 ==> Known(p) != [])
    ensures TH2Data(cr, p, x.(messageF := f), false) == Some(OwnPrefix(cr, p, x) + f)
  {
    hide SizeLaws, HashSize, TH2Data, OwnPrefix, OwnFinishHead, Known;
    LongestTranscript();
    OwnPrefixIs(cr, p, x, f);
    OwnTH2(cr, p, x.(messageF := f));
  }

  lemma AnswersFinish(cr: Crypto, p: Context, x: Session, req: seq<byte>)
    requires SizeLaws(cr) && |p.messageA| <= 0x100 && !x.usePsk && |x.messageK| <= 2792 && 4 <= |req| <= 4 + 512 + 64
    requires p.localChain != [] && (x.mutAuthRequested != 0 ==> Known(p) != [])
    ensures var r := AnswerFinish(cr, p, x.(messageF := req));
            var rsp := FinishAnswerBytes(cr, p, x, req);
            r == if cr.dataKeys(p.algorithms.baseHash, x.secret,
                                cr.hash(p.algorithms.baseHash, OwnPrefix(cr, p, x) + (req + rsp)))
                 then Conclusion(x.(messageF := req + rsp), rsp) else Reject(x.(messageF := req + rsp), 0x01, 0)
  {
    hide SizeLaws, HashSize, Bit, IsCapable, TH2Data, OwnPrefix, Known;
    Queries(p, false);
    var header: seq<byte> := [0x11, 0x65, 0, 0];
    TH2Of(cr, p, x, req + header);
    var mac := cr.hmac(p.algorithms.baseHash, x.keys.responseFinished, OwnPrefix(cr, p, x) + (req + header));
    MacSize(cr, p.algorithms.baseHash, x.keys.responseFinished, OwnPrefix(cr, p, x) + (req + header));
    assert req + header + mac == req + (header + mac);
    TH2Of(cr, p, x, req + (header + mac));
  }
}
