/**
 When the requests that set up and end a session succeed and what they leave in it, in the bytes of the messages: each
 is an equivalence over every context with a coherent table and every reply.
 */
module ExactSessions {
  import opened Bytes
  import opened Spdm
  import opened Crypto
  import opened ManagedBuffers
  import opened DeviceContext
  import opened Exchanges
  import opened ConnectionRequester
  import opened SessionTable
  import opened TranscriptHash
  import opened SessionRequester
  import opened SessionCalls
  import opened SessionEffects
  import opened SessionGating
  import opened SessionRuns
  import opened SessionTheorems
  import opened SessionCapacity
  import opened Meaning
  import opened ExactConnection

  // ---------- What requests and responses carry besides their fields ----------

  /** The opaque data of a request: the supported-version element for secured messages 1.1, if they are supported. */
  function OfferedVersions(l: Local): seq<byte> {
    if l.securedVersionCount == 0 then []
    else [0x46, 0x54, 0x4D, 0x44, 0x01, 0x01, 0, 0, 0, 0, 0x05, 0, 0x01, 0x01, 0x01, 0x00, 0x11, 0, 0, 0]
  }

  /** The opaque data of a response selects version 1.1 of secured messages, or does not matter. */
  predicate SelectsVersion(l: Local, m: seq<byte>) {
    l.securedVersionCount == 0
    || (|m| == 16 && m[0] == 0x46 && m[1] == 0x54 && m[2] == 0x4D && m[3] == 0x44 && m[4] == 0x01 && m[5] == 0x01
        && m[6] == 0 && m[7] == 0 && m[8] == 0 && m[9] == 0 && m[10] == 0x04 && m[11] == 0 && m[12] == 0x01
        && m[13] == 0
        && m[15] == 0x11)
  }

  lemma OpaqueDataIs(l: Local, m: seq<byte>)
    ensures SupportedVersionOpaque(l) == OfferedVersions(l)
    ensures VersionSelectionOk(l, m) <==> SelectsVersion(l, m)
  {
    if |m| == 16 {
      var head: seq<byte> := [0x46, 0x54, 0x4D, 0x44, 1, 1, 0, 0, 0, 0, 4, 0, 1, 0];
      assert |m[..14]| == 14;
      if SelectsVersion(l, m) && l.securedVersionCount != 0 {
        assert m[..14] == head;
      }
      if m[..14] == head {
        assert forall i :: 0 <= i < 14 ==> m[i] == m[..14][i] == head[i];
      }
    }
  }

  /** KEY_EXCHANGE as it lies on the wire. */
  function KeyExchangeQuestion(s: Context, hashType: byte, slot: byte, half: u16, random: Nonce,
                               share: seq<byte>): seq<byte> {
    [0x11, 0xE4, hashType, slot] + Le16(half) + [0, 0] + random + share
    + Le16(|OfferedVersions(s.local)|) + OfferedVersions(s.local)
  }

  /** The requester half that goes with the first free slot of a coherent table. */
  lemma HalfOfFreeSlot(sessions: Slots)
    requires Coherent(sessions)
    ensures Full(sessions) <==> AllocateRequesterHalf(sessions) == 0
    ensures !Full(sessions) ==>
              var i := 0xFFFF - AllocateRequesterHalf(sessions);
              0 <= i < MAX_SESSIONS && sessions[i].id == 0 && forall j :: 0 <= j < i ==> sessions[j].id != 0
  {
    var free := FreeHalfFrom(sessions, RequesterHalf, 0);
    if free.Some? {
      assert sessions[free.value].id == 0;
    }
  }

  // ---------- KEY_EXCHANGE ----------

  /** The guards, and a response that gets to be judged. */
  ghost predicate KexGetsAnswer(s: Context, slot: byte, x: KexInput) {
    var o := LongOutcome(x.reply, 0x64, 2218);
    && FlagsOf(s, true).Both(9) && s.state in {Negotiated, AfterDigests, AfterCertificate, Authenticated}
    && (slot < 8 || (slot == 0xFF && s.local.peerChain != []))
    && o.Answer? && 40 <= |o.message| <= 2218
    && (if o.message[6] != 0 then o.message[7] == 0xF || o.message[7] < s.local.slotCount else o.message[7] == 0)
  }

  lemma KexAnsweredMeans(s: Context, slot: byte, x: KexInput)
    ensures KexAnswered(s, slot, x) <==> KexGetsAnswer(s, slot, x)
  {
    hide IsCapable, Bit;
    Queries(s, true);
  }

  /** The sizes a KEY_EXCHANGE_RSP is cut by: public key, summary hash, signature and MAC. */
  datatype Cuts = Cuts(d: nat, g: nat, sig: nat, mac: nat)

  ghost function CutsOf(s: Context, hashType: byte): Cuts {
    Cuts(DhePubKeySize(s.algorithms.dhe), SummarySize(s, hashType), SignatureSize(s.algorithms.baseAsym),
         if FlagsOf(s, true).Both(15) then 0 else HashSize(s.algorithms.baseHash))
  }

  lemma LayoutMeans(s: Context, hashType: byte)
    ensures var c := CutsOf(s, hashType);
            KexLayoutOf(s, hashType) == KexLayout(c.d, c.g, c.sig, c.mac)
    ensures InTheClear(s) <==> FlagsOf(s, true).Both(15)
  {
    hide IsCapable, Bit, SummarySize, SummaryHashSize;
    Queries(s, true);
    SummarySizeIs(s, hashType);
  }

  /** Where the signed part of the response ends: behind its opaque data. */
  ghost function KexEnd(s: Context, hashType: byte, m: seq<byte>): nat {
    var c := CutsOf(s, hashType);
    var n := 42 + c.d + c.g;
    if |m| < n then n else n + At16(m, n - 2) as int
  }

  /** The response has its opaque data within bounds, and a signature and a MAC behind it. */
  ghost predicate KexWellFormed(s: Context, hashType: byte, m: seq<byte>) {
    var c := CutsOf(s, hashType);
    var n := 42 + c.d + c.g;
    var end := KexEnd(s, hashType, m);
    n <= |m| && end <= n + 1024 && end + c.sig + c.mac <= |m| && SelectsVersion(s.local, m[n..end])
  }

  /**
   What the signature of KEY_EXCHANGE_RSP is made over: A, the digest of the responder's certificates, and K up to here.
   */
  ghost function ExchangeBytes(cr: Crypto, s: Context, k: seq<byte>): seq<byte> {
    s.messageA + cr.hash(s.algorithms.baseHash, Certificates(Known(s), HashSize(s.algorithms.baseHash))) + k
  }

  /** The keys of the exchange: from the shared secret and the hash over everything including the signature. */
  ghost predicate KexKeys(cr: Crypto, s: Context, share: seq<byte>, peerShare: seq<byte>, k: seq<byte>,
                          secret: seq<byte>, keys: Keys) {
    && cr.dheSecret(s.algorithms.dhe, share, peerShare) == Some(secret)
    && cr.handshakeKeys(s.algorithms.baseHash, secret, cr.hash(s.algorithms.baseHash, ExchangeBytes(cr, s, k)))
         == Some(keys)
  }

  /** The session a well-formed response leads to. */
  ghost predicate KexSession(cr: Crypto, s: Context, hashType: byte, question: seq<byte>, share: seq<byte>,
                             m: seq<byte>, y: Session)
    requires KexWellFormed(s, hashType, m)
  {
    var c := CutsOf(s, hashType);
    var end := KexEnd(s, hashType, m);
    var signature := m[end..end + c.sig];
    var k := question + m[..end];
    && Known(s) != []
    && cr.verify(s.algorithms.baseAsym, s.algorithms.baseHash, Certificates(Known(s), HashSize(s.algorithms.baseHash)),
                 ExchangeBytes(cr, s, k), signature)
    && KexKeys(cr, s, share, m[40..40 + c.d], k + signature, y.secret, y.keys)
    && (FlagsOf(s, true).Both(15)
        || m[end + c.sig..end + c.sig + c.mac]
             == cr.hmac(s.algorithms.baseHash, y.keys.responseFinished, ExchangeBytes(cr, s, k + signature)))
    && y.messageK == question + m[..end + c.sig + c.mac] && y.messageF == []
    && y.phase == Handshaking && !y.usePsk && y.mutAuthRequested == m[6]
  }

  lemma HeadIs(cr: Crypto, s: Context, k: seq<byte>)
    requires Known(s) != []
    ensures PeerChainData(s) == Some(Certificates(Known(s), HashSize(s.algorithms.baseHash)))
    ensures Head(cr, s) + k == ExchangeBytes(cr, s, k)
  {
    hide HashSize;
  }

  /**
   A response is cut into the signed part, the signature and the MAC when it is well formed, and not accepted otherwise.
   */
  lemma VerdictCuts(cr: Crypto, s: Context, id: u32, hashType: byte, question: seq<byte>, share: seq<byte>,
                    m: seq<byte>)
    requires |m| >= 40
    ensures var v := UnboundedVerdict(cr, s, id, hashType, question, share, m);
            var c := CutsOf(s, hashType);
            var end := KexEnd(s, hashType, m);
            if KexWellFormed(s, hashType, m) then
              var x := FreshSession(id, false).(messageK := question + m[..end], mutAuthRequested := m[6]);
              v == UnboundedSignature(cr, s, x, share, m[40..40 + c.d], m[end..end + c.sig],
                                      m[end + c.sig..end + c.sig + c.mac])
            else !v.Accepted? && (v.Rejected? ==> v.status != Success)
  {
    hide SummarySize, SummaryHashSize, DhePubKeySize, SignatureSize, HashSize, InTheClear, KexLayoutOf, Bit,
         SelectsVersion, VersionSelectionOk, UnboundedSignature;
    LayoutMeans(s, hashType);
    var c := CutsOf(s, hashType);
    var n := 42 + c.d + c.g;
    var end := KexEnd(s, hashType, m);
    if n <= |m| && end <= |m| {
      OpaqueDataIs(s.local, m[n..end]);
      if end + c.sig + c.mac <= |m| {
        var x := FreshSession(id, false).(messageK := question + m[..end], mutAuthRequested := m[6]);
        SignatureExactly(cr, s, x, share, m[40..40 + c.d], m[end..end + c.sig], m[end + c.sig..end + c.sig + c.mac]);
      }
    }
  }

  /** The verdict on a response, with the reference without bounds unfolded. */
  lemma VerdictExactly(cr: Crypto, s: Context, id: u32, hashType: byte, question: seq<byte>, share: seq<byte>,
                       m: seq<byte>)
    requires |m| >= 40
    ensures var v := UnboundedVerdict(cr, s, id, hashType, question, share, m);
            && (v.Accepted? ==>
                  && KexWellFormed(s, hashType, m) && v.session.id == id
                  && KexSession(cr, s, hashType, question, share, m, v.session))
            && (KexWellFormed(s, hashType, m) && (exists y :: KexSession(cr, s, hashType, question, share, m, y)) ==>
                  v.Accepted?)
            && (KexWellFormed(s, hashType, m) ==> !v.Kept? && (v.Rejected? ==> v.status == SecurityViolation))
            && (v.Rejected? ==> v.status != Success)
  {
    hide SummarySize, HashSize, SignatureSize, DhePubKeySize, Bit, UnboundedVerdict, UnboundedSignature, KexWellFormed,
         KexEnd, ExchangeBytes, KexKeys, Certificates, Known;
    VerdictCuts(cr, s, id, hashType, question, share, m);
    if KexWellFormed(s, hashType, m) {
      var c := CutsOf(s, hashType);
      var end := KexEnd(s, hashType, m);
      assert end + c.sig + c.mac <= |m| && 42 + c.d <= |m| by { WellFormedFits(s, hashType, m); }
      var x := FreshSession(id, false).(messageK := question + m[..end], mutAuthRequested := m[6]);
      SignatureExactly(cr, s, x, share, m[40..40 + c.d], m[end..end + c.sig], m[end + c.sig..end + c.sig + c.mac]);
      CutsInFour(question, m, end, c.sig, c.mac);
      assert FlagsOf(s, true).Both(15) ==> m[..end + c.sig + c.mac] == m[..end + c.sig];
      assert question + m[..end] + m[end..end + c.sig] == question + m[..end + c.sig];
    }
  }

  lemma WellFormedFits(s: Context, hashType: byte, m: seq<byte>)
    requires KexWellFormed(s, hashType, m)
    ensures var c := CutsOf(s, hashType);
            KexEnd(s, hashType, m) + c.sig + c.mac <= |m| && 42 + c.d <= |m|
  {
  }

  /** The three gates. */
  lemma SignatureExactly(cr: Crypto, s: Context, x: Session, share: seq<byte>, peerShare: seq<byte>,
                         signature: seq<byte>, mac: seq<byte>)
    requires x.messageF == [] && !x.usePsk
    ensures var v := UnboundedSignature(cr, s, x, share, peerShare, signature, mac);
            var k := x.messageK + signature;
            && (v.Accepted? <==>
                  && Known(s) != []
                  && cr.verify(s.algorithms.baseAsym, s.algorithms.baseHash,
                               Certificates(Known(s), HashSize(s.algorithms.baseHash)),
                               ExchangeBytes(cr, s, x.messageK), signature)
                  && exists secret, keys :: KexKeys(cr, s, share, peerShare, k, secret, keys)
                       && (FlagsOf(s, true).Both(15)
                           || mac == cr.hmac(s.algorithms.baseHash, keys.responseFinished, ExchangeBytes(cr, s, k))))
            && (v.Accepted? ==>
                  var y := v.session;
                  && KexKeys(cr, s, share, peerShare, k, y.secret, y.keys)
                  && (FlagsOf(s, true).Both(15)
                      || mac == cr.hmac(s.algorithms.baseHash, y.keys.responseFinished, ExchangeBytes(cr, s, k)))
                  && y.messageK == (if FlagsOf(s, true).Both(15) then k else k + mac)
                  && y.id == x.id && y.messageF == [] && y.phase == Handshaking && !y.usePsk
                  && y.mutAuthRequested == x.mutAuthRequested)
            && (v.Rejected? ==> v.status == SecurityViolation) && !v.Kept?
  {
    hide HashSize, InTheClear, Bit;
    LayoutMeans(s, 0);
    var k := x.messageK + signature;
    if Known(s) != [] {
      HeadIs(cr, s, x.messageK);
      HeadIs(cr, s, k);
      assert Head(cr, s) + x.messageK + signature == Head(cr, s) + k;
      var v := UnboundedSignature(cr, s, x, share, peerShare, signature, mac);
      if v.Accepted? {
        assert KexKeys(cr, s, share, peerShare, k, v.session.secret, v.session.keys);
      }
    }
  }

  /** None of this reads the last-error word. */
  lemma ExchangeIgnoresError(cr: Crypto, s: Context, hashType: byte, question: seq<byte>, share: seq<byte>,
                             m: seq<byte>)
    ensures var s0 := s.(errorState := NoCapabilities);
            && (KexWellFormed(s0, hashType, m) <==> KexWellFormed(s, hashType, m))
            && (KexWellFormed(s, hashType, m) ==>
                  forall y :: KexSession(cr, s0, hashType, question, share, m, y) <==>
                    KexSession(cr, s, hashType, question, share, m, y))
  {
    hide HashSize, SignatureSize, DhePubKeySize, SelectsVersion, Bit;
    var s0 := s.(errorState := NoCapabilities);
    assert CutsOf(s0, hashType) == CutsOf(s, hashType) && Known(s0) == Known(s);
    forall k ensures ExchangeBytes(cr, s0, k) == ExchangeBytes(cr, s, k) {
    }
  }

  lemma QuestionIsSent(s: Context, hashType: byte, slot: byte, half: u16, random: Nonce, share: seq<byte>)
    ensures KeyExchangeRequest(s, hashType, slot, half, random, share)
              == KeyExchangeQuestion(s, hashType, slot, half, random, share)
  {
    hide SupportedVersionOpaque, OfferedVersions;
    OpaqueDataIs(s.local, []);
  }

  /**
   KEY_EXCHANGE succeeds exactly when the response is well formed, its signature verifies over A, the digest of the
   responder's certificates and K, keys can be derived, and the MAC is right or not due. Then the first free slot holds
   the session, and nothing else has changed. A well-formed response without these is a security violation, and the
   slot is free again.
   */
  lemma KeyExchangeExactly(cr: Crypto, s: Context, hashType: byte, slot: byte, x: KexInput)
    requires Coherent(s.sessions) && |s.messageA| <= 0x100
    ensures var r := TryKeyExchange(cr, s, hashType, slot, x);
            var half := AllocateRequesterHalf(s.sessions);
            var share := cr.dheShare(s.algorithms.dhe, x.seed);
            var q := KeyExchangeQuestion(s, hashType, slot, half, x.random, share);
            SizeLaws(cr) ==>
              if KexGetsAnswer(s, slot, x) && !Full(s.sessions) then
                var m := LongOutcome(x.reply, 0x64, 2218).message;
                var i := 0xFFFF - half;
                && 0 <= i < MAX_SESSIONS
                && (r.status == Success <==>
                      KexWellFormed(s, hashType, m) && exists y :: KexSession(cr, s, hashType, q, share, m, y))
                && (r.status == Success ==>
                      var y := r.ctx.sessions[i];
                      && KexWellFormed(s, hashType, m) && KexSession(cr, s, hashType, q, share, m, y)
                      && y.id == half * 0x1_0000 + At16(m, 4) as int == r.out.sessionId && r.out.reqSlotParam == m[7]
                      && r.ctx == s.(sessions := s.sessions[i := y], latestSessionId := y.id, errorState := NoError))
                && (r.status != Success && KexWellFormed(s, hashType, m) ==>
                      r.status == SecurityViolation && r.ctx.sessions == s.sessions[i := FreshSession(0, false)])
              else
                && r.status != Success && r.ctx.sessions == s.sessions
                && (KexGetsAnswer(s, slot, x) ==> r.status == DeviceError && r.ctx == s.(errorState := NoCapabilities))
  {
    hide SizeLaws, VerdictOn, UnboundedVerdict, KexAnswered, KexGetsAnswer, AllocateRequesterHalf, AssignSlot, Full,
         KeyExchangeRequest, KeyExchangeQuestion, Coherent, KexWellFormed, KexSession, TryKeyExchange;
    if SizeLaws(cr) {
      var half := AllocateRequesterHalf(s.sessions);
      var share := cr.dheShare(s.algorithms.dhe, x.seed);
      var q := KeyExchangeQuestion(s, hashType, slot, half, x.random, share);
      var s0 := s.(errorState := NoCapabilities);
      KexAnsweredMeans(s, slot, x);
      KeyExchangeEffect(cr, s, hashType, slot, x);
      QuestionIsSent(s, hashType, slot, half, x.random, share);
      KexRequestSize(cr, s, hashType, slot, half, x.random, x.seed);
      FullTurnsDown(cr, s, hashType, slot, x);
      if KexGetsAnswer(s, slot, x) && !Full(s.sessions) {
        AnswerIsSized(s, slot, x);
        var m := LongOutcome(x.reply, 0x64, 2218).message;
        var id := SessionIdOf(half, At16(m, 4));
        AllocatorAndAssignerAgree(s.sessions, At16(m, 4), false);
        VerdictFits(cr, s0, id, hashType, q, share, m);
        VerdictExactly(cr, s0, id, hashType, q, share, m);
        ExchangeIgnoresError(cr, s, hashType, q, share, m);
        KexFrameExactly(cr, s, hashType, slot, x);
      }
    }
  }

  lemma FullTurnsDown(cr: Crypto, s: Context, hashType: byte, slot: byte, x: KexInput)
    requires Coherent(s.sessions)
    ensures var r := TryKeyExchange(cr, s, hashType, slot, x);
            KexAnswered(s, slot, x) && Full(s.sessions) ==>
              r.status == DeviceError && r.ctx == s.(errorState := NoCapabilities)
  {
    hide VerdictOn, IsCapable, AllocateRequesterHalf, AssignSlot, ReqSlotOk, KeyExchangeRequest, Full, Coherent;
    if KexAnswered(s, slot, x) && Full(s.sessions) {
      FullTableRefuses(s.sessions, At16(LongOutcome(x.reply, 0x64, 2218).message, 4));
    }
  }

  lemma AnswerIsSized(s: Context, slot: byte, x: KexInput)
    requires KexGetsAnswer(s, slot, x)
    ensures var o := LongOutcome(x.reply, 0x64, 2218);
            o.Answer? && 40 <= |o.message| <= 2218
  {
  }

  /** What a KEY_EXCHANGE attempt touches besides the table. */
  lemma KexFrameExactly(cr: Crypto, s: Context, hashType: byte, slot: byte, x: KexInput)
    ensures var r := TryKeyExchange(cr, s, hashType, slot, x);
            r.status == Success ==>
              var o := LongOutcome(x.reply, 0x64, 2218);
              && o.Answer? && |o.message| >= 40 && r.out.reqSlotParam == o.message[7]
              && r.ctx == s.(sessions := r.ctx.sessions, latestSessionId := r.out.sessionId, errorState := NoError)
  {
    hide VerdictOn, IsCapable, AllocateRequesterHalf, AssignSlot, ReqSlotOk, KeyExchangeRequest;
    var o := LongOutcome(x.reply, 0x64, 2218);
    if o.Answer? && |o.message| >= 40 {
      var share := cr.dheShare(s.algorithms.dhe, x.seed);
      var half := AllocateRequesterHalf(s.sessions);
      VerdictIsGated(cr, s.(errorState := NoCapabilities), SessionIdOf(half, At16(o.message, 4)), hashType,
                     KeyExchangeRequest(s, hashType, slot, half, x.random, share), share, o.message);
    }
  }

  // ---------- FINISH ----------

  /** The chain the requester authenticates with, in the slot FINISH names. */
  ghost function ChainInSlot(s: Context, param: byte): seq<byte> {
    var i: nat := if param == 0xFF then s.local.provisionedSlot else param;
    if i < |s.local.chains| && s.local.chains[i].Chain? then s.local.chains[i].bytes else []
  }

  /**
   What FINISH signs, MACs and hashes before its own bytes: A, the responder's digest, K, and the requester's digest if
   asked for.
   */
  ghost function FinishPrefix(cr: Crypto, s: Context, x: Session, param: byte): seq<byte> {
    var h := HashSize(s.algorithms.baseHash);
    ExchangeBytes(cr, s, x.messageK)
    + (if x.mutAuthRequested != 0 then cr.hash(s.algorithms.baseHash, Certificates(ChainInSlot(s, param), h)) else [])
  }

  /** The guards of FINISH. */
  ghost predicate MayFinish(s: Context, x: Session, param: byte) {
    && FlagsOf(s, true).Both(9) && s.state in {Negotiated, AfterDigests, AfterCertificate, Authenticated}
    && x.phase == Handshaking
    && (if x.mutAuthRequested != 0 then param < s.local.slotCount || param == 0xFF else param == 0)
  }

  ghost function FinishQuestionHead(x: Session, param: byte): seq<byte> {
    if x.mutAuthRequested != 0 then [0x11, 0xE5, 1, param] else [0x11, 0xE5, 0, 0]
  }

  /**
   The signature of FINISH: none without mutual authentication, and over everything up to the head of the request with
   it.
   */
  ghost function FinishSignature(cr: Crypto, s: Context, x: Session, param: byte): Option<seq<byte>> {
    if x.mutAuthRequested == 0 then Some([])
    else if ChainInSlot(s, param) == [] then None
    else cr.requesterSign(s.algorithms.reqBaseAsym, s.algorithms.baseHash,
                          FinishPrefix(cr, s, x, param) + FinishQuestionHead(x, param))
  }

  /** The whole FINISH request: head, signature and MAC. */
  ghost function FinishQuestion(cr: Crypto, s: Context, x: Session, param: byte, signature: seq<byte>): seq<byte> {
    var signed := FinishQuestionHead(x, param) + signature;
    signed + cr.hmac(s.algorithms.baseHash, x.keys.requestFinished, FinishPrefix(cr, s, x, param) + signed)
  }

  /**
   The response m to the request q completes the handshake: its MAC is right or not due, and data keys come from TH2.
   */
  ghost predicate Completes(cr: Crypto, s: Context, x: Session, param: byte, q: seq<byte>, m: seq<byte>) {
    var clear := FlagsOf(s, true).Both(15);
    && |m| == 4 + (if clear then HashSize(s.algorithms.baseHash) else 0)
    && (clear ==>
          m[4..] == cr.hmac(s.algorithms.baseHash, x.keys.responseFinished,
                            FinishPrefix(cr, s, x, param) + (q + m[..4])))
    && cr.dataKeys(s.algorithms.baseHash, x.secret,
                   cr.hash(s.algorithms.baseHash, FinishPrefix(cr, s, x, param) + (q + m)))
  }

  /** The context FINISH works in, and what its transcripts start with. */
  lemma PrefixIs(cr: Crypto, s: Context, x: Session, param: byte)
    requires Known(s) != [] && !x.usePsk
    ensures var t := WithLocalChain(s.(errorState := NoCapabilities), x, param);
            && (InTheClear(t) <==> FlagsOf(s, true).Both(15))
            && UnboundedTH2(cr, t, x) ==
                 (if x.mutAuthRequested != 0 && ChainInSlot(s, param) == [] then None
                  else Some(FinishPrefix(cr, s, x, param) + x.messageF))
  {
    hide HashSize, IsCapable, Bit;
    var t := WithLocalChain(s.(errorState := NoCapabilities), x, param);
    Queries(t, true);
    HeadIs(cr, t, x.messageK);
    assert ExchangeBytes(cr, t, x.messageK) == ExchangeBytes(cr, s, x.messageK);
    assert FinishPrefix(cr, s, x, param) + [] == FinishPrefix(cr, s, x, param);
  }

  lemma NoPrefix(cr: Crypto, s: Context, x: Session, param: byte)
    requires Known(s) == [] && !x.usePsk
    ensures UnboundedTH2(cr, WithLocalChain(s.(errorState := NoCapabilities), x, param), x).None?
  {
  }

  /** The request that is built, or none. */
  lemma BuildsExactly(cr: Crypto, s: Context, x: Session, param: byte)
    requires !x.usePsk && x.messageF == []
    ensures var b := UnboundedBuild(cr, WithLocalChain(s.(errorState := NoCapabilities), x, param), x,
                                    FinishQuestionHead(x, param));
            var signature := FinishSignature(cr, s, x, param);
            if Known(s) != [] && signature.Some?
            then b == Built(true, x.(messageF := FinishQuestion(cr, s, x, param, signature.value)))
            else !b.complete
  {
    hide HashSize, InTheClear, UnboundedTH2, WithLocalChain, FinishPrefix, ChainInSlot, Known;
    var head := FinishQuestionHead(x, param);
    var t := WithLocalChain(s.(errorState := NoCapabilities), x, param);
    assert t.algorithms == s.algorithms by { AtFinishAlgorithms(s, x, param); }
    assert [] + head == head && head + [] == head;
    if Known(s) != [] {
      SamePrefix(cr, s, x, param, head);
      PrefixIs(cr, s, x.(messageF := head), param);
      SameWithChain(s, x, param, head);
      var signature := FinishSignature(cr, s, x, param);
      if signature.Some? {
        SamePrefix(cr, s, x, param, head + signature.value);
        PrefixIs(cr, s, x.(messageF := head + signature.value), param);
        SameWithChain(s, x, param, head + signature.value);
      }
    } else {
      NoPrefix(cr, s, x.(messageF := head), param);
      SameWithChain(s, x, param, head);
    }
  }

  lemma AtFinishAlgorithms(s: Context, x: Session, param: byte)
    ensures var t := WithLocalChain(s.(errorState := NoCapabilities), x, param);
            t == s.(errorState := NoCapabilities, localChain := t.localChain)
  {
  }

  lemma SamePrefix(cr: Crypto, s: Context, x: Session, param: byte, f: seq<byte>)
    ensures FinishPrefix(cr, s, x.(messageF := f), param) == FinishPrefix(cr, s, x, param)
  {
  }

  lemma SameWithChain(s: Context, x: Session, param: byte, f: seq<byte>)
    ensures WithLocalChain(s.(errorState := NoCapabilities), x.(messageF := f), param)
         == WithLocalChain(s.(errorState := NoCapabilities), x, param)
  {
  }

  /** The judgement on a response to the request q. */
  lemma JudgesExactly(cr: Crypto, s: Context, x: Session, param: byte, q: seq<byte>, m: seq<byte>)
    requires !x.usePsk && x.messageF == [] && |m| >= 4 && Known(s) != [] && x.phase == Handshaking
    requires x.mutAuthRequested != 0 ==> ChainInSlot(s, param) != []
    ensures var t := WithLocalChain(s.(errorState := NoCapabilities), x, param);
            var r := UnboundedJudge(cr, t, x.(messageF := q), m);
            && (r.status == Success <==> Completes(cr, s, x, param, q, m))
            && (r.status == Success ==>
                  r.session == x.(messageF := q + m, phase := Established, macs := r.session.macs))
            && (r.status != Success ==>
                  r.session.phase == Handshaking
                  && r.status
                       == (if |m| == 4 + (if FlagsOf(s, true).Both(15) then HashSize(s.algorithms.baseHash) else 0)
                                  then SecurityViolation else DeviceError))
  {
    hide HashSize, InTheClear, UnboundedTH2, WithLocalChain, FinishPrefix, ChainInSlot, Known, Bit;
    var t := WithLocalChain(s.(errorState := NoCapabilities), x, param);
    AtFinishAlgorithms(s, x, param);
    var f := q + m[..4];
    SamePrefix(cr, s, x, param, f);
    SameWithChain(s, x, param, f);
    PrefixIs(cr, s, x.(messageF := f), param);
    assert m[..4] + m[4..] == m && f + m[4..] == q + m;
    assert |m| == 4 ==> f == q + m;
    var b := x.(messageF := q + m);
    SamePrefix(cr, s, x, param, q + m);
    SameWithChain(s, x, param, q + m);
    PrefixIs(cr, s, b, param);
    var th := FinishPrefix(cr, s, x, param) + f;
    var evidence := AcceptedMac(s.algorithms.baseHash, x.keys.responseFinished, th, m[4..]);
    EvidenceIsHistory(cr, t, b, b.macs + [evidence]);
  }

  lemma EvidenceIsHistory(cr: Crypto, t: Context, b: Session, macs: seq<AcceptedMac>)
    ensures UnboundedTH2(cr, t, b.(macs := macs)) == UnboundedTH2(cr, t, b)
  {
  }

  /**
   FINISH succeeds exactly when the request can be signed and the response completes the handshake. Then the session is
   established with the request and the response in F, and nothing else has changed but the chain the requester used.
   */
  lemma FinishExactly(cr: Crypto, s: Context, id: u32, param: byte, reply: Reply)
    requires |s.messageA| <= 0x100 && FindSession(s.sessions, id).Some?
    requires var x := s.sessions[FindSession(s.sessions, id).value];
             !x.usePsk && x.messageF == [] && |x.messageK| <= 2792
    ensures var r := TryFinish(cr, s, id, param, reply);
            var i := FindSession(s.sessions, id).value;
            var x := s.sessions[i];
            var signature := FinishSignature(cr, s, x, param);
            var o := LongOutcome(reply, 0x65, 68);
            SizeLaws(cr) ==>
              if MayFinish(s, x, param) && Known(s) != [] && signature.Some? && o.Answer? then
                var q := FinishQuestion(cr, s, x, param, signature.value);
                && (r.status == Success <==> Completes(cr, s, x, param, q, o.message))
                && (r.status == Success ==>
                      var y := r.ctx.sessions[i];
                      && y == x.(messageF := q + o.message, phase := Established, macs := y.macs)
                      && r.ctx == s.(sessions := s.sessions[i := y], errorState := NoError,
                                     localChain := if x.mutAuthRequested != 0 then ChainInSlot(s, param)
                                                   else s.localChain))
                && (r.status != Success ==> r.ctx.sessions[i].phase == Handshaking)
              else
                && r.status != Success && r.ctx.sessions[i].phase == x.phase
                && (MayFinish(s, x, param) && Known(s) != [] && signature.Some? && !o.Refused? ==>
                      r.ctx.sessions
                        == s.sessions[i := x.(messageF := FinishQuestion(cr, s, x, param, signature.value))])
  {
    hide SizeLaws, HashSize, InTheClear, FindSession, BuildFinish, JudgeFinish, UnboundedBuild, UnboundedJudge,
         IsCapable, Bit, FinishPrefix, FinishSignature, FinishQuestion, Completes, Known, Shrunk, FinishRequestSize;
    var i := FindSession(s.sessions, id).value;
    var x := s.sessions[i];
    Queries(s, true);
    if SizeLaws(cr) && MayFinish(s, x, param) {
      var t := WithLocalChain(s.(errorState := NoCapabilities), x, param);
      assert FinishHeader(x, param) == FinishQuestionHead(x, param);
      assert MAX_K == 2792 by { LongestTranscript(); }
      BuildFits(cr, t, x, FinishQuestionHead(x, param));
      BuildsExactly(cr, s, x, param);
      var signature := FinishSignature(cr, s, x, param);
      var o := LongOutcome(reply, 0x65, 68);
      if Known(s) != [] && signature.Some? && o.Answer? {
        var q := FinishQuestion(cr, s, x, param, signature.value);
        assert x.mutAuthRequested != 0 ==> ChainInSlot(s, param) != [] by { SignatureNeedsChain(cr, s, x, param); }
        JudgesExactly(cr, s, x, param, q, o.message);
        JudgeFits(cr, t, x.(messageF := q), o.message);
      }
    }
  }

  lemma SignatureNeedsChain(cr: Crypto, s: Context, x: Session, param: byte)
    requires FinishSignature(cr, s, x, param).Some?
    ensures x.mutAuthRequested != 0 ==> ChainInSlot(s, param) != []
  {
  }

  // ---------- PSK_EXCHANGE ----------

  /** PSK_EXCHANGE as it lies on the wire: three lengths, then hint, context and opaque data. */
  function PskQuestion(s: Context, hashType: byte, half: u16, random: PskRandom): seq<byte> {
    [0x11, 0xE6, hashType, 0] + Le16(half) + Le16(|s.local.pskHint| % 0x1_0000) + [64, 0]
      + Le16(|OfferedVersions(s.local)|)
    + s.local.pskHint + random + OfferedVersions(s.local)
  }

  lemma PskQuestionIsSent(s: Context, hashType: byte, half: u16, random: PskRandom)
    ensures PskExchangeRequest(s, hashType, half, random) == PskQuestion(s, hashType, half, random)
  {
    hide SupportedVersionOpaque, OfferedVersions;
    OpaqueDataIs(s.local, []);
    assert Le16(64) == [64, 0];
  }

  /** Its fields, read back. */
  lemma PskQuestionReads(s: Context, hashType: byte, half: u16, random: PskRandom)
    requires |s.local.pskHint| < 0x1_0000
    ensures var m := PskExchangeRequest(s, hashType, half, random);
            var n := |s.local.pskHint|;
            && m[0] == 0x11 && m[1] == 0xE6 && m[2] == hashType && At16(m, 4) == half
            && At16(m, 6) as int == n && At16(m, 8) == 64 && At16(m, 10) as int == |OfferedVersions(s.local)|
            && |m| == 12 + n + 64 + |OfferedVersions(s.local)|
            && m[12..12 + n] == s.local.pskHint && m[12 + n..76 + n] == random
            && m[76 + n..] == OfferedVersions(s.local)
  {
    hide OfferedVersions, PskExchangeRequest;
    PskQuestionIsSent(s, hashType, half, random);
    assert OfferedVersions(s.local) == [] || |OfferedVersions(s.local)| == 20 by { OpaqueDataIs(s.local, []); }
    var n := |s.local.pskHint|;
    var head := [0x11, 0xE6, hashType, 0] + Le16(half) + Le16(n) + [64, 0] + Le16(|OfferedVersions(s.local)|);
    HeadReads(hashType, half, n, |OfferedVersions(s.local)|, s.local.pskHint + random + OfferedVersions(s.local));
    assert PskQuestion(s, hashType, half, random) == head + (s.local.pskHint + random + OfferedVersions(s.local));
  }

  lemma HeadReads(hashType: byte, half: u16, n: u16, k: u16, tail: seq<byte>)
    ensures var m := [0x11, 0xE6, hashType, 0] + Le16(half) + Le16(n) + [64, 0] + Le16(k) + tail;
            && m[0] == 0x11 && m[1] == 0xE6 && m[2] == hashType && At16(m, 4) == half && At16(m, 6) == n
            && At16(m, 8) == 64
            && At16(m, 10) == k && m[12..] == tail
  {
    var m := [0x11, 0xE6, hashType, 0] + Le16(half) + Le16(n) + [64, 0] + Le16(k) + tail;
    At16Within(m, 4, half);
    At16Within(m, 6, n);
    At16Within(m, 10, k);
  }

  /** The guards, and a response that gets to be judged. */
  ghost predicate PskGetsAnswer(s: Context, x: PskInput) {
    var f := FlagsOf(s, true);
    var o := LongOutcome(x.reply, 0x66, 1228);
    && f.BothPsk() && s.state in {Negotiated, AfterDigests, AfterCertificate, Authenticated}
    && (f.Measures() ==> s.algorithms.measurementSpec == 1 && MeasurementHashSize(s.algorithms.measurementHash) != 0)
    && HashSize(s.algorithms.baseHash) != 0 && s.algorithms.keySchedule == 1
    && o.Answer? && 12 <= |o.message| <= 1228
  }

  lemma PskGuardsMean(s: Context, x: PskInput)
    ensures var o := LongOutcome(x.reply, 0x66, 1228);
            MayExchangePsk(s) && PskAlgorithmsOk(s) && o.Answer? && 12 <= |o.message| <= 1228 <==> PskGetsAnswer(s, x)
    ensures NeedsPskFinish(s) <==> FlagsOf(s, true).Responder(11)
  {
    hide IsCapable, Bit, HashSize, MeasurementHashSize;
    Queries(s, true);
  }

  /** Where the authenticated part of the response ends: behind summary hash, responder context and opaque data. */
  ghost function PskEnd(s: Context, hashType: byte, m: seq<byte>): nat
    requires |m| >= 12
  {
    12 + SummarySize(s, hashType) + At16(m, 8) as int + At16(m, 10) as int
  }

  /** The response is complete, selects a version if it must, and there is room for the exchange. */
  ghost predicate PskWellFormed(s: Context, hashType: byte, q: seq<byte>, m: seq<byte>)
    requires |m| >= 12
  {
    var end := PskEnd(s, hashType, m);
    var h := HashSize(s.algorithms.baseHash);
    && end + h <= |m| && SelectsVersion(s.local, m[end - At16(m, 10) as int..end])
    && |q| + end + h <= 0x1200 && |s.messageA| + |q| + end <= 0x1200
  }

  /** The session a well-formed response leads to: its MAC is made with keys from the PSK over A and K. */
  ghost predicate PskSession(cr: Crypto, s: Context, hashType: byte, q: seq<byte>, m: seq<byte>, y: Session)
    requires |m| >= 12 && PskWellFormed(s, hashType, q, m)
  {
    var end := PskEnd(s, hashType, m);
    var h := HashSize(s.algorithms.baseHash);
    var th := s.messageA + (q + m[..end]);
    && y.secret == cr.psk(s.local.pskHint)
    && cr.handshakeKeys(s.algorithms.baseHash, y.secret, cr.hash(s.algorithms.baseHash, th)) == Some(y.keys)
    && m[end..end + h] == cr.hmac(s.algorithms.baseHash, y.keys.responseFinished, th)
    && y.messageK == q + m[..end + h] && y.messageF == [] && y.usePsk && y.phase == Handshaking
  }

  lemma PskVerdictExactly(cr: Crypto, s: Context, id: u32, hashType: byte, q: seq<byte>, m: seq<byte>)
    requires |m| >= 12 && |q| <= 0x1200
    ensures var v := JudgePskExchange(cr, s, FreshSession(id, true).(messageK := q), hashType, m);
            && (v.PskAccepted? ==>
                  && PskWellFormed(s, hashType, q, m) && v.session.id == id
                  && PskSession(cr, s, hashType, q, m, v.session))
            && (PskWellFormed(s, hashType, q, m) && (exists y :: PskSession(cr, s, hashType, q, m, y)) ==>
                  v.PskAccepted?)
            && (v.PskRejected? ==> v.status != Success && v.status != NoResponse)
  {
    hide SummarySize, SummaryHashSize, HashSize, SelectsVersion, VersionSelectionOk;
    SummarySizeIs(s, hashType);
    var end := PskEnd(s, hashType, m);
    var h := HashSize(s.algorithms.baseHash);
    if end + h <= |m| {
      OpaqueDataIs(s.local, m[end - At16(m, 10) as int..end]);
      var k := q + m[..end];
      assert k + m[end..end + h] == q + m[..end + h];
      assert s.messageA + [] + k == s.messageA + k;
    }
  }

  /** A response m to the request q, for the slot i that is free. */
  ghost predicate PskEnds(cr: Crypto, s: Context, hashType: byte, q: seq<byte>, m: seq<byte>, i: nat, r: Step<u32>)
    requires |m| >= 12 && i < MAX_SESSIONS
  {
    && (r.status == Success <==>
          PskWellFormed(s, hashType, q, m) && exists y :: PskSession(cr, s, hashType, q, m, y) && PskDone(cr, s, y))
    && (r.status == Success ==>
          var y := r.ctx.sessions[i].(phase := Handshaking);
          && PskWellFormed(s, hashType, q, m) && PskSession(cr, s, hashType, q, m, y) && y.id == r.out
          && r.ctx.sessions[i].phase == (if FlagsOf(s, true).Responder(11) then Handshaking else Established)
          && r.ctx == s.(sessions := s.sessions[i := r.ctx.sessions[i]], latestSessionId := y.id,
                         errorState := NoError))
  }

  lemma PskResponseExactly(cr: Crypto, s: Context, hashType: byte, half: u16, q: seq<byte>, m: seq<byte>)
    requires 12 <= |m| <= 1228 && |q| <= 0x1200
    requires AssignSlot(s.sessions, SessionIdOf(half, At16(m, 4))).Some?
    ensures var i := AssignSlot(s.sessions, SessionIdOf(half, At16(m, 4))).value;
            var r := HandlePskResponse(cr, s.(errorState := NoCapabilities), hashType, half, q, m);
            r.out == SessionIdOf(half, At16(m, 4)) && PskEnds(cr, s, hashType, q, m, i, r)
  {
    hide HashSize, SummarySize, Bit, AssignSlot, JudgePskExchange, PskWellFormed, PskSession, Conclude, PskDone,
         NeedsPskFinish, FlagsOf;
    var s0 := s.(errorState := NoCapabilities);
    var id := SessionIdOf(half, At16(m, 4));
    assert [] + q == q;
    PskVerdictExactly(cr, s0, id, hashType, q, m);
    PskIgnoresError(cr, s, hashType, q, m);
    var v := JudgePskExchange(cr, s0, FreshSession(id, true).(messageK := q), hashType, m);
    if v.PskAccepted? {
      ConcludesExactly(cr, s, v.session, hashType, q, m);
    }
    PskSessionsAgree(cr, s, hashType, q, m);
    SameNeedOf(s, s0);
    NeedMeans(s);
  }

  /**
   PSK_EXCHANGE succeeds exactly when the response is well formed, keys can be derived from the PSK and its MAC is
   right, and, where no PSK_FINISH follows, data keys can be derived too. K then starts with the request.
   */
  lemma PskExchangeExactly(cr: Crypto, s: Context, hashType: byte, x: PskInput)
    requires Coherent(s.sessions)
    ensures var r := TryPskExchange(cr, s, hashType, x);
            var half := AllocateRequesterHalf(s.sessions);
            var q := PskQuestion(s, hashType, half, x.random);
            if PskGetsAnswer(s, x) && !Full(s.sessions) && |q| <= 0x1200 then
              var m := LongOutcome(x.reply, 0x66, 1228).message;
              var i := 0xFFFF - half;
              && 0 <= i < MAX_SESSIONS && r.out as int == half * 0x1_0000 + At16(m, 4) as int
              && PskEnds(cr, s, hashType, q, m, i, r)
            else
              && r.status != Success
              && (PskGetsAnswer(s, x) && Full(s.sessions) ==>
                    r.status == DeviceError && r.ctx == s.(errorState := NoCapabilities))
  {
    hide MayExchangePsk, PskAlgorithmsOk, PskGetsAnswer, AllocateRequesterHalf, AssignSlot, PskExchangeRequest,
         PskQuestion, HandlePskResponse, Full, Coherent, PskEnds;
    var half := AllocateRequesterHalf(s.sessions);
    var q := PskQuestion(s, hashType, half, x.random);
    PskGuardsMean(s, x);
    PskQuestionIsSent(s, hashType, half, x.random);
    var o := LongOutcome(x.reply, 0x66, 1228);
    if o.Answer? {
      var m := o.message;
      PskResponseFails(cr, s, hashType, half, q, m);
      if |m| >= 12 {
        if Full(s.sessions) {
          FullTableRefuses(s.sessions, At16(m, 4));
        } else {
          AllocatorAndAssignerAgree(s.sessions, At16(m, 4), true);
          if |m| <= 1228 && |q| <= 0x1200 {
            PskResponseExactly(cr, s, hashType, half, q, m);
          }
        }
      }
    }
  }

  lemma PskResponseFails(cr: Crypto, s: Context, hashType: byte, half: u16, q: seq<byte>, m: seq<byte>)
    ensures |m| < 12 || |m| > 1228 || |q| > 0x1200 || AssignSlot(s.sessions, SessionIdOf(half, At16(m, 4))).None? ==>
              HandlePskResponse(cr, s.(errorState := NoCapabilities), hashType, half, q, m).status != Success
    ensures 12 <= |m| <= 1228 && AssignSlot(s.sessions, SessionIdOf(half, At16(m, 4))).None? ==>
              var r := HandlePskResponse(cr, s.(errorState := NoCapabilities), hashType, half, q, m);
              r.status == DeviceError && r.ctx == s.(errorState := NoCapabilities)
  {
    hide AssignSlot, JudgePskExchange, Conclude, NeedsPskFinish;
  }

  lemma NeedMeans(s: Context)
    ensures NeedsPskFinish(s) <==> FlagsOf(s, true).Responder(11)
  {
    hide IsCapable, Bit;
    Queries(s, true);
  }

  /** Where no PSK_FINISH follows, the data keys come from A and K. */
  ghost predicate PskDone(cr: Crypto, s: Context, y: Session) {
    FlagsOf(s, true).Responder(11)
    || (|s.messageA| + |y.messageK| <= 0x1200
        && cr.dataKeys(s.algorithms.baseHash, y.secret, cr.hash(s.algorithms.baseHash, s.messageA + y.messageK)))
  }

  lemma SameNeedOf(s: Context, t: Context)
    requires t.local == s.local && t.peerFlags == s.peerFlags
    ensures NeedsPskFinish(s) == NeedsPskFinish(t)
  {
  }

  lemma PskIgnoresError(cr: Crypto, s: Context, hashType: byte, q: seq<byte>, m: seq<byte>)
    requires |m| >= 12
    ensures var s0 := s.(errorState := NoCapabilities);
            && (PskWellFormed(s0, hashType, q, m) <==> PskWellFormed(s, hashType, q, m))
            && (PskWellFormed(s, hashType, q, m) ==>
                  forall y :: PskSession(cr, s0, hashType, q, m, y) <==> PskSession(cr, s, hashType, q, m, y))
  {
    hide HashSize, SelectsVersion, Bit;
    assert SummarySize(s.(errorState := NoCapabilities), hashType) == SummarySize(s, hashType);
  }

  /** All sessions a response can lead to have the same secret and K. */
  lemma PskSessionsAgree(cr: Crypto, s: Context, hashType: byte, q: seq<byte>, m: seq<byte>)
    requires |m| >= 12
    ensures PskWellFormed(s, hashType, q, m) ==>
              forall y, z :: PskSession(cr, s, hashType, q, m, y) && PskSession(cr, s, hashType, q, m, z) ==>
                (PskDone(cr, s, y) <==> PskDone(cr, s, z))
  {
    hide HashSize, SummarySize, Bit, FlagsOf;
  }

  lemma ConcludesExactly(cr: Crypto, s: Context, y: Session, hashType: byte, q: seq<byte>, m: seq<byte>)
    requires |m| >= 12 && PskWellFormed(s, hashType, q, m) && PskSession(cr, s, hashType, q, m, y)
    ensures var s0 := s.(errorState := NoCapabilities);
            var r := Conclude(cr, s0, y);
            && (!FlagsOf(s, true).Responder(11) ==> (r.status == Success <==> PskDone(cr, s, y)))
            && (r.status == Success ==> r.session == y.(phase := Established) && r.session.(phase := Handshaking) == y)
            && (FlagsOf(s, true).Responder(11) ==> PskDone(cr, s, y))
            && y.(phase := Handshaking) == y && y.phase == Handshaking
  {
    hide HashSize, SummarySize, Bit, FlagsOf;
    assert s.messageA + [] + y.messageK + [] + [] == s.messageA + y.messageK;
    assert y.phase == Handshaking && y.(phase := Handshaking) == y;
  }

  // ---------- PSK_FINISH ----------

  /** F with the PSK_FINISH request behind what it held; a MAC that does not fit leaves what was in memory. */
  ghost function WithPskFinish(cr: Crypto, s: Context, x: Session, stale: Stale): seq<byte> {
    var f := x.messageF + [0x11, 0xE7, 0, 0];
    f + (if |s.messageA| + |x.messageK| + |f| <= 0x1200
         then cr.hmac(s.algorithms.baseHash, x.keys.requestFinished, s.messageA + x.messageK + f)
         else stale[..HashSize(s.algorithms.baseHash)])
  }

  /** PSK_FINISH succeeds exactly on a bare header from which, with A, K and F, data keys can be derived. */
  lemma PskFinishExactly(cr: Crypto, s: Context, id: u32, x: PskFinishInput)
    requires FindSession(s.sessions, id).Some? && s.sessions[FindSession(s.sessions, id).value].usePsk
    ensures var r := TryPskFinish(cr, s, id, x);
            var i := FindSession(s.sessions, id).value;
            var y := s.sessions[i];
            var o := LongOutcome(x.reply, 0x67, 8);
            var f := WithPskFinish(cr, s, y, x.stale);
            if && FlagsOf(s, true).BothPsk() && s.state in {Negotiated, AfterDigests, AfterCertificate, Authenticated}
               && y.phase == Handshaking && |y.messageF| + 4 <= 0x1200 && |f| <= 0x1200 && !o.Refused?
            then
              && (r.status == Success <==>
                    && o.Answer? && |o.message| == 4 && |s.messageA| + |y.messageK| + |f| + 4 <= 0x1200
                    && cr.dataKeys(s.algorithms.baseHash, y.secret,
                                   cr.hash(s.algorithms.baseHash, s.messageA + y.messageK + (f + o.message))))
              && (r.status == Success ==>
                    r.ctx == s.(sessions := s.sessions[i := y.(messageF := f + o.message, phase := Established)],
                                errorState := NoError))
              && (!o.Answer? ==>
                    r == Step(DeviceError,
                              s.(sessions := s.sessions[i := y.(messageF := f)], errorState := NoCapabilities), ()))
              && (o.Answer? && r.status != Success ==>
                    && r.status == (if |o.message| == 4 then SecurityViolation else DeviceError)
                    && r.ctx == s.(sessions := s.sessions[i := r.ctx.sessions[i]], errorState := NoCapabilities)
                    && r.ctx.sessions[i].phase == Handshaking)
            else
              && r.status != Success
              && (FlagsOf(s, true).BothPsk() && s.state in {Negotiated, AfterDigests, AfterCertificate, Authenticated}
                  && y.phase == Handshaking && (|y.messageF| + 4 > 0x1200 || |f| > 0x1200) ==>
                       r.status == SecurityViolation)
  {
    hide IsCapable, Bit, FindSession, HashSize, Shrunk;
    Queries(s, true);
    var i := FindSession(s.sessions, id).value;
    var y := s.sessions[i];
    var s0 := s.(errorState := NoCapabilities);
    var head: seq<byte> := [0x11, 0xE7, 0, 0];
    PskThData(cr, s, y.messageK, y.messageF + head);
    var f := WithPskFinish(cr, s, y, x.stale);
    var o := LongOutcome(x.reply, 0x67, 8);
    if o.Answer? {
      PskThData(cr, s, y.messageK, f + o.message);
    }
  }

  lemma PskThData(cr: Crypto, s: Context, k: seq<byte>, f: seq<byte>)
    ensures var s0 := s.(errorState := NoCapabilities);
            FinishData(cr, s0, k, f, None, None) ==
              if |s.messageA| + |k| + |f| <= 0x1200 then Some(s.messageA + k + f) else None
  {
    assert s.messageA + [] + k + [] + f == s.messageA + k + f;
  }

  // ---------- END_SESSION ----------

  /** END_SESSION succeeds exactly on a bare header for an established session, and clears its slot and nothing else. */
  lemma EndSessionExactly(s: Context, id: u32, reply: Reply)
    ensures var r := TryEndSession(s, id, reply);
            var found := FindSession(s.sessions, id);
            var o := LongOutcome(reply, 0x6C, 8);
            && (r.status == Success <==>
                  && s.state in {Negotiated, AfterDigests, AfterCertificate, Authenticated}
                  && found.Some? && s.sessions[found.value].phase == Established && o.Answer? && |o.message| == 4)
            && (r.status == Success ==>
                  var cleared := Session(0, false, 0, Idle, [], Keys([], []), [], [], [], [], false);
                  r.ctx == s.(sessions := s.sessions[found.value := cleared], errorState := NoError))
            && (r.status != Success ==> r.ctx.sessions == s.sessions)
  {
    hide FindSession;
  }

  // ---------- The slot FINISH names ----------

  /**
   Without mutual authentication, or with it in the response itself, FINISH names the slot of KEY_EXCHANGE_RSP; with an
   encapsulated exchange, the slot that came back if the response named slot 0. Slot 0xF stands for the provisioned
   chain, which FINISH calls 0xFF. Any other request for mutual authentication ends the start.
   */
  lemma MutualAuthMeans(asked: byte, param: byte, encapStatus: Status, encapSlot: Option<byte>)
    ensures var r := MutualAuth(asked, param, encapStatus, encapSlot);
            var slot := if asked in {2, 4} && param == 0 && encapSlot.Some? then encapSlot.value else param;
            && (r.Proceed? <==> asked in {0, 1} || (asked in {2, 4} && encapStatus == Success))
            && (r.Proceed? ==> r.param == if slot == 0xF then 0xFF else slot)
            && (r.GiveUp? ==> r.status == if asked in {2, 4} then encapStatus else Unsupported)
  {
  }

  // ---------- Whole runs ----------

  /**
   Over every run of starts and stops, when the responder's chain is made of header, root hash and certificates: an
   established DHE session had a signature accepted that the certificates verify, over A, the digest of the certificates
   and what K holds before the signature.
   */
  lemma EstablishedOnCertificates(cr: Crypto, s: Context, calls: seq<SessionCall>, i: nat, chain: seq<byte>,
                                  root: seq<byte>, certificates: seq<byte>)
    requires NoSessions(s) && i < MAX_SESSIONS && Made(chain, root, certificates, s.algorithms.baseHash)
             && KnownChain(s, chain)
    ensures var x := Calls(cr, s, calls).sessions[i];
            SizeLaws(cr) && x.phase == Established && !x.usePsk ==>
              && |x.signatures| == 1 && |x.macs| == 1
              && var e := x.signatures[0];
              && e.chainData == certificates
              && cr.verify(s.algorithms.baseAsym, s.algorithms.baseHash, certificates, e.transcript, e.signature)
              && s.messageA + cr.hash(s.algorithms.baseHash, certificates) + x.messageK
                   == e.transcript + e.signature + (if x.inTheClear then [] else x.macs[0].mac)
  {
    hide SizeLaws, Calls, Finished, Coherent, PeerChainData, Made, KnownChain;
    FreshIsCoherent(s);
    FreshIsGated(cr, s);
    RunsStayGated(cr, s, s, calls);
    KnownCertificates(s, chain, root, certificates);
  }
}
