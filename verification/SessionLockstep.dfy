/** A DHE session from end to end: the requester's attempts against the responder's handlers. */
module SessionLockstep {
  import opened Bytes
  import opened Spdm
  import opened Crypto
  import opened ManagedBuffers
  import opened DeviceContext
  import opened Exchanges
  import opened Retrying
  import opened ConnectionRequester
  import opened ConnectionResponder
  import opened SessionTable
  import opened TranscriptHash
  import opened SessionRequester
  import opened SessionResponder
  import opened SessionCalls
  import opened SessionEffects
  import opened SessionGating
  import opened SessionRuns
  import opened SessionCapacity
  import opened Lockstep

  // ---------- The responder's table ----------

  /** Every live session in slot i of a responder carries the responder half 0xFFFF - i. */
  ghost predicate ResponderCoherent(sessions: seq<Session>) {
    && |sessions| == MAX_SESSIONS
    && forall i :: 0 <= i < MAX_SESSIONS ==>
         sessions[i].id == INVALID_SESSION_ID || ResponderHalf(sessions[i].id) == 0xFFFF - i
  }

  /**
   Whatever half the requester sends, the responder's allocator and assigner pick the same slot, and the session is
   found there.
   */
  lemma ResponderAssigns(sessions: seq<Session>, requesterHalf: u16, x: Session)
    requires ResponderCoherent(sessions) && !Full(sessions)
    ensures var half := AllocateHalf(sessions, ResponderHalf);
            var id := SessionIdOf(requesterHalf, half);
            var slot := AssignSlot(sessions, id);
            && half != 0 && slot.Some? && half == 0xFFFF - slot.value && ResponderHalf(id) == half
            && (x.id == id ==>
                  && ResponderCoherent(sessions[slot.value := x])
                  && FindSession(sessions[slot.value := x], id) == Some(slot.value))
  {
    var free := FreeHalfFrom(sessions, ResponderHalf, 0);
    var half := AllocateHalf(sessions, ResponderHalf);
    assert free.Some?;
    var id := SessionIdOf(requesterHalf, half);
    assert ResponderHalf(id) == half == 0xFFFF - free.value;
    forall j | 0 <= j < MAX_SESSIONS ensures sessions[j].id != id {
      if j == free.value {
        assert sessions[j].id == INVALID_SESSION_ID;
      }
    }
    assert AssignSlot(sessions, id) == Some(free.value);
    if x.id == id {
      var taken := sessions[free.value := x];
      var found := FindFrom(taken, id, 0);
      assert taken[free.value].id == id;
      assert taken[found.value].id == id;
    }
  }

  // ---------- KEY_EXCHANGE ----------

  /** What every transcript hash starts with, as the responder sees it. */
  ghost function OwnHead(cr: Crypto, p: Context): seq<byte> {
    p.messageA + ChainDigest(cr, p, LocalChainData(p))
  }

  /** The signature, keys and HMAC over a transcript that starts with `head` and goes on with k. */
  ghost predicate Signs(cr: Crypto, p: Context, head: seq<byte>, k: seq<byte>, secret: seq<byte>, sig: seq<byte>,
                        keys: Keys, mac: seq<byte>) {
    && |sig| == SignatureSize(p.algorithms.baseAsym)
    && cr.responderSign(p.algorithms.baseAsym, p.algorithms.baseHash, head + k) == Some(sig)
    && cr.handshakeKeys(p.algorithms.baseHash, secret, Hashed(cr, p, head + k + sig)) == Some(keys)
    && mac == if ResponderInTheClear(p) then []
              else cr.hmac(p.algorithms.baseHash, keys.responseFinished, head + k + sig)
  }

  /** The responder's gates: with a chain, a key and room it signs, derives and MACs. */
  lemma ResponderSignsAnswer(cr: Crypto, p: Context, x: Session, body: seq<byte>)
      returns (sig: seq<byte>, keys: Keys, mac: seq<byte>)
    requires SizeLaws(cr) && KeysDerive(cr) && LocalChainData(p).Some?
             && ResponderKeyMatches(cr, LocalChainData(p).value)
    requires SignatureSize(p.algorithms.baseAsym) != 0 && !x.usePsk
    requires |p.messageA| <= MAX_SMALL_BUFFER && |x.messageK| + MAX_ASYM_KEY + MAX_HASH <= MAX_K
    ensures Signs(cr, p, OwnHead(cr, p), x.messageK, x.secret, sig, keys, mac)
    ensures SignAnswer(cr, p, x, body) ==
              Install(x.(messageK := x.messageK + sig + mac, keys := keys, phase := Handshaking), body + sig + mac)
  {
    hide ResponderInTheClear, LocalChainData, SignatureSize, HashSize;
    var head := OwnHead(cr, p);
    assert |head| <= MAX_SMALL_BUFFER + MAX_HASH by { OwnHeadFits(cr, p); }
    assert TH1Data(cr, p, x, false) == Some(head + x.messageK);
    sig := cr.responderSign(p.algorithms.baseAsym, p.algorithms.baseHash, head + x.messageK).value;
    var x2 := x.(messageK := x.messageK + sig);
    assert head + (x.messageK + sig) == head + x.messageK + sig;
    assert TH1Data(cr, p, x2, false) == Some(head + x.messageK + sig);
    keys := cr.handshakeKeys(p.algorithms.baseHash, x.secret, Hashed(cr, p, head + x.messageK + sig)).value;
    var x3 := x2.(keys := keys);
    assert TH1Data(cr, p, x3, false) == Some(head + x.messageK + sig);
    mac := if ResponderInTheClear(p) then []
           else cr.hmac(p.algorithms.baseHash, keys.responseFinished, head + x.messageK + sig);
    assert x.messageK + sig + [] == x.messageK + sig && body + sig + [] == body + sig;
  }

  lemma OwnHeadFits(cr: Crypto, p: Context)
    requires SizeLaws(cr) && |p.messageA| <= MAX_SMALL_BUFFER
    ensures |OwnHead(cr, p)| <= MAX_SMALL_BUFFER + MAX_HASH
  {
    hide LocalChainData;
  }

  /** The requester's gates on a transcript the responder signed. */
  lemma RequesterTakesSignature(cr: Crypto, s: Context, p: Context, x: Session, share: seq<byte>, peerShare: seq<byte>,
                                secret: seq<byte>, sig: seq<byte>, keys: Keys, mac: seq<byte>)
    requires PeerChainData(s).Some? && ResponderKeyMatches(cr, PeerChainData(s).value) && s.algorithms == p.algorithms
    requires SignatureSize(p.algorithms.baseAsym) != 0 && InTheClear(s) == ResponderInTheClear(p)
    requires Signs(cr, p, Head(cr, s), x.messageK, secret, sig, keys, mac)
    requires cr.dheSecret(s.algorithms.dhe, share, peerShare) == Some(secret)
    ensures var v := UnboundedSignature(cr, s, x, share, peerShare, sig, mac);
            && v.Accepted?
            && v.session.messageK == x.messageK + sig + mac && v.session.keys == keys && v.session.secret == secret
            && v.session.mutAuthRequested == x.mutAuthRequested && v.session.messageF == x.messageF
            && v.session.usePsk == x.usePsk
  {
    hide PeerChainData, InTheClear, ResponderInTheClear, Head, SignatureSize;
    var head := Head(cr, s);
    assert head + (x.messageK + sig) == head + x.messageK + sig;
    assert x.messageK + sig + [] == x.messageK + sig;
  }

  /** Where the fields of KEY_EXCHANGE lie. */
  lemma KexRequestReads(q: Context, hashType: byte, slot: byte, half: u16, random: Nonce, share: seq<byte>)
    requires |share| == DhePubKeySize(q.algorithms.dhe)
    ensures var m := KeyExchangeRequest(q, hashType, slot, half, random, share);
            var d := |share|;
            && |m| >= 42 + d && m[2] == hashType && m[3] == slot && At16(m, 4) == half
            && m[40..40 + d] == share
            && 42 + d + At16(m, 40 + d) as int == |m| && m[42 + d..|m|] == SupportedVersionOpaque(q.local)
  {
    hide SupportedVersionOpaque, DhePubKeySize;
    var m := KeyExchangeRequest(q, hashType, slot, half, random, share);
    var d := |share|;
    assert m[4..6] == Le16(half);
    At16Within(m, 4, half);
    assert m[40 + d..42 + d] == Le16(|SupportedVersionOpaque(q.local)|);
    At16Within(m, 40 + d, |SupportedVersionOpaque(q.local)|);
  }

  /** The slot KEY_EXCHANGE_RSP names for the requester's own chain. */
  function ReqSlotParam(p: Context, e: EncapState): byte {
    if MutAuthAsked(p, e) != 0 then e.reqSlot % 0x10 else 0
  }

  /** Where the fields of KEY_EXCHANGE_RSP lie. */
  lemma KexBodyReads(p: Context, half: u16, e: KexEnv, share: seq<byte>, summary: seq<byte>, tail: seq<byte>)
    ensures var b := KexBody(p, half, e, share, summary);
            var m := b + tail;
            var n := 40 + |share| + |summary|;
            && m[1] == KEY_EXCHANGE_RSP && At16(m, 4) == half && m[6] == MutAuthAsked(p, e.encap)
            && m[7] == ReqSlotParam(p, e.encap)
            && m[40..40 + |share|] == share
            && At16(m, n) as int + n + 2 == |b| && m[n + 2..|b|] == VersionSelectionOpaque(p.local)
            && m[..|b|] == b
  {
    hide VersionSelectionOpaque, MutAuthAsked;
    var b := KexBody(p, half, e, share, summary);
    var m := b + tail;
    var n := 40 + |share| + |summary|;
    assert m[4..6] == Le16(half);
    At16Within(m, 4, half);
    assert m[n..n + 2] == Le16(|VersionSelectionOpaque(p.local)|);
    At16Within(m, n, |VersionSelectionOpaque(p.local)|);
  }

  /** What each end announces, the other end takes when both or neither support secured messages. */
  lemma OpaqueDataAgrees(q: Local, p: Local)
    requires (q.securedVersionCount == 0) == (p.securedVersionCount == 0)
    ensures SupportedVersionOk(p, SupportedVersionOpaque(q))
    ensures VersionSelectionOk(q, VersionSelectionOpaque(p))
  {
  }

  /**
   What the encapsulated requests of a session start leave behind: the slot they return to the requester, and the
   requester's chain as the responder got it.
   */
  datatype Encapsulated = Encapsulated(slot: Option<byte>, chain: seq<byte>)

  /** The responder after them; they are only made for the two kinds of mutual authentication that use them. */
  function AfterEncapsulated(p: Context, asked: byte, c: Encapsulated): Context {
    if asked == 2 || asked == 4 then p.(peerChain := c.chain) else p
  }

  /** The slot of the requester's chain that FINISH names. */
  function FinishSlot(p: Context, e: EncapState, c: Encapsulated): MutualStep {
    MutualAuth(MutAuthAsked(p, e), ReqSlotParam(p, e), Success, c.slot)
  }

  /** The chain a requester authenticates with. */
  function OwnChain(q: Context, slot: byte): seq<byte> {
    ChainOfSlot(q.local, if slot == 0xFF then q.local.provisionedSlot else slot)
  }

  /**
   Mutual authentication as the responder wants it, or none: both ends accept the slot, and the responder knows the
   chain in it, whose key the requester signs with.
   */
  ghost predicate MutualReady(cr: Crypto, q: Context, p: Context, e: EncapState, c: Encapsulated) {
    var asked := MutAuthAsked(p, e);
    var step := FinishSlot(p, e, c);
    && step.Proceed? && (step.param == 0xFF || (step.param < p.local.slotCount && step.param == e.reqSlot))
    && (asked != 0 ==>
          && (ReqSlotParam(p, e) == 0xF || ReqSlotParam(p, e) < q.local.slotCount)
          && (step.param == 0xFF || step.param < q.local.slotCount)
          && OwnChain(q, step.param) != [] && PeerChain(AfterEncapsulated(p, asked, c)) == OwnChain(q, step.param)
          && RequesterKeyMatches(cr, ChainData(OwnChain(q, step.param), q.algorithms.baseHash))
          && SignatureSize(q.algorithms.reqBaseAsym) != 0)
  }

  /** What the two ends and their provisioning must bring for a session. */
  ghost predicate SessionReady(cr: Crypto, q: Context, p: Context, hashType: byte, slot: byte, e: KexEnv,
                               c: Encapsulated) {
    var chain := ChainOfSlot(p.local, if slot == 0xFF then p.local.provisionedSlot else slot);
    && SizeLaws(cr) && DheAgrees(cr) && KeysDerive(cr)
    && q.algorithms == p.algorithms && q.messageA == p.messageA && |q.messageA| <= MAX_SMALL_BUFFER
    && q.peerFlags == p.local.flags && p.peerFlags == q.local.flags
    && MayExchangeKeys(q) && KexParametersOk(q, slot) && p.state.Reached(Negotiated)
    && (slot == 0xFF || slot < p.local.slotCount) && 0 < p.local.slotCount
    && PeerChain(q) == chain && chain != []
    && ResponderKeyMatches(cr, ChainData(chain, q.algorithms.baseHash)) && SignatureSize(q.algorithms.baseAsym) != 0
    && (q.local.securedVersionCount == 0) == (p.local.securedVersionCount == 0)
    && (hashType == 0 || hashType == 1 || hashType == 0xFF) && e.measured.Some?
    && e.encap.errorFree && MutualReady(cr, q, p, e.encap, c)
    && Coherent(q.sessions) && !Full(q.sessions)
    && ResponderCoherent(p.sessions) && !Full(p.sessions)
  }

  /** The responder's record of a session that waits for FINISH. */
  function OpenedSession(id: u32, k: seq<byte>, secret: seq<byte>, keys: Keys, asked: byte): Session {
    FreshSession(id, false).(messageK := k, secret := secret, keys := keys, mutAuthRequested := asked,
                             phase := Handshaking)
  }

  /** The responder opens the session and answers with the signed body. */
  lemma ResponderOpens(cr: Crypto, p: Context, i: nat, id: u32, req: seq<byte>, e: KexEnv, seedQ: seq<byte>)
      returns (body: seq<byte>, secret: seq<byte>, sig: seq<byte>, keys: Keys, mac: seq<byte>)
    requires SizeLaws(cr) && DheAgrees(cr) && KeysDerive(cr) && |p.messageA| <= MAX_SMALL_BUFFER && i < MAX_SESSIONS
    requires var d := DhePubKeySize(p.algorithms.dhe);
             42 + d <= |req| <= KEY_EXCHANGE_REQUEST_MAX && req[40..40 + d] == cr.dheShare(p.algorithms.dhe, seedQ)
    requires var chain := ChainOfSlot(p.local, if req[3] == 0xFF then p.local.provisionedSlot else req[3]);
             chain != [] && ResponderKeyMatches(cr, ChainData(chain, p.algorithms.baseHash))
    requires SignatureSize(p.algorithms.baseAsym) != 0
    requires SummaryHash(cr, p, req[2], e.measured).Some? && |SummaryHash(cr, p, req[2], e.measured).value| <= MAX_HASH
    ensures var chain := ChainOfSlot(p.local, if req[3] == 0xFF then p.local.provisionedSlot else req[3]);
            var p2 := p.(latestSessionId := id, localChain := chain);
            var x := OpenedSession(id, req + body + sig + mac, secret, keys, MutAuthAsked(p, e.encap));
            && OpenSession(cr, p, i, id, req, e) == Response(p2.(sessions := p.sessions[i := x]), body + sig + mac)
            && body == KexBody(p, ResponderHalf(id), e, cr.dheShare(p.algorithms.dhe, e.seed),
                               SummaryHash(cr, p, req[2], e.measured).value)
            && Some(secret) == cr.dheSecret(p.algorithms.dhe, cr.dheShare(p.algorithms.dhe, seedQ),
                                            cr.dheShare(p.algorithms.dhe, e.seed))
            && Signs(cr, p2, OwnHead(cr, p2), req + body, secret, sig, keys, mac)
  {
    hide SummaryHash, SignAnswer, KexBody, ChainOfSlot, SignatureSize, MutAuthAsked, ResponderKeyMatches, ChainData,
         KeysDerive, Signs, OwnHead;
    var d := DhePubKeySize(p.algorithms.dhe);
    var share := cr.dheShare(p.algorithms.dhe, e.seed);
    secret := cr.dheSecret(p.algorithms.dhe, share, req[40..40 + d]).value;
    var chain := ChainOfSlot(p.local, if req[3] == 0xFF then p.local.provisionedSlot else req[3]);
    var p2 := p.(latestSessionId := id, localChain := chain);
    body := KexBody(p, ResponderHalf(id), e, share, SummaryHash(cr, p, req[2], e.measured).value);
    assert [] + req == req;
    var x := FreshSession(id, false).(messageK := req + body, secret := secret,
                                      mutAuthRequested := MutAuthAsked(p, e.encap));
    sig, keys, mac := ResponderSignsAnswer(cr, p2, x, body);
  }

  /** The requester reads the response back into the fields it was made of. */
  lemma RequesterReads(cr: Crypto, s: Context, p: Context, id: u32, hashType: byte, half: u16, e: KexEnv,
                       req: seq<byte>, share: seq<byte>,
                       peerShare: seq<byte>, summary: seq<byte>, sig: seq<byte>, mac: seq<byte>)
    requires KexLayoutOf(s, hashType) == KexLayout(|peerShare|, |summary|, |sig|, |mac|)
    requires VersionSelectionOk(s.local, VersionSelectionOpaque(p.local))
    ensures var body := KexBody(p, half, e, peerShare, summary);
            UnboundedVerdict(cr, s, id, hashType, req, share, body + sig + mac) ==
              UnboundedSignature(cr, s, FreshSession(id, false).(messageK := req + body,
                                                                 mutAuthRequested := MutAuthAsked(p, e.encap)), share,
                                 peerShare, sig, mac)
  {
    hide KexBody, VersionSelectionOk, KexLayoutOf, UnboundedSignature, MutAuthAsked;
    var body := KexBody(p, half, e, peerShare, summary);
    var m := body + sig + mac;
    KexBodyReads(p, half, e, peerShare, summary, sig + mac);
    assert m == body + (sig + mac);
    assert m[|body|..|body| + |sig|] == sig;
    assert m[|body| + |sig|..|body| + |sig| + |mac|] == mac;
  }

  /** The two roles answer every capability query alike. */
  lemma SameAnswers(q: Context, p: Context)
    requires q.peerFlags == p.local.flags && p.peerFlags == q.local.flags
    ensures forall a: u32, b: u32 :: IsCapable(q, true, a, b) == IsCapable(p, false, a, b)
    ensures InTheClear(q) == ResponderInTheClear(p)
  {
  }

  /** The request the requester sends. */
  function KexRequestOf(cr: Crypto, q: Context, hashType: byte, slot: byte, random: Nonce,
                        seed: seq<byte>): (m: seq<byte>)
    ensures |m| >= 4
  {
    KeyExchangeRequest(q, hashType, slot, AllocateRequesterHalf(q.sessions), random,
                       cr.dheShare(q.algorithms.dhe, seed))
  }

  /**
   What the responder makes of the request: a session with the whole exchange in K, and the response in three parts.
   */
  lemma ResponderAnswers(cr: Crypto, q: Context, p: Context, hashType: byte, slot: byte, random: Nonce, seed: seq<byte>,
                         e: KexEnv, c: Encapsulated)
      returns (half: u16, body: seq<byte>, secret: seq<byte>, sig: seq<byte>, keys: Keys, mac: seq<byte>)
    requires SessionReady(cr, q, p, hashType, slot, e, c)
    ensures var req := KexRequestOf(cr, q, hashType, slot, random, seed);
            var id := SessionIdOf(AllocateRequesterHalf(q.sessions), half);
            var g := q.algorithms.dhe;
            var chain := ChainOfSlot(p.local, if slot == 0xFF then p.local.provisionedSlot else slot);
            var p2 := p.(latestSessionId := id, localChain := chain);
            var x := OpenedSession(id, req + body + sig + mac, secret, keys, MutAuthAsked(p, e.encap));
            var r := HandleKeyExchange(cr, p, Normal, req, e);
            && AssignSlot(p.sessions, id).Some?
            && r == Response(p2.(sessions := p.sessions[AssignSlot(p.sessions, id).value := x]), body + sig + mac)
            && FindSession(r.ctx.sessions, id) == AssignSlot(p.sessions, id)
            && SummaryHash(cr, p, hashType, e.measured).Some?
            && body == KexBody(p, half, e, cr.dheShare(g, e.seed), SummaryHash(cr, p, hashType, e.measured).value)
            && Some(secret) == cr.dheSecret(g, cr.dheShare(g, seed), cr.dheShare(g, e.seed))
            && Signs(cr, p2, OwnHead(cr, p2), req + body, secret, sig, keys, mac)
  {
    hide SizeLaws, DheAgrees, KeysDerive, SummaryHash, OpenSession, HandleKeyExchange, ChainOfSlot, ChainData,
         ResponderKeyMatches, SignatureSize, DhePubKeySize, KeyExchangeRequest, AllocateRequesterHalf, AssignSlot,
         FindSession, ResponderCoherent, Coherent, Full, KexBody, Signs, OwnHead, PeerChain, MutAuthAsked,
         MayExchangeKeys, KexParametersOk;
    half := ResponderPasses(cr, q, p, hashType, slot, random, seed, e, c);
    SummaryIsThere(cr, q, p, hashType, e.measured);
    ShareSize(cr, q.algorithms.dhe, seed);
    KexRequestReads(q, hashType, slot, AllocateRequesterHalf(q.sessions), random, cr.dheShare(q.algorithms.dhe, seed));
    KexRequestSize(cr, q, hashType, slot, AllocateRequesterHalf(q.sessions), random, seed);
    var req := KexRequestOf(cr, q, hashType, slot, random, seed);
    var id := SessionIdOf(AllocateRequesterHalf(q.sessions), half);
    body, secret, sig, keys, mac := ResponderOpens(cr, p, AssignSlot(p.sessions, id).value, id, req, e, seed);
    var x := OpenedSession(id, req + body + sig + mac, secret, keys, MutAuthAsked(p, e.encap));
    ResponderAssigns(p.sessions, AllocateRequesterHalf(q.sessions), x);
  }

  /** The request passes the responder's checks and gets the first free slot. */
  lemma ResponderPasses(cr: Crypto, q: Context, p: Context, hashType: byte, slot: byte, random: Nonce, seed: seq<byte>,
                        e: KexEnv, c: Encapsulated) returns (half: u16)
    requires SessionReady(cr, q, p, hashType, slot, e, c)
    ensures var req := KexRequestOf(cr, q, hashType, slot, random, seed);
            var id := SessionIdOf(AllocateRequesterHalf(q.sessions), half);
            && half == AllocateHalf(p.sessions, ResponderHalf) && ResponderHalf(id) == half
            && AssignSlot(p.sessions, id).Some?
            && |req| >= 42 + DhePubKeySize(p.algorithms.dhe)
            && HandleKeyExchange(cr, p, Normal, req, e)
                 == OpenSession(cr, p, AssignSlot(p.sessions, id).value, id, req, e)
  {
    hide SizeLaws, DheAgrees, KeysDerive, IsCapable, OpenSession, ChainOfSlot, ChainData, ResponderKeyMatches,
         SignatureSize, DhePubKeySize, KeyExchangeRequest, SupportedVersionOk, AllocateHalf, AllocateRequesterHalf,
         AssignSlot, FindSession, ResponderCoherent, Coherent, Full, PeerChain, MutAuthAsked, KexParametersOk;
    var req := KexRequestOf(cr, q, hashType, slot, random, seed);
    var halfQ := AllocateRequesterHalf(q.sessions);
    half := AllocateHalf(p.sessions, ResponderHalf);
    SameAnswers(q, p);
    ShareSize(cr, q.algorithms.dhe, seed);
    KexRequestReads(q, hashType, slot, halfQ, random, cr.dheShare(q.algorithms.dhe, seed));
    OpaqueDataAgrees(q.local, p.local);
    ResponderAssigns(p.sessions, halfQ, FreshSession(0, false));
    assert req[..|req|] == req;
  }

  lemma ShareSize(cr: Crypto, g: u16, seed: seq<byte>)
    requires SizeLaws(cr)
    ensures |cr.dheShare(g, seed)| == DhePubKeySize(g)
  {
  }

  lemma SummaryIsThere(cr: Crypto, q: Context, p: Context, hashType: byte, measured: Option<seq<byte>>)
    requires SizeLaws(cr) && q.peerFlags == p.local.flags && q.algorithms == p.algorithms
    requires (hashType == 0 || hashType == 1 || hashType == 0xFF) && measured.Some?
    ensures var summary := SummaryHash(cr, p, hashType, measured);
            summary.Some? && |summary.value| == SummaryHashSize(q, true, hashType) <= MAX_HASH
  {
    SummarySizesAgree(cr, q, p, hashType, measured);
  }

  /** The two ends hold the same session, waiting for FINISH or past it. */
  ghost predicate Twins(q: Context, p: Context, id: u32) {
    var i := FindSession(q.sessions, id);
    var j := FindSession(p.sessions, id);
    && i.Some? && j.Some?
    && var y := q.sessions[i.value];
       var x := p.sessions[j.value];
    && y.messageK == x.messageK && y.messageF == x.messageF && y.keys == x.keys && y.secret == x.secret
    && y.mutAuthRequested == x.mutAuthRequested && !y.usePsk && !x.usePsk
  }

  /** The requester accepts a response whose parts are signed as the responder signs them. */
  lemma RequesterAccepts(cr: Crypto, q: Context, p: Context, p2: Context, hashType: byte, slot: byte, random: Nonce,
                         seed: seq<byte>, e: KexEnv, c: Encapsulated,
                         half: u16, body: seq<byte>, secret: seq<byte>, sig: seq<byte>, keys: Keys, mac: seq<byte>)
    requires SessionReady(cr, q, p, hashType, slot, e, c)
    requires p2 == p.(latestSessionId := p2.latestSessionId,
                      localChain := ChainOfSlot(p.local, if slot == 0xFF then p.local.provisionedSlot else slot))
    requires SummaryHash(cr, p, hashType, e.measured).Some?
    requires body == KexBody(p, half, e, cr.dheShare(q.algorithms.dhe, e.seed),
                             SummaryHash(cr, p, hashType, e.measured).value)
    requires Some(secret) == cr.dheSecret(q.algorithms.dhe, cr.dheShare(q.algorithms.dhe, seed),
                                          cr.dheShare(q.algorithms.dhe, e.seed))
    requires Signs(cr, p2, OwnHead(cr, p2), KexRequestOf(cr, q, hashType, slot, random, seed) + body, secret, sig, keys,
                   mac)
    ensures var req := KexRequestOf(cr, q, hashType, slot, random, seed);
            var id := SessionIdOf(AllocateRequesterHalf(q.sessions), half);
            var v := UnboundedVerdict(cr, q.(errorState := NoCapabilities), id, hashType, req,
                                      cr.dheShare(q.algorithms.dhe, seed), body + sig + mac);
            && v.Accepted? && v.session.messageK == req + body + sig + mac && v.session.keys == keys
            && v.session.secret == secret
            && v.session.mutAuthRequested == MutAuthAsked(p, e.encap) && v.session.messageF == [] && !v.session.usePsk
  {
    hide KexBody, UnboundedVerdict, UnboundedSignature, SummaryHash, SummaryHashSize, DhePubKeySize, SignatureSize,
         HashSize, IsCapable, AllocateRequesterHalf, KexRequestOf, VersionSelectionOk, ChainOfSlot, ChainData,
         ResponderKeyMatches, MutAuthAsked, DheAgrees, KeysDerive, Coherent, Full, ResponderCoherent,
         KexParametersOk, MayExchangeKeys, KexLayoutOf, InTheClear, ResponderInTheClear, OwnHead, Head;
    var s := q.(errorState := NoCapabilities);
    var req := KexRequestOf(cr, q, hashType, slot, random, seed);
    var id := SessionIdOf(AllocateRequesterHalf(q.sessions), half);
    var share := cr.dheShare(q.algorithms.dhe, seed);
    var peerShare := cr.dheShare(q.algorithms.dhe, e.seed);
    var summary := SummaryHash(cr, p, hashType, e.measured).value;
    SameAnswers(s, p2);
    SameAnswers(s, p);
    OpaqueDataAgrees(q.local, p.local);
    LayoutAgrees(cr, s, p, p2, hashType, e, summary, sig, mac, keys, req + body, secret);
    RequesterReads(cr, s, p, id, hashType, half, e, req, share, peerShare, summary, sig, mac);
    HeadsAgree(cr, s, p2);
    var x := FreshSession(id, false).(messageK := req + body, mutAuthRequested := MutAuthAsked(p, e.encap));
    RequesterTakesSignature(cr, s, p2, x, share, peerShare, secret, sig, keys, mac);
  }

  lemma LayoutAgrees(cr: Crypto, s: Context, p: Context, p2: Context, hashType: byte, e: KexEnv, summary: seq<byte>,
                     sig: seq<byte>, mac: seq<byte>, keys: Keys, k: seq<byte>, secret: seq<byte>)
    requires SizeLaws(cr) && s.peerFlags == p.local.flags && s.algorithms == p.algorithms == p2.algorithms
    requires InTheClear(s) == ResponderInTheClear(p2) && SummaryHash(cr, p, hashType, e.measured) == Some(summary)
    requires exists head :: Signs(cr, p2, head, k, secret, sig, keys, mac)
    ensures KexLayoutOf(s, hashType) == KexLayout(|cr.dheShare(s.algorithms.dhe, e.seed)|, |summary|, |sig|, |mac|)
  {
    hide SummaryHash, SummaryHashSize, IsCapable, HashSize, DhePubKeySize, SignatureSize, InTheClear,
         ResponderInTheClear;
    SummarySizesAgree(cr, s, p, hashType, e.measured);
    ShareSize(cr, s.algorithms.dhe, e.seed);
  }

  /** The responder's own chain is the one the requester knows. */
  lemma HeadsAgree(cr: Crypto, s: Context, p: Context)
    requires s.messageA == p.messageA && s.algorithms == p.algorithms && PeerChain(s) == p.localChain
    ensures PeerChainData(s) == LocalChainData(p) && Head(cr, s) == OwnHead(cr, p)
  {
  }

  /** KEY_EXCHANGE against the responder's handler: both ends hold the same session. */
  lemma KeyExchangeInLockstep(cr: Crypto, q: Context, p: Context, hashType: byte, slot: byte, x: KexInput, e: KexEnv,
                              c: Encapsulated)
    requires SessionReady(cr, q, p, hashType, slot, e, c)
    requires x.reply
               == Says(HandleKeyExchange(cr, p, Normal, KexRequestOf(cr, q, hashType, slot, x.random, x.seed),
                                         e).message)
    ensures var r := HandleKeyExchange(cr, p, Normal, KexRequestOf(cr, q, hashType, slot, x.random, x.seed), e);
            var t := TryKeyExchange(cr, q, hashType, slot, x);
            && t.status == Success && t.out.reqSlotParam == ReqSlotParam(p, e.encap)
            && Twins(t.ctx, r.ctx, t.out.sessionId)
            && r.ctx.sessions[FindSession(r.ctx.sessions, t.out.sessionId).value].phase == Handshaking
            && Awaiting(cr, q, t.ctx, t.out.sessionId)
            && t.ctx.sessions[FindSession(t.ctx.sessions, t.out.sessionId).value].mutAuthRequested
                 == MutAuthAsked(p, e.encap)
            && t.ctx == q.(sessions := t.ctx.sessions, latestSessionId := t.out.sessionId, errorState := NoError)
            && r.ctx == p.(sessions := r.ctx.sessions, latestSessionId := t.out.sessionId, localChain := PeerChain(q))
  {
    hide SizeLaws, SessionReady, HandleKeyExchange, KexBody, UnboundedVerdict, SummaryHash, AllocateRequesterHalf,
         KexRequestOf, KeyExchangeRequest, ChainOfSlot, Coherent, Full, MayExchangeKeys, KexParametersOk, AssignSlot,
         FindSession, TryKeyExchange, Exchanged, PeerChain, Signs, OwnHead, VerdictOn, SessionIdOf;
    var req := KexRequestOf(cr, q, hashType, slot, x.random, x.seed);
    var r := HandleKeyExchange(cr, p, Normal, req, e);
    var half, body, secret, sig, keys, mac := ResponderAnswers(cr, q, p, hashType, slot, x.random, x.seed, e, c);
    var id := SessionIdOf(AllocateRequesterHalf(q.sessions), half);
    RequesterAccepts(cr, q, p, r.ctx.(sessions := p.sessions), hashType, slot, x.random, x.seed, e, c, half, body,
                     secret, sig, keys, mac);
    var t := TryKeyExchange(cr, q, hashType, slot, x);
    ReadyFacts(cr, q, p, hashType, slot, e, c);
    var v := UnboundedVerdict(cr, q.(errorState := NoCapabilities), id, hashType, req,
                              cr.dheShare(q.algorithms.dhe, x.seed), body + sig + mac);
    SummaryIsThere(cr, q, p, hashType, e.measured);
    AnswerFits(cr, p, r.ctx.(sessions := p.sessions), half, e, SummaryHash(cr, p, hashType, e.measured).value,
               req + body, secret, sig, keys, mac);
    RequesterInstalls(cr, q, p, hashType, slot, x, e, half, body, sig, mac, v);
  }

  lemma AnswerFits(cr: Crypto, p: Context, p2: Context, half: u16, e: KexEnv, summary: seq<byte>, k: seq<byte>,
                   secret: seq<byte>, sig: seq<byte>, keys: Keys, mac: seq<byte>)
    requires SizeLaws(cr) && |summary| <= MAX_HASH && Signs(cr, p2, OwnHead(cr, p2), k, secret, sig, keys, mac)
    ensures |KexBody(p, half, e, cr.dheShare(p.algorithms.dhe, e.seed), summary) + sig + mac| <= KEY_EXCHANGE_MAX
  {
    hide KexBody, OwnHead, ResponderInTheClear;
    ShareSize(cr, p.algorithms.dhe, e.seed);
  }

  lemma ReadyFacts(cr: Crypto, q: Context, p: Context, hashType: byte, slot: byte, e: KexEnv, c: Encapsulated)
    requires SessionReady(cr, q, p, hashType, slot, e, c)
    ensures SizeLaws(cr) && |q.messageA| <= MAX_SMALL_BUFFER && MayExchangeKeys(q) && KexParametersOk(q, slot)
    ensures Coherent(q.sessions) && !Full(q.sessions) && MutualReady(cr, q, p, e.encap, c)
    ensures PeerChain(q) == ChainOfSlot(p.local, if slot == 0xFF then p.local.provisionedSlot else slot)
    ensures (hashType == 0 || hashType == 1 || hashType == 0xFF) && q.algorithms == p.algorithms
            && q.peerFlags == p.local.flags && e.measured.Some?
  {
  }

  /** An accepted verdict on the response is installed in the slot the allocator chose. */
  lemma RequesterInstalls(cr: Crypto, q: Context, p: Context, hashType: byte, slot: byte, x: KexInput, e: KexEnv,
                          half: u16, body: seq<byte>, sig: seq<byte>, mac: seq<byte>, v: KexVerdict)
    requires SizeLaws(cr) && |q.messageA| <= MAX_SMALL_BUFFER && MayExchangeKeys(q) && KexParametersOk(q, slot)
    requires Coherent(q.sessions) && !Full(q.sessions)
    requires MutAuthAsked(p, e.encap) != 0 ==>
               ReqSlotParam(p, e.encap) == 0xF || ReqSlotParam(p, e.encap) < q.local.slotCount
    requires exists share, summary :: body == KexBody(p, half, e, share, summary)
    requires |body + sig + mac| <= KEY_EXCHANGE_MAX && x.reply == Says(body + sig + mac)
    requires v == UnboundedVerdict(cr, q.(errorState := NoCapabilities),
                                   SessionIdOf(AllocateRequesterHalf(q.sessions), half), hashType,
                                   KexRequestOf(cr, q, hashType, slot, x.random, x.seed),
                                   cr.dheShare(q.algorithms.dhe, x.seed), body + sig + mac)
    requires v.Accepted?
    ensures var id := SessionIdOf(AllocateRequesterHalf(q.sessions), half);
            var t := TryKeyExchange(cr, q, hashType, slot, x);
            var i := FindSession(t.ctx.sessions, id);
            && t.status == Success && t.out.sessionId == id && t.out.reqSlotParam == ReqSlotParam(p, e.encap)
            && i.Some? && t.ctx.sessions[i.value] == v.session
            && t.ctx == q.(sessions := t.ctx.sessions, latestSessionId := id, errorState := NoError)
            && Awaiting(cr, q, t.ctx, id)
  {
    hide SizeLaws, KexBody, UnboundedVerdict, AllocateRequesterHalf, KeyExchangeRequest, Coherent, Full,
         MayExchangeKeys, KexParametersOk, AssignSlot, FindSession, TryKeyExchange, Exchanged, VerdictOn,
         MutAuthAsked, Gated, DheGated, PskSigned;
    var m := body + sig + mac;
    var share, summary :| body == KexBody(p, half, e, share, summary);
    KexBodyReads(p, half, e, share, summary, sig + mac);
    assert m == body + (sig + mac);
    assert LongOutcome(x.reply, KEY_EXCHANGE_RSP, KEY_EXCHANGE_MAX) == Answer(m);
    var halfQ := AllocateRequesterHalf(q.sessions);
    var s0 := q.(errorState := NoCapabilities);
    var id := SessionIdOf(halfQ, half);
    var req := KexRequestOf(cr, q, hashType, slot, x.random, x.seed);
    KeyExchangeFits(cr, q, hashType, slot, x);
    KexRequestSize(cr, q, hashType, slot, halfQ, x.random, x.seed);
    VerdictFits(cr, s0, id, hashType, req, cr.dheShare(q.algorithms.dhe, x.seed), m);
    VerdictIsGated(cr, s0, id, hashType, req, cr.dheShare(q.algorithms.dhe, x.seed), m);
    AllocatorAndAssignerAgree(q.sessions, half, false);
    var i := AssignSlot(q.sessions, id).value;
    assert RequesterHalf(id) == halfQ;
    StoredIsFound(q.sessions, i, v.session);
    SameGates(cr, q, s0, v.session);
  }

  // ---------- FINISH ----------

  /** What every MAC and hash of FINISH starts with, at the requester and at the responder. */
  ghost function FinishHead(cr: Crypto, s: Context, y: Session): seq<byte> {
    Head(cr, s) + y.messageK + MutualDigest(cr, s, y)
  }

  ghost function OwnFinishHead(cr: Crypto, p: Context, x: Session): seq<byte> {
    OwnHead(cr, p) + x.messageK + (if x.mutAuthRequested != 0 then ChainDigest(cr, p, PeerChainData(p)) else [])
  }

  /** TH2 as the responder computes it. */
  lemma OwnTH2(cr: Crypto, p: Context, x: Session)
    requires SizeLaws(cr) && LocalChainData(p).Some? && |p.messageA| <= MAX_SMALL_BUFFER && !x.usePsk
    requires x.mutAuthRequested != 0 ==> PeerChainData(p).Some?
    requires |x.messageK| <= MAX_K && |x.messageF| <= MAX_F
    ensures TH2Data(cr, p, x, false) == Some(OwnFinishHead(cr, p, x) + x.messageF)
  {
    hide LocalChainData, PeerChainData;
    OwnHeadFits(cr, p);
    LongestTranscript();
  }

  /** The MAC of FINISH_RSP, absent outside the clear. */
  ghost function FinishMacOf(cr: Crypto, p: Context, x: Session, f: seq<byte>): seq<byte> {
    if ResponderInTheClear(p) then cr.hmac(p.algorithms.baseHash, x.keys.responseFinished, OwnFinishHead(cr, p, x) + f)
    else []
  }

  const FINISH_RSP_HEADER: seq<byte> := [VERSION_11, FINISH_RSP, 0, 0]

  /** The signature of FINISH belongs to the requester's chain; there is none without mutual authentication. */
  ghost predicate FinishSigned(cr: Crypto, p: Context, x: Session, header: seq<byte>, sig: seq<byte>) {
    if x.mutAuthRequested == 0 then sig == []
    else
      && PeerChainData(p).Some? && |sig| <= MAX_ASYM_KEY
      && cr.reqVerify(p.algorithms.reqBaseAsym, p.algorithms.baseHash, PeerChainData(p).value,
                      OwnFinishHead(cr, p, x) + header, sig)
  }

  /** A FINISH request with the right signature and MAC is answered, and the session is keyed by TH2. */
  lemma ResponderConcludes(cr: Crypto, p: Context, x: Session, header: seq<byte>, sig: seq<byte>, mac: seq<byte>)
    requires SizeLaws(cr) && KeysDerive(cr) && LocalChainData(p).Some? && |p.messageA| <= MAX_SMALL_BUFFER && !x.usePsk
    requires |x.messageK| <= MAX_K && x.messageF == [] && |header| == 4 && FinishSigned(cr, p, x, header, sig)
    requires mac == cr.hmac(p.algorithms.baseHash, x.keys.requestFinished, OwnFinishHead(cr, p, x) + (header + sig))
    ensures var f := header + sig + mac + FINISH_RSP_HEADER;
            var rmac := FinishMacOf(cr, p, x, f);
            VerifyRequest(cr, p, x, header + sig + mac, |sig|)
              == Conclusion(x.(messageF := f + rmac), FINISH_RSP_HEADER + rmac)
  {
    hide LocalChainData, PeerChainData, OwnFinishHead, TH2Data, TH2DataWith, HashSize, KeysDerive, AnswerFinish;
    var req := header + sig + mac;
    assert req[..4] == header && req[4..4 + |sig|] == sig && req[4 + |sig|..] == mac;
    assert [] + header == header && header + [] == header;
    MacSize(cr, p.algorithms.baseHash, x.keys.requestFinished, OwnFinishHead(cr, p, x) + (header + sig));
    SameHead(cr, p, x, header);
    SameHead(cr, p, x, header + sig);
    OwnTH2(cr, p, x.(messageF := header));
    OwnTH2(cr, p, x.(messageF := header + sig));
    SignedMutually(cr, p, x.(messageF := header));
    ResponderAnswersFinish(cr, p, x.(messageF := req));
    SameHead(cr, p, x, req);
    assert FinishMacOf(cr, p, x.(messageF := req), req + FINISH_RSP_HEADER)
             == FinishMacOf(cr, p, x, req + FINISH_RSP_HEADER);
  }

  lemma SameHead(cr: Crypto, p: Context, x: Session, f: seq<byte>)
    ensures OwnFinishHead(cr, p, x.(messageF := f)) == OwnFinishHead(cr, p, x)
  {
  }

  lemma SignedMutually(cr: Crypto, p: Context, x: Session)
    ensures x.mutAuthRequested != 0 ==> TH2DataWith(cr, p, x, false, true) == TH2Data(cr, p, x, false)
  {
  }

  /** The second half of the handler: FINISH_RSP, its MAC, TH2 and the data keys. */
  lemma ResponderAnswersFinish(cr: Crypto, p: Context, x: Session)
    requires SizeLaws(cr) && KeysDerive(cr) && LocalChainData(p).Some? && |p.messageA| <= MAX_SMALL_BUFFER && !x.usePsk
    requires x.mutAuthRequested != 0 ==> PeerChainData(p).Some?
    requires |x.messageK| <= MAX_K && |x.messageF| <= 4 + MAX_ASYM_KEY + MAX_HASH
    ensures var f := x.messageF + FINISH_RSP_HEADER;
            var rmac := FinishMacOf(cr, p, x, f);
            AnswerFinish(cr, p, x) == Conclusion(x.(messageF := f + rmac), FINISH_RSP_HEADER + rmac)
  {
    hide LocalChainData, PeerChainData, ResponderInTheClear, OwnFinishHead, TH2Data, HashSize, KeysDerive;
    var f := x.messageF + FINISH_RSP_HEADER;
    var rmac := FinishMacOf(cr, p, x, f);
    assert |rmac| <= MAX_HASH;
    SameHead(cr, p, x, f);
    SameHead(cr, p, x, f + rmac);
    OwnTH2(cr, p, x.(messageF := f));
    OwnTH2(cr, p, x.(messageF := f + rmac));
    DataKeysDerive(cr);
    assert f + [] == f && FINISH_RSP_HEADER + [] == FINISH_RSP_HEADER;
  }

  lemma DataKeysDerive(cr: Crypto)
    ensures KeysDerive(cr) ==> forall a: u32, s: seq<byte>, th: seq<byte> :: cr.dataKeys(a, s, th)
  {
  }

  /** The signature of the requester's FINISH. */
  ghost function FinishSignatureOf(cr: Crypto, s: Context, y: Session, header: seq<byte>): Option<seq<byte>> {
    if y.mutAuthRequested == 0 then Some([])
    else cr.requesterSign(s.algorithms.reqBaseAsym, s.algorithms.baseHash, FinishHead(cr, s, y) + header)
  }

  /** The requester's FINISH request. */
  lemma RequestIsBuilt(cr: Crypto, s: Context, y: Session, header: seq<byte>, sig: seq<byte>)
    requires PeerChainData(s).Some? && y.messageF == [] && (y.mutAuthRequested != 0 ==> LocalChainData(s).Some?)
    requires FinishSignatureOf(cr, s, y, header) == Some(sig)
    ensures var mac := cr.hmac(s.algorithms.baseHash, y.keys.requestFinished, FinishHead(cr, s, y) + (header + sig));
            UnboundedBuild(cr, s, y, header) == Built(true, y.(messageF := header + sig + mac))
  {
    hide PeerChainData, LocalChainData, Head, ChainDigest;
    assert [] + header == header && header + [] == header;
  }

  /** The requester takes the responder's FINISH_RSP. */
  lemma RequesterConcludes(cr: Crypto, s: Context, p: Context, y: Session, x: Session)
    requires SizeLaws(cr) && KeysDerive(cr) && PeerChainData(s).Some? && y.phase == Handshaking
    requires y.mutAuthRequested != 0 ==> LocalChainData(s).Some?
    requires s.algorithms == p.algorithms && InTheClear(s) == ResponderInTheClear(p)
    requires FinishHead(cr, s, y) == OwnFinishHead(cr, p, x) && y.keys == x.keys
    ensures var f := y.messageF + FINISH_RSP_HEADER;
            var rmac := FinishMacOf(cr, p, x, f);
            var r := UnboundedJudge(cr, s, y, FINISH_RSP_HEADER + rmac);
            && r.status == Success
            && r.session == y.(messageF := f + rmac, phase := Established, macs := r.session.macs)
  {
    hide PeerChainData, LocalChainData, Head, OwnFinishHead, ChainDigest, InTheClear, ResponderInTheClear, HashSize,
         KeysDerive;
    var f := y.messageF + FINISH_RSP_HEADER;
    var rmac := FinishMacOf(cr, p, x, f);
    var m := FINISH_RSP_HEADER + rmac;
    assert m[..4] == FINISH_RSP_HEADER && m[4..] == rmac;
    assert f + [] == f;
    DataKeysDerive(cr);
  }

  /** What the ends of a session that waits for FINISH have in common. */
  ghost predicate FinishReady(cr: Crypto, base: Context, q: Context, p: Context, id: u32, slot: byte, reqSlot: byte) {
    && SizeLaws(cr) && KeysDerive(cr)
    && q.messageA == p.messageA && |q.messageA| <= MAX_SMALL_BUFFER && q.algorithms == p.algorithms
    && q.peerFlags == p.local.flags && p.peerFlags == q.local.flags
    && MayExchangeKeys(q) && p.state.Reached(Negotiated)
    && PeerChain(q) == p.localChain && p.localChain != []
    && Twins(q, p, id) && Awaiting(cr, base, q, id) && p.latestSessionId == id
    && p.sessions[FindSession(p.sessions, id).value].phase == Handshaking
    && (slot == 0xFF || (slot < p.local.slotCount && slot == reqSlot))
    && if q.sessions[FindSession(q.sessions, id).value].mutAuthRequested == 0 then slot == 0
       else SlotReady(cr, q, p, slot)
  }

  /** The requester can authenticate with the chain of this slot, and the responder knows the chain. */
  ghost predicate SlotReady(cr: Crypto, q: Context, p: Context, slot: byte) {
    && (slot == 0xFF || slot < q.local.slotCount)
    && OwnChain(q, slot) != [] && PeerChain(p) == OwnChain(q, slot)
    && RequesterKeyMatches(cr, ChainData(OwnChain(q, slot), q.algorithms.baseHash))
    && SignatureSize(q.algorithms.reqBaseAsym) != 0
  }

  /** The requester at FINISH, with the chain it authenticates with. */
  function AtFinish(q: Context, y: Session, slot: byte): Context {
    WithLocalChain(q.(errorState := NoCapabilities), y, slot)
  }

  /** Where the FINISH request of the session lies: in F once it is built. */
  function FinishRequestOf(cr: Crypto, q: Context, id: u32, slot: byte): seq<byte> {
    var i := FindSession(q.sessions, id);
    if i.None? then []
    else
      var y := q.sessions[i.value];
      BuildFinish(cr, AtFinish(q, y, slot), y, FinishHeader(y, slot)).session.messageF
  }

  /** In the clear, FINISH travels outside the session. */
  function FinishTravels(q: Context, id: u32): Option<u32> {
    if InTheClear(q) then None else Some(id)
  }

  /** The chains of both ends: each knows the other's where a transcript has it. */
  lemma ChainsAgree(cr: Crypto, q: Context, p: Context, y: Session, x: Session, slot: byte)
    requires q.messageA == p.messageA && q.algorithms == p.algorithms
    requires PeerChain(q) == p.localChain && p.localChain != []
    requires y.messageK == x.messageK && y.mutAuthRequested == x.mutAuthRequested
    requires y.mutAuthRequested != 0 ==> SlotReady(cr, q, p, slot)
    ensures var s := AtFinish(q, y, slot);
            && PeerChainData(s).Some? && LocalChainData(p).Some?
            && (y.mutAuthRequested != 0 ==> LocalChainData(s).Some? && PeerChainData(p) == LocalChainData(s))
            && FinishHead(cr, s, y) == OwnFinishHead(cr, p, x)
  {
    hide ChainData, ChainOfSlot, RequesterKeyMatches, SignatureSize;
  }

  /** The requester signs when it is asked to, and the responder accepts the signature. */
  lemma RequesterSigns(cr: Crypto, q: Context, p: Context, y: Session, x: Session, slot: byte, header: seq<byte>)
      returns (sig: seq<byte>)
    requires q.messageA == p.messageA && q.algorithms == p.algorithms
    requires PeerChain(q) == p.localChain && p.localChain != []
    requires y.messageK == x.messageK && y.mutAuthRequested == x.mutAuthRequested
    requires y.mutAuthRequested != 0 ==> SlotReady(cr, q, p, slot)
    ensures FinishSignatureOf(cr, AtFinish(q, y, slot), y, header) == Some(sig)
    ensures FinishSigned(cr, p, x, header, sig)
    ensures |sig| == if y.mutAuthRequested == 0 then 0 else SignatureSize(q.algorithms.reqBaseAsym)
  {
    hide ChainData, ChainOfSlot, SignatureSize, FinishHead, OwnFinishHead;
    ChainsAgree(cr, q, p, y, x, slot);
    var s := AtFinish(q, y, slot);
    if y.mutAuthRequested == 0 {
      sig := [];
    } else {
      sig := cr.requesterSign(q.algorithms.reqBaseAsym, q.algorithms.baseHash, FinishHead(cr, s, y) + header).value;
      assert PeerChainData(p) == Some(ChainData(OwnChain(q, slot), q.algorithms.baseHash));
      SignaturesAreShort(q.algorithms.reqBaseAsym);
    }
  }

  lemma SignaturesAreShort(a: u16)
    ensures SignatureSize(a) <= MAX_ASYM_KEY
  {
  }

  /** FINISH against the responder's handler: both ends hold the same established session. */
  lemma FinishInLockstep(cr: Crypto, base: Context, q: Context, p: Context, id: u32, slot: byte, reqSlot: byte)
    requires FinishReady(cr, base, q, p, id, slot, reqSlot)
    ensures |FinishRequestOf(cr, q, id, slot)| >= 4
    ensures var inSession := FinishTravels(q, id);
            var y := q.sessions[FindSession(q.sessions, id).value];
            var r := HandleFinish(cr, p, Normal, FinishRequestOf(cr, q, id, slot), inSession, reqSlot);
            var t := TryFinish(cr, q, id, slot, Says(r.message));
            var p' := AfterSending(r.ctx, r.message, inSession);
            && t.status == Success && Twins(t.ctx, p', id)
            && t.ctx.sessions[FindSession(t.ctx.sessions, id).value].phase == Established
            && t.ctx.sessions[FindSession(t.ctx.sessions, id).value].mutAuthRequested == y.mutAuthRequested
            && p'.sessions[FindSession(p'.sessions, id).value].phase == Established
            && t.ctx == AtFinish(q, y, slot).(sessions := t.ctx.sessions, errorState := NoError)
            && p' == p.(sessions := p'.sessions)
  {
    hide SizeLaws, KeysDerive, IsCapable, PeerChain, FindSession, Exchanged, BuildFinish, UnboundedBuild,
         UnboundedJudge, TryFinish, HandleFinish, FinishHead, OwnFinishHead, FinishMacOf, InTheClear,
         ResponderInTheClear, PeerChainData, LocalChainData, HashSize, SignatureSize, SlotReady, FinishSignatureOf,
         FinishSigned, ChainOfSlot, WithLocalChain;
    var i := FindSession(q.sessions, id).value;
    var j := FindSession(p.sessions, id).value;
    var y := q.sessions[i];
    var x := p.sessions[j];
    var s0 := AtFinish(q, y, slot);
    var header := FinishHeader(y, slot);
    HandshakingAwaits(cr, base, y);
    ChainsAgree(cr, q, p, y, x, slot);
    var sig := RequesterSigns(cr, q, p, y, x, slot, header);
    var mac := cr.hmac(q.algorithms.baseHash, y.keys.requestFinished, FinishHead(cr, s0, y) + (header + sig));
    AtFinishKeeps(q, y, slot);
    BuildFits(cr, s0, y, header);
    RequestIsBuilt(cr, s0, y, header, sig);
    var req := header + sig + mac;
    assert FinishRequestOf(cr, q, id, slot) == req;
    var rmac := FinishMacOf(cr, p, x, req + FINISH_RSP_HEADER);
    ResponderTakesFinish(cr, q, p, id, j, slot, reqSlot, header, sig, mac);
    var r := HandleFinish(cr, p, Normal, req, FinishTravels(q, id), reqSlot);
    SlotIsOk(cr, q, p, slot);
    var z := RequesterTakesFinish(cr, base, q, p, id, i, slot, header, sig, mac, x);
    Replaced(q.sessions, i, z);
    Replaced(p.sessions, j, x.(messageF := req + FINISH_RSP_HEADER + rmac));
    Replaced(r.ctx.sessions, j, x.(messageF := req + FINISH_RSP_HEADER + rmac, phase := Established));
    SameClear(p, r.ctx);
    SameAnswers(q, p);
  }

  lemma SlotIsOk(cr: Crypto, q: Context, p: Context, slot: byte)
    ensures SlotReady(cr, q, p, slot) ==> slot == 0xFF || slot < q.local.slotCount
  {
  }

  lemma AtFinishKeeps(q: Context, y: Session, slot: byte)
    ensures var s := AtFinish(q, y, slot);
            && s == q.(errorState := NoCapabilities, localChain := s.localChain) && InTheClear(s) == InTheClear(q)
  {
    hide IsCapable;
    assert IsCapable(AtFinish(q, y, slot), true, HANDSHAKE_IN_THE_CLEAR_CAP, HANDSHAKE_IN_THE_CLEAR_CAP)
        == IsCapable(q, true, HANDSHAKE_IN_THE_CLEAR_CAP,
                     HANDSHAKE_IN_THE_CLEAR_CAP) by { ClearReadsFlags(AtFinish(q, y, slot), q); }
  }

  lemma ClearReadsFlags(s: Context, q: Context)
    requires s.local == q.local && s.peerFlags == q.peerFlags
    ensures forall a: u32, b: u32 :: IsCapable(s, true, a, b) == IsCapable(q, true, a, b)
  {
  }

  /** The handler on a request made of these parts. */
  lemma ResponderTakesFinish(cr: Crypto, q: Context, p: Context, id: u32, j: nat, slot: byte, reqSlot: byte,
                             header: seq<byte>, sig: seq<byte>, mac: seq<byte>)
    requires SizeLaws(cr) && KeysDerive(cr) && LocalChainData(p).Some? && |p.messageA| <= MAX_SMALL_BUFFER
    requires MayExchangeKeys(q) && q.peerFlags == p.local.flags && p.peerFlags == q.local.flags
             && p.state.Reached(Negotiated)
    requires FindSession(p.sessions, id) == Some(j) && p.latestSessionId == id
    requires var x := p.sessions[j];
             && x.phase == Handshaking && !x.usePsk && |x.messageK| <= MAX_K && x.messageF == []
             && header == FinishHeader(x, slot) && FinishSigned(cr, p, x, header, sig)
             && |sig| == (if x.mutAuthRequested == 0 then 0 else SignatureSize(p.algorithms.reqBaseAsym))
             && mac == cr.hmac(p.algorithms.baseHash, x.keys.requestFinished, OwnFinishHead(cr, p, x) + (header + sig))
             && (x.mutAuthRequested == 0 ==> slot == 0)
    requires slot == 0xFF || (slot < p.local.slotCount && slot == reqSlot)
    ensures var x := p.sessions[j];
            var f := header + sig + mac + FINISH_RSP_HEADER;
            var rmac := FinishMacOf(cr, p, x, f);
            HandleFinish(cr, p, Normal, header + sig + mac, FinishTravels(q, id), reqSlot) ==
              Response(p.(sessions := p.sessions[j := x.(messageF := f + rmac)]), FINISH_RSP_HEADER + rmac)
  {
    hide SizeLaws, KeysDerive, IsCapable, FindSession, VerifyRequest, OwnFinishHead, FinishMacOf, InTheClear,
         ResponderInTheClear, PeerChainData, LocalChainData, HashSize, SignatureSize, FinishSigned;
    var x := p.sessions[j];
    SameAnswers(q, p);
    MacSize(cr, p.algorithms.baseHash, x.keys.requestFinished, OwnFinishHead(cr, p, x) + (header + sig));
    ResponderConcludes(cr, p, x, header, sig, mac);
  }

  /** The requester on the answer to it. */
  lemma RequesterTakesFinish(cr: Crypto, base: Context, q: Context, p: Context, id: u32, i: nat, slot: byte,
                             header: seq<byte>, sig: seq<byte>, mac: seq<byte>, x: Session) returns (z: Session)
    requires SizeLaws(cr) && KeysDerive(cr) && |q.messageA| <= MAX_SMALL_BUFFER && q.algorithms == p.algorithms
    requires MayExchangeKeys(q) && q.peerFlags == p.local.flags && p.peerFlags == q.local.flags
    requires Awaiting(cr, base, q, id) && FindSession(q.sessions, id) == Some(i)
    requires var y := q.sessions[i];
             var s0 := AtFinish(q, y, slot);
             && PeerChainData(s0).Some? && (y.mutAuthRequested != 0 ==> LocalChainData(s0).Some?)
             && y.phase == Handshaking && y.keys == x.keys && FinishHead(cr, s0, y) == OwnFinishHead(cr, p, x)
             && FinishSlotOk(q, y, slot) && header == FinishHeader(y, slot)
             && UnboundedBuild(cr, s0, y, header) == Built(true, y.(messageF := header + sig + mac))
    ensures var y := q.sessions[i];
            var f := header + sig + mac + FINISH_RSP_HEADER;
            var rmac := FinishMacOf(cr, p, x, f);
            && z == y.(messageF := f + rmac, phase := Established, macs := z.macs)
            && TryFinish(cr, q, id, slot, Says(FINISH_RSP_HEADER + rmac)) ==
                 Step(Success, AtFinish(q, y, slot).(sessions := q.sessions[i := z], errorState := NoError), ())
  {
    hide SizeLaws, KeysDerive, IsCapable, FindSession, Exchanged, UnboundedBuild, UnboundedJudge, TryFinish, FinishHead,
         OwnFinishHead, InTheClear, ResponderInTheClear, PeerChainData, LocalChainData, HashSize, WithLocalChain;
    var y := q.sessions[i];
    var s0 := AtFinish(q, y, slot);
    AtFinishKeeps(q, y, slot);
    SameAnswers(q, p);
    var built := y.(messageF := header + sig + mac);
    assert FinishHead(cr, s0, built) == FinishHead(cr, s0, y) by { SameRequesterHead(cr, s0, y, header + sig + mac); }
    RequesterConcludes(cr, s0, p, built, x);
    var rmac := FinishMacOf(cr, p, x, header + sig + mac + FINISH_RSP_HEADER);
    var m := FINISH_RSP_HEADER + rmac;
    assert |rmac| <= MAX_HASH by { MacIsShort(cr, p, x, header + sig + mac + FINISH_RSP_HEADER); }
    FinishFits(cr, base, q, id, slot, Says(m));
    assert LongOutcome(Says(m), FINISH_RSP, FINISH_MAX) == Answer(m);
    z := UnboundedJudge(cr, s0, built, m).session;
  }

  lemma SameRequesterHead(cr: Crypto, s: Context, y: Session, f: seq<byte>)
    ensures FinishHead(cr, s, y.(messageF := f)) == FinishHead(cr, s, y)
  {
  }

  lemma MacIsShort(cr: Crypto, p: Context, x: Session, f: seq<byte>)
    requires SizeLaws(cr)
    ensures |FinishMacOf(cr, p, x, f)| <= MAX_HASH
  {
    hide OwnFinishHead, ResponderInTheClear;
  }

  lemma MacSize(cr: Crypto, a: u32, k: seq<byte>, d: seq<byte>)
    requires SizeLaws(cr)
    ensures |cr.hmac(a, k, d)| == HashSize(a)
  {
  }

  lemma SameClear(p: Context, r: Context)
    requires r == p.(sessions := r.sessions)
    ensures ResponderInTheClear(p) == ResponderInTheClear(r)
  {
  }

  /** Replacing a session by one with the same ID leaves it where it is found. */
  lemma Replaced(sessions: seq<Session>, i: nat, x: Session)
    requires i < |sessions| && FindSession(sessions, x.id) == Some(i)
    ensures FindSession(sessions[i := x], x.id) == Some(i)
  {
    var after := sessions[i := x];
    var found := FindFrom(after, x.id, 0);
    assert after[i].id == x.id;
    assert forall j :: 0 <= j < i ==> after[j].id == sessions[j].id;
  }

  // ---------- The whole session ----------

  /** Both ends take TH1 and TH2 over the same bytes. */
  lemma TwinsHashAlike(cr: Crypto, q: Context, p: Context, id: u32)
    requires Twins(q, p, id) && q.messageA == p.messageA && q.algorithms == p.algorithms && PeerChain(q) == p.localChain
    requires q.sessions[FindSession(q.sessions, id).value].mutAuthRequested != 0 ==> PeerChain(p) == q.localChain
    ensures var y := q.sessions[FindSession(q.sessions, id).value];
            var x := p.sessions[FindSession(p.sessions, id).value];
            TH1Data(cr, q, y, true) == TH1Data(cr, p, x, false) && TH2Data(cr, q, y, true) == TH2Data(cr, p, x, false)
  {
    hide FindSession, PeerChain;
    assert PeerChainData(q) == LocalChainData(p);
  }

  /** Responder and requester after SpdmStartSession, with the replies the responder's handlers give. */
  datatype SessionOutcome = SessionOutcome(status: Status, id: u32, q: Context, p: Context)

  /** What SpdmStartSession meets when KEY_EXCHANGE and FINISH are answered like this. */
  function TwoReplies(x: KexInput, c: Encapsulated, finish: Reply): StartInput {
    StartInput(_ => x, Success, c.slot, _ => finish, _ => PskInput(Zeros(MAX_HASH), Says([])),
               _ => PskFinishInput(Says([]), Zeros(MAX_HASH)))
  }

  function StartWithResponder(cr: Crypto, q: Context, p: Context, hashType: byte, slot: byte, x: KexInput, e: KexEnv,
                              c: Encapsulated): SessionOutcome {
    var r := HandleKeyExchange(cr, p, Normal, KexRequestOf(cr, q, hashType, slot, x.random, x.seed), e);
    var x' := x.(reply := Says(r.message));
    var k := TryKeyExchange(cr, q, hashType, slot, x');
    var p1 := AfterEncapsulated(r.ctx, MutAuthAsked(p, e.encap), c);
    var step := FinishSlot(p, e.encap, c);
    var req := if step.Proceed? then FinishRequestOf(cr, k.ctx, k.out.sessionId, step.param) else [];
    var inSession := FinishTravels(k.ctx, k.out.sessionId);
    var r2 := if |req| >= 4 then HandleFinish(cr, p1, Normal, req, inSession, e.encap.reqSlot) else Response(p1, []);
    var s := StartDhe(cr, q, hashType, slot, TwoReplies(x', c, Says(r2.message)));
    SessionOutcome(s.status, s.out, s.ctx, AfterSending(r2.ctx, r2.message, inSession))
  }

  /**
   From contexts that agree on A, the algorithms and the flags, with a known chain, the responder's signing key and
   free slots, and with mutual authentication in any of its forms or none, SpdmStartSession succeeds against the
   responder's handlers: both ends hold the session as established, with the same K, F, secret and finished keys, and
   take TH1 and TH2 over the same bytes.
   */
  lemma SessionIsEstablishedAtBothEnds(cr: Crypto, q: Context, p: Context, hashType: byte, slot: byte, x: KexInput,
                                       e: KexEnv, c: Encapsulated)
    requires SessionReady(cr, q, p, hashType, slot, e, c)
    ensures var o := StartWithResponder(cr, q, p, hashType, slot, x, e, c);
            && o.status == Success && Twins(o.q, o.p, o.id)
            && var y := o.q.sessions[FindSession(o.q.sessions, o.id).value];
               var z := o.p.sessions[FindSession(o.p.sessions, o.id).value];
            && y.phase == Established && z.phase == Established && y.mutAuthRequested == MutAuthAsked(p, e.encap)
            && TH1Data(cr, o.q, y, true) == TH1Data(cr, o.p, z, false)
            && TH2Data(cr, o.q, y, true) == TH2Data(cr, o.p, z, false)
  {
    hide SizeLaws, SessionReady, HandleKeyExchange, HandleFinish, KexRequestOf, FinishRequestOf, TryKeyExchange,
         TryFinish, FindSession, Exchanged, Twins, AfterSending, FinishTravels, TH1Data, TH2Data, FinishReady,
         MutAuthAsked, FinishSlot, PeerChain, StartDhe, AfterEncapsulated, WithLocalChain;
    var r := HandleKeyExchange(cr, p, Normal, KexRequestOf(cr, q, hashType, slot, x.random, x.seed), e);
    var x' := x.(reply := Says(r.message));
    KeyExchangeInLockstep(cr, q, p, hashType, slot, x', e, c);
    var k := TryKeyExchange(cr, q, hashType, slot, x');
    var id := k.out.sessionId;
    var y := k.ctx.sessions[FindSession(k.ctx.sessions, id).value];
    var p1 := AfterEncapsulated(r.ctx, MutAuthAsked(p, e.encap), c);
    WaitsForFinish(cr, q, p, k.ctx, r.ctx, hashType, slot, e, c, id);
    var param := FinishSlot(p, e.encap, c).param;
    FinishInLockstep(cr, q, k.ctx, p1, id, param, e.encap.reqSlot);
    var inSession := FinishTravels(k.ctx, id);
    var r2 := HandleFinish(cr, p1, Normal, FinishRequestOf(cr, k.ctx, id, param), inSession, e.encap.reqSlot);
    var t := TryFinish(cr, k.ctx, id, param, Says(r2.message));
    StartComposes(cr, q, p, hashType, slot, x', e.encap, c, Says(r2.message));
    var p2 := AfterSending(r2.ctx, r2.message, inSession);
    assert StartWithResponder(cr, q, p, hashType, slot, x, e, c) == SessionOutcome(Success, id, t.ctx, p2);
    ChainsStay(k.ctx, p1, t.ctx, p2, y, param);
    TwinsHashAlike(cr, t.ctx, p2, id);
  }

  /** FINISH and the encapsulated requests leave each end with the chains it used. */
  lemma ChainsStay(q: Context, p: Context, q2: Context, p2: Context, y: Session, slot: byte)
    requires q2 == AtFinish(q, y, slot).(sessions := q2.sessions, errorState := NoError)
             && p2 == p.(sessions := p2.sessions)
    requires PeerChain(q) == p.localChain && (y.mutAuthRequested != 0 ==> PeerChain(p) == OwnChain(q, slot))
    ensures q2.messageA == q.messageA && q2.algorithms == q.algorithms
    ensures PeerChain(q2) == p2.localChain && (y.mutAuthRequested != 0 ==> PeerChain(p2) == q2.localChain)
  {
    hide ChainOfSlot;
  }

  lemma WaitsForFinish(cr: Crypto, q: Context, p: Context, q1: Context, p1: Context, hashType: byte, slot: byte,
                       e: KexEnv, c: Encapsulated, id: u32)
    requires SessionReady(cr, q, p, hashType, slot, e, c)
    requires q1 == q.(sessions := q1.sessions, latestSessionId := id, errorState := NoError)
    requires p1 == p.(sessions := p1.sessions, latestSessionId := id, localChain := PeerChain(q))
    requires Twins(q1, p1, id) && Awaiting(cr, q, q1, id)
             && p1.sessions[FindSession(p1.sessions, id).value].phase == Handshaking
    requires q1.sessions[FindSession(q1.sessions, id).value].mutAuthRequested == MutAuthAsked(p, e.encap)
    ensures FinishSlot(p, e.encap, c).Proceed?
    ensures var p2 := AfterEncapsulated(p1, MutAuthAsked(p, e.encap), c);
            var param := FinishSlot(p, e.encap, c).param;
            && FinishReady(cr, q, q1, p2, id, param, e.encap.reqSlot)
            && PeerChain(q1) == p2.localChain && q1.messageA == p2.messageA && q1.algorithms == p2.algorithms
            && (MutAuthAsked(p, e.encap) != 0 ==> PeerChain(p2) == OwnChain(q1, param))
  {
    hide SizeLaws, DheAgrees, KeysDerive, FindSession, Exchanged, Coherent, Full, ResponderCoherent,
         ResponderKeyMatches, RequesterKeyMatches, ChainOfSlot, ChainData, MutAuthAsked, And, SignatureSize;
  }

  /** SpdmStartSession is its two requests when both succeed at once. */
  lemma StartComposes(cr: Crypto, q: Context, p: Context, hashType: byte, slot: byte, x: KexInput, e: EncapState,
                      c: Encapsulated, reply: Reply)
    requires FinishSlot(p, e, c).Proceed?
    requires var k := TryKeyExchange(cr, q, hashType, slot, x);
             var found := FindSession(k.ctx.sessions, k.out.sessionId);
             && k.status == Success && k.out.reqSlotParam == ReqSlotParam(p, e)
             && found.Some? && k.ctx.sessions[found.value].mutAuthRequested == MutAuthAsked(p, e)
             && TryFinish(cr, k.ctx, k.out.sessionId, FinishSlot(p, e, c).param, reply).status == Success
    ensures var k := TryKeyExchange(cr, q, hashType, slot, x);
            StartDhe(cr, q, hashType, slot, TwoReplies(x, c, reply)) ==
              Step(Success, TryFinish(cr, k.ctx, k.out.sessionId, FinishSlot(p, e, c).param, reply).ctx,
                   k.out.sessionId)
  {
    hide TryKeyExchange, TryFinish, FindSession, MutAuthAsked;
    var k := TryKeyExchange(cr, q, hashType, slot, x);
    var param := FinishSlot(p, e, c).param;
    assert KexAttempt(cr, hashType, slot)(q, x) == k;
    assert FinishAttempt(cr, k.out.sessionId, param)(k.ctx, reply)
             == TryFinish(cr, k.ctx, k.out.sessionId, param, reply);
  }
}
