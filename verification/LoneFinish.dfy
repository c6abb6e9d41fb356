/**
 Why a start must be one call: FINISH on its own, on a connection that may have been set up anew since KEY_EXCHANGE.
 */
module LoneFinish {
  import opened Bytes
  import opened Spdm
  import opened Crypto
  import opened ManagedBuffers
  import opened DeviceContext
  import opened Exchanges
  import opened ConnectionRequester
  import opened SessionTable
  import opened TranscriptHash
  import opened SessionRequester
  import opened SessionGating
  import opened SessionRuns
  import opened SessionCapacity
  import opened SessionLockstep

  /**
   FINISH takes its MAC by what the connection says now. For a session from KEY_EXCHANGE, which had a MAC exactly when
   its handshake was not in the clear, a successful FINISH leaves one MAC if and only if the connection still says the
   same: set up anew between the two, it may leave none, or two.
   */
  lemma FinishCompletesItsExchange(cr: Crypto, s: Context, id: u32, param: byte, reply: Reply)
    requires FindSession(s.sessions, id).Some?
    requires var x := s.sessions[FindSession(s.sessions, id).value]; |x.macs| == if x.inTheClear then 0 else 1
    ensures var x := s.sessions[FindSession(s.sessions, id).value];
            var r := TryFinish(cr, s, id, param, reply);
            var y := r.ctx.sessions[FindSession(s.sessions, id).value];
            SizeLaws(cr) && r.status == Success ==>
              && y.phase == Established && y.signatures == x.signatures
              && (|y.macs| == 1 <==> x.inTheClear == InTheClear(s))
              && (|y.macs| == 0 <==> x.inTheClear && !InTheClear(s))
              && (|y.macs| == 2 <==> !x.inTheClear && InTheClear(s))
  {
    hide SizeLaws, BuildFinish, TH2, TH2Data, FindSession, IsCapable, HashSize, SignatureSize, ChainOfSlot,
         FinishSlotOk, InTheClear;
    var i := FindSession(s.sessions, id).value;
    var x := s.sessions[i];
    var s0 := WithLocalChain(s.(errorState := NoCapabilities), x, param);
    assert InTheClear(s0) == InTheClear(s) by { ClearIgnores(s, s0); }
    if SizeLaws(cr) {
      FinishIsBuilt(cr, s0, x, FinishHeader(x, param));
      var b := BuildFinish(cr, s0, x, FinishHeader(x, param));
      var o := LongOutcome(reply, FINISH_RSP, FINISH_MAX);
      if b.complete && o.Answer? {
        FinishCountsMacs(cr, s0, b.session, o.message);
      }
    }
  }

  lemma ClearIgnores(s: Context, t: Context)
    requires SameConnection(s, t)
    ensures InTheClear(s) == InTheClear(t)
  {
  }

  lemma FinishCountsMacs(cr: Crypto, s: Context, x: Session, m: seq<byte>)
    requires |m| >= 4
    ensures var r := JudgeFinish(cr, s, x, m);
            r.status == Success ==>
              r.session.phase == Established && r.session.signatures == x.signatures
              && |r.session.macs| == |x.macs| + if InTheClear(s) then 1 else 0
  {
    hide TH2, VerifyFinishResponseHmac, HashSize, InTheClear;
  }

  // ---------- Both ways to fail ----------

  /** A session without mutual authentication that waits for FINISH, on a connection that can carry it. */
  ghost predicate WaitsForFinish(cr: Crypto, s: Context, id: u32) {
    var found := FindSession(s.sessions, id);
    && SizeLaws(cr) && KeysDerive(cr) && MayExchangeKeys(s) && |s.messageA| <= MAX_SMALL_BUFFER
    && PeerChainData(s).Some?
    && found.Some?
    && var x := s.sessions[found.value];
    && x.phase == Handshaking && !x.usePsk && x.mutAuthRequested == 0 && |x.messageK| <= MAX_K && x.messageF == []
  }

  /** The MAC of FINISH_RSP that such a requester accepts. */
  ghost function RightMac(cr: Crypto, s: Context, x: Session): seq<byte> {
    var header: seq<byte> := [VERSION_11, FINISH, 0, 0];
    var mac := cr.hmac(s.algorithms.baseHash, x.keys.requestFinished, FinishHead(cr, s, x) + header);
    cr.hmac(s.algorithms.baseHash, x.keys.responseFinished, FinishHead(cr, s, x) + (header + mac + FINISH_RSP_HEADER))
  }

  /** Some answer always makes FINISH succeed: the header alone, with the MAC in the clear. */
  lemma FinishCanSucceed(cr: Crypto, s: Context, id: u32)
    requires WaitsForFinish(cr, s, id)
    ensures var x := s.sessions[FindSession(s.sessions, id).value];
            var m := FINISH_RSP_HEADER + (if InTheClear(s) then RightMac(cr, s, x) else []);
            TryFinish(cr, s, id, 0, Says(m)).status == Success
  {
    hide SizeLaws, KeysDerive, IsCapable, FindSession, BuildFinish, UnboundedBuild, JudgeFinish, UnboundedJudge,
         FinishHead, InTheClear, PeerChainData, HashSize;
    var x := s.sessions[FindSession(s.sessions, id).value];
    var s0 := s.(errorState := NoCapabilities);
    var header: seq<byte> := [VERSION_11, FINISH, 0, 0];
    var m := FINISH_RSP_HEADER + (if InTheClear(s) then RightMac(cr, s, x) else []);
    SameFinishHead(cr, s, s0, x);
    assert header + [] == header;
    BuildFits(cr, s0, x, header);
    RequestIsBuilt(cr, s0, x, header, []);
    var mac := cr.hmac(s.algorithms.baseHash, x.keys.requestFinished, FinishHead(cr, s, x) + header);
    MacSize(cr, s.algorithms.baseHash, x.keys.requestFinished, FinishHead(cr, s, x) + header);
    var built := x.(messageF := header + mac);
    JudgeFits(cr, s0, built, m);
    RightAnswerIsTaken(cr, s0, x, built, mac, m);
    RightMacSize(cr, s, x);
    assert LongOutcome(Says(m), FINISH_RSP, FINISH_MAX) == Answer(m);
  }

  lemma SameFinishHead(cr: Crypto, s: Context, t: Context, x: Session)
    requires t == s.(errorState := t.errorState)
    ensures FinishHead(cr, t, x) == FinishHead(cr, s, x) && InTheClear(t) == InTheClear(s)
            && PeerChainData(t) == PeerChainData(s)
  {
  }

  lemma RightMacSize(cr: Crypto, s: Context, x: Session)
    requires SizeLaws(cr)
    ensures |RightMac(cr, s, x)| == HashSize(s.algorithms.baseHash) <= MAX_HASH
  {
    hide FinishHead;
  }

  lemma RightAnswerIsTaken(cr: Crypto, s: Context, x: Session, built: Session, mac: seq<byte>, m: seq<byte>)
    requires SizeLaws(cr) && KeysDerive(cr) && PeerChainData(s).Some? && x.mutAuthRequested == 0
    requires mac == cr.hmac(s.algorithms.baseHash, x.keys.requestFinished,
                            FinishHead(cr, s, x) + [VERSION_11, FINISH, 0, 0])
    requires built == x.(messageF := [VERSION_11, FINISH, 0, 0] + mac)
    requires m == FINISH_RSP_HEADER + (if InTheClear(s) then RightMac(cr, s, x) else [])
    ensures UnboundedJudge(cr, s, built, m).status == Success
  {
    hide SizeLaws, KeysDerive, InTheClear, PeerChainData, HashSize, Head, LocalChainData;
    RightMacSize(cr, s, x);
    DataKeysDerive(cr);
    assert m[..4] == FINISH_RSP_HEADER;
    if InTheClear(s) {
      assert m[4..] == RightMac(cr, s, x);
    }
  }

  /**
   Set up in the clear and finished on a connection that is not: a bare header establishes a session without any
   responder MAC.
   */
  lemma FinishWithoutMac(cr: Crypto, s: Context, id: u32)
    requires WaitsForFinish(cr, s, id) && !InTheClear(s)
    requires var x := s.sessions[FindSession(s.sessions, id).value]; x.inTheClear && x.macs == []
    ensures var r := TryFinish(cr, s, id, 0, Says(FINISH_RSP_HEADER));
            var y := r.ctx.sessions[FindSession(s.sessions, id).value];
            r.status == Success && y.phase == Established && y.macs == []
  {
    hide WaitsForFinish, TryFinish, FindSession, SizeLaws, InTheClear;
    assert FINISH_RSP_HEADER + [] == FINISH_RSP_HEADER;
    FinishCanSucceed(cr, s, id);
    Obeys(cr, s, id);
    FinishCompletesItsExchange(cr, s, id, 0, Says(FINISH_RSP_HEADER));
  }

  /** Set up outside the clear and finished on a connection that is in it: the right MAC makes a second one. */
  lemma FinishWithSecondMac(cr: Crypto, s: Context, id: u32)
    requires WaitsForFinish(cr, s, id) && InTheClear(s)
    requires var x := s.sessions[FindSession(s.sessions, id).value]; !x.inTheClear && |x.macs| == 1
    ensures var x := s.sessions[FindSession(s.sessions, id).value];
            var r := TryFinish(cr, s, id, 0, Says(FINISH_RSP_HEADER + RightMac(cr, s, x)));
            var y := r.ctx.sessions[FindSession(s.sessions, id).value];
            r.status == Success && y.phase == Established && |y.macs| == 2
  {
    hide WaitsForFinish, TryFinish, FindSession, SizeLaws, InTheClear, RightMac;
    FinishCanSucceed(cr, s, id);
    Obeys(cr, s, id);
    FinishCompletesItsExchange(cr, s, id, 0,
                               Says(FINISH_RSP_HEADER
                                    + RightMac(cr, s, s.sessions[FindSession(s.sessions, id).value])));
  }

  lemma Obeys(cr: Crypto, s: Context, id: u32)
    requires WaitsForFinish(cr, s, id)
    ensures SizeLaws(cr) && FindSession(s.sessions, id).Some?
  {
    hide SizeLaws, FindSession;
  }
}
