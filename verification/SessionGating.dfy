/** What an established session proves about the messages that set it up. */
module SessionGating {
  import opened Bytes
  import opened Spdm
  import opened Crypto
  import opened ManagedBuffers
  import opened DeviceContext
  import opened Exchanges
  import opened SessionTable
  import opened TranscriptHash
  import opened SessionRequester

  /** Session calls leave everything else about the connection alone. */
  ghost predicate SameConnection(s: Context, t: Context) {
    t == s.(state := t.state, errorState := t.errorState, localChain := t.localChain, sessions := t.sessions,
            latestSessionId := t.latestSessionId)
  }

  /** What every transcript hash of a DHE session starts with: A and the digest of the responder's chain. */
  ghost function Head(cr: Crypto, s: Context): seq<byte> {
    s.messageA + ChainDigest(cr, s, PeerChainData(s))
  }

  ghost function Hashed(cr: Crypto, s: Context, data: seq<byte>): seq<byte> {
    cr.hash(s.algorithms.baseHash, data)
  }

  /** The HMAC field of KEY_EXCHANGE_RSP, absent when the handshake is in the clear. */
  ghost function ExchangeMac(x: Session): seq<byte> {
    if x.inTheClear || x.macs == [] then [] else x.macs[0].mac
  }

  /** The bytes TH1 was taken over: everything the accepted signature covers, and the signature. */
  ghost function TH1Bytes(x: Session): seq<byte>
    requires |x.signatures| == 1
  {
    x.signatures[0].transcript + x.signatures[0].signature
  }

  /** A recorded MAC is the one the session's response key makes. */
  ghost predicate MacValid(cr: Crypto, s: Context, x: Session, m: AcceptedMac) {
    m.baseHash == s.algorithms.baseHash && m.key == x.keys.responseFinished
    && m.mac == cr.hmac(m.baseHash, m.key, m.transcript)
  }

  /**
   Exactly one signature was accepted. It verifies under the responder's chain over the transcript
   that K still holds, and the handshake keys come from that transcript and the signature.
   */
  ghost predicate Signed(cr: Crypto, s: Context, x: Session) {
    && !x.usePsk && PeerChainData(s).Some? && |x.signatures| == 1
    && var e := x.signatures[0];
    && e.asym == s.algorithms.baseAsym && e.baseHash == s.algorithms.baseHash && e.chainData == PeerChainData(s).value
    && cr.verify(e.asym, e.baseHash, e.chainData, e.transcript, e.signature)
    && cr.handshakeKeys(e.baseHash, x.secret, Hashed(cr, s, TH1Bytes(x))) == Some(x.keys)
    && x.inTheClear == InTheClear(s)
    && Head(cr, s) + x.messageK == TH1Bytes(x) + ExchangeMac(x)
  }

  /** Outside the clear, KEY_EXCHANGE_RSP carried the one accepted MAC, over exactly the TH1 bytes. */
  ghost predicate ExchangeMacAccepted(cr: Crypto, s: Context, x: Session)
    requires |x.signatures| == 1
  {
    |x.macs| == 1 && MacValid(cr, s, x, x.macs[0]) && x.macs[0].transcript == TH1Bytes(x)
  }

  /** A DHE session waiting for FINISH. */
  ghost predicate Exchanged(cr: Crypto, s: Context, x: Session) {
    && Signed(cr, s, x) && x.phase == Handshaking && x.messageF == []
    && if x.inTheClear then x.macs == [] else ExchangeMacAccepted(cr, s, x)
  }

  /** What the FINISH exchange left: F is request then response, and the data keys come from TH2 over all of it. */
  ghost predicate Finished(cr: Crypto, s: Context, x: Session, mutual: seq<byte>, request: seq<byte>,
                           response: seq<byte>)
    requires |x.signatures| == 1
  {
    && x.messageF == request + response
    && |request| == FinishRequestSize(s, x) && request[..2] == [VERSION_11, FINISH]
    && |response| == 4 + (if x.inTheClear then HashSize(s.algorithms.baseHash) else 0) && response[1] == FINISH_RSP
    && |mutual| == (if x.mutAuthRequested != 0 then HashSize(s.algorithms.baseHash) else 0)
    && cr.dataKeys(s.algorithms.baseHash, x.secret,
                   Hashed(cr, s, TH1Bytes(x) + ExchangeMac(x) + mutual + request + response))
    && (x.inTheClear ==>
          && |x.macs| == 1 && MacValid(cr, s, x, x.macs[0])
          && x.macs[0].mac == response[4..]
          && x.macs[0].transcript == TH1Bytes(x) + mutual + request + response[..4])
  }

  /** An established DHE session: one signature and exactly one responder MAC were accepted. */
  ghost predicate DheGated(cr: Crypto, s: Context, x: Session) {
    && Signed(cr, s, x)
    && |x.macs| == 1 && MacValid(cr, s, x, x.macs[0])
    && (!x.inTheClear ==> ExchangeMacAccepted(cr, s, x))
    && exists mutual, request, response :: Finished(cr, s, x, mutual, request, response)
  }

  /** A PSK session whose PSK_EXCHANGE_RSP MAC was accepted over A and the rest of K. */
  ghost predicate PskSigned(cr: Crypto, s: Context, x: Session) {
    && x.usePsk && x.signatures == [] && |x.macs| == 1 && MacValid(cr, s, x, x.macs[0])
    && s.messageA + x.messageK == x.macs[0].transcript + x.macs[0].mac
    && x.secret == cr.psk(s.local.pskHint)
    && cr.handshakeKeys(s.algorithms.baseHash, x.secret, Hashed(cr, s, x.macs[0].transcript)) == Some(x.keys)
  }

  ghost predicate PskGated(cr: Crypto, s: Context, x: Session) {
    PskSigned(cr, s, x)
    && cr.dataKeys(s.algorithms.baseHash, x.secret, Hashed(cr, s, s.messageA + x.messageK + x.messageF))
  }

  /** What being established entitles the requester to conclude. */
  ghost predicate Gated(cr: Crypto, s: Context, x: Session) {
    x.phase == Established ==> if x.usePsk then PskGated(cr, s, x) else DheGated(cr, s, x)
  }

  // ---------- KEY_EXCHANGE ----------

  /** The MAC gate: what is accepted is ready for FINISH. */
  lemma MacGate(cr: Crypto, s: Context, x: Session, mac: seq<byte>)
    requires !x.usePsk && PeerChainData(s).Some? && |x.signatures| == 1 && x.macs == [] && x.messageF == []
             && !x.inTheClear
    requires Signed(cr, s, x.(inTheClear := InTheClear(s)))
    ensures var v := JudgeMac(cr, s, x, mac);
            v.Accepted? ==>
              Exchanged(cr, s, v.session) && v.session.id == x.id && v.session.mutAuthRequested == x.mutAuthRequested
              && v.session.messageK == x.messageK + (if InTheClear(s) then [] else mac)
    ensures !JudgeMac(cr, s, x, mac).Kept?
    ensures JudgeMac(cr, s, x, mac).Rejected? ==> JudgeMac(cr, s, x, mac).status == SecurityViolation
  {
    hide IsCapable;
    var v := JudgeMac(cr, s, x, mac);
    var head := Head(cr, s);
    assert TH1Bytes(x) + [] == TH1Bytes(x);
    assert TH1Data(cr, s, x, true).Some? ==> TH1Data(cr, s, x, true).value == head + x.messageK == TH1Bytes(x);
    if v.Accepted? && !InTheClear(s) {
      assert head + (x.messageK + mac) == head + x.messageK + mac;
    }
  }

  /** The signature gate. */
  lemma SignatureGate(cr: Crypto, s: Context, x: Session, share: seq<byte>, peerShare: seq<byte>, signature: seq<byte>,
                      mac: seq<byte>)
    requires !x.usePsk && x.signatures == [] && x.macs == [] && x.messageF == [] && !x.inTheClear
    ensures var v := JudgeSignature(cr, s, x, share, peerShare, signature, mac);
            v.Accepted? ==>
              Exchanged(cr, s, v.session) && v.session.id == x.id && v.session.mutAuthRequested == x.mutAuthRequested
              && v.session.messageK == x.messageK + signature + (if InTheClear(s) then [] else mac)
    ensures var v := JudgeSignature(cr, s, x, share, peerShare, signature, mac);
            !v.Kept? && (v.Rejected? ==> v.status == SecurityViolation)
  {
    hide JudgeMac, InTheClear, Exchanged;
    var v := JudgeSignature(cr, s, x, share, peerShare, signature, mac);
    var k2 := Cached(MAX_MESSAGE_BUFFER, x.messageK, signature);
    var secret := cr.dheSecret(s.algorithms.dhe, share, peerShare);
    if VerifyKeyExchangeSignature(cr, s, x, signature) && k2.Some? && secret.Some? {
      var evidence := AcceptedSignature(s.algorithms.baseAsym, s.algorithms.baseHash, PeerChainData(s).value,
                                        TH1Data(cr, s, x, true).value, signature);
      var x2 := x.(messageK := k2.value, secret := secret.value, signatures := x.signatures + [evidence]);
      assert Head(cr, s) + (x.messageK + signature) == Head(cr, s) + x.messageK + signature == TH1Bytes(x2);
      var th1 := TH1(cr, s, x2, true);
      if th1.Some? {
        assert th1.value == Hashed(cr, s, TH1Bytes(x2));
        var keys := cr.handshakeKeys(s.algorithms.baseHash, secret.value, th1.value);
        if keys.Some? {
          var x3 := x2.(keys := keys.value);
          assert TH1Bytes(x3) + [] == TH1Bytes(x3);
          MacGate(cr, s, x3, mac);
        }
      }
    }
  }

  lemma CutsInFour(req: seq<byte>, m: seq<byte>, end: nat, a: nat, b: nat)
    requires end + a + b <= |m|
    ensures req + m[..end] + m[end..end + a] + m[end + a..end + a + b] == req + m[..end + a + b]
  {
  }

  /**
   Whatever a response makes of a fresh session: kept only by the oversized-opaque exit, accepted only through both
   gates.
   */
  lemma VerdictIsGated(cr: Crypto, s: Context, id: u32, hashType: byte, req: seq<byte>, share: seq<byte>, m: seq<byte>)
    ensures var v := VerdictOn(cr, s, id, hashType, req, share, m);
            match v
            case Rejected(status, _) => status != Success && status != NoResponse
            case Kept(x) => OversizedOpaque(s, hashType, m) && x.id == id && x.phase == Idle
            case Accepted(x) =>
              && x.id == id && Exchanged(cr, s, x) && |m| >= 40 && x.mutAuthRequested == m[6]
              && |req| <= |x.messageK| <= |req| + |m| && x.messageK == req + m[..|x.messageK| - |req|]
    ensures |req| <= MAX_MESSAGE_BUFFER && OversizedOpaque(s, hashType, m) ==>
              VerdictOn(cr, s, id, hashType, req, share, m).Kept?
  {
    hide JudgeSignature, VersionSelectionOk, Exchanged, IsCapable, DhePubKeySize, SignatureSize, HashSize,
         SummaryHashSize;
    var k := Cached(MAX_MESSAGE_BUFFER, [], req);
    var l := KexLayoutOf(s, hashType);
    var fixed := 42 + l.share + l.summary;
    if k.Some? && |m| >= fixed + l.signature + l.mac {
      var opq: nat := At16(m, fixed - 2);
      if opq <= MAX_OPAQUE && |m| >= fixed + opq + l.signature + l.mac
         && VersionSelectionOk(s.local, m[fixed..fixed + opq]) {
        var k1 := Cached(MAX_MESSAGE_BUFFER, k.value, m[..fixed + opq]);
        if k1.Some? {
          var end := fixed + opq;
          assert k1.value == req + m[..end];
          CutsInFour(req, m, end, l.signature, l.mac);
          assert InTheClear(s) ==> l.mac == 0;
          SignatureGate(cr, s, FreshSession(id, false).(messageK := k1.value, mutAuthRequested := m[6]), share,
                        m[40..40 + l.share], m[fixed + opq..fixed + opq + l.signature],
                        m[fixed + opq + l.signature..fixed + opq + l.signature + l.mac]);
        }
      }
    }
  }

  // ---------- FINISH ----------

  /** The data keys of a session come from the TH2 that its context still computes. */
  ghost predicate KeyedByTH2(cr: Crypto, s: Context, x: Session) {
    var th2 := TH2(cr, s, x, true);
    th2.Some? && cr.dataKeys(s.algorithms.baseHash, x.secret, th2.value)
  }

  lemma ConcludeKeys(cr: Crypto, s: Context, x: Session)
    ensures var r := Conclude(cr, s, x);
            && (r.status == Success ==> KeyedByTH2(cr, s, r.session))
            && r.status != NoResponse && r.session == x.(phase := r.session.phase)
            && (x.phase != Established ==> (r.session.phase == Established <==> r.status == Success))
  {
    hide ExchangeData, FinishData, PeerChainData, LocalChainData;
  }

  /** TH2 is computed from A, the algorithms, the two chains and the session. */
  lemma KeyedByTH2Ignores(cr: Crypto, s: Context, t: Context, x: Session)
    requires SameConnection(s, t) && s.localChain == t.localChain
    ensures KeyedByTH2(cr, s, x) <==> KeyedByTH2(cr, t, x)
  {
  }

  /** The request is appended whole to F; on the way only F changes. */
  lemma FinishIsBuilt(cr: Crypto, s: Context, x: Session, header: seq<byte>)
    requires |header| == 4
    ensures SizeLaws(cr) ==>
              var b := BuildFinish(cr, s, x, header);
              && b.session == x.(messageF := b.session.messageF)
              && (b.complete ==>
                    && |b.session.messageF| == |x.messageF| + FinishRequestSize(s, x)
                    && b.session.messageF[..|x.messageF| + 4] == x.messageF + header
                    && Shrunk(b.session.messageF, FinishRequestSize(s, x)) == x.messageF)
  {
    hide TH2Data, TH2DataWith, SignatureSize, HashSize, BuildFinishMac;
    if SizeLaws(cr) {
      var b := x.(messageF := x.messageF + header);
      if x.mutAuthRequested == 0 {
        FinishMacIsBuilt(cr, s, b);
      } else {
        var signature := GenerateFinishSignature(cr, s, b);
        if signature.Some? {
          FinishMacIsBuilt(cr, s, b.(messageF := b.messageF + signature.value));
        }
      }
    }
  }

  lemma FinishMacIsBuilt(cr: Crypto, s: Context, x: Session)
    ensures SizeLaws(cr) ==>
              var b := BuildFinishMac(cr, s, x);
              && b.session == x.(messageF := b.session.messageF)
              && (b.complete ==> |b.session.messageF| == |x.messageF| + HashSize(s.algorithms.baseHash)
                                 && b.session.messageF[..|x.messageF|] == x.messageF)
  {
    hide TH2Data, HashSize;
  }

  /** The digest of the requester's chain, which TH2 covers when the responder asked for it. */
  ghost function MutualDigest(cr: Crypto, s: Context, x: Session): seq<byte> {
    if x.mutAuthRequested != 0 then ChainDigest(cr, s, LocalChainData(s)) else []
  }

  /** The bytes of TH2, and of the FINISH MACs. */
  lemma TH2Bytes(cr: Crypto, s: Context, x: Session)
    requires !x.usePsk && TH2Data(cr, s, x, true).Some?
    ensures TH2Data(cr, s, x, true).value == Head(cr, s) + x.messageK + MutualDigest(cr, s, x) + x.messageF
    ensures SizeLaws(cr) ==>
              |MutualDigest(cr, s, x)| == if x.mutAuthRequested != 0 then HashSize(s.algorithms.baseHash) else 0
  {
    hide PeerChainData, LocalChainData, HashSize;
  }

  /** F grows, the session's identity and evidence of the exchange stay. */
  lemma SignedIgnoresFinish(cr: Crypto, s: Context, x: Session, y: Session)
    requires Signed(cr, s, x)
    requires y == x.(messageF := y.messageF, phase := y.phase, macs := y.macs) && (x.inTheClear || y.macs == x.macs)
    ensures Signed(cr, s, y) && TH1Bytes(y) == TH1Bytes(x) && ExchangeMac(y) == ExchangeMac(x)
  {
    hide PeerChainData, InTheClear;
  }

  /** FINISH_RSP without a MAC. */
  lemma FinishGateProtected(cr: Crypto, s: Context, x: Session, m: seq<byte>)
    requires |m| >= 4 && m[1] == FINISH_RSP && !InTheClear(s)
    requires Exchanged(cr, s, x.(messageF := [])) && |x.messageF| == FinishRequestSize(s, x)
             && x.messageF[..2] == [VERSION_11, FINISH]
    ensures var r := JudgeFinish(cr, s, x, m);
            SizeLaws(cr) && r.status == Success ==> DheGated(cr, s, r.session)
  {
    hide HashSize, SignatureSize, InTheClear, TH2Data, PeerChainData, Head, MutualDigest;
    var r := JudgeFinish(cr, s, x, m);
    if SizeLaws(cr) && r.status == Success {
      var y := r.session;
      var b := x.(messageF := x.messageF + m);
      assert m[..4] == m;
      assert y == b.(phase := Established);
      SignedIgnoresFinish(cr, s, x.(messageF := []), y);
      TH2Bytes(cr, s, b);
      var mutual := MutualDigest(cr, s, b);
      assert Head(cr, s) + x.messageK + mutual + (x.messageF + m) == Head(cr, s) + x.messageK + mutual + x.messageF + m;
      assert FinishRequestSize(s, y) == FinishRequestSize(s, x);
      assert Finished(cr, s, y, mutual, x.messageF, m);
    }
  }

  /** FINISH_RSP whose MAC is the one responder MAC of a handshake in the clear. */
  lemma FinishGateInTheClear(cr: Crypto, s: Context, x: Session, m: seq<byte>)
    requires |m| >= 4 && m[1] == FINISH_RSP && InTheClear(s)
    requires Exchanged(cr, s, x.(messageF := [])) && |x.messageF| == FinishRequestSize(s, x)
             && x.messageF[..2] == [VERSION_11, FINISH]
    ensures var r := JudgeFinish(cr, s, x, m);
            SizeLaws(cr) && r.status == Success ==> DheGated(cr, s, r.session)
  {
    hide HashSize, SignatureSize, InTheClear, TH2Data, PeerChainData, LocalChainData, ChainDigest, Head;
    var r := JudgeFinish(cr, s, x, m);
    if SizeLaws(cr) && r.status == Success {
      var y := r.session;
      var b := x.(messageF := x.messageF + m[..4]);
      var b2 := b.(messageF := b.messageF + m[4..]);
      assert b2.messageF == x.messageF + m;
      SignedIgnoresFinish(cr, s, x.(messageF := []), y);
      TH2Bytes(cr, s, b);
      var c := b2.(macs := y.macs);
      TH2Bytes(cr, s, c);
      var mutual := MutualDigest(cr, s, b);
      assert mutual == MutualDigest(cr, s, c);
      var th1 := TH1Bytes(y);
      assert Head(cr, s) + x.messageK == th1 + [] == th1;
      assert th1 + mutual + (x.messageF + m[..4]) == th1 + mutual + x.messageF + m[..4];
      assert th1 + mutual + (x.messageF + m) == th1 + mutual + x.messageF + m;
      assert th1 + ExchangeMac(y) == th1;
      assert FinishRequestSize(s, y) == FinishRequestSize(s, x);
      assert Finished(cr, s, y, mutual, x.messageF, m);
    }
  }

  /** A FINISH_RSP that concludes the session leaves it gated. */
  lemma FinishGate(cr: Crypto, s: Context, x: Session, m: seq<byte>)
    requires |m| >= 4 && m[1] == FINISH_RSP
    requires Exchanged(cr, s, x.(messageF := [])) && |x.messageF| == FinishRequestSize(s, x)
             && x.messageF[..2] == [VERSION_11, FINISH]
    ensures var r := JudgeFinish(cr, s, x, m);
            && r.status != NoResponse && r.session.id == x.id && !r.session.usePsk
            && (r.session.phase == Established <==> r.status == Success)
            && (r.status == Success ==> KeyedByTH2(cr, s, r.session))
            && (SizeLaws(cr) && r.status == Success ==> DheGated(cr, s, r.session))
  {
    if InTheClear(s) {
      FinishGateInTheClear(cr, s, x, m);
    } else {
      FinishGateProtected(cr, s, x, m);
    }
    hide InTheClear, HashSize, TH2Data, PeerChainData, SizeLaws, FinishRequestSize, DheGated, Conclude, KeyedByTH2;
    var b := x.(messageF := x.messageF + m[..4]);
    ConcludeKeys(cr, s, b);
    if TH2Data(cr, s, b, true).Some? {
      var evidence := AcceptedMac(s.algorithms.baseHash, x.keys.responseFinished, TH2Data(cr, s, b, true).value,
                                  m[4..]);
      ConcludeKeys(cr, s, b.(messageF := b.messageF + m[4..], macs := b.macs + [evidence]));
    }
  }

  // ---------- PSK_EXCHANGE and PSK_FINISH ----------

  /** An accepted PSK_EXCHANGE_RSP leaves the session with its one valid MAC. */
  lemma PskExchangeGate(cr: Crypto, s: Context, x: Session, hashType: byte, m: seq<byte>)
    requires |m| >= 12 && x.usePsk && x.signatures == [] && x.macs == []
    ensures var v := JudgePskExchange(cr, s, x, hashType, m);
            match v
            case PskRejected(status, _) => status != Success && status != NoResponse
            case PskAccepted(y) =>
              PskSigned(cr, s, y) && y.phase == Handshaking && y.id == x.id && y.messageF == x.messageF
  {
    hide IsCapable, HashSize, SummaryHashSize, VersionSelectionOk, JudgePskMac, PskSigned;
    var h := HashSize(s.algorithms.baseHash);
    var end := 12 + SummaryHashSize(s, true, hashType) + At16(m, 8) as int + At16(m, 10) as int;
    if |m| >= end + h && |x.messageK| + end <= MAX_MESSAGE_BUFFER {
      PskMacGate(cr, s, x.(messageK := x.messageK + m[..end]), m[end..end + h]);
    }
  }

  lemma PskMacGate(cr: Crypto, s: Context, x: Session, mac: seq<byte>)
    requires x.usePsk && x.signatures == [] && x.macs == []
    ensures var v := JudgePskMac(cr, s, x, mac);
            match v
            case PskRejected(status, _) => status != Success && status != NoResponse
            case PskAccepted(y) =>
              PskSigned(cr, s, y) && y.phase == Handshaking && y.id == x.id && y.messageF == x.messageF
  {
    assert s.messageA + [] == s.messageA;
    assert s.messageA + (x.messageK + mac) == s.messageA + x.messageK + mac;
  }

  /** Concluding a PSK session whose MAC was accepted. */
  lemma PskConcludeGate(cr: Crypto, s: Context, x: Session)
    requires PskSigned(cr, s, x) && x.phase == Handshaking
    ensures var r := Conclude(cr, s, x);
            && r.status != NoResponse && r.session == x.(phase := r.session.phase)
            && (r.session.phase == Established <==> r.status == Success)
            && Gated(cr, s, r.session) && (r.status == Success ==> KeyedByTH2(cr, s, r.session))
  {
    ConcludeKeys(cr, s, x);
    assert s.messageA + [] == s.messageA;
    var k := s.messageA + x.messageK;
    assert k + [] == k;
  }

  /** PSK_FINISH is built on F alone. */
  lemma PskFinishIsBuilt(cr: Crypto, s: Context, x: Session, stale: Stale)
    ensures var b := BuildPskFinish(cr, s, x, stale);
            && b.session == x.(messageF := b.session.messageF)
            && (SizeLaws(cr) && b.complete ==>
                  Shrunk(b.session.messageF, 4 + HashSize(s.algorithms.baseHash)) == x.messageF)
  {
    hide HashSize, FinishData;
  }

  lemma PskFinishGate(cr: Crypto, s: Context, x: Session, m: seq<byte>)
    requires PskSigned(cr, s, x) && x.phase == Handshaking
    ensures var r := JudgePskFinish(cr, s, x, m);
            && r.status != NoResponse && r.session == x.(phase := r.session.phase, messageF := r.session.messageF)
            && (r.session.phase == Established <==> r.status == Success)
            && Gated(cr, s, r.session) && (r.status == Success ==> KeyedByTH2(cr, s, r.session))
  {
    hide Conclude, KeyedByTH2;
    var b := WithF(x, m);
    if |m| == 4 && b.Some? {
      assert PskSigned(cr, s, b.value);
      PskConcludeGate(cr, s, b.value);
    }
  }
}
