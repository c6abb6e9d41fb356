/** TH data, TH1, TH2 and the seven generate/verify pairs of a session (SpdmCommonLibCryptoServiceSession.c). */
module TranscriptHash {
  import opened Bytes
  import opened Spdm
  import opened Crypto
  import opened ManagedBuffers
  import opened DeviceContext

  /** The digest of an optional chain, nothing when there is no chain. */
  function ChainDigest(cr: Crypto, s: Context, chain: Option<seq<byte>>): seq<byte> {
    if chain.Some? then cr.hash(s.algorithms.baseHash, chain.value) else []
  }

  /** SpdmCalculateTHForExchange: A, the chain digest, K. */
  function ExchangeData(cr: Crypto, s: Context, k: seq<byte>, chain: Option<seq<byte>>): Option<seq<byte>> {
    var th := s.messageA + ChainDigest(cr, s, chain) + k;
    if |th| <= MAX_MESSAGE_BUFFER then Some(th) else None
  }

  /** SpdmCalculateTHForFinish: A, the chain digest, K, the mutual chain digest, F. */
  function FinishData(cr: Crypto, s: Context, k: seq<byte>, f: seq<byte>, chain: Option<seq<byte>>,
                      mutual: Option<seq<byte>>): Option<seq<byte>> {
    var th := s.messageA + ChainDigest(cr, s, chain) + k + ChainDigest(cr, s, mutual) + f;
    if |th| <= MAX_MESSAGE_BUFFER then Some(th) else None
  }

  /** SpdmCalculateTHForExchange as it runs: appends to a local managed buffer. */
  method CalculateTHForExchange(cr: Crypto, s: Context, k: seq<byte>, chain: Option<seq<byte>>)
      returns (r: Option<seq<byte>>)
    ensures r == ExchangeData(cr, s, k, chain)
  {
    var buffer := new ManagedBuffer(MAX_MESSAGE_BUFFER);
    var status := buffer.Append(Data(s.messageA));
    if status != Success {
      return None;
    }
    assert [] + s.messageA == s.messageA;
    if chain.Some? {
      status := buffer.Append(Data(cr.hash(s.algorithms.baseHash, chain.value)));
      if status != Success {
        return None;
      }
    }
    assert buffer.Contents() == s.messageA + ChainDigest(cr, s, chain);
    status := buffer.Append(Data(k));
    if status != Success {
      return None;
    }
    return Some(buffer.data[..buffer.size]);
  }

  /** SpdmCalculateTHForFinish as it runs. */
  method CalculateTHForFinish(cr: Crypto, s: Context, k: seq<byte>, f: seq<byte>, chain: Option<seq<byte>>,
                              mutual: Option<seq<byte>>)
    returns (r: Option<seq<byte>>)
    ensures r == FinishData(cr, s, k, f, chain, mutual)
  {
    var buffer := new ManagedBuffer(MAX_MESSAGE_BUFFER);
    var status := buffer.Append(Data(s.messageA));
    if status != Success {
      return None;
    }
    assert [] + s.messageA == s.messageA;
    if chain.Some? {
      status := buffer.Append(Data(cr.hash(s.algorithms.baseHash, chain.value)));
      if status != Success {
        return None;
      }
    }
    ghost var prefix := s.messageA + ChainDigest(cr, s, chain);
    assert buffer.Contents() == prefix;
    status := buffer.Append(Data(k));
    if status != Success {
      return None;
    }
    if mutual.Some? {
      status := buffer.Append(Data(cr.hash(s.algorithms.baseHash, mutual.value)));
      if status != Success {
        return None;
      }
    }
    assert buffer.Contents() == prefix + k + ChainDigest(cr, s, mutual);
    status := buffer.Append(Data(f));
    if status != Success {
      return None;
    }
    return Some(buffer.data[..buffer.size]);
  }

  /** The responder's chain and the requester's chain, as the end in question knows them. */
  function ResponderChain(s: Context, isRequester: bool): Option<seq<byte>> {
    if isRequester then PeerChainData(s) else LocalChainData(s)
  }

  function RequesterChain(s: Context, isRequester: bool): Option<seq<byte>> {
    if isRequester then LocalChainData(s) else PeerChainData(s)
  }

  /** The bytes under the KEY_EXCHANGE signature, its HMAC and TH1; a PSK session has no chain. */
  function TH1Data(cr: Crypto, s: Context, session: Session, isRequester: bool): Option<seq<byte>> {
    if session.usePsk then ExchangeData(cr, s, session.messageK, None)
    else if ResponderChain(s, isRequester).None? then None
    else ExchangeData(cr, s, session.messageK, ResponderChain(s, isRequester))
  }

  /** The bytes under the FINISH signature and HMACs and TH2; `mutual` says whether the requester's chain is in. */
  function TH2DataWith(cr: Crypto, s: Context, session: Session, isRequester: bool, mutual: bool): Option<seq<byte>> {
    if session.usePsk then FinishData(cr, s, session.messageK, session.messageF, None, None)
    else if ResponderChain(s, isRequester).None? then None
    else if !mutual then FinishData(cr, s, session.messageK, session.messageF, ResponderChain(s, isRequester), None)
    else if RequesterChain(s, isRequester).None? then None
    else FinishData(cr, s, session.messageK, session.messageF, ResponderChain(s, isRequester),
                    RequesterChain(s, isRequester))
  }

  function TH2Data(cr: Crypto, s: Context, session: Session, isRequester: bool): Option<seq<byte>> {
    TH2DataWith(cr, s, session, isRequester, session.mutAuthRequested != 0)
  }

  /** SpdmCalculateTH1Hash and SpdmCalculateTH2Hash. */
  function TH1(cr: Crypto, s: Context, session: Session, isRequester: bool): Option<seq<byte>> {
    var th := TH1Data(cr, s, session, isRequester);
    if th.Some? then Some(cr.hash(s.algorithms.baseHash, th.value)) else None
  }

  function TH2(cr: Crypto, s: Context, session: Session, isRequester: bool): Option<seq<byte>> {
    var th := TH2Data(cr, s, session, isRequester);
    if th.Some? then Some(cr.hash(s.algorithms.baseHash, th.value)) else None
  }

  // ---------- The seven pairs ----------

  function MacOver(cr: Crypto, s: Context, key: seq<byte>, th: Option<seq<byte>>): Option<seq<byte>> {
    if th.Some? then Some(cr.hmac(s.algorithms.baseHash, key, th.value)) else None
  }

  /** SpdmGenerateKeyExchangeRspSignature and SpdmVerifyKeyExchangeRspSignature. */
  function GenerateKeyExchangeSignature(cr: Crypto, s: Context, session: Session): Option<seq<byte>> {
    var th := TH1Data(cr, s, session, false);
    if th.None? then None else cr.responderSign(s.algorithms.baseAsym, s.algorithms.baseHash, th.value)
  }

  predicate VerifyKeyExchangeSignature(cr: Crypto, s: Context, session: Session, signature: seq<byte>) {
    var th := TH1Data(cr, s, session, true);
    && th.Some? && PeerChainData(s).Some?
    && cr.verify(s.algorithms.baseAsym, s.algorithms.baseHash, PeerChainData(s).value, th.value, signature)
  }

  /** SpdmGenerateKeyExchangeRspHmac and SpdmVerifyKeyExchangeRspHmac. */
  function GenerateKeyExchangeHmac(cr: Crypto, s: Context, session: Session): Option<seq<byte>> {
    MacOver(cr, s, session.keys.responseFinished, TH1Data(cr, s, session, false))
  }

  predicate VerifyKeyExchangeHmac(cr: Crypto, s: Context, session: Session, mac: seq<byte>) {
    Some(mac) == MacOver(cr, s, session.keys.responseFinished, TH1Data(cr, s, session, true))
  }

  /** SpdmGenerateFinishReqSignature and SpdmVerifyFinishReqSignature. */
  function GenerateFinishSignature(cr: Crypto, s: Context, session: Session): Option<seq<byte>> {
    var th := TH2DataWith(cr, s, session, true, true);
    if th.None? then None else cr.requesterSign(s.algorithms.reqBaseAsym, s.algorithms.baseHash, th.value)
  }

  predicate VerifyFinishSignature(cr: Crypto, s: Context, session: Session, signature: seq<byte>) {
    var th := TH2DataWith(cr, s, session, false, true);
    && th.Some? && PeerChainData(s).Some?
    && cr.reqVerify(s.algorithms.reqBaseAsym, s.algorithms.baseHash, PeerChainData(s).value, th.value, signature)
  }

  /** SpdmGenerateFinishReqHmac and SpdmVerifyFinishReqHmac. */
  function GenerateFinishRequestHmac(cr: Crypto, s: Context, session: Session): Option<seq<byte>> {
    MacOver(cr, s, session.keys.requestFinished, TH2Data(cr, s, session, true))
  }

  predicate VerifyFinishRequestHmac(cr: Crypto, s: Context, session: Session, mac: seq<byte>) {
    Some(mac) == MacOver(cr, s, session.keys.requestFinished, TH2Data(cr, s, session, false))
  }

  /** SpdmGenerateFinishRspHmac and SpdmVerifyFinishRspHmac. */
  function GenerateFinishResponseHmac(cr: Crypto, s: Context, session: Session): Option<seq<byte>> {
    MacOver(cr, s, session.keys.responseFinished, TH2Data(cr, s, session, false))
  }

  predicate VerifyFinishResponseHmac(cr: Crypto, s: Context, session: Session, mac: seq<byte>) {
    Some(mac) == MacOver(cr, s, session.keys.responseFinished, TH2Data(cr, s, session, true))
  }

  /** SpdmGeneratePskExchangeRspHmac and SpdmVerifyPskExchangeRspHmac. */
  function GeneratePskExchangeHmac(cr: Crypto, s: Context, session: Session): Option<seq<byte>> {
    MacOver(cr, s, session.keys.responseFinished, ExchangeData(cr, s, session.messageK, None))
  }

  predicate VerifyPskExchangeHmac(cr: Crypto, s: Context, session: Session, mac: seq<byte>) {
    Some(mac) == MacOver(cr, s, session.keys.responseFinished, ExchangeData(cr, s, session.messageK, None))
  }

  /** SpdmGeneratePskFinishReqHmac and SpdmVerifyPskFinishReqHmac. */
  function GeneratePskFinishHmac(cr: Crypto, s: Context, session: Session): Option<seq<byte>> {
    MacOver(cr, s, session.keys.requestFinished, FinishData(cr, s, session.messageK, session.messageF, None, None))
  }

  predicate VerifyPskFinishHmac(cr: Crypto, s: Context, session: Session, mac: seq<byte>) {
    Some(mac) == MacOver(cr, s, session.keys.requestFinished,
                         FinishData(cr, s, session.messageK, session.messageF, None, None))
  }

  /** Requester q and responder p, each with its record of one session, hold the same session. */
  ghost predicate Mirrored(q: Context, p: Context, qs: Session, ps: Session) {
    && q.messageA == p.messageA && q.algorithms == p.algorithms
    && PeerChainData(q) == LocalChainData(p) && PeerChainData(p) == LocalChainData(q)
    && qs.messageK == ps.messageK && qs.messageF == ps.messageF && qs.keys == ps.keys
    && qs.usePsk == ps.usePsk && qs.mutAuthRequested == ps.mutAuthRequested
  }

  /** Mirrored contexts compute the same TH data, TH1 and TH2. */
  lemma MirroredHashes(cr: Crypto, q: Context, p: Context, qs: Session, ps: Session)
    requires Mirrored(q, p, qs, ps)
    ensures TH1Data(cr, q, qs, true) == TH1Data(cr, p, ps, false)
    ensures forall m: bool :: TH2DataWith(cr, q, qs, true, m) == TH2DataWith(cr, p, ps, false, m)
    ensures TH1(cr, q, qs, true) == TH1(cr, p, ps, false)
    ensures TH2(cr, q, qs, true) == TH2(cr, p, ps, false)
    ensures ExchangeData(cr, q, qs.messageK, None) == ExchangeData(cr, p, ps.messageK, None)
    ensures FinishData(cr, q, qs.messageK, qs.messageF, None, None)
              == FinishData(cr, p, ps.messageK, ps.messageF, None, None)
  {
  }

  /**
   Duality, for every pair of mirrored contexts: a MAC is accepted by one end exactly when it is the one the
   other end generates, and a signature one end generates with the key of its chain is accepted by the other.
   */
  lemma GeneratedIsVerified(cr: Crypto, q: Context, p: Context, qs: Session, ps: Session, mac: seq<byte>)
    requires Mirrored(q, p, qs, ps)
    ensures !qs.usePsk && GenerateKeyExchangeSignature(cr, p, ps).Some? && PeerChainData(q).Some?
            && ResponderKeyMatches(cr, PeerChainData(q).value) && SignatureSize(q.algorithms.baseAsym) != 0 ==>
              VerifyKeyExchangeSignature(cr, q, qs, GenerateKeyExchangeSignature(cr, p, ps).value)
    ensures !qs.usePsk && GenerateFinishSignature(cr, q, qs).Some? && PeerChainData(p).Some?
            && RequesterKeyMatches(cr, PeerChainData(p).value) && SignatureSize(q.algorithms.reqBaseAsym) != 0 ==>
              VerifyFinishSignature(cr, p, ps, GenerateFinishSignature(cr, q, qs).value)
    ensures VerifyKeyExchangeHmac(cr, q, qs, mac) <==> GenerateKeyExchangeHmac(cr, p, ps) == Some(mac)
    ensures VerifyFinishRequestHmac(cr, p, ps, mac) <==> GenerateFinishRequestHmac(cr, q, qs) == Some(mac)
    ensures VerifyFinishResponseHmac(cr, q, qs, mac) <==> GenerateFinishResponseHmac(cr, p, ps) == Some(mac)
    ensures VerifyPskExchangeHmac(cr, q, qs, mac) <==> GeneratePskExchangeHmac(cr, p, ps) == Some(mac)
    ensures VerifyPskFinishHmac(cr, p, ps, mac) <==> GeneratePskFinishHmac(cr, q, qs) == Some(mac)
  {
    hide ExchangeData, FinishData, SignatureSize;
    MirroredHashes(cr, q, p, qs, ps);
  }
}
