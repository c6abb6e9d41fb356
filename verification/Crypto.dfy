/**
 The cryptographic services the protocol calls. They are parameters of the model: a value of
 `Crypto` stands for one arbitrary implementation, and only the laws below are ever used.
 */
module Crypto {
  import opened Bytes
  import opened Spdm

  datatype Keys = Keys(requestFinished: seq<byte>, responseFinished: seq<byte>)

  datatype Crypto = Crypto(
    // digest of data under a base hash algorithm
    hash: (u32, seq<byte>) -> seq<byte>,
    // HMAC with a finished key
    hmac: (u32, seq<byte>, seq<byte>) -> seq<byte>,
    // X.509 validation of a whole certificate chain buffer
    chainOk: (u32, seq<byte>) -> bool,
    // the device's own signing service, as responder and as requester
    responderSign: (u32, u32, seq<byte>) -> Option<seq<byte>>,
    requesterSign: (u16, u32, seq<byte>) -> Option<seq<byte>>,
    // signature check against the leaf certificate of chain data
    verify: (u32, u32, seq<byte>, seq<byte>, seq<byte>) -> bool,
    reqVerify: (u16, u32, seq<byte>, seq<byte>, seq<byte>) -> bool,
    // a public share of the group, made from fresh randomness
    dheShare: (u16, seq<byte>) -> seq<byte>,
    // Diffie-Hellman secret from the group, the own public share and the peer share
    dheSecret: (u16, seq<byte>, seq<byte>) -> Option<seq<byte>>,
    // pre-shared secret selected by the hint
    psk: seq<byte> -> seq<byte>,
    // key schedule: finished keys from TH1, success of the data keys from TH2
    handshakeKeys: (u32, seq<byte>, seq<byte>) -> Option<Keys>,
    dataKeys: (u32, seq<byte>, seq<byte>) -> bool
  )

  /** Digests, MACs and public shares have the size the algorithm fixes. */
  ghost predicate SizeLaws(cr: Crypto) {
    && (forall a: u32, d: seq<byte> :: |cr.hash(a, d)| == HashSize(a))
    && (forall a: u32, k: seq<byte>, d: seq<byte> :: |cr.hmac(a, k, d)| == HashSize(a))
    && (forall g: u16, r: seq<byte> :: |cr.dheShare(g, r)| == DhePubKeySize(g))
    && (forall a: u16, h: u32, d: seq<byte> :: cr.requesterSign(a, h, d).Some? ==>
          |cr.requesterSign(a, h, d).value| == SignatureSize(a))
  }

  /** The responder's signing key belongs to the leaf of `chainData`. */
  ghost predicate ResponderKeyMatches(cr: Crypto, chainData: seq<byte>) {
    forall a: u32, h: u32, d: seq<byte> ::
      SignatureSize(a) != 0 ==>
        && cr.responderSign(a, h, d).Some?
        && |cr.responderSign(a, h, d).value| == SignatureSize(a)
        && cr.verify(a, h, chainData, d, cr.responderSign(a, h, d).value)
  }

  /** The requester's signing key belongs to the leaf of `chainData`. */
  ghost predicate RequesterKeyMatches(cr: Crypto, chainData: seq<byte>) {
    forall a: u16, h: u32, d: seq<byte> ::
      SignatureSize(a) != 0 ==>
        && cr.requesterSign(a, h, d).Some?
        && |cr.requesterSign(a, h, d).value| == SignatureSize(a)
        && cr.reqVerify(a, h, chainData, d, cr.requesterSign(a, h, d).value)
  }

  /** Both ends of a Diffie-Hellman exchange get the same secret. */
  ghost predicate DheAgrees(cr: Crypto) {
    forall g: u16, a: seq<byte>, b: seq<byte> ::
      && cr.dheSecret(g, cr.dheShare(g, a), cr.dheShare(g, b)).Some?
      && cr.dheSecret(g, cr.dheShare(g, a), cr.dheShare(g, b)) == cr.dheSecret(g, cr.dheShare(g, b), cr.dheShare(g, a))
  }

  /** The key schedule does not fail. */
  ghost predicate KeysDerive(cr: Crypto) {
    forall a: u32, s: seq<byte>, th: seq<byte> :: cr.handshakeKeys(a, s, th).Some? && cr.dataKeys(a, s, th)
  }
}
