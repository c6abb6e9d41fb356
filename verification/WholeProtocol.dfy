/** From VERSION to an established session, at both ends. */
module WholeProtocol {
  import opened Bytes
  import opened Spdm
  import opened Crypto
  import opened ManagedBuffers
  import opened DeviceContext
  import opened ConnectionRequester
  import opened ConnectionResponder
  import opened Negotiation
  import opened Handshake
  import opened SessionTable
  import opened TranscriptHash
  import opened SessionRequester
  import opened SessionResponder
  import opened SessionCalls
  import opened SessionLockstep

  /** What a session needs beyond what the connection needs. */
  ghost predicate SessionWanted(cr: Crypto, q: Context, p: Context, hashType: byte, e: KexEnv, c: Encapsulated) {
    && Version(q) == VERSION_11 && DheAgrees(cr) && KeysDerive(cr)
    && FlagIn(q.local.flags, KEY_EX_CAP) && FlagIn(p.local.flags, KEY_EX_CAP)
    && (q.local.securedVersionCount == 0) == (p.local.securedVersionCount == 0)
    && (hashType == 0 || hashType == 1 || hashType == 0xFF) && e.measured.Some?
    && e.encap.errorFree
    && MutualReady(cr, q.(algorithms := Agreed(Version(q), Selection(q, p))), p.(peerFlags := q.local.flags), e.encap,
                   c)
    && Coherent(q.sessions) && !Full(q.sessions)
    && ResponderCoherent(p.sessions) && !Full(p.sessions)
  }

  /** The connection leaves everything ready for the session. */
  lemma ConnectionPreparesSession(cr: Crypto, q: Context, p: Context, x: Setup, hashType: byte, e: KexEnv,
                                  c: Encapsulated)
    requires Ready(cr, q, p, x) && SessionWanted(cr, q, p, hashType, e, c)
    ensures var d := Connect(cr, q, p, x);
            SessionReady(cr, d.q, d.p, hashType, x.slot, e, c)
  {
    hide Connect, SizeLaws, DheAgrees, KeysDerive, MutualReady, Selection, SelectionSuffices, ResponderKeyMatches,
         ChainData, ChainOfSlot, HashSize,
         SignatureSize, Coherent, Full, ResponderCoherent, M1M2, ResponderFlagsOk, RequesterFlagsOk, And, VersionIn;
    ConnectionAuthenticates(cr, q, p, x);
    AgreedKeepsBase(Version(q), Selection(q, p));
    ChallengeNeedsASigner(q, p);
    var d := Connect(cr, q, p, x);
    MutualReadsLittle(cr, q.(algorithms := Agreed(Version(q), Selection(q, p))), p.(peerFlags := q.local.flags), d.q,
                      d.p, e.encap, c);
  }

  /** What mutual authentication reads of the two ends. */
  lemma MutualReadsLittle(cr: Crypto, q: Context, p: Context, q2: Context, p2: Context, e: EncapState, c: Encapsulated)
    requires q2.local == q.local && q2.algorithms == q.algorithms
    requires p2.local == p.local && p2.peerFlags == p.peerFlags && p2.peerChain == p.peerChain
    requires MutualReady(cr, q, p, e, c)
    ensures MutualReady(cr, q2, p2, e, c)
  {
    hide And, ChainOfSlot, ChainData, RequesterKeyMatches, SignatureSize, MutualAuth;
    assert MutAuthAsked(p2, e) == MutAuthAsked(p, e);
  }

  /**
   The whole protocol: the five connection exchanges and then a session start succeed against the responder's
   handlers, with mutual authentication in the session or without. Both ends are authenticated over the same M1M2 and
   hold the same established session.
   */
  lemma FromVersionToSession(cr: Crypto, q: Context, p: Context, x: Setup, k: KexInput, hashType: byte, e: KexEnv,
                             c: Encapsulated)
    requires Ready(cr, q, p, x) && SessionWanted(cr, q, p, hashType, e, c)
    ensures var d := Connect(cr, q, p, x);
            var o := StartWithResponder(cr, d.q, d.p, hashType, x.slot, k, e, c);
            && d.statuses == [Success, Success, Success, Success, Success] && o.status == Success
            && d.q.messageA == d.p.messageA && d.q.messageB == d.p.messageB && d.q.messageC == d.p.messageC
            && Twins(o.q, o.p, o.id)
            && var y := o.q.sessions[FindSession(o.q.sessions, o.id).value];
               var z := o.p.sessions[FindSession(o.p.sessions, o.id).value];
            && y.phase == Established && z.phase == Established
            && TH1Data(cr, o.q, y, true) == TH1Data(cr, o.p, z, false)
            && TH2Data(cr, o.q, y, true) == TH2Data(cr, o.p, z, false)
  {
    hide Connect, StartWithResponder, SessionReady, Ready, SessionWanted, Twins, FindSession, TH1Data, TH2Data, M1M2,
         Connected;
    ConnectionAuthenticates(cr, q, p, x);
    ConnectionPreparesSession(cr, q, p, x, hashType, e, c);
    var d := Connect(cr, q, p, x);
    SessionIsEstablishedAtBothEnds(cr, d.q, d.p, hashType, x.slot, k, e, c);
  }
}
