# SPDM transcripts: a verified model of the handshake of both ends

Requester and responder of SPDM 1.0/1.1 (DSP0274 1.1.0) each build byte transcripts: A, B, C and M per
connection, K and F per session. They sign or MAC concatenations of them, and each end has to arrive at the
same bytes on its own. This project models the code that builds, takes back, hashes and checks those
transcripts, at both ends, and proves what the design relies on.

## How the model is laid out

* **Values.** `Bytes`, `Spdm` (codes, limits, size tables), `Crypto` (hash, HMAC, signatures, X.509,
  Diffie-Hellman and key schedule as one arbitrary record of functions; the laws used are the predicates
  beside it), `DeviceContext` (the context as a value).
* **Step functions.** `ConnectionRequester`, `CertificateTransfer`, `Measurement`, `SessionRequester` map a
  context and everything that arrives from outside to status, context and output of one attempt;
  `ConnectionResponder` and `SessionResponder` do the same for the responder's handlers. `Retrying` adds the
  retry loop, `SessionCalls`, `ConnectionRuns` and `ApiRuns` the calls and runs. A reply is any behaviour of the
  transport: a failing send, a failing receive, or any bytes.
* **Code.** `ManagedBuffers.ManagedBuffer`, `SessionTable.Table` and `Device.Device` are the objects the code
  updates in place. `RequesterCode`, `ResponderCode`, `SessionCode` and `RequesterApi` are the functions as
  they run, with their loops and early returns, each proved to leave exactly the status, output and context of
  its step function.
* **Bytes.** `Meaning`, `ExactConnection`, `CertificateGate`, `ExactMeasurement`, `ExactSessions`, `ExactResponder` and
  `FailedRequests` say in literal bytes, bits and sizes when each request succeeds, what it then leaves behind, and how
  it fails: equivalences over every context and every reply, which name none of the step functions' own parts.
* **Theorems.** Everything else: about one exchange, about two ends, and about every run.

## Main results

1. **End to end** (`Handshake`): the five connection exchanges succeed against the responder's handlers and
   authenticate both ends over the same M1M2. **Sessions end to end** (`SessionLockstep`): KEY_EXCHANGE and
   FINISH succeed against the responder's handlers, with mutual authentication or without, and establish the same
   session at both ends. Together (`WholeProtocol`): from VERSION to an established session. `Witnesses` shows that
   the conditions can be met.
2. **Lockstep** (`Lockstep`, `LockstepRuns`): the transcripts of both ends agree over every run of harmless
   exchanges, completed or turned down, and an ERROR breaks agreement exactly when it is late. **Duality**
   (`TranscriptHash`): mirrored contexts compute the same TH data, and what one end generates the other accepts.
3. **Gating** (`SessionGating`, `SessionRuns`, `SessionTheorems`): over every run of starts and stops, against any
   responder, an established session had its signature and exactly one responder MAC accepted; `ApiRuns` carries
   this through every sequence of calls of the interface, with re-initialisation. **TH prefix** and **session table
   coherence** are proved over runs, **failure atomicity** for every KEY_EXCHANGE and PSK_EXCHANGE attempt and for
   whole starts (`StuckSessions`).
4. **Retry transparency** (`RetryTransparency`, `CertificateRetry`): BUSY leaves no trace for ten requests, and for
   GET_VERSION and GET_CERTIFICATE exactly under the conditions below.
5. **Certificate transfer** (`CertificateTransfer`, `Reassembly`): ends against any peer within 288 rounds, and
   reassembles every chain against the responder's handler; exactly when the chain fits where it is stored.
6. **Negotiation** (`AlgorithmTables`, `Negotiation`, `StaleAlgorithms`): agreement, optimality, a round trip of the
   variable-length tables, and where each algorithm comes from.
7. **Capacity** (`ApiRuns`, `SessionCapacity`): A stays within 208 bytes; a DHE start on fixed buffers is
   the start on unbounded ones.
8. **Connection invariant**, **authentication** and **genuine chains** over every run (`ConnectionRuns`), **measurement
   walk** and the transcript under measurement signatures (`Measurement`).
9. **Exact success** of each of the twelve requests in bytes (the modules under Bytes above): the transcript a
   signature or MAC is made over, the certificates it is checked with, the flags, sizes and lengths a message must have.

## Where the code does not do what one would expect

* **GET_VERSION is not transparent to BUSY.** It resets A, B and C once it has been sent, so a refused attempt
  followed by one that cannot be sent loses a transcript that the second attempt alone would keep.
  `VersionRetryLosesTranscript` shows it; `VersionRetry` gives the exact condition.
* **GET_CERTIFICATE is not transparent to BUSY** once a round has completed: the next attempt starts at offset 0
  with the completed rounds still in B (`CertificateRetryKeepsRounds`). `CertificateRewindsAlways`: no later attempt
  can tell if and only if the refusal answered the first round. `CertificateRetryExactly` has the condition for one
  given sequence of attempts, where there is one more way out: B runs full either way, filled by the same bytes
  (`FullMessageBHidesRefusal`).
* **GET_CERTIFICATE can overrun the buffer of the chain.** The assembly buffer holds 0x1200 bytes, the field it is
  copied to 0x1000, and what follows that field is overwritten. `LongChainOverruns` has a peer that reaches it,
  `StoredChainFitsExactly` the condition. What the context holds afterwards can be anything, and the theorems about
  runs with GET_CERTIFICATE are about runs without an overrun.
* **KEY_EXCHANGE leaks on oversized opaque data.** That exit frees neither the session nor the Diffie-Hellman
  context. `KeyExchangeIsAtomic` proves it is the only such exit, `SomeResponseLeaks` that it can be reached.
* **PSK_EXCHANGE leaks when its last steps fail.** Without PSK_FINISH, TH2 or the data keys can fail after the
  response was accepted, and the session stays live. `PskExchangeIsAtomic` has the condition,
  `SomePskResponseLeaks` a response that meets it.
* **The responder keeps a request that it turns down late.** Every handler but that of GET_CAPABILITIES caches the
  request, makes more checks and may then answer ERROR; the requester takes its request back, and the transcripts differ from then on
  (`DigestsErrorBreaksLockstep`). `ErrorBreaksAgreementExactly` gives the guards per handler.
* **Session algorithms can be those of an earlier connection.** The table parser of the ALGORITHMS response stores
  over what the context had, and the capability-conditioned checks are made on the result. `NegotiatedComesFrom` says
  where each algorithm comes from, `KeptExactly` and `ResponseDecidesExactly` have the condition, and
  `ReconnectKeepsOldAlgorithms` is a second SpdmInitConnection that ends with algorithms the responder never selected.
* **A failed start can leave its session behind for good.** FINISH and the encapsulated step free nothing, END_SESSION
  refuses a session that is not established, and no other call clears a slot. `StartIsAtomic` has the condition,
  `StuckForEver` and `FourLeaksAreFinal` what follows.
* **FINISH goes by what the connection says now.** Inside SpdmStartSession that is what KEY_EXCHANGE went by. On its own
  after a new SpdmInitConnection it is not: `FinishWithoutMac` and `FinishWithSecondMac` establish sessions with no
  responder MAC and with two, and `FinishCompletesItsExchange` has the condition.

## Conventions

`SizeLaws` says that digests, MACs, public shares and requester signatures have the size their algorithm fixes.
`ResponderKeyMatches` and, for mutual authentication, `RequesterKeyMatches` are the laws about signatures: an end signs,
and the check against its leaf certificate accepts what it signed over the same bytes. `DheAgrees` and `KeysDerive` are
used where two ends, or a FINISH on its own, have to succeed. A theorem that needs `SizeLaws` for every run states it as
the left side of an implication. The history fields `signatures`, `macs` and `inTheClear` of a session record what the
requester accepted; no operation reads them.

## Model

| member | source | states |
|---|---|---|
| `ManagedBuffers.ManagedBuffer.constructor` | Library/SpdmCommonLib/SpdmCommonLibSupport.c:269-283 | A buffer of one of the two sizes starts empty and zeroed. |
| `ManagedBuffers.ManagedBuffer.Append` | Library/SpdmCommonLib/SpdmCommonLibSupport.c:129-160 | The array holds the old bytes followed by the new ones, or reports the failure and holds what it held; bytes left stale by a shrink are overwritten. |
| `ManagedBuffers.ManagedBuffer.Shrink` | Library/SpdmCommonLib/SpdmCommonLibSupport.c:172-195 | The last n bytes are dropped, or the call fails and nothing changes; the array itself is left as it is. |
| `ManagedBuffers.ManagedBuffer.Reset` | Library/SpdmCommonLib/SpdmCommonLibSupport.c:206-218 | Empty, and every byte of the array is zero. |
| `ManagedBuffers.ManagedBuffer.Run` | Library/SpdmCommonLib/SpdmCommonLibSupport.c:129-218 | Any run of appends, shrinks and resets on the array reports and holds what the same run does on a bounded byte sequence. |
| `ManagedBuffers.AppendsConcatenate` | Library/SpdmCommonLib/SpdmCommonLibSupport.c:129-160 | A run of appends succeeds as a whole if and only if its total fits, and then holds the concatenation. |
| `ManagedBuffers.ApplyAllSplits` | Library/SpdmCommonLib/SpdmCommonLibSupport.c:129-218 | A run of operations can be cut anywhere: its statuses are those of the two parts in order, and its contents those of the second part run on what the first one left. |
| `ManagedBuffers.ShrinkUndoesAppends` | Library/SpdmCommonLib/SpdmCommonLibSupport.c:150-195 | Shrinking by the total of the last k appends restores the sequence from before them. |
| `DeviceContext.FindVersion` | Library/SpdmCommonLib/SpdmCommonLibContextData.c:807-826 | The search loop finds a version exactly when some negotiated entry has its major and minor number. |
| `DeviceContext.CalculateM1M2` | Library/SpdmCommonLib/SpdmCommonLibCryptoService.c:159-234 | The appends to a local buffer give A, B and C in this order, or MutB and MutC in mutual authentication, if together they have at most 0x1200 bytes, and nothing otherwise. |
| `Meaning.Queries` | Library/SpdmCommonLib/SpdmCommonLibContextData.c:840-864 | Each capability query of either role asks for the bits of the two flag words that SPDM 1.1 gives that capability. |
| `Meaning.SizesByBit` | Library/SpdmCryptLib/SpdmCryptLib.c:21-1525 | Digest, signature, public-key and AEAD key sizes, by the bit that stands for each algorithm; no other word has a size. |
| `Meaning.VersionByEntries` | Library/SpdmCommonLib/SpdmCommonLibContextData.c:807-826 | Messages are 1.1 exactly when an entry of the negotiated list has 0x11 in its upper byte. |
| `Meaning.KnownCertificates` | Library/SpdmCommonLib/SpdmCommonLibCryptoService.c:58-145 | Of a chain made of header, root hash and certificates, received, provisioned or local, the certificates are used. |
| `Meaning.RepliesMean` | Library/SpdmRequesterLib/SpdmRequesterLibHandleErrorResponse.c:37-216 | Which bytes count as the answer, as a refusal, as a wrong code and as nothing, RESPONSE_NOT_READY included. |
| `Meaning.RefusalsMean` | Library/SpdmRequesterLib/SpdmRequesterLibHandleErrorResponse.c:95-121 | Only BUSY may be retried, and only REQUEST_RESYNCH throws the connection away. |
| `Device.Device.constructor` | Library/SpdmCommonLib/SpdmCommonLibContextData.c:982-1028 | A fresh context: nothing negotiated, transcripts empty, no session. |
| `Device.Device.AppendA` | Library/SpdmCommonLib/SpdmCommonLibContextData.c:617-627 | Message A grows by the message and nothing else changes, or nothing changes at all. |
| `Device.Device.AppendB` | Library/SpdmCommonLib/SpdmCommonLibContextData.c:641-651 | The same for message B. |
| `Device.Device.AppendC` | Library/SpdmCommonLib/SpdmCommonLibContextData.c:665-675 | The same for message C. |
| `Device.Device.AppendM` | Library/SpdmCommonLib/SpdmCommonLibContextData.c:737-747 | The same for message M. |
| `Device.Device.AppendK` | Library/SpdmCommonLib/SpdmCommonLibContextData.c:761-771 | K of one session grows, or nothing changes. |
| `Device.Device.AppendF` | Library/SpdmCommonLib/SpdmCommonLibContextData.c:785-795 | F of one session grows, or nothing changes. |
| `Device.Device.Shrink` | Library/SpdmCommonLib/SpdmCommonLibSupport.c:172-195 | Taking a request back shortens exactly the transcript it was cached in. |
| `Device.Device.ResetTranscripts` | Library/SpdmRequesterLib/SpdmRequesterLibGetVersion.c:57-59 | A, B and C are emptied, M and the sessions stay. |
| `Device.Device.HandleSimpleError` | Library/SpdmRequesterLib/SpdmRequesterLibHandleErrorResponse.c:95-121 | BUSY may be retried, REQUEST_RESYNCH throws the connection away, everything else is a device error. |
| `Device.Receive` | Library/SpdmRequesterLib/SpdmRequesterLibHandleErrorResponse.c:194-216 | An ERROR other than NOT_READY takes the request back and is judged; NOT_READY leads to the delayed answer; a wrong code or a short message leaves the request cached. |
| `Device.ShrunkAppend` | Library/SpdmRequesterLib/SpdmRequesterLibHandleErrorResponse.c:210-212 | Shrinking by a message just appended restores the transcript. |
| `Retrying.RetryLoop` | Library/SpdmRequesterLib/SpdmRequesterLibChallenge.c:286-295 | The loop makes at most RetryTimes + 1 attempts, makes them all only when each is refused, and ends as the recursive definition. |
| `Retrying.RetryIsTransparent` | Library/SpdmRequesterLib/SpdmRequesterLibChallenge.c:286-295 | If a refused attempt leaves later attempts as they would have been, k <= RetryTimes refusals followed by another outcome end exactly as that last attempt alone. |
| `RetryTransparency.TenRequestsRewind` | Library/SpdmRequesterLib/SpdmRequesterLibHandleErrorResponse.c:194-216 | GET_CAPABILITIES, NEGOTIATE_ALGORITHMS, GET_DIGESTS, CHALLENGE, GET_MEASUREMENTS, KEY_EXCHANGE, FINISH, PSK_EXCHANGE, PSK_FINISH and END_SESSION have that property: after BUSY every later attempt returns the same status, output and whole context as without it. |
| `RetryTransparency.TenRequestsAreTransparent` | Library/SpdmRequesterLib/SpdmRequesterLibChallenge.c:286-295 | So for each of the ten: k <= RetryTimes refusals followed by an attempt with another outcome make the retried call end with status, output and whole context of that attempt alone. |
| `RetryTransparency.FinishBusyRestores` | Library/SpdmRequesterLib/SpdmRequesterLibFinish.c:108-155 | A refused FINISH takes back header, signature and MAC: the session is byte for byte what it was. |
| `RetryTransparency.PskFinishBusyRestores` | Library/SpdmRequesterLib/SpdmRequesterLibPskFinish.c:75-108 | The same for PSK_FINISH. |
| `RetryTransparency.MeasurementBusyRestores` | Library/SpdmRequesterLib/SpdmRequesterLibGetMeasurement.c:154-172 | A refused GET_MEASUREMENTS leaves message M as it was. |
| `RetryTransparency.VersionBusy` | Library/SpdmRequesterLib/SpdmRequesterLibGetVersion.c:43-84 | A refused GET_VERSION leaves A, B and C empty and the state NotStarted. |
| `RetryTransparency.VersionRewindsExactly` | Library/SpdmRequesterLib/SpdmRequesterLibGetVersion.c:43-84 | The next GET_VERSION attempt ends as without the refused one if and only if it can be sent or there was no transcript to lose. |
| `RetryTransparency.VersionRetry` | Library/SpdmRequesterLib/SpdmRequesterLibGetVersion.c:143-159 | The same for k refusals: retrying is transparent if and only if the deciding attempt is sent or A, B and C were empty. |
| `RetryTransparency.VersionRetryLosesTranscript` | Library/SpdmRequesterLib/SpdmRequesterLibGetVersion.c:49-63 | The failing family exists: BUSY, then a failing send, loses a transcript that the failing send alone keeps. |
| `CertificateRetry.CertificateRetryExactly` | Library/SpdmRequesterLib/SpdmRequesterLibGetCertificate.c:256-277 | k refused GET_CERTIFICATE attempts and a deciding one, 1 <= k <= RetryTimes, end as the deciding attempt alone if and only if every refusal answered the first round of its attempt, or B is full either way and the same bytes filled it. |
| `CertificateRetry.CertificateRetry` | Library/SpdmRequesterLib/SpdmRequesterLibGetCertificate.c:256-277 | Refusals of the first round are transparent, up to RetryTimes of them, told from the replies alone. |
| `CertificateRetry.CertificateRewindsAlways` | Library/SpdmRequesterLib/SpdmRequesterLibGetCertificate.c:80-168 | A refused attempt is invisible to every later one if and only if the refusal answered its first round. |
| `CertificateRetry.CertificateRetryKeepsRounds` | Library/SpdmRequesterLib/SpdmRequesterLibGetCertificate.c:80-168 | The failing family exists: one empty portion, BUSY, then a failing send leaves sixteen bytes in B that the failing send alone does not. |
| `CertificateRetry.FullMessageBHidesRefusal` | Library/SpdmRequesterLib/SpdmRequesterLibGetCertificate.c:80-168 | The exception for a full B exists: with 24 bytes free, a round completed before BUSY cannot be told from the round the next attempt completes. |
| `CertificateRetry.LoopEffect` | Library/SpdmRequesterLib/SpdmRequesterLibGetCertificate.c:80-168 | Whatever the peer, the loop extends B by its traffic; it ends in BUSY with no traffic exactly when the first round is refused. |
| `CertificateRetry.LoopsCompare` | Library/SpdmRequesterLib/SpdmRequesterLibGetCertificate.c:80-168 | Started with more bytes in B, the loop ends in the same step if and only if both runs meet a full B and the shorter one exchanged the difference too. |
| `AlgorithmTables.PrioritizeAlgorithm` | Library/SpdmResponderLib/SpdmResponderLibAlgorithm.c:132-150 | The index loop returns what the recursive selection defines. |
| `AlgorithmTables.PrioritizeIsBest` | Library/SpdmResponderLib/SpdmResponderLibAlgorithm.c:132-150 | For every pair of offers the selection is the first table entry both offer, or zero exactly when no entry is common. |
| `AlgorithmTables.PriorityTablesAreSingleBits` | Library/SpdmResponderLib/SpdmResponderLibAlgorithm.c:29-119 | Every entry of the eight priority tables is one bit. |
| `Meaning.PriorityOrder` | Library/SpdmResponderLib/SpdmResponderLibAlgorithm.c:29-119 | The responder prefers stronger algorithms within a family, ECDSA to RSA, PSS to SSA, elliptic curves to finite fields, and RSA for the requester's signature. |
| `AlgorithmTables.ScanLoop` | Library/SpdmResponderLib/SpdmResponderLibAlgorithm.c:216-244 | The first pass reads only inside the buffer, accepts exactly the well-formed tables, and visits the listed offsets. |
| `AlgorithmTables.LoadLoop` | Library/SpdmResponderLib/SpdmResponderLibAlgorithm.c:276-300 | The second pass visits exactly the offsets the first pass validated. |
| `AlgorithmTables.PassesReadEntries` | Library/SpdmRequesterLib/SpdmRequesterLibNegotiateAlgorithm.c:144-180 | Over entries laid out as a list of tables both passes succeed, end behind them and read the list. |
| `AlgorithmTables.TablesRoundTrip` | Library/SpdmRequesterLib/SpdmRequesterLibNegotiateAlgorithm.c:215-238 | Encoding any list of tables and parsing it back ends at the encoded size and yields the last value of each type. |
| `AlgorithmTables.ScannedIsEncoded` | Library/SpdmRequesterLib/SpdmRequesterLibNegotiateAlgorithm.c:144-180 | Whatever the first pass accepts reads as a list of tables with the fixed count of two and few extensions, and ends behind it. |
| `AlgorithmTables.StoreAllKeepsTheLast` | Library/SpdmRequesterLib/SpdmRequesterLibNegotiateAlgorithm.c:215-238 | Storing entry after entry keeps the last value per type. |
| `Negotiation.ResponderReadsRequest` | Library/SpdmResponderLib/SpdmResponderLibAlgorithm.c:201-300 | The responder's parser accepts the requester's request whole and reads its offer. |
| `Negotiation.RequesterReadsResponse` | Library/SpdmRequesterLib/SpdmRequesterLibNegotiateAlgorithm.c:132-240 | The requester's parser accepts the responder's response whole and reads its selection. |
| `Negotiation.ResponderNegotiates` | Library/SpdmResponderLib/SpdmResponderLibAlgorithm.c:171-439 | The responder answers with the selection exactly when it fits and passes its checks, and otherwise with an ERROR. |
| `Negotiation.RequesterNegotiates` | Library/SpdmRequesterLib/SpdmRequesterLibNegotiateAlgorithm.c:190-272 | The requester adopts exactly the selection when it passes its checks, and otherwise fails. |
| `Negotiation.SelectionIsOptimal` | Library/SpdmResponderLib/SpdmResponderLibAlgorithm.c:302-359 | Each of the seven offered fields is the best common algorithm; the measurement hash is the best of the responder's own; a 1.0 connection has no session algorithms. |
| `Negotiation.NegotiationAgrees` | Library/SpdmRequesterLib/SpdmRequesterLibNegotiateAlgorithm.c:190-272 | Whenever the requester succeeds, both ends hold the same algorithm record, it is optimal, and A grew by the same bytes at both ends. |
| `ExactConnection.KeptInOrder` | Library/SpdmRequesterLib/SpdmRequesterLibGetVersion.c:109-120 | The versions kept are those of the 1.0 and 1.1 entries, each once and in order. |
| `ExactConnection.VersionExactly` | Library/SpdmRequesterLib/SpdmRequesterLibGetVersion.c:30-129 | GET_VERSION succeeds exactly on a well-formed VERSION response with an entry for 1.0 or 1.1; what it leaves in A, B, C and the state, on success and failure. |
| `ExactConnection.FlagsByBits` | Library/SpdmRequesterLib/SpdmRequesterLibGetCapability.c:25-95 | The flag words either role refuses, by their bits: contradictions between capabilities and reserved values. |
| `ExactConnection.CapabilitiesExactly` | Library/SpdmRequesterLib/SpdmRequesterLibGetCapability.c:106-194 | GET_CAPABILITIES succeeds exactly on a response of twelve bytes with the version in use and, in 1.1, a flag word that is not refused; a refused word is a device error. |
| `ExactConnection.ChecksMean` | Library/SpdmRequesterLib/SpdmRequesterLibNegotiateAlgorithm.c:190-272 | The algorithm checks of both roles, clause by clause: hash, measurement, signature, key exchange, AEAD, mutual authentication and key schedule. |
| `ExactConnection.ReplyShape` | Library/SpdmRequesterLib/SpdmRequesterLibNegotiateAlgorithm.c:132-183 | The shape of an ALGORITHMS response: its Length field is the end of its tables, which read as a list. |
| `ExactConnection.RequestShape` | Library/SpdmResponderLib/SpdmResponderLibAlgorithm.c:201-250 | The same for the request, as the responder reads it. |
| `ExactConnection.AlgorithmsExactly` | Library/SpdmRequesterLib/SpdmRequesterLibNegotiateAlgorithm.c:54-272 | A response of that shape is accepted exactly when every capability in use gets a known algorithm; otherwise it is a security violation and the state stays. A grows by request and response. |
| `ExactConnection.ResponderConcludesExactly` | Library/SpdmResponderLib/SpdmResponderLibAlgorithm.c:361-438 | The responder's twin: it answers with the selection exactly when it gives every capability in use a known algorithm, and otherwise with the ERROR of the check that fails; a key schedule alone is an unsupported request. |
| `ExactConnection.DigestsExactly` | Library/SpdmRequesterLib/SpdmRequesterLibGetDigest.c:39-156 | GET_DIGESTS succeeds exactly when the response has a digest for every slot it names and the first is that of the provisioned chain, if there is one; a wrong digest is a security violation. |
| `ExactConnection.ChallengeExactly` | Library/SpdmRequesterLib/SpdmRequesterLibChallenge.c:45-253 | CHALLENGE succeeds exactly when the response carries the digest of the known chain and a signature that its certificates verify over A, B and C, with request and signed part in C. |
| `StaleAlgorithms.StoredComesFrom` | Library/SpdmRequesterLib/SpdmRequesterLibNegotiateAlgorithm.c:215-238 | After any list of entries each session algorithm is that of the last entry of its type, or the old one when there is no such entry. |
| `StaleAlgorithms.NegotiatedComesFrom` | Library/SpdmRequesterLib/SpdmRequesterLibNegotiateAlgorithm.c:190-272 | Over every accepted response, however its tables are made: each of the four session algorithms of the connection is that of the last entry of its type in a 1.1 response, the old one when there is none, and zero after a 1.0 response. |
| `StaleAlgorithms.KeptExactly` | Library/SpdmRequesterLib/SpdmRequesterLibNegotiateAlgorithm.c:215-238 | An algorithm keeps its old value, for every old value, if and only if the 1.1 response has no entry of its type. |
| `StaleAlgorithms.ResponseDecidesExactly` | Library/SpdmRequesterLib/SpdmRequesterLibNegotiateAlgorithm.c:190-272 | What the connection had before has no influence on its algorithms if and only if the response has an entry of each of the four types. |
| `StaleAlgorithms.NoTablesKeepAll` | Library/SpdmRequesterLib/SpdmRequesterLibNegotiateAlgorithm.c:215-272 | The failing family exists: a 1.1 response of 36 bytes without tables is accepted when the old session algorithms pass the checks, and leaves all four in force. |
| `StaleAlgorithms.ReconnectKeepsOldAlgorithms` | Library/SpdmRequesterLib/SpdmRequesterLibCommunication.c:26-52 | As a whole call: SpdmInitConnection on a used context, against a responder that answers VERSION and CAPABILITIES and sends no table, succeeds with the session algorithms of the earlier connection. |
| `StaleAlgorithms.OfferComesFrom` | Library/SpdmResponderLib/SpdmResponderLibAlgorithm.c:272-300 | The responder reads the offer in the same way: a table missing from a 1.1 request leaves what its context had. |
| `CertificateTransfer.CertificateRound` | Library/SpdmRequesterLib/SpdmRequesterLibGetCertificate.c:80-168 | A completed round adds at least sixteen bytes to B, appends one portion to the chain, and stays within both buffers. |
| `CertificateTransfer.RoundsAreBounded` | Library/SpdmRequesterLib/SpdmRequesterLibGetCertificate.c:80-168 | Against any peer, sixteen times the completed rounds fit into what is free in B. |
| `CertificateTransfer.AtMost288Rounds` | Library/SpdmRequesterLib/SpdmRequesterLibGetCertificate.c:80-168 | So no attempt completes more than 288 rounds. |
| `CertificateTransfer.EmptyPortionsFillMessageB` | Library/SpdmRequesterLib/SpdmRequesterLibGetCertificate.c:80-168 | A peer that sends empty portions for ever reaches the bound exactly. |
| `CertificateTransfer.StoredChain` | Library/SpdmRequesterLib/SpdmRequesterLibGetCertificate.c:170-177 | A chain is stored exactly when the last portion arrives and the chain passes its checks, and its length is the total of the portions. |
| `CertificateTransfer.StoredChainFitsExactly` | Library/SpdmRequesterLib/SpdmRequesterLibGetCertificate.c:170-177 | The stored chain fits the 0x1000 bytes of PeerUsedCertChainBuffer if and only if not (the transfer is accepted and its portions total more). |
| `CertificateGate.RoundExactly` | Library/SpdmRequesterLib/SpdmRequesterLibGetCertificate.c:80-168 | A round completes exactly when the response is for the slot and carries what it announces, with room in both buffers; the bytes it caches and the portion it joins. |
| `CertificateGate.CertificateExactly` | Library/SpdmRequesterLib/SpdmRequesterLibGetCertificate.c:45-199 | Against any peer, a transfer whose last portion arrived stores the joined portions exactly if they pass X.509 validation and match the provisioned root hash or, without one, the provisioned chain; any other chain is a security violation that stores nothing, and so does any transfer that breaks off. |
| `ConnectionRuns.ChainIsGenuine` | Library/SpdmCommonLib/SpdmCommonLibCryptoService.c:348-395 | Over every run without an overrun, the chain the requester holds is the one it began with, or one that passed these checks when a GET_CERTIFICATE of the run got it. |
| `EndToEnd.LongChainOverruns` | Library/SpdmRequesterLib/SpdmRequesterLibGetCertificate.c:170-177 | A responder that is provisioned with a longer chain and is otherwise in order makes the copy overrun, and the call reports success. |
| `EndToEnd.LongChainFitsMessageB` | Library/SpdmRequesterLib/SpdmRequesterLibGetCertificate.c:80-168 | Such a chain of 0x1001 bytes has room in B. |
| `Reassembly.ServeDrivesTheLoop` | Library/SpdmRequesterLib/SpdmRequesterLibGetCertificate.c:80-168 | The transfer against the responder's handler is what the loop does on those replies. |
| `Reassembly.RoundsIsCeiling` | Library/SpdmRequesterLib/SpdmRequesterLibGetCertificate.c:72-81 | The number of rounds is the chain length divided by the block length, rounded up. |
| `Reassembly.RoundServesABlock` | Library/SpdmResponderLib/SpdmResponderLibCertificate.c:92-123 | One round moves one block, offset + portion + remainder is the chain length, and both ends cache the same bytes. |
| `Reassembly.TransferReassembles` | Library/SpdmRequesterLib/SpdmRequesterLibGetCertificate.c:72-177 | For every non-empty chain and every block length, with room in B, the loop assembles exactly the chain in that many rounds and both ends cache the same bytes. |
| `Lockstep.CapabilityAnswersAgree` | Library/SpdmCommonLib/SpdmCommonLibContextData.c:840-864 | In 1.1 both roles answer every capability query alike. |
| `Lockstep.CapabilitiesKeepAgreement` | Library/SpdmResponderLib/SpdmResponderLibCapability.c:163-196 | A successful GET_CAPABILITIES keeps the two ends in agreement. |
| `Lockstep.SlotMaskBits` | Library/SpdmResponderLib/SpdmResponderLibDigest.c:94-114 | The mask has exactly the provisioned slots' bits. |
| `Lockstep.SlotsInMask` | Library/SpdmRequesterLib/SpdmRequesterLibGetDigest.c:115-120 | The requester's count of that mask is the number of slots. |
| `Lockstep.DigestsAreTakenWhole` | Library/SpdmRequesterLib/SpdmRequesterLibGetDigest.c:115-134 | The requester computes exactly the size the responder sent. |
| `Lockstep.DigestsKeepAgreement` | Library/SpdmResponderLib/SpdmResponderLibDigest.c:72-124 | A successful GET_DIGESTS keeps agreement. |
| `Lockstep.CertificateKeepsAgreement` | Library/SpdmResponderLib/SpdmResponderLibCertificate.c:74-133 | A completed certificate round keeps agreement. |
| `Lockstep.ChallengeKeepsAgreement` | Library/SpdmResponderLib/SpdmResponderLibChallengeAuth.c:63-169 | A successful CHALLENGE keeps agreement, message C included. |
| `LockstepRuns.BusyChangesNothing` | Library/SpdmResponderLib/SpdmResponderLibHandleResponseState.c:30-68 | A BUSY reply leaves the responder as it was, and of the requester changes the last-error word at most. |
| `LockstepRuns.StepKeepsAgreement` | Library/SpdmRequesterLib/SpdmRequesterLibGetDigest.c:79-134 | Every harmless exchange keeps agreement: a completed one, one turned down by an ERROR that is not late, and one met by BUSY, REQUEST_RESYNCH or REQUEST_IN_FLIGHT. |
| `LockstepRuns.LockstepRun` | Library/SpdmRequesterLib/SpdmRequesterLibChallenge.c:87-252 | Over every run of harmless exchanges A, B, C, flags and algorithms agree at both ends. |
| `LockstepRuns.ErrorBreaksAgreementExactly` | Library/SpdmResponderLib/SpdmResponderLibDigest.c:72-124 | For each of the five requests, an exchange that a responder in its normal state answers with ERROR breaks agreement if and only if the error is late: the guards that let the handler cache the request hold, and one behind that point fails. |
| `LockstepRuns.DigestsErrorBreaksLockstep` | Library/SpdmResponderLib/SpdmResponderLibDigest.c:72-92 | The failing family exists: a responder without a chain keeps the four bytes of GET_DIGESTS in B, the requester takes them back. |
| `LockstepRuns.ErrorsAreHarmlessUnlessLate` | Library/SpdmResponderLib/SpdmResponderLibDigest.c:31-127 | From agreeing contexts every ERROR of a responder in its normal state that is not late is harmless. |
| `LockstepRuns.OtherStatesKeepAgreement` | Library/SpdmResponderLib/SpdmResponderLibHandleResponseState.c:30-68 | BUSY, REQUEST_RESYNCH and REQUEST_IN_FLIGHT replies keep agreement. |
| `EndToEnd.CapabilitiesSucceed` | Library/SpdmRequesterLib/SpdmRequesterLibGetCapability.c:106-194 | GET_CAPABILITIES succeeds with compatible flags and room. |
| `EndToEnd.DigestsSucceed` | Library/SpdmRequesterLib/SpdmRequesterLibGetDigest.c:39-156 | GET_DIGESTS succeeds when a slot is provisioned. |
| `EndToEnd.CertificateSucceeds` | Library/SpdmRequesterLib/SpdmRequesterLibGetCertificate.c:45-199 | GET_CERTIFICATE stores the provisioned chain. |
| `EndToEnd.ChallengeSucceeds` | Library/SpdmRequesterLib/SpdmRequesterLibChallenge.c:45-253 | CHALLENGE succeeds and both ends are authenticated over the same M1M2. |
| `EndToEnd.ResponderSigns` | Library/SpdmResponderLib/SpdmResponderLibChallengeAuth.c:63-169 | The responder signs the transcript it caches. |
| `EndToEnd.RequesterAccepts` | Library/SpdmRequesterLib/SpdmRequesterLibChallenge.c:135-252 | A response with the right layout, chain hash and signature is accepted. |
| `Handshake.NegotiationSucceeds` | Library/SpdmResponderLib/SpdmResponderLibAlgorithm.c:171-439 | NEGOTIATE_ALGORITHMS succeeds at both ends when the selection passes the responder's checks. |
| `Handshake.ConnectionAuthenticates` | Library/SpdmRequesterLib/SpdmRequesterLibChallenge.c:87-252 | From contexts that agree after VERSION, with compatible flags and algorithms, a provisioned slot, a chain that validates and room, all five exchanges succeed, both ends are Authenticated, and the requester's M1M2 is the one the responder signed. |
| `RequesterCode.FilterVersions` | Library/SpdmRequesterLib/SpdmRequesterLibGetVersion.c:109-120 | The filter loop keeps the 1.0 and 1.1 entries in order. |
| `RequesterCode.GetVersion` | Library/SpdmRequesterLib/SpdmRequesterLibGetVersion.c:30-129 | Status and whole context are those of the step function, on every exit. |
| `RequesterCode.GetCapabilities` | Library/SpdmRequesterLib/SpdmRequesterLibGetCapability.c:106-194 | The same for GET_CAPABILITIES. |
| `RequesterCode.NegotiateAlgorithms` | Library/SpdmRequesterLib/SpdmRequesterLibNegotiateAlgorithm.c:54-274 | The same for NEGOTIATE_ALGORITHMS, with both passes as loops. |
| `RequesterCode.ScanAlgorithms` | Library/SpdmRequesterLib/SpdmRequesterLibNegotiateAlgorithm.c:132-183 | The accepted size equals the Length field and lies inside the response. |
| `RequesterCode.DigestsSize` | Library/SpdmRequesterLib/SpdmRequesterLibGetDigest.c:104-127 | The size agreed with the slot mask, or none. |
| `RequesterCode.GetDigests` | Library/SpdmRequesterLib/SpdmRequesterLibGetDigest.c:39-156 | The same for GET_DIGESTS. |
| `RequesterCode.Challenge` | Library/SpdmRequesterLib/SpdmRequesterLibChallenge.c:45-253 | The same for CHALLENGE. |
| `RequesterCode.VerifyChallengeSignature` | Library/SpdmCommonLib/SpdmCommonLibCryptoService.c:506-582 | The signature is checked over M1M2 against the peer's chain. |
| `RequesterCode.CertificateTurn` | Library/SpdmRequesterLib/SpdmRequesterLibGetCertificate.c:80-168 | One turn of the loop, on B and the local assembly buffer. |
| `RequesterCode.GetCertificate` | Library/SpdmRequesterLib/SpdmRequesterLibGetCertificate.c:45-199 | The loop ends against every peer, leaves status and context of the step function, and tells exactly whether its last copy overran the 0x1000-byte buffer of the chain. |
| `RequesterCode.GetMeasurement` | Library/SpdmRequesterLib/SpdmRequesterLibGetMeasurement.c:48-361 | Status, output and whole context are those of the step function, message M and its resets included. |
| `ResponderCode.HandleResponseState` | Library/SpdmResponderLib/SpdmResponderLibHandleResponseState.c:30-68 | BUSY, NOT_READY, RESYNCH and IN_FLIGHT replies and what they leave. |
| `ResponderCode.GetResponseCapability` | Library/SpdmResponderLib/SpdmResponderLibCapability.c:123-199 | Context and response are those of the handler function, on every exit. |
| `ResponderCode.GetResponseAlgorithm` | Library/SpdmResponderLib/SpdmResponderLibAlgorithm.c:171-439 | The same for ALGORITHMS, with both passes and the eight selections. |
| `ResponderCode.Select` | Library/SpdmResponderLib/SpdmResponderLibAlgorithm.c:302-359 | The eight prioritised selections. |
| `ResponderCode.GetResponseDigest` | Library/SpdmResponderLib/SpdmResponderLibDigest.c:31-127 | The same for DIGESTS, with the slot loop. |
| `ConnectionResponder.BuildDigests` | Library/SpdmResponderLib/SpdmResponderLibDigest.c:94-114 | The slot loop builds the mask and the digests in slot order. |
| `ConnectionRequester.CountSlots` | Library/SpdmRequesterLib/SpdmRequesterLibGetDigest.c:115-120 | The bit-counting loop counts the slots of the mask. |
| `ResponderCode.CutPortion` | Library/SpdmResponderLib/SpdmResponderLibCertificate.c:92-123 | The two clamps give the portion and the remainder. |
| `ResponderCode.GetResponseCertificate` | Library/SpdmResponderLib/SpdmResponderLibCertificate.c:31-136 | The same for CERTIFICATE. |
| `ResponderCode.GetResponseChallengeAuth` | Library/SpdmResponderLib/SpdmResponderLibChallengeAuth.c:31-172 | The same for CHALLENGE_AUTH. |
| `ExactResponder.OtherStates` | Library/SpdmResponderLib/SpdmResponderLibHandleResponseState.c:30-68 | The bytes of the four replies of a responder that is not in its normal state; only the second drops the connection. |
| `ExactResponder.CapabilitiesHandled` | Library/SpdmResponderLib/SpdmResponderLibCapability.c:123-199 | Context and message of the handler on every request, in bytes, with each ERROR. |
| `ExactResponder.AlgorithmsHandled` | Library/SpdmResponderLib/SpdmResponderLibAlgorithm.c:171-439 | The same for ALGORITHMS. |
| `ExactResponder.DigestsHandled` | Library/SpdmResponderLib/SpdmResponderLibDigest.c:31-127 | The same for DIGESTS. |
| `ExactResponder.DigestAt` | Library/SpdmResponderLib/SpdmResponderLibDigest.c:94-114 | The digests lie in slot order, each at its place. |
| `ExactResponder.CertificateHandled` | Library/SpdmResponderLib/SpdmResponderLibCertificate.c:31-136 | The same for CERTIFICATE. |
| `ExactResponder.ChallengeHandled` | Library/SpdmResponderLib/SpdmResponderLibChallengeAuth.c:31-172 | The same for CHALLENGE_AUTH, with the signature over A, B and C. |
| `ExactResponder.KexBodyIs` | Library/SpdmResponderLib/SpdmResponderLibKeyExchange.c:143-224 | KEY_EXCHANGE_RSP up to the signature, in bytes. |
| `ExactResponder.KexGuards` | Library/SpdmResponderLib/SpdmResponderLibKeyExchange.c:60-160 | The guards of KEY_EXCHANGE in order, each with its ERROR. |
| `ExactResponder.KexOpens` | Library/SpdmResponderLib/SpdmResponderLibKeyExchange.c:100-158 | Behind the guards the responder's half is 0xFFFF minus the first slot without one, and the session goes to the first free slot; a duplicate ID or a full table is over the limit. |
| `ExactResponder.SessionOpened` | Library/SpdmResponderLib/SpdmResponderLibKeyExchange.c:160-232 | K is the request and the answer, the secret that of the two shares, the chain that of the slot asked for; a refusal leaves the slot free. |
| `ExactResponder.AnswerSigned` | Library/SpdmResponderLib/SpdmResponderLibKeyExchange.c:226-276 | The signature is over A, the digest of the responder's certificates and K before it, the keys and the MAC over the same with it; each failure has its ERROR. |
| `ExactResponder.FinishGuards` | Library/SpdmResponderLib/SpdmResponderLibFinish.c:56-124 | The guards of FINISH in order, each with its ERROR. |
| `ExactResponder.FinishHandled` | Library/SpdmResponderLib/SpdmResponderLibFinish.c:126-202 | A FINISH request is accepted exactly when its signature, if asked for, and its MAC are right over the responder's own A, digests, K and F, and data keys can be derived; a wrong signature or MAC is a decrypt error, and F keeps what was right. |
| `ExactResponder.SendingEstablishes` | Library/SpdmResponderLib/SpdmResponderLibReceiveSend.c:370-400 | Sending FINISH_RSP establishes the session the request came in, or in the clear the latest one, and nothing else changes. |
| `Measurement.ClearingLowestBit` | Library/SpdmRequesterLib/SpdmRequesterLibGetMeasurement.c:339-341 | x & (x - 1) is zero exactly for powers of two. |
| `Measurement.SpecBitIsSingle` | Library/SpdmRequesterLib/SpdmRequesterLibGetMeasurement.c:339-341 | The check on a block's specification accepts exactly single bits. |
| `Measurement.RecordOkStep` | Library/SpdmRequesterLib/SpdmRequesterLibGetMeasurement.c:334-353 | An acceptable record is one good block followed by an acceptable rest. |
| `Measurement.WalkBlocks` | Library/SpdmRequesterLib/SpdmRequesterLibGetMeasurement.c:332-357 | The loop accepts exactly the records with at most NumberOfBlocks blocks, each inside the record, with the negotiated single-bit specification and an index in 1..NumberOfBlocks; then it ends 0 to 4 bytes behind the record and its 8-bit counter has not wrapped. |
| `Measurement.MeasurementIsCovered` | Library/SpdmRequesterLib/SpdmRequesterLibGetMeasurement.c:154-361 | A successful GET_MEASUREMENTS extends M by request and response; a requested signature was accepted over everything M had gathered, and M starts anew; a record handed out passed the walk. |
| `Measurement.CheckRecord` | Library/SpdmRequesterLib/SpdmRequesterLibGetMeasurement.c:177-213 | A record that passes the size checks lies inside the response and is shorter than its buffer. |
| `ExactMeasurement.RecordExactly` | Library/SpdmRequesterLib/SpdmRequesterLibGetMeasurement.c:332-357 | An acceptable record, as a sequence of blocks in the bytes of the response: at most the announced number, announced indices, the negotiated single-bit specification, each inside. |
| `ExactMeasurement.MeasurementsExactly` | Library/SpdmRequesterLib/SpdmRequesterLibGetMeasurement.c:48-361 | GET_MEASUREMENTS succeeds exactly on a response of the right shape whose signature, if asked for, the known certificates verify over all of M, and which has a number of blocks or a good record to hand out; what is handed out and what M holds then. |
| `ConnectionRuns.RetryIsARun` | Library/SpdmRequesterLib/SpdmRequesterLibChallenge.c:286-295 | A retried request is a run of at most RetryTimes + 1 attempts, as long as none overruns the buffer of the chain. |
| `ConnectionRuns.NegotiationIsChecked` | Library/SpdmRequesterLib/SpdmRequesterLibNegotiateAlgorithm.c:195-272 | NEGOTIATE_ALGORITHMS reaches Negotiated only with algorithms that pass every check. |
| `ConnectionRuns.AttemptKeeps` | Library/SpdmRequesterLib/SpdmRequesterLibHandleErrorResponse.c:95-121 | Every attempt at any of twelve requests keeps the invariant; apart from GET_VERSION the state rises, stays, or is thrown away by REQUEST_RESYNCH. |
| `ConnectionRuns.RunsNegotiateWell` | Library/SpdmRequesterLib/SpdmRequesterLibNegotiateAlgorithm.c:195-272 | Over every sequence of attempts with arbitrary replies, none of which overruns the buffer of the chain: at Negotiated and above the hash has a size; measuring implies the DMTF specification and a known measurement hash, signing a known signature; and the session algorithms are all zero, or key exchange has a known group, protection a known AEAD, mutual authentication a known signature, and key exchange or PSK the HMAC key schedule. |
| `ConnectionRuns.StateOnlyDropsToNotStarted` | Library/SpdmRequesterLib/SpdmRequesterLibGetVersion.c:43-127 | Over every such sequence, a step that lowers the state is GET_VERSION or meets REQUEST_RESYNCH. |
| `ConnectionRuns.AuthenticatedByChallenge` | Library/SpdmRequesterLib/SpdmRequesterLibChallenge.c:228-250 | Over every such sequence, the step that makes the connection Authenticated is a CHALLENGE: C grew by its request and the signed part of its reply, which carries the digest of the known chain and a signature that the certificates of that chain verify over A, B and C as the context then holds them. |
| `ApiRuns.MessageANeverExceeds208` | Library/SpdmCommonLib/SpdmCommonLibContextData.c:994-999 | Over every sequence of calls and against any responder, none of which overruns the buffer of the chain, A stays within 208 of its 256 bytes. |
| `ConnectionRuns.InitBoundsA` | Library/SpdmRequesterLib/SpdmRequesterLibCommunication.c:26-52 | One SpdmInitConnection keeps that bound, whatever is retried or fails. |
| `ApiRuns.InitReaches` | Library/SpdmRequesterLib/SpdmRequesterLibCommunication.c:26-52 | Against any responder, a successful SpdmInitConnection has reached AfterVersion or Negotiated, as asked, and a failed one an earlier state. |
| `SessionTable.Table.constructor` | Library/SpdmCommonLib/SpdmCommonLibContextDataSession.c:19-67 | Four cleared slots. |
| `SessionTable.Table.Find` | Library/SpdmCommonLib/SpdmCommonLibContextDataSession.c:79-105 | The first slot with the ID, none for the invalid ID. |
| `SessionTable.Table.AllocateRequester` | Library/SpdmCommonLib/SpdmCommonLibContextDataSession.c:213-231 | 0xFFFF minus the first slot without a requester half, 0 when there is none. |
| `SessionTable.Table.AllocateResponder` | Library/SpdmCommonLib/SpdmCommonLibContextDataSession.c:241-259 | The same for the responder half. |
| `SessionTable.Table.Assign` | Library/SpdmCommonLib/SpdmCommonLibContextDataSession.c:165-203 | A fresh session in the first free slot, or no change for an invalid or duplicate ID or a full table. |
| `SessionTable.Table.Free` | Library/SpdmCommonLib/SpdmCommonLibContextDataSession.c:271-299 | The slot that carries the ID is cleared, the others stay. |
| `SessionTable.AllocatorAndAssignerAgree` | Library/SpdmCommonLib/SpdmCommonLibContextDataSession.c:165-231 | In a coherent table with room, allocator and assigner pick the same slot whatever half the responder sends, no duplicate is found, and coherence is kept. |
| `SessionTable.FullTableRefuses` | Library/SpdmCommonLib/SpdmCommonLibContextDataSession.c:213-231 | A full coherent table makes every assignment fail. |
| `TranscriptHash.CalculateTHForExchange` | Library/SpdmCommonLib/SpdmCommonLibCryptoServiceSession.c:26-78 | The appends give A, the chain digest and K, or nothing when they do not fit. |
| `TranscriptHash.CalculateTHForFinish` | Library/SpdmCommonLib/SpdmCommonLibCryptoServiceSession.c:96-168 | The appends give A, the chain digest, K, the mutual chain digest and F, or nothing. |
| `TranscriptHash.MirroredHashes` | Library/SpdmCommonLib/SpdmCommonLibCryptoServiceSession.c:1024-1155 | Mirrored contexts compute the same TH data, TH1 and TH2. |
| `TranscriptHash.GeneratedIsVerified` | Library/SpdmCommonLib/SpdmCommonLibCryptoServiceSession.c:181-1010 | For mirrored contexts, whatever the algorithms, each of the seven generate functions makes what the matching verify function accepts, and a MAC is accepted only if it is the generated one; the law a signature pair needs (its size and its key) is asked for that pair alone. |
| `SessionCode.KeyExchange` | Library/SpdmRequesterLib/SpdmRequesterLibKeyExchange.c:55-346 | Status, outputs and whole context are those of the step function on every exit, with the number of times the Diffie-Hellman context is freed. |
| `SessionCode.AcceptResponse` | Library/SpdmRequesterLib/SpdmRequesterLibKeyExchange.c:201-346 | From the assigned session to the verdict, the oversized-opaque exit included. |
| `SessionCode.AcceptSignature` | Library/SpdmRequesterLib/SpdmRequesterLibKeyExchange.c:281-316 | Signature, secret and handshake keys, in this order; each failure frees the session. |
| `SessionCode.AcceptMac` | Library/SpdmRequesterLib/SpdmRequesterLibKeyExchange.c:318-345 | The HMAC gate, skipped in the clear, and the move to Handshaking. |
| `SessionCode.Finish` | Library/SpdmRequesterLib/SpdmRequesterLibFinish.c:38-201 | The same for FINISH. |
| `SessionCode.AcceptFinish` | Library/SpdmRequesterLib/SpdmRequesterLibFinish.c:160-201 | The response, its HMAC in the clear, TH2 and the data keys. |
| `SessionCode.PskExchange` | Library/SpdmRequesterLib/SpdmRequesterLibPskExchange.c:52-285 | The same for PSK_EXCHANGE. |
| `SessionCode.PskFinish` | Library/SpdmRequesterLib/SpdmRequesterLibPskFinish.c:36-135 | The same for PSK_FINISH. |
| `SessionCode.EndSession` | Library/SpdmRequesterLib/SpdmRequesterLibEndSession.c:32-105 | The same for END_SESSION. |
| `RequesterApi.GetVersionRetrying` | Library/SpdmRequesterLib/SpdmRequesterLibGetVersion.c:143-159 | The retry loop on the device context ends as the recursive definition of retrying. |
| `RequesterApi.GetCapabilitiesRetrying` | Library/SpdmRequesterLib/SpdmRequesterLibGetCapability.c:206-222 | The retry loop on the device context ends as the recursive definition of retrying. |
| `RequesterApi.NegotiateRetrying` | Library/SpdmRequesterLib/SpdmRequesterLibNegotiateAlgorithm.c:286-302 | The retry loop on the device context ends as the recursive definition of retrying. |
| `RequesterApi.GetDigestsRetrying` | Library/SpdmRequesterLib/SpdmRequesterLibGetDigest.c:177-197 | The retry loop on the device context ends as the recursive definition of retrying. |
| `RequesterApi.GetCertificateRetrying` | Library/SpdmRequesterLib/SpdmRequesterLibGetCertificate.c:256-277 | The retry loop on the device context ends as the recursive definition of retrying. |
| `RequesterApi.ChallengeRetrying` | Library/SpdmRequesterLib/SpdmRequesterLibChallenge.c:275-296 | The retry loop on the device context ends as the recursive definition of retrying. |
| `RequesterApi.GetMeasurementRetrying` | Library/SpdmRequesterLib/SpdmRequesterLibGetMeasurement.c:365-390 | The retry loop on the device context ends as the recursive definition of retrying. |
| `RequesterApi.KeyExchangeRetrying` | Library/SpdmRequesterLib/SpdmRequesterLibKeyExchange.c:349-371 | The retry loop on the device context ends as the recursive definition of retrying. |
| `RequesterApi.FinishRetrying` | Library/SpdmRequesterLib/SpdmRequesterLibFinish.c:204-222 | The retry loop on the device context ends as the recursive definition of retrying. |
| `RequesterApi.PskExchangeRetrying` | Library/SpdmRequesterLib/SpdmRequesterLibPskExchange.c:288-308 | The retry loop on the device context ends as the recursive definition of retrying. |
| `RequesterApi.PskFinishRetrying` | Library/SpdmRequesterLib/SpdmRequesterLibPskFinish.c:138-155 | The retry loop on the device context ends as the recursive definition of retrying. |
| `RequesterApi.EndSessionRetrying` | Library/SpdmRequesterLib/SpdmRequesterLibEndSession.c:108-126 | The retry loop on the device context ends as the recursive definition of retrying. |
| `RequesterApi.Connect` | Library/SpdmRequesterLib/SpdmRequesterLibCommunication.c:26-52 | SpdmInitConnection is its three requests in sequence, stopped by the first failure. |
| `RequesterApi.StartSession` | Library/SpdmRequesterLib/SpdmRequesterLibCommunication.c:76-143 | SpdmStartSession of either kind leaves status, ID and context of the composed step functions. |
| `RequesterApi.RunCalls` | Library/SpdmRequesterLib/SpdmRequesterLibCommunication.c:76-174 | Any run of starts and stops on the device is the run of the session theorems. |
| `SessionEffects.KeyExchangeEffect` | Library/SpdmRequesterLib/SpdmRequesterLibKeyExchange.c:118-346 | On a coherent table an attempt leaves the table alone or puts its verdict into the slot just assigned. |
| `SessionGating.VerdictIsGated` | Library/SpdmRequesterLib/SpdmRequesterLibKeyExchange.c:199-346 | A response leads to a kept session only through the oversized-opaque exit, and to an accepted one only through both gates; K is then request followed by response. |
| `SessionGating.SignatureGate` | Library/SpdmRequesterLib/SpdmRequesterLibKeyExchange.c:281-316 | What is accepted carries one signature that verifies over the transcript K still holds, and keys derived from it. |
| `SessionGating.MacGate` | Library/SpdmRequesterLib/SpdmRequesterLibKeyExchange.c:318-345 | Outside the clear it also carries the one valid HMAC over the TH1 bytes. |
| `SessionGating.FinishGate` | Library/SpdmRequesterLib/SpdmRequesterLibFinish.c:160-201 | A FINISH_RSP establishes the session only with exactly one valid responder MAC and data keys from TH2. |
| `SessionGating.FinishIsBuilt` | Library/SpdmRequesterLib/SpdmRequesterLibFinish.c:111-135 | The request is appended to F whole, and shrinking by its size restores F. |
| `SessionGating.PskExchangeGate` | Library/SpdmRequesterLib/SpdmRequesterLibPskExchange.c:186-266 | An accepted PSK_EXCHANGE_RSP had its HMAC verified over A and K. |
| `SessionGating.PskFinishGate` | Library/SpdmRequesterLib/SpdmRequesterLibPskFinish.c:112-135 | PSK_FINISH establishes only such a session. |
| `SessionRuns.StartKeeps` | Library/SpdmRequesterLib/SpdmRequesterLibCommunication.c:76-143 | Every start keeps coherence and gating; a successful one leaves its session established and keyed by TH2. |
| `SessionRuns.RunsStayGated` | Library/SpdmRequesterLib/SpdmRequesterLibCommunication.c:76-174 | Over every run of starts and stops with arbitrary replies the table is coherent, and every slot is as it was at the beginning or gated on the connection the run uses. |
| `SessionTheorems.RunsStayCoherent` | Library/SpdmCommonLib/SpdmCommonLibContextDataSession.c:165-299 | Over every run of starts and stops: the live session in slot i has requester half 0xFFFF - i, live IDs are distinct, allocator and assigner agree, the duplicate check never fires, and only a full table refuses. |
| `SessionTheorems.EstablishedMeansAuthenticated` | Library/SpdmRequesterLib/SpdmRequesterLibFinish.c:69-197 | Over every run of starts and stops on one connection: an established DHE session had exactly one KEY_EXCHANGE_RSP signature and exactly one responder MAC accepted, in KEY_EXCHANGE_RSP or FINISH_RSP as handshake-in-the-clear decides; an established PSK session had its one PSK_EXCHANGE_RSP MAC accepted. |
| `ExactSessions.EstablishedOnCertificates` | Library/SpdmRequesterLib/SpdmRequesterLibKeyExchange.c:270-316 | The same in bytes: with a chain of header, root hash and certificates, the accepted signature verifies under the certificates, over A, the digest of the certificates and K. |
| `ExactSessions.KeyExchangeExactly` | Library/SpdmRequesterLib/SpdmRequesterLibKeyExchange.c:55-346 | KEY_EXCHANGE succeeds exactly when the response is well formed, its signature verifies over A, the digest of the certificates and K, keys can be derived, and the MAC over all that is right or not due; what the slot then holds. A well-formed response without these is a security violation that frees the slot. |
| `ExactSessions.SignatureExactly` | Library/SpdmRequesterLib/SpdmRequesterLibKeyExchange.c:281-345 | The signature, key and MAC gates in bytes. |
| `ExactSessions.FinishExactly` | Library/SpdmRequesterLib/SpdmRequesterLibFinish.c:38-201 | FINISH succeeds exactly when it can be signed and MACed over A, both digests, K and F, and the response completes the handshake; F then holds request and response. |
| `ExactSessions.PskQuestionReads` | Library/SpdmRequesterLib/SpdmRequesterLibPskExchange.c:108-150 | The fields of PSK_EXCHANGE: hash type, session half, the lengths of hint, context and opaque data, and these three in this order. |
| `ExactSessions.PskExchangeExactly` | Library/SpdmRequesterLib/SpdmRequesterLibPskExchange.c:52-285 | PSK_EXCHANGE succeeds exactly when the response is well formed, keys come from the PSK, its MAC is right over A and K, and without PSK_FINISH the data keys can be derived; K starts with the request. |
| `ExactSessions.PskFinishExactly` | Library/SpdmRequesterLib/SpdmRequesterLibPskFinish.c:36-135 | PSK_FINISH succeeds exactly on a bare header from which, with A, K and F, data keys can be derived. |
| `ExactSessions.EndSessionExactly` | Library/SpdmRequesterLib/SpdmRequesterLibEndSession.c:32-105 | END_SESSION succeeds exactly on a bare header for an established session, and clears its slot and nothing else. |
| `ExactSessions.MutualAuthMeans` | Library/SpdmRequesterLib/SpdmRequesterLibCommunication.c:104-127 | The slot FINISH names, and which requests for mutual authentication end the start. |
| `FailedRequests.CapabilitiesFails` | Library/SpdmRequesterLib/SpdmRequesterLibGetCapability.c:106-194 | What a failed GET_CAPABILITIES returns and leaves: nothing when it is not sent, the request taken back when it is refused, the request in A when the answer is lost or not the one expected. |
| `FailedRequests.AlgorithmsFails` | Library/SpdmRequesterLib/SpdmRequesterLibNegotiateAlgorithm.c:54-190 | The same for NEGOTIATE_ALGORITHMS. |
| `FailedRequests.DigestsFails` | Library/SpdmRequesterLib/SpdmRequesterLibGetDigest.c:39-134 | The same for GET_DIGESTS. |
| `FailedRequests.ChallengeFails` | Library/SpdmRequesterLib/SpdmRequesterLibChallenge.c:45-232 | The same for CHALLENGE, with the status of each response that is not complete. |
| `FailedRequests.RoundFails` | Library/SpdmRequesterLib/SpdmRequesterLibGetCertificate.c:80-168 | The same for a round of GET_CERTIFICATE. |
| `FailedRequests.MeasurementsFail` | Library/SpdmRequesterLib/SpdmRequesterLibGetMeasurement.c:48-176 | The same for GET_MEASUREMENTS, where a response with another code makes M start anew. |
| `FailedRequests.MeasurementsTurnedDown` | Library/SpdmRequesterLib/SpdmRequesterLibGetMeasurement.c:177-290 | Which malformed responses make M start anew, and which leave the request in it. |
| `FailedRequests.KeyExchangeFails` | Library/SpdmRequesterLib/SpdmRequesterLibKeyExchange.c:55-189 | What a KEY_EXCHANGE without an answer to judge returns and leaves. |
| `FailedRequests.KexTurnedDown` | Library/SpdmRequesterLib/SpdmRequesterLibKeyExchange.c:199-345 | Why a response is turned down, with the status and last-error word of each exit. |
| `FailedRequests.PskExchangeFails` | Library/SpdmRequesterLib/SpdmRequesterLibPskExchange.c:52-181 | What a PSK_EXCHANGE without an answer to judge returns and leaves. |
| `FailedRequests.PskTurnedDown` | Library/SpdmRequesterLib/SpdmRequesterLibPskExchange.c:186-262 | Why its response is turned down. |
| `FailedRequests.EndSessionFails` | Library/SpdmRequesterLib/SpdmRequesterLibEndSession.c:60-100 | What an END_SESSION that is not acknowledged returns and leaves. |
| `SessionTheorems.FullTableStartFails` | Library/SpdmRequesterLib/SpdmRequesterLibKeyExchange.c:112-189 | A full table makes every start of either kind fail and leaves the table as it is. |
| `SessionTheorems.KeyExchangeIsAtomic` | Library/SpdmRequesterLib/SpdmRequesterLibKeyExchange.c:118-346 | A failed attempt keeps the set of live IDs, and the Diffie-Hellman context is freed exactly as often as created, if and only if the attempt does not take the oversized-opaque exit. |
| `SessionTheorems.SomeResponseLeaks` | Library/SpdmRequesterLib/SpdmRequesterLibKeyExchange.c:238-240 | From every coherent table with room some response takes that exit: a session stays live and the context is never freed. |
| `SessionTheorems.PskExchangeIsAtomic` | Library/SpdmRequesterLib/SpdmRequesterLibPskExchange.c:182-285 | A failed PSK_EXCHANGE keeps the set of live IDs if and only if it does not take one of two exits: K cannot take the request, or the response is accepted, no PSK_FINISH follows, and TH2 or the data keys fail; those leave exactly the new session behind. |
| `SessionTheorems.SomePskResponseLeaks` | Library/SpdmRequesterLib/SpdmRequesterLibPskExchange.c:266-285 | A response with the right MAC takes the second exit when the data keys cannot be derived. |
| `SessionTheorems.TH1IsPrefixOfTH2` | Library/SpdmRequesterLib/SpdmRequesterLibKeyExchange.c:270-335 | In every successful DHE start TH2 hashes the TH1 bytes, then the optional KEY_EXCHANGE HMAC, the optional mutual chain digest, and F = FINISH request and response; handshake keys come from TH1, data keys from TH2. |
| `SessionCapacity.LongestTranscript` | Library/SpdmCommonLib/SpdmCommonLibCryptoServiceSession.c:121-162 | The longest TH has 3824 of 4608 bytes. |
| `SessionCapacity.VerdictFits` | Library/SpdmRequesterLib/SpdmRequesterLibKeyExchange.c:191-340 | Judging a response on fixed buffers gives the verdict on unbounded transcripts. |
| `SessionCapacity.TH2Fits` | Library/SpdmCommonLib/SpdmCommonLibCryptoServiceSession.c:96-168 | No TH concatenation fails for lack of room. |
| `SessionCapacity.FinishFits` | Library/SpdmRequesterLib/SpdmRequesterLibFinish.c:111-195 | FINISH on fixed buffers is FINISH on unbounded transcripts. |
| `SessionCapacity.StartNeverRunsOutOfRoom` | Library/SpdmRequesterLib/SpdmRequesterLibCommunication.c:76-143 | Against any responder and after any run of starts and stops, a DHE start on fixed buffers is the start on unbounded transcripts: no append to K or F and no TH concatenation fails for lack of room. |
| `ApiRuns.EstablishedOverApiRuns` | Library/SpdmRequesterLib/SpdmRequesterLibCommunication.c:26-174 | Over every sequence of calls of the public interface (SpdmInitConnection again at any time, digests, certificate, challenge, measurements, starts, stops), none of which overruns the buffer of the chain: the table is coherent, and every established session was set up by one start, is gated on the connection that start met, and has not been touched since. |
| `ApiRuns.StartsAlwaysHaveRoom` | Library/SpdmRequesterLib/SpdmRequesterLibCommunication.c:76-143 | After every such sequence a DHE start on fixed buffers is the start on unbounded transcripts. |
| `ApiRuns.CallOnSlot` | Library/SpdmRequesterLib/SpdmRequesterLibCommunication.c:26-174 | One call leaves a session slot alone, clears it, or, being a start, leaves there a session gated on its connection. |
| `LoneFinish.FinishCompletesItsExchange` | Library/SpdmRequesterLib/SpdmRequesterLibFinish.c:160-201 | A successful FINISH on its own leaves exactly one MAC if and only if the connection still says of handshake-in-the-clear what it said at KEY_EXCHANGE; none, or two, exactly in the two other cases. |
| `LoneFinish.FinishCanSucceed` | Library/SpdmRequesterLib/SpdmRequesterLibFinish.c:160-201 | For every session without mutual authentication that waits for FINISH some response makes it succeed, whatever the connection says. |
| `LoneFinish.FinishWithoutMac` | Library/SpdmRequesterLib/SpdmRequesterLibFinish.c:160-201 | The failing family exists: set up in the clear and finished outside it, a bare header establishes the session without any responder MAC. |
| `LoneFinish.FinishWithSecondMac` | Library/SpdmRequesterLib/SpdmRequesterLibFinish.c:160-201 | Its twin: set up outside the clear and finished in it, the session ends with two. |
| `StuckSessions.StartOnTable` | Library/SpdmRequesterLib/SpdmRequesterLibCommunication.c:76-143 | A start of either kind takes the first free slot when its exchange gives it a session, and then that session is established only if the start succeeds; otherwise every live session stays and no other comes up. |
| `StuckSessions.StartIsAtomic` | Library/SpdmRequesterLib/SpdmRequesterLibCommunication.c:76-143 | A failed start keeps the set of live IDs if and only if its exchange gave it no session (it failed, and not by an exit that frees nothing); otherwise exactly its own session stays behind. |
| `StuckSessions.CallKeepsStuck` | Library/SpdmRequesterLib/SpdmRequesterLibEndSession.c:32-58 | No public call touches a live session that is not established: SpdmStopSession refuses it, SpdmInitConnection leaves the table alone. |
| `StuckSessions.StuckForEver` | Library/SpdmRequesterLib/SpdmRequesterLibCommunication.c:26-174 | Over every sequence of public calls without an overrun, such a session stays as it is. |
| `StuckSessions.FullOfStuckIsFinal` | Library/SpdmRequesterLib/SpdmRequesterLibCommunication.c:26-174 | Once all four slots hold such sessions, every later start of either kind fails and the table never changes again. |
| `StuckSessions.FourLeaksAreFinal` | Library/SpdmRequesterLib/SpdmRequesterLibKeyExchange.c:238-240 | Four starts that meet the leaking response bring this about. |
| `SessionLockstep.ResponderAssigns` | Library/SpdmCommonLib/SpdmCommonLibContextDataSession.c:241-259 | The responder's allocator and assigner pick the same slot whatever half the requester sends. |
| `SessionLockstep.KexRequestReads` | Library/SpdmResponderLib/SpdmResponderLibKeyExchange.c:93-125 | The responder reads share, half-ID and opaque data back out of the request. |
| `SessionLockstep.KexBodyReads` | Library/SpdmRequesterLib/SpdmRequesterLibKeyExchange.c:201-270 | The requester reads the fields back out of the response. |
| `SessionLockstep.OpaqueDataAgrees` | Library/SpdmCommonLib/SpdmCommonLibOpaqueData.c:143-304 | Each end takes the opaque data the other builds. |
| `SessionLockstep.ResponderSignsAnswer` | Library/SpdmResponderLib/SpdmResponderLibKeyExchange.c:226-271 | The responder's signature, keys and HMAC are over its own transcript, and K and the response grow by the same bytes. |
| `SessionLockstep.ResponderAnswers` | Library/SpdmResponderLib/SpdmResponderLibKeyExchange.c:31-277 | The responder answers the requester's request and holds the whole exchange in K. |
| `SessionLockstep.KeyExchangeInLockstep` | Library/SpdmRequesterLib/SpdmRequesterLibKeyExchange.c:55-346 | KEY_EXCHANGE against the responder's handler succeeds and leaves the same K, secret and finished keys at both ends. |
| `SessionLockstep.ResponderConcludes` | Library/SpdmResponderLib/SpdmResponderLibFinish.c:126-202 | A FINISH request with the requester's MAC, and its signature under mutual authentication, is answered and the session keyed by TH2. |
| `SessionLockstep.RequesterSigns` | Library/SpdmRequesterLib/SpdmRequesterLibFinish.c:118-126 | Asked for mutual authentication, the requester signs with the chain of the slot FINISH names, and the responder's check accepts the signature. |
| `SessionLockstep.FinishInLockstep` | Library/SpdmRequesterLib/SpdmRequesterLibFinish.c:38-201 | FINISH against the responder's handler succeeds, with mutual authentication or without, F is the same at both ends and both sessions are established. |
| `SessionLockstep.SessionIsEstablishedAtBothEnds` | Library/SpdmRequesterLib/SpdmRequesterLibCommunication.c:76-143 | From contexts that agree on A, algorithms and flags, with a known chain, the responder's key and free slots, and with any of the three forms of mutual authentication or none, SpdmStartSession succeeds against the responder's handlers: both sessions are established with the same K, F, secret and keys, and TH1 and TH2 are taken over the same bytes. |
| `WholeProtocol.ConnectionPreparesSession` | Library/SpdmRequesterLib/SpdmRequesterLibCommunication.c:76-143 | The five connection exchanges leave both ends ready for the session. |
| `WholeProtocol.FromVersionToSession` | Library/SpdmRequesterLib/SpdmRequesterLibCommunication.c:76-143 | From contexts that agree after VERSION, capabilities, algorithms, digests, certificate, challenge, key exchange and finish, with mutual authentication in the session or without, all succeed against the responder's handlers: both ends are authenticated over the same M1M2 and hold the same established session. |
| `Witnesses.WholeProtocolIsPossible` | Library/SpdmRequesterLib/SpdmRequesterLibCommunication.c:76-143 | Its conditions, and those of the theorems it is made of, can be met, with mutual authentication and without. |

## Left out

- The encapsulated-request loop and its digest, certificate and challenge handlers: its result, the slot it returns and the chain it leaves at the responder are inputs; how MutB and MutC grow is not modelled.
- The responder's KEY_EXCHANGE and FINISH handlers are modelled on values, without the in-place updates the other handlers have; the effect of SpdmInitMutAuthEncapState on the encapsulation context is not modelled.
- The responder's VERSION, PSK_EXCHANGE, PSK_FINISH, MEASUREMENTS, END_SESSION and encapsulation handlers, and the dispatch by request code; two-party runs start after VERSION.
- Secured-message encoding, the key schedule behind the finished and data keys, key update and heartbeat.
- SpdmSetData and SpdmGetData: the provisioned values are fields of `Local` and never change.
- Output buffers of the caller other than the certificate capacity, the session ID, the requester slot, the block count and the measurement record: slot mask, digests, measurement summary hash and heartbeat period are not returned.
- ErrorData and the contents of RESPOND_IF_READY requests; a NOT_READY reply leads to one arbitrary second reply.
- The priority tables are those of a build with every algorithm compiled in.
- The bytes hashed into a measurement summary: any data of the device.
- ASSERTs on data from the peer are not preconditions; the model follows what the code does when they are disabled.
- GetCertificate: what an overrunning copy leaves in the context is not computed: the method reports the overrun, and in runs the context after it is arbitrary. RunsNegotiateWell, StateOnlyDropsToNotStarted, AuthenticatedByChallenge, MessageANeverExceeds208 and EstablishedOverApiRuns promise nothing about runs with an overrun.
- LockstepRun: exchanges met by RESPONSE_NOT_READY, and responses other than ERROR that the requester rejects, are not harmless and not part of its runs.
- A provisioned chain shorter than its header and root hash: its chain data is empty.
- K and F of a session are bounded sequences inside the session record; A, B, C, M, the certificate assembly buffer, M1M2 and the TH buffers are managed buffers over arrays.
- EndSession: the end-session attributes are written into the session record that the same call then clears, and are not kept.
- Receive: factors out the receive and error block that each requester function repeats.
- EstablishedOverApiRuns: KEY_EXCHANGE, FINISH and PSK requests are made by SpdmStartSession only, as in SpdmRequesterLib.h; for a FINISH made on its own after a new SpdmInitConnection the property fails (FinishWithoutMac, FinishWithSecondMac), and FinishCompletesItsExchange has the condition.
- Signatures and MACs of KEY_EXCHANGE and FINISH always take the chain in the code, whether the session uses a PSK or not, and its HMACs use the hash algorithm the session was started with; here they follow the session's kind and the connection's algorithm. The difference shows only in a FINISH made on its own, on a PSK session or after new algorithms were negotiated.
