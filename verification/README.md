# Tarako, verified

A Dafny model of the Tarako remote-attestation stack and proofs about it. Five parts:

- **Cached-session protocol** (`Terms`, `Protocol`, `ProtocolSafety`, `ProtocolTheorems`, `ProtocolFreshness`,
  `ProtocolClients`, `ProtocolRuns`): the symbolic protocol of `formal-verification/tarako-attestation.pv` with
  unboundedly many sessions, requests, clients and attacker deductions. Every message passes through the attacker's
  knowledge; types are ignored, so any term may stand in any place. One inductive invariant gives all twelve queries;
  further ones give an end-to-end theorem about clients and show that no quote is older than the question it answers.
  Constructed runs from every reachable state show that sessions are established, that one cached appraisal serves any
  number of acceptances, and what the attacker can do.
- **ECDSA on limbs** (`Bytes`, `Vli`, `VliMultiply`, `Modular`, `Ecdsa`, `SignIoctl`): the driver's multi-limb
  arithmetic, byte-order conversions, retry loop, key encoding and signing ioctl, proved against sections 6.4.1 and
  6.4.2 of FIPS 186-5 and section 2.3.3 of SEC 1 v2. The curve is a prime order, a field prime and two coordinate
  functions on multiples of the base point; SHA-256 is a function parameter. Kernel helpers the driver calls are given
  bodies (limb-wise subtract and compare, row-by-row product with shift-and-subtract reduction, inverse by extended
  Euclid).
- **Key cell and module lifecycle** (`SetOnce`, `ModuleLifecycle`, `ModuleRuns`): the set-once cell with threads
  interleaved at every atomic operation, and the module through any number of load, serve and unload cycles on top of
  that cell, with the key pairs that key generation makes and the replies that the signing ioctl gives. Steps are
  sequentially consistent. The module cannot be unregistered while a file is open.
- **Challenge and verify service** (`RequestContext`, `Json`, `JsonReader`, `VerifierService`, `ServiceRuns`,
  `ServiceClients`, `VerifierEndpoints`): the two JSON encoders of the request context and a reader that undoes both,
  the signed result, the attester's quote, every interleaving of challenges, verifications, kernel signatures and
  clients on unauthenticated channels, and the verifier object as part of it. Unforgeability is a condition on the
  steps, about the signature at hand and the message it is checked against; so is freshness of ids and nonces. Hash
  collisions are excluded only among the contexts of the run at hand.
- **QGS framing and guest publication** (`Qgs`, `QuoteTask`, `QuoteStream`, `QuoteCompletion`): parser and printer,
  overlapping in-place moves, receiving over every division of the stream into reads, and completion writes that land
  byte by byte, may stop anywhere, and are watched by the guest throughout.

Clocks, randomness, sockets, user-space copies and failures of called helpers are parameters.

Two remarks on source and documentation. The top-level README says the executable's digest comes from
`get_task_exe_file`; the code reads the executable file pointer under RCU. Both are outside the model, which takes the
digest call's return value. The encoders of Python's `json` and Go's `encoding/json` (Go 1.24, as `attester/go.mod`
states) are modelled by their default escaping. Challenges are issued for any nonempty request, but not all of them
can then be met by an honest attester: `VerifierService.HonestFlowVerdict` gives exactly the requests for which it
succeeds, those whose characters both encoders write alike.

`dafny verify dfyconfig.toml` checks everything.

## Model

| member | source | states |
|---|---|---|
| Terms.Children | formal-verification/tarako-attestation.pv:31-61 | the immediate parts of a term, each smaller than it: what the attacker can build from or project |
| ProtocolSafety.CleanGrows | formal-verification/tarako-attestation.pv:31-36 | a term safe to give to the attacker stays safe as more events are recorded |
| ProtocolSafety.CleanSignatures | formal-verification/tarako-attestation.pv:31-36 | at any depth inside a safe term, an honest-key signature is on a message its owner issued |
| ProtocolSafety.AttackerKeepsInv | formal-verification/tarako-attestation.pv:7-9 | every deduction of the attacker (new names, construction, projection, opening signatures) keeps the invariant |
| ProtocolSafety.QuoteTdxKeepsInv | formal-verification/tarako-attestation.pv:80-87 | quoting the approved or the unapproved root, for any challenge, keeps the invariant |
| ProtocolSafety.AppraiseTdxKeepsInv | formal-verification/tarako-attestation.pv:89-105 | the TDX service answers only for genuine quotes |
| ProtocolSafety.AppraisedImaEvidence | formal-verification/tarako-attestation.pv:114-132 | the IMA service's checks tie its evidence to the very TDX answer it was sent with, to the committed log and to the RTMR of a genuine TDX answer |
| ProtocolSafety.AppraiseImaKeepsInv | formal-verification/tarako-attestation.pv:116-143 | the IMA service's answer keeps the invariant: it names evidence bound to its TDX answer |
| ProtocolSafety.SourceKeepsInv | formal-verification/tarako-attestation.pv:107-160 | the log source and both signing entities keep the invariant, unapproved callers included |
| ProtocolSafety.TdxAnswerKeepsInv | formal-verification/tarako-attestation.pv:171-184 | a session accepts only issued TDX answers for its own quote and challenge |
| ProtocolSafety.ImaAnswerKeepsInv | formal-verification/tarako-attestation.pv:186-200 | a session accepts only issued IMA answers for its own TDX answer and evidence |
| ProtocolSafety.EstablishedKey | formal-verification/tarako-attestation.pv:192-206 | whatever the network delivered, the key an established session trusts is the measured Tarako key |
| ProtocolSafety.AcceptanceIsNew | formal-verification/tarako-attestation.pv:206-212 | a pending request's binding belongs to no accepted request, also when client requests repeat |
| ProtocolSafety.TarakoQuoteKeepsInv | formal-verification/tarako-attestation.pv:206-221 | accepting a quote and issuing its verdict keeps the invariant |
| ProtocolSafety.VerdictKeepsInv | formal-verification/tarako-attestation.pv:223-229 | a client accepts only issued verdicts |
| ProtocolSafety.StepKeepsInv | formal-verification/tarako-attestation.pv:80-229 | every step of every role and of the attacker keeps the invariant |
| ProtocolSafety.RunKeepsInv | formal-verification/tarako-attestation.pv:302-322 | the invariant holds after every run |
| ProtocolTheorems.EveryEventCorresponds | formal-verification/tarako-attestation.pv:233-278 | queries 1 to 7, 9 and 10: each verification or acceptance was preceded by its genuine event, and a client accepts only the approved digest |
| ProtocolTheorems.VerdictsApprove | formal-verification/tarako-attestation.pv:290-296 | a verdict names only the approved digest, although the client compares nothing |
| ProtocolTheorems.AcceptanceIsInjective | formal-verification/tarako-attestation.pv:280-284 | query 8: distinct acceptances map to distinct earlier issuing events with the same binding and digest |
| ProtocolTheorems.SigningKeysStaySecret | formal-verification/tarako-attestation.pv:298-300 | queries 11 and 12, for all five private keys: never derivable |
| ProtocolTheorems.HonestSignaturesAreGenuine | formal-verification/tarako-attestation.pv:31-36 | any honest signature anywhere in any derived term is on an issued message |
| ProtocolTheorems.EstablishedSessionIsAppraised | formal-verification/tarako-attestation.pv:165-205 | the cached key is committed under a root whose RTMR the TDX source quoted, with the approved measurement, for the session's own challenge |
| ProtocolTheorems.AnswerBindingDetermines | formal-verification/tarako-attestation.pv:176-200 | the IMA service and the session appraised the same TDX quote |
| ProtocolTheorems.ImaAnswersAreBound | formal-verification/tarako-attestation.pv:123-143 | every IMA answer names evidence made for its own TDX answer, about a key committed under that evidence's root before |
| ProtocolTheorems.EstablishedEvidence | formal-verification/tarako-attestation.pv:186-200 | whatever the network delivered, an established session's evidence is the approved root's snapshot for its own TDX answer |
| ProtocolFreshness.RunKeepsNames | formal-verification/tarako-attestation.pv:165-207 | in every run, what the attacker knows and what was quoted mentions only names generated by then |
| ProtocolFreshness.HardwareQuoteIsYounger | formal-verification/tarako-attestation.pv:165-172 | no hardware quote for a session's challenge was issued before the session began |
| ProtocolFreshness.ApplicationQuoteIsYounger | formal-verification/tarako-attestation.pv:206-210 | no application quote for a request's binding was issued before the request was made |
| ProtocolClients.StepKeepsClientInv | formal-verification/tarako-attestation.pv:223-229 | clients draw fresh requests and accept once each, in every step |
| ProtocolClients.StepKeepsCaches | formal-verification/tarako-attestation.pv:202-217 | quotes are accepted only under the cache of an established session |
| ProtocolClients.RequestsFollowEstablishment | formal-verification/tarako-attestation.pv:202-206 | no run starts the request handler before its session is established |
| ProtocolClients.ChainChallenge | formal-verification/tarako-attestation.pv:168-200 | the hashes along the evidence chain fix the serving session's own challenge |
| ProtocolClients.ClientAcceptanceIsSupported | formal-verification/tarako-attestation.pv:202-229 | when a client accepts, everything from the approved application's quote for its request back to a hardware quote for the serving session's fresh challenge has happened |
| ProtocolClients.ClientAcceptanceIsInjective | formal-verification/tarako-attestation.pv:223-229 | stronger than queries 9 and 10: distinct client acceptances map to distinct quotes of the approved application, each for that client's request |
| ProtocolRuns.EstablishmentHappens | formal-verification/README.md:226-243 | in every reachable state, with whatever sessions, a further session can be established |
| ProtocolRuns.CacheServesAnyNumber | formal-verification/README.md:226-243 | from every reachable state and for every n, a new session's one cached appraisal serves n further distinct acceptances, each with a client acceptance |
| ProtocolRuns.AttackerHashes | formal-verification/tarako-attestation.pv:31-36 | the attacker knows all reference values, hashes and forms public keys |
| ProtocolRuns.AttackerAppliesToOne | formal-verification/tarako-attestation.pv:38-61 | the attacker applies every constructor of one argument |
| ProtocolRuns.AttackerAppliesToTwo | formal-verification/tarako-attestation.pv:31-61 | the attacker applies every constructor of two arguments, signing with its own keys included |
| ProtocolRuns.AttackerAppliesToThree | formal-verification/tarako-attestation.pv:43-51 | the attacker applies every constructor of three arguments |
| ProtocolRuns.AttackerReads | formal-verification/tarako-attestation.pv:38-61 | the attacker reads every field of every data message it knows |
| ProtocolRuns.AttackerOpensAndGenerates | formal-verification/tarako-attestation.pv:32-36 | the attacker opens signatures whose public key it knows and has names of its own |
| ProtocolRuns.UnapprovedEvidenceCirculates | formal-verification/tarako-attestation.pv:154-160 | hardware quotes of the unapproved root and signatures for unapproved callers can be had on any known term |
| Bytes.EncodeDecode | driver/src/vli.rs:71-101 | decoding the little-endian bytes of a number that fits gives the number |
| Bytes.DecodeEncode | driver/src/vli.rs:71-101 | encoding the value of a byte string gives the byte string |
| Vli.ValueDeterminesLimbs | driver/src/vli.rs:15-28 | equal values of equal length have equal limbs |
| Vli.CarryingAdd | driver/src/vli.rs:43-53 | for every length, operands and initial 64-bit carry: sum plus carry times 2^(64N) is the exact sum; carry at most 2, at most 1 from a carry of at most 1 |
| Vli.SubWithBorrow | driver/src/vli.rs:55-69 | the difference plus what the borrow stands for; the borrow is 0 or 1 |
| Vli.Compare | driver/src/vli.rs:173-209 | limb comparison from the top decides the order of the values |
| Vli.IsZero | driver/src/vli.rs:38-41 | all limbs zero exactly when the value is zero |
| Vli.ReduceOnce | driver/src/ioctl.rs:56-69 | one conditional subtraction is full reduction below twice the modulus |
| Vli.AddReduced | driver/src/ioctl.rs:72-77 | carry test and wrapping subtraction give exactly the sum modulo n: the discarded borrow cancels the carry |
| Vli.SwappedTwice | driver/src/vli.rs:71-78 | unswapping a swapped limb array restores it |
| Vli.Unswap | driver/src/vli.rs:71-78 | the in-place loop computes the swapped form |
| Vli.MemoryValue | driver/src/vli.rs:15-28 | limbs and their bytes in memory are the same little-endian number |
| Vli.SwappedMemoryIsBigEndian | driver/src/ecc.rs:39-60 | a swapped coordinate read as raw memory is its big-endian encoding |
| Vli.FromBigEndianBytes | driver/src/vli.rs:82-101 | exactly 8 bytes per limb are accepted, with the big-endian value; any other length is EINVAL |
| Vli.ToBigEndianBytes | driver/src/ioctl.rs:257-264 | the written bytes decode big-endian to the limbs' value |
| Modular.ExtendedEuclid | driver/src/vli.rs:103-117 | Bezout coefficients |
| Modular.InverseIsInverse | driver/src/vli.rs:103-117 | for a prime modulus and a nonzero residue the computed inverse is one |
| VliMultiply.Multiply | driver/src/vli.rs:119-134 | the row-by-row limb product is the double-length product |
| VliMultiply.Reduce | driver/src/vli.rs:119-134 | shifting in bits from the top and subtracting gives the remainder of a number of any length |
| VliMultiply.ModMult | driver/src/vli.rs:119-134 | limbs of the product modulo n |
| Ecdsa.ModInv | driver/src/vli.rs:103-117 | limbs of the inverse modulo n |
| Ecdsa.VerifierRecoversNonce | driver/src/ioctl.rs:70-86 | the verification equation's point index is the nonce |
| Ecdsa.SignatureIsAccepted | driver/src/ioctl.rs:52-86 | every pair an attempt yields is in range and verifies by section 6.4.2 of FIPS 186-5 |
| Ecdsa.PipelineComputesS | driver/src/ioctl.rs:66-80 | reducing the hash and r d separately changes nothing |
| Ecdsa.RejectedIff | driver/src/ioctl.rs:62-86 | an attempt is given up exactly when the order divides x or e + r d, that is r or s would be 0 |
| Ecdsa.SignAttempt | driver/src/ioctl.rs:53-86 | one attempt on limbs is the attempt of section 6.4.1 on integers, rejected in the same cases |
| Ecdsa.Sign | driver/src/ioctl.rs:49-90 | the retry loop returns the first usable attempt or the first helper error |
| Ecdsa.ReturnedSignatureIsAccepted | driver/src/ioctl.rs:49-90 | for every message, key and sequence of nonces, a returned pair verifies |
| Ecdsa.FirstDecidingAttempt | driver/src/ioctl.rs:52-89 | the loop's result is that of the first attempt that is not given up, a failing helper ending it at once; without one it is EINVAL |
| Ecdsa.LoopFailsOnlyWhenAllAttemptsDo | driver/src/ioctl.rs:52-89 | with no helper error the loop fails exactly when for every nonce the order divides x or e + r d, and then with EINVAL |
| SignIoctl.GenerateKeyPair | driver/src/ioctl.rs:92-127 | the public key is the SEC 1 compressed point, prefix by y's parity; unmeasured keys are marked; error order |
| SignIoctl.CoordinateBytes | driver/src/ecc.rs:48-60 | coordinate bytes are big-endian |
| SignIoctl.WrittenDigestIsRead | driver/src/ioctl.rs:143-189 | the lookup yields a digest exactly when the kernel wrote it at the start of the buffer and returned its length, for every length from 1 to 64 |
| SignIoctl.AssembleMessage | driver/src/ioctl.rs:249-252 | the fixed buffer holds digest then user data |
| SignIoctl.HandleSignData | driver/src/ioctl.rs:238-270 | from the kernel's raw lookup answer: a reply is over the caller's digest of 1 to 64 bytes and data, carries that message's hash and the loop's signature, which verifies under a measured key; each error in its case and order |
| Qgs.CompleteIffPrinted | tdx/tdx-qgs-protocol.h:45-80 | the parser completes exactly on the printed frame of a nonempty quote that fits |
| Qgs.ParsePrinted | tdx/tdx-qgs-protocol.h:45-80 | parsing undoes printing |
| Qgs.RejectionIsFinal | tdx/tdx-qgs-protocol.h:51-74 | a rejected prefix stays rejected whatever follows |
| Qgs.ProperPrefixIsIncomplete | tdx/tdx-qgs-protocol.h:54-77 | every proper prefix of a fitting frame is incomplete |
| Qgs.IncompleteLeavesRoom | tdx/tdx-qgs-protocol.h:51-77 | a full buffer is never judged incomplete |
| Qgs.WaitsIffBegun | tdx/tdx-qgs-protocol.h:57-77 | from 28 bytes on the parser waits exactly for proper prefixes of frames of quotes that fit |
| Qgs.WaitsForHeaderIff | tdx/tdx-qgs-protocol.h:51-66 | before that it waits exactly while the announced length is incomplete or that of a frame that fits |
| Qgs.RequestWords | tdx/tdx-qgs-protocol.h:28-43 | every word of the request header; the announced length is the true one exactly when 24 plus the report size fits 32 bits |
| Qgs.ResponseWords | tdx/tdx-qgs-protocol.h:57-79 | every word of the response frame and the quote behind them |
| QuoteTask.Memmove | tdx/qemu-qgs-protocol.patch:62-64 | overlapping moves in either direction preserve every byte |
| QuoteTask.StoreLe32 | tdx/tdx-qgs-protocol.h:20-26 | the shifted bytes are the little-endian encoding |
| QuoteTask.WriteRequestHeader | tdx/tdx-qgs-protocol.h:28-43 | the stores make the request header and touch nothing after it |
| QuoteTask.Task.FrameRequest | tdx/qemu-qgs-protocol.patch:73-79 | the grown buffer holds the header and then the whole report |
| QuoteTask.Task.OnReadable | tdx/qemu-qgs-protocol.patch:46-68 | one read advances the receiver as specified, failing as soon as what came is invalid; while waiting, the room left shrinks and stays positive |
| QuoteStream.FrameIsReceived | tdx/qemu-qgs-protocol.patch:46-68 | however a frame is cut into nonempty reads, it is received |
| QuoteStream.SucceedsIffFrameDelivered | tdx/qemu-qgs-protocol.patch:46-68 | success with a quote exactly when the reads, before any end of stream, add up to that quote's frame within the buffer |
| QuoteStream.FailsIff | tdx/qemu-qgs-protocol.patch:46-61 | receiving fails exactly at a first read that is the end of the stream or makes what came so far invalid |
| QuoteStream.ReceiveReads | tdx/qemu-qgs-protocol.patch:46-68 | the receiver object fed any list of reads ends where the specification says |
| QuoteCompletion.StepKeepsInv | tdx/qemu-qgs-protocol.patch:86-137 | every byte store, completed write and failed write keeps the publication invariant |
| QuoteCompletion.GuestSuccessIsGenuine | tdx/qemu-qgs-protocol.patch:86-137 | at every interleaving point, a guest reading success reads the length and bytes of one delivered nonempty quote |
| QuoteCompletion.GuestErrorHasNoOutput | tdx/qemu-qgs-protocol.patch:93-116 | a guest reading the error status reads output length 0 |
| QuoteCompletion.SuccessIsStable | tdx/qemu-qgs-protocol.patch:120-134 | after success is visible nothing the guest reads changes |
| QuoteCompletion.RunKeepsFields | tdx/qemu-qgs-protocol.patch:118-134 | version and input length of the guest's header stay as they were at every moment |
| QuoteCompletion.WriteIsARun | tdx/qemu-qgs-protocol.patch:100-134 | a whole guest write, complete or stopped, is a run of byte steps |
| QuoteCompletion.GuestEndsOnTheOutcome | tdx/qemu-qgs-protocol.patch:93-134 | if the last two writes go through, the guest reads success with the quote exactly when the payload write did too, else the error with length 0; if the header write fails it still reads in-flight |
| QuoteCompletion.Complete | tdx/qemu-qgs-protocol.patch:88-137 | the routine's writes are a run of the step machine and leave the final memory, wherever each of them stops |
| QuoteCompletion.ServeQuote | tdx/qemu-qgs-protocol.patch:46-137 | from the first read to the last guest write: success only for a delivered quote; with the last two writes through, success exactly when a quote was delivered in full and its payload written, else the error with length 0 |
| SetOnce.StepKeepsInv | driver/src/set_once.rs:28-76 | every atomic step of populate, as_ref, clear and drop keeps the cell invariant |
| SetOnce.StorageIsNeverMisused | driver/src/set_once.rs:28-64 | state 2 means initialised storage; nothing uninitialised is read or dropped, nothing overwritten |
| SetOnce.OneWinnerBetweenClears | driver/src/set_once.rs:38-48 | two winning populates have a clear between them |
| SetOnce.ReadersAgree | driver/src/set_once.rs:28-36 | between clears all readers see the winner's value |
| SetOnce.DroppedAtMostOnce | driver/src/set_once.rs:38-76 | a dropped value is dropped only once and is neither stored nor with any thread |
| SetOnce.NothingLeaks | driver/src/set_once.rs:38-76 | with no operation in flight every value passed in is stored or dropped, not both |
| SetOnce.AnyContenderCanWin | driver/src/set_once.rs:38-48 | any number of populates can be under way at once and any one of them can win |
| SetOnce.SharingHappens | driver/src/set_once.rs:28-36 | any number of threads can hold references at once |
| SetOnce.Cell.Populate | driver/src/set_once.rs:38-48 | stores into an empty cell, else drops its argument, and does nothing else |
| SetOnce.Cell.Get | driver/src/set_once.rs:28-36 | reads the stored value exactly when the cell is set |
| SetOnce.Cell.Clear | driver/src/set_once.rs:50-64 | empties the cell and drops what it held, once |
| ModuleLifecycle.StepKeepsInv | driver/src/lib.rs:57-126 | every step of loading, serving and unloading keeps the invariant |
| ModuleLifecycle.CellRulesNeverBlock | driver/src/lib.rs:57-67 | whenever the module wants to act on the cell the cell's rules allow it; clear's safety contract is met |
| ModuleLifecycle.SignaturesFollowMeasurement | driver/src/ioctl.rs:105-119 | every signature handed out, over a caller's digest and data, verifies under the point its 33 key bytes encode and follows a successful IMA measurement of exactly those bytes |
| ModuleLifecycle.MeasurementsAreReal | driver/src/ioctl.rs:105-126 | a measurement is recorded only for a generated key pair that IMA did measure |
| ModuleLifecycle.ReplyMatchesCall | driver/src/lib.rs:118-125 | a call gets one reply on its own file: a signature only the signing ioctl, the key alone only the other |
| ModuleLifecycle.LoadingIsNeverRefused | driver/src/lib.rs:88-95 | populate never finds the cell busy |
| ModuleLifecycle.OneKeyPerLoad | driver/src/ioctl.rs:226-265 | all successful replies between two unloads carry one key |
| ModuleLifecycle.OneKeyPerFile | attester/main.go:115-139 | one open file never sees two keys, so the changed-key error cannot occur |
| ModuleRuns.UnloadedIsIdle | driver/src/lib.rs:57-67 | whenever the module is unloaded the cell is empty, nothing holds it, and every key pair ever stored has been dropped |
| ModuleRuns.ServiceHappens | driver/src/lib.rs:118-125 | in every live state any open file can be served, whatever other files are open and other calls under way |
| ModuleRuns.EarlyCallIsRefused | driver/src/lib.rs:83-96 | between registration and population a file can be opened, and its calls are refused |
| ModuleRuns.CyclesServeAnyKeys | driver/src/lib.rs:76-126 | for any sequence of measured key pairs, each with a signature it can make, some run of load, serve and unload cycles signs under exactly these keys in turn |
| RequestContext.PythonStringInjective | test/attestation/verifier.py:27-33 | the escaped text determines the request |
| RequestContext.ContextInjective | test/attestation/verifier.py:27-33 | the context determines nonce and request |
| RequestContext.PythonIsAscii | test/attestation/verifier.py:28-32 | Python writes printable ASCII only |
| RequestContext.GoIsHtmlSafe | attester/main.go:86-89 | Go writes no control character and no angle bracket or ampersand |
| RequestContext.DecodesIff | attester/main.go:76-79 | a text decodes exactly when it is an even number of hexadecimal digits |
| JsonReader.ReadsPythonText | test/attestation/verifier.py:28-32 | a reader by section 7 of RFC 8259 undoes Python's string escaping, surrogate pairs included |
| JsonReader.ReadsGoText | attester/main.go:86-89 | the same reader undoes Go's escaping and UTF-8 |
| JsonReader.ReadsDumped | test/attestation/verifier.py:148-150 | reading undoes compact `json.dumps` for every JSON value, however nested |
| JsonReader.DumpInjective | test/attestation/client.py:92-95 | compact `json.dumps` is injective on all JSON values |
| Json.ContextIsDumped | test/attestation/verifier.py:28-32 | the context is what `json.dumps` writes for the nonce and request object |
| RequestContext.StringsAgreeIff | attester/main.go:86-89 | the encoders agree on a request exactly when each of its characters is written alike |
| RequestContext.HexRoundTripIff | attester/main.go:76-82 | re-encoding a decoded nonce gives the text back exactly when it is in lower case |
| RequestContext.ContextsAgreeIff | attester/main.go:75-97 | both sides hash the same context exactly for a lower-case nonce text and a request of characters written alike |
| VerifierService.ResultIsSorted | test/attestation/verifier.py:139-150 | the members of a result are in the order of their names |
| VerifierService.ResultFields | test/attestation/verifier.py:139-147 | what a reader of a result object finds under each of its seven names |
| VerifierService.ResultInjective | test/attestation/verifier.py:139-153 | the signed bytes determine id, nonce, request and digest |
| VerifierService.GenuineQuoteVerdict | test/attestation/verifier.py:47-71 | a kernel quote is accepted exactly when it binds the verifier's binding and its message hashes like the approved one; its user data, key and hash cannot be replaced, its signature only by one that verifies |
| VerifierService.AttesterMatchesIff | attester/main.go:75-97 | for any nonce text it takes, and barring a collision, the attester binds what the verifier would exactly for a lower-case text and a request written alike |
| VerifierService.AttesterTakesIff | attester/main.go:75-85 | the attester takes exactly 64 hexadecimal digits in either case and a nonempty request |
| VerifierService.AttesterBindsTheChallenge | attester/main.go:75-97 | an issued challenge passes the attester's checks on nonce and request |
| VerifierService.HashedAlikeIff | attester/main.go:75-97 | sent an issued challenge, the attester hashes the verifier's context exactly for requests of characters written alike |
| VerifierService.HonestFlowIsAccepted | test/attestation/verifier.py:121-158 | an approved caller's kernel quote for an issued challenge passes if the request is written alike |
| VerifierService.HonestFlowVerdict | test/attestation/verifier.py:121-158 | everybody honest and no collision: accepted exactly when the caller's digest is the approved one and the request is written alike |
| VerifierService.BracketIsRefused | attester/main.go:86-89 | a concrete request, a single angle bracket, on which the honest flow is refused whatever digest is approved |
| VerifierService.MessageParts | driver/src/ioctl.rs:249-254 | digest and user data are determined by the signed message, for digests of any length |
| ServiceRuns.RunKeepsInv | test/attestation/verifier.py:83-158 | in every run an issued challenge is outstanding, being verified or settled, exactly one of the three, and the log is sound |
| ServiceRuns.ChallengeIsInOnePlace | test/attestation/verifier.py:90-119 | every issued challenge, and no other, is in one of the three places and never in two: none is lost |
| ServiceRuns.AtMostOneVerdict | test/attestation/verifier.py:113-119 | each challenge gets at most one verdict; a failed attempt uses it up |
| ServiceRuns.SatisfiedClientIsBacked | test/attestation/client.py:92-108 | of all JSON values a client may be handed, one whose bytes the verifier signed and that passes the four comparisons is the result of a verdict on what the client asked, under the id and nonce it was given |
| ServiceClients.ClientAcceptanceIsBacked | test/attestation/client.py:92-108 | when a client accepts, a challenge had been issued for its own request under its own id and nonce text, and the kernel had signed that challenge's binding with the approved digest |
| ServiceClients.ClientAcceptsIff | test/attestation/client.py:92-108 | some result makes a client accept exactly when such a verdict exists |
| ServiceClients.VerdictIsReplayed | test/attestation/client.py:41-61 | freshness fails: one verdict can be shown to any number of clients given the same id and nonce |
| ServiceClients.BackingIsInjectiveIff | test/attestation/client.py:92-108 | client acceptances map one-to-one into verdicts exactly when the clients were given distinct ids |
| ServiceRuns.AcceptanceIsInjective | test/attestation/verifier.py:121-147 | accepted verdicts map one-to-one into kernel signatures over the approved digest and that challenge's binding |
| ServiceRuns.HonestRunIsAccepted | test/attestation/client.py:41-61 | from every reachable state a fresh challenge can be issued, signed for and accepted |
| VerifierEndpoints.Verifier.IssueChallenge | test/attestation/verifier.py:83-101 | the endpoint is the service's issuing step for a nonempty request and none for an empty one; the id has no verdict |
| VerifierEndpoints.Verifier.TakeChallenge | test/attestation/verifier.py:113-119 | taking a challenge out fails exactly when it was never issued, is being verified elsewhere or has its verdict |
| VerifierEndpoints.Verifier.Verify | test/attestation/verifier.py:104-158 | the endpoint is a taking and a finishing step of the service: it leaves exactly one verdict; a positive one has its issued challenge and kernel signature, and answers a body with that challenge's request and nonce, the trusted key and a signature that verifies; a refused one lacks one of these |
| VerifierEndpoints.Judge | test/attestation/verifier.py:121-137 | the checks made one by one, in order, are positive exactly when request, nonce, key, user data, hash and signature are all right |

## Left out

- Kernel elliptic-curve point arithmetic, SHA-256, IMA and fs-verity: the curve and the hash are parameters, the rest are outcomes.
- Executable lookup under RCU, user-space copies and allocation: reduced to their outcomes.
- Hardware memory ordering: steps are sequentially consistent.
- Erasure of private-key copies: not visible at this level.
- The ioctl dispatch, where hello answers 0 and an unknown number ENOTTY, and the public-key ioctl's E2BIG for a buffer under 33 bytes: a call is modelled from the moment it reads the key cell.
- HTTP, JSON decoding, DER encoding, certificates and the client's retry of challenge requests: quotes are taken as decoded, and a client is handed JSON values. Number literals are kept as Python writes them, not interpreted, and the reader takes no white space, which compact output has not.
- Requests with lone surrogates, which Python strings can hold: requests are sequences of Unicode scalar values.
- Read errors other than end of stream in the hypervisor's receive callback: handled by code the patch does not show.
- Freshness of the client's acceptance: false of the client, which contributes no fresh value of its own; `ServiceClients.VerdictIsReplayed` shows it and `ServiceClients.BackingIsInjectiveIff` gives the exact condition.
- Guest stores into its own buffer during completion: the guest only reads.
- Status codes other than success and the generic error: no patched line sets another.
- QuoteCompletion.Complete: the order of bytes inside one guest write is ascending there; the step machine allows any order.
- The mutated protocol variants of formal-verification/test-negative-models.py: only the unmodified protocol is modelled.
- Benchmarks, command-line tools, virtual-machine tests and packaging: reporting and input/output only.
