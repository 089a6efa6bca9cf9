# Golem–Symbiotic bridge: a verified model

The repository bridges locked ETH: a source contract records deposits, an off-chain prover follows Ethereum's
finality with a light client, proves which storage slots of the contract changed, and commits them under a Merkle
root; Symbiotic operators sign with BLS keys derived on the G2 twist, and a node polls task contracts on several
chains and answers them. This project models the four parts where the logic is dense and proves what they
promise.

**Twist-curve arithmetic** (`PrimeField`, `FieldAlgebra`, `CurveLaw`, `ChordAndTangent`, `BN254G2`). The word operations of
`BN254G2.sol` are proved to form a field, the register-reusing assignment sequences to compute the projective
formulas, the formulas to project to the affine chord-and-tangent law in every branch and to stay on the curve, that law
to give the sum by its geometry and nothing else, and double-and-add to compute the s-fold sum. The source
calls its coordinates Jacobian; they are homogeneous projective, x = X/Z and y = Y/Z, and the model keeps the
source's names. The curve is that of EIP-197.

**The finality change detector and the prover job table** (`FinalityDetector`, `ProverJobs`). Each is a class
whose methods are the arms of the select loop, the actor's actions and the handlers, proved equal to the steps
of a transition relation; the safety results are about every interleaving of those steps.

**The proved window pipeline** (`AppSource`, `EventScan`, `StorageSlots`, `SlotLeaf`, `Rlp`, `Trie`, `Merkle`,
`TrieBuilder`, `SlotProofs`, `OutputCodec`, `ConsensusProgram`, `DepositPipeline`). From deposits under arbitrary re-entry, over
the chunked scan of events, their deduplication into storage slots, the two-level trie proofs and the packed
Poseidon leaves, to the committed root: what is committed is exactly what changed on chain, and the commitments
of linked windows follow the contract without a gap. RLP and the trie are modelled from Appendices B, C and D of
the Ethereum Yellow Paper.

**The multi-chain task poller** (`TaskPoller`). The methods follow the Go code, with map ranges in arbitrary
order and any call failing, and record their steps; what is sent and deleted, and which blocks are scanned, is
proved of every run.

## Assumptions

Each of these is a hypothesis of the lemmas that need it, never a fact built into the model.

- `IsPrime(FIELD_MODULUS)`: the field modulus is prime. Fermat's theorem, modular inverses and the absence of a
  square root of -1 are proved from it.
- `Associates(TwistField, TWISTB)`: the chord-and-tangent law on the twist is associative.
- `NoCollision`: no two of the finitely many byte strings, pairs or stores that occur have the same hash. A hash
  that is injective on all inputs does not exist, so collision freedom is stated of a given pool.
- `Sound`: the trie library accepts a proof only if walking its nodes from the root hash, by the node structure of
  Appendix D of the Yellow Paper, ends at the value. For completeness, `AcceptsHonestProofs`: it accepts the nodes
  on the path of a key that the trie holds. The Yellow Paper defines tries but no proof check; nothing is assumed
  of proofs with nodes that are not read.
- `HashesToField`, `HashesAre32Bytes`: Poseidon returns elements of the Pallas base field, Keccak 32 bytes.
- `HashesAreLarge`: no Poseidon hash that occurs is below 2^168, the range of a leaf's first field. This is what
  lets the root alone fix the number of slots.
- The light client of helios (`verify_update`, `apply_update`, the finality pair and the store hash) is an
  arbitrary set of deterministic functions.
- `Honest`, `AnswersRequest`: a provider that answers returns all logs of the requested blocks, and answers for
  the contract and for every requested key once. The code checks neither; the values and the proofs a provider
  returns are not trusted. `LogsInWindows`: the events a chain returns to the poller lie in the requested blocks.
- `PathsDistinct`, only where tries are shown to exist: no other address hashes to the storage path of a given user.

## What the code does that a reader may not expect

- An error result leaves the detector's `stale` flag set, so a later result computed from the current values is
  dropped (`FreshResultDropped`); at most one result is lost in this way for each update (`DropsBoundedByUpdates`).
- The comments call `latest_slot` the latest accepted finality slot. It also moves when nothing is sent, because
  the next window lags behind, and that slot is then consumed (`LatestSlotMayBeSilent`, `SlotConsumedSilently`).
- `ConsensusProofOutputs::from_bytes` slices bytes 144 to 176 of a 144-byte input and so panics on every input of
  the right length (`ConsensusFromBytes`).
- `ECTwistAdd` passes an operand through unreduced when the other is infinity, so its words may be at or above
  the modulus; the exact condition is part of its contract, and the generator with the modulus added to its first
  word is such an operand (`AddsUnreducedOperand`). `_FQ2Inv` may return the modulus itself as its second word.
- Windows are closed block ranges and share their boundary block; users who deposited in that block are committed
  twice, with the amount at the end of either window, which `MirrorIsExact` shows to be harmless.
- The block number scanned up to is the finality update's, the state root proved against is the final store's.
  Consecutive windows share their boundary block exactly when the two headers carry one block number
  (`BoundariesMeet`).
- The poller takes over a scan window before it registers the window's tasks, and a failing call skips the rest of
  the window. As long as finalized heads do not go back, an event is registered exactly when its one window reaches
  it before the first failing call and its chain reports the task as created (`RegisteredExactly`); the others are
  never registered (`TaskIsLost`). A head that goes back makes the poller scan blocks twice (`WindowsTile`). An event
  for a known task replaces its entry and starts its life anew. A proof that the relay delivers as nil is sent, and
  fetched again in the next pass.

## Model

| member | source | states |
|---|---|---|
| BN254G2.ECTwistMul | script/utils/BN254G2.sol:73-90 | Reverts exactly for an operand that is neither four zeros nor on the twist; otherwise the words returned are below the modulus and, from primality alone, those of double-and-add on affine points; with the group law, those of the s-fold sum (four zeros for infinity), for every scalar and every accepted operand |
| BN254G2.ECTwistMulJacobian | script/utils/BN254G2.sol:268-301 | The loop on projective registers refines double-and-add on affine points, and with the group law repeated addition; the result is canonical in Z |
| BN254G2.Turn | script/utils/BN254G2.sol:277-300 | One turn of the loop on projective points is one turn of double-and-add on affine points |
| CurveLaw.LadderStep | script/utils/BN254G2.sol:277-300 | The same turn on affine points, from associativity of the chord-and-tangent law |
| CurveLaw.LadderIsMultiple | script/utils/BN254G2.sol:268-301 | With associativity double-and-add is repeated addition |
| CurveLaw.SmallLadders | script/utils/BN254G2.sol:268-301 | For the scalars 0, 1 and 2 it is so without associativity |
| ChordAndTangent.AffineAddIsSum | script/utils/BN254G2.sol:189-266 | A point is what the affine law returns exactly when it is the sum: its opposite lies on the chord, or on the tangent of direction (2y, 3x²), its abscissa is the third one of that line, and opposite points add to infinity |
| BN254G2.DoubleOfGenerator | script/utils/BN254G2.sol:234-266 | The coordinates of 2G, checked on the tangent at the EIP-197 generator |
| BN254G2.DoublesGenerator | script/utils/BN254G2.sol:34-90 | Adding the generator to itself and multiplying it by two both return the words of 2G |
| BN254G2.ECTwistAdd | script/utils/BN254G2.sol:34-62 | Reverts exactly when an operand is not accepted; otherwise the words stand for the sum of the operands by its geometry: the opposite of the third point on the chord or tangent. The words themselves are below the modulus exactly when every operand that is passed through, because the other is infinity, was |
| BN254G2.UnreducedOperandIsAccepted | script/utils/BN254G2.sol:48-60 | The EIP-197 generator with the modulus added to its first word passes the guard, although it is not below the modulus |
| BN254G2.AddsUnreducedOperand | script/utils/BN254G2.sol:34-62 | Added to infinity, that operand comes back with a word that is not below the modulus |
| BN254G2.GeneratorIsOnCurve | script/utils/BN254G2.sol:133-144 | The generator of EIP-197 passes the guard |
| BN254G2.ECTwistAddJacobian | script/utils/BN254G2.sol:189-232 | The assignments that reuse the argument struct as scratch registers compute the projective addition law in all branches; no `submod` underflows and the comparisons of words are field equality |
| BN254G2.ECTwistDoubleJacobian | script/utils/BN254G2.sol:234-266 | The assignments that reuse the arguments compute the projective doubling formulas, with canonical words, for any input words |
| CurveLaw.AddProjects | script/utils/BN254G2.sol:189-232 | Projective addition projects to the affine law in every branch: either operand infinite, equal, opposite, y = 0, generic |
| CurveLaw.DoubleProjects | script/utils/BN254G2.sol:234-266 | Projective doubling projects to the affine tangent law, also for y = 0 and for infinity |
| CurveLaw.AddOnCurve | script/utils/BN254G2.sol:189-232 | The sum of two curve points is a curve point (chord, tangent, opposite and infinite cases) |
| CurveLaw.DoubleOnCurve | script/utils/BN254G2.sol:234-266 | The double of a curve point is a curve point |
| CurveLaw.ProjectiveEquation | script/utils/BN254G2.sol:133-144 | A projective point with Z ≠ 0 projects to the curve exactly when Y²Z = X³ + bZ³ |
| CurveLaw.MultipleAdd | script/utils/BN254G2.sol:268-301 | (m+n)-fold sums split into m-fold and n-fold sums |
| BN254G2.IsOnCurveMeans | script/utils/BN254G2.sol:133-144 | The guard on words is the curve equation of the field elements the words stand for, both directions |
| BN254G2.AcceptedIsOnCurve | script/utils/BN254G2.sol:79-85 | An operand that passes the guard denotes infinity or a point of the curve |
| BN254G2.InverseIsInverse | script/utils/BN254G2.sol:127-131 | `_FQ2Inv` is a true inverse of every element that is not zero, although its second word may be the modulus itself |
| BN254G2.InverseOfZero | script/utils/BN254G2.sol:127-131 | The inverse of zero is the words (0, modulus), which stand for zero |
| PrimeField.NormVanishes | script/utils/BN254G2.sol:127-131 | For a prime that is 3 mod 4 the norm x² + y² vanishes only for x = y = 0, so the inverse above exists for every non-zero element |
| PrimeField.Fermat | script/utils/BN254G2.sol:146-160 | Raising to p - 1 gives 1 for a prime p, proved by the product of all residues |
| PrimeField.ModExpInverts | script/utils/BN254G2.sol:146-160 | Raising to the modulus minus two inverts every non-zero residue of a prime above two |
| BN254G2.TwistFieldLaws | script/utils/BN254G2.sol:104-131 | The word operations form a field on pairs of canonical residues (commutativity, associativity, distributivity, inverses, characteristic not two) |
| BN254G2.FromJacobianIs | script/utils/BN254G2.sol:162-172 | The conversion gives the words of the affine point, and four zeros for Z = 0 |
| BN254G2.FromJacobianScaled | script/utils/BN254G2.sol:162-172 | Every non-zero scaling of (X, Y, Z) converts to the same words |
| BN254G2.DecodeEncode | script/utils/BN254G2.sol:79-85 | Four zeros are not a curve point, so writing infinity as zeros loses nothing, and written points pass the guard again |
| BN254G2.MultiplesAddUp | script/utils/BN254G2.sol:73-90 | The s-fold and t-fold multiples of an accepted point add up to its (s+t)-fold multiple, and each is an accepted operand again |
| FinalityDetector.Detector.TryStartValidationJob | golem-symbiotic-consensus-mpt/src/api/finality_change_detector.rs:239-271 | Queues the job for the current slot, store hash and filtered next window and marks it in flight |
| FinalityDetector.Detector.OnStage | golem-symbiotic-consensus-mpt/src/api/finality_change_detector.rs:404-418 | The whole state after a staging event |
| FinalityDetector.Detector.OnAdvance | golem-symbiotic-consensus-mpt/src/api/finality_change_detector.rs:420-450 | The whole state after a bridge advance, with the next window scrubbed when it starts at the new slot |
| FinalityDetector.Detector.OnResult | golem-symbiotic-consensus-mpt/src/api/finality_change_detector.rs:453-522 | The whole state after a result: dropped as stale, judged, or ignored as an error that leaves the stale flag |
| FinalityDetector.Detector.OnTick | golem-symbiotic-consensus-mpt/src/api/finality_change_detector.rs:525-529 | A tick starts a job exactly when none is in flight |
| FinalityDetector.Detector.ActorTake | golem-symbiotic-consensus-mpt/src/api/finality_change_detector.rs:129-129 | The actor takes the waiting job |
| FinalityDetector.Detector.ActorFinish | golem-symbiotic-consensus-mpt/src/api/finality_change_detector.rs:130-212 | The actor answers with both windows, with one, or with the error of either |
| FinalityDetector.KeepsInv | golem-symbiotic-consensus-mpt/src/api/finality_change_detector.rs:401-530 | Every step keeps the invariant: queued jobs + busy actor + queued results is 1 when in flight and 0 otherwise; whatever is outstanding comes from the job last started; latest_slot is at least slot; accepted outputs increase |
| FinalityDetector.EveryRun | golem-symbiotic-consensus-mpt/src/api/finality_change_detector.rs:401-530 | The invariant holds after every interleaving of staging, advance, tick, result, take and finish steps |
| FinalityDetector.EverySentMessage | golem-symbiotic-consensus-mpt/src/api/finality_change_detector.rs:478-499 | Each message sent was computed from the slot, store hash and filtered next window the detector held at that moment; both its windows end after the previous latest slot and after their input slots |
| FinalityDetector.HoldsHeadAndStaged | golem-symbiotic-consensus-mpt/src/api/finality_change_detector.rs:404-450 | After every run, by the events alone: slot and store hash are those of the last advance or the initial ones, and the next expected output is the update staged last unless an advance since then reached its slot |
| FinalityDetector.EveryMessageAnswersTheBridge | golem-symbiotic-consensus-mpt/src/api/finality_change_detector.rs:453-499 | Every message was sent at some result and was computed for what the events before that result make the bridge's head and the staged window |
| FinalityDetector.NoMismatchNoBlocking | golem-symbiotic-consensus-mpt/src/api/finality_change_detector.rs:510-516 | The branch for a result of another input slot is never reached, and a send on either validation channel finds it empty |
| FinalityDetector.DropsBoundedByUpdates | golem-symbiotic-consensus-mpt/src/api/finality_change_detector.rs:460-463 | Over a whole run stale drops never exceed the updates received |
| FinalityDetector.DropsAfterUpdatesStop | golem-symbiotic-consensus-mpt/src/api/finality_change_detector.rs:460-463 | Once updates stop, drops plus the flag stay constant, so at most one more result is dropped |
| FinalityDetector.ReceiveVerdict | golem-symbiotic-consensus-mpt/src/api/finality_change_detector.rs:457-517 | A prepared result is dropped exactly when the flag is set, and is then replaced at once by a job for the current values; otherwise it moves latest_slot exactly when it ends after it, and is sent if its next window does too. A result whose job started after the last update is current |
| FinalityDetector.FreshResultDropped | golem-symbiotic-consensus-mpt/src/api/finality_change_detector.rs:518-520 | A run in which the flag survives an error, so that a result computed from the current values is dropped |
| FinalityDetector.SecondRoundIsJudged | golem-symbiotic-consensus-mpt/src/api/finality_change_detector.rs:460-469 | A stale result costs exactly one more round: the result of the next job is sent if it is progress |
| FinalityDetector.LatestSlotMayBeSilent | golem-symbiotic-consensus-mpt/src/api/finality_change_detector.rs:484-500 | latest_slot is the slot last accepted; that result was not sent exactly when its next window lags behind |
| FinalityDetector.SlotConsumedSilently | golem-symbiotic-consensus-mpt/src/api/finality_change_detector.rs:492-500 | A run that consumes a slot without any message, after which no answer up to that slot is sent |
| ProverJobs.EventLoop.StageTransitionProof | golem-symbiotic-consensus-mpt/src/api/event_loop.rs:211-272 | A fresh id, an entry in the table, a running worker, and a notice naming the end of the window |
| ProverJobs.EventLoop.HandleProverSuccess | golem-symbiotic-consensus-mpt/src/api/event_loop.rs:129-188 | Retires the job it looks up and reports whether the proof's values decode |
| ProverJobs.EventLoop.HandleProverFailure | golem-symbiotic-consensus-mpt/src/api/event_loop.rs:191-209 | Retires the job it looks up and counts those left |
| ProverJobs.EventLoop.HandleNext | golem-symbiotic-consensus-mpt/src/api/event_loop.rs:287-303 | One turn on the job channel: from the invariant the lookup succeeds, and the invariant is kept |
| ProverJobs.ReportedIsKnown | golem-symbiotic-consensus-mpt/src/api/event_loop.rs:137-148 | The unwrap of the lookup never fails: a reported id is in the table |
| ProverJobs.KeepsInv | golem-symbiotic-consensus-mpt/src/api/event_loop.rs:211-272 | The table holds exactly the ids of running, reported and crashed workers; these and the retired ids are 1 to job_id, each once |
| ProverJobs.EveryJobInOnePlace | golem-symbiotic-consensus-mpt/src/api/event_loop.rs:137-259 | In every interleaving each id handed out is in exactly one place and is retired at most once |
| ProverJobs.NothingLeaks | golem-symbiotic-consensus-mpt/src/api/event_loop.rs:193-204 | Retired jobs and table entries add up to job_id; when all is quiet only crashed workers' entries are left |
| ProverJobs.EventsDecide | golem-symbiotic-consensus-mpt/src/api/event_loop.rs:137-259 | By the events alone: job n is to prove the n-th window staged, reports are handled in the order they were sent, and the process has ended exactly when the last one handled is a proof that does not decode |
| AppSource.AppSource.DepositETH | src/layerzero/app/AppSource.sol:26-53 | The fields after a deposit with an external call in its middle, under any nested re-entry, are those of the run; a revert restores them |
| AppSource.RunKeepsGood | src/layerzero/app/AppSource.sol:26-53 | totalLocked stays the sum of lockedTokens plus the amounts of suspended deposits, the balance stays at least totalLocked, and each user's entry is the sum of that user's events |
| AppSource.RunAllKeepsGood | src/layerzero/app/AppSource.sol:26-53 | The same over any sequence of transactions |
| AppSource.SeenAllIsGood | src/layerzero/app/AppSource.sol:38-47 | The same in every state that outside code runs in, at any depth of re-entry |
| AppSource.DepositSucceedsIff | src/layerzero/app/AppSource.sol:31-52 | A deposit takes effect exactly when it is admitted and the endpoint call succeeds: the second checked addition cannot overflow |
| AppSource.UsersAreCredited | src/layerzero/app/AppSource.sol:31-52 | Under any nesting every user's locked amount grows by value less fee of the user's own deposits that took effect, and by nothing else |
| AppSource.PlainDeposit | src/layerzero/app/AppSource.sol:31-52 | A deposit with nothing in between raises its sender and the total by value less fee, emits both events for the sender, and leaves everyone else as they were |
| AppSource.WindowCredits | src/layerzero/app/AppSource.sol:51-52 | Over a window of blocks every user's locked amount grows by what the user's deposits paid in |
| AppSource.SurplusKeptByAll | src/layerzero/app/AppSource.sol:42-47 | Without ether forced into the contract, balance minus totalLocked never changes |
| AppSource.ChangedIffLogged | src/layerzero/app/AppSource.sol:51-52 | Over a window of blocks a user's locked amount changes exactly when the window logs a TokensLocked event of the user; it only grows, and is not zero once changed |
| EventScan.FetchChunk | golem-symbiotic-consensus-mpt/src/rpcs/execution/http.rs:163-191 | At most four requests for a chunk, at most 7 seconds of delay, and failure only after four failures in a row |
| EventScan.GetSourceContractEvents | golem-symbiotic-consensus-mpt/src/rpcs/execution/http.rs:147-200 | A success is one query over the whole range in order; a failure returns nothing partial; at most 4·ceil((end-start+1)/101) requests and 7 seconds per chunk; ends without overflow on every range that is far enough from 2^64 |
| EventScan.NextChunk | golem-symbiotic-consensus-mpt/src/rpcs/execution/http.rs:159-196 | Chunk by chunk: the count of chunks and the overflow condition from one block on |
| EventScan.LogsJoin | golem-symbiotic-consensus-mpt/src/rpcs/execution/http.rs:159-196 | Adjacent ranges have the logs of the joined range, with no gap and no overlap |
| StorageSlots.AddressesToStorageSlots | golem-symbiotic-consensus-mpt/src/rpcs/execution/http.rs:40-52 | The keys are those of the events' users, and each key is mapped to a user whose key it is |
| StorageSlots.MapIsDetermined | golem-symbiotic-consensus-mpt/src/rpcs/execution/http.rs:40-52 | Without colliding keys the map depends only on the set of users and loses none of them |
| StorageSlots.PrepareContractStorage | golem-symbiotic-consensus-mpt/src/rpcs/execution/http.rs:254-288 | Panics exactly when an answer has a key that was not requested; otherwise the slots are the answers' slots sorted by user |
| StorageSlots.EachUserOnce | golem-symbiotic-consensus-mpt/src/rpcs/execution/http.rs:273-277 | Answers with distinct keys sort to strictly ascending users |
| StorageSlots.SortIsStable | golem-symbiotic-consensus-mpt/src/rpcs/execution/http.rs:273-277 | The sort keeps the order of slots of the same user |
| StorageSlots.OrderIsIrrelevant | golem-symbiotic-consensus-mpt/src/rpcs/execution/http.rs:244-277 | Answers that are permutations of each other give the same slot list, so neither HashMap order nor response order matters |
| StorageSlots.UsersAreExact | golem-symbiotic-consensus-mpt/src/rpcs/execution/http.rs:254-277 | Answers to exactly the requested keys give exactly the mapped users, once each, each under its own storage key |
| SlotLeaf.HashStorageSlot | golem-symbiotic-consensus-mpt-program/src/mpt.rs:114-136 | Never fails, and hashes two numbers that hold the bytes of the address and the value at their places |
| SlotLeaf.FieldsInRange | golem-symbiotic-consensus-mpt-program/src/mpt.rs:121-131 | Both fields are below 2^248, so reading them as field elements cannot fail |
| SlotLeaf.FieldsAre | golem-symbiotic-consensus-mpt-program/src/mpt.rs:121-131 | Where every byte goes: the digits of the first field are the address from its most significant byte on and the first byte of the value, those of the second the other 31 bytes |
| SlotLeaf.FieldBytesDigit | golem-symbiotic-consensus-mpt-program/src/mpt.rs:271-274 | The committed bytes spell the root from the least significant byte on |
| SlotLeaf.PackingUnique | golem-symbiotic-consensus-mpt-program/src/mpt.rs:121-128 | The packing of (address, 256-bit value) into two fields is injective |
| SlotLeaf.FieldBytesUnique | golem-symbiotic-consensus-mpt-program/src/mpt.rs:271-274 | The 32 bytes of the root determine the field element |
| SlotLeaf.GetStorageLocationForKey | golem-symbiotic-consensus-mpt-types/src/types.rs:217-229 | The hash of 64 bytes: the address as a 32-byte number and then the mapping's place as one, filled into the buffer in place |
| SlotLeaf.PreimageIsMappingEntry | golem-symbiotic-consensus-mpt-types/src/types.rs:221-228 | There is only one such string of bytes, and it is the one that is filled in |
| SlotLeaf.SlotPreimageUnique | golem-symbiotic-consensus-mpt-types/src/types.rs:221-228 | The hashed bytes determine the address |
| Rlp.EncodeUnique | golem-symbiotic-consensus-mpt-program/src/mpt.rs:186-195 | No encoding is a prefix of another item's encoding (Appendix B of the Yellow Paper) |
| Rlp.AccountUnique | golem-symbiotic-consensus-mpt-program/src/mpt.rs:186-190 | Equal account encodings mean equal accounts |
| Rlp.ScalarUnique | golem-symbiotic-consensus-mpt-program/src/mpt.rs:226-229 | Equal value encodings mean equal values |
| Rlp.FrameMeans | golem-symbiotic-consensus-mpt-program/src/mpt.rs:186-195 | Short payloads are behind one byte that adds their length to the base, long ones behind a byte that adds 55 and the length of their shortest length, and that length |
| Rlp.AccountItemMeans | golem-symbiotic-consensus-mpt-program/src/mpt.rs:186-190 | The account is the list of nonce, balance, storage root and code hash, the numbers without leading zeros |
| Rlp.KnownStrings | golem-symbiotic-consensus-mpt-program/src/mpt.rs:226-229 | Known encodings of strings and numbers |
| Rlp.KnownLists | golem-symbiotic-consensus-mpt-program/src/mpt.rs:186-190 | Known encodings of lists |
| Trie.UnhexPrefixHexPrefix | golem-symbiotic-consensus-mpt-program/src/mpt.rs:184-185 | Hex-prefix encoding of a path round-trips (Appendix C of the Yellow Paper) |
| Trie.HexPrefixNibbles | golem-symbiotic-consensus-mpt-program/src/mpt.rs:184-185 | The prefix in nibbles: a flag for leaf and odd length, padding for an even path, and the path |
| Trie.KnownPrefixes | golem-symbiotic-consensus-mpt-program/src/mpt.rs:184-185 | Known prefixes of odd and even paths for both kinds of node |
| Trie.UnpackNibbles | golem-symbiotic-consensus-mpt-program/src/mpt.rs:222-225 | Every byte of a hashed key is its high nibble and then its low one |
| Trie.NodeMeans | golem-symbiotic-consensus-mpt-program/src/mpt.rs:194-203 | The items of every kind of node, and that a child is in its place exactly if it takes fewer than 32 bytes |
| Trie.VerifiedIsTrue | golem-symbiotic-consensus-mpt-program/src/mpt.rs:194-203 | Soundness: a proof that checks against the root of a trie shows what the trie holds at that key (Appendix D of the Yellow Paper), absent hash collisions |
| Trie.TrueIsVerified | golem-symbiotic-consensus-mpt-program/src/mpt.rs:194-203 | Completeness: what the trie holds has a proof that checks |
| SlotProofs.VerifyStorageSlotProofs | golem-symbiotic-consensus-mpt-program/src/mpt.rs:178-275 | Ok exactly when the account and every slot check out, with the bytes of the root over one leaf for each slot in order; otherwise the error of the first failing check, the key before the proof, and never `MerkleHashError` |
| SlotProofs.AccountIsReal | golem-symbiotic-consensus-mpt-program/src/mpt.rs:184-203 | The account in accepted inputs is the contract's account in the state trie |
| SlotProofs.AcceptedSlotIsTrue | golem-symbiotic-consensus-mpt-program/src/mpt.rs:221-253 | Each listed value is what the contract's storage holds for that user, and is not zero |
| SlotProofs.HonestSlotsAreAccepted | golem-symbiotic-consensus-mpt-program/src/mpt.rs:178-275 | Honest proofs of existing entries are accepted up to the depth limit |
| SlotProofs.WalkingIsEnough | golem-symbiotic-consensus-mpt-program/src/mpt.rs:194-203 | A library that walks the proof meets both hypotheses about it, for every well-formed trie |
| SlotProofs.RootCommits | golem-symbiotic-consensus-mpt-program/src/mpt.rs:205-275 | Equal root bytes mean equal (address, value) sequences, for any two lists of any lengths: the root alone fixes how many slots there are |
| Merkle.LeavesUnique | golem-symbiotic-consensus-mpt-program/src/mpt.rs:205-206 | The same for any leaves of the zero-padded fold that hash a small first part |
| Merkle.DepthUnique | golem-symbiotic-consensus-mpt-program/src/mpt.rs:205-216 | Equal roots mean trees of one depth: down the left edge, a leaf's first field would have to be a hash |
| Merkle.DepthFits | golem-symbiotic-consensus-mpt-program/src/mpt.rs:205-207 | The depth is the least whose tree has room for all leaves |
| Merkle.RootIsFold | golem-symbiotic-consensus-mpt-program/src/mpt.rs:269-269 | The root is what is left when the padded leaves are folded level by level, neighbours in order |
| Merkle.SmallRoots | golem-symbiotic-consensus-mpt-program/src/mpt.rs:205-207 | The roots of one, two and three leaves |
| OutputCodec.ToBytes | golem-symbiotic-consensus-mpt-types/src/types.rs:96-108 | Every field is at its place in the 176 bytes, the slots as big-endian numbers |
| OutputCodec.FromBytes | golem-symbiotic-consensus-mpt-types/src/types.rs:110-146 | Succeeds exactly on 176 bytes, with the only outputs that have these bytes: both round trips |
| OutputCodec.LayoutUnique | golem-symbiotic-consensus-mpt-types/src/types.rs:96-108 | Different outputs have different bytes |
| OutputCodec.LayoutIsAt | golem-symbiotic-consensus-mpt-types/src/types.rs:84-108 | Where each of the seven fields is |
| OutputCodec.ConsensusLayoutIsAt | golem-symbiotic-consensus-mpt-types/src/types.rs:150-173 | Where each of the six fields is |
| OutputCodec.ConsensusToBytes | golem-symbiotic-consensus-mpt-types/src/types.rs:162-173 | Every field is at its place in the 144 bytes |
| OutputCodec.ConsensusFromBytes | golem-symbiotic-consensus-mpt-types/src/types.rs:175-208 | Panics on exactly the inputs of 144 bytes and rejects all others, so nothing that was written can be read back |
| ConsensusProgram.Transition | golem-symbiotic-consensus-mpt-program/src/consensus.rs:353-427 | Steps 1 to 4: Ok exactly when the hash matches and every update and the finality update verify where they are applied; otherwise the first failing check |
| ConsensusProgram.RunMeansStores | golem-symbiotic-consensus-mpt-program/src/consensus.rs:369-427 | A run is valid exactly when there are stores in between: every update verifies in the store before it and leads to the next, and the finality update verifies in the last and leads to the final store |
| ConsensusProgram.ConsensusProgram | golem-symbiotic-consensus-mpt-program/src/consensus.rs:140-248 | Ok exactly when the run is valid and the final store has an execution header and a hash; the six outputs describe the first and final store |
| ConsensusProgram.ConsensusMptProgram | golem-symbiotic-consensus-mpt-program/src/consensus.rs:333-489 | Ok exactly when the plain program accepts and the storage proofs verify against the final execution state root |
| ConsensusProgram.Refines | golem-symbiotic-consensus-mpt-program/src/consensus.rs:349-489 | Of any results of the two programs: where this one succeeds the plain one succeeds with the same six fields; where the plain one fails, this one fails with the same error, or with a storage error where only the final hash is missing; where only this one fails, the storage proofs do |
| ConsensusProgram.ErrorUnique | golem-symbiotic-consensus-mpt-program/src/consensus.rs:155-208 | Only one error fits a rejected input, and none an accepted one |
| ConsensusProgram.ChainIsOneRun | golem-symbiotic-consensus-mpt-program/src/consensus.rs:349-489 | Any sequence of accepted proofs, read back from their bytes, whose store hashes match is one valid run of updates from the first store to the last |
| ConsensusProgram.StoresMeet | golem-symbiotic-consensus-mpt-program/src/consensus.rs:353-361 | Two linked proofs meet in one store and one slot |
| ConsensusProgram.ParsedIsProved | golem-symbiotic-consensus-mpt/src/api/event_loop.rs:156-160 | What is parsed from a proof's bytes is what the program put there |
| ConsensusProgram.GetStoreWithNextSyncCommittee | golem-symbiotic-consensus-mpt/src/rpcs/consensus/mod.rs:257-287 | Fails exactly when the update does not verify; otherwise each field: committee and both counts from the updated store, header and the rest from the original |
| ConsensusProgram.PrepareConsensusProofInputs | golem-symbiotic-consensus-mpt/src/rpcs/consensus/mod.rs:332-419 | Fails exactly when a request fails, no update came or the first does not verify, with the error of the first of these; with a first update behind the input slot the program's run is the rest of the run over everything fetched, and otherwise the store keeps its header |
| ConsensusProgram.ValidateWindow | golem-symbiotic-consensus-mpt/src/rpcs/consensus/mod.rs:518-556 | Ok exactly when the program accepts and, if asked for, the final slot is ahead, a checkpoint, and with a next committee; otherwise the first check that fails |
| ConsensusProgram.WindowsLink | golem-symbiotic-consensus-mpt/src/rpcs/consensus/mod.rs:517-559 | A window's expected slot and store hash are the proved ones, and a window prepared from them is proved from where the first ends, at a later checkpoint |
| DepositPipeline.PrepareConsensusMptProofInputs | golem-symbiotic-consensus-mpt/src/rpcs/execution/http.rs:220-318 | Inputs are returned only if the program accepts them, and their storage is built from all events of the closed block range; each error is returned only for its own reason |
| DepositPipeline.ScanSeesTheLogs | golem-symbiotic-consensus-mpt/src/rpcs/execution/http.rs:227-233 | The scan over the contract's blocks gives exactly the window's TokensLocked events in order |
| DepositPipeline.SlotsAreExact | golem-symbiotic-consensus-mpt/src/rpcs/execution/http.rs:235-277 | One slot, in ascending order, for each user with an event in the window |
| DepositPipeline.CommitsWhatChanged | golem-symbiotic-consensus-mpt/src/rpcs/execution/http.rs:227-306 | End to end: accepted entries are exactly the users whose lockedTokens changed in the window, each once, with the non-zero amount at its end; values and proofs from the provider are not trusted |
| DepositPipeline.HonestWindowIsAccepted | golem-symbiotic-consensus-mpt/src/rpcs/execution/http.rs:227-306 | Completeness: whatever was deposited, a window whose users fit the tree has answers, with the true amounts and proofs, that build accepted storage |
| DepositPipeline.BlocksHaveTries | src/layerzero/app/AppSource.sol:51-52 | Whatever was deposited, there are tries that hold the contract's account and amounts |
| TrieBuilder.HoldsIsPossible | golem-symbiotic-consensus-mpt-program/src/mpt.rs:184-229 | For every contract and the locked amounts of finitely many users there are tries that hold exactly them |
| TrieBuilder.LookupBuild | golem-symbiotic-consensus-mpt-program/src/mpt.rs:194-203 | A trie built from a finite map holds the map and nothing else |
| TrieBuilder.BuildIsWellFormed | golem-symbiotic-consensus-mpt-program/src/mpt.rs:194-203 | Every node of it can be encoded |
| DepositPipeline.CommittedUnique | golem-symbiotic-consensus-mpt/src/rpcs/execution/http.rs:273-277 | No other list of entries fits the window, whichever provider was asked |
| DepositPipeline.OutputCommitsWhatChanged | golem-symbiotic-consensus-mpt-program/src/mpt.rs:255-275 | Any list of slots with the root in the proof's outputs, of any length and from any source, lists exactly the changes of the window |
| DepositPipeline.MirrorIsExact | golem-symbiotic-consensus-mpt/src/rpcs/execution/http.rs:220-233 | A reader who takes over the entries of consecutive windows, which share their boundary block, knows every user's locked amount after the last: no deposit is missed or counted twice |
| DepositPipeline.BoundariesMeet | golem-symbiotic-consensus-mpt/src/rpcs/consensus/mod.rs:567-584 | Consecutive windows share their boundary block exactly when the final store's header and the finality update's carry one block number |
| TaskPoller.Poller.ProcessNewTasks | off-chain/cmd/node/main.go:279-342 | Registers exactly the tasks reported as created before the first failing call, in order |
| TaskPoller.Poller.PollChain | off-chain/cmd/node/main.go:164-190 | Takes over the window even where registering fails; only failing to get the head or the events ends the program |
| TaskPoller.Poller.ReadStatuses | off-chain/cmd/node/main.go:204-215 | Rereads exactly the chains that have not responded, in any order; a failing call leaves the statuses read so far |
| TaskPoller.Poller.ProcessProof | off-chain/cmd/node/main.go:253-277 | If no sending fails, sends the entry's result, epoch and proof to every chain that has not responded, and changes no entry |
| TaskPoller.Poller.RefreshTask | off-chain/cmd/node/main.go:203-249 | One task's turn: deleted, refreshed or partly read, other entries untouched, and responses sent where the proof is known |
| TaskPoller.Poller.FetchResults | off-chain/cmd/node/main.go:202-251 | A pass in any order: ok exactly when every needed status can be read; every task is dealt with, or the pass broke off and it is at most partly read |
| TaskPoller.Poller.PollChains | off-chain/cmd/node/main.go:164-190 | Takes the chains' turns in any order until one ends the program: one window and its registered tasks for each |
| TaskPoller.Poller.Tick | off-chain/cmd/node/main.go:163-195 | Runs on exactly when every head and every filter request succeeds; its steps are one window with its registrations for each chain, then a pass over the tasks as they are after that |
| TaskPoller.ResponseIsBacked | off-chain/cmd/node/main.go:231-247 | In every run a response carries the sum of the two numbers of the event its task was last registered for, the epoch of its signature and the proof the relay delivered since, and goes to a chain last read as not responded, after all chains were read |
| TaskPoller.FetchIsBacked | off-chain/cmd/node/main.go:231-234 | The relay is asked for the proof of the request that the latest registration of the task led to |
| TaskPoller.RefreshedMeans | off-chain/cmd/node/main.go:204-241 | A pass deletes a task exactly when every chain has responded, or every chain says not found or expired; a kept task has the chains' statuses, the proof if the relay delivers it, and everything else as it was |
| TaskPoller.ReachesMeans | off-chain/cmd/node/main.go:279-300 | A window reaches an event exactly when no call fails up to it; events not reported as created are passed over |
| TaskPoller.RespondedIsFinal | off-chain/cmd/node/main.go:205-207 | Within an entry's life a chain read as responded is never read again and gets no later response |
| TaskPoller.DeletedOnlyWhenSettled | off-chain/cmd/node/main.go:217-230 | A task is deleted only when all chains were last read as responded, or all as not found or expired |
| TaskPoller.RunRemembersStatus | off-chain/cmd/node/main.go:203-215 | In every run an entry's statuses are those last read since its registration |
| TaskPoller.RunRemembersProof | off-chain/cmd/node/main.go:231-243 | In every run an entry is its latest registration with the proof last delivered for it |
| TaskPoller.WindowsTile | off-chain/cmd/node/main.go:165-184 | A chain's scan windows tile its blocks, each exactly once and in order, exactly when its finalized head never went back |
| TaskPoller.NeverScannedAgain | off-chain/cmd/node/main.go:165-184 | As long as the finalized head does not go back, no later window of a chain starts before the end of an earlier one |
| TaskPoller.RegisteredExactly | off-chain/cmd/node/main.go:184-189 | As long as heads do not go back and windows return events of their own blocks, an event is registered in a run exactly when the one window that holds its block reaches it before the first failing call and its chain reports the task as created |
| TaskPoller.TaskIsLost | off-chain/cmd/node/main.go:279-291 | A run in which the status call of one event fails, and the task created by the next is not registered however the run goes on under the same two conditions |

## Left out

- ECTwistMulJacobian: the accumulated sum is stated for a start point on the curve with a canonical Z, which is what the one caller passes; associativity is only assumed there.
- StageTransitionProof: job ids are kept below 2^64, where the addition of the source would overflow.
- GetSourceContractEvents: the sum of two 64-bit block numbers that leaves the range is an outcome `Overflows`; whether the program then panics or wraps depends on how it is built.
- VerifyStorageSlotProofs: `fold_merkle_left` and `compute_merkle_tree_depth_and_size` of the nori_hash crate are not part of this model; they are written from the comments beside their calls, and for zero slots the root is that of one zero leaf.
- VerifyStorageSlotProofs: the error reasons, which are free text, are not modelled.
- HoldsIsPossible: the tries built have leaves and branches but no extension nodes, so their hashes are not those a node would compute; any well-formed trie will do for the results that assume one.
- PrepareContractStorage: `sort_by` of the standard library is a stable insertion sort on sequences; sorting in place is not captured.
- PrepareConsensusMptProofInputs: `multiplex` and `query_with_fallback` run the preparation for some provider and return some provider's success; the model is one such call with an arbitrary provider, without timeouts.
- HandleProverSuccess: the proof is cut down to whether its public values decode; logging and timing are left out.
- OnResult: the consumer of the detector's output channel is taken as always ready. In the source its arm is empty, so staging is a free step of the model.
- Detector: closed channels, after which the detector exits, are not modelled.
- ProcessNewTasks: packing the message and the creation of a transactor are part of the call that may fail, so what the relay is asked to sign is not modelled; the result is the unbounded sum the Go code computes.
- Poller: the `Statuses` maps are shared by reference between copies of an entry in the source; the model writes each status to the entry at once, which is what that sharing amounts to.
- Tick: cancellation by a signal ends the loop between two ticks and is not modelled.
- The modexp precompile (EIP-198) always succeeds in the model; running out of gas is not modelled.
- Internals of Keccak, Poseidon, SHA-256 and of the helios light client.
- RPC transport, environment parsing, logging, CBOR and serde encodings, clocks (only the delays of the retries are counted).
- `SymbioticDvn`, `AppDest`, `BETH` and `MockEndpoint`: one-branch checks around external verifiers.
- The TypeScript worker and storage client, deploy scripts and generated Go bindings.
