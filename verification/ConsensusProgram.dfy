/** Model of `consensus_program` and `consensus_mpt_program` in `consensus.rs`, and of how
    `rpcs/consensus/mod.rs` prepares and validates their inputs. The light client of the helios crate is an
    arbitrary set of functions. */
module ConsensusProgram {
  import opened Common
  import opened OutputCodec
  import SlotProofs

  type Header(!new, ==)
  type Committee(!new, ==)
  type Rest(!new, ==)
  type Update(!new, ==)
  type FinalityUpdate(!new, ==)

  /** The genesis root and the fork versions. */
  type Chain(!new, ==)

  datatype Store = Store(
    finalizedHeader: Header, nextSyncCommittee: Option<Committee>, previousMaxActiveParticipants: nat,
    currentMaxActiveParticipants: nat, rest: Rest)

  datatype LightClient = LightClient(
    hash: Store -> Option<Hash>,
    slot: Header -> U64,
    executionStateRoot: Header -> Option<Hash>,
    blockNumber: Header -> Option<nat>,
    committeeHash: Committee -> Hash,
    updateHeader: Update -> Header,
    finalityHeader: FinalityUpdate -> Header,
    verifyUpdate: (Update, U64, Store, Chain) -> bool,
    applyUpdate: (Store, Update) -> Store,
    verifyFinalityUpdate: (FinalityUpdate, U64, Store, Chain) -> bool,
    applyFinalityUpdate: (Store, FinalityUpdate) -> Store)

  datatype ConsensusProofInputs = ConsensusProofInputs(
    updates: seq<Update>, finalityUpdate: FinalityUpdate, expectedCurrentSlot: U64, store: Store, chain: Chain,
    storeHash: Hash)

  /** The inputs of the plain program with the contract's storage beside them. */
  datatype ProofInputs = ProofInputs(consensus: ConsensusProofInputs, contractStorage: SlotProofs.ContractStorage)

  datatype ProgramError =
    | HashChainMismatch(expected: Hash, actual: Hash)
    | InvalidUpdate(index: nat)
    | InvalidFinalityUpdate
    | MissingExecutionRoot
    | StoreHashingError
    | MptError(error: SlotProofs.MptError)

  const ZERO: Hash := seq(32, _ => 0)

  // ----- runs of the light client

  datatype Step =
    | Sync(update: Update, now: U64, chain: Chain)
    | Finality(finalityUpdate: FinalityUpdate, now: U64, chain: Chain)

  predicate Verifies(lc: LightClient, s: Store, step: Step) {
    match step
    case Sync(u, now, chain) => lc.verifyUpdate(u, now, s, chain)
    case Finality(f, now, chain) => lc.verifyFinalityUpdate(f, now, s, chain)
  }

  function Apply(lc: LightClient, s: Store, step: Step): Store {
    match step
    case Sync(u, _, _) => lc.applyUpdate(s, u)
    case Finality(f, _, _) => lc.applyFinalityUpdate(s, f)
  }

  function After(lc: LightClient, s: Store, steps: seq<Step>): Store
    decreases steps
  {
    if steps == [] then s else After(lc, Apply(lc, s, steps[0]), steps[1..])
  }

  /** Every step verifies in the store it is applied to. */
  predicate ValidRun(lc: LightClient, s: Store, steps: seq<Step>)
    decreases steps
  {
    steps == [] || (Verifies(lc, s, steps[0]) && ValidRun(lc, Apply(lc, s, steps[0]), steps[1..]))
  }

  lemma {:induction false} RunsJoin(lc: LightClient, s: Store, a: seq<Step>, b: seq<Step>)
    ensures After(lc, s, a + b) == After(lc, After(lc, s, a), b)
    ensures ValidRun(lc, s, a + b) <==> ValidRun(lc, s, a) && ValidRun(lc, After(lc, s, a), b)
    decreases a
  {
    if a == [] {
      assert a + b == b;
    } else {
      RunsJoin(lc, Apply(lc, s, a[0]), a[1..], b);
      assert (a + b)[1..] == a[1..] + b;
    }
  }

  function SyncSteps(updates: seq<Update>, now: U64, chain: Chain): seq<Step> {
    seq(|updates|, i requires 0 <= i < |updates| => Sync(updates[i], now, chain))
  }

  function SyncStepsOf(i: ConsensusProofInputs): seq<Step> {
    SyncSteps(i.updates, i.expectedCurrentSlot, i.chain)
  }

  function StepsOf(i: ConsensusProofInputs): seq<Step> {
    SyncStepsOf(i) + [Finality(i.finalityUpdate, i.expectedCurrentSlot, i.chain)]
  }

  function Final(lc: LightClient, i: ConsensusProofInputs): Store {
    After(lc, i.store, StepsOf(i))
  }

  /** The store is the one the hash commits to, its run is valid, and the final store has an execution
      header and a hash. */
  predicate Accepted(lc: LightClient, i: ConsensusProofInputs) {
    && lc.hash(i.store) == Some(i.storeHash)
    && ValidRun(lc, i.store, StepsOf(i))
    && lc.executionStateRoot(Final(lc, i).finalizedHeader).Some?
    && lc.hash(Final(lc, i)).Some?
  }

  /** The final store, as the outputs show it. */
  predicate Describes(lc: LightClient, i: ConsensusProofInputs, o: ConsensusProofOutputs) {
    var t := Final(lc, i);
    && o.inputSlot == lc.slot(i.store.finalizedHeader)
    && lc.hash(i.store) == Some(o.inputStoreHash)
    && o.outputSlot == lc.slot(t.finalizedHeader)
    && lc.hash(t) == Some(o.outputStoreHash)
    && lc.executionStateRoot(t.finalizedHeader) == Some(o.executionStateRoot)
    && o.nextSyncCommitteeHash == CommitteeHash(lc, t)
  }

  function CommitteeHash(lc: LightClient, s: Store): Hash {
    match s.nextSyncCommittee
    case Some(c) => lc.committeeHash(c)
    case None => ZERO
  }

  /** Why the checks before the outputs stopped: each error names the first check that fails. */
  predicate TransitionErrorFits(lc: LightClient, i: ConsensusProofInputs, e: ProgramError) {
    var synced := After(lc, i.store, SyncStepsOf(i));
    match e
    case HashChainMismatch(expected, actual) => expected == i.storeHash != actual && lc.hash(i.store) == Some(actual)
    case StoreHashingError => lc.hash(i.store).None?
    case InvalidUpdate(n) =>
      && lc.hash(i.store) == Some(i.storeHash)
      && n < |i.updates|
      && ValidRun(lc, i.store, SyncStepsOf(i)[..n])
      && !Verifies(lc, After(lc, i.store, SyncStepsOf(i)[..n]), SyncStepsOf(i)[n])
    case InvalidFinalityUpdate =>
      && lc.hash(i.store) == Some(i.storeHash)
      && ValidRun(lc, i.store, SyncStepsOf(i))
      && !lc.verifyFinalityUpdate(i.finalityUpdate, i.expectedCurrentSlot, synced, i.chain)
    case _ => false
  }

  /** Why a program failed; the storage proofs come between the execution header and the final hash. */
  ghost predicate ErrorFits(lc: LightClient, i: ConsensusProofInputs, e: ProgramError) {
    || TransitionErrorFits(lc, i, e)
    || (&& lc.hash(i.store) == Some(i.storeHash) && ValidRun(lc, i.store, StepsOf(i))
        && var t := Final(lc, i);
           match e
           case MissingExecutionRoot => lc.executionStateRoot(t.finalizedHeader).None?
           case StoreHashingError => lc.executionStateRoot(t.finalizedHeader).Some? && lc.hash(t).None?
           case _ => false)
  }

  ghost predicate MptErrorFits(lc: LightClient, lib: SlotProofs.Library, i: ProofInputs, e: ProgramError) {
    var c := i.consensus;
    var root := lc.executionStateRoot(Final(lc, c).finalizedHeader);
    if !e.MptError? then ErrorFits(lc, c, e)
    else
      && lc.hash(c.store) == Some(c.storeHash) && ValidRun(lc, c.store, StepsOf(c))
      && root.Some? && SlotProofs.ErrorFits(lib, root.value, i.contractStorage, e.error)
  }

  lemma OneStep(lc: LightClient, s: Store, step: Step)
    ensures After(lc, s, [step]) == Apply(lc, s, step)
    ensures ValidRun(lc, s, [step]) <==> Verifies(lc, s, step)
  {
    assert [step][1..] == [];
  }

  /** Steps 1 to 4 of both programs: the hash check, the updates and the finality update. */
  method Transition(lc: LightClient, i: ConsensusProofInputs) returns (r: Result<Store, ProgramError>)
    ensures r.Ok? <==> lc.hash(i.store) == Some(i.storeHash) && ValidRun(lc, i.store, StepsOf(i))
    ensures r.Ok? ==> r.value == Final(lc, i)
    ensures r.Err? ==> TransitionErrorFits(lc, i, r.error)
  {
    hide After, ValidRun;
    var calculated := lc.hash(i.store);
    if calculated.None? {
      return Err(StoreHashingError);
    }
    if calculated.value != i.storeHash {
      return Err(HashChainMismatch(i.storeHash, calculated.value));
    }
    var store := i.store;
    ghost var steps := SyncStepsOf(i);
    EmptyRun(lc, store);
    for index := 0 to |i.updates|
      invariant store == After(lc, i.store, steps[..index]) && ValidRun(lc, i.store, steps[..index])
    {
      var update := i.updates[index];
      assert steps == steps[..index] + steps[index..];
      RunsJoin(lc, i.store, steps[..index], [steps[index]]);
      OneStep(lc, store, steps[index]);
      assert steps[..index + 1] == steps[..index] + [steps[index]];
      if !lc.verifyUpdate(update, i.expectedCurrentSlot, store, i.chain) {
        PrefixValid(lc, i, index + 1);
        return Err(InvalidUpdate(index));
      }
      store := lc.applyUpdate(store, update);
    }
    assert steps[..|steps|] == steps;
    ghost var last := Finality(i.finalityUpdate, i.expectedCurrentSlot, i.chain);
    RunsJoin(lc, i.store, steps, [last]);
    OneStep(lc, store, last);
    if !lc.verifyFinalityUpdate(i.finalityUpdate, i.expectedCurrentSlot, store, i.chain) {
      return Err(InvalidFinalityUpdate);
    }
    store := lc.applyFinalityUpdate(store, i.finalityUpdate);
    r := Ok(store);
  }

  lemma EmptyRun(lc: LightClient, s: Store)
    ensures After(lc, s, []) == s && ValidRun(lc, s, [])
  {
  }

  lemma PrefixValid(lc: LightClient, i: ConsensusProofInputs, n: nat)
    requires n <= |i.updates|
    ensures ValidRun(lc, i.store, StepsOf(i)) ==> ValidRun(lc, i.store, SyncStepsOf(i)[..n])
  {
    hide After, ValidRun;
    var all := StepsOf(i);
    assert all == SyncStepsOf(i)[..n] + all[n..];
    RunsJoin(lc, i.store, SyncStepsOf(i)[..n], all[n..]);
  }

  method ConsensusProgram(lc: LightClient, i: ConsensusProofInputs)
    returns (r: Result<ConsensusProofOutputs, ProgramError>)
    ensures PlainResult(lc, i, r)
  {
    hide ValidRun, After, StepsOf;
    var transition := Transition(lc, i);
    if transition.Err? {
      return Err(transition.error);
    }
    var store := transition.value;
    var outputSlot := lc.slot(store.finalizedHeader);
    var nextSyncCommitteeHash := match store.nextSyncCommittee case Some(c) => lc.committeeHash(c) case None => ZERO;
    var executionStateRoot := lc.executionStateRoot(store.finalizedHeader);
    if executionStateRoot.None? {
      return Err(MissingExecutionRoot);
    }
    var outputStoreHash := lc.hash(store);
    if outputStoreHash.None? {
      return Err(StoreHashingError);
    }
    r := Ok(ConsensusProofOutputs(lc.slot(i.store.finalizedHeader), i.storeHash, outputSlot, outputStoreHash.value,
                                  executionStateRoot.value, nextSyncCommitteeHash));
  }

  /** The six fields both programs output. */
  function Shared(o: ProofOutputs): ConsensusProofOutputs {
    ConsensusProofOutputs(o.inputSlot, o.inputStoreHash, o.outputSlot, o.outputStoreHash, o.executionStateRoot,
                          o.nextSyncCommitteeHash)
  }

  /** The plain program accepts, and so does the storage verification against the root it ends with. */
  ghost predicate MptAccepted(lc: LightClient, lib: SlotProofs.Library, i: ProofInputs) {
    && Accepted(lc, i.consensus)
    && SlotProofs.Accepts(lib, lc.executionStateRoot(Final(lc, i.consensus).finalizedHeader).value, i.contractStorage)
  }

  ghost predicate MptDescribes(lc: LightClient, lib: SlotProofs.Library, i: ProofInputs, o: ProofOutputs) {
    && Describes(lc, i.consensus, Shared(o))
    && o.verifiedSlotsRoot == SlotProofs.SlotsRoot(lib, i.contractStorage.storageSlots)
  }

  method ConsensusMptProgram(lc: LightClient, lib: SlotProofs.Library, i: ProofInputs)
    returns (r: Result<ProofOutputs, ProgramError>)
    ensures MptResult(lc, lib, i, r)
  {
    hide ValidRun, After, StepsOf, SlotProofs.Accepts, SlotProofs.SlotsRoot, SlotProofs.ErrorFits;
    var transition := Transition(lc, i.consensus);
    if transition.Err? {
      return Err(transition.error);
    }
    var store := transition.value;
    var executionStateRoot := lc.executionStateRoot(store.finalizedHeader);
    if executionStateRoot.None? {
      return Err(MissingExecutionRoot);
    }
    var verifiedSlots := SlotProofs.VerifyStorageSlotProofs(lib, executionStateRoot.value, i.contractStorage);
    if verifiedSlots.Err? {
      return Err(MptError(verifiedSlots.error));
    }
    var outputSlot := lc.slot(store.finalizedHeader);
    var nextSyncCommitteeHash := match store.nextSyncCommittee case Some(c) => lc.committeeHash(c) case None => ZERO;
    var outputStoreHash := lc.hash(store);
    if outputStoreHash.None? {
      return Err(StoreHashingError);
    }
    r := Ok(ProofOutputs(lc.slot(i.consensus.store.finalizedHeader), i.consensus.storeHash, outputSlot,
                         outputStoreHash.value, executionStateRoot.value, verifiedSlots.value, nextSyncCommitteeHash));
  }

  /** A result of `ConsensusProgram`. */
  ghost predicate PlainResult(lc: LightClient, i: ConsensusProofInputs, r: Result<ConsensusProofOutputs, ProgramError>)
  {
    && (r.Ok? <==> Accepted(lc, i))
    && (r.Ok? ==> Describes(lc, i, r.value))
    && (r.Err? ==> ErrorFits(lc, i, r.error))
  }

  /** A result of `ConsensusMptProgram`. */
  ghost predicate MptResult(lc: LightClient, lib: SlotProofs.Library, i: ProofInputs,
                            r: Result<ProofOutputs, ProgramError>)
  {
    && (r.Ok? <==> MptAccepted(lc, lib, i))
    && (r.Ok? ==> MptDescribes(lc, lib, i, r.value))
    && (r.Err? ==> MptErrorFits(lc, lib, i, r.error))
  }

  /** Steps 1 to 4 end well exactly when no error of theirs fits. */
  lemma TransitionFails(lc: LightClient, i: ConsensusProofInputs, e: ProgramError)
    requires TransitionErrorFits(lc, i, e)
    ensures !(lc.hash(i.store) == Some(i.storeHash) && ValidRun(lc, i.store, StepsOf(i)))
    ensures e.InvalidUpdate? ==> !ValidRun(lc, i.store, SyncStepsOf(i))
  {
    hide After, ValidRun;
    var steps, last := SyncStepsOf(i), Finality(i.finalityUpdate, i.expectedCurrentSlot, i.chain);
    assert steps[..|i.updates|] == steps;
    RunsJoin(lc, i.store, steps, [last]);
    OneStep(lc, After(lc, i.store, steps), last);
    if e.InvalidUpdate? && ValidRun(lc, i.store, steps) {
      ValidBefore(lc, i, e.index, |i.updates|);
    }
  }

  /** Only one error fits, and none where the program accepts. */
  lemma ErrorUnique(lc: LightClient, i: ConsensusProofInputs, d: ProgramError, e: ProgramError)
    requires ErrorFits(lc, i, d) && ErrorFits(lc, i, e)
    ensures d == e && !Accepted(lc, i)
  {
    hide After, ValidRun, StepsOf, SyncStepsOf;
    if TransitionErrorFits(lc, i, d) { TransitionFails(lc, i, d); }
    if TransitionErrorFits(lc, i, e) { TransitionFails(lc, i, e); }
    if d.InvalidUpdate? && e.InvalidUpdate? { IndexUnique(lc, i, d.index, e.index); }
  }

  lemma IndexUnique(lc: LightClient, i: ConsensusProofInputs, m: nat, n: nat)
    requires TransitionErrorFits(lc, i, InvalidUpdate(m)) && TransitionErrorFits(lc, i, InvalidUpdate(n))
    ensures m == n
  {
    hide After, ValidRun;
    if m < n { ValidBefore(lc, i, m, n); }
    if n < m { ValidBefore(lc, i, n, m); }
  }

  lemma ValidBefore(lc: LightClient, i: ConsensusProofInputs, m: nat, n: nat)
    requires m < n <= |i.updates| && ValidRun(lc, i.store, SyncStepsOf(i)[..n])
    ensures Verifies(lc, After(lc, i.store, SyncStepsOf(i)[..m]), SyncStepsOf(i)[m])
  {
    hide After, ValidRun;
    var steps := SyncStepsOf(i);
    assert steps[..n] == steps[..m] + ([steps[m]] + steps[m + 1..n]);
    RunsJoin(lc, i.store, steps[..m], [steps[m]] + steps[m + 1..n]);
    RunsJoin(lc, After(lc, i.store, steps[..m]), [steps[m]], steps[m + 1..n]);
    OneStep(lc, After(lc, i.store, steps[..m]), steps[m]);
  }

  /** The program with storage proofs refines the plain one. Where it succeeds, so does the plain program, with
      the same six fields. Where the plain program fails, it fails with the same error, or with an error of the
      storage proofs where only the hash of the final store is missing. Where only it fails, the storage proofs
      do. */
  lemma Refines(lc: LightClient, lib: SlotProofs.Library, i: ProofInputs,
                p: Result<ConsensusProofOutputs, ProgramError>, q: Result<ProofOutputs, ProgramError>)
    requires PlainResult(lc, i.consensus, p) && MptResult(lc, lib, i, q)
    ensures q.Ok? ==> p.Ok? && Shared(q.value) == p.value
    ensures p.Err? ==> q.Err? && (q.error == p.error || (q.error.MptError? && p.error == StoreHashingError))
    ensures p.Err? && q.Err? && q.error != p.error ==>
              ValidRun(lc, i.consensus.store, StepsOf(i.consensus)) && lc.hash(Final(lc, i.consensus)).None?
    ensures p.Ok? && q.Err? ==> q.error.MptError?
  {
    hide After, ValidRun, StepsOf, SyncStepsOf, TransitionErrorFits, SlotProofs.Accepts, SlotProofs.ErrorFits;
    var c := i.consensus;
    if q.Err? && !q.error.MptError? {
      ErrorUnique(lc, c, q.error, if p.Err? then p.error else q.error);
    } else if p.Err? && TransitionErrorFits(lc, c, p.error) {
      TransitionFails(lc, c, p.error);
    }
  }

  // ----- a run by the stores it passes through

  /** The stores that the updates lead through, each verified in the store before it. */
  ghost predicate Passes(lc: LightClient, i: ConsensusProofInputs, stores: seq<Store>) {
    && |stores| == |i.updates| + 1 && stores[0] == i.store
    && forall k | 0 <= k < |i.updates| ::
         && lc.verifyUpdate(i.updates[k], i.expectedCurrentSlot, stores[k], i.chain)
         && stores[k + 1] == lc.applyUpdate(stores[k], i.updates[k])
  }

  lemma {:induction false} SyncRunPasses(lc: LightClient, i: ConsensusProofInputs) returns (stores: seq<Store>)
    requires ValidRun(lc, i.store, SyncStepsOf(i))
    ensures Passes(lc, i, stores) && stores[|i.updates|] == After(lc, i.store, SyncStepsOf(i))
    decreases |i.updates|
  {
    if i.updates == [] {
      stores := [i.store];
    } else {
      var first := SyncStepsOf(i)[0];
      var j := i.(updates := i.updates[1..], store := Apply(lc, i.store, first));
      assert SyncStepsOf(i)[1..] == SyncStepsOf(j);
      var rest := SyncRunPasses(lc, j);
      stores := [i.store] + rest;
      forall k | 0 <= k < |i.updates|
        ensures lc.verifyUpdate(i.updates[k], i.expectedCurrentSlot, stores[k], i.chain)
                && stores[k + 1] == lc.applyUpdate(stores[k], i.updates[k])
      {
        if k > 0 { assert i.updates[k] == j.updates[k - 1] && stores[k] == rest[k - 1]; }
      }
    }
  }

  lemma {:induction false} PassingIsARun(lc: LightClient, i: ConsensusProofInputs, stores: seq<Store>)
    requires Passes(lc, i, stores)
    ensures ValidRun(lc, i.store, SyncStepsOf(i)) && stores[|i.updates|] == After(lc, i.store, SyncStepsOf(i))
    decreases |i.updates|
  {
    if i.updates != [] {
      var first := SyncStepsOf(i)[0];
      var j := i.(updates := i.updates[1..], store := Apply(lc, i.store, first));
      assert SyncStepsOf(i)[1..] == SyncStepsOf(j);
      forall k | 0 <= k < |j.updates|
        ensures lc.verifyUpdate(j.updates[k], j.expectedCurrentSlot, stores[1..][k], j.chain)
                && stores[1..][k + 1] == lc.applyUpdate(stores[1..][k], j.updates[k])
      {
        assert j.updates[k] == i.updates[k + 1] && stores[1..][k] == stores[k + 1];
      }
      PassingIsARun(lc, j, stores[1..]);
    }
  }

  /** The run of the inputs is valid exactly when there are stores in between: every update verifies in the
      store before it and leads to the next, and the finality update verifies in the last and leads to the final
      store. */
  lemma RunMeansStores(lc: LightClient, i: ConsensusProofInputs)
    ensures ValidRun(lc, i.store, StepsOf(i)) <==>
            exists stores :: Passes(lc, i, stores)
                             && lc.verifyFinalityUpdate(i.finalityUpdate, i.expectedCurrentSlot, stores[|i.updates|],
                                                        i.chain)
    ensures forall stores | Passes(lc, i, stores) ::
              Final(lc, i) == lc.applyFinalityUpdate(stores[|i.updates|], i.finalityUpdate)
  {
    hide ValidRun, After;
    var last := Finality(i.finalityUpdate, i.expectedCurrentSlot, i.chain);
    RunsJoin(lc, i.store, SyncStepsOf(i), [last]);
    OneStep(lc, After(lc, i.store, SyncStepsOf(i)), last);
    forall stores | Passes(lc, i, stores)
      ensures ValidRun(lc, i.store, SyncStepsOf(i)) && stores[|i.updates|] == After(lc, i.store, SyncStepsOf(i))
    {
      PassingIsARun(lc, i, stores);
    }
    if ValidRun(lc, i.store, SyncStepsOf(i)) {
      var stores := SyncRunPasses(lc, i);
    }
  }

  // ----- a chain of proofs is one run

  function AllSteps(ins: seq<ProofInputs>): seq<Step> {
    if ins == [] then [] else AllSteps(ins[..|ins| - 1]) + StepsOf(ins[|ins| - 1].consensus)
  }

  ghost predicate NoCollision(lc: LightClient, pool: set<Store>) {
    forall s, t | s in pool && t in pool && lc.hash(s).Some? && lc.hash(s) == lc.hash(t) :: s == t
  }

  /** Accepted inputs, the outputs they lead to, and the published bytes of those outputs. */
  ghost predicate Proved(lc: LightClient, lib: SlotProofs.Library, ins: seq<ProofInputs>, proofs: seq<seq<Byte>>,
                         outs: seq<ProofOutputs>)
  {
    && |ins| == |proofs| == |outs|
    && forall k | 0 <= k < |ins| ::
         && MptAccepted(lc, lib, ins[k])
         && Layout(outs[k]) == proofs[k]
         && Publishes(lc, lib, ins[k], proofs[k])
  }

  /** The bytes are those of the program's outputs. */
  ghost predicate Publishes(lc: LightClient, lib: SlotProofs.Library, i: ProofInputs, proof: seq<Byte>) {
    exists o :: MptDescribes(lc, lib, i, o) && Layout(o) == proof
  }

  /** Each proof starts with the store hash the one before it ends with. */
  predicate Linked(outs: seq<ProofOutputs>) {
    forall k | 0 <= k < |outs| - 1 :: outs[k].outputStoreHash == outs[k + 1].inputStoreHash
  }

  ghost predicate StoresIn(lc: LightClient, ins: seq<ProofInputs>, pool: set<Store>) {
    forall k | 0 <= k < |ins| :: ins[k].consensus.store in pool && Final(lc, ins[k].consensus) in pool
  }

  /** What was parsed from a proof's bytes is what the program put there. */
  lemma ParsedIsProved(lc: LightClient, lib: SlotProofs.Library, ins: seq<ProofInputs>, proofs: seq<seq<Byte>>,
                       outs: seq<ProofOutputs>, k: nat)
    requires Proved(lc, lib, ins, proofs, outs) && k < |ins|
    ensures MptDescribes(lc, lib, ins[k], outs[k])
  {
    hide Layout, MptAccepted, MptDescribes;
    assert Publishes(lc, lib, ins[k], proofs[k]);
    var o :| MptDescribes(lc, lib, ins[k], o) && Layout(o) == proofs[k];
    LayoutUnique(o, outs[k]);
  }

  /** Any sequence of accepted proofs whose store hashes match is one valid run of light client updates from
      the store of the first proof to the store the last proof commits to. */
  lemma {:induction false} ChainIsOneRun(lc: LightClient, lib: SlotProofs.Library, ins: seq<ProofInputs>,
                                         proofs: seq<seq<Byte>>, outs: seq<ProofOutputs>, pool: set<Store>)
    requires ins != [] && Proved(lc, lib, ins, proofs, outs) && Linked(outs)
    requires NoCollision(lc, pool) && StoresIn(lc, ins, pool)
    ensures
      var first, end := ins[0].consensus.store, After(lc, ins[0].consensus.store, AllSteps(ins));
      var last := outs[|outs| - 1];
      && lc.hash(first) == Some(outs[0].inputStoreHash)
      && lc.slot(first.finalizedHeader) == outs[0].inputSlot
      && ValidRun(lc, first, AllSteps(ins))
      && end == Final(lc, ins[|ins| - 1].consensus)
      && lc.hash(end) == Some(last.outputStoreHash)
      && lc.slot(end.finalizedHeader) == last.outputSlot
      && lc.executionStateRoot(end.finalizedHeader) == Some(last.executionStateRoot)
    decreases |ins|
  {
    hide Layout, SlotProofs.SlotsRoot, SlotProofs.Accepts, StepsOf, After, ValidRun;
    var n := |ins| - 1;
    ParsedIsProved(lc, lib, ins, proofs, outs, 0);
    ParsedIsProved(lc, lib, ins, proofs, outs, n);
    var first, last := ins[0].consensus.store, ins[n].consensus;
    assert AllSteps(ins) == AllSteps(ins[..n]) + StepsOf(last);
    RunsJoin(lc, first, AllSteps(ins[..n]), StepsOf(last));
    if n == 0 {
      assert ins[..n] == [];
      EmptyRun(lc, first);
    } else {
      PrefixIsProved(lc, lib, ins, proofs, outs, pool, n);
      ChainIsOneRun(lc, lib, ins[..n], proofs[..n], outs[..n], pool);
      StoresMeet(lc, lib, ins, proofs, outs, pool, n);
    }
  }

  lemma PrefixIsProved(lc: LightClient, lib: SlotProofs.Library, ins: seq<ProofInputs>, proofs: seq<seq<Byte>>,
                       outs: seq<ProofOutputs>, pool: set<Store>, n: nat)
    requires Proved(lc, lib, ins, proofs, outs) && Linked(outs) && StoresIn(lc, ins, pool) && n <= |ins|
    ensures Proved(lc, lib, ins[..n], proofs[..n], outs[..n]) && Linked(outs[..n]) && StoresIn(lc, ins[..n], pool)
  {
    hide Layout, MptAccepted, Publishes, Final;
    forall k | 0 <= k < n
      ensures MptAccepted(lc, lib, ins[..n][k]) && Layout(outs[..n][k]) == proofs[..n][k]
              && Publishes(lc, lib, ins[..n][k], proofs[..n][k])
    {
      assert ins[..n][k] == ins[k] && proofs[..n][k] == proofs[k] && outs[..n][k] == outs[k];
    }
  }

  /** Linked proofs meet in one store, and so also in one slot. */
  lemma StoresMeet(lc: LightClient, lib: SlotProofs.Library, ins: seq<ProofInputs>, proofs: seq<seq<Byte>>,
                   outs: seq<ProofOutputs>, pool: set<Store>, k: nat)
    requires Proved(lc, lib, ins, proofs, outs) && Linked(outs) && 0 < k < |ins|
    requires NoCollision(lc, pool) && StoresIn(lc, ins, pool)
    ensures Final(lc, ins[k - 1].consensus) == ins[k].consensus.store
    ensures outs[k - 1].outputSlot == outs[k].inputSlot
  {
    hide Layout, SlotProofs.SlotsRoot, SlotProofs.Accepts, StepsOf, After, ValidRun;
    ParsedIsProved(lc, lib, ins, proofs, outs, k - 1);
    ParsedIsProved(lc, lib, ins, proofs, outs, k);
    assert outs[k - 1].outputStoreHash == outs[(k - 1) + 1].inputStoreHash;
  }

  // ----- preparing and validating a window

  datatype PrepareError = BootstrapFailed | FinalityUpdateFailed | UpdatesFailed | NoUpdates | VerifyUpdateFailed

  /** The store has the next committee and both participant counts of the updated store, and its header and
      everything else of the original. */
  predicate TakesCommittee(s: Store, original: Store, updated: Store) {
    && s.finalizedHeader == original.finalizedHeader && s.rest == original.rest
    && s.nextSyncCommittee == updated.nextSyncCommittee
    && s.previousMaxActiveParticipants == updated.previousMaxActiveParticipants
    && s.currentMaxActiveParticipants == updated.currentMaxActiveParticipants
  }

  method GetStoreWithNextSyncCommittee(lc: LightClient, now: U64, store: Store, chain: Chain, first: Update)
    returns (r: Option<Store>)
    ensures r.Some? <==> lc.verifyUpdate(first, now, store, chain)
    ensures r.Some? ==> TakesCommittee(r.value, store, lc.applyUpdate(store, first))
  {
    var storeClone := store;
    if !lc.verifyUpdate(first, now, store, chain) {
      return None;
    }
    var applied := lc.applyUpdate(store, first);
    storeClone := storeClone.(nextSyncCommittee := applied.nextSyncCommittee);
    storeClone := storeClone.(previousMaxActiveParticipants := applied.previousMaxActiveParticipants);
    storeClone := storeClone.(currentMaxActiveParticipants := applied.currentMaxActiveParticipants);
    r := Some(storeClone);
  }

  /** All the updates a provider sent, and the finality update. */
  function Fetched(updates: seq<Update>, f: FinalityUpdate, now: U64, chain: Chain): seq<Step> {
    SyncSteps(updates, now, chain) + [Finality(f, now, chain)]
  }

  /** The error names the first thing that is missing or does not verify. */
  predicate PrepareErrorFits(lc: LightClient, bootstrapped: Option<Store>, finality: Option<FinalityUpdate>,
                             fetched: Option<seq<Update>>, now: U64, chain: Chain, e: PrepareError)
  {
    if bootstrapped.None? then e == BootstrapFailed
    else if finality.None? then e == FinalityUpdateFailed
    else if fetched.None? then e == UpdatesFailed
    else if fetched.value == [] then e == NoUpdates
    else e == VerifyUpdateFailed && !lc.verifyUpdate(fetched.value[0], now, bootstrapped.value, chain)
  }

  /** What was fetched is Some, or None where the request failed. An update behind the input slot is applied
      before the program starts, and the program's run is then the rest of the run over everything that was
      fetched; otherwise the store keeps its header and the program applies all the updates. */
  method PrepareConsensusProofInputs(lc: LightClient, bootstrapped: Option<Store>, finality: Option<FinalityUpdate>,
                                     fetched: Option<seq<Update>>, now: U64, chain: Chain, inputSlot: U64,
                                     storeHash: Hash)
    returns (r: Result<ConsensusProofInputs, PrepareError>)
    ensures r.Ok? <==> bootstrapped.Some? && finality.Some? && fetched.Some? && fetched.value != []
                       && lc.verifyUpdate(fetched.value[0], now, bootstrapped.value, chain)
    ensures r.Err? ==> PrepareErrorFits(lc, bootstrapped, finality, fetched, now, chain, r.error)
    ensures r.Ok? ==>
              && r.value.storeHash == storeHash && r.value.finalityUpdate == finality.value
              && r.value.expectedCurrentSlot == now && r.value.chain == chain
    ensures r.Ok? && lc.slot(lc.updateHeader(fetched.value[0])) < inputSlot ==>
              && r.value.store == lc.applyUpdate(bootstrapped.value, fetched.value[0])
              && r.value.updates == fetched.value[1..]
              && (ValidRun(lc, r.value.store, StepsOf(r.value))
                  <==> ValidRun(lc, bootstrapped.value, Fetched(fetched.value, finality.value, now, chain)))
              && Final(lc, r.value) == After(lc, bootstrapped.value, Fetched(fetched.value, finality.value, now, chain))
    ensures r.Ok? && lc.slot(lc.updateHeader(fetched.value[0])) >= inputSlot ==>
              && StepsOf(r.value) == Fetched(fetched.value, finality.value, now, chain)
              && TakesCommittee(r.value.store, bootstrapped.value, lc.applyUpdate(bootstrapped.value, fetched.value[0]))
  {
    hide ValidRun, After;
    if bootstrapped.None? { return Err(BootstrapFailed); }
    if finality.None? { return Err(FinalityUpdateFailed); }
    if fetched.None? { return Err(UpdatesFailed); }
    var updates, store := fetched.value, bootstrapped.value;
    if updates == [] { return Err(NoUpdates); }
    var first := updates[0];
    if lc.slot(lc.updateHeader(first)) < inputSlot {
      updates := updates[1..];
      if !lc.verifyUpdate(first, now, store, chain) {
        return Err(VerifyUpdateFailed);
      }
      store := lc.applyUpdate(store, first);
      r := Ok(ConsensusProofInputs(updates, finality.value, now, store, chain, storeHash));
      var step := Sync(first, now, chain);
      assert Fetched(fetched.value, finality.value, now, chain) == [step] + StepsOf(r.value);
      OneStep(lc, bootstrapped.value, step);
      RunsJoin(lc, bootstrapped.value, [step], StepsOf(r.value));
    } else {
      var synced := GetStoreWithNextSyncCommittee(lc, now, store, chain, first);
      if synced.None? {
        return Err(VerifyUpdateFailed);
      }
      r := Ok(ConsensusProofInputs(updates, finality.value, now, synced.value, chain, storeHash));
    }
  }

  datatype Window = Window(inputSlot: U64, outputSlot: U64, inputs: ConsensusProofInputs, expectedOutputStoreHash: Hash)

  datatype WindowError =
    | ProgramFailed(error: ProgramError)
    | NotGreater(outputSlot: U64, inputSlot: U64)
    | NotACheckpoint(outputSlot: U64)
    | ZeroCommittee

  /** The final slot is ahead of the input slot and a checkpoint, and the next committee is known. */
  predicate Progresses(lc: LightClient, i: ConsensusProofInputs, inputSlot: U64) {
    var t := Final(lc, i);
    lc.slot(t.finalizedHeader) > inputSlot && lc.slot(t.finalizedHeader) % 32 == 0 && CommitteeHash(lc, t) != ZERO
  }

  /** The error names the first check that fails. */
  ghost predicate WindowErrorFits(lc: LightClient, i: ConsensusProofInputs, inputSlot: U64, e: WindowError) {
    var t := Final(lc, i);
    var outputSlot := lc.slot(t.finalizedHeader);
    match e
    case ProgramFailed(error) => ErrorFits(lc, i, error)
    case NotGreater(o, s) => Accepted(lc, i) && o == outputSlot <= s == inputSlot
    case NotACheckpoint(o) => Accepted(lc, i) && o == outputSlot > inputSlot && o % 32 != 0
    case ZeroCommittee =>
      Accepted(lc, i) && outputSlot > inputSlot && outputSlot % 32 == 0 && CommitteeHash(lc, t) == ZERO
  }

  /** The closure given to `multiplex`: the plain program followed by the progress checks. */
  method ValidateWindow(lc: LightClient, i: ConsensusProofInputs, inputSlot: U64, validate: bool)
    returns (r: Result<Window, WindowError>)
    ensures r.Ok? <==> Accepted(lc, i) && (validate ==> Progresses(lc, i, inputSlot))
    ensures r.Err? ==> WindowErrorFits(lc, i, inputSlot, r.error)
    ensures r.Ok? ==> Validated(lc, r.value, validate) && r.value.inputs == i && r.value.inputSlot == inputSlot
  {
    hide ErrorFits, Accepted, Final;
    var outputs := ConsensusProgram(lc, i);
    if outputs.Err? {
      return Err(ProgramFailed(outputs.error));
    }
    var outputSlot := outputs.value.outputSlot;
    if validate && outputSlot <= inputSlot {
      return Err(NotGreater(outputSlot, inputSlot));
    }
    if validate && outputSlot % 32 > 0 {
      return Err(NotACheckpoint(outputSlot));
    }
    if validate && outputs.value.nextSyncCommitteeHash == ZERO {
      return Err(ZeroCommittee);
    }
    r := Ok(Window(inputSlot, outputSlot, i, outputs.value.outputStoreHash));
  }

  predicate Validated(lc: LightClient, w: Window, validate: bool) {
    && Accepted(lc, w.inputs)
    && (validate ==> Progresses(lc, w.inputs, w.inputSlot))
    && w.outputSlot == lc.slot(Final(lc, w.inputs).finalizedHeader)
    && lc.hash(Final(lc, w.inputs)) == Some(w.expectedOutputStoreHash)
  }

  /** What a window expects is what its proof outputs, and a window prepared from the expected slot and store
      hash of the one before is proved from exactly where the other proof ends. */
  lemma WindowsLink(lc: LightClient, lib: SlotProofs.Library, v: Window, w: Window, cv: SlotProofs.ContractStorage,
                    cw: SlotProofs.ContractStorage, o: ProofOutputs, p: ProofOutputs)
    requires Validated(lc, v, true) && Validated(lc, w, true)
    requires MptDescribes(lc, lib, ProofInputs(v.inputs, cv), o) && MptDescribes(lc, lib, ProofInputs(w.inputs, cw), p)
    requires w.inputSlot == v.outputSlot && w.inputs.storeHash == v.expectedOutputStoreHash
    requires NoCollision(lc, {Final(lc, v.inputs), w.inputs.store})
    ensures o.outputSlot == v.outputSlot && o.outputStoreHash == v.expectedOutputStoreHash
    ensures Linked([o, p]) && w.inputs.store == Final(lc, v.inputs)
    ensures v.inputSlot < o.outputSlot == p.inputSlot < p.outputSlot == w.outputSlot
    ensures o.outputSlot % 32 == 0 && p.outputSlot % 32 == 0
  {
    hide StepsOf, After, ValidRun;
  }
}
