/** The whole way from deposits to the committed root: `_prepare_consensus_mpt_proof_inputs` in
    `rpcs/execution/http.rs`, and what its inputs commit to when the program accepts them. */
module DepositPipeline {
  import opened Common
  import opened SlotLeaf
  import opened SlotProofs
  import opened StorageSlots
  import opened ConsensusProgram
  import opened OutputCodec
  import AppSource
  import EventScan
  import Merkle
  import Rlp
  import Trie
  import TrieBuilder

  /** The provider's account proof for a set of storage keys at a block. */
  type ProofProvider = (set<seq<Byte>>, nat) -> Option<ProofResponse>

  datatype PipelineError =
    | EventsFailed
    | ProofFailed
    | MissingAddressPanic(key: seq<Byte>)
    | DryRunFailed(error: ProgramError)

  /** The contract storage put together from a list of events and the provider's answer for their keys. */
  ghost predicate BuiltFrom(k: KeyHash, events: seq<TokensLocked>, askProof: ProofProvider, block: nat,
                            cs: ContractStorage)
  {
    exists m: SlotMap ::
      && MapOf(k, events, m)
      && BuiltFromMap(m, askProof(m.Keys, block), cs)
  }

  predicate BuiltFromMap(m: SlotMap, answer: Option<ProofResponse>, cs: ContractStorage) {
    && answer.Some? && AllKnown(m, answer.value.storageProof)
    && cs == ContractStorage(answer.value.address, answer.value.account, answer.value.accountProof,
                             SortByAddress(SlotsOf(m, answer.value.storageProof)))
  }

  /** Every way of preparing fails for the reason given, whatever complete chain the provider's logs come from. */
  ghost predicate PipelineErrorFits(
      lc: LightClient, lib: Library, askLogs: EventScan.Provider<TokensLocked>, askProof: ProofProvider,
      inputBlock: U64, outputBlock: U64, validated: ConsensusProofInputs, chain: nat -> seq<TokensLocked>,
      e: PipelineError)
  {
    var events := EventScan.LogsBetween(chain, inputBlock, outputBlock + 1);
    match e
    case EventsFailed => ScanFails(askLogs, inputBlock, outputBlock)
    case ProofFailed => exists m :: MapOf(lib.keccak, events, m) && askProof(m.Keys, outputBlock).None?
    case MissingAddressPanic(key) =>
      exists m :: MapOf(lib.keccak, events, m) && Strays(m, askProof(m.Keys, outputBlock), key)
    case DryRunFailed(error) =>
      exists cs :: BuiltFrom(lib.keccak, events, askProof, outputBlock, cs)
                   && MptErrorFits(lc, lib, ProofInputs(validated, cs), error)
  }

  ghost predicate ScanFails(askLogs: EventScan.Provider<TokensLocked>, inputBlock: U64, outputBlock: U64) {
    || !EventScan.Safe(inputBlock, outputBlock)
    || exists n, first, last :: inputBlock <= first <= last <= outputBlock && EventScan.GaveUp(askLogs, n, first, last)
  }

  /** The provider answered for a key it was not asked for. */
  predicate Strays(m: SlotMap, answer: Option<ProofResponse>, key: seq<Byte>) {
    answer.Some? && key !in m && key in Keys(answer.value.storageProof)
  }

  /** The inputs it returns have passed the program, and come from all the events of both end blocks and the
      blocks between them. */
  method PrepareConsensusMptProofInputs(
      lc: LightClient, lib: Library, askLogs: EventScan.Provider<TokensLocked>, askProof: ProofProvider,
      inputBlock: U64, outputBlock: U64, validated: ConsensusProofInputs)
    returns (r: Result<ProofInputs, PipelineError>)
    ensures r.Ok? ==> r.value.consensus == validated && MptAccepted(lc, lib, r.value)
    ensures r.Ok? ==>
              forall chain: nat -> seq<TokensLocked> | EventScan.Honest(askLogs, chain) ::
                BuiltFrom(lib.keccak, EventScan.LogsBetween(chain, inputBlock, outputBlock + 1), askProof, outputBlock,
                          r.value.contractStorage)
    ensures r.Err? ==>
              forall chain: nat -> seq<TokensLocked> | EventScan.Honest(askLogs, chain) ::
                PipelineErrorFits(lc, lib, askLogs, askProof, inputBlock, outputBlock, validated, chain, r.error)
  {
    hide MapOf, MptAccepted, MptDescribes, MptErrorFits, EventScan.Safe, EventScan.GaveUp, BuiltFromMap, AllKnown;
    var scan, _, _ := EventScan.GetSourceContractEvents(askLogs, inputBlock, outputBlock);
    if !scan.Events? {
      return Err(EventsFailed);
    }
    var slotMap := AddressesToStorageSlots(lib.keccak, scan.events);
    var answer := askProof(slotMap.Keys, outputBlock);
    if answer.None? {
      return Err(ProofFailed);
    }
    var prepared := PrepareContractStorage(slotMap, answer.value);
    if prepared.MissingAddress? {
      return Err(MissingAddressPanic(prepared.key));
    }
    BuiltFromAnswers(slotMap, answer.value, prepared.storage);
    var inputs := ProofInputs(validated, prepared.storage);
    var dryRun := ConsensusMptProgram(lc, lib, inputs);
    if dryRun.Err? {
      return Err(DryRunFailed(dryRun.error));
    }
    r := Ok(inputs);
  }

  lemma BuiltFromAnswers(m: SlotMap, answer: ProofResponse, cs: ContractStorage)
    requires AllKnown(m, answer.storageProof)
    requires cs == ContractStorage(answer.address, answer.account, answer.accountProof,
                                   SortByAddress(SlotsOf(m, answer.storageProof)))
    ensures BuiltFromMap(m, Some(answer), cs)
  {
  }

  // ----- the events of the contract's blocks

  type Blocks = seq<seq<AppSource.Action>>

  function LockedEvents(logs: seq<AppSource.Log>): seq<TokensLocked> {
    if logs == [] then []
    else
      var rest, l := LockedEvents(logs[..|logs| - 1]), logs[|logs| - 1];
      if l.TokensLocked? then rest + [TokensLocked(l.user, l.amount)] else rest
  }

  ghost function ChainOf(blocks: Blocks): nat -> seq<TokensLocked> {
    (n: nat) => if n < |blocks| then LockedEvents(AppSource.LogsBetween(blocks, n, n + 1)) else []
  }

  lemma {:induction false} LockedEventsJoin(a: seq<AppSource.Log>, b: seq<AppSource.Log>)
    ensures LockedEvents(a + b) == LockedEvents(a) + LockedEvents(b)
  {
    if b == [] {
      assert a + b == a;
    } else {
      LockedEventsJoin(a, b[..|b| - 1]);
      assert (a + b)[..|a + b| - 1] == a + b[..|b| - 1];
    }
  }

  lemma {:induction false} ScanSeesTheLogs(blocks: Blocks, start: nat, end: nat)
    requires start <= end <= |blocks|
    ensures EventScan.LogsBetween(ChainOf(blocks), start, end)
            == LockedEvents(AppSource.LogsBetween(blocks, start, end))
    decreases end
  {
    hide AppSource.StateBefore, AppSource.LogsBetween, LockedEvents;
    if start < end {
      ScanSeesTheLogs(blocks, start, end - 1);
      AppSource.LogsBetweenJoin(blocks, start, end - 1, end);
      LockedEventsJoin(AppSource.LogsBetween(blocks, start, end - 1), AppSource.LogsBetween(blocks, end - 1, end));
    } else {
      NoBlocksNoLogs(blocks, end);
    }
  }

  lemma NoBlocksNoLogs(blocks: Blocks, n: nat)
    requires n <= |blocks|
    ensures LockedEvents(AppSource.LogsBetween(blocks, n, n)) == []
  {
  }

  lemma {:induction false} UsersAreMentioned(logs: seq<AppSource.Log>, user: Address)
    ensures user in Users(LockedEvents(logs)) <==> AppSource.Mentions(logs, user)
  {
    if logs != [] {
      var l, before := logs[|logs| - 1], logs[..|logs| - 1];
      assert logs == before + [l];
      UsersAreMentioned(before, user);
      assert AppSource.Mentions(logs, user)
             <==> AppSource.Mentions(before, user) || (l.TokensLocked? && l.user == user);
    }
  }

  // ----- what is committed is what changed

  /** The amounts locked before the block with the given number. */
  ghost function LockedAt(blocks: Blocks, number: nat): Address -> Word
    requires number <= |blocks|
  {
    (u: Address) =>
      var amount := AppSource.Locked(AppSource.StateBefore(blocks, number), u);
      if amount < TWO_POW_256 then amount else 0
  }

  /** A user's locked amount differs between the start of block `first` and the end of block `last`. */
  ghost predicate Changed(blocks: Blocks, first: nat, last: nat, user: Address)
    requires first <= last < |blocks|
  {
    AppSource.Locked(AppSource.StateBefore(blocks, first), user)
    != AppSource.Locked(AppSource.StateBefore(blocks, last + 1), user)
  }

  /** The entries are exactly the users whose amounts changed, each once, in ascending order, with the amounts
      locked at the end, none of them zero. */
  ghost predicate Committed(blocks: Blocks, first: nat, last: nat, entries: seq<Entry>)
    requires first <= last < |blocks|
  {
    && (forall i, j | 0 <= i < j < |entries| :: entries[i].user < entries[j].user)
    && (forall u: Address :: Mentions(entries, u) <==> Changed(blocks, first, last, u))
    && forall e | e in entries ::
         e.amount == AppSource.Locked(AppSource.StateBefore(blocks, last + 1), e.user) > 0
  }

  ghost predicate Mentions(entries: seq<Entry>, user: Address) {
    exists e | e in entries :: e.user == user
  }

  /** The provider answers for the contract and for every requested key once; the values and proofs it gives
      are not trusted. */
  predicate AnswersRequest(contract: Address, keys: set<seq<Byte>>, answer: Option<ProofResponse>) {
    && answer.Some? && answer.value.address == contract
    && DistinctKeys(answer.value.storageProof) && Keys(answer.value.storageProof) == keys
  }

  lemma LockedAtIs(blocks: Blocks, number: nat, user: Address)
    requires number <= |blocks|
    ensures LockedAt(blocks, number)(user) == AppSource.Locked(AppSource.StateBefore(blocks, number), user)
  {
    AppSource.ChangedIffLogged(blocks, number, number, user);
  }

  lemma UsersChanged(blocks: Blocks, first: nat, last: nat, user: Address)
    requires first <= last < |blocks|
    ensures user in Users(EventScan.LogsBetween(ChainOf(blocks), first, last + 1))
            <==> Changed(blocks, first, last, user)
  {
    ScanSeesTheLogs(blocks, first, last + 1);
    UsersAreMentioned(AppSource.LogsBetween(blocks, first, last + 1), user);
    AppSource.ChangedIffLogged(blocks, first, last + 1, user);
  }

  lemma NoCollisionMeansDistinctKeys(k: KeyHash, users: set<Address>, pool: set<seq<Byte>>)
    requires Trie.NoCollision(k, pool)
    requires forall u | u in users :: SlotPreimage(u, SOURCE_CONTRACT_LOCKED_TOKENS_STORAGE_INDEX) in pool
    ensures KeysDistinct(k, users)
  {
    forall a, b | a in users && b in users && SlotKey(k, a) == SlotKey(k, b) ensures a == b {
      if a != b { KeysDistinctUnless(k, users, a, b); }
    }
  }

  /** The storage keys of the window's users are hashed from byte strings of the pool. */
  ghost predicate UsersIn(blocks: Blocks, first: nat, last: nat, pool: set<seq<Byte>>) {
    forall u | u in Users(EventScan.LogsBetween(ChainOf(blocks), first, last + 1)) ::
      SlotPreimage(u, SOURCE_CONTRACT_LOCKED_TOKENS_STORAGE_INDEX) in pool
  }

  /** A window of blocks, the tries after it, and the pool of byte strings that are hashed. */
  ghost predicate Setting(lib: Library, blocks: Blocks, first: nat, last: nat, w: World, cs: ContractStorage,
                          pool: set<seq<Byte>>)
  {
    && first <= last < |blocks|
    && Sound(lib)
    && Holds(lib, w, cs.address, LockedAt(blocks, last + 1))
    && CollisionFree(lib, w, cs, pool)
    && UsersIn(blocks, first, last, pool)
  }

  /** The storage built for the window comes from the keys of its events, all of them answered. */
  ghost predicate BuiltForWindow(lib: Library, blocks: Blocks, first: nat, last: nat, askProof: ProofProvider,
                                 cs: ContractStorage)
  {
    exists m: SlotMap ::
      && MapOf(lib.keccak, EventScan.LogsBetween(ChainOf(blocks), first, last + 1), m)
      && AnswersRequest(cs.address, m.Keys, askProof(m.Keys, last))
      && BuiltFromMap(m, askProof(m.Keys, last), cs)
  }

  /** One slot for each user of the window's events. */
  lemma SlotsAreExact(lib: Library, blocks: Blocks, first: nat, last: nat, askProof: ProofProvider, cs: ContractStorage,
                      pool: set<seq<Byte>>)
    requires Trie.NoCollision(lib.keccak, pool) && UsersIn(blocks, first, last, pool)
    requires BuiltForWindow(lib, blocks, first, last, askProof, cs)
    ensures StrictlyAscending(cs.storageSlots)
    ensures
      var users := Users(EventScan.LogsBetween(ChainOf(blocks), first, last + 1));
      forall u :: u in users <==> exists s | s in cs.storageSlots :: s.slotKeyAddress == u
  {
    var events := EventScan.LogsBetween(ChainOf(blocks), first, last + 1);
    var m: SlotMap :| && MapOf(lib.keccak, events, m)
                      && AnswersRequest(cs.address, m.Keys, askProof(m.Keys, last))
                      && BuiltFromMap(m, askProof(m.Keys, last), cs);
    NoCollisionMeansDistinctKeys(lib.keccak, Users(events), pool);
    MapIsDetermined(lib.keccak, events, m);
    UsersAreExact(lib.keccak, m, askProof(m.Keys, last).value.storageProof);
  }

  /** End to end: if the storage built from the events of a window is accepted against the state root after the
      window, its entries are exactly what the contract changed in the window. */
  lemma CommitsWhatChanged(lib: Library, blocks: Blocks, first: nat, last: nat, w: World, askProof: ProofProvider,
                           cs: ContractStorage, pool: set<seq<Byte>>)
    requires Setting(lib, blocks, first, last, w, cs, pool) && BuiltForWindow(lib, blocks, first, last, askProof, cs)
    requires Accepts(lib, Trie.RootHash(lib.keccak, w.state), cs)
    ensures Committed(blocks, first, last, Entries(cs.storageSlots))
  {
    hide Holds, Sound, Accepts, BuiltForWindow, LockedAt, Trie.EncodedIn, Trie.ListedIn, UsersIn;
    var entries := Entries(cs.storageSlots);
    SlotsAreExact(lib, blocks, first, last, askProof, cs, pool);
    forall u: Address ensures Mentions(entries, u) <==> Changed(blocks, first, last, u) {
      UsersChanged(blocks, first, last, u);
      EntryOfSlot(cs.storageSlots, u);
    }
    forall e | e in entries
      ensures e.amount == AppSource.Locked(AppSource.StateBefore(blocks, last + 1), e.user) > 0
    {
      var i :| 0 <= i < |entries| && entries[i] == e;
      AmountIsTrue(lib, blocks, first, last, w, cs, pool, i);
    }
  }

  lemma AmountIsTrue(lib: Library, blocks: Blocks, first: nat, last: nat, w: World, cs: ContractStorage,
                     pool: set<seq<Byte>>, i: nat)
    requires Setting(lib, blocks, first, last, w, cs, pool) && Accepts(lib, Trie.RootHash(lib.keccak, w.state), cs)
    requires i < |cs.storageSlots|
    ensures
      var s := cs.storageSlots[i];
      s.expectedValue == AppSource.Locked(AppSource.StateBefore(blocks, last + 1), s.slotKeyAddress) > 0
  {
    hide Holds, CollisionFree, Sound, Accepts, LockedAt, UsersIn;
    AcceptedSlotIsTrue(lib, w, cs, LockedAt(blocks, last + 1), pool, cs.storageSlots[i]);
    LockedAtIs(blocks, last + 1, cs.storageSlots[i].slotKeyAddress);
  }

  lemma EntryOfSlot(slots: seq<StorageSlot>, user: Address)
    ensures Mentions(Entries(slots), user) <==> exists s | s in slots :: s.slotKeyAddress == user
  {
    if s :| s in slots && s.slotKeyAddress == user {
      var i :| 0 <= i < |slots| && slots[i] == s;
      assert Entries(slots)[i] in Entries(slots);
    }
  }

  /** Nothing else can be committed for the window, whatever provider was asked. */
  lemma CommittedUnique(blocks: Blocks, first: nat, last: nat, a: seq<Entry>, b: seq<Entry>)
    requires first <= last < |blocks|
    requires Committed(blocks, first, last, a) && Committed(blocks, first, last, b)
    ensures a == b
  {
    hide Changed;
    forall e: Entry ensures e in a <==> e in b {
      assert e in a ==> Mentions(a, e.user);
      assert e in b ==> Mentions(b, e.user);
    }
    IncreasingUnique((e: Entry) => e.user, a, b);
  }

  // ----- every window can be committed

  /** Whatever happened, there are tries that hold the contract's amounts after it. */
  lemma BlocksHaveTries(lib: Library, blocks: Blocks, number: nat, contract: Address) returns (w: World)
    requires number <= |blocks| && Trie.HashesAre32Bytes(lib.keccak)
    requires TrieBuilder.PathsDistinct(lib, AppSource.StateBefore(blocks, number).lockedTokens.Keys)
    ensures Holds(lib, w, contract, LockedAt(blocks, number))
  {
    var users := AppSource.StateBefore(blocks, number).lockedTokens.Keys;
    hide Holds;
    w := TrieBuilder.HoldsIsPossible(lib, contract, LockedAt(blocks, number), users);
  }

  lemma {:induction false} Enumerate(keys: set<seq<Byte>>) returns (order: seq<seq<Byte>>)
    ensures |order| == |keys|
    ensures forall key :: key in order <==> key in keys
    ensures forall i, j | 0 <= i < j < |order| :: order[i] != order[j]
    decreases keys
  {
    if keys == {} {
      order := [];
    } else {
      var key := Pick(keys);
      var rest := Enumerate(keys - {key});
      order := rest + [key];
    }
  }

  /** The true amount and proof for a key of the map. */
  ghost function HonestAnswer(lib: Library, w: World, locked: Address -> Word, m: SlotMap, key: seq<Byte>): SlotAnswer
    requires key in m && Rlp.Encode(Trie.ItemOf(lib.keccak, w.storage)).Some?
  {
    SlotAnswer(key, locked(m[key]), Trie.HonestProof(lib.keccak, w.storage, Trie.Unpack(lib.keccak(key))))
  }

  ghost predicate Enumerates(order: seq<seq<Byte>>, m: SlotMap) {
    && (forall key :: key in order <==> key in m.Keys)
    && forall i, j | 0 <= i < j < |order| :: order[i] != order[j]
  }

  ghost function HonestAnswers(lib: Library, w: World, locked: Address -> Word, m: SlotMap,
                               order: seq<seq<Byte>>): seq<SlotAnswer>
    requires Enumerates(order, m) && Rlp.Encode(Trie.ItemOf(lib.keccak, w.storage)).Some?
  {
    seq(|order|, i requires 0 <= i < |order| => assert order[i] in m; HonestAnswer(lib, w, locked, m, order[i]))
  }

  lemma AnswersCover(lib: Library, w: World, locked: Address -> Word, m: SlotMap, order: seq<seq<Byte>>)
    requires Enumerates(order, m) && Rlp.Encode(Trie.ItemOf(lib.keccak, w.storage)).Some?
    ensures
      var answers := HonestAnswers(lib, w, locked, m, order);
      DistinctKeys(answers) && Keys(answers) == m.Keys && AllKnown(m, answers)
  {
    hide Trie.HonestProof, Trie.Unpack, Trie.ItemOf, Rlp.Encode;
    var answers := HonestAnswers(lib, w, locked, m, order);
    forall key | key in m ensures key in Keys(answers) {
      var i :| 0 <= i < |order| && order[i] == key;
      assert answers[i] in answers;
    }
    forall a | a in answers ensures a.key in m {
      var i :| 0 <= i < |answers| && answers[i] == a;
      assert order[i] in order;
    }
  }

  lemma AnswersAreHonest(lib: Library, w: World, locked: Address -> Word, m: SlotMap, order: seq<seq<Byte>>,
                         s: StorageSlot)
    requires Enumerates(order, m) && Rlp.Encode(Trie.ItemOf(lib.keccak, w.storage)).Some?
    requires Keyed(lib.keccak, m) && AllKnown(m, HonestAnswers(lib, w, locked, m, order))
    requires forall key | key in m :: locked(m[key]) > 0
    requires s in SortByAddress(SlotsOf(m, HonestAnswers(lib, w, locked, m, order)))
    ensures HonestSlot(lib, w, locked, s)
  {
    hide Trie.HonestProof, Trie.Unpack, Trie.ItemOf, Rlp.Encode, SlotKey;
    var answers := HonestAnswers(lib, w, locked, m, order);
    SlotsMultiset(m, answers, s);
    var a :| a in answers && SlotOf(m, a) == s;
    var i :| 0 <= i < |answers| && answers[i] == a;
    assert order[i] in m;
  }

  lemma UsersMap(k: KeyHash, events: seq<TokensLocked>) returns (m: SlotMap)
    requires KeysDistinct(k, Users(events))
    ensures MapOf(k, events, m)
  {
    m := map u | u in Users(events) :: SlotKey(k, u) := u;
  }

  lemma SortKeepsLength(slots: seq<StorageSlot>)
    ensures |SortByAddress(slots)| == |slots|
  {
    assert |multiset(SortByAddress(slots))| == |multiset(slots)|;
  }

  lemma StorageIsEncodable(lib: Library, w: World, contract: Address, locked: Address -> Word)
    requires Holds(lib, w, contract, locked)
    ensures Rlp.Encode(Trie.ItemOf(lib.keccak, w.storage)).Some?
  {
  }

  /** Whatever was deposited, a window with room for its users is accepted: answers with the true amounts and
      proofs build inputs that pass. */
  lemma HonestWindowIsAccepted(lib: Library, blocks: Blocks, first: nat, last: nat, w: World, contract: Address)
    returns (askProof: ProofProvider, cs: ContractStorage)
    requires first <= last < |blocks| && Trie.HashesAre32Bytes(lib.keccak)
    requires AcceptsHonestProofs(lib, w.state) && AcceptsHonestProofs(lib, w.storage)
    requires Holds(lib, w, contract, LockedAt(blocks, last + 1))
    requires
      var users := Users(EventScan.LogsBetween(ChainOf(blocks), first, last + 1));
      && KeysDistinct(lib.keccak, users)
      && Merkle.Depth(|set u | u in users :: SlotKey(lib.keccak, u)|) <= lib.maxTreeDepth
    ensures cs.address == contract && BuiltForWindow(lib, blocks, first, last, askProof, cs)
    ensures Accepts(lib, Trie.RootHash(lib.keccak, w.state), cs)
  {
    hide AcceptsHonestProofs, Holds, LockedAt, Accepts, SlotKey, Users, KeysDistinct, HonestAnswers, HonestSlot,
         Merkle.Depth, Enumerates, Trie.HashesAre32Bytes, Trie.WellFormed, Trie.ItemOf, Rlp.Encode, Keyed,
         DistinctKeys, Keys;
    var events := EventScan.LogsBetween(ChainOf(blocks), first, last + 1);
    var locked := LockedAt(blocks, last + 1);
    var m := UsersMap(lib.keccak, events);
    forall key | key in m ensures locked(m[key]) > 0 {
      assert m[key] in m.Values;
      UserHasLocked(blocks, first, last, m[key]);
    }
    var order := OrderOf(m);
    StorageIsEncodable(lib, w, contract, locked);
    var answers := HonestAnswers(lib, w, locked, m, order);
    AnswersCover(lib, w, locked, m, order);
    var slots := SortByAddress(SlotsOf(m, answers));
    SortKeepsLength(SlotsOf(m, answers));
    AnswersCount(lib, w, locked, m, order);
    forall s | s in slots ensures HonestSlot(lib, w, locked, s) {
      AnswersAreHonest(lib, w, locked, m, order, s);
    }
    var accountProof := HonestSlotsAreAccepted(lib, w, contract, locked, slots);
    var answer := ProofResponse(contract, w.account, accountProof, answers);
    cs := ContractStorage(contract, w.account, accountProof, slots);
    askProof := (keys, block) => Some(answer);
    BuiltFromAnswers(m, answer, cs);
    assert AnswersRequest(cs.address, m.Keys, askProof(m.Keys, last)) && BuiltFromMap(m, askProof(m.Keys, last), cs);
  }

  lemma OrderOf(m: SlotMap) returns (order: seq<seq<Byte>>)
    ensures Enumerates(order, m) && |order| == |m.Keys|
  {
    order := Enumerate(m.Keys);
  }

  lemma AnswersCount(lib: Library, w: World, locked: Address -> Word, m: SlotMap, order: seq<seq<Byte>>)
    requires Enumerates(order, m) && Rlp.Encode(Trie.ItemOf(lib.keccak, w.storage)).Some?
    ensures |HonestAnswers(lib, w, locked, m, order)| == |order|
  {
  }

  lemma UserHasLocked(blocks: Blocks, first: nat, last: nat, user: Address)
    requires first <= last < |blocks| && user in Users(EventScan.LogsBetween(ChainOf(blocks), first, last + 1))
    ensures LockedAt(blocks, last + 1)(user) > 0
  {
    UsersChanged(blocks, first, last, user);
    LockedGrows(blocks, first, last + 1, user);
    LockedAtIs(blocks, last + 1, user);
  }

  /** The output of the program on prepared inputs commits to what changed: any list of slots with the root in
      the proof's outputs, from whatever source, lists exactly the changes of the window. */
  lemma OutputCommitsWhatChanged(lc: LightClient, lib: Library, blocks: Blocks, first: nat, last: nat, w: World,
                                 askProof: ProofProvider, i: ProofInputs, o: ProofOutputs, pool: set<seq<Byte>>,
                                 read: seq<StorageSlot>, pairs: set<(nat, nat)>)
    requires Setting(lib, blocks, first, last, w, i.contractStorage, pool)
    requires BuiltForWindow(lib, blocks, first, last, askProof, i.contractStorage)
    requires MptAccepted(lc, lib, i) && MptDescribes(lc, lib, i, o)
    requires o.executionStateRoot == Trie.RootHash(lib.keccak, w.state) && o.verifiedSlotsRoot == SlotsRoot(lib, read)
    requires HashesToField(lib) && HashesAreLarge(lib, pairs) && Merkle.NoCollision(lib.poseidon, pairs)
    requires RootIn(lib, read, pairs) && RootIn(lib, i.contractStorage.storageSlots, pairs)
    ensures Committed(blocks, first, last, Entries(read))
  {
    hide Setting, BuiltForWindow, Accepts, SlotsRoot, Committed, RootIn, HashesToField, HashesAreLarge, Final,
         CommitteeHash, Accepted;
    CommitsWhatChanged(lib, blocks, first, last, w, askProof, i.contractStorage, pool);
    RootCommits(lib, read, i.contractStorage.storageSlots, pairs);
  }

  // ----- following the commitments of consecutive windows

  /** What a reader knows after taking over the amounts of a window. */
  function Mirror(known: map<Address, nat>, entries: seq<Entry>): map<Address, nat> {
    if entries == [] then known
    else
      var e := entries[|entries| - 1];
      Mirror(known, entries[..|entries| - 1])[e.user := e.amount]
  }

  function MirrorAll(known: map<Address, nat>, windows: seq<seq<Entry>>): map<Address, nat> {
    if windows == [] then known else Mirror(MirrorAll(known, windows[..|windows| - 1]), windows[|windows| - 1])
  }

  function Known(known: map<Address, nat>, user: Address): nat {
    if user in known then known[user] else 0
  }

  lemma {:induction false} MirrorAt(known: map<Address, nat>, entries: seq<Entry>, u: Address)
    requires forall i, j | 0 <= i < j < |entries| :: entries[i].user < entries[j].user
    ensures !Mentions(entries, u) ==> Known(Mirror(known, entries), u) == Known(known, u)
    ensures forall e | e in entries && e.user == u :: Known(Mirror(known, entries), u) == e.amount
  {
    if entries != [] {
      var n := |entries| - 1;
      MirrorAt(known, entries[..n], u);
      MirrorStep(known, entries, u);
      hide Mirror, Known;
      assert entries == entries[..n] + [entries[n]];
      assert entries[n] in entries;
    }
  }

  lemma MirrorStep(known: map<Address, nat>, entries: seq<Entry>, u: Address)
    requires entries != []
    ensures
      var n := |entries| - 1;
      Known(Mirror(known, entries), u)
      == if entries[n].user == u then entries[n].amount else Known(Mirror(known, entries[..n]), u)
  {
  }

  /** Amounts only grow from block to block. */
  lemma LockedGrows(blocks: Blocks, from: nat, to: nat, user: Address)
    requires from <= to <= |blocks|
    ensures AppSource.Locked(AppSource.StateBefore(blocks, from), user)
            <= AppSource.Locked(AppSource.StateBefore(blocks, to), user)
  {
    AppSource.ChangedIffLogged(blocks, from, to, user);
  }

  /** Window k covers the blocks bounds[k] to bounds[k + 1], both included: each window starts with the last
      block of the one before it. */
  ghost predicate Consecutive(blocks: Blocks, bounds: seq<nat>, windows: seq<seq<Entry>>) {
    && |bounds| == |windows| + 1
    && (forall k | 0 <= k < |bounds| :: bounds[k] < |blocks|)
    && forall k | 0 <= k < |windows| ::
         bounds[k] <= bounds[k + 1] && Committed(blocks, bounds[k], bounds[k + 1], windows[k])
  }

  /** A reader who knows the amounts before the first window and takes over window after window knows every
      user's amount after the last one: no deposit falls between two windows and none is counted twice. */
  lemma {:induction false} MirrorIsExact(blocks: Blocks, bounds: seq<nat>, windows: seq<seq<Entry>>,
                                         known: map<Address, nat>, u: Address)
    requires Consecutive(blocks, bounds, windows) && windows != []
    requires Known(known, u) == AppSource.Locked(AppSource.StateBefore(blocks, bounds[0]), u)
    ensures Known(MirrorAll(known, windows), u)
            == AppSource.Locked(AppSource.StateBefore(blocks, bounds[|windows|] + 1), u)
    decreases |windows|
  {
    hide AppSource.StateBefore, AppSource.Locked, Known, Mirror;
    var n := |windows| - 1;
    var before, window := MirrorAll(known, windows[..n]), windows[n];
    var first, last := bounds[n], bounds[n + 1];
    assert Committed(blocks, first, last, window);
    if n == 0 {
      assert windows[..n] == [];
    } else {
      MirrorIsExact(blocks, bounds[..n + 1], windows[..n], known, u);
      LockedGrows(blocks, first, first + 1, u);
      LockedGrows(blocks, first + 1, last + 1, u);
    }
    MirrorAt(before, window, u);
    if Mentions(window, u) {
      var e :| e in window && e.user == u;
    } else {
      assert !Changed(blocks, first, last, u);
    }
  }

  /** The block numbers a window is scanned between. */
  predicate WindowBlocks(lc: LightClient, i: ConsensusProofInputs, inputBlock: nat, outputBlock: nat) {
    && lc.blockNumber(i.store.finalizedHeader) == Some(inputBlock)
    && lc.blockNumber(lc.finalityHeader(i.finalityUpdate)) == Some(outputBlock)
  }

  /** Windows prepared one from the other share their boundary block exactly when the light client ends on a
      header of the same block as the finality update's. */
  lemma BoundariesMeet(lc: LightClient, v: Window, w: Window, blocksV: (nat, nat), blocksW: (nat, nat))
    requires Validated(lc, v, true) && Validated(lc, w, true)
    requires w.inputs.storeHash == v.expectedOutputStoreHash && NoCollision(lc, {Final(lc, v.inputs), w.inputs.store})
    requires WindowBlocks(lc, v.inputs, blocksV.0, blocksV.1) && WindowBlocks(lc, w.inputs, blocksW.0, blocksW.1)
    ensures blocksV.1 == blocksW.0 <==>
            lc.blockNumber(Final(lc, v.inputs).finalizedHeader)
                == lc.blockNumber(lc.finalityHeader(v.inputs.finalityUpdate))
  {
    hide StepsOf, After, ValidRun;
  }
}
