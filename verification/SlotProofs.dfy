/** Model of `verify_storage_slot_proofs` in `mpt.rs`: the account is proved in the state trie, every slot
    in the storage trie of that account, and the verified slots are committed under a Merkle root. */
module SlotProofs {
  import opened Common
  import opened SlotLeaf
  import Rlp
  import Trie
  import Merkle

  datatype MptError =
    | InvalidAccountProof(account: Address)
    | InvalidStorageSlotProof(key: seq<Byte>)
    | InvalidStorageSlotAddressMapping(key: seq<Byte>, address: Address, computed: seq<Byte>)
    | MerkleHashError(address: Address, value: Word)
    | ExceedsMaxTreeDepth(slots: nat, requestedDepth: nat, maxDepth: nat)

  datatype StorageSlot = StorageSlot(key: seq<Byte>, slotKeyAddress: Address, expectedValue: Word,
                                     mptProof: seq<seq<Byte>>)

  datatype ContractStorage = ContractStorage(
    address: Address, expectedValue: Rlp.Account, mptProof: seq<seq<Byte>>, storageSlots: seq<StorageSlot>)

  /** Code this crate calls: the two hashes, `alloy_trie::proof::verify_proof` and the depth limit. */
  datatype Library = Library(
    keccak: seq<Byte> -> seq<Byte>,
    verifyProof: (seq<Byte>, Trie.Path, seq<Byte>, seq<seq<Byte>>) -> bool,
    poseidon: (nat, nat) -> nat,
    maxTreeDepth: nat)

  function Leaf(lib: Library, slot: StorageSlot): nat {
    lib.poseidon(FirstField(slot.slotKeyAddress, slot.expectedValue), SecondField(slot.expectedValue))
  }

  function Leaves(lib: Library, slots: seq<StorageSlot>): seq<nat> {
    seq(|slots|, i requires 0 <= i < |slots| => Leaf(lib, slots[i]))
  }

  /** The bytes committed for a list of slots. */
  function SlotsRoot(lib: Library, slots: seq<StorageSlot>): (root: seq<Byte>)
    ensures |root| == 32
  {
    FieldBytes(Merkle.RootOfLeaves(lib.poseidon, Leaves(lib, slots)))
  }

  /** The bytes are those of the root over one leaf for each slot, in the order of the slots. */
  ghost predicate IsRootOf(lib: Library, slots: seq<StorageSlot>, root: seq<Byte>) {
    exists leaves: seq<nat> ::
      && |leaves| == |slots|
      && (forall i | 0 <= i < |slots| ::
            IsLeaf(lib.poseidon, slots[i].slotKeyAddress, slots[i].expectedValue, leaves[i]))
      && root == FieldBytes(Merkle.RootOfLeaves(lib.poseidon, leaves))
  }

  lemma RootIsOfLeaves(lib: Library, slots: seq<StorageSlot>)
    ensures IsRootOf(lib, slots, SlotsRoot(lib, slots))
  {
    var leaves := Leaves(lib, slots);
    forall i | 0 <= i < |slots|
      ensures IsLeaf(lib.poseidon, slots[i].slotKeyAddress, slots[i].expectedValue, leaves[i])
    {
      FieldsAre(slots[i].slotKeyAddress, slots[i].expectedValue);
    }
  }

  predicate AccountProved(lib: Library, stateRoot: seq<Byte>, cs: ContractStorage) {
    lib.verifyProof(stateRoot, Trie.Unpack(lib.keccak(AddressBytes(cs.address))),
                    Rlp.Bytes(Rlp.AccountItem(cs.expectedValue)), cs.mptProof)
  }

  predicate SlotProved(lib: Library, storageRoot: seq<Byte>, slot: StorageSlot) {
    lib.verifyProof(storageRoot, Trie.Unpack(lib.keccak(slot.key)),
                    Rlp.Bytes(Rlp.ScalarItem(slot.expectedValue)), slot.mptProof)
  }

  /** The key is the mapping entry of the address, and the value is proved at that key. */
  predicate SlotPasses(lib: Library, storageRoot: seq<Byte>, slot: StorageSlot) {
    slot.key == SlotKey(lib.keccak, slot.slotKeyAddress) && SlotProved(lib, storageRoot, slot)
  }

  ghost predicate Accepts(lib: Library, stateRoot: seq<Byte>, cs: ContractStorage) {
    && AccountProved(lib, stateRoot, cs)
    && Merkle.Depth(|cs.storageSlots|) <= lib.maxTreeDepth
    && forall s | s in cs.storageSlots :: SlotPasses(lib, cs.expectedValue.storageRoot, s)
  }

  /** The error the whole verification ends with: the account's, the depth's or the first failing slot's. */
  ghost predicate ErrorFits(lib: Library, stateRoot: seq<Byte>, cs: ContractStorage, e: MptError) {
    match e
    case InvalidAccountProof(a) => a == cs.address && !AccountProved(lib, stateRoot, cs)
    case ExceedsMaxTreeDepth(n, d, m) =>
      n == |cs.storageSlots| && d == Merkle.Depth(n) > m == lib.maxTreeDepth && AccountProved(lib, stateRoot, cs)
    case MerkleHashError(_, _) => false
    case _ => exists i :: FirstBad(lib, cs.expectedValue.storageRoot, cs.storageSlots, i, e)
  }

  /** Slot i is the first that fails; its key is looked at before its proof. */
  ghost predicate FirstBad(lib: Library, storageRoot: seq<Byte>, slots: seq<StorageSlot>, i: int, e: MptError) {
    && 0 <= i < |slots|
    && (forall j | 0 <= j < i :: SlotPasses(lib, storageRoot, slots[j]))
    && var slot, computed := slots[i], SlotKey(lib.keccak, slots[i].slotKeyAddress);
       match e
       case InvalidStorageSlotAddressMapping(key, address, c) =>
         key == slot.key && address == slot.slotKeyAddress && c == computed != slot.key
       case InvalidStorageSlotProof(key) => key == slot.key == computed && !SlotProved(lib, storageRoot, slot)
       case _ => false
  }

  lemma LeavesExtend(lib: Library, slots: seq<StorageSlot>, i: nat)
    requires i < |slots|
    ensures Leaves(lib, slots[..i + 1]) == Leaves(lib, slots[..i]) + [Leaf(lib, slots[i])]
  {
  }

  /** Ok exactly when the account and every slot check out, with the root over all leaves in order; otherwise
      the error of the first check that fails. Hashing a leaf never fails. */
  method VerifyStorageSlotProofs(lib: Library, stateRoot: seq<Byte>, cs: ContractStorage)
    returns (r: Result<seq<Byte>, MptError>)
    ensures r.Ok? <==> Accepts(lib, stateRoot, cs)
    ensures r.Ok? ==> r.value == SlotsRoot(lib, cs.storageSlots) && IsRootOf(lib, cs.storageSlots, r.value)
    ensures r.Err? ==> ErrorFits(lib, stateRoot, cs, r.error)
  {
    hide Merkle.RootOfLeaves, FieldBytes, Leaves, IsLeaf, IsRootOf, FirstField, SecondField, Trie.Unpack, Rlp.Bytes,
        SlotPreimage;
    var addressNibbles := Trie.Unpack(lib.keccak(AddressBytes(cs.address)));
    var rlpEncodedTrieAccount := Rlp.Bytes(Rlp.AccountItem(cs.expectedValue));
    if !lib.verifyProof(stateRoot, addressNibbles, rlpEncodedTrieAccount, cs.mptProof) {
      return Err(InvalidAccountProof(cs.address));
    }
    var slots := cs.storageSlots;
    var depth := Merkle.Depth(|slots|);
    if depth > lib.maxTreeDepth {
      return Err(ExceedsMaxTreeDepth(|slots|, depth, lib.maxTreeDepth));
    }
    var storageRoot := cs.expectedValue.storageRoot;
    var merkleNodes := [];
    NoLeaves(lib, slots);
    for i := 0 to |slots|
      invariant merkleNodes == Leaves(lib, slots[..i])
      invariant forall j | 0 <= j < i :: SlotPasses(lib, storageRoot, slots[j])
    {
      var slot := slots[i];
      var computed := GetStorageLocationForKey(lib.keccak, slot.slotKeyAddress,
                                               SOURCE_CONTRACT_LOCKED_TOKENS_STORAGE_INDEX);
      var keyNibbles := Trie.Unpack(lib.keccak(slot.key));
      var rlpEncodedValue := Rlp.Bytes(Rlp.ScalarItem(slot.expectedValue));
      if computed != slot.key {
        var e := InvalidStorageSlotAddressMapping(slot.key, slot.slotKeyAddress, computed);
        assert FirstBad(lib, storageRoot, slots, i, e);
        assert slot in slots && !SlotPasses(lib, storageRoot, slot);
        return Err(e);
      }
      if !lib.verifyProof(storageRoot, keyNibbles, rlpEncodedValue, slot.mptProof) {
        var e := InvalidStorageSlotProof(slot.key);
        assert FirstBad(lib, storageRoot, slots, i, e);
        assert slot in slots && !SlotPasses(lib, storageRoot, slot);
        return Err(e);
      }
      LeavesExtend(lib, slots, i);
      var leaf := HashStorageSlot(lib.poseidon, slot.slotKeyAddress, slot.expectedValue);
      match leaf {
        case Some(val) => merkleNodes := merkleNodes + [val];
        case None => assert false;  // the source returns MerkleHashError here
      }
    }
    assert slots[..|slots|] == slots;
    RootIsOfLeaves(lib, slots);
    r := Ok(FieldBytes(Merkle.RootOfLeaves(lib.poseidon, merkleNodes)));
  }

  lemma NoLeaves(lib: Library, slots: seq<StorageSlot>)
    ensures Leaves(lib, slots[..0]) == []
  {
  }

  // ----- what an accepted set of slots says about the chain

  /** The state trie, the contract's account in it and the contract's storage trie. */
  datatype World = World(state: Trie.Node, account: Rlp.Account, storage: Trie.Node)

  /** The tries hold the contract's account at its address and, at each entry of the mapping that is second in
      the contract's storage, the user's locked amount unless that is zero. */
  ghost predicate Holds(lib: Library, w: World, contract: Address, locked: Address -> Word) {
    && Trie.WellFormed(lib.keccak, w.state) && Trie.WellFormed(lib.keccak, w.storage)
    && Rlp.Encode(Rlp.AccountItem(w.account)).Some?
    && (forall b | IsAddress(b, contract) ::
          Trie.Lookup(w.state, Trie.Unpack(lib.keccak(b))) == Some(Rlp.Bytes(Rlp.AccountItem(w.account))))
    && w.account.storageRoot == Trie.RootHash(lib.keccak, w.storage)
    && forall u: Address, e | IsMappingEntry(e, u, 1) ::
         Trie.Lookup(w.storage, Trie.Unpack(lib.keccak(lib.keccak(e))))
         == if locked(u) == 0 then None else Some(Rlp.Bytes(Rlp.ScalarItem(locked(u))))
  }

  /** What that says of the account's path and of a user's storage key. */
  lemma HoldsMeans(lib: Library, w: World, contract: Address, locked: Address -> Word, u: Address)
    requires Holds(lib, w, contract, locked)
    ensures Trie.Lookup(w.state, Trie.Unpack(lib.keccak(AddressBytes(contract))))
            == Some(Rlp.Bytes(Rlp.AccountItem(w.account)))
    ensures Trie.Lookup(w.storage, Trie.Unpack(lib.keccak(SlotKey(lib.keccak, u))))
            == if locked(u) == 0 then None else Some(Rlp.Bytes(Rlp.ScalarItem(locked(u))))
  {
    hide IsMappingEntry, IsAddress, SlotPreimage, AddressBytes;
    AddressBytesAre(AddressBytes(contract), contract);
    PreimageIsMappingEntry(SlotPreimage(u, 1), u, 1);
  }

  /** The library accepts only proofs that lead from the root to the value. */
  ghost predicate Sound(lib: Library) {
    forall root, key, value, proof ::
      lib.verifyProof(root, key, value, proof) ==> Trie.Verified(lib.keccak, root, key, value, proof)
  }

  /** The library accepts the nodes on the path of a 32-byte key as a proof of what the trie holds there. */
  ghost predicate AcceptsHonestProofs(lib: Library, n: Trie.Node) {
    && Rlp.Encode(Trie.ItemOf(lib.keccak, n)).Some?
    && forall key: Trie.Path | |key| == 64 && Trie.Lookup(n, key).Some? ::
         lib.verifyProof(Trie.RootHash(lib.keccak, n), key, Trie.Lookup(n, key).value,
                         Trie.HonestProof(lib.keccak, n, key))
  }

  /** A library that walks the proof and ignores nodes it does not read does both, for every trie. */
  lemma WalkingIsEnough(lib: Library, n: Trie.Node)
    requires Trie.HashesAre32Bytes(lib.keccak) && Trie.WellFormed(lib.keccak, n)
    requires forall root, key, value, proof ::
               lib.verifyProof(root, key, value, proof) <==> Trie.Verified(lib.keccak, root, key, value, proof)
    ensures Sound(lib) && AcceptsHonestProofs(lib, n)
  {
    forall key: Trie.Path | |key| == 64 && Trie.Lookup(n, key).Some?
      ensures lib.verifyProof(Trie.RootHash(lib.keccak, n), key, Trie.Lookup(n, key).value,
                              Trie.HonestProof(lib.keccak, n, key))
    {
      Trie.TrueIsVerified(lib.keccak, n, key, Trie.Lookup(n, key).value);
    }
  }

  /** No two of the byte strings that occur in the tries and in the proofs share a hash. */
  ghost predicate CollisionFree(lib: Library, w: World, cs: ContractStorage, pool: set<seq<Byte>>) {
    && Trie.HashesAre32Bytes(lib.keccak) && Trie.NoCollision(lib.keccak, pool)
    && Trie.EncodedIn(lib.keccak, w.state, pool) && Trie.EncodedIn(lib.keccak, w.storage, pool)
    && Trie.ListedIn(cs.mptProof, pool)
    && forall s | s in cs.storageSlots :: Trie.ListedIn(s.mptProof, pool)
  }

  lemma AccountIsReal(lib: Library, w: World, cs: ContractStorage, locked: Address -> Word, pool: set<seq<Byte>>)
    requires Sound(lib) && Holds(lib, w, cs.address, locked) && CollisionFree(lib, w, cs, pool)
    requires AccountProved(lib, Trie.RootHash(lib.keccak, w.state), cs)
    ensures cs.expectedValue == w.account
  {
    var key := Trie.Unpack(lib.keccak(AddressBytes(cs.address)));
    var value := Rlp.Bytes(Rlp.AccountItem(cs.expectedValue));
    HoldsMeans(lib, w, cs.address, locked, 0);
    Trie.VerifiedIsTrue(lib.keccak, w.state, key, value, cs.mptProof, pool);
    Rlp.AccountUnique(w.account, cs.expectedValue);
  }

  /** Soundness: an accepted slot carries the amount the contract's storage holds for its user, and it is
      not zero. */
  lemma AcceptedSlotIsTrue(lib: Library, w: World, cs: ContractStorage, locked: Address -> Word, pool: set<seq<Byte>>,
                           slot: StorageSlot)
    requires Sound(lib) && Holds(lib, w, cs.address, locked) && CollisionFree(lib, w, cs, pool)
    requires Accepts(lib, Trie.RootHash(lib.keccak, w.state), cs) && slot in cs.storageSlots
    ensures slot.expectedValue == locked(slot.slotKeyAddress) > 0
    ensures slot.key == SlotKey(lib.keccak, slot.slotKeyAddress)
  {
    AccountIsReal(lib, w, cs, locked, pool);
    var u, v := slot.slotKeyAddress, slot.expectedValue;
    assert SlotPasses(lib, w.account.storageRoot, slot);
    HoldsMeans(lib, w, cs.address, locked, u);
    var key := Trie.Unpack(lib.keccak(slot.key));
    Trie.VerifiedIsTrue(lib.keccak, w.storage, key, Rlp.Bytes(Rlp.ScalarItem(v)), slot.mptProof, pool);
    Rlp.WordIsEncodable(v);
    Rlp.ScalarUnique(v, locked(u));
  }

  /** Completeness: with the honest proofs of existing entries, and not too many of them, nothing is rejected. */
  lemma HonestSlotsAreAccepted(lib: Library, w: World, contract: Address, locked: Address -> Word,
                               slots: seq<StorageSlot>)
    returns (accountProof: seq<seq<Byte>>)
    requires Holds(lib, w, contract, locked) && Trie.HashesAre32Bytes(lib.keccak)
    requires AcceptsHonestProofs(lib, w.state) && AcceptsHonestProofs(lib, w.storage)
    requires Merkle.Depth(|slots|) <= lib.maxTreeDepth
    requires forall s | s in slots :: HonestSlot(lib, w, locked, s)
    ensures Accepts(lib, Trie.RootHash(lib.keccak, w.state), ContractStorage(contract, w.account, accountProof, slots))
  {
    var key := Trie.Unpack(lib.keccak(AddressBytes(contract)));
    accountProof := Trie.HonestProof(lib.keccak, w.state, key);
    HoldsMeans(lib, w, contract, locked, 0);
    Trie.UnpackLength(lib.keccak(AddressBytes(contract)));
    forall s | s in slots ensures SlotPasses(lib, w.account.storageRoot, s) {
      Trie.UnpackLength(lib.keccak(s.key));
      HoldsMeans(lib, w, contract, locked, s.slotKeyAddress);
    }
  }

  ghost predicate HonestSlot(lib: Library, w: World, locked: Address -> Word, s: StorageSlot) {
    && s.key == SlotKey(lib.keccak, s.slotKeyAddress)
    && s.expectedValue == locked(s.slotKeyAddress) > 0
    && Rlp.Encode(Trie.ItemOf(lib.keccak, w.storage)).Some?
    && s.mptProof == Trie.HonestProof(lib.keccak, w.storage, Trie.Unpack(lib.keccak(s.key)))
  }

  // ----- what the root commits to

  datatype Entry = Entry(user: Address, amount: Word)

  function Entries(slots: seq<StorageSlot>): seq<Entry> {
    seq(|slots|, i requires 0 <= i < |slots| => Entry(slots[i].slotKeyAddress, slots[i].expectedValue))
  }

  ghost predicate LeavesIn(slots: seq<StorageSlot>, pool: set<(nat, nat)>) {
    forall s | s in slots :: (FirstField(s.slotKeyAddress, s.expectedValue), SecondField(s.expectedValue)) in pool
  }

  /** Every pair of field elements hashed on the way from the slots to their root is among the given ones. */
  ghost predicate RootIn(lib: Library, slots: seq<StorageSlot>, pool: set<(nat, nat)>) {
    var leaves := Leaves(lib, slots);
    LeavesIn(slots, pool) && Merkle.HashedIn(lib.poseidon, Merkle.Padded(leaves), Merkle.Depth(|leaves|), pool)
  }

  /** The hash of two field elements is a field element. */
  ghost predicate HashesToField(lib: Library) {
    forall x, y :: lib.poseidon(x, y) < PASTA_FP_MODULUS
  }

  lemma RootInField(lib: Library, slots: seq<StorageSlot>)
    requires HashesToField(lib)
    ensures Merkle.RootOfLeaves(lib.poseidon, Leaves(lib, slots)) < PASTA_FP_MODULUS
  {
    var leaves := Leaves(lib, slots);
    if |slots| == 1 { assert Merkle.Padded(leaves)[0] == Leaf(lib, slots[0]); }
  }

  /** No hash that occurs could be the first field of a leaf, which has 21 bytes. */
  ghost predicate HashesAreLarge(lib: Library, pool: set<(nat, nat)>) {
    Merkle.HashesAbove(lib.poseidon, pool, Rlp.Power256(21))
  }

  lemma PowerIsPositive(k: nat)
    ensures Rlp.Power256(k) > 0
  {
  }

  lemma LeavesAreBelow(lib: Library, slots: seq<StorageSlot>, pool: set<(nat, nat)>)
    requires LeavesIn(slots, pool)
    ensures Merkle.LeavesBelow(lib.poseidon, Leaves(lib, slots), pool, Rlp.Power256(21))
  {
    var leaves := Leaves(lib, slots);
    forall leaf | leaf in leaves ensures Merkle.LeafBelow(lib.poseidon, leaf, pool, Rlp.Power256(21)) {
      var i :| 0 <= i < |leaves| && leaves[i] == leaf;
      var s := slots[i];
      assert s in slots;
      FirstFieldBelow(s.slotKeyAddress, s.expectedValue);
      var p := (FirstField(s.slotKeyAddress, s.expectedValue), SecondField(s.expectedValue));
      assert p in pool && lib.poseidon(p.0, p.1) == leaf;
    }
  }

  /** Equal root bytes mean the same (address, value) pairs in the same order, for any two lists: the root alone
      fixes how many slots there are. */
  lemma RootCommits(lib: Library, a: seq<StorageSlot>, b: seq<StorageSlot>, pool: set<(nat, nat)>)
    requires HashesToField(lib) && HashesAreLarge(lib, pool) && Merkle.NoCollision(lib.poseidon, pool)
    requires RootIn(lib, a, pool) && RootIn(lib, b, pool)
    requires SlotsRoot(lib, a) == SlotsRoot(lib, b)
    ensures Entries(a) == Entries(b)
  {
    hide FieldBytes, FirstField, SecondField;
    RootInField(lib, a);
    RootInField(lib, b);
    FieldBytesUnique(Merkle.RootOfLeaves(lib.poseidon, Leaves(lib, a)),
                     Merkle.RootOfLeaves(lib.poseidon, Leaves(lib, b)));
    LeavesAreBelow(lib, a, pool);
    LeavesAreBelow(lib, b, pool);
    PowerIsPositive(21);
    Merkle.LeavesUnique(lib.poseidon, Leaves(lib, a), Leaves(lib, b), pool, Rlp.Power256(21));
    assert |a| == |Leaves(lib, a)| == |Leaves(lib, b)| == |b|;
    forall i | 0 <= i < |a| ensures Entries(a)[i] == Entries(b)[i] {
      var s, t := a[i], b[i];
      assert Leaves(lib, a)[i] == Leaves(lib, b)[i];
      assert s in a && t in b;
      PackingUnique(s.slotKeyAddress, s.expectedValue, t.slotKeyAddress, t.expectedValue);
    }
  }
}
