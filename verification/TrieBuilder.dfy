/** A trie for any finite map from paths of one length, so that the tries the other results speak of exist. */
module TrieBuilder {
  import opened Common
  import opened SlotLeaf
  import opened SlotProofs
  import opened Trie
  import Rlp

  type Content = map<Path, seq<Byte>>

  /** The entries whose paths start with the nibble, without it. */
  ghost function Below(m: Content, c: Nibble): Content {
    map rest | rest in (set p | p in m.Keys && p != [] && p[0] == c :: p[1..]) && [c] + rest in m :: m[[c] + rest]
  }

  ghost predicate AllOfLength(m: Content, n: nat) {
    forall p | p in m :: |p| == n
  }

  lemma BelowIs(m: Content, c: Nibble, rest: Path)
    ensures rest in Below(m, c) <==> [c] + rest in m
    ensures rest in Below(m, c) ==> Below(m, c)[rest] == m[[c] + rest]
  {
    if [c] + rest in m {
      assert ([c] + rest)[0] == c && ([c] + rest)[1..] == rest;
    }
  }

  /** A leaf for a single entry and a branch for several. */
  ghost function Build(m: Content, n: nat): Node
    requires AllOfLength(m, n)
    decreases n
  {
    if m.Keys == {} then Empty
    else
      var p := Pick(m.Keys);
      if m.Keys == {p} || n == 0 then Leaf(p, m[p])
      else
        Branch(seq(16, i requires 0 <= i < 16 => BelowLength(m, n, i); Build(Below(m, i), n - 1)), [])
  }

  lemma BelowLength(m: Content, n: nat, c: Nibble)
    requires AllOfLength(m, n) && n > 0
    ensures AllOfLength(Below(m, c), n - 1)
  {
    forall rest | rest in Below(m, c) ensures |rest| == n - 1 {
      assert |[c] + rest| == n;
    }
  }

  /** The trie holds the map and nothing else. */
  lemma {:induction false} LookupBuild(m: Content, n: nat, key: Path)
    requires AllOfLength(m, n) && |key| == n
    ensures Lookup(Build(m, n), key) == if key in m then Some(m[key]) else None
    decreases n
  {
    if m.Keys != {} {
      var p := Pick(m.Keys);
      if m.Keys == {p} {
        assert key in m <==> key == p;
      } else if n == 0 {
        assert key == p == [];
      } else {
        BelowLength(m, n, key[0]);
        LookupBuild(Below(m, key[0]), n - 1, key[1..]);
        BelowIs(m, key[0], key[1..]);
        assert key == [key[0]] + key[1..];
      }
    }
  }

  // ----- everything in it can be encoded

  lemma FrameLength(base: nat, payload: seq<Byte>)
    requires (base == 128 || base == 192) && |payload| < TWO_POW_64
    ensures |Rlp.Frame(base, payload)| <= |payload| + 9
    ensures |payload| < 56 ==> |Rlp.Frame(base, payload)| == |payload| + 1
  {
    Rlp.LengthOfLength(|payload|);
  }

  /** The item has an encoding of at most so many bytes. */
  ghost predicate Fits(x: Rlp.Item, bound: nat) {
    Rlp.Encode(x).Some? && |Rlp.Encode(x).value| <= bound
  }

  lemma StringFits(b: seq<Byte>)
    requires |b| < TWO_POW_64
    ensures Fits(Rlp.Str(b), |b| + 9)
    ensures |b| < 56 ==> Fits(Rlp.Str(b), |b| + 1)
  {
    FrameLength(128, b);
  }

  lemma {:induction false} ItemsFit(xs: seq<Rlp.Item>, bound: nat)
    requires forall x | x in xs :: Fits(x, bound)
    ensures Rlp.EncodeAll(xs).Some? && |Rlp.EncodeAll(xs).value| <= bound * |xs|
  {
    hide Rlp.Encode;
    if xs != [] {
      assert xs[0] in xs && forall x | x in xs[1..] :: x in xs;
      ItemsFit(xs[1..], bound);
      OneMore(bound, |xs[1..]|, |xs|);
    }
  }

  lemma OneMore(bound: nat, n: nat, m: nat)
    requires m == n + 1
    ensures bound * m == bound + bound * n
  {
  }

  lemma ListFits(xs: seq<Rlp.Item>, bound: nat)
    requires (forall x | x in xs :: Fits(x, bound)) && bound * |xs| < TWO_POW_64
    ensures Fits(Rlp.List(xs), bound * |xs| + 9)
  {
    ItemsFit(xs, bound);
    FrameLength(192, Rlp.EncodeAll(xs).value);
  }

  lemma {:induction false} PackLength(p: Path)
    requires |p| % 2 == 0
    ensures |Pack(p)| == |p| / 2
  {
    if p != [] { PackLength(p[2..]); }
  }

  lemma HexPrefixLength(p: Path, leaf: bool)
    ensures |HexPrefix(p, leaf)| == |p| / 2 + 1
  {
    if |p| % 2 == 0 { PackLength(p); } else { PackLength(p[1..]); }
  }

  lemma RefFits(k: HashFunction, n: Node)
    requires HashesAre32Bytes(k)
    ensures Fits(RefOf(k, n), 33)
  {
    StringFits([]);
    var e := Rlp.Encode(ItemOf(k, n));
    if e.Some? { StringFits(k(e.value)); }
  }

  /** Paths and values are short enough to be encoded. */
  ghost predicate Short(m: Content) {
    forall p | p in m :: |p| < 1000 && |m[p]| < 1000
  }

  lemma LeafFits(k: HashFunction, p: Path, v: seq<Byte>)
    requires |p| < 1000 && |v| < 1000
    ensures Rlp.Encode(ItemOf(k, Leaf(p, v))).Some?
  {
    var h := HexPrefix(p, true);
    HexPrefixLength(p, true);
    StringFits(h);
    StringFits(v);
    var xs := [Rlp.Str(h), Rlp.Str(v)];
    assert forall x | x in xs :: Fits(x, 1009);
    ListFits(xs, 1009);
  }

  lemma BranchFits(k: HashFunction, cs: seq<Node>)
    requires HashesAre32Bytes(k) && |cs| == 16
    ensures Rlp.Encode(ItemOf(k, Branch(cs, []))).Some?
  {
    var xs := RefsOf(k, cs) + [Rlp.Str([])];
    StringFits([]);
    forall x | x in xs ensures Fits(x, 33) {
      var i :| 0 <= i < |xs| && xs[i] == x;
      if i < 16 { RefFits(k, cs[i]); }
    }
    ListFits(xs, 33);
  }

  lemma {:induction false} BuildIsWellFormed(k: HashFunction, m: Content, n: nat)
    requires HashesAre32Bytes(k) && AllOfLength(m, n) && Short(m)
    ensures WellFormed(k, Build(m, n))
    decreases n
  {
    if m.Keys == {} {
      StringFits([]);
    } else {
      var p := Pick(m.Keys);
      if m.Keys == {p} || n == 0 {
        LeafFits(k, p, m[p]);
      } else {
        var cs := Build(m, n).children;
        BranchFits(k, cs);
        forall c | c in cs ensures WellFormed(k, c) {
          var i: Nibble :| 0 <= i < 16 && cs[i] == c;
          BelowLength(m, n, i);
          BelowIsShort(m, i);
          BuildIsWellFormed(k, Below(m, i), n - 1);
        }
      }
    }
  }

  lemma BelowIsShort(m: Content, c: Nibble)
    requires Short(m)
    ensures Short(Below(m, c))
  {
    forall rest | rest in Below(m, c) ensures |rest| < 1000 && |Below(m, c)[rest]| < 1000 {
      BelowIs(m, c, rest);
      assert |[c] + rest| < 1000;
    }
  }

  // ----- the tries of a contract

  ghost function UserPath(lib: Library, u: Address): Path {
    Unpack(lib.keccak(SlotKey(lib.keccak, u)))
  }

  /** The storage of the users with locked tokens. */
  ghost predicate StorageOf(lib: Library, m: Content, locked: Address -> Word) {
    && (forall p | p in m :: exists u: Address :: locked(u) != 0 && UserPath(lib, u) == p)
    && forall u: Address | locked(u) != 0 ::
         UserPath(lib, u) in m && m[UserPath(lib, u)] == Rlp.Bytes(Rlp.ScalarItem(locked(u)))
  }

  /** No other user has the storage path of one of the given users. */
  ghost predicate PathsDistinct(lib: Library, users: set<Address>) {
    forall u: Address, v: Address | v in users && UserPath(lib, u) == UserPath(lib, v) :: u == v
  }

  lemma StorageExists(lib: Library, locked: Address -> Word, users: set<Address>) returns (m: Content)
    requires PathsDistinct(lib, users) && forall u: Address :: locked(u) != 0 ==> u in users
    ensures StorageOf(lib, m, locked)
  {
    m := map u | u in users && locked(u) != 0 :: UserPath(lib, u) := Rlp.Bytes(Rlp.ScalarItem(locked(u)));
  }

  lemma AmountIsShort(v: Word)
    ensures |Rlp.Bytes(Rlp.ScalarItem(v))| < 1000
  {
    Rlp.WordIsEncodable(v);
    StringFits(Rlp.BigEndian(v));
  }

  lemma StorageIsShort(lib: Library, m: Content, locked: Address -> Word)
    requires HashesAre32Bytes(lib.keccak) && StorageOf(lib, m, locked)
    ensures AllOfLength(m, 64) && Short(m)
  {
    forall p | p in m ensures |p| == 64 && |m[p]| < 1000 {
      var u: Address :| locked(u) != 0 && UserPath(lib, u) == p;
      UnpackLength(lib.keccak(SlotKey(lib.keccak, u)));
      AmountIsShort(locked(u));
    }
  }

  /** For every contract and all locked amounts of finitely many users there are tries that hold them. */
  lemma HoldsIsPossible(lib: Library, contract: Address, locked: Address -> Word, users: set<Address>)
    returns (w: World)
    requires HashesAre32Bytes(lib.keccak) && PathsDistinct(lib, users)
    requires forall u: Address :: locked(u) != 0 ==> u in users
    ensures Holds(lib, w, contract, locked)
  {
    var m := StorageExists(lib, locked, users);
    StorageIsShort(lib, m, locked);
    BuildIsWellFormed(lib.keccak, m, 64);
    var storage := Build(m, 64);
    forall u: Address, e | IsMappingEntry(e, u, 1)
      ensures Lookup(storage, Unpack(lib.keccak(lib.keccak(e))))
              == if locked(u) == 0 then None else Some(Rlp.Bytes(Rlp.ScalarItem(locked(u))))
    {
      PreimageIsMappingEntry(e, u, 1);
      StorageLookup(lib, m, locked, users, u);
    }
    var account := Rlp.Account(0, 0, RootHash(lib.keccak, storage), []);
    var state := Leaf(Unpack(lib.keccak(AddressBytes(contract))), Rlp.Bytes(Rlp.AccountItem(account)));
    AccountFits(lib, account);
    UnpackLength(lib.keccak(AddressBytes(contract)));
    LeafFits(lib.keccak, state.path, state.value);
    forall b | IsAddress(b, contract) ensures Lookup(state, Unpack(lib.keccak(b))) == Some(state.value) {
      AddressBytesAre(b, contract);
    }
    w := World(state, account, storage);
  }

  lemma StorageLookup(lib: Library, m: Content, locked: Address -> Word, users: set<Address>, u: Address)
    requires HashesAre32Bytes(lib.keccak) && PathsDistinct(lib, users) && StorageOf(lib, m, locked)
             && AllOfLength(m, 64)
    requires forall u: Address :: locked(u) != 0 ==> u in users
    ensures
      Lookup(Build(m, 64), UserPath(lib, u))
      == if locked(u) == 0 then None else Some(Rlp.Bytes(Rlp.ScalarItem(locked(u))))
  {
    hide Build;
    UnpackLength(lib.keccak(SlotKey(lib.keccak, u)));
    LookupBuild(m, 64, UserPath(lib, u));
    if UserPath(lib, u) in m {
      var v: Address :| locked(v) != 0 && UserPath(lib, v) == UserPath(lib, u);
    }
  }

  lemma AccountFits(lib: Library, account: Rlp.Account)
    requires account.nonce == account.balance == 0 && |account.storageRoot| == 32 && account.codeHash == []
    ensures Rlp.Encode(Rlp.AccountItem(account)).Some? && |Rlp.Bytes(Rlp.AccountItem(account))| < 1000
  {
    var xs := Rlp.AccountItem(account).items;
    StringFits([]);
    StringFits(account.storageRoot);
    assert forall x | x in xs :: Fits(x, 33);
    ListFits(xs, 33);
  }
}
