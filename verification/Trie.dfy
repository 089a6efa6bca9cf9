/** The Merkle-Patricia trie, Appendices C and D of the Ethereum Yellow Paper, and the walk that checks a
    proof against a root hash. The hash is an arbitrary function with 32-byte results. */
module Trie {
  import opened Common
  import opened Rlp

  type Nibble = x: int | 0 <= x < 16

  type Path = seq<Nibble>

  type HashFunction = seq<Byte> -> seq<Byte>

  // ----- hex-prefix encoding

  function Pack(p: Path): seq<Byte>
    requires |p| % 2 == 0
  {
    if p == [] then [] else [16 * (p[0] as int) + p[1] as int] + Pack(p[2..])
  }

  function Unpack(b: seq<Byte>): Path {
    if b == [] then [] else [b[0] / 16, b[0] % 16] + Unpack(b[1..])
  }

  lemma {:induction false} UnpackLength(b: seq<Byte>)
    ensures |Unpack(b)| == 2 * |b|
  {
    if b != [] { UnpackLength(b[1..]); }
  }

  /** Every byte is its high nibble and then its low one. */
  lemma {:induction false} UnpackNibbles(b: seq<Byte>, i: nat)
    requires i < |b|
    ensures |Unpack(b)| == 2 * |b|
    ensures Unpack(b)[2 * i] == b[i] / 16 && Unpack(b)[2 * i + 1] == b[i] % 16
  {
    UnpackLength(b);
    if i > 0 { UnpackNibbles(b[1..], i - 1); }
  }

  function HexPrefix(p: Path, leaf: bool): seq<Byte> {
    var flag := if leaf then 2 else 0;
    if |p| % 2 == 0 then [16 * flag] + Pack(p) else [16 * (flag + 1) + p[0]] + Pack(p[1..])
  }

  function UnhexPrefix(b: seq<Byte>): Option<(Path, bool)> {
    if b == [] || b[0] >= 64 then None
    else
      var flag, low := b[0] / 16, b[0] % 16;
      if flag % 2 == 1 then Some(([low] + Unpack(b[1..]), flag >= 2))
      else if low != 0 then None
      else Some((Unpack(b[1..]), flag >= 2))
  }

  lemma {:induction false} UnpackPack(p: Path)
    requires |p| % 2 == 0
    ensures Unpack(Pack(p)) == p
  {
    if p != [] {
      UnpackPack(p[2..]);
      assert Pack(p)[1..] == Pack(p[2..]);
      assert p == [p[0], p[1]] + p[2..];
    }
  }

  lemma UnhexPrefixHexPrefix(p: Path, leaf: bool)
    ensures UnhexPrefix(HexPrefix(p, leaf)) == Some((p, leaf))
  {
    var b := HexPrefix(p, leaf);
    if |p| % 2 == 0 {
      UnpackPack(p);
      assert b[1..] == Pack(p);
    } else {
      UnpackPack(p[1..]);
      assert b[1..] == Pack(p[1..]);
      assert p == [p[0]] + p[1..];
    }
  }

  /** In nibbles, the prefix of a path is a flag, 2 for a leaf and 0 for an extension, with one added for an odd
      path, and a zero nibble for an even one; the path follows. */
  lemma HexPrefixNibbles(p: Path, leaf: bool)
    ensures
      var flag: Nibble := (if leaf then 2 else 0) + |p| % 2;
      Unpack(HexPrefix(p, leaf)) == (if |p| % 2 == 1 then [flag] else [flag, 0]) + p
  {
    hide Unpack, Pack;
    var low: Byte := if leaf then 2 else 0;
    if |p| % 2 == 0 {
      UnpackFirst(16 * low, Pack(p), low, 0);
      UnpackPack(p);
    } else {
      UnpackFirst(16 * (low + 1) + p[0], Pack(p[1..]), low + 1, p[0]);
      UnpackPack(p[1..]);
      assert p == [p[0]] + p[1..];
    }
  }

  lemma UnpackFirst(first: Byte, rest: seq<Byte>, high: Nibble, low: Nibble)
    requires first == 16 * (high as int) + low as int
    ensures Unpack([first] + rest) == [high, low] + Unpack(rest)
  {
    assert ([first] + rest)[1..] == rest;
  }

  // ----- the trie and its encoding

  datatype Node =
    | Empty
    | Leaf(path: Path, value: seq<Byte>)
    | Extension(path: Path, child: Node)
    | Branch(children: seq<Node>, value: seq<Byte>)

  /** The structural composition c(J, i): a node shorter than 32 bytes stands in its parent as it is,
      any other by its hash. */
  function ItemOf(k: HashFunction, n: Node): Item
    decreases n, 0
  {
    match n
    case Empty => Str([])
    case Leaf(p, v) => List([Str(HexPrefix(p, true)), Str(v)])
    case Extension(p, c) => List([Str(HexPrefix(p, false)), RefOf(k, c)])
    case Branch(cs, v) => List(RefsOf(k, cs) + [Str(v)])
  }

  function RefOf(k: HashFunction, n: Node): Item
    decreases n, 1
  {
    var e := Encode(ItemOf(k, n));
    if n.Empty? || e.None? then Str([])
    else if |e.value| < 32 then ItemOf(k, n)
    else Str(k(e.value))
  }

  function RefsOf(k: HashFunction, ns: seq<Node>): (refs: seq<Item>)
    ensures |refs| == |ns|
    ensures forall i | 0 <= i < |ns| :: refs[i] == RefOf(k, ns[i])
    decreases ns, 0
  {
    if ns == [] then [] else [RefOf(k, ns[0])] + RefsOf(k, ns[1..])
  }

  /** The items of a node: the prefix of its path and its value or its child, or the children in the order of
      their nibbles and the value. A child is in its place if it takes fewer than 32 bytes. */
  lemma NodeMeans(k: HashFunction, n: Node)
    ensures n.Leaf? ==> ItemOf(k, n) == List([Str(HexPrefix(n.path, true)), Str(n.value)])
    ensures n.Extension? ==> ItemOf(k, n) == List([Str(HexPrefix(n.path, false)), RefOf(k, n.child)])
    ensures n.Branch? ==>
              && ItemOf(k, n).List? && |ItemOf(k, n).items| == |n.children| + 1
              && (forall i | 0 <= i < |n.children| :: ItemOf(k, n).items[i] == RefOf(k, n.children[i]))
              && ItemOf(k, n).items[|n.children|] == Str(n.value)
    ensures !n.Empty? && Encode(ItemOf(k, n)).Some? ==>
              var e := Encode(ItemOf(k, n)).value;
              RefOf(k, n) == if |e| < 32 then ItemOf(k, n) else Str(k(e))
  {
  }

  /** Known prefixes, of odd and even paths for both kinds of node. */
  lemma KnownPrefixes()
    ensures HexPrefix([1, 2, 3, 4, 5], false) == [0x11, 0x23, 0x45]
    ensures HexPrefix([0, 1, 2, 3, 4, 5], false) == [0x00, 0x01, 0x23, 0x45]
    ensures HexPrefix([0, 15, 1, 12, 11, 8], true) == [0x20, 0x0f, 0x1c, 0xb8]
    ensures HexPrefix([15, 1, 12, 11, 8], true) == [0x3f, 0x1c, 0xb8]
  {
    PackTwo([2, 3, 4, 5]);
    PackTwo([1, 12, 11, 8]);
    PackThree([0, 1, 2, 3, 4, 5]);
    PackThree([0, 15, 1, 12, 11, 8]);
  }

  lemma PackTwo(p: Path)
    requires |p| == 4
    ensures Pack(p) == [16 * (p[0] as int) + p[1] as int, 16 * (p[2] as int) + p[3] as int]
  {
    assert Pack(p[2..][2..]) == [];
  }

  lemma PackThree(p: Path)
    requires |p| == 6
    ensures Pack(p) == [16 * (p[0] as int) + p[1] as int, 16 * (p[2] as int) + p[3] as int, 16 * (p[4] as int)
                        + p[5] as int]
  {
    PackTwo(p[2..]);
  }

  /** Every node can be encoded and every branch has sixteen children. */
  ghost predicate WellFormed(k: HashFunction, n: Node) {
    && Encode(ItemOf(k, n)).Some?
    && match n
       case Empty => true
       case Leaf(_, _) => true
       case Extension(_, c) => WellFormed(k, c)
       case Branch(cs, _) => |cs| == 16 && forall c | c in cs :: WellFormed(k, c)
  }

  function RootHash(k: HashFunction, n: Node): seq<Byte>
    requires Encode(ItemOf(k, n)).Some?
  {
    k(Encode(ItemOf(k, n)).value)
  }

  function Lookup(n: Node, key: Path): Option<seq<Byte>> {
    match n
    case Empty => None
    case Leaf(p, v) => if key == p then Some(v) else None
    case Extension(p, c) => if p <= key then Lookup(c, key[|p|..]) else None
    case Branch(cs, v) =>
      if key == [] then (if v == [] then None else Some(v))
      else if |cs| == 16 then Lookup(cs[key[0]], key[1..])
      else None
  }

  // ----- checking a proof

  /** Follows a reference: a hash must be matched by the next proof node, a list is a node in place. */
  ghost function Resolve(k: HashFunction, ref: Item, key: Path, proof: seq<seq<Byte>>): Option<seq<Byte>>
    decreases |proof|, ref, 1
  {
    match ref
    case List(_) => Walk(k, ref, key, proof)
    case Str(h) =>
      if |h| == 32 && proof != [] && k(proof[0]) == h && Decode(proof[0]).Some?
      then Walk(k, Decode(proof[0]).value, key, proof[1..])
      else None
  }

  /** Descends one node: a pair is a leaf or an extension by its hex prefix, seventeen items are a branch. */
  ghost function Walk(k: HashFunction, node: Item, key: Path, proof: seq<seq<Byte>>): Option<seq<Byte>>
    decreases |proof|, node, 0
  {
    if node.Str? then None
    else if |node.items| == 2 && node.items[0].Str? && UnhexPrefix(node.items[0].bytes).Some? then
      var (p, leaf) := UnhexPrefix(node.items[0].bytes).value;
      if leaf then (if key == p && node.items[1].Str? then Some(node.items[1].bytes) else None)
      else if p <= key then Resolve(k, node.items[1], key[|p|..], proof)
      else None
    else if |node.items| == 17 then
      if key == [] then
        (if node.items[16].Str? && node.items[16].bytes != [] then Some(node.items[16].bytes) else None)
      else Resolve(k, node.items[key[0]], key[1..], proof)
    else None
  }

  ghost predicate Verified(k: HashFunction, root: seq<Byte>, key: Path, value: seq<Byte>, proof: seq<seq<Byte>>) {
    Resolve(k, Str(root), key, proof) == Some(value)
  }

  // ----- an accepted proof tells the truth

  ghost predicate NoCollision(k: HashFunction, pool: set<seq<Byte>>) {
    forall a, b | a in pool && b in pool && k(a) == k(b) :: a == b
  }

  ghost predicate HashesAre32Bytes(k: HashFunction) {
    forall b :: |k(b)| == 32
  }

  /** All byte strings hashed in the trie are among the given ones. */
  ghost predicate EncodedIn(k: HashFunction, n: Node, pool: set<seq<Byte>>) {
    && (Encode(ItemOf(k, n)).Some? ==> Encode(ItemOf(k, n)).value in pool)
    && match n
       case Empty => true
       case Leaf(_, _) => true
       case Extension(_, c) => EncodedIn(k, c, pool)
       case Branch(cs, _) => forall c | c in cs :: EncodedIn(k, c, pool)
  }

  ghost predicate ListedIn(proof: seq<seq<Byte>>, pool: set<seq<Byte>>) {
    forall b | b in proof :: b in pool
  }

  lemma {:induction false} ResolveSound(k: HashFunction, n: Node, key: Path, proof: seq<seq<Byte>>,
                                        pool: set<seq<Byte>>)
    requires WellFormed(k, n) && EncodedIn(k, n, pool) && ListedIn(proof, pool)
    requires NoCollision(k, pool) && HashesAre32Bytes(k)
    requires Resolve(k, RefOf(k, n), key, proof).Some?
    ensures Lookup(n, key) == Resolve(k, RefOf(k, n), key, proof)
    decreases n, 1
  {
    var e := Encode(ItemOf(k, n)).value;
    if |e| < 32 {
      WalkSound(k, n, key, proof, pool);
    } else {
      assert proof[0] == e;
      DecodeEncode(ItemOf(k, n), e);
      WalkSound(k, n, key, proof[1..], pool);
    }
  }

  lemma {:induction false} WalkSound(k: HashFunction, n: Node, key: Path, proof: seq<seq<Byte>>, pool: set<seq<Byte>>)
    requires WellFormed(k, n) && EncodedIn(k, n, pool) && ListedIn(proof, pool)
    requires NoCollision(k, pool) && HashesAre32Bytes(k)
    requires Walk(k, ItemOf(k, n), key, proof).Some?
    ensures Lookup(n, key) == Walk(k, ItemOf(k, n), key, proof)
    decreases n, 0
  {
    match n
    case Leaf(p, v) =>
      UnhexPrefixHexPrefix(p, true);
    case Extension(p, c) =>
      UnhexPrefixHexPrefix(p, false);
      ResolveSound(k, c, key[|p|..], proof, pool);
    case Branch(cs, v) =>
      if key != [] { ResolveSound(k, cs[key[0]], key[1..], proof, pool); }
  }

  /** Soundness: whatever an accepted proof claims is what the trie under that root holds. */
  lemma VerifiedIsTrue(k: HashFunction, n: Node, key: Path, value: seq<Byte>, proof: seq<seq<Byte>>,
                       pool: set<seq<Byte>>)
    requires WellFormed(k, n) && EncodedIn(k, n, pool) && ListedIn(proof, pool)
    requires NoCollision(k, pool) && HashesAre32Bytes(k)
    requires Verified(k, RootHash(k, n), key, value, proof)
    ensures Lookup(n, key) == Some(value)
  {
    var e := Encode(ItemOf(k, n)).value;
    assert proof[0] == e;
    DecodeEncode(ItemOf(k, n), e);
    WalkSound(k, n, key, proof[1..], pool);
  }

  // ----- every entry has a proof

  /** The hashed nodes on the path of a key, without the node itself. */
  function NodesBelow(k: HashFunction, n: Node, key: Path): seq<seq<Byte>>
    decreases n, 0
  {
    match n
    case Empty => []
    case Leaf(_, _) => []
    case Extension(p, c) => if p <= key then NodesFrom(k, c, key[|p|..]) else []
    case Branch(cs, _) => if key != [] && |cs| == 16 then NodesFrom(k, cs[key[0]], key[1..]) else []
  }

  function NodesFrom(k: HashFunction, n: Node, key: Path): seq<seq<Byte>>
    decreases n, 1
  {
    var e := Encode(ItemOf(k, n));
    (if !n.Empty? && e.Some? && |e.value| >= 32 then [e.value] else []) + NodesBelow(k, n, key)
  }

  /** The proof of a key: the root node and the hashed nodes below it. */
  function HonestProof(k: HashFunction, n: Node, key: Path): seq<seq<Byte>>
    requires Encode(ItemOf(k, n)).Some?
  {
    [Encode(ItemOf(k, n)).value] + NodesBelow(k, n, key)
  }

  lemma {:induction false} ResolveComplete(k: HashFunction, n: Node, key: Path)
    requires WellFormed(k, n) && HashesAre32Bytes(k) && Lookup(n, key).Some?
    ensures Resolve(k, RefOf(k, n), key, NodesFrom(k, n, key)) == Lookup(n, key)
    decreases n, 1
  {
    var e := Encode(ItemOf(k, n)).value;
    WalkComplete(k, n, key);
    if |e| < 32 {
      assert NodesFrom(k, n, key) == NodesBelow(k, n, key);
    } else {
      DecodeEncode(ItemOf(k, n), e);
      assert NodesFrom(k, n, key)[1..] == NodesBelow(k, n, key);
    }
  }

  lemma {:induction false} WalkComplete(k: HashFunction, n: Node, key: Path)
    requires WellFormed(k, n) && HashesAre32Bytes(k) && Lookup(n, key).Some?
    ensures Walk(k, ItemOf(k, n), key, NodesBelow(k, n, key)) == Lookup(n, key)
    decreases n, 0
  {
    match n
    case Leaf(p, v) =>
      UnhexPrefixHexPrefix(p, true);
    case Extension(p, c) =>
      UnhexPrefixHexPrefix(p, false);
      ResolveComplete(k, c, key[|p|..]);
    case Branch(cs, v) =>
      if key != [] { ResolveComplete(k, cs[key[0]], key[1..]); }
  }

  /** Completeness: an entry of the trie is accepted with the nodes on its path as proof. */
  lemma TrueIsVerified(k: HashFunction, n: Node, key: Path, value: seq<Byte>)
    requires WellFormed(k, n) && HashesAre32Bytes(k) && Lookup(n, key) == Some(value)
    ensures Verified(k, RootHash(k, n), key, value, HonestProof(k, n, key))
  {
    var e := Encode(ItemOf(k, n)).value;
    WalkComplete(k, n, key);
    DecodeEncode(ItemOf(k, n), e);
    assert ([e] + NodesBelow(k, n, key))[1..] == NodesBelow(k, n, key);
  }
}
