/** The Merkle root of the verified slots. The folding itself lives in another crate; as the comments in
    `mpt.rs` describe it, the leaves are padded with zeros to a power of two and hashed pairwise. */
module Merkle {
  import opened Common

  type PairHash = (nat, nat) -> nat

  /** ceil(log2(n)) */
  function Depth(n: nat): nat {
    if n <= 1 then 0 else 1 + Depth((n + 1) / 2)
  }

  lemma {:induction false} DepthFits(n: nat)
    ensures n <= Power2(Depth(n))
    ensures Depth(n) > 0 ==> Power2(Depth(n) - 1) < n
  {
    if n > 1 { DepthFits((n + 1) / 2); }
  }

  function Padded(leaves: seq<nat>): (s: seq<nat>)
    ensures |s| == Power2(Depth(|leaves|))
  {
    DepthFits(|leaves|);
    leaves + seq(Power2(Depth(|leaves|)) - |leaves|, _ => 0)
  }

  function Root(h: PairHash, s: seq<nat>, d: nat): nat
    requires |s| == Power2(d)
    decreases d
  {
    if d == 0 then s[0]
    else h(Root(h, s[..Power2(d - 1)], d - 1), Root(h, s[Power2(d - 1)..], d - 1))
  }

  /** `fold_merkle_left` over the leaves of a tree of the given depth. */
  function RootOfLeaves(h: PairHash, leaves: seq<nat>): nat {
    Root(h, Padded(leaves), Depth(|leaves|))
  }

  /** Every pair hashed on the way to the root is among the given ones. */
  ghost predicate HashedIn(h: PairHash, s: seq<nat>, d: nat, pool: set<(nat, nat)>)
    requires |s| == Power2(d)
    decreases d
  {
    d > 0 ==>
      && (Root(h, s[..Power2(d - 1)], d - 1), Root(h, s[Power2(d - 1)..], d - 1)) in pool
      && HashedIn(h, s[..Power2(d - 1)], d - 1, pool)
      && HashedIn(h, s[Power2(d - 1)..], d - 1, pool)
  }

  ghost predicate NoCollision(h: PairHash, pool: set<(nat, nat)>) {
    forall p, q | p in pool && q in pool && h(p.0, p.1) == h(q.0, q.1) :: p == q
  }

  /** A tree hashes the roots of its halves, which are trees of hashes again. */
  lemma Halves(h: PairHash, s: seq<nat>, d: nat, pool: set<(nat, nat)>)
    requires |s| == Power2(d) && d > 0 && HashedIn(h, s, d, pool)
    ensures
      var m := Power2(d - 1);
      var l, r := Root(h, s[..m], d - 1), Root(h, s[m..], d - 1);
      && Root(h, s, d) == h(l, r) && (l, r) in pool
      && HashedIn(h, s[..m], d - 1, pool) && HashedIn(h, s[m..], d - 1, pool)
  {
  }

  lemma {:induction false} RootUnique(h: PairHash, s: seq<nat>, t: seq<nat>, d: nat, pool: set<(nat, nat)>)
    requires |s| == |t| == Power2(d)
    requires HashedIn(h, s, d, pool) && HashedIn(h, t, d, pool) && NoCollision(h, pool)
    requires Root(h, s, d) == Root(h, t, d)
    ensures s == t
    decreases d, 1
  {
    if d == 0 {
      assert s == [s[0]] && t == [t[0]];
    } else {
      Halves(h, s, d, pool);
      Halves(h, t, d, pool);
      HalvesUnique(h, s, t, d, pool, Power2(d - 1));
    }
  }

  lemma {:induction false} HalvesUnique(h: PairHash, s: seq<nat>, t: seq<nat>, d: nat, pool: set<(nat, nat)>, m: nat)
    requires d > 0 && |s| == |t| == Power2(d) && m == Power2(d - 1) && NoCollision(h, pool)
    requires HashedIn(h, s[..m], d - 1, pool) && HashedIn(h, s[m..], d - 1, pool)
    requires HashedIn(h, t[..m], d - 1, pool) && HashedIn(h, t[m..], d - 1, pool)
    requires
      var p := (Root(h, s[..m], d - 1), Root(h, s[m..], d - 1));
      var q := (Root(h, t[..m], d - 1), Root(h, t[m..], d - 1));
      p in pool && q in pool && h(p.0, p.1) == h(q.0, q.1)
    ensures s == t
    decreases d, 0
  {
    hide HashedIn, Root;
    RootUnique(h, s[..m], t[..m], d - 1, pool);
    RootUnique(h, s[m..], t[m..], d - 1, pool);
    assert s == s[..m] + s[m..] && t == t[..m] + t[m..];
  }

  // ----- folding in place

  /** One level of the fold: neighbours are hashed, the left one first. */
  function Level(h: PairHash, s: seq<nat>): (t: seq<nat>)
    requires |s| % 2 == 0
    ensures |t| == |s| / 2
    ensures forall i | 0 <= i < |t| :: t[i] == h(s[2 * i], s[2 * i + 1])
  {
    seq(|s| / 2, i requires 0 <= i < |s| / 2 => h(s[2 * i], s[2 * i + 1]))
  }

  lemma LevelHalves(h: PairHash, s: seq<nat>, m: nat)
    requires |s| == 4 * m
    ensures |Level(h, s)| == 2 * m
    ensures Level(h, s)[..m] == Level(h, s[..2 * m]) && Level(h, s)[m..] == Level(h, s[2 * m..])
  {
  }

  lemma RootOfHalves(h: PairHash, s: seq<nat>, d: nat, m: nat)
    requires d > 0 && m == Power2(d - 1) && |s| == Power2(d)
    ensures |s| == 2 * m && Root(h, s, d) == h(Root(h, s[..m], d - 1), Root(h, s[m..], d - 1))
  {
  }

  lemma TwoLeaves(h: PairHash, s: seq<nat>)
    requires |s| == 2
    ensures Power2(1) == 2 && Root(h, s, 1) == h(s[0], s[1]) && Power2(0) == 1
        && Root(h, Level(h, s), 0) == h(s[0], s[1])
  {
    assert Power2(1) == 2 * Power2(0);
    RootOfHalves(h, s, 1, 1);
  }

  lemma PowerTwice(d: nat)
    requires d > 0
    ensures Power2(d) == 2 * Power2(d - 1) && Power2(0) == 1
  {
  }

  /** The root is what is left when the padded leaves are folded level by level. */
  lemma {:induction false} RootIsFold(h: PairHash, s: seq<nat>, d: nat)
    requires |s| == Power2(d) && d > 0
    ensures Power2(d) == 2 * Power2(d - 1)
    ensures Root(h, s, d) == Root(h, Level(h, s), d - 1)
    decreases d
  {
    hide Root, Level, Power2;
    PowerTwice(d);
    if d == 1 {
      TwoLeaves(h, s);
    } else {
      var m := Power2(d - 2);
      PowerTwice(d - 1);
      var l, r, t := s[..2 * m], s[2 * m..], Level(h, s);
      LevelHalves(h, s, m);
      RootIsFold(h, l, d - 1);
      RootIsFold(h, r, d - 1);
      RootOfHalves(h, s, d, 2 * m);
      RootOfHalves(h, t, d - 1, m);
      assert t[..m] == Level(h, l) && t[m..] == Level(h, r);
    }
  }

  /** The smallest trees: one leaf is its own root, two are hashed in order, and three are padded with zero. */
  lemma SmallRoots(h: PairHash, a: nat, b: nat, c: nat)
    ensures RootOfLeaves(h, [a]) == a && RootOfLeaves(h, [a, b]) == h(a, b)
    ensures RootOfLeaves(h, [a, b, c]) == h(h(a, b), h(c, 0))
  {
    assert Depth(2) == 1 + Depth(1) && Depth(3) == 1 + Depth(2) && Depth(1) == 0;
    assert Power2(1) == 2 * Power2(0) && Power2(2) == 2 * Power2(1) && Power2(0) == 1;
    assert Padded([a]) == [a] && Padded([a, b]) == [a, b] && Padded([a, b, c]) == [a, b, c, 0];
    RootIsFold(h, [a, b], 1);
    assert Level(h, [a, b]) == [h(a, b)];
    RootIsFold(h, [a, b, c, 0], 2);
    assert Level(h, [a, b, c, 0]) == [h(a, b), h(c, 0)];
    RootIsFold(h, [h(a, b), h(c, 0)], 1);
    assert Level(h, [h(a, b), h(c, 0)]) == [h(h(a, b), h(c, 0))];
  }

  // ----- the root alone tells how many leaves there are

  /** No hash that occurs is below the bound. */
  ghost predicate HashesAbove(h: PairHash, pool: set<(nat, nat)>, bound: nat) {
    forall p | p in pool :: h(p.0, p.1) >= bound
  }

  /** The leaf is the hash of a pair that occurs and whose first part is below the bound. */
  ghost predicate LeafBelow(h: PairHash, leaf: nat, pool: set<(nat, nat)>, bound: nat) {
    exists p :: p in pool && p.0 < bound && h(p.0, p.1) == leaf
  }

  /** Every node on the left edge of a tree is a hash that occurs. */
  lemma LeftEdgeIsHash(h: PairHash, s: seq<nat>, d: nat, pool: set<(nat, nat)>, bound: nat)
    requires |s| == Power2(d) && HashedIn(h, s, d, pool) && HashesAbove(h, pool, bound)
    requires LeafBelow(h, s[0], pool, bound)
    ensures Root(h, s, d) >= bound
  {
    if d > 0 {
      var p := (Root(h, s[..Power2(d - 1)], d - 1), Root(h, s[Power2(d - 1)..], d - 1));
      assert p in pool;
    }
  }

  /** A leaf is not the root of a deeper tree: the first part of what it hashes is too small for a hash. */
  lemma LeafIsNoRoot(h: PairHash, leaf: nat, t: seq<nat>, e: nat, pool: set<(nat, nat)>, bound: nat)
    requires |t| == Power2(e) && e > 0 && HashedIn(h, t, e, pool) && NoCollision(h, pool) && HashesAbove(h, pool, bound)
    requires LeafBelow(h, leaf, pool, bound) && LeafBelow(h, t[0], pool, bound)
    ensures leaf != Root(h, t, e)
  {
    var m := Power2(e - 1);
    var q := (Root(h, t[..m], e - 1), Root(h, t[m..], e - 1));
    assert q in pool;
    LeftEdgeIsHash(h, t[..m], e - 1, pool, bound);
  }

  /** Equal roots mean trees of one depth. */
  lemma {:induction false} DepthUnique(h: PairHash, s: seq<nat>, d: nat, t: seq<nat>, e: nat, pool: set<(nat, nat)>,
                                       bound: nat)
    requires |s| == Power2(d) && |t| == Power2(e) && HashedIn(h, s, d, pool) && HashedIn(h, t, e, pool)
    requires NoCollision(h, pool) && HashesAbove(h, pool, bound)
    requires LeafBelow(h, s[0], pool, bound) && LeafBelow(h, t[0], pool, bound)
    requires Root(h, s, d) == Root(h, t, e)
    ensures d == e
    decreases d
  {
    hide HashedIn, Root, LeafBelow, HashesAbove;
    if d > 0 && e > 0 {
      Halves(h, s, d, pool);
      Halves(h, t, e, pool);
      var m, n := Power2(d - 1), Power2(e - 1);
      assert (Root(h, s[..m], d - 1), Root(h, s[m..], d - 1)) == (Root(h, t[..n], e - 1), Root(h, t[n..], e - 1));
      DepthUnique(h, s[..m], d - 1, t[..n], e - 1, pool, bound);
    } else if d > 0 {
      LeafIsNoRoot(h, t[0], s, d, pool, bound);
      RootOfOne(h, t);
    } else if e > 0 {
      LeafIsNoRoot(h, s[0], t, e, pool, bound);
      RootOfOne(h, s);
    }
  }

  lemma RootOfOne(h: PairHash, s: seq<nat>)
    requires |s| == 1
    ensures Root(h, s, 0) == s[0]
  {
  }

  /** Every leaf is the hash of a pair that occurs and whose first part is below the bound. */
  ghost predicate LeavesBelow(h: PairHash, leaves: seq<nat>, pool: set<(nat, nat)>, bound: nat) {
    forall leaf | leaf in leaves :: LeafBelow(h, leaf, pool, bound)
  }

  /** Equal roots mean equal leaves, and so equally many, for any two lists. */
  lemma LeavesUnique(h: PairHash, a: seq<nat>, b: seq<nat>, pool: set<(nat, nat)>, bound: nat)
    requires NoCollision(h, pool) && HashesAbove(h, pool, bound) && bound > 0
    requires LeavesBelow(h, a, pool, bound) && LeavesBelow(h, b, pool, bound)
    requires HashedIn(h, Padded(a), Depth(|a|), pool) && HashedIn(h, Padded(b), Depth(|b|), pool)
    requires RootOfLeaves(h, a) == RootOfLeaves(h, b)
    ensures a == b
  {
    hide HashesAbove, LeafBelow, HashedIn, Root, Depth, NoCollision;
    RootOfNone(h);
    if a != [] { RootOfSome(h, a, pool, bound); }
    if b != [] { RootOfSome(h, b, pool, bound); }
    if a != [] && b != [] {
      NoLeafIsZero(h, a, pool, bound);
      NoLeafIsZero(h, b, pool, bound);
      DepthUnique(h, Padded(a), Depth(|a|), Padded(b), Depth(|b|), pool, bound);
      RootUnique(h, Padded(a), Padded(b), Depth(|a|), pool);
      PaddingIsNoLeaf(a, b);
    }
  }

  lemma NoLeafIsZero(h: PairHash, leaves: seq<nat>, pool: set<(nat, nat)>, bound: nat)
    requires LeavesBelow(h, leaves, pool, bound) && HashesAbove(h, pool, bound) && bound > 0
    ensures 0 !in leaves
  {
  }

  lemma RootOfNone(h: PairHash)
    ensures RootOfLeaves(h, []) == 0
  {
  }

  /** The root of some leaves is a hash. */
  lemma RootOfSome(h: PairHash, leaves: seq<nat>, pool: set<(nat, nat)>, bound: nat)
    requires leaves != [] && LeavesBelow(h, leaves, pool, bound) && HashesAbove(h, pool, bound)
    requires HashedIn(h, Padded(leaves), Depth(|leaves|), pool)
    ensures RootOfLeaves(h, leaves) >= bound
    ensures LeafBelow(h, Padded(leaves)[0], pool, bound)
  {
    assert leaves[0] in leaves && Padded(leaves)[0] == leaves[0];
    LeftEdgeIsHash(h, Padded(leaves), Depth(|leaves|), pool, bound);
  }

  lemma PaddingIsNoLeaf(a: seq<nat>, b: seq<nat>)
    requires Depth(|a|) == Depth(|b|) && 0 !in a && 0 !in b
    ensures Padded(a) == Padded(b) ==> a == b
  {
    if |a| < |b| {
      assert Padded(b)[|a|] == b[|a|] && Padded(a)[|a|] == 0;
    } else if |b| < |a| {
      assert Padded(a)[|b|] == a[|b|] && Padded(b)[|b|] == 0;
    } else {
      assert Padded(a)[..|a|] == a && Padded(b)[..|b|] == b;
    }
  }
}
