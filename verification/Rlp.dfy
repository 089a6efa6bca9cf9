/** Recursive Length Prefix encoding, Appendix B of the Ethereum Yellow Paper. */
module Rlp {
  import opened Common

  datatype Item = Str(bytes: seq<Byte>) | List(items: seq<Item>)

  /** The shortest big-endian representation; zero is the empty string. */
  function BigEndian(n: nat): seq<Byte> {
    if n == 0 then [] else BigEndian(n / 256) + [n % 256]
  }

  function Value(b: seq<Byte>): nat {
    if b == [] then 0 else 256 * Value(b[..|b| - 1]) + b[|b| - 1]
  }

  lemma {:induction false} ValueOfBigEndian(n: nat)
    ensures Value(BigEndian(n)) == n
  {
    if n > 0 {
      ValueOfBigEndian(n / 256);
      assert BigEndian(n)[..|BigEndian(n)| - 1] == BigEndian(n / 256);
    }
  }

  function Power256(k: nat): nat { if k == 0 then 1 else 256 * Power256(k - 1) }

  lemma {:induction false} BigEndianLength(n: nat, k: nat)
    requires n < Power256(k)
    ensures |BigEndian(n)| <= k
  {
    if n > 0 { BigEndianLength(n / 256, k - 1); }
  }

  lemma LengthOfLength(n: nat)
    requires n < TWO_POW_64
    ensures |BigEndian(n)| <= 8
    ensures n > 0 ==> |BigEndian(n)| >= 1
  {
    assert Power256(2) == 0x10000;
    assert Power256(4) == 0x1_0000_0000;
    assert Power256(6) == 0x1_0000_0000_0000;
    assert Power256(8) == TWO_POW_64;
    BigEndianLength(n, 8);
  }

  /** A payload behind its length; strings use the base 128 and lists the base 192. */
  function Frame(base: nat, payload: seq<Byte>): seq<Byte>
    requires (base == 128 || base == 192) && |payload| < TWO_POW_64
  {
    if |payload| < 56 then [base + |payload|] + payload
    else
      LengthOfLength(|payload|);
      [base + 55 + |BigEndian(|payload|)|] + BigEndian(|payload|) + payload
  }

  /** Payloads of 2^64 bytes or more have no encoding. */
  function Encode(x: Item): Option<seq<Byte>>
    decreases x, 0
  {
    match x
    case Str(b) =>
      if |b| == 1 && b[0] < 128 then Some(b)
      else if |b| < TWO_POW_64 then Some(Frame(128, b)) else None
    case List(xs) =>
      var payload := EncodeAll(xs);
      if payload.Some? && |payload.value| < TWO_POW_64 then Some(Frame(192, payload.value)) else None
  }

  function EncodeAll(xs: seq<Item>): Option<seq<Byte>>
    decreases xs, 0
  {
    if xs == [] then Some([])
    else
      var head, tail := Encode(xs[0]), EncodeAll(xs[1..]);
      if head.Some? && tail.Some? then Some(head.value + tail.value) else None
  }

  // ----- no encoding is a prefix of another

  lemma FrameUnique(base: nat, p: seq<Byte>, q: seq<Byte>, r: seq<Byte>, t: seq<Byte>)
    requires (base == 128 || base == 192) && |p| < TWO_POW_64 && |q| < TWO_POW_64
    requires Frame(base, p) + r == Frame(base, q) + t
    ensures p == q && r == t
  {
    LengthOfLength(|p|);
    LengthOfLength(|q|);
    var f := Frame(base, p) + r;
    assert f[0] == Frame(base, p)[0] && f[0] == Frame(base, q)[0];
    if |p| < 56 {
      SplitUnique([f[0]] + p, r, [f[0]] + q, t);
      SplitUnique([f[0]], p, [f[0]], q);
    } else {
      var bp, bq := BigEndian(|p|), BigEndian(|q|);
      Regroup([f[0]] + bp, p, r);
      Regroup([f[0]] + bq, q, t);
      SplitUnique([f[0]] + bp, p + r, [f[0]] + bq, q + t);
      SplitUnique([f[0]], bp, [f[0]], bq);
      ValueOfBigEndian(|p|);
      ValueOfBigEndian(|q|);
      SplitUnique(p, r, q, t);
    }
  }

  lemma SplitUnique(a: seq<Byte>, r: seq<Byte>, b: seq<Byte>, t: seq<Byte>)
    requires |a| == |b| && a + r == b + t
    ensures a == b && r == t
  {
    assert (a + r)[..|a|] == a && (a + r)[|a|..] == r;
    assert (b + t)[..|b|] == b && (b + t)[|b|..] == t;
  }

  lemma Regroup(a: seq<Byte>, b: seq<Byte>, c: seq<Byte>)
    ensures a + b + c == a + (b + c)
  {
  }

  lemma FirstByte(x: Item)
    requires Encode(x).Some?
    ensures |Encode(x).value| > 0
    ensures
      var c := Encode(x).value[0];
      && (c < 128 <==> x.Str? && |x.bytes| == 1 && x.bytes[0] < 128)
      && (c >= 192 <==> x.List?)
  {
    if x.Str? { LengthOfLength(|x.bytes|); } else { LengthOfLength(|EncodeAll(x.items).value|); }
  }

  lemma {:induction false} EncodeUnique(x: Item, y: Item, r: seq<Byte>, t: seq<Byte>)
    requires Encode(x).Some? && Encode(y).Some?
    requires Encode(x).value + r == Encode(y).value + t
    ensures x == y && r == t
    decreases x, 0
  {
    var f := Encode(x).value + r;
    FirstByte(x);
    FirstByte(y);
    assert f[0] == Encode(x).value[0] && f[0] == Encode(y).value[0];
    if f[0] < 128 {
      assert f[1..] == r && f[1..] == t;
    } else if f[0] < 192 {
      FrameUnique(128, x.bytes, y.bytes, r, t);
    } else {
      FrameUnique(192, EncodeAll(x.items).value, EncodeAll(y.items).value, r, t);
      EncodeAllUnique(x.items, y.items);
    }
  }

  lemma {:induction false} EncodeAllUnique(xs: seq<Item>, ys: seq<Item>)
    requires EncodeAll(xs).Some? && EncodeAll(xs) == EncodeAll(ys)
    ensures xs == ys
    decreases xs, 0
  {
    if xs == [] {
      if ys != [] { FirstByte(ys[0]); }
    } else {
      FirstByte(xs[0]);
      EncodeUnique(xs[0], ys[0], EncodeAll(xs[1..]).value, EncodeAll(ys[1..]).value);
      EncodeAllUnique(xs[1..], ys[1..]);
      assert xs == [xs[0]] + xs[1..] && ys == [ys[0]] + ys[1..];
    }
  }

  /** A strict decoder accepts a byte string exactly when it is the encoding of some item. */
  ghost function Decode(b: seq<Byte>): Option<Item> {
    if exists x :: Encode(x) == Some(b) then
      var x :| Encode(x) == Some(b); Some(x)
    else None
  }

  lemma DecodeEncode(x: Item, b: seq<Byte>)
    ensures Decode(b) == Some(x) <==> Encode(x) == Some(b)
  {
    if Encode(x) == Some(b) {
      var y :| Encode(y) == Some(b) && Decode(b) == Some(y);
      EncodeUnique(x, y, [], []);
    }
  }

  /** The encoding as a plain byte string; no encoding is empty. */
  function Bytes(x: Item): seq<Byte> {
    if Encode(x).Some? then Encode(x).value else []
  }

  lemma BytesUnique(x: Item, y: Item)
    requires Encode(x).Some? && Bytes(x) == Bytes(y)
    ensures x == y
  {
    FirstByte(x);
    EncodeUnique(x, y, [], []);
  }

  /** A scalar, as a uint256 is stored in a contract. */
  function ScalarItem(n: nat): Item { Str(BigEndian(n)) }

  lemma ScalarUnique(m: nat, n: nat)
    requires Encode(ScalarItem(m)).Some? && Bytes(ScalarItem(m)) == Bytes(ScalarItem(n))
    ensures m == n
  {
    BytesUnique(ScalarItem(m), ScalarItem(n));
    ValueOfBigEndian(m);
    ValueOfBigEndian(n);
  }

  lemma WordIsEncodable(n: nat)
    requires n < TWO_POW_256
    ensures |BigEndian(n)| <= 32 && Encode(ScalarItem(n)).Some?
  {
    assert Power256(8) == TWO_POW_64;
    Power256Add(8, 8);
    Power256Add(16, 16);
    BigEndianLength(n, 32);
  }

  lemma {:induction false} Power256Add(j: nat, k: nat)
    ensures Power256(j + k) == Power256(j) * Power256(k)
  {
    if j > 0 { Power256Add(j - 1, k); }
  }

  /** The four fields of an account in the state trie. */
  datatype Account = Account(nonce: nat, balance: nat, storageRoot: seq<Byte>, codeHash: seq<Byte>)

  function AccountItem(a: Account): Item {
    List([Str(BigEndian(a.nonce)), Str(BigEndian(a.balance)), Str(a.storageRoot), Str(a.codeHash)])
  }

  /** The account encoding loses nothing. */
  lemma AccountUnique(a: Account, b: Account)
    requires Encode(AccountItem(a)).Some? && Bytes(AccountItem(a)) == Bytes(AccountItem(b))
    ensures a == b
  {
    BytesUnique(AccountItem(a), AccountItem(b));
    var xs, ys := AccountItem(a).items, AccountItem(b).items;
    assert xs[0] == ys[0] && xs[1] == ys[1] && xs[2] == ys[2] && xs[3] == ys[3];
    ValueOfBigEndian(a.nonce);
    ValueOfBigEndian(b.nonce);
    ValueOfBigEndian(a.balance);
    ValueOfBigEndian(b.balance);
  }

  // ----- what the encodings look like

  /** The bytes spell the number from the most significant byte on, without a leading zero. */
  predicate Spells(b: seq<Byte>, n: nat) {
    Value(b) == n && (b != [] ==> b[0] != 0)
  }

  lemma {:induction false} BigEndianSpells(n: nat)
    ensures Spells(BigEndian(n), n)
  {
    ValueOfBigEndian(n);
    if n > 0 { BigEndianSpells(n / 256); }
  }

  /** A payload of fewer than 56 bytes is behind one byte that adds its length to the base; a longer one behind
      a byte that adds 55 and the length of its length, and its length. */
  lemma FrameMeans(base: nat, payload: seq<Byte>) returns (k: nat)
    requires (base == 128 || base == 192) && |payload| < TWO_POW_64
    ensures |payload| < 56 ==> Frame(base, payload)[0] == base + |payload| && Frame(base, payload)[1..] == payload
    ensures |payload| >= 56 ==>
              && 1 <= k <= 8 && |Frame(base, payload)| == 1 + k + |payload|
              && Frame(base, payload)[0] == base + 55 + k
              && Spells(Frame(base, payload)[1..1 + k], |payload|)
              && Frame(base, payload)[1 + k..] == payload
  {
    k := 0;
    if |payload| >= 56 {
      LengthOfLength(|payload|);
      k := |BigEndian(|payload|)|;
      var f := Frame(base, payload);
      BigEndianSpells(|payload|);
      assert f[1..1 + k] == BigEndian(|payload|) && f[1 + k..] == payload;
    }
  }

  /** The account is the list of its nonce and its balance, as shortest numbers, its storage root and its code
      hash, in this order. */
  lemma AccountItemMeans(a: Account)
    ensures
      var item := AccountItem(a);
      && item.List? && |item.items| == 4 && forall i | 0 <= i < 4 :: item.items[i].Str?
    ensures
      var xs := AccountItem(a).items;
      && Spells(xs[0].bytes, a.nonce) && Spells(xs[1].bytes, a.balance)
      && xs[2].bytes == a.storageRoot && xs[3].bytes == a.codeHash
  {
    BigEndianSpells(a.nonce);
    BigEndianSpells(a.balance);
  }

  /** Known encodings: "dog", "", the byte 15 and the number 1024. */
  lemma KnownStrings()
    ensures Encode(Str([100, 111, 103])) == Some([0x83, 100, 111, 103]) && Encode(Str([])) == Some([0x80])
    ensures Encode(Str([15])) == Some([0x0f]) && Encode(ScalarItem(1024)) == Some([0x82, 0x04, 0x00])
  {
    assert BigEndian(4) == BigEndian(0) + [4] == [4];
    assert BigEndian(1024) == BigEndian(4) + [0] == [4, 0];
    ShortString([100, 111, 103], [0x83, 100, 111, 103]);
    ShortString([], [0x80]);
    ShortString([4, 0], [0x82, 0x04, 0x00]);
  }

  /** Known encodings: ["cat", "dog"], and the nested lists that stand for zero, one and two. */
  lemma KnownLists()
    ensures Encode(List([Str([99, 97, 116]), Str([100, 111, 103])]))
            == Some([0xc8, 0x83, 99, 97, 116, 0x83, 100, 111, 103])
    ensures Encode(List([])) == Some([0xc0]) && Encode(List([List([])])) == Some([0xc1, 0xc0])
    ensures Encode(List([List([]), List([List([])])])) == Some([0xc3, 0xc0, 0xc1, 0xc0])
  {
    ShortString([99, 97, 116], [0x83, 99, 97, 116]);
    ShortString([100, 111, 103], [0x83, 100, 111, 103]);
    EmptyList();
    hide Encode, EncodeAll;
    ShortPair(Str([99, 97, 116]), Str([100, 111, 103]), [0x83, 99, 97, 116, 0x83, 100, 111, 103],
              [0xc8, 0x83, 99, 97, 116, 0x83, 100, 111, 103]);
    EncodeOne(List([]));
    ShortList([List([])], [0xc0], [0xc1, 0xc0]);
    ShortPair(List([]), List([List([])]), [0xc0, 0xc1, 0xc0], [0xc3, 0xc0, 0xc1, 0xc0]);
  }

  lemma EmptyList()
    ensures Encode(List([])) == Some([0xc0])
  {
    ShortList([], [], [0xc0]);
  }

  lemma ShortString(b: seq<Byte>, e: seq<Byte>)
    requires |b| < 56 && |b| != 1 && e == [128 + |b|] + b
    ensures Encode(Str(b)) == Some(e)
  {
  }

  lemma ShortList(xs: seq<Item>, payload: seq<Byte>, e: seq<Byte>)
    requires EncodeAll(xs) == Some(payload) && |payload| < 56 && e == [192 + |payload|] + payload
    ensures Encode(List(xs)) == Some(e)
  {
  }

  lemma EncodeOne(x: Item)
    ensures EncodeAll([x]) == Encode(x)
  {
    assert [x][1..] == [];
    if Encode(x).Some? { assert Encode(x).value + [] == Encode(x).value; }
  }

  lemma EncodeMore(x: Item, xs: seq<Item>, payload: seq<Byte>, all: seq<Byte>)
    requires Encode(x).Some? && EncodeAll(xs) == Some(payload) && all == Encode(x).value + payload
    ensures EncodeAll([x] + xs) == Some(all)
  {
    assert ([x] + xs)[1..] == xs;
  }

  lemma ShortPair(x: Item, y: Item, payload: seq<Byte>, e: seq<Byte>)
    requires Encode(x).Some? && Encode(y).Some? && payload == Encode(x).value + Encode(y).value
    requires |payload| < 56 && e == [192 + |payload|] + payload
    ensures EncodeAll([x, y]) == Some(payload) && Encode(List([x, y])) == Some(e)
  {
    EncodeOne(y);
    EncodeMore(x, [y], Encode(y).value, payload);
    assert [x] + [y] == [x, y];
  }
}
