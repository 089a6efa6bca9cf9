/** Arithmetic modulo a prime: Bezout, Euclid's lemma, Fermat's little theorem and the
    fact that -1 is not a square when the prime is 3 modulo 4.

    Primality itself is the only assumption; everything else is proved from it. */
module PrimeField {
  import opened Common

  ghost predicate IsPrime(p: int) {
    && 1 < p
    && forall d :: 1 < d < p ==> p % d != 0
  }

  /** a^e over the integers; `ModExp` is what the EIP-198 precompile returns for a non-zero modulus. */
  function Pow(a: int, e: nat): int
    decreases e, a
  {
    if e == 0 then 1 else a * Pow(a, e - 1)
  }

  function ModExp(a: int, e: nat, n: int): (r: int)
    requires n > 0
    ensures 0 <= r < n
  {
    Pow(a, e) % n
  }

  // ----- congruences

  ghost predicate Divides(p: int, a: int) {
    exists k: int :: a == k * p
  }

  lemma DividesMod(p: int, a: int)
    requires p > 0
    ensures Divides(p, a) <==> a % p == 0
  {
    if a % p == 0 {
      assert a == (a / p) * p;
    }
    if Divides(p, a) {
      var k :| a == k * p;
      ModUnique(a, k, 0, p);
    }
  }

  /** The remainder is the only residue at a multiple of p from a. */
  lemma ModUnique(a: int, k: int, r: int, p: int)
    requires p > 0 && 0 <= r < p && a == k * p + r
    ensures a % p == r
  {
    var q := a / p - k;
    assert q * p == r - a % p by {
      assert a == (a / p) * p + a % p;
      assert (a / p - k) * p == (a / p) * p - k * p;
    }
    assert q >= 1 ==> q * p >= p;
    assert q <= -1 ==> q * p <= -p;
  }

  lemma ModEqual(a: int, b: int, p: int)
    requires p > 0
    ensures a % p == b % p <==> Divides(p, a - b)
  {
    if a % p == b % p {
      assert a - b == (a / p - b / p) * p by {
        assert a == (a / p) * p + a % p;
        assert b == (b / p) * p + b % p;
      }
    }
    if Divides(p, a - b) {
      var k :| a - b == k * p;
      assert a == (k + b / p) * p + b % p by {
        assert b == (b / p) * p + b % p;
        assert (k + b / p) * p == k * p + (b / p) * p;
      }
      ModUnique(a, k + b / p, b % p, p);
    }
  }

  lemma ModAdd(a: int, b: int, p: int)
    requires p > 0
    ensures (a % p + b) % p == (a + b) % p
    ensures (a + b % p) % p == (a + b) % p
    ensures (a % p + b % p) % p == (a + b) % p
  {
    assert a == (a / p) * p + a % p && b == (b / p) * p + b % p;
    assert a % p + b - (a + b) == (-(a / p)) * p;
    ModEqual(a % p + b, a + b, p);
    assert a + b % p - (a + b) == (-(b / p)) * p;
    ModEqual(a + b % p, a + b, p);
    assert a % p + b % p - (a + b) == (-(a / p) - b / p) * p;
    ModEqual(a % p + b % p, a + b, p);
  }

  lemma ModSub(a: int, b: int, p: int)
    requires p > 0
    ensures (a % p - b % p) % p == (a - b) % p
    ensures (a - b % p) % p == (a - b) % p
  {
    assert a == (a / p) * p + a % p && b == (b / p) * p + b % p;
    assert a % p - b % p - (a - b) == (b / p - a / p) * p;
    ModEqual(a % p - b % p, a - b, p);
    assert a - b % p - (a - b) == (b / p) * p;
    ModEqual(a - b % p, a - b, p);
  }

  lemma ModMul(a: int, b: int, p: int)
    requires p > 0
    ensures (a % p * b) % p == (a * b) % p
    ensures (a % p * (b % p)) % p == (a * b) % p
  {
    ModMulLeft(a, b, p);
    ModMulLeft(b, a % p, p);
    assert a % p * (b % p) == b % p * (a % p) && a % p * b == b * (a % p);
  }

  lemma ModMulLeft(a: int, b: int, p: int)
    requires p > 0
    ensures (a % p * b) % p == (a * b) % p
  {
    var q, r := a / p, a % p;
    assert a == q * p + r;
    assert r * b - a * b == (-(q * b)) * p by {
      assert a * b == q * p * b + r * b;
      assert q * p * b == q * b * p;
    }
    ModEqual(r * b, a * b, p);
  }

  lemma SignOfProduct(m: int, g: int)
    requires g > 0
    ensures m >= 1 ==> m * g >= g
    ensures m <= 0 ==> m * g <= 0
  {
  }

  // ----- Bezout and Euclid's lemma

  lemma Bezout(a: nat, b: nat) returns (g: nat, x: int, y: int)
    requires a > 0 || b > 0
    ensures g > 0 && g == a * x + b * y && Divides(g, a) && Divides(g, b)
    decreases b
  {
    if b == 0 {
      g, x, y := a, 1, 0;
      assert a == 1 * a && b == 0 * a;
    } else {
      hide Divides;
      var g', x', y' := Bezout(b, a % b);
      var q := a / b;
      assert a == q * b + a % b;
      g, x, y := g', y', x' - q * y';
      BezoutStep(a, b, a % b, q, x', y');
      DividesSum(g, a, b, a % b, q);
    }
  }

  lemma BezoutStep(a: int, b: int, r: int, q: int, x: int, y: int)
    requires a == q * b + r
    ensures b * x + r * y == a * y + b * (x - q * y)
  {
    assert r * y == a * y - (q * b) * y;
    assert b * (x - q * y) == b * x - (q * b) * y;
  }

  lemma DividesSum(g: int, a: int, b: int, r: int, q: int)
    requires Divides(g, b) && Divides(g, r) && a == q * b + r
    ensures Divides(g, a)
  {
    var k :| b == k * g;
    var m :| r == m * g;
    assert q * b == (q * k) * g;
    assert a == (q * k + m) * g;
  }

  /** Every residue that is not zero has an inverse. */
  lemma InverseExists(a: int, p: int) returns (y: int)
    requires IsPrime(p) && a % p != 0
    ensures (a * y) % p == 1
  {
    var r := a % p;
    var g, x, z := Bezout(r, p);
    var k :| p == k * g;
    var m :| r == m * g;
    if g != 1 {
      SignOfProduct(m, g);
      DividesMod(g, p);
      assert false;
    }
    y := x;
    assert r * x == (-z) * p + 1;
    ModUnique(r * x, -z, 1, p);
    ModMulLeft(a, x, p);
  }

  lemma EuclidsLemma(a: int, b: int, p: int)
    requires IsPrime(p) && (a * b) % p == 0
    ensures a % p == 0 || b % p == 0
  {
    if a % p != 0 {
      var y := InverseExists(a, p);
      calc {
        b % p;
        == { ModMulLeft(a * y, b, p); assert 1 * b == b; }
        (a * y * b) % p;
        == { assert a * y * b == a * b * y; ModMulLeft(a * b, y, p); assert 0 * y == 0; }
        0;
      }
    }
  }

  // ----- Fermat's little theorem

  lemma {:induction false} PowSquare(a: int, e: nat)
    ensures Pow(a * a, e) == Pow(a, 2 * e)
  {
    if e > 0 {
      PowSquare(a, e - 1);
      assert Pow(a, 2 * e) == a * (a * Pow(a, 2 * (e - 1)));
      assert a * (a * Pow(a, 2 * (e - 1))) == a * a * Pow(a, 2 * (e - 1));
    }
  }

  lemma {:induction false} PowMod(a: int, b: int, e: nat, p: int)
    requires p > 0 && a % p == b % p
    ensures Pow(a, e) % p == Pow(b, e) % p
  {
    if e > 0 {
      PowMod(a, b, e - 1, p);
      ModMul(a, Pow(a, e - 1), p);
      ModMul(b, Pow(b, e - 1), p);
    }
  }

  /** The product of a finite set of integers, in any order. */
  ghost function Product(s: set<int>): int {
    if s == {} then 1 else Pick(s) * Product(s - {Pick(s)})
  }

  lemma {:induction false} ProductPick(s: set<int>, y: int)
    requires y in s
    ensures Product(s) == y * Product(s - {y})
    decreases s
  {
    var x := Pick(s);
    if x != y {
      ProductPick(s - {x}, y);
      ProductPick(s - {y}, x);
      assert s - {x} - {y} == s - {y} - {x};
      var r := Product(s - {x} - {y});
      assert x * (y * r) == y * (x * r);
    }
  }

  ghost function Multiples(a: int, k: nat, p: int): (s: set<int>)
    requires p > 0
  {
    if k == 0 then {} else Multiples(a, k - 1, p) + {(a * k) % p}
  }

  lemma {:induction false} MultiplesMember(a: int, k: nat, p: int, x: int) returns (i: int)
    requires p > 0 && x in Multiples(a, k, p)
    ensures 1 <= i <= k && x == (a * i) % p
  {
    if x == (a * k) % p { i := k; } else { i := MultiplesMember(a, k - 1, p, x); }
  }

  /** Scaling by a residue that is not zero is injective on 1..p-1. */
  lemma ScalingInjective(a: int, i: int, j: int, p: int)
    requires IsPrime(p) && a % p != 0 && 1 <= j < i < p
    ensures (a * i) % p != (a * j) % p
  {
    if (a * i) % p == (a * j) % p {
      ModEqual(a * i, a * j, p);
      assert a * i - a * j == a * (i - j);
      DividesMod(p, a * (i - j));
      EuclidsLemma(a, i - j, p);
    }
  }

  lemma {:induction false} MultiplesSize(a: int, k: nat, p: int)
    requires IsPrime(p) && a % p != 0 && k < p
    ensures |Multiples(a, k, p)| == k
  {
    if k > 0 {
      MultiplesSize(a, k - 1, p);
      MultiplesStep(a, k, p);
    }
  }

  lemma MultiplesStep(a: int, k: int, p: int)
    requires IsPrime(p) && a % p != 0 && 0 < k < p
    ensures (a * k) % p !in Multiples(a, k - 1, p)
  {
    if (a * k) % p in Multiples(a, k - 1, p) {
      var j := MultiplesMember(a, k - 1, p, (a * k) % p);
      ScalingInjective(a, k, j, p);
    }
  }

  lemma {:induction false} MultiplesProduct(a: int, k: nat, p: int)
    requires IsPrime(p) && a % p != 0 && k < p
    ensures Product(Multiples(a, k, p)) % p == (Pow(a, k) * Product(UpTo(k))) % p
  {
    if k > 0 {
      MultiplesProduct(a, k - 1, p);
      MultiplesStep(a, k, p);
      var m, x := Multiples(a, k - 1, p), (a * k) % p;
      ProductPick(m + {x}, x);
      assert m + {x} - {x} == m;
      ProductUpTo(k);
      ScaleProduct(a, k, Product(m), Pow(a, k - 1), Product(UpTo(k - 1)), Product(m + {x}), Pow(a, k),
                   Product(UpTo(k)), p);
    }
  }

  lemma ProductUpTo(k: int)
    requires k > 0
    ensures Product(UpTo(k)) == k * Product(UpTo(k - 1))
  {
    ProductPick(UpTo(k), k);
    assert UpTo(k) - {k} == UpTo(k - 1);
  }

  lemma ScaleProduct(a: int, k: int, m: int, w: int, f: int, m': int, w': int, f': int, p: int)
    requires p > 0 && m % p == (w * f) % p
    requires m' == (a * k) % p * m && w' == a * w && f' == k * f
    ensures m' % p == (w' * f') % p
  {
    ModMul(a * k, m, p);
    ModMul(a * k, w * f, p);
    assert a * k * (w * f) == a * w * (k * f);
  }

  lemma {:induction false} ProductUpToNonzero(k: nat, p: int)
    requires IsPrime(p) && k < p
    ensures Product(UpTo(k)) % p != 0
  {
    if k > 0 {
      ProductUpToNonzero(k - 1, p);
      ProductUpTo(k);
      ModUnique(k, 0, k, p);
      if Product(UpTo(k)) % p == 0 { EuclidsLemma(k, Product(UpTo(k - 1)), p); }
    }
  }

  lemma SubsetOfSameSize(a: set<int>, b: set<int>)
    requires a <= b && |a| == |b|
    ensures a == b
  {
    assert |b - a| == |b| - |a|;
    assert b == a + (b - a);
  }

  lemma Cancel(w: int, f: int, p: int)
    requires IsPrime(p) && f % p != 0 && (w * f) % p == f % p
    ensures w % p == 1
  {
    ModEqual(w * f, f, p);
    assert w * f - f == (w - 1) * f;
    DividesMod(p, (w - 1) * f);
    EuclidsLemma(w - 1, f, p);
    DividesMod(p, w - 1);
    ModEqual(w, 1, p);
    ModUnique(1, 0, 1, p);
  }

  lemma MultiplesAreResidues(a: int, p: int)
    requires IsPrime(p) && a % p != 0
    ensures Multiples(a, p - 1, p) == UpTo(p - 1)
  {
    MultiplesSize(a, p - 1, p);
    UpToSize(p - 1);
    forall x: int {:trigger x in Multiples(a, p - 1, p)} | x in Multiples(a, p - 1, p) ensures x in UpTo(p - 1) {
      var i := MultiplesMember(a, p - 1, p, x);
      if x == 0 { EuclidsLemma(a, i, p); ModUnique(i, 0, i, p); }
    }
    SubsetOfSameSize(Multiples(a, p - 1, p), UpTo(p - 1));
  }

  lemma Fermat(a: int, p: int)
    requires IsPrime(p) && a % p != 0
    ensures Pow(a, p - 1) % p == 1
  {
    MultiplesAreResidues(a, p);
    MultiplesProduct(a, p - 1, p);
    ProductUpToNonzero(p - 1, p);
    Cancel(Pow(a, p - 1), Product(UpTo(p - 1)), p);
  }

  /** What `_modInv` relies on: raising to p-2 inverts every residue that is not zero and fixes zero. */
  lemma ModExpInverts(a: int, p: int)
    requires IsPrime(p) && p > 2
    ensures a % p != 0 ==> (a * ModExp(a, p - 2, p)) % p == 1
    ensures a % p == 0 ==> ModExp(a, p - 2, p) == 0
  {
    if a % p != 0 {
      Fermat(a, p);
      var w := Pow(a, p - 2);
      ModMul(w, a, p);
      assert w % p * a == a * (w % p) && w * a == Pow(a, p - 1);
    } else {
      PowMod(a, 0, p - 2, p);
      assert Pow(0, p - 2) == 0 * Pow(0, p - 3) == 0;
    }
  }

  lemma {:induction false} PowNegOdd(b: int, e: nat)
    ensures Pow(-b, 2 * e + 1) == -Pow(b, 2 * e + 1)
  {
    PowSquare(b, e);
    PowSquare(-b, e);
    assert (-b) * (-b) == b * b;
    assert Pow(-b, 2 * e + 1) == -b * Pow(-b, 2 * e);
    assert Pow(b, 2 * e + 1) == b * Pow(b, 2 * e);
    assert -b * Pow(b, 2 * e) == -(b * Pow(b, 2 * e));
  }

  lemma SquareVanishes(x: int, p: int)
    requires IsPrime(p)
    ensures (x * x) % p == 0 <==> x % p == 0
  {
    if x % p == 0 {
      ModMulLeft(x, x, p);
    } else if (x * x) % p == 0 {
      EuclidsLemma(x, x, p);
    }
  }

  /** -1 is not a square: x^2 = -y^2 raised to the odd power (p-1)/2 would give 1 = -1. */
  lemma MinusOneIsNotASquare(x: int, y: int, p: int)
    requires IsPrime(p) && p % 4 == 3 && x % p != 0 && y % p != 0
    ensures (x * x) % p != (-(y * y)) % p
  {
    if (x * x) % p == (-(y * y)) % p {
      var e := p / 4;
      PowMod(x * x, -(y * y), 2 * e + 1, p);
      PowSquare(x, 2 * e + 1);
      PowNegOdd(y * y, e);
      PowSquare(y, 2 * e + 1);
      Fermat(x, p);
      Fermat(y, p);
      ModSub(0, Pow(y, p - 1), p);
      ModUnique(-1, -1, p - 1, p);
      assert false;
    }
  }

  /** For a prime that is 3 modulo 4 a sum of two squares vanishes only when both terms do. */
  lemma NormVanishes(x: int, y: int, p: int)
    requires IsPrime(p) && p % 4 == 3
    ensures (x * x + y * y) % p == 0 <==> x % p == 0 && y % p == 0
  {
    SquareVanishes(x, p);
    SquareVanishes(y, p);
    var u, v := x * x, y * y;
    ModAdd(u, v, p);
    if (u + v) % p == 0 {
      assert u - (-v) == u + v;
      DividesMod(p, u + v);
      ModEqual(u, -v, p);
      ModSub(u + v, v, p);
      ModSub(u + v, u, p);
      if x % p != 0 && y % p != 0 {
        MinusOneIsNotASquare(x, y, p);
      }
    }
  }
}
