/** Model of `script/utils/BN254G2.sol`: arithmetic on the sextic twist of alt_bn128, the group
    G2 of EIP-197. A pair of uint256 words is an `Fq2`; the words the contract receives need not
    be below the modulus, so `Canon` gives the field element a pair stands for. */
module BN254G2 {
  import opened Common
  import opened PrimeField
  import opened FieldAlgebra
  import opened CurveLaw
  import opened ChordAndTangent

  const FIELD_MODULUS: int := 0x30644e72e131a029b85045b68181585d97816a916871ca8d3c208c16d87cfd47
  const TWISTBX: int := 0x2b149d40ceb8aaae81be18991be06ac3b5b4c5e559dbefa33267e6dc24a138e5
  const TWISTBY: int := 0x9713b03af0fed4cd2cafadeed8fdf4a74fa084e52d1852e4a2bd0685c315d2
  type uint256 = n: nat | n < TWO_POW_256

  /** A pair of words; every word an operation produces is in 0..FIELD_MODULUS. */
  datatype Fq2 = Fq2(x: int, y: int)

  predicate Canonical(a: Fq2) { 0 <= a.x < FIELD_MODULUS && 0 <= a.y < FIELD_MODULUS }

  type Fp2 = a: Fq2 | Canonical(a) witness Fq2(0, 0)

  const ZERO: Fp2 := Fq2(0, 0)
  const ONE: Fp2 := Fq2(1, 0)
  const TWISTB: Fp2 := Fq2(TWISTBX, TWISTBY)

  // ----- the word operations; `submod` is checked arithmetic and so must not underflow

  function AddMod(a: int, b: int, n: int): int requires n > 0 { (a + b) % n }

  function MulMod(a: int, b: int, n: int): int requires n > 0 { (a * b) % n }

  function SubMod(a: int, b: int, n: int): int requires n > 0 && 0 <= b <= n { AddMod(a, n - b, n) }

  /** The modexp precompile applied to the exponent n - 2. */
  function ModInv(a: int, n: int): int requires n > 2 { ModExp(a, n - 2, n) }

  function FQ2Mul(a: Fq2, b: Fq2): Fp2 {
    Fq2(SubMod(MulMod(a.x, b.x, FIELD_MODULUS), MulMod(a.y, b.y, FIELD_MODULUS), FIELD_MODULUS),
        AddMod(MulMod(a.x, b.y, FIELD_MODULUS), MulMod(a.y, b.x, FIELD_MODULUS), FIELD_MODULUS))
  }

  function FQ2Muc(a: Fq2, c: int): Fp2 {
    Fq2(MulMod(a.x, c, FIELD_MODULUS), MulMod(a.y, c, FIELD_MODULUS))
  }

  function FQ2Add(a: Fq2, b: Fq2): Fp2 {
    Fq2(AddMod(a.x, b.x, FIELD_MODULUS), AddMod(a.y, b.y, FIELD_MODULUS))
  }

  function FQ2Sub(a: Fq2, b: Fq2): Fp2
    requires 0 <= b.x <= FIELD_MODULUS && 0 <= b.y <= FIELD_MODULUS
  {
    Fq2(SubMod(a.x, b.x, FIELD_MODULUS), SubMod(a.y, b.y, FIELD_MODULUS))
  }

  function NormInverse(a: Fq2): int {
    ModInv(AddMod(MulMod(a.y, a.y, FIELD_MODULUS), MulMod(a.x, a.x, FIELD_MODULUS), FIELD_MODULUS), FIELD_MODULUS)
  }

  /** The second word is in 1..FIELD_MODULUS: it is the modulus itself where the residue is zero. */
  function FQ2Inv(a: Fq2): Fq2 {
    Fq2(MulMod(a.x, NormInverse(a), FIELD_MODULUS),
        FIELD_MODULUS - MulMod(a.y, NormInverse(a), FIELD_MODULUS))
  }

  predicate IsOnCurve(x: Fq2, y: Fq2) {
    var yy := FQ2Mul(y, y);
    var xxx := FQ2Mul(FQ2Mul(x, x), x);
    FQ2Sub(FQ2Sub(yy, xxx), TWISTB) == ZERO
  }

  // ----- the field behind the words

  function Reduce(x: int, y: int): Fp2 { Fq2(x % FIELD_MODULUS, y % FIELD_MODULUS) }

  function Canon(a: Fq2): Fp2 { Reduce(a.x, a.y) }

  /** The inverse as a field element: `_FQ2Inv` with the modulus read as zero. */
  function Inverse(a: Fp2): Fp2 { Canon(FQ2Inv(a)) }

  const TwistField: Field<Fp2> := Field(ZERO, ONE,
    (a: Fp2, b: Fp2) => FQ2Add(a, b),
    (a: Fp2, b: Fp2) => FQ2Sub(a, b),
    (a: Fp2, b: Fp2) => FQ2Mul(a, b),
    (a: Fp2) => Inverse(a))

  lemma CanonOfCanonical(a: Fq2)
    ensures Canonical(a) <==> Canon(a) == a
  {
    if Canonical(a) {
      ModUnique(a.x, 0, a.x, FIELD_MODULUS);
      ModUnique(a.y, 0, a.y, FIELD_MODULUS);
    }
  }

  lemma SubModIs(a: int, b: int, p: int)
    requires p > 0
    ensures (a + (p - b)) % p == (a - b) % p
  {
    assert a + (p - b) - (a - b) == 1 * p;
    ModEqual(a + (p - b), a - b, p);
  }

  lemma MulIs(a: Fq2, b: Fq2)
    ensures FQ2Mul(a, b) == Reduce(a.x * b.x - a.y * b.y, a.x * b.y + a.y * b.x)
  {
    MulWords(a.x * b.x, a.y * b.y, a.x * b.y, a.y * b.x);
  }

  /** The words of a product, from the four products of words. */
  lemma MulWords(p: int, q: int, r: int, s: int)
    ensures SubMod(p % FIELD_MODULUS, q % FIELD_MODULUS, FIELD_MODULUS) == (p - q) % FIELD_MODULUS
    ensures AddMod(r % FIELD_MODULUS, s % FIELD_MODULUS, FIELD_MODULUS) == (r + s) % FIELD_MODULUS
  {
    SubModIs(p % FIELD_MODULUS, q % FIELD_MODULUS, FIELD_MODULUS);
    ModSub(p, q, FIELD_MODULUS);
    ModAdd(r, s, FIELD_MODULUS);
  }

  lemma SubIs(a: Fq2, b: Fq2)
    requires 0 <= b.x <= FIELD_MODULUS && 0 <= b.y <= FIELD_MODULUS
    ensures FQ2Sub(a, b) == Reduce(a.x - b.x, a.y - b.y)
  {
    SubModIs(a.x, b.x, FIELD_MODULUS);
    SubModIs(a.y, b.y, FIELD_MODULUS);
  }

  // ----- a product depends only on the residues of its factors

  lemma ProductOfMods(x: int, y: int, u: int, v: int, p: int)
    requires p > 0
    ensures (x % p * u - y % p * v) % p == (x * u - y * v) % p
    ensures (x % p * v + y % p * u) % p == (x * v + y * u) % p
  {
    ModMulLeft(x, u, p);
    ModMulLeft(y, v, p);
    ModMulLeft(x, v, p);
    ModMulLeft(y, u, p);
    ModSub(x % p * u, y % p * v, p);
    ModSub(x * u, y * v, p);
    ModAdd(x % p * v, y % p * u, p);
    ModAdd(x * v, y * u, p);
  }

  lemma MulReduce(x: int, y: int, b: Fq2)
    ensures FQ2Mul(Reduce(x, y), b) == Reduce(x * b.x - y * b.y, x * b.y + y * b.x)
  {
    MulIs(Reduce(x, y), b);
    ProductOfMods(x, y, b.x, b.y, FIELD_MODULUS);
  }

  lemma MulCommutes(a: Fq2, b: Fq2)
    ensures FQ2Mul(a, b) == FQ2Mul(b, a)
  {
    assert a.x * b.x == b.x * a.x && a.y * b.y == b.y * a.y;
    assert a.x * b.y == b.y * a.x && a.y * b.x == b.x * a.y;
  }

  lemma MulCanon(a: Fq2, b: Fq2)
    ensures FQ2Mul(a, b) == FQ2Mul(Canon(a), Canon(b))
  {
    MulIs(a, b);
    MulReduce(a.x, a.y, b);
    MulCommutes(Canon(a), b);
    MulIs(b, Canon(a));
    MulReduce(b.x, b.y, Canon(a));
    MulCommutes(Canon(b), Canon(a));
  }

  // ----- the pairs form a field

  // x + y i is (a + b i)(c + d i) and u + v i is (c + d i)(e + g i)
  lemma GaussAssoc(a: int, b: int, c: int, d: int, e: int, g: int, x: int, y: int, u: int, v: int)
    requires x == a * c - b * d && y == a * d + b * c
    requires u == c * e - d * g && v == c * g + d * e
    ensures x * e - y * g == u * a - v * b
    ensures x * g + y * e == u * b + v * a
  {
  }

  lemma TripleProduct(a: Fp2, b: Fp2, c: Fp2, x: int, y: int)
    requires x == a.x * b.x - a.y * b.y && y == a.x * b.y + a.y * b.x
    ensures FQ2Mul(FQ2Mul(a, b), c) == Reduce(x * c.x - y * c.y, x * c.y + y * c.x)
  {
    MulIs(a, b);
    MulReduce(x, y, c);
  }

  lemma MulAssociates(a: Fp2, b: Fp2, c: Fp2)
    ensures FQ2Mul(FQ2Mul(a, b), c) == FQ2Mul(a, FQ2Mul(b, c))
  {
    var x, y := a.x * b.x - a.y * b.y, a.x * b.y + a.y * b.x;
    var u, v := b.x * c.x - b.y * c.y, b.x * c.y + b.y * c.x;
    TripleProduct(a, b, c, x, y);
    TripleProduct(b, c, a, u, v);
    MulCommutes(a, FQ2Mul(b, c));
    GaussAssoc(a.x, a.y, b.x, b.y, c.x, c.y, x, y, u, v);
  }

  lemma AddIs(a: Fq2, b: Fq2)
    ensures FQ2Add(a, b) == Reduce(a.x + b.x, a.y + b.y)
  {
  }

  lemma AddReduce(x: int, y: int, u: int, v: int)
    ensures FQ2Add(Reduce(x, y), Reduce(u, v)) == Reduce(x + u, y + v)
  {
    ModAdd(x, u, FIELD_MODULUS);
    ModAdd(y, v, FIELD_MODULUS);
  }

  lemma SubReduce(x: int, y: int, u: int, v: int)
    ensures FQ2Sub(Reduce(x, y), Reduce(u, v)) == Reduce(x - u, y - v)
  {
    SubIs(Reduce(x, y), Reduce(u, v));
    ModSub(x, u, FIELD_MODULUS);
    ModSub(y, v, FIELD_MODULUS);
  }

  lemma AddAssociates(a: Fp2, b: Fp2, c: Fp2)
    ensures FQ2Add(FQ2Add(a, b), c) == FQ2Add(a, FQ2Add(b, c))
  {
    hide FQ2Add, FQ2Sub, Reduce;
    AddIs(a, b);
    AddIs(b, c);
    CanonOfCanonical(a);
    CanonOfCanonical(c);
    AddReduce(a.x + b.x, a.y + b.y, c.x, c.y);
    AddReduce(a.x, a.y, b.x + c.x, b.y + c.y);
  }

  lemma AddThenSub(a: Fp2, b: Fp2)
    ensures FQ2Sub(FQ2Add(a, b), b) == a
  {
    hide FQ2Add, FQ2Sub, Reduce;
    AddIs(a, b);
    CanonOfCanonical(a);
    CanonOfCanonical(b);
    SubReduce(a.x + b.x, a.y + b.y, b.x, b.y);
  }

  lemma SubThenAdd(a: Fp2, b: Fp2)
    ensures FQ2Add(FQ2Sub(a, b), b) == a
  {
    hide FQ2Add, FQ2Sub, Reduce;
    CanonOfCanonical(a);
    CanonOfCanonical(b);
    SubIs(a, b);
    AddReduce(a.x - b.x, a.y - b.y, b.x, b.y);
  }

  lemma MulDistributes(a: Fp2, b: Fp2, c: Fp2)
    ensures FQ2Mul(a, FQ2Add(b, c)) == FQ2Add(FQ2Mul(a, b), FQ2Mul(a, c))
  {
    hide FQ2Add, FQ2Mul, Reduce;
    AddIs(b, c);
    var x, y := a.x * b.x - a.y * b.y, a.x * b.y + a.y * b.x;
    var u, v := a.x * c.x - a.y * c.y, a.x * c.y + a.y * c.x;
    MulIs(a, b);
    MulIs(a, c);
    AddReduce(x, y, u, v);
    MulCommutes(a, FQ2Add(b, c));
    MulReduce(b.x + c.x, b.y + c.y, a);
    Distributed(a.x, a.y, b.x, b.y, c.x, c.y, x, y, u, v);
  }

  lemma Distributed(a: int, b: int, c: int, d: int, e: int, g: int, x: int, y: int, u: int, v: int)
    requires x == a * c - b * d && y == a * d + b * c && u == a * e - b * g && v == a * g + b * e
    ensures (c + e) * a - (d + g) * b == x + u
    ensures (c + e) * b + (d + g) * a == y + v
  {
  }

  lemma Units(a: Fp2)
    ensures FQ2Add(a, ZERO) == a && FQ2Mul(a, ONE) == a
  {
    MulIs(a, ONE);
    CanonOfCanonical(a);
  }

  /** The norm vanishes only for the pair that stands for zero. */
  lemma NormIsZero(a: Fq2)
    requires IsPrime(FIELD_MODULUS)
    ensures (a.y * a.y + a.x * a.x) % FIELD_MODULUS == 0 <==> Canon(a) == ZERO
  {
    NormVanishes(a.y, a.x, FIELD_MODULUS);
  }

  lemma NormInverseIs(a: Fq2)
    requires IsPrime(FIELD_MODULUS)
    ensures Canon(a) == ZERO ==> NormInverse(a) == 0
    ensures Canon(a) != ZERO ==> ((a.y * a.y + a.x * a.x) * NormInverse(a)) % FIELD_MODULUS == 1
  {
    var p, n := FIELD_MODULUS, a.y * a.y + a.x * a.x;
    NormIsZero(a);
    ModAdd(a.y * a.y, a.x * a.x, p);
    ModExpInverts(n % p, p);
    ModUnique(n % p, 0, n % p, p);
    ModMulLeft(n, NormInverse(a), p);
  }

  lemma InverseOfZero(a: Fq2)
    requires IsPrime(FIELD_MODULUS) && Canon(a) == ZERO
    ensures FQ2Inv(a) == Fq2(0, FIELD_MODULUS)
  {
    NormInverseIs(a);
    ModUnique(0, 0, 0, FIELD_MODULUS);
    assert a.x * 0 == 0 && a.y * 0 == 0;
  }

  lemma InverseSecondWord(y: int, n: int, inv: int, p: int)
    requires IsPrime(p) && (n * inv) % p == 1
    ensures (y * inv) % p == 0 <==> y % p == 0
  {
    if y % p == 0 {
      ModMulLeft(y, inv, p);
      ModUnique(0, 0, 0, p);
    } else if (y * inv) % p == 0 {
      EuclidsLemma(y, inv, p);
      DividesMod(p, inv);
      var k :| inv == k * p;
      assert n * inv == (n * k) * p + 0;
      ModUnique(n * inv, n * k, 0, p);
    }
  }

  /** `_FQ2Inv` inverts every pair that does not stand for zero; of zero it is (0, FIELD_MODULUS).
      Its second word is the modulus rather than 0 exactly when that residue is 0. */
  lemma InverseIsInverse(a: Fq2)
    requires IsPrime(FIELD_MODULUS)
    ensures Canon(a) != ZERO ==> FQ2Mul(a, FQ2Inv(a)) == ONE
    ensures Canon(a) == ZERO ==> FQ2Inv(a) == Fq2(0, FIELD_MODULUS)
    ensures FQ2Inv(a).y == FIELD_MODULUS <==> a.y % FIELD_MODULUS == 0
  {
    hide FQ2Mul, NormInverse;
    if Canon(a) == ZERO {
      InverseOfZero(a);
    } else {
      NormInverseIs(a);
      InverseSecondWord(a.y, a.y * a.y + a.x * a.x, NormInverse(a), FIELD_MODULUS);
      MulIs(a, FQ2Inv(a));
      InverseParts(a.x, a.y, NormInverse(a), FIELD_MODULUS);
    }
  }

  lemma InverseParts(x: int, y: int, inv: int, p: int)
    requires p > 1 && ((y * y + x * x) * inv) % p == 1
    ensures (x * ((x * inv) % p) - y * (p - (y * inv) % p)) % p == 1
    ensures (x * (p - (y * inv) % p) + y * ((x * inv) % p)) % p == 0
  {
    var q, r := x * inv / p, y * inv / p;
    var u, v := (x * inv) % p, p - (y * inv) % p;
    assert u == x * inv - q * p && v == (1 + r) * p - y * inv;
    NormParts(x, y, inv, q, r, p);
    SameResidue(x * u - y * v, (y * y + x * x) * inv, -(x * q) - y * (1 + r), p);
    SameResidue(x * v + y * u, 0, x * (1 + r) - y * q, p);
    ModUnique(0, 0, 0, p);
  }

  lemma SameResidue(a: int, b: int, k: int, p: int)
    requires p > 0 && a - b == k * p
    ensures a % p == b % p
  {
    ModEqual(a, b, p);
  }

  lemma NormParts(x: int, y: int, inv: int, q: int, r: int, p: int)
    ensures
      var u, v := x * inv - q * p, (1 + r) * p - y * inv;
      && x * u - y * v - (y * y + x * x) * inv == (-(x * q) - y * (1 + r)) * p
      && x * v + y * u - 0 == (x * (1 + r) - y * q) * p
  {
    var u, v := x * inv - q * p, (1 + r) * p - y * inv;
    assert x * u == x * (x * inv) - x * (q * p) && y * v == y * ((1 + r) * p) - y * (y * inv);
    assert x * v == x * ((1 + r) * p) - x * (y * inv) && y * u == y * (x * inv) - y * (q * p);
    assert (y * y + x * x) * inv == y * (y * inv) + x * (x * inv);
    assert x * (q * p) == x * q * p && y * ((1 + r) * p) == y * (1 + r) * p;
    assert x * ((1 + r) * p) == x * (1 + r) * p && y * (q * p) == y * q * p;
    assert x * (y * inv) == y * (x * inv);
  }

  lemma AddCommutes(a: Fp2, b: Fp2)
    ensures FQ2Add(a, b) == FQ2Add(b, a)
  {
  }

  lemma FieldInverse(a: Fp2)
    requires IsPrime(FIELD_MODULUS) && a != ZERO
    ensures FQ2Mul(a, Canon(FQ2Inv(a))) == ONE
  {
    CanonOfCanonical(a);
    InverseIsInverse(a);
    MulCanon(a, FQ2Inv(a));
  }

  lemma InverseInField(a: Fp2)
    requires IsPrime(FIELD_MODULUS) && a != ZERO
    ensures TwistField.mul(a, TwistField.inv(a)) == ONE
  {
    FieldInverse(a);
    assert TwistField.inv(a) == Canon(FQ2Inv(a));
  }

  lemma TwistUnary(a: Fp2)
    requires IsPrime(FIELD_MODULUS)
    ensures UnaryLaws(TwistField, a)
  {
    hide FQ2Inv, FQ2Mul, FQ2Add;
    if a != ZERO { InverseInField(a); }
    Units(a);
  }

  lemma TwistBinary(a: Fp2, b: Fp2)
    ensures BinaryLaws(TwistField, a, b)
  {
    AddCommutes(a, b);
    MulCommutes(a, b);
    AddThenSub(a, b);
    SubThenAdd(a, b);
  }

  lemma TwistTernary(a: Fp2, b: Fp2, c: Fp2)
    ensures TernaryLaws(TwistField, a, b, c)
  {
    AddAssociates(a, b, c);
    MulAssociates(a, b, c);
    MulDistributes(a, b, c);
  }

  /** The pairs are the field F_p[i]/(i^2 + 1): the only assumption is that the modulus is prime. */
  lemma TwistFieldLaws()
    requires IsPrime(FIELD_MODULUS)
    ensures Laws(TwistField)
  {
    forall a: Fp2 ensures UnaryLaws(TwistField, a) { TwistUnary(a); }
    forall a: Fp2, b: Fp2 ensures BinaryLaws(TwistField, a, b) { TwistBinary(a, b); }
    forall a: Fp2, b: Fp2, c: Fp2 ensures TernaryLaws(TwistField, a, b, c) {
      TwistTernary(a, b, c);
    }
    assert FQ2Add(ONE, ONE) == Fq2(2, 0);
  }

  // ----- points

  function CanonPoint(p: Projective<Fq2>): Projective<Fp2> {
    Projective(Canon(p.X), Canon(p.Y), Canon(p.Z))
  }

  predicate CanonicalPoint(p: Projective<Fq2>) { Canonical(p.X) && Canonical(p.Y) && Canonical(p.Z) }

  lemma CanonOfCanonicalPoint(p: Projective<Fq2>)
    requires CanonicalPoint(p)
    ensures CanonPoint(p) == p
  {
    CanonOfCanonical(p.X);
    CanonOfCanonical(p.Y);
    CanonOfCanonical(p.Z);
  }

  lemma {:induction false} NumIs(n: nat)
    ensures Num(TwistField, n) == Reduce(n, 0)
  {
    hide FQ2Add;
    if n > 0 {
      NumIs(n - 1);
      CanonOfCanonical(ONE);
      AddReduce(1, 0, n - 1, 0);
    } else {
      CanonOfCanonical(ZERO);
    }
  }

  lemma MucCanon(a: Fq2, n: nat)
    ensures FQ2Muc(a, n) == FQ2Muc(Canon(a), n)
    ensures FQ2Muc(a, n) == Reduce(a.x * n, a.y * n)
  {
    ModMulLeft(a.x, n, FIELD_MODULUS);
    ModMulLeft(a.y, n, FIELD_MODULUS);
  }

  /** `_FQ2Muc` multiplies by the field element n. */
  lemma MucIs(a: Fq2, n: nat)
    ensures FQ2Muc(a, n) == FQ2Mul(Num(TwistField, n), Canon(a))
    ensures FQ2Muc(a, n) == FQ2Muc(Canon(a), n)
  {
    hide FQ2Mul, FQ2Muc, Num;
    var c := Canon(a);
    NumIs(n);
    MulReduce(n, 0, c);
    MucCanon(a, n);
    CanonOfCanonical(c);
    MucCanon(c, n);
    assert n * c.x - 0 * c.y == c.x * n;
    assert n * c.y + 0 * c.x == c.y * n;
  }

  /** The guard of every entry point is the curve equation of the points the words stand for. */
  lemma IsOnCurveMeans(x: Fq2, y: Fq2)
    requires IsPrime(FIELD_MODULUS)
    ensures IsOnCurve(x, y) <==> OnCurve(TwistField, TWISTB, Point(Canon(x), Canon(y)))
  {
    hide FQ2Mul, FQ2Sub, FQ2Add, Canon;
    TwistFieldLaws();
    MulCanon(x, x);
    MulCanon(y, y);
    MulCanon(FQ2Mul(x, x), x);
    CanonOfCanonical(FQ2Mul(x, x));
    var yy, xxx: Fp2 := FQ2Mul(y, y), FQ2Mul(FQ2Mul(x, x), x);
    SubIsZero(TwistField, FQ2Sub(yy, xxx), TWISTB);
    SubAdd(TwistField, yy, xxx);
    SubAdd(TwistField, TWISTB, xxx);
    AddComm(TwistField, TWISTB, xxx);
  }

  /** The two mathematical facts the results below rest on: the modulus is prime, and the
      chord-and-tangent law on the twist is associative. */
  ghost predicate GroupLaw() {
    IsPrime(FIELD_MODULUS) && Associates(TwistField, TWISTB)
  }

  // ----- doubling and addition, with the registers reused as the contract reuses them

  method ECTwistDoubleJacobian(x: Fq2, y: Fq2, z: Fq2) returns (pt2: Projective<Fq2>)
    ensures CanonicalPoint(pt2)
    ensures pt2 == ProjectiveDouble(TwistField, CanonPoint(Projective(x, y, z)))
  {
    hide FQ2Mul, FQ2Muc, FQ2Sub, Canon, Num;
    ghost var p := CanonPoint(Projective(x, y, z));
    MucIs(x, 3);
    MulCanon(FQ2Muc(x, 3), x);
    MulCanon(y, z);
    MulCanon(x, y);
    MucIs(y, 8);
    MulCanon(FQ2Muc(y, 8), y);
    CanonOfCanonical(FQ2Muc(x, 3));
    CanonOfCanonical(FQ2Muc(y, 8));

    var pt1x, pt1y, pt1z := x, y, z;
    var pt2x := FQ2Muc(pt1x, 3);
    pt2x := FQ2Mul(pt2x, pt1x);
    pt1z := FQ2Mul(pt1y, pt1z);
    var pt2y := FQ2Mul(pt1x, pt1y);
    pt2y := FQ2Mul(pt2y, pt1z);
    pt1x := FQ2Mul(pt2x, pt2x);
    MucIs(pt2y, 8);
    MucIs(pt2y, 4);
    CanonOfCanonical(pt2y);
    var pt2z := FQ2Muc(pt2y, 8);
    pt1x := FQ2Sub(pt1x, pt2z);
    pt2z := FQ2Mul(pt1z, pt1z);
    pt2y := FQ2Muc(pt2y, 4);
    pt2y := FQ2Sub(pt2y, pt1x);
    pt2y := FQ2Mul(pt2y, pt2x);
    pt2x := FQ2Muc(pt1y, 8);
    pt2x := FQ2Mul(pt2x, pt1y);
    pt2x := FQ2Mul(pt2x, pt2z);
    pt2y := FQ2Sub(pt2y, pt2x);
    MucIs(pt1x, 2);
    CanonOfCanonical(pt1x);
    pt2x := FQ2Muc(pt1x, 2);
    pt2x := FQ2Mul(pt2x, pt1z);
    pt2z := FQ2Mul(pt1z, pt2z);
    MucIs(pt2z, 8);
    CanonOfCanonical(pt2z);
    pt2z := FQ2Muc(pt2z, 8);
    pt2 := Projective(pt2x, pt2y, pt2z);
  }

  /** The memory struct the contract passes to `_ECTwistAddJacobian` and overwrites as scratch space. */
  class ECTwistAddJacobianArgs {
    var pt1x: Fq2
    var pt1y: Fq2
    var pt1z: Fq2
    var pt2x: Fq2
    var pt2y: Fq2
    var pt2z: Fq2

    constructor (pt1: Projective<Fq2>, pt2: Projective<Fq2>)
      ensures Projective(pt1x, pt1y, pt1z) == pt1 && Projective(pt2x, pt2y, pt2z) == pt2
    {
      pt1x, pt1y, pt1z := pt1.X, pt1.Y, pt1.Z;
      pt2x, pt2y, pt2z := pt2.X, pt2.Y, pt2.Z;
    }

    ghost function First(): Projective<Fq2> reads this { Projective(pt1x, pt1y, pt1z) }

    ghost function Second(): Projective<Fq2> reads this { Projective(pt2x, pt2y, pt2z) }
  }

  method ECTwistAddJacobian(s: ECTwistAddJacobianArgs) returns (pt3: Projective<Fq2>)
    modifies s
    ensures Canonical(old(s.pt1z)) && Canonical(old(s.pt2z)) ==>
              && Canonical(pt3.Z)
              && CanonPoint(pt3)
                 == ProjectiveAdd(TwistField, CanonPoint(old(s.First())), CanonPoint(old(s.Second())))
  {
    hide FQ2Mul, FQ2Muc, FQ2Sub, Canon, Num, ProjectiveDouble;
    ghost var p, q := CanonPoint(s.First()), CanonPoint(s.Second());
    CanonOfCanonical(s.pt1z);
    CanonOfCanonical(s.pt2z);
    if s.pt1z == ZERO {
      return Projective(s.pt2x, s.pt2y, s.pt2z);
    } else if s.pt2z == ZERO {
      return Projective(s.pt1x, s.pt1y, s.pt1z);
    }
    MulCanon(s.pt2y, s.pt1z);
    MulCanon(s.pt1y, s.pt2z);
    MulCanon(s.pt2x, s.pt1z);
    MulCanon(s.pt1x, s.pt2z);
    MulCanon(s.pt1z, s.pt2z);

    s.pt2y := FQ2Mul(s.pt2y, s.pt1z);
    var pt3y := FQ2Mul(s.pt1y, s.pt2z);
    s.pt2x := FQ2Mul(s.pt2x, s.pt1z);
    var pt3z := FQ2Mul(s.pt1x, s.pt2z);

    if s.pt2x == pt3z {
      if s.pt2y == pt3y {
        pt3 := ECTwistDoubleJacobian(s.pt1x, s.pt1y, s.pt1z);
        CanonOfCanonicalPoint(pt3);
        return;
      }
      pt3 := Projective(ONE, ONE, ZERO);
      CanonOfCanonicalPoint(pt3);
      return;
    }

    s.pt2z := FQ2Mul(s.pt1z, s.pt2z);
    s.pt1x := FQ2Sub(s.pt2y, pt3y);
    s.pt1y := FQ2Sub(s.pt2x, pt3z);
    s.pt1z := FQ2Mul(s.pt1y, s.pt1y);
    s.pt2y := FQ2Mul(s.pt1z, pt3z);
    s.pt1z := FQ2Mul(s.pt1z, s.pt1y);
    pt3z := FQ2Mul(s.pt1z, s.pt2z);
    s.pt2x := FQ2Mul(s.pt1x, s.pt1x);
    s.pt2x := FQ2Mul(s.pt2x, s.pt2z);
    s.pt2x := FQ2Sub(s.pt2x, s.pt1z);
    MucIs(s.pt2y, 2);
    CanonOfCanonical(s.pt2y);
    s.pt2z := FQ2Muc(s.pt2y, 2);
    s.pt2x := FQ2Sub(s.pt2x, s.pt2z);
    var pt3x := FQ2Mul(s.pt1y, s.pt2x);
    s.pt1y := FQ2Sub(s.pt2y, s.pt2x);
    s.pt1y := FQ2Mul(s.pt1x, s.pt1y);
    s.pt1x := FQ2Mul(s.pt1z, pt3y);
    pt3y := FQ2Sub(s.pt1y, s.pt1x);
    pt3 := Projective(pt3x, pt3y, pt3z);
    CanonOfCanonicalPoint(pt3);
  }

  /** Double-and-add, for which the modulus has to be prime; with the group law it is repeated addition. Every
      turn keeps acc + d pt1, and the doubling runs once more than it needs to. */
  method ECTwistMulJacobian(s: uint256, x: Fq2, y: Fq2, z: Fq2) returns (pt2: Projective<Fq2>)
    ensures
      var p := ToAffine(TwistField, CanonPoint(Projective(x, y, z)));
      IsPrime(FIELD_MODULUS) && Canonical(z) ==>
        Canonical(pt2.Z) && ToAffine(TwistField, CanonPoint(pt2)) == Ladder(TwistField, Infinity, s, p)
    ensures
      var p := ToAffine(TwistField, CanonPoint(Projective(x, y, z)));
      GroupLaw() && Canonical(z) && OnCurve(TwistField, TWISTB, p) ==>
        ToAffine(TwistField, CanonPoint(pt2)) == Multiple(TwistField, s, p)
  {
    hide AffineAdd, AffineDouble, ToAffine, Multiple, ProjectiveAdd, ProjectiveDouble, Canon, OnCurve, Ladder;
    ghost var f, p := TwistField, ToAffine(TwistField, CanonPoint(Projective(x, y, z)));
    ghost var sound := IsPrime(FIELD_MODULUS) && Canonical(z);
    var d: nat, pt1x, pt1y, pt1z := s, x, y, z;
    pt2 := Projective(ZERO, ZERO, ZERO);
    ZeroZ(ZERO, ZERO);
    while d != 0
      invariant sound ==> Canonical(pt1z) && Canonical(pt2.Z)
      invariant sound ==>
        Ladder(f, ToAffine(f, CanonPoint(pt2)), d, ToAffine(f, CanonPoint(Projective(pt1x, pt1y, pt1z))))
        == Ladder(f, Infinity, s, p)
      decreases d
    {
      if sound { Turn(CanonPoint(pt2), d, CanonPoint(Projective(pt1x, pt1y, pt1z))); }
      if d % 2 != 0 {
        var args := new ECTwistAddJacobianArgs(pt2, Projective(pt1x, pt1y, pt1z));
        pt2 := ECTwistAddJacobian(args);
      }
      var dbl := ECTwistDoubleJacobian(pt1x, pt1y, pt1z);
      CanonOfCanonicalPoint(dbl);
      pt1x, pt1y, pt1z := dbl.X, dbl.Y, dbl.Z;
      d := d / 2;
    }
    LadderEnds(ToAffine(f, CanonPoint(pt2)), ToAffine(f, CanonPoint(Projective(pt1x, pt1y, pt1z))));
    LadderMultiplies(s, p);
  }

  lemma LadderEnds(acc: Affine<Fp2>, p: Affine<Fp2>)
    ensures Ladder(TwistField, acc, 0, p) == acc
  {
  }

  lemma LadderMultiplies(s: nat, p: Affine<Fp2>)
    ensures GroupLaw() && OnCurve(TwistField, TWISTB, p) ==>
              Ladder(TwistField, Infinity, s, p) == Multiple(TwistField, s, p)
  {
    hide Ladder, Multiple, AffineAdd;
    if GroupLaw() && OnCurve(TwistField, TWISTB, p) {
      TwistFieldLaws();
      LadderIsMultiple(TwistField, TWISTB, Infinity, s, p);
      AddInfinity(TwistField, Multiple(TwistField, s, p));
    }
  }

  /** One turn of the loop on projective points. */
  lemma Turn(acc: Projective<Fp2>, d: nat, p: Projective<Fp2>)
    requires IsPrime(FIELD_MODULUS) && d > 0
    ensures
      var f := TwistField;
      var acc' := if d % 2 == 1 then ProjectiveAdd(f, acc, p) else acc;
      Ladder(f, ToAffine(f, acc'), d / 2, ToAffine(f, ProjectiveDouble(f, p)))
      == Ladder(f, ToAffine(f, acc), d, ToAffine(f, p))
  {
    hide AffineAdd, AffineDouble, ToAffine, ProjectiveAdd, ProjectiveDouble;
    TwistFieldLaws();
    AddProjects(TwistField, acc, p);
    DoubleProjects(TwistField, p);
  }

  // ----- the entry points

  function FromJacobian(p: Projective<Fq2>): (Fp2, Fp2) {
    var inv := FQ2Inv(p.Z);
    (FQ2Mul(p.X, inv), FQ2Mul(p.Y, inv))
  }

  /** Infinity is written as four zero words. */
  function Encode(p: Affine<Fp2>): (Fp2, Fp2) {
    match p
    case Infinity => (ZERO, ZERO)
    case Point(x, y) => (x, y)
  }

  function Decode(x: Fq2, y: Fq2): Affine<Fp2> {
    if x == ZERO && y == ZERO then Infinity else Point(Canon(x), Canon(y))
  }

  lemma NormInverseCanon(a: Fq2)
    ensures NormInverse(a) == NormInverse(Canon(a))
  {
    hide ModInv;
    ModMul(a.x, a.x, FIELD_MODULUS);
    ModMul(a.y, a.y, FIELD_MODULUS);
  }

  lemma InverseCanon(a: Fq2)
    ensures Canon(FQ2Inv(a)) == Canon(FQ2Inv(Canon(a)))
  {
    hide NormInverse;
    NormInverseCanon(a);
    ModMulLeft(a.x, NormInverse(a), FIELD_MODULUS);
    ModMulLeft(a.y, NormInverse(a), FIELD_MODULUS);
  }

  /** The conversion is canonical: it depends only on the affine point, and sends Z = 0 to zeros. */
  lemma FromJacobianIs(p: Projective<Fq2>)
    requires IsPrime(FIELD_MODULUS)
    ensures FromJacobian(p) == Encode(ToAffine(TwistField, CanonPoint(p)))
  {
    hide FQ2Mul, FQ2Inv, Canon;
    var inv := FQ2Inv(p.Z);
    InverseCanon(p.Z);
    MulCanon(p.X, inv);
    MulCanon(p.Y, inv);
    if Canon(p.Z) == ZERO {
      InverseOfZero(p.Z);
      ModulusIsZero();
      TwistFieldLaws();
      MulZero(TwistField, Canon(p.X));
      MulZero(TwistField, Canon(p.Y));
    } else {
      assert TwistField.inv(Canon(p.Z)) == Canon(inv);
    }
  }

  lemma ModulusIsZero()
    ensures Canon(Fq2(0, FIELD_MODULUS)) == ZERO
  {
  }

  /** Two representatives of the same projective point convert to the same words. */
  lemma FromJacobianScaled(p: Projective<Fp2>, k: Fp2)
    requires IsPrime(FIELD_MODULUS) && k != ZERO
    ensures FromJacobian(Projective(FQ2Mul(k, p.X), FQ2Mul(k, p.Y), FQ2Mul(k, p.Z))) == FromJacobian(p)
  {
    hide FQ2Mul, FromJacobian, Encode, ToAffine;
    var q := Projective(FQ2Mul(k, p.X), FQ2Mul(k, p.Y), FQ2Mul(k, p.Z));
    TwistFieldLaws();
    ScalingInvariant(TwistField, p, k);
    CanonOfCanonicalPoint(p);
    CanonOfCanonicalPoint(q);
    FromJacobianIs(p);
    FromJacobianIs(q);
  }

  /** Four zero words are not a curve point, so the encoding of curve points loses nothing. */
  lemma DecodeEncode(p: Affine<Fp2>)
    requires IsPrime(FIELD_MODULUS) && OnCurve(TwistField, TWISTB, p)
    ensures Decode(Encode(p).0, Encode(p).1) == p
    ensures p != Infinity ==> IsOnCurve(Encode(p).0, Encode(p).1)
  {
    hide FQ2Mul, FQ2Add, IsOnCurve;
    if p.Point? {
      CanonOfCanonical(p.x);
      CanonOfCanonical(p.y);
      IsOnCurveMeans(p.x, p.y);
      if p.x == ZERO && p.y == ZERO {
        TwistFieldLaws();
        MulZero(TwistField, ZERO);
        SubSelf(TwistField, TWISTB);
        assert false;
      }
    }
  }

  datatype Outcome = Reverts | Returns(x: Fq2, y: Fq2)

  /** The checks every entry point makes of an operand. */
  predicate Accepted(x: Fq2, y: Fq2) {
    (x == ZERO && y == ZERO) || IsOnCurve(x, y)
  }

  lemma AcceptedIsOnCurve(x: Fq2, y: Fq2)
    requires IsPrime(FIELD_MODULUS) && Accepted(x, y)
    ensures OnCurve(TwistField, TWISTB, Decode(x, y))
  {
    hide IsOnCurve, Canon;
    if !(x == ZERO && y == ZERO) { IsOnCurveMeans(x, y); }
  }

  /** The words of the s-fold sum; from primality alone those of double-and-add. */
  method ECTwistMul(s: uint256, pt1xx: uint256, pt1xy: uint256, pt1yx: uint256, pt1yy: uint256)
    returns (r: Outcome)
    ensures
      var x, y := Fq2(pt1xx, pt1xy), Fq2(pt1yx, pt1yy);
      && (r == Reverts <==> !Accepted(x, y))
      && (r != Reverts ==> Canonical(r.x) && Canonical(r.y))
      && (IsPrime(FIELD_MODULUS) && r != Reverts ==>
            (r.x, r.y) == Encode(Ladder(TwistField, Infinity, s, Decode(x, y))))
      && (GroupLaw() && r != Reverts ==> (r.x, r.y) == Encode(Multiple(TwistField, s, Decode(x, y))))
  {
    hide IsOnCurve, Canon, Multiple, ToAffine, FromJacobian, OnCurve, Encode, Ladder;
    var x, y, z := Fq2(pt1xx, pt1xy), Fq2(pt1yx, pt1yy), ONE;
    if x == ZERO && y == ZERO {
      x, y, z := ONE, ONE, ZERO;
    } else if !IsOnCurve(x, y) {
      return Reverts;
    }
    ghost var p := Decode(Fq2(pt1xx, pt1xy), Fq2(pt1yx, pt1yy));
    if IsPrime(FIELD_MODULUS) {
      AcceptedIsOnCurve(Fq2(pt1xx, pt1xy), Fq2(pt1yx, pt1yy));
      if z == ONE { UnitZ(x, y); } else { ZeroZ(x, y); }
    }
    var pt2 := ECTwistMulJacobian(s, x, y, z);
    if IsPrime(FIELD_MODULUS) { FromJacobianIs(pt2); }
    FromJacobianCanonical(pt2);
    r := Returns(FromJacobian(pt2).0, FromJacobian(pt2).1);
  }

  lemma FromJacobianCanonical(p: Projective<Fq2>)
    ensures Canonical(FromJacobian(p).0) && Canonical(FromJacobian(p).1)
  {
  }

  lemma UnitZ(x: Fq2, y: Fq2)
    requires IsPrime(FIELD_MODULUS)
    ensures ToAffine(TwistField, CanonPoint(Projective(x, y, ONE))) == Point(Canon(x), Canon(y))
  {
    hide FQ2Mul, FQ2Add, FQ2Inv, Canon;
    TwistFieldLaws();
    CanonOfCanonical(ONE);
    var p := CanonPoint(Projective(x, y, ONE));
    assert UnaryLaws(TwistField, p.X) && UnaryLaws(TwistField, p.Y);
    MulComm(TwistField, ONE, p.X);
    MulComm(TwistField, ONE, p.Y);
    Projects(TwistField, p, p.X, p.Y);
  }

  lemma ZeroZ(x: Fq2, y: Fq2)
    ensures ToAffine(TwistField, CanonPoint(Projective(x, y, ZERO))) == Infinity
  {
    CanonOfCanonical(ZERO);
  }

  /** The words of an operand are passed through unreduced when the other operand is infinity;
      the result is below the modulus exactly when such a passed-through operand was. */
  method ECTwistAdd(pt1xx: uint256, pt1xy: uint256, pt1yx: uint256, pt1yy: uint256,
                    pt2xx: uint256, pt2xy: uint256, pt2yx: uint256, pt2yy: uint256)
    returns (r: Outcome)
    ensures
      var x1, y1 := Fq2(pt1xx, pt1xy), Fq2(pt1yx, pt1yy);
      var x2, y2 := Fq2(pt2xx, pt2xy), Fq2(pt2yx, pt2yy);
      && (r == Reverts <==> !Accepted(x1, y1) || !Accepted(x2, y2))
      && (r != Reverts ==>
            (Canonical(r.x) && Canonical(r.y) <==>
              && (Decode(x1, y1) == Infinity ==> Canonical(x2) && Canonical(y2))
              && (Decode(x2, y2) == Infinity ==> Canonical(x1) && Canonical(y1))))
      && (IsPrime(FIELD_MODULUS) && r != Reverts ==>
            && (Canon(r.x), Canon(r.y)) == Encode(AffineAdd(TwistField, Decode(x1, y1), Decode(x2, y2)))
            && IsSum(TwistField, Decode(x1, y1), Decode(x2, y2), Decode(Canon(r.x), Canon(r.y))))
  {
    hide IsOnCurve, AffineDouble, ToAffine, FromJacobian, OnCurve, FQ2Mul, FQ2Sub, ProjectiveAdd, ThirdOnLine;
    SumDecodes(Fq2(pt1xx, pt1xy), Fq2(pt1yx, pt1yy), Fq2(pt2xx, pt2xy), Fq2(pt2yx, pt2yy));
    var x1, y1 := Fq2(pt1xx, pt1xy), Fq2(pt1yx, pt1yy);
    var x2, y2 := Fq2(pt2xx, pt2xy), Fq2(pt2yx, pt2yy);
    CanonOfCanonical(ZERO);
    if x1 == ZERO && y1 == ZERO {
      if !(x2 == ZERO && y2 == ZERO) {
        if !IsOnCurve(x2, y2) { return Reverts; }
      }
      return Returns(x2, y2);
    } else if x2 == ZERO && y2 == ZERO {
      if !IsOnCurve(x1, y1) { return Reverts; }
      return Returns(x1, y1);
    }
    if !IsOnCurve(x1, y1) || !IsOnCurve(x2, y2) { return Reverts; }
    var args := new ECTwistAddJacobianArgs(Projective(x1, y1, ONE), Projective(x2, y2, ONE));
    var pt3 := ECTwistAddJacobian(args);
    FromJacobianCanonical(pt3);
    r := Returns(FromJacobian(pt3).0, FromJacobian(pt3).1);
    if IsPrime(FIELD_MODULUS) {
      FromJacobianIs(pt3);
      CanonOfCanonical(r.x);
      CanonOfCanonical(r.y);
      SumOfFinite(x1, y1, x2, y2);
    }
  }

  /** What is written for the sum of two accepted operands denotes it, and it is the sum on the curve. */
  lemma SumDecodes(x1: Fq2, y1: Fq2, x2: Fq2, y2: Fq2)
    ensures
      var sum := AffineAdd(TwistField, Decode(x1, y1), Decode(x2, y2));
      IsPrime(FIELD_MODULUS) && Accepted(x1, y1) && Accepted(x2, y2) ==>
        && IsSum(TwistField, Decode(x1, y1), Decode(x2, y2), sum)
        && Decode(Encode(sum).0, Encode(sum).1) == sum
  {
    hide Accepted, AffineAdd, IsSum, OnCurve, Encode, Decode;
    if IsPrime(FIELD_MODULUS) && Accepted(x1, y1) && Accepted(x2, y2) {
      var p, q := Decode(x1, y1), Decode(x2, y2);
      TwistFieldLaws();
      AcceptedIsOnCurve(x1, y1);
      AcceptedIsOnCurve(x2, y2);
      AddOnCurve(TwistField, TWISTB, p, q);
      DecodeEncode(AffineAdd(TwistField, p, q));
      AffineAddIsSum(TwistField, p, q, AffineAdd(TwistField, p, q));
    }
  }

  // ----- the generator of EIP-197, also with a word above the modulus

  const GENERATOR_X: Fq2 := Fq2(
    10857046999023057135944570762232829481370756359578518086990519993285655852781,
    11559732032986387107991004021392285783925812861821192530917403151452391805634)
  const GENERATOR_Y: Fq2 := Fq2(
    8495653923123431417604973247489272438418190587263600148770280649306958101930,
    4082367875863433681332203403145435568316851327593401208105741076214120093531)

  /** A product from its two quotients and remainders. */
  lemma ProductIs(a: Fq2, b: Fq2, k: int, l: int, r: Fq2)
    requires Canonical(r)
    requires a.x * b.x - a.y * b.y == k * FIELD_MODULUS + r.x && a.x * b.y + a.y * b.x == l * FIELD_MODULUS + r.y
    ensures FQ2Mul(a, b) == r
  {
    hide FQ2Mul;
    MulIs(a, b);
    ModUnique(a.x * b.x - a.y * b.y, k, r.x, FIELD_MODULUS);
    ModUnique(a.x * b.y + a.y * b.x, l, r.y, FIELD_MODULUS);
  }

  lemma GeneratorIsOnCurve()
    ensures IsOnCurve(GENERATOR_X, GENERATOR_Y)
  {
    hide FQ2Mul, FQ2Sub;
    var xx := Fq2(
      21740980388926906057426892996120422348616989628855161897682971020692097960281,
      1837384903404616869280368109057824469904033017901941306968221631236329083166);
    var xxx := Fq2(
      17325333118563567127851667797750321471171453547099705001540310225555311263340,
      18731819480823831763230454102224971938956392180592755584362846046169105903289);
    var yy := Fq2(
      14922964998483646676629501313514766888265760859103602404415903627362542533130,
      18998749271943822924477361489362255781501469145925655872932224557079413539979);
    ProductIs(GENERATOR_X, GENERATOR_X, -719652793862314264003180062754339384390891005191370485917012582332181624172,
              11467759629048686117894849069235246766403203637883258795037926137579317846074, xx);
    ProductIs(xx, GENERATOR_X, 9813632369684871093633712214989803915475791572887658100852785874047213526619,
              12393342091016911084624211557957971527515431206414711678262613052091343774217, xxx);
    ProductIs(GENERATOR_Y, GENERATOR_Y, 2536083340843168943765111218252959982070198762835983662926263033120061560823,
              3169042381637085631969340255475657347465997364048155542326807191678134711207, yy);
    SubIs(yy, xxx);
    ModUnique(yy.x - xxx.x, -1, TWISTBX, FIELD_MODULUS);
    ModUnique(yy.y - xxx.y, 0, TWISTBY, FIELD_MODULUS);
    SubIs(TWISTB, TWISTB);
    ModUnique(0, 0, 0, FIELD_MODULUS);
  }

  /** The guard sees only residues. */
  lemma GuardSeesResidues(x: Fq2, y: Fq2)
    ensures IsOnCurve(x, y) <==> IsOnCurve(Canon(x), Canon(y))
  {
    hide FQ2Mul, FQ2Sub, Canon;
    MulCanon(y, y);
    MulCanon(x, x);
    MulCanon(FQ2Mul(x, x), x);
    MulCanon(FQ2Mul(x, x), Canon(x));
    CanonOfCanonical(Canon(x));
  }

  /** An accepted operand that is not below the modulus: the generator with the modulus added to its first
      word. `ECTwistAdd` returns it as it is when the other operand is infinity. */
  lemma UnreducedOperandIsAccepted()
    ensures
      var x := Fq2(GENERATOR_X.x + FIELD_MODULUS, GENERATOR_X.y);
      && Accepted(x, GENERATOR_Y) && !Canonical(x) && Canon(x) == GENERATOR_X
      && 0 <= x.x < TWO_POW_256
  {
    hide IsOnCurve;
    var x := Fq2(GENERATOR_X.x + FIELD_MODULUS, GENERATOR_X.y);
    ModUnique(x.x, 1, GENERATOR_X.x, FIELD_MODULUS);
    ModUnique(x.y, 0, GENERATOR_X.y, FIELD_MODULUS);
    CanonOfCanonical(GENERATOR_Y);
    GuardSeesResidues(x, GENERATOR_Y);
    GeneratorIsOnCurve();
  }

  const DOUBLE_X: Fq2 := Fq2(
    18029695676650738226693292988307914797657423701064905010927197838374790804409,
    14583779054894525174450323658765874724019480979794335525732096752006891875705)
  const DOUBLE_Y: Fq2 := Fq2(
    2140229616977736810657479771656733941598412651537078903776637920509952744750,
    11474861747383700316476719153975578001603231366361248090558603872215261634898)

  /** The direction of the tangent at the generator, (2y, 3x^2). */
  const TANGENT_DX: Fq2 := Fq2(
    16991307846246862835209946494978544876836381174527200297540561298613916203860,
    8164735751726867362664406806290871136633702655186802416211482152428240187062)
  const TANGENT_DY: Fq2 := Fq2(
    21446455423102167727787867497846716868458346571969838367670837272785841463677,
    5512154710213850607841104327173473409712099053705823920904664893708987249498)

  /** 2G, checked on the tangent at G. */
  lemma DoubleOfGenerator()
    requires IsPrime(FIELD_MODULUS)
    ensures AffineAdd(TwistField, Point(GENERATOR_X, GENERATOR_Y), Point(GENERATOR_X, GENERATOR_Y))
            == Point(DOUBLE_X, DOUBLE_Y)
  {
    hide AffineAdd, FQ2Mul, FQ2Add, FQ2Sub;
    var g, r := Point(GENERATOR_X, GENERATOR_Y), Point(DOUBLE_X, DOUBLE_Y);
    var xx := Fq2(
      21740980388926906057426892996120422348616989628855161897682971020692097960281,
      1837384903404616869280368109057824469904033017901941306968221631236329083166);
    TwistFieldLaws();
    ProductIs(GENERATOR_X, GENERATOR_X, -719652793862314264003180062754339384390891005191370485917012582332181624172,
              11467759629048686117894849069235246766403203637883258795037926137579317846074, xx);
    SumIs(GENERATOR_Y, GENERATOR_Y, 0, 0, TANGENT_DX);
    SumIs(xx, xx, 1, 0, Fq2(21593717906014536892607380246983569608537668100412500132676904146738969711979,
                            3674769806809233738560736218115648939808066035803882613936443262472658166332));
    SumIs(Fq2(21593717906014536892607380246983569608537668100412500132676904146738969711979,
              3674769806809233738560736218115648939808066035803882613936443262472658166332), xx, 1, 0, TANGENT_DY);
    // the line
    var ny := Fq2(
      19748013254861538411588925973600541147097898505760744758912399974135273463833,
      10413381124455574905769686591281697087093079790936575572130434022429964573685);
    var rise := Fq2(
      11252359331738106993983952726111268708679707918497144610142119324828315361903,
      6331013248592141224437483188136261518776228463343174364024692946215844480154);
    var run := Fq2(
      7172648677627681090748722226075085316286667341486386923936677845089134951628,
      3024047021908138066459319637373588940093668117973142994814693600554500070071);
    var line := Fq2(
      7403856958996734766872485136620845815761085365434061027710565380723782521855,
      3427593990937337748317232610063116574774003276867341970069381010936153924102);
    DifferenceIs(ZERO, DOUBLE_Y, -1, -1, ny);
    DifferenceIs(ny, GENERATOR_Y, 0, 0, rise);
    DifferenceIs(DOUBLE_X, GENERATOR_X, 0, 0, run);
    ProductIs(TANGENT_DX, rise, 6373341706939482678136710236500691252266447488613883821928248665550843795719,
              9111957354476150146392567782777509717203358172353194120132577962924676063028, line);
    ProductIs(TANGENT_DY, run, 6266326442816474625324613491037579383670454824721070797770695860957552305921,
              4769311061516023877336435337243744993953169234431277525823611919754930458123, line);
    // the abscissas
    var dxdx := Fq2(
      15915374250256036262025193763544517375670421121818762292285538720159717715354,
      10330268472257466031170228721677197859916943111809152503661784544381975534167);
    var slope := Fq2(
      98845505365633139712841510767895917765605452594342736830107889939989956040,
      5206416286118973007204791305855211162906334383586890733315265036194276965520);
    var sum2 := Fq2(
      6998499803834520140391458005283469190331868903345599435228679937015220448607,
      4255268216041637060194921934900885419248982684317704393960462008814057472756);
    var sum := Fq2(
      17855546802857577276336028767516298671702625262924117522219199930300876301388,
      15815000249028024168185925956293171203174795546138896924877865160266449278390);
    SumIs(DOUBLE_X, GENERATOR_X, 1, 1, sum2);
    SumIs(sum2, GENERATOR_X, 0, 0, sum);
    ProductIs(TANGENT_DX, TANGENT_DX, 10144333363372675775060444873011839928280795051343934651705052132480246243294,
              12676169526548342527877361021902629389863989456192622169307228766712538844831, dxdx);
    ProductIs(dxdx, sum, 5519150717419445832495531811011019928338060760114809044386763034819064752954,
              19926416317537894714302500709577192257218020607527501257293906841442507868992, slope);
    ProductIs(TANGENT_DY, TANGENT_DY, 19625449296272315996177808310945767125518887820718246088909427104985210214395,
              10801797199531006045328063503448591802664325352974665270023380287801543004684, slope);
    assert ThirdOnLine(TwistField, TANGENT_DX, TANGENT_DY, g.x, g.y, g.x, r);
    AffineAddIsSum(TwistField, g, g, r);
  }

  lemma SumIs(a: Fq2, b: Fq2, k: int, l: int, r: Fq2)
    requires Canonical(r)
    requires a.x + b.x == k * FIELD_MODULUS + r.x && a.y + b.y == l * FIELD_MODULUS + r.y
    ensures FQ2Add(a, b) == r
  {
    AddIs(a, b);
    ModUnique(a.x + b.x, k, r.x, FIELD_MODULUS);
    ModUnique(a.y + b.y, l, r.y, FIELD_MODULUS);
  }

  lemma DifferenceIs(a: Fq2, b: Fq2, k: int, l: int, r: Fq2)
    requires Canonical(r) && 0 <= b.x <= FIELD_MODULUS && 0 <= b.y <= FIELD_MODULUS
    requires a.x - b.x == k * FIELD_MODULUS + r.x && a.y - b.y == l * FIELD_MODULUS + r.y
    ensures FQ2Sub(a, b) == r
  {
    SubIs(a, b);
    ModUnique(a.x - b.x, k, r.x, FIELD_MODULUS);
    ModUnique(a.y - b.y, l, r.y, FIELD_MODULUS);
  }

  /** Both entry points give 2G for the generator. */
  method DoublesGenerator() returns (sum: Outcome, multiple: Outcome)
    ensures IsPrime(FIELD_MODULUS) ==> sum == multiple == Returns(DOUBLE_X, DOUBLE_Y)
  {
    hide Accepted, AffineAdd, IsSum, IsPrime, Ladder, IsOnCurve;
    GeneratorIsAccepted();
    if IsPrime(FIELD_MODULUS) {
      DoubleOfGenerator();
      SmallLadders(TwistField, Point(GENERATOR_X, GENERATOR_Y));
    }
    sum := ECTwistAdd(GENERATOR_X.x, GENERATOR_X.y, GENERATOR_Y.x, GENERATOR_Y.y,
                      GENERATOR_X.x, GENERATOR_X.y, GENERATOR_Y.x, GENERATOR_Y.y);
    multiple := ECTwistMul(2, GENERATOR_X.x, GENERATOR_X.y, GENERATOR_Y.x, GENERATOR_Y.y);
    assert sum != Reverts && multiple != Reverts;
    CanonOfCanonical(sum.x);
    CanonOfCanonical(sum.y);
  }

  lemma GeneratorIsAccepted()
    ensures Accepted(GENERATOR_X, GENERATOR_Y) && Decode(GENERATOR_X, GENERATOR_Y) == Point(GENERATOR_X, GENERATOR_Y)
  {
    hide IsOnCurve;
    GeneratorIsOnCurve();
    CanonOfCanonical(GENERATOR_X);
    CanonOfCanonical(GENERATOR_Y);
  }

  lemma ZeroWordsAreAccepted()
    ensures Accepted(Fq2(0, 0), Fq2(0, 0)) && Decode(Fq2(0, 0), Fq2(0, 0)) == Infinity
  {
  }

  /** What the contract returns for it is not below the modulus. */
  method AddsUnreducedOperand() returns (r: Outcome)
    ensures r != Reverts && !(Canonical(r.x) && Canonical(r.y))
  {
    hide Accepted, Canon, Encode, AffineAdd, Decode, IsPrime, Canonical;
    UnreducedOperandIsAccepted();
    ZeroWordsAreAccepted();
    r := ECTwistAdd(GENERATOR_X.x + FIELD_MODULUS, GENERATOR_X.y, GENERATOR_Y.x, GENERATOR_Y.y, 0, 0, 0, 0);
  }

  lemma SumOfFinite(x1: Fq2, y1: Fq2, x2: Fq2, y2: Fq2)
    requires IsPrime(FIELD_MODULUS)
    ensures ToAffine(TwistField, ProjectiveAdd(TwistField, CanonPoint(Projective(x1, y1, ONE)),
                                               CanonPoint(Projective(x2, y2, ONE))))
         == AffineAdd(TwistField, Point(Canon(x1), Canon(y1)), Point(Canon(x2), Canon(y2)))
  {
    hide AffineAdd, ProjectiveAdd, ToAffine, Canon;
    TwistFieldLaws();
    UnitZ(x1, y1);
    UnitZ(x2, y2);
    AddProjects(TwistField, CanonPoint(Projective(x1, y1, ONE)), CanonPoint(Projective(x2, y2, ONE)));
  }

  /** Keys add up: the s-fold and t-fold multiples of an accepted point sum to its (s+t)-fold multiple,
      and every multiple is accepted again as an operand. */
  lemma MultiplesAddUp(s: nat, t: nat, x: Fq2, y: Fq2)
    requires GroupLaw() && Accepted(x, y)
    ensures
      var p := Decode(x, y);
      && AffineAdd(TwistField, Multiple(TwistField, s, p), Multiple(TwistField, t, p)) == Multiple(TwistField, s + t, p)
      && Accepted(Encode(Multiple(TwistField, s, p)).0, Encode(Multiple(TwistField, s, p)).1)
      && Decode(Encode(Multiple(TwistField, s, p)).0, Encode(Multiple(TwistField, s, p)).1)
          == Multiple(TwistField, s, p)
  {
    hide AffineAdd, Multiple, IsOnCurve, OnCurve;
    TwistFieldLaws();
    AcceptedIsOnCurve(x, y);
    MultipleAdd(TwistField, TWISTB, s, t, Decode(x, y));
    MultipleOnCurve(TwistField, TWISTB, s, Decode(x, y));
    DecodeEncode(Multiple(TwistField, s, Decode(x, y)));
  }
}
