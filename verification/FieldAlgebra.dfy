/** Consequences of the field laws, proved once for any field whose characteristic is not 2.

    A law is used only where a proof names the operands it wants, through one of the three
    predicates `UnaryLaws`, `BinaryLaws` and `TernaryLaws`. */
module FieldAlgebra {

  datatype Field<!T> = Field(zero: T, one: T, add: (T, T) -> T, sub: (T, T) -> T, mul: (T, T) -> T, inv: T -> T)

  ghost predicate UnaryLaws<T>(f: Field<T>, a: T) {
    && f.add(a, f.zero) == a
    && f.mul(a, f.one) == a
    && (a != f.zero ==> f.mul(a, f.inv(a)) == f.one)
  }

  ghost predicate BinaryLaws<T>(f: Field<T>, a: T, b: T) {
    && f.add(a, b) == f.add(b, a)
    && f.mul(a, b) == f.mul(b, a)
    && f.sub(f.add(a, b), b) == a
    && f.add(f.sub(a, b), b) == a
  }

  ghost predicate TernaryLaws<T>(f: Field<T>, a: T, b: T, c: T) {
    && f.add(f.add(a, b), c) == f.add(a, f.add(b, c))
    && f.mul(f.mul(a, b), c) == f.mul(a, f.mul(b, c))
    && f.mul(a, f.add(b, c)) == f.add(f.mul(a, b), f.mul(a, c))
  }

  ghost predicate Laws<T(!new)>(f: Field<T>) {
    && (forall a :: UnaryLaws(f, a))
    && (forall a, b :: BinaryLaws(f, a, b))
    && (forall a, b, c :: TernaryLaws(f, a, b, c))
    && f.one != f.zero
    && f.add(f.one, f.one) != f.zero
  }

  // ----- the laws as lemmas

  lemma AddComm<T(!new)>(f: Field<T>, a: T, b: T)
    requires Laws(f)
    ensures f.add(a, b) == f.add(b, a)
  { assert BinaryLaws(f, a, b); }

  lemma AddAssoc<T(!new)>(f: Field<T>, a: T, b: T, c: T)
    requires Laws(f)
    ensures f.add(f.add(a, b), c) == f.add(a, f.add(b, c))
  { assert TernaryLaws(f, a, b, c); }

  lemma MulComm<T(!new)>(f: Field<T>, a: T, b: T)
    requires Laws(f)
    ensures f.mul(a, b) == f.mul(b, a)
  { assert BinaryLaws(f, a, b); }

  lemma MulAssoc<T(!new)>(f: Field<T>, a: T, b: T, c: T)
    requires Laws(f)
    ensures f.mul(f.mul(a, b), c) == f.mul(a, f.mul(b, c))
  { assert TernaryLaws(f, a, b, c); }

  lemma MulAdd<T(!new)>(f: Field<T>, a: T, b: T, c: T)
    requires Laws(f)
    ensures f.mul(a, f.add(b, c)) == f.add(f.mul(a, b), f.mul(a, c))
  { assert TernaryLaws(f, a, b, c); }

  lemma SubAdd<T(!new)>(f: Field<T>, a: T, b: T)
    requires Laws(f)
    ensures f.sub(f.add(a, b), b) == a && f.add(f.sub(a, b), b) == a
  { assert BinaryLaws(f, a, b); }

  // ----- addition and subtraction

  lemma SubSelf<T(!new)>(f: Field<T>, a: T)
    requires Laws(f)
    ensures f.sub(a, a) == f.zero && f.add(f.zero, a) == a && f.sub(a, f.zero) == a
  {
    assert UnaryLaws(f, a);
    AddComm(f, a, f.zero);
    SubAdd(f, f.zero, a);
    SubAdd(f, a, f.zero);
  }

  lemma SubIsZero<T(!new)>(f: Field<T>, a: T, b: T)
    requires Laws(f)
    ensures f.sub(a, b) == f.zero <==> a == b
  {
    SubAdd(f, a, b);
    SubSelf(f, a);
    SubSelf(f, b);
  }

  lemma SubSub<T(!new)>(f: Field<T>, a: T, b: T, c: T)
    requires Laws(f)
    ensures f.sub(f.sub(a, b), c) == f.sub(a, f.add(b, c))
  {
    var d := f.sub(a, f.add(b, c));
    SubAdd(f, a, f.add(b, c));
    AddComm(f, b, c);
    AddAssoc(f, d, c, b);
    SubAdd(f, f.add(d, c), b);
    SubAdd(f, d, c);
  }

  /** (a + b) - c == a + (b - c) */
  lemma AddSub<T(!new)>(f: Field<T>, a: T, b: T, c: T)
    requires Laws(f)
    ensures f.sub(f.add(a, b), c) == f.add(a, f.sub(b, c))
  {
    SubAdd(f, b, c);
    AddAssoc(f, a, f.sub(b, c), c);
    SubAdd(f, f.add(a, f.sub(b, c)), c);
  }

  lemma AddSwap<T(!new)>(f: Field<T>, a: T, b: T, c: T, d: T)
    requires Laws(f)
    ensures f.add(f.add(a, b), f.add(c, d)) == f.add(f.add(a, c), f.add(b, d))
  {
    AddAssoc(f, a, b, f.add(c, d));
    AddAssoc(f, b, c, d);
    AddComm(f, b, c);
    AddAssoc(f, c, b, d);
    AddAssoc(f, a, c, f.add(b, d));
  }

  // ----- multiplication

  lemma MulSub<T(!new)>(f: Field<T>, a: T, b: T, c: T)
    requires Laws(f)
    ensures f.mul(a, f.sub(b, c)) == f.sub(f.mul(a, b), f.mul(a, c))
  {
    SubAdd(f, b, c);
    MulAdd(f, a, f.sub(b, c), c);
    SubAdd(f, f.mul(a, f.sub(b, c)), f.mul(a, c));
  }

  lemma MulZero<T(!new)>(f: Field<T>, a: T)
    requires Laws(f)
    ensures f.mul(a, f.zero) == f.zero && f.mul(f.zero, a) == f.zero
  {
    SubSelf(f, f.zero);
    MulSub(f, a, f.zero, f.zero);
    SubSelf(f, f.mul(a, f.zero));
    MulComm(f, a, f.zero);
  }

  lemma MulSwap<T(!new)>(f: Field<T>, a: T, b: T, c: T, d: T)
    requires Laws(f)
    ensures f.mul(f.mul(a, b), f.mul(c, d)) == f.mul(f.mul(a, c), f.mul(b, d))
  {
    MulAssoc(f, a, b, f.mul(c, d));
    MulAssoc(f, b, c, d);
    MulComm(f, b, c);
    MulAssoc(f, c, b, d);
    MulAssoc(f, a, c, f.mul(b, d));
  }

  /** (a b) c == (a c) b */
  lemma MulRight<T(!new)>(f: Field<T>, a: T, b: T, c: T)
    requires Laws(f)
    ensures f.mul(f.mul(a, b), c) == f.mul(f.mul(a, c), b)
  {
    MulAssoc(f, a, b, c);
    MulComm(f, b, c);
    MulAssoc(f, a, c, b);
  }

  lemma NoZeroDivisors<T(!new)>(f: Field<T>, a: T, b: T)
    requires Laws(f)
    ensures f.mul(a, b) == f.zero <==> a == f.zero || b == f.zero
  {
    MulZero(f, a);
    MulZero(f, b);
    if f.mul(a, b) == f.zero && a != f.zero {
      assert UnaryLaws(f, a) && UnaryLaws(f, b);
      MulComm(f, a, f.inv(a));
      MulAssoc(f, f.inv(a), a, b);
      MulZero(f, f.inv(a));
      MulComm(f, f.one, b);
    }
  }

  lemma Cancel<T(!new)>(f: Field<T>, c: T, a: T, b: T)
    requires Laws(f) && c != f.zero
    ensures f.mul(c, a) == f.mul(c, b) <==> a == b
  {
    MulSub(f, c, a, b);
    SubIsZero(f, f.mul(c, a), f.mul(c, b));
    SubIsZero(f, a, b);
    NoZeroDivisors(f, c, f.sub(a, b));
  }

  function Div<T>(f: Field<T>, a: T, b: T): T { f.mul(a, f.inv(b)) }

  /** A quotient is the only solution of b q = a. */
  lemma Quotient<T(!new)>(f: Field<T>, a: T, b: T, q: T)
    requires Laws(f) && b != f.zero
    ensures q == Div(f, a, b) <==> f.mul(b, q) == a
  {
    assert UnaryLaws(f, a) && UnaryLaws(f, b);
    MulAssoc(f, a, f.inv(b), b);
    MulComm(f, f.inv(b), b);
    MulComm(f, b, Div(f, a, b));
    Cancel(f, b, q, Div(f, a, b));
  }

  // ----- the constants 2, 3, 4 and 8

  function Num<T>(f: Field<T>, n: nat): T {
    if n == 0 then f.zero else f.add(f.one, Num(f, n - 1))
  }

  lemma {:induction false} NumAdd<T(!new)>(f: Field<T>, m: nat, n: nat)
    requires Laws(f)
    ensures Num(f, m + n) == f.add(Num(f, m), Num(f, n))
  {
    if m == 0 {
      SubSelf(f, Num(f, n));
    } else {
      NumAdd(f, m - 1, n);
      AddAssoc(f, f.one, Num(f, m - 1), Num(f, n));
    }
  }

  lemma NumTwo<T(!new)>(f: Field<T>, a: T)
    requires Laws(f)
    ensures f.mul(Num(f, 2), a) == f.add(a, a)
    ensures Num(f, 2) != f.zero
  {
    NumOne(f, a);
    NumAdd(f, 1, 1);
    MulComm(f, Num(f, 2), a);
    MulAdd(f, a, Num(f, 1), Num(f, 1));
    MulComm(f, Num(f, 1), a);
  }

  lemma NumOne<T(!new)>(f: Field<T>, a: T)
    requires Laws(f)
    ensures Num(f, 1) == f.one && f.mul(Num(f, 1), a) == a
  {
    assert UnaryLaws(f, f.one) && UnaryLaws(f, a);
    assert Num(f, 1) == f.add(f.one, Num(f, 0));
    MulComm(f, f.one, a);
  }

  lemma NumThree<T(!new)>(f: Field<T>, a: T)
    requires Laws(f)
    ensures f.mul(Num(f, 3), a) == f.add(f.add(a, a), a)
  {
    NumAdd(f, 2, 1);
    NumTwo(f, a);
    NumOne(f, a);
    MulComm(f, Num(f, 3), a);
    MulAdd(f, a, Num(f, 2), Num(f, 1));
    MulComm(f, Num(f, 2), a);
    MulComm(f, Num(f, 1), a);
  }

  lemma NumFourEight<T(!new)>(f: Field<T>)
    requires Laws(f)
    ensures Num(f, 4) == f.mul(Num(f, 2), Num(f, 2)) && Num(f, 8) == f.mul(Num(f, 2), Num(f, 4))
    ensures Num(f, 8) != f.zero
  {
    NumAdd(f, 2, 2);
    NumAdd(f, 4, 4);
    NumTwo(f, Num(f, 2));
    NumTwo(f, Num(f, 4));
    NoZeroDivisors(f, Num(f, 2), Num(f, 2));
    NoZeroDivisors(f, Num(f, 2), Num(f, 4));
  }
}
