/** The chord-and-tangent law by its geometry: which point is the sum of two others, in equations without
    division, and the proof that `AffineAdd` gives that point and no other. */
module ChordAndTangent {
  import opened FieldAlgebra
  import opened CurveLaw

  /** (x, y) lies on the line through (x1, y1) in the direction (dx, dy). */
  ghost predicate OnLine<T>(f: Field<T>, dx: T, dy: T, x1: T, y1: T, x: T, y: T) {
    f.mul(dx, f.sub(y, y1)) == f.mul(dy, f.sub(x, x1))
  }

  /** The opposite of r lies on the line through (x1, y1) in the direction (dx, dy), and r.x is the third
      abscissa of that line besides x1 and x2: the three add up to the square of the slope. */
  ghost predicate ThirdOnLine<T>(f: Field<T>, dx: T, dy: T, x1: T, y1: T, x2: T, r: Affine<T>) {
    && r.Point?
    && OnLine(f, dx, dy, x1, y1, r.x, f.sub(f.zero, r.y))
    && f.mul(f.mul(dx, dx), f.add(f.add(r.x, x2), x1)) == f.mul(dy, dy)
  }

  /** r is the sum of p and q: on the chord through two points with different abscissas, on the tangent, of
      direction (2y, 3x^2), at a point that is added to itself, and infinity for opposite points. */
  ghost predicate IsSum<T>(f: Field<T>, p: Affine<T>, q: Affine<T>, r: Affine<T>) {
    if p.Infinity? then r == q
    else if q.Infinity? then r == p
    else if p.x != q.x then ThirdOnLine(f, f.sub(q.x, p.x), f.sub(q.y, p.y), p.x, p.y, q.x, r)
    else if p.y == q.y && p.y != f.zero then
      var xx := f.mul(p.x, p.x);
      ThirdOnLine(f, f.add(p.y, p.y), f.add(f.add(xx, xx), xx), p.x, p.y, p.x, r)
    else r == Infinity
  }

  // r.x == l^2 - x1 - x2 exactly when the three abscissas add up to l^2
  lemma AbscissaIs<T(!new)>(f: Field<T>, ll: T, x1: T, x2: T, x: T)
    requires Laws(f)
    ensures x == f.sub(f.sub(ll, x1), x2) <==> f.add(f.add(x, x2), x1) == ll
  {
    SubAdd(f, f.sub(ll, x1), x2);
    SubAdd(f, ll, x1);
    SubAdd(f, x, x2);
    SubAdd(f, f.add(x, x2), x1);
  }

  // -y - y1 == l (x - x1) exactly when y == l (x1 - x) - y1
  lemma OrdinateIs<T(!new)>(f: Field<T>, l: T, x1: T, y1: T, x: T, y: T)
    requires Laws(f)
    ensures y == f.sub(f.mul(l, f.sub(x1, x)), y1) <==> f.sub(f.sub(f.zero, y), y1) == f.mul(l, f.sub(x, x1))
  {
    var u, v, w := f.mul(l, f.sub(x1, x)), f.mul(l, f.sub(x, x1)), f.add(y, y1);
    // u + v == 0
    MulAdd(f, l, f.sub(x1, x), f.sub(x, x1));
    Telescope(f, x1, x, x1);
    SubSelf(f, x1);
    MulZero(f, l);
    // v == 0 - u, and -y - y1 == 0 - w
    AddComm(f, u, v);
    SubAdd(f, v, u);
    SubSub(f, f.zero, y, y1);
    NegationUnique(f, u, w);
    SubAdd(f, u, y1);
    SubAdd(f, y, y1);
  }

  lemma NegationUnique<T(!new)>(f: Field<T>, a: T, b: T)
    requires Laws(f)
    ensures f.sub(f.zero, a) == f.sub(f.zero, b) <==> a == b
  {
    var n := f.sub(f.zero, a);
    SubAdd(f, f.zero, a);
    SubAdd(f, f.zero, b);
    if n == f.sub(f.zero, b) {
      AddComm(f, n, a);
      AddComm(f, n, b);
      SubAdd(f, a, n);
      SubAdd(f, b, n);
    }
  }

  /** The point that the law reflects is the only one that lies third on the line. */
  lemma ReflectedIsThird<T(!new)>(f: Field<T>, dx: T, dy: T, x1: T, y1: T, x2: T, r: Affine<T>)
    requires Laws(f) && dx != f.zero
    ensures r == Reflected(f, Div(f, dy, dx), x1, y1, x2) <==> ThirdOnLine(f, dx, dy, x1, y1, x2, r)
  {
    var l := Div(f, dy, dx);
    Quotient(f, dy, dx, l);
    if r.Point? {
      var s, m := f.add(f.add(r.x, x2), x1), f.sub(r.x, x1);
      // dx^2 s == dy^2 == dx^2 l^2
      MulSwap(f, dx, l, dx, l);
      NoZeroDivisors(f, dx, dx);
      Cancel(f, f.mul(dx, dx), s, f.mul(l, l));
      AbscissaIs(f, f.mul(l, l), x1, x2, r.x);
      // dy (x - x1) == dx (l (x - x1))
      MulAssoc(f, dx, l, m);
      Cancel(f, dx, f.sub(f.sub(f.zero, r.y), y1), f.mul(l, m));
      OrdinateIs(f, l, x1, y1, r.x, r.y);
    }
  }

  /** `AffineAdd` gives the sum, and nothing else is the sum. */
  lemma AffineAddIsSum<T(!new)>(f: Field<T>, p: Affine<T>, q: Affine<T>, r: Affine<T>)
    requires Laws(f)
    ensures AffineAdd(f, p, q) == r <==> IsSum(f, p, q, r)
  {
    hide Reflected, ThirdOnLine;
    if p.Point? && q.Point? {
      if p.x != q.x {
        SubIsZero(f, q.x, p.x);
        ReflectedIsThird(f, f.sub(q.x, p.x), f.sub(q.y, p.y), p.x, p.y, q.x, r);
      } else if p.y == q.y && p.y != f.zero {
        NumTwo(f, p.y);
        NoZeroDivisors(f, Num(f, 2), p.y);
        ReflectedIsThird(f, f.add(p.y, p.y), ThreeSquares(f, p.x), p.x, p.y, p.x, r);
      }
    }
  }
}
