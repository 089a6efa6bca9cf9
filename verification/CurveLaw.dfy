/** The curve y^2 = x^3 + b over any field of characteristic other than 2: the textbook
    chord-and-tangent law on affine points, and the homogeneous projective formulas
    (x = X/Z, y = Y/Z) that `BN254G2` evaluates, proved to compute that law in every branch. */
module CurveLaw {
  import opened FieldAlgebra

  datatype Affine<+T> = Infinity | Point(x: T, y: T)

  datatype Projective<+T> = Projective(X: T, Y: T, Z: T)

  ghost predicate OnCurve<T>(f: Field<T>, b: T, p: Affine<T>) {
    match p
    case Infinity => true
    case Point(x, y) => f.mul(y, y) == f.add(f.mul(f.mul(x, x), x), b)
  }

  // ----- the textbook law

  /** The reflection of the third point on the line of slope l through (x1, y1) and x2. */
  function Reflected<T>(f: Field<T>, l: T, x1: T, y1: T, x2: T): Affine<T> {
    var x3 := f.sub(f.sub(f.mul(l, l), x1), x2);
    Point(x3, f.sub(f.mul(l, f.sub(x1, x3)), y1))
  }

  function ThreeSquares<T>(f: Field<T>, x: T): T {
    f.add(f.add(f.mul(x, x), f.mul(x, x)), f.mul(x, x))
  }

  function AffineDouble<T(==)>(f: Field<T>, p: Affine<T>): Affine<T> {
    match p
    case Infinity => Infinity
    case Point(x, y) =>
      if y == f.zero then Infinity
      else Reflected(f, Div(f, ThreeSquares(f, x), f.add(y, y)), x, y, x)
  }

  function AffineAdd<T(==)>(f: Field<T>, p: Affine<T>, q: Affine<T>): Affine<T> {
    if p.Infinity? then q
    else if q.Infinity? then p
    else if p.x != q.x then Reflected(f, Div(f, f.sub(q.y, p.y), f.sub(q.x, p.x)), p.x, p.y, q.x)
    else if p.y == q.y then AffineDouble(f, p)
    else Infinity
  }

  // ----- the projective formulas

  function ProjectiveDouble<T>(f: Field<T>, p: Projective<T>): Projective<T> {
    var w := f.mul(f.mul(Num(f, 3), p.X), p.X);
    var s := f.mul(p.Y, p.Z);
    var b := f.mul(f.mul(p.X, p.Y), s);
    var h := f.sub(f.mul(w, w), f.mul(Num(f, 8), b));
    var ss := f.mul(s, s);
    Projective(
      f.mul(f.mul(Num(f, 2), h), s),
      f.sub(f.mul(f.sub(f.mul(Num(f, 4), b), h), w), f.mul(f.mul(f.mul(Num(f, 8), p.Y), p.Y), ss)),
      f.mul(Num(f, 8), f.mul(s, ss)))
  }

  /** The generic branch: finite operands with different x. */
  function ProjectiveChord<T>(f: Field<T>, p: Projective<T>, q: Projective<T>): Projective<T> {
    var u2 := f.mul(p.Y, q.Z);
    var v2 := f.mul(p.X, q.Z);
    var w := f.mul(p.Z, q.Z);
    var u := f.sub(f.mul(q.Y, p.Z), u2);
    var v := f.sub(f.mul(q.X, p.Z), v2);
    var vv := f.mul(v, v);
    var vvv2 := f.mul(vv, v2);
    var vvv := f.mul(vv, v);
    var a := f.sub(f.sub(f.mul(f.mul(u, u), w), vvv), f.mul(Num(f, 2), vvv2));
    Projective(
      f.mul(v, a),
      f.sub(f.mul(u, f.sub(vvv2, a)), f.mul(vvv, u2)),
      f.mul(vvv, w))
  }

  function ProjectiveAdd<T(==)>(f: Field<T>, p: Projective<T>, q: Projective<T>): Projective<T> {
    if p.Z == f.zero then q
    else if q.Z == f.zero then p
    else if f.mul(q.X, p.Z) != f.mul(p.X, q.Z) then ProjectiveChord(f, p, q)
    else if f.mul(q.Y, p.Z) == f.mul(p.Y, q.Z) then ProjectiveDouble(f, p)
    else Projective(f.one, f.one, f.zero)
  }

  function ToAffine<T(==)>(f: Field<T>, p: Projective<T>): Affine<T> {
    if p.Z == f.zero then Infinity else Point(Div(f, p.X, p.Z), Div(f, p.Y, p.Z))
  }

  // ----- projecting to affine coordinates

  lemma Projects<T(!new)>(f: Field<T>, p: Projective<T>, x: T, y: T)
    requires Laws(f) && p.Z != f.zero
    ensures ToAffine(f, p) == Point(x, y) <==> p.X == f.mul(p.Z, x) && p.Y == f.mul(p.Z, y)
  {
    Quotient(f, p.X, p.Z, x);
    Quotient(f, p.Y, p.Z, y);
  }

  /** Scaling all three coordinates does not change the affine point. */
  lemma ScalingInvariant<T(!new)>(f: Field<T>, p: Projective<T>, k: T)
    requires Laws(f) && k != f.zero
    ensures ToAffine(f, Projective(f.mul(k, p.X), f.mul(k, p.Y), f.mul(k, p.Z))) == ToAffine(f, p)
  {
    NoZeroDivisors(f, k, p.Z);
    if p.Z != f.zero {
      var x, y := Div(f, p.X, p.Z), Div(f, p.Y, p.Z);
      Projects(f, p, x, y);
      MulAssoc(f, k, p.Z, x);
      MulAssoc(f, k, p.Z, y);
      Projects(f, Projective(f.mul(k, p.X), f.mul(k, p.Y), f.mul(k, p.Z)), x, y);
    }
  }

  // a (x w) == (a w) x
  lemma Factor<T(!new)>(f: Field<T>, a: T, x: T, w: T)
    requires Laws(f)
    ensures f.mul(a, f.mul(x, w)) == f.mul(f.mul(a, w), x)
  {
    MulAssoc(f, a, x, w);
    MulRight(f, a, x, w);
  }

  // (z1 x) z2 == x (z1 z2)
  lemma CrossLeft<T(!new)>(f: Field<T>, z1: T, x: T, z2: T)
    requires Laws(f)
    ensures f.mul(f.mul(z1, x), z2) == f.mul(x, f.mul(z1, z2))
  {
    MulComm(f, z1, x);
    MulAssoc(f, x, z1, z2);
  }

  // (z2 x) z1 == x (z1 z2)
  lemma CrossRight<T(!new)>(f: Field<T>, z2: T, x: T, z1: T)
    requires Laws(f)
    ensures f.mul(f.mul(z2, x), z1) == f.mul(x, f.mul(z1, z2))
  {
    CrossLeft(f, z2, x, z1);
    MulComm(f, z2, z1);
  }

  lemma DiffMul<T(!new)>(f: Field<T>, a: T, b: T, w: T)
    requires Laws(f)
    ensures f.sub(f.mul(a, w), f.mul(b, w)) == f.mul(f.sub(a, b), w)
  {
    MulComm(f, a, w);
    MulComm(f, b, w);
    MulComm(f, f.sub(a, b), w);
    MulSub(f, w, a, b);
  }

  /** (l^2 - (x2 - x1)) - (x1 + x1) == (l^2 - x1) - x2 */
  lemma ThirdAbscissa<T(!new)>(f: Field<T>, ll: T, x1: T, x2: T)
    requires Laws(f)
    ensures f.sub(f.sub(ll, f.sub(x2, x1)), f.add(x1, x1)) == f.sub(f.sub(ll, x1), x2)
  {
    var dx := f.sub(x2, x1);
    SubSub(f, ll, dx, f.add(x1, x1));
    AddAssoc(f, dx, x1, x1);
    SubAdd(f, x2, x1);
    AddComm(f, x2, x1);
    SubSub(f, ll, x1, x2);
  }

  /** U^2 W - V^3 - 2 V^2 V2 is T x3 for T = V^2 W, once V = dx W, U = l V and V2 = x1 W. */
  lemma ChordA<T(!new)>(f: Field<T>, l: T, x1: T, x2: T, w: T, v: T, u: T)
    requires Laws(f)
    requires v == f.mul(f.sub(x2, x1), w) && u == f.mul(l, v)
    ensures
      var t := f.mul(f.mul(v, v), w);
      var x3 := f.sub(f.sub(f.mul(l, l), x1), x2);
      f.sub(f.sub(f.mul(f.mul(u, u), w), f.mul(f.mul(v, v), v)), f.mul(Num(f, 2), f.mul(t, x1))) == f.mul(t, x3)
  {
    var vv, dx, ll := f.mul(v, v), f.sub(x2, x1), f.mul(l, l);
    var t := f.mul(vv, w);
    MulSwap(f, l, v, l, v);
    MulAssoc(f, ll, vv, w);
    MulComm(f, ll, t);
    Factor(f, vv, dx, w);
    NumTwo(f, f.mul(t, x1));
    MulAdd(f, t, x1, x1);
    MulSub(f, t, ll, dx);
    MulSub(f, t, f.sub(ll, dx), f.add(x1, x1));
    ThirdAbscissa(f, ll, x1, x2);
  }

  lemma ChordCoordinates<T(!new)>(f: Field<T>, l: T, x1: T, y1: T, x2: T, w: T, v: T, u: T, a: T)
    requires Laws(f)
    requires v == f.mul(f.sub(x2, x1), w) && u == f.mul(l, v)
    requires a == f.mul(f.mul(f.mul(v, v), w), Reflected(f, l, x1, y1, x2).x)
    ensures
      var r := Reflected(f, l, x1, y1, x2);
      var vvv := f.mul(f.mul(v, v), v);
      var z := f.mul(vvv, w);
      && f.mul(v, a) == f.mul(z, r.x)
      && f.sub(f.mul(u, f.sub(f.mul(f.mul(f.mul(v, v), w), x1), a)), f.mul(vvv, f.mul(y1, w))) == f.mul(z, r.y)
  {
    var r := Reflected(f, l, x1, y1, x2);
    var vv := f.mul(v, v);
    var t, vvv := f.mul(vv, w), f.mul(vv, v);
    var z, d := f.mul(vvv, w), f.sub(x1, r.x);
    MulRight(f, vv, v, w);
    MulComm(f, t, v);
    MulAssoc(f, v, t, r.x);
    MulSub(f, t, x1, r.x);
    MulComm(f, l, v);
    MulSwap(f, v, l, t, d);
    Factor(f, vvv, y1, w);
    MulSub(f, z, f.mul(l, d), y1);
  }

  lemma ChordProjects<T(!new)>(f: Field<T>, p: Projective<T>, q: Projective<T>)
    requires Laws(f) && p.Z != f.zero && q.Z != f.zero
    requires ToAffine(f, p).x != ToAffine(f, q).x
    ensures ToAffine(f, ProjectiveChord(f, p, q)) == AffineAdd(f, ToAffine(f, p), ToAffine(f, q))
  {
    var P, Q := ToAffine(f, p), ToAffine(f, q);
    var x1, y1, x2, y2 := P.x, P.y, Q.x, Q.y;
    var w, dx := f.mul(p.Z, q.Z), f.sub(x2, x1);
    var l := Div(f, f.sub(y2, y1), dx);
    Crossed(f, p, q);
    DiffMul(f, x2, x1, w);
    DiffMul(f, y2, y1, w);
    SubIsZero(f, x2, x1);
    Quotient(f, f.sub(y2, y1), dx, l);
    var v := f.mul(dx, w);
    MulComm(f, dx, l);
    MulAssoc(f, l, dx, w);
    var u := f.mul(l, v);
    ChordA(f, l, x1, x2, w, v, u);
    var r := ProjectiveChord(f, p, q);
    Factor(f, f.mul(v, v), x1, w);
    var a := f.mul(f.mul(f.mul(v, v), w), Reflected(f, l, x1, y1, x2).x);
    ChordCoordinates(f, l, x1, y1, x2, w, v, u, a);
    NoZeroDivisors(f, p.Z, q.Z);
    NoZeroDivisors(f, dx, w);
    NoZeroDivisors(f, v, v);
    NoZeroDivisors(f, f.mul(v, v), v);
    NoZeroDivisors(f, f.mul(f.mul(v, v), v), w);
    Projects(f, r, Reflected(f, l, x1, y1, x2).x, Reflected(f, l, x1, y1, x2).y);
  }

  /** The four cross products are the affine coordinates times W = Z1 Z2. */
  lemma Crossed<T(!new)>(f: Field<T>, p: Projective<T>, q: Projective<T>)
    requires Laws(f) && p.Z != f.zero && q.Z != f.zero
    ensures
      var w, P, Q := f.mul(p.Z, q.Z), ToAffine(f, p), ToAffine(f, q);
      && f.mul(q.Y, p.Z) == f.mul(Q.y, w) && f.mul(p.Y, q.Z) == f.mul(P.y, w)
      && f.mul(q.X, p.Z) == f.mul(Q.x, w) && f.mul(p.X, q.Z) == f.mul(P.x, w)
  {
    var P, Q := ToAffine(f, p), ToAffine(f, q);
    Projects(f, p, P.x, P.y);
    Projects(f, q, Q.x, Q.y);
    CrossRight(f, q.Z, Q.y, p.Z);
    CrossRight(f, q.Z, Q.x, p.Z);
    CrossLeft(f, p.Z, P.y, q.Z);
    CrossLeft(f, p.Z, P.x, q.Z);
  }

  // ----- doubling

  /** W = 3 X^2 is (2 S) l and B = X Y S is S^2 x, for S = Y Z and the tangent slope l. */
  lemma TangentParts<T(!new)>(f: Field<T>, x: T, y: T, z: T, l: T)
    requires Laws(f) && f.mul(f.add(y, y), l) == ThreeSquares(f, x)
    ensures
      var X, Y := f.mul(z, x), f.mul(z, y);
      var s := f.mul(Y, z);
      && f.mul(f.mul(Num(f, 3), X), X) == f.mul(f.mul(Num(f, 2), s), l)
      && f.mul(f.mul(X, Y), s) == f.mul(f.mul(s, s), x)
      && f.mul(Y, Y) == f.mul(y, s)
  {
    var X, Y, zz := f.mul(z, x), f.mul(z, y), f.mul(z, z);
    var s := f.mul(Y, z);
    CrossLeft(f, z, y, z);
    // W
    MulAssoc(f, Num(f, 3), X, X);
    MulSwap(f, z, x, z, x);
    Factor(f, Num(f, 3), zz, f.mul(x, x));
    NumThree(f, f.mul(x, x));
    NumTwo(f, y);
    MulRight(f, f.add(y, y), l, zz);
    MulAssoc(f, Num(f, 2), y, zz);
    // B
    MulSwap(f, z, x, z, y);
    MulComm(f, zz, f.mul(x, y));
    MulAssoc(f, x, y, zz);
    MulAssoc(f, x, s, s);
    MulComm(f, x, f.mul(s, s));
    // Y^2
    MulSwap(f, z, y, z, y);
    MulComm(f, zz, f.mul(y, y));
    MulAssoc(f, y, y, zz);
  }

  /** H = W^2 - 8 B is Q x3 for Q = 4 S^2. */
  lemma TangentH<T(!new)>(f: Field<T>, l: T, x: T, s: T)
    requires Laws(f)
    ensures
      var ss := f.mul(s, s);
      var q := f.mul(Num(f, 4), ss);
      var w := f.mul(f.mul(Num(f, 2), s), l);
      && f.sub(f.mul(w, w), f.mul(Num(f, 8), f.mul(ss, x))) == f.mul(q, f.sub(f.sub(f.mul(l, l), x), x))
      && f.mul(Num(f, 8), ss) == f.mul(Num(f, 2), q)
      && f.mul(Num(f, 4), f.mul(ss, x)) == f.mul(q, x)
  {
    var ss, ll, k2 := f.mul(s, s), f.mul(l, l), Num(f, 2);
    var q := f.mul(Num(f, 4), ss);
    NumFourEight(f);
    MulSwap(f, f.mul(k2, s), l, f.mul(k2, s), l);
    MulSwap(f, k2, s, k2, s);
    MulAssoc(f, Num(f, 8), ss, x);
    MulAssoc(f, Num(f, 4), ss, x);
    MulAssoc(f, k2, Num(f, 4), ss);
    MulAssoc(f, k2, q, x);
    NumTwo(f, f.mul(q, x));
    MulAdd(f, q, x, x);
    MulSub(f, q, ll, f.add(x, x));
    SubSub(f, ll, x, x);
  }

  lemma TangentCoordinates<T(!new)>(f: Field<T>, l: T, x: T, y: T, s: T)
    requires Laws(f)
    ensures
      var r := Reflected(f, l, x, y, x);
      var ss := f.mul(s, s);
      var q := f.mul(Num(f, 4), ss);
      var z := f.mul(Num(f, 8), f.mul(s, ss));
      && f.mul(f.mul(Num(f, 2), f.mul(q, r.x)), s) == f.mul(z, r.x)
      && f.mul(f.sub(f.mul(q, x), f.mul(q, r.x)), f.mul(f.mul(Num(f, 2), s), l)) == f.mul(z, f.mul(l, f.sub(x, r.x)))
      && f.mul(f.mul(Num(f, 8), f.mul(y, s)), ss) == f.mul(z, y)
  {
    var r, k2 := Reflected(f, l, x, y, x), Num(f, 2);
    var ss := f.mul(s, s);
    var q := f.mul(Num(f, 4), ss);
    var z, d := f.mul(Num(f, 8), f.mul(s, ss)), f.sub(x, r.x);
    TangentH(f, l, x, s);
    MulComm(f, s, ss);
    MulAssoc(f, Num(f, 8), ss, s);
    assert z == f.mul(f.mul(k2, q), s);
    MulAssoc(f, k2, q, r.x);
    MulRight(f, f.mul(k2, q), r.x, s);
    MulSub(f, q, x, r.x);
    MulSwap(f, q, d, f.mul(k2, s), l);
    MulComm(f, d, l);
    MulAssoc(f, q, k2, s);
    MulComm(f, q, k2);
    MulAssoc(f, Num(f, 8), f.mul(y, s), ss);
    MulAssoc(f, y, s, ss);
    Factor(f, Num(f, 8), y, f.mul(s, ss));
  }

  lemma DoubleZ<T(!new)>(f: Field<T>, p: Projective<T>)
    requires Laws(f)
    ensures ProjectiveDouble(f, p).Z == f.zero <==> p.Y == f.zero || p.Z == f.zero
  {
    var s := f.mul(p.Y, p.Z);
    NumFourEight(f);
    NoZeroDivisors(f, p.Y, p.Z);
    NoZeroDivisors(f, s, s);
    NoZeroDivisors(f, s, f.mul(s, s));
    NoZeroDivisors(f, Num(f, 8), f.mul(s, f.mul(s, s)));
  }

  /** Projective doubling is the tangent law in every case: infinity, y = 0 and the generic point. */
  lemma DoubleProjects<T(!new)>(f: Field<T>, p: Projective<T>)
    requires Laws(f)
    ensures ToAffine(f, ProjectiveDouble(f, p)) == AffineDouble(f, ToAffine(f, p))
  {
    DoubleZ(f, p);
    if p.Z != f.zero {
      var x, y := Div(f, p.X, p.Z), Div(f, p.Y, p.Z);
      Projects(f, p, x, y);
      NoZeroDivisors(f, p.Z, y);
      if y != f.zero {
        var l := Div(f, ThreeSquares(f, x), f.add(y, y));
        NumTwo(f, y);
        NoZeroDivisors(f, Num(f, 2), y);
        Quotient(f, ThreeSquares(f, x), f.add(y, y), l);
        TangentParts(f, x, y, p.Z, l);
        var s := f.mul(p.Y, p.Z);
        TangentH(f, l, x, s);
        TangentCoordinates(f, l, x, y, s);
        var r := Reflected(f, l, x, y, x);
        MulAssoc(f, Num(f, 8), p.Y, p.Y);
        var d := ProjectiveDouble(f, p);
        MulSub(f, d.Z, f.mul(l, f.sub(x, r.x)), y);
        Projects(f, d, r.x, r.y);
      }
    }
  }

  /** Projective addition is the chord-and-tangent law in every branch. */
  lemma AddProjects<T(!new)>(f: Field<T>, p: Projective<T>, q: Projective<T>)
    requires Laws(f)
    ensures ToAffine(f, ProjectiveAdd(f, p, q)) == AffineAdd(f, ToAffine(f, p), ToAffine(f, q))
  {
    if p.Z != f.zero && q.Z != f.zero {
      var w, P, Q := f.mul(p.Z, q.Z), ToAffine(f, p), ToAffine(f, q);
      Crossed(f, p, q);
      NoZeroDivisors(f, p.Z, q.Z);
      CancelRight(f, w, P.x, Q.x);
      CancelRight(f, w, P.y, Q.y);
      if P.x != Q.x {
        ChordProjects(f, p, q);
      } else {
        DoubleProjects(f, p);
      }
    }
  }

  lemma CancelRight<T(!new)>(f: Field<T>, c: T, a: T, b: T)
    requires Laws(f) && c != f.zero
    ensures f.mul(a, c) == f.mul(b, c) <==> a == b
  {
    MulComm(f, a, c);
    MulComm(f, b, c);
    Cancel(f, c, a, b);
  }

  // ----- staying on the curve

  function Cube<T>(f: Field<T>, x: T): T { f.mul(f.mul(x, x), x) }

  /** Y^2 Z = X^3 + b Z^3 for a finite projective point says exactly that the affine point is on the curve. */
  lemma ProjectiveEquation<T(!new)>(f: Field<T>, b: T, p: Projective<T>)
    requires Laws(f) && p.Z != f.zero
    ensures OnCurve(f, b, ToAffine(f, p))
       <==> f.mul(f.mul(p.Y, p.Y), p.Z) == f.add(Cube(f, p.X), f.mul(b, Cube(f, p.Z)))
  {
    var x, y, z := Div(f, p.X, p.Z), Div(f, p.Y, p.Z), p.Z;
    var zz := f.mul(z, z);
    var c := Cube(f, z);
    Projects(f, p, x, y);
    MulSwap(f, z, y, z, y);
    MulRight(f, zz, f.mul(y, y), z);
    MulSwap(f, z, x, z, x);
    MulSwap(f, zz, f.mul(x, x), z, x);
    MulComm(f, b, c);
    MulAdd(f, c, Cube(f, x), b);
    NoZeroDivisors(f, z, z);
    NoZeroDivisors(f, zz, z);
    Cancel(f, c, f.mul(y, y), f.add(Cube(f, x), b));
  }

  lemma DiffSquares<T(!new)>(f: Field<T>, a: T, b: T)
    requires Laws(f)
    ensures f.mul(f.sub(a, b), f.add(a, b)) == f.sub(f.mul(a, a), f.mul(b, b))
  {
    var d := f.sub(a, b);
    MulAdd(f, d, a, b);
    DiffMul(f, a, b, a);
    DiffMul(f, a, b, b);
    MulComm(f, a, b);
    Telescope(f, f.mul(a, a), f.mul(a, b), f.mul(b, b));
  }

  // (a - b) + (b - c) == a - c
  lemma Telescope<T(!new)>(f: Field<T>, a: T, b: T, c: T)
    requires Laws(f)
    ensures f.add(f.sub(a, b), f.sub(b, c)) == f.sub(a, c)
  {
    AddSub(f, f.sub(a, b), b, c);
    SubAdd(f, a, b);
  }

  /** a^2 + a c + c^2, the quotient of a^3 - c^3 by a - c. */
  function CubeQuotient<T>(f: Field<T>, a: T, c: T): T {
    f.add(f.mul(a, f.add(a, c)), f.mul(c, c))
  }

  lemma DiffCubes<T(!new)>(f: Field<T>, a: T, c: T)
    requires Laws(f)
    ensures f.mul(f.sub(a, c), CubeQuotient(f, a, c)) == f.sub(Cube(f, a), Cube(f, c))
  {
    var d, aa, cc := f.sub(a, c), f.mul(a, a), f.mul(c, c);
    MulAdd(f, d, f.mul(a, f.add(a, c)), cc);
    // d (a (a + c)) == a (d (a + c)) == a (aa - cc)
    MulAssoc(f, d, a, f.add(a, c));
    MulComm(f, d, a);
    MulAssoc(f, a, d, f.add(a, c));
    DiffSquares(f, a, c);
    MulSub(f, a, aa, cc);
    MulComm(f, a, aa);
    DiffMul(f, a, c, cc);
    MulComm(f, c, cc);
    Telescope(f, Cube(f, a), f.mul(a, cc), Cube(f, c));
  }

  lemma CubeQuotientDiff<T(!new)>(f: Field<T>, a: T, b: T, c: T)
    requires Laws(f)
    ensures f.sub(CubeQuotient(f, a, c), CubeQuotient(f, b, c)) == f.mul(f.sub(a, b), f.add(f.add(a, b), c))
  {
    var d, cc := f.sub(a, b), f.mul(c, c);
    var u, v := f.mul(a, f.add(a, c)), f.mul(b, f.add(b, c));
    // (u + cc) - (v + cc) == u - v
    AddComm(f, v, cc);
    SubSub(f, f.add(u, cc), cc, v);
    SubAdd(f, u, cc);
    // u - v == (aa - bb) + (ac - bc)
    MulAdd(f, a, a, c);
    MulAdd(f, b, b, c);
    SubOfSums(f, f.mul(a, a), f.mul(a, c), f.mul(b, b), f.mul(b, c));
    DiffSquares(f, a, b);
    DiffMul(f, a, b, c);
    MulAdd(f, d, f.add(a, b), c);
  }

  // (a + b) - (c + d) == (a - c) + (b - d)
  lemma SubOfSums<T(!new)>(f: Field<T>, a: T, b: T, c: T, d: T)
    requires Laws(f)
    ensures f.sub(f.add(a, b), f.add(c, d)) == f.add(f.sub(a, c), f.sub(b, d))
  {
    AddSwap(f, f.sub(a, c), f.sub(b, d), c, d);
    SubAdd(f, a, c);
    SubAdd(f, b, d);
    SubAdd(f, f.add(f.sub(a, c), f.sub(b, d)), f.add(c, d));
  }

  /** The condition for the line of slope l through (x1, y1) to meet the curve at x:
      the curve equation divided by x - x1. */
  ghost predicate Meets<T>(f: Field<T>, l: T, x1: T, y1: T, x: T) {
    f.mul(l, f.add(f.mul(l, f.sub(x, x1)), f.add(y1, y1))) == CubeQuotient(f, x, x1)
  }

  function LineAt<T>(f: Field<T>, l: T, x1: T, y1: T, x: T): T { f.add(f.mul(l, f.sub(x, x1)), y1) }

  lemma LinePoint<T(!new)>(f: Field<T>, b: T, l: T, x1: T, y1: T, x: T)
    requires Laws(f) && OnCurve(f, b, Point(x1, y1))
    ensures Meets(f, l, x1, y1, x) ==> OnCurve(f, b, Point(x, LineAt(f, l, x1, y1, x)))
    ensures x != x1 && OnCurve(f, b, Point(x, LineAt(f, l, x1, y1, x))) ==> Meets(f, l, x1, y1, x)
  {
    var y, dx := LineAt(f, l, x1, y1, x), f.sub(x, x1);
    var g := f.add(f.mul(l, dx), f.add(y1, y1));
    // y^2 - y1^2 == dx (l g)
    DiffSquares(f, y, y1);
    SubAdd(f, f.mul(l, dx), y1);
    AddAssoc(f, f.mul(l, dx), y1, y1);
    MulComm(f, l, dx);
    MulAssoc(f, dx, l, g);
    // x^3 - x1^3 == dx C
    DiffCubes(f, x, x1);
    SameDifference(f, f.mul(y, y), f.mul(y1, y1), Cube(f, x), Cube(f, x1), b);
    SubIsZero(f, x, x1);
    if x != x1 { Cancel(f, dx, f.mul(l, g), CubeQuotient(f, x, x1)); }
  }

  // when b == d + e: a - b == c - d exactly when a == c + e
  lemma SameDifference<T(!new)>(f: Field<T>, a: T, b: T, c: T, d: T, e: T)
    requires Laws(f) && b == f.add(d, e)
    ensures f.sub(a, b) == f.sub(c, d) <==> a == f.add(c, e)
  {
    SubAdd(f, a, b);
    SubAdd(f, c, d);
    AddAssoc(f, f.sub(c, d), d, e);
    SubAdd(f, f.sub(c, d), b);
  }

  /** Vieta: a line that meets the curve at x2 also meets it at l^2 - x1 - x2. */
  lemma ThirdPoint<T(!new)>(f: Field<T>, l: T, x1: T, y1: T, x2: T)
    requires Laws(f) && Meets(f, l, x1, y1, x2)
    ensures Meets(f, l, x1, y1, Reflected(f, l, x1, y1, x2).x)
  {
    var x3, ll, m := Reflected(f, l, x1, y1, x2).x, f.mul(l, l), f.mul(l, f.add(y1, y1));
    var d2, d3 := f.sub(x2, x1), f.sub(x3, x1);
    MulAdd(f, l, f.mul(l, d2), f.add(y1, y1));
    MulAdd(f, l, f.mul(l, d3), f.add(y1, y1));
    MulAssoc(f, l, l, d2);
    MulAssoc(f, l, l, d3);
    // (x2 + x3) + x1 == ll
    AddComm(f, x2, x3);
    SubAdd(f, f.sub(ll, x1), x2);
    SubAdd(f, ll, x1);
    // ll d2 - ll d3 == ll (x2 - x3) == C2 - C3
    CubeQuotientDiff(f, x2, x3, x1);
    MulSub(f, ll, d2, d3);
    SubSub(f, x2, x1, d3);
    AddComm(f, x1, d3);
    SubAdd(f, x3, x1);
    MulComm(f, ll, f.sub(x2, x3));
    ShiftDifference(f, f.mul(ll, d2), f.mul(ll, d3), m, CubeQuotient(f, x2, x1), CubeQuotient(f, x3, x1));
  }

  // a + m == c and a - b == c - d give b + m == d
  lemma ShiftDifference<T(!new)>(f: Field<T>, a: T, b: T, m: T, c: T, d: T)
    requires Laws(f) && f.add(a, m) == c && f.sub(a, b) == f.sub(c, d)
    ensures f.add(b, m) == d
  {
    var e := f.sub(a, b);
    SubAdd(f, a, b);
    SubAdd(f, c, d);
    AddAssoc(f, e, b, m);
    AddComm(f, e, d);
    AddComm(f, e, f.add(b, m));
    SubAdd(f, d, e);
    SubAdd(f, f.add(b, m), e);
  }

  lemma NegSquare<T(!new)>(f: Field<T>, a: T, c: T)
    requires Laws(f) && f.add(a, c) == f.zero
    ensures f.mul(a, a) == f.mul(c, c)
  {
    DiffSquares(f, a, c);
    MulZero(f, f.sub(a, c));
    SubIsZero(f, f.mul(a, a), f.mul(c, c));
  }

  lemma ReflectedOnCurve<T(!new)>(f: Field<T>, b: T, l: T, x1: T, y1: T, x2: T)
    requires Laws(f) && OnCurve(f, b, Point(x1, y1)) && Meets(f, l, x1, y1, x2)
    ensures OnCurve(f, b, Reflected(f, l, x1, y1, x2))
  {
    var r := Reflected(f, l, x1, y1, x2);
    ThirdPoint(f, l, x1, y1, x2);
    LinePoint(f, b, l, x1, y1, r.x);
    // the ordinate of r is the opposite of the line at r.x
    var u, v := f.mul(l, f.sub(x1, r.x)), f.mul(l, f.sub(r.x, x1));
    MulAdd(f, l, f.sub(x1, r.x), f.sub(r.x, x1));
    Telescope(f, x1, r.x, x1);
    SubSelf(f, x1);
    MulZero(f, l);
    AddComm(f, v, y1);
    AddAssoc(f, r.y, y1, v);
    SubAdd(f, u, y1);
    NegSquare(f, r.y, LineAt(f, l, x1, y1, r.x));
  }

  lemma DoubleOnCurve<T(!new)>(f: Field<T>, b: T, p: Affine<T>)
    requires Laws(f) && OnCurve(f, b, p)
    ensures OnCurve(f, b, AffineDouble(f, p))
  {
    if p.Point? && p.y != f.zero {
      var x, yy := p.x, f.add(p.y, p.y);
      var l := Div(f, ThreeSquares(f, x), yy);
      NumTwo(f, p.y);
      NoZeroDivisors(f, Num(f, 2), p.y);
      Quotient(f, ThreeSquares(f, x), yy, l);
      SubSelf(f, x);
      MulZero(f, l);
      SubSelf(f, yy);
      MulComm(f, l, yy);
      MulAdd(f, x, x, x);
      ReflectedOnCurve(f, b, l, x, p.y, x);
    }
  }

  /** The affine law never leaves the curve. */
  lemma AddOnCurve<T(!new)>(f: Field<T>, b: T, p: Affine<T>, q: Affine<T>)
    requires Laws(f) && OnCurve(f, b, p) && OnCurve(f, b, q)
    ensures OnCurve(f, b, AffineAdd(f, p, q))
  {
    if p.Point? && q.Point? {
      if p.x != q.x {
        var dx, dy := f.sub(q.x, p.x), f.sub(q.y, p.y);
        var l := Div(f, dy, dx);
        SubIsZero(f, q.x, p.x);
        Quotient(f, dy, dx, l);
        MulComm(f, l, dx);
        SubAdd(f, q.y, p.y);
        LinePoint(f, b, l, p.x, p.y, q.x);
        ReflectedOnCurve(f, b, l, p.x, p.y, q.x);
      } else {
        DoubleOnCurve(f, b, p);
      }
    }
  }

  // ----- multiples of a point

  /** p added to itself n times. */
  function Multiple<T(==)>(f: Field<T>, n: nat, p: Affine<T>): Affine<T> {
    if n == 0 then Infinity else AffineAdd(f, Multiple(f, n - 1, p), p)
  }

  /** Associativity of the affine law on the curve: the one algebraic fact that is not proved here. */
  ghost predicate Associates<T(!new)>(f: Field<T>, b: T) {
    forall p, q, r {:trigger AssociatesAt(f, p, q, r)} ::
      OnCurve(f, b, p) && OnCurve(f, b, q) && OnCurve(f, b, r) ==> AssociatesAt(f, p, q, r)
  }

  ghost predicate AssociatesAt<T>(f: Field<T>, p: Affine<T>, q: Affine<T>, r: Affine<T>) {
    AffineAdd(f, AffineAdd(f, p, q), r) == AffineAdd(f, p, AffineAdd(f, q, r))
  }

  lemma {:induction false} MultipleOnCurve<T(!new)>(f: Field<T>, b: T, n: nat, p: Affine<T>)
    requires Laws(f) && OnCurve(f, b, p)
    ensures OnCurve(f, b, Multiple(f, n, p))
  {
    if n > 0 {
      MultipleOnCurve(f, b, n - 1, p);
      AddOnCurve(f, b, Multiple(f, n - 1, p), p);
    }
  }

  lemma AddInfinity<T(!new)>(f: Field<T>, p: Affine<T>)
    ensures AffineAdd(f, p, Infinity) == p && AffineAdd(f, Infinity, p) == p
    ensures AffineAdd(f, p, p) == AffineDouble(f, p)
  {
  }

  lemma {:induction false} MultipleLeft<T(!new)>(f: Field<T>, b: T, n: nat, p: Affine<T>)
    requires Laws(f) && Associates(f, b) && OnCurve(f, b, p)
    ensures AffineAdd(f, p, Multiple(f, n, p)) == Multiple(f, n + 1, p)
  {
    hide AffineAdd;
    if n == 0 {
      AddInfinity(f, p);
      assert Multiple(f, 1, p) == AffineAdd(f, Multiple(f, 0, p), p);
    } else {
      MultipleLeft(f, b, n - 1, p);
      MultipleOnCurve(f, b, n - 1, p);
      assert AssociatesAt(f, p, Multiple(f, n - 1, p), p);
    }
  }

  /** 2n-fold p is n-fold 2p. */
  lemma {:induction false} MultipleOfDouble<T(!new)>(f: Field<T>, b: T, n: nat, p: Affine<T>)
    requires Laws(f) && Associates(f, b) && OnCurve(f, b, p)
    ensures Multiple(f, 2 * n, p) == Multiple(f, n, AffineDouble(f, p))
  {
    if n > 0 {
      MultipleOfDouble(f, b, n - 1, p);
      MultipleOnCurve(f, b, 2 * n - 2, p);
      var m := Multiple(f, 2 * n - 2, p);
      assert Multiple(f, 2 * n - 1, p) == AffineAdd(f, m, p);
      assert AssociatesAt(f, m, p, p);
      assert AffineAdd(f, p, p) == AffineDouble(f, p);
    }
  }

  lemma {:induction false} MultipleAdd<T(!new)>(f: Field<T>, b: T, m: nat, n: nat, p: Affine<T>)
    requires Laws(f) && Associates(f, b) && OnCurve(f, b, p)
    ensures AffineAdd(f, Multiple(f, m, p), Multiple(f, n, p)) == Multiple(f, m + n, p)
  {
    hide AffineAdd;
    if n == 0 {
      AddInfinity(f, Multiple(f, m, p));
    } else {
      MultipleAdd(f, b, m, n - 1, p);
      MultipleOnCurve(f, b, m, p);
      MultipleOnCurve(f, b, n - 1, p);
      assert AssociatesAt(f, Multiple(f, m, p), Multiple(f, n - 1, p), p);
    }
  }

  /** One turn of double-and-add keeps acc + d p. */
  lemma LadderStep<T(!new)>(f: Field<T>, b: T, acc: Affine<T>, d: nat, p: Affine<T>)
    requires Laws(f) && Associates(f, b) && OnCurve(f, b, p) && OnCurve(f, b, acc) && d > 0
    ensures
      var acc' := if d % 2 == 1 then AffineAdd(f, acc, p) else acc;
      AffineAdd(f, acc', Multiple(f, d / 2, AffineDouble(f, p))) == AffineAdd(f, acc, Multiple(f, d, p))
  {
    hide AffineAdd, AffineDouble;
    var h := d / 2;
    MultipleOfDouble(f, b, h, p);
    if d % 2 == 1 {
      MultipleOnCurve(f, b, 2 * h, p);
      MultipleLeft(f, b, 2 * h, p);
      assert AssociatesAt(f, acc, p, Multiple(f, 2 * h, p));
    }
  }

  /** Double-and-add: acc plus d-fold p, by the binary digits of d from the lowest on. */
  function Ladder<T(==)>(f: Field<T>, acc: Affine<T>, d: nat, p: Affine<T>): Affine<T>
    decreases d
  {
    if d == 0 then acc
    else Ladder(f, if d % 2 == 1 then AffineAdd(f, acc, p) else acc, d / 2, AffineDouble(f, p))
  }

  /** With associativity double-and-add is repeated addition. */
  lemma {:induction false} LadderIsMultiple<T(!new)>(f: Field<T>, b: T, acc: Affine<T>, d: nat, p: Affine<T>)
    requires Laws(f) && Associates(f, b) && OnCurve(f, b, p) && OnCurve(f, b, acc)
    ensures Ladder(f, acc, d, p) == AffineAdd(f, acc, Multiple(f, d, p))
    decreases d
  {
    hide AffineAdd, AffineDouble, OnCurve;
    if d == 0 {
      AddInfinity(f, acc);
    } else {
      var acc' := if d % 2 == 1 then AffineAdd(f, acc, p) else acc;
      AddOnCurve(f, b, acc, p);
      DoubleOnCurve(f, b, p);
      LadderStep(f, b, acc, d, p);
      LadderIsMultiple(f, b, acc', d / 2, AffineDouble(f, p));
    }
  }

  /** For the smallest scalars it is so without it. */
  lemma SmallLadders<T(!new)>(f: Field<T>, p: Affine<T>)
    ensures Ladder(f, Infinity, 0, p) == Infinity && Ladder(f, Infinity, 1, p) == p
    ensures Ladder(f, Infinity, 2, p) == AffineAdd(f, p, p)
  {
    var q := AffineDouble(f, p);
    AddInfinity(f, p);
    AddInfinity(f, q);
    hide AffineAdd, AffineDouble;
    assert Ladder(f, q, 0, AffineDouble(f, q)) == q;
    assert Ladder(f, Infinity, 1, q) == Ladder(f, AffineAdd(f, Infinity, q), 0, AffineDouble(f, q));
    assert Ladder(f, Infinity, 1, p) == Ladder(f, AffineAdd(f, Infinity, p), 0, q);
  }
}
