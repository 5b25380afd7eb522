/**
 * Point addition on the twisted Edwards curve -x^2 + y^2 = 1 + d x^2 y^2 modulo a prime: the
 * affine formula with two inversions, and the formulas over extended coordinates with none.
 */
module Edwards {
  import opened ModArith
  import opened FieldInverse

  datatype Curve = Curve(q: int, d: int)

  /** Extended coordinates of the affine point (x / z, y / z), with x y = z t. */
  datatype Point = Point(x: int, y: int, z: int, t: int)

  datatype Affine = Affine(x: int, y: int)

  const IDENT := Point(0, 1, 1, 0)

  // ----- The formulas of the source -----

  function Add(c: Curve, p1: Point, p2: Point): Point
    requires c.q > 0
  {
    var a := (p1.y - p1.x) * (p2.y - p2.x) % c.q;
    var b := (p1.y + p1.x) * (p2.y + p2.x) % c.q;
    var cc := p1.t * 2 * c.d * p2.t % c.q;
    var dd := p1.z * 2 * p2.z % c.q;
    var e, f, g, h := b - a, dd - cc, dd + cc, b + a;
    Point(e * f % c.q, g * h % c.q, f * g % c.q, e * h % c.q)
  }

  function Double(c: Curve, p: Point): Point
    requires c.q > 0
  {
    var a := p.x * p.x % c.q;
    var b := p.y * p.y % c.q;
    var cc := 2 * p.z * p.z % c.q;
    var e := ((p.x + p.y) * (p.x + p.y) - a - b) % c.q;
    var g := -a + b;
    var f := g - cc;
    var h := -a - b;
    Point(e * f % c.q, g * h % c.q, f * g % c.q, e * h % c.q)
  }

  function InvMod(c: Curve, x: int): int
    requires c.q > 2
  {
    Expmod(x, c.q - 2, c.q)
  }

  function AffineAdd(c: Curve, p: Affine, q: Affine): Affine
    requires c.q > 2
  {
    var x3 := (p.x * q.y + q.x * p.y) * InvMod(c, 1 + c.d * p.x * q.x * p.y * q.y);
    var y3 := (p.y * q.y + p.x * q.x) * InvMod(c, 1 - c.d * p.x * q.x * p.y * q.y);
    Affine(x3 % c.q, y3 % c.q)
  }

  /** The affine point of extended coordinates, as the encoder of points computes it. */
  function ToAffine(c: Curve, p: Point): Affine
    requires c.q > 2
  {
    var zi := InvMod(c, p.z);
    Affine(p.x * zi % c.q, p.y * zi % c.q)
  }

  predicate OnCurve(c: Curve, p: Point)
    requires c.q > 0
  {
    && p.z % c.q != 0
    && p.x * p.y % c.q == p.z * p.t % c.q
    && (p.y * p.y - p.x * p.x - p.z * p.z - c.d * p.t * p.t) % c.q == 0
  }

  predicate AffineOnCurve(c: Curve, p: Affine)
    requires c.q > 0
  {
    (-p.x * p.x + p.y * p.y - 1 - c.d * p.x * p.x * p.y * p.y) % c.q == 0
  }

  /** An odd prime modulus with a square root of -1, and no square d: what holds of Ed25519. */
  ghost predicate Good(c: Curve) {
    && IsPrime(c.q) && c.q > 2
    && (exists i :: RootOfMinusOne(c, i))
    && (forall a, b :: SquareTimes(c, a, b) ==> Cong(b, 0, c.q))
  }

  ghost predicate RootOfMinusOne(c: Curve, i: int)
    requires c.q > 0
  {
    Cong(i * i, -1, c.q)
  }

  ghost predicate SquareTimes(c: Curve, a: int, b: int)
    requires c.q > 0
  {
    Cong(a * a, c.d * (b * b), c.q)
  }

  // ----- Extended coordinates of an affine point -----

  ghost predicate Represents(m: int, p: Point, u: int, v: int)
    requires m > 0
  {
    !Cong(p.z, 0, m) && Cong(p.x, u * p.z, m) && Cong(p.y, v * p.z, m) && Cong(p.t, u * v * p.z, m)
  }

  lemma CongProducts(a: int, b: int, c: int, a': int, b': int, c': int, m: int)
    requires m > 0 && Cong(a, a', m) && Cong(b, b', m) && Cong(c, c', m)
    ensures Cong(a * b * c, a' * b' * c', m)
  {
    CongMul(a, a', b, b', m);
    CongMul(a * b, a' * b', c, c', m);
  }

  lemma InvModInverts(c: Curve, z: int)
    requires IsPrime(c.q) && c.q > 2 && !Cong(z, 0, c.q)
    ensures Cong(z * InvMod(c, z), 1, c.q)
  {
    ExpmodInverts(z, c.q);
  }

  /** x / z is the only residue that gives x when multiplied by z. */
  lemma Quotient(c: Curve, x: int, z: int, u: int)
    requires IsPrime(c.q) && c.q > 2 && !Cong(z, 0, c.q)
    requires Cong(x, u * z, c.q)
    ensures Cong(x * InvMod(c, z), u, c.q)
  {
    hide InvMod;
    var zi := InvMod(c, z);
    InvModInverts(c, z);
    CongMul(x, u * z, zi, zi, c.q);
    CongMul(u, u, z * zi, 1, c.q);
    assert u * z * zi == u * (z * zi);
  }

  lemma QuotientTimes(c: Curve, x: int, z: int)
    requires IsPrime(c.q) && c.q > 2 && !Cong(z, 0, c.q)
    ensures Cong(x, (x * InvMod(c, z) % c.q) * z, c.q)
  {
    hide InvMod;
    var zi := InvMod(c, z);
    InvModInverts(c, z);
    CongMod(x * zi, c.q);
    CongMul(x * zi % c.q, x * zi, z, z, c.q);
    CongMul(x, x, z * zi, 1, c.q);
    assert x * zi * z == x * (z * zi);
  }

  lemma RepresentedPoint(c: Curve, p: Point, u: int, v: int)
    requires IsPrime(c.q) && c.q > 2 && Represents(c.q, p, u, v)
    ensures ToAffine(c, p) == Affine(u % c.q, v % c.q)
  {
    hide InvMod;
    Quotient(c, p.x, p.z, u);
    Quotient(c, p.y, p.z, v);
  }

  lemma RepresentsToAffine(c: Curve, p: Point)
    requires IsPrime(c.q) && c.q > 2 && p.z % c.q != 0 && p.x * p.y % c.q == p.z * p.t % c.q
    ensures Represents(c.q, p, ToAffine(c, p).x, ToAffine(c, p).y)
  {
    hide InvMod;
    var m, u, v := c.q, ToAffine(c, p).x, ToAffine(c, p).y;
    DivisionUnique(0, m, 0, 0);
    assert !Cong(p.z, 0, m) && Cong(p.x * p.y, p.z * p.t, m);
    hide Cong;
    hide IsPrime;
    QuotientTimes(c, p.x, p.z);
    QuotientTimes(c, p.y, p.z);
    hide ToAffine;
    CongMul(p.x, u * p.z, p.y, v * p.z, m);
    FactorOfProduct(u, v, p.z);
    CongSymm(p.x * p.y, p.z * p.t, m);
    CongTrans(p.z * p.t, p.x * p.y, p.z * (u * v * p.z), m);
    Cancel(p.z, p.t, u * v * p.z, m);
  }

  lemma FactorOfProduct(u: int, v: int, z: int)
    ensures u * z * (v * z) == z * (u * v * z)
  {
  }

  // ----- The sum in extended coordinates -----

  /** The quantities of the addition law: numerators, denominators and a common factor. */
  datatype Law = Law(w: int, n1: int, n2: int, d1: int, d2: int)

  function LawOf(d: int, z1: int, z2: int, u1: int, v1: int, u2: int, v2: int): Law {
    Law(2 * z1 * z2, u1 * v2 + u2 * v1, v1 * v2 + u1 * u2,
        1 + d * u1 * u2 * v1 * v2, 1 - d * u1 * u2 * v1 * v2)
  }

  ghost predicate Follows(m: int, p: Point, l: Law)
    requires m > 0
  {
    && Cong(p.x, l.w * l.n1 * (l.w * l.d2), m) && Cong(p.y, l.w * l.d1 * (l.w * l.n2), m)
    && Cong(p.z, l.w * l.d2 * (l.w * l.d1), m) && Cong(p.t, l.w * l.n1 * (l.w * l.n2), m)
  }

  lemma FourProducts(a: int, b: int, c: int, d: int)
    ensures (a + b) * (c + d) == a * c + a * d + b * c + b * d
    ensures (a - b) * (c - d) == a * c - a * d - b * c + b * d
  {
  }

  lemma PairProduct(a: int, b: int, c: int, d: int)
    ensures a * b * (c * d) == a * c * (b * d)
  {
    assert a * b * (c * d) == a * (b * (c * d));
    assert b * (c * d) == c * (b * d);
  }

  lemma CrossTerms(z1: int, z2: int, u1: int, v1: int, u2: int, v2: int)
    ensures var a, b := (v1 * z1 - u1 * z1) * (v2 * z2 - u2 * z2), (v1 * z1 + u1 * z1) * (v2 * z2 + u2 * z2);
            && b - a == 2 * z1 * z2 * (u1 * v2 + u2 * v1)
            && b + a == 2 * z1 * z2 * (v1 * v2 + u1 * u2)
  {
    FourProducts(v1 * z1, u1 * z1, v2 * z2, u2 * z2);
    PairProduct(v1, z1, v2, z2);
    PairProduct(v1, z1, u2, z2);
    PairProduct(u1, z1, v2, z2);
    PairProduct(u1, z1, u2, z2);
    TwiceProducts(z1, z2, u1 * v2, u2 * v1);
    TwiceProducts(z1, z2, v1 * v2, u1 * u2);
  }

  lemma TwiceProducts(z1: int, z2: int, p: int, q: int)
    ensures 2 * z1 * z2 * (p + q) == 2 * (p * (z1 * z2)) + 2 * (q * (z1 * z2))
  {
    var w := z1 * z2;
    assert 2 * z1 * z2 == 2 * w;
    assert 2 * w * (p + q) == 2 * (p * w) + 2 * (q * w);
  }

  /** The residue of a difference of congruent coordinates times another. */
  lemma CongProductMod(m: int, x: int, y: int, x': int, y': int)
    requires m > 0 && Cong(x, x', m) && Cong(y, y', m)
    ensures Cong(x * y % m, x' * y', m)
  {
    CongMul(x, x', y, y', m);
    CongMod(x * y, m);
  }

  /** e = b - a and h = b + a of the addition formula. */
  lemma SumAndDifference(m: int, x1: int, y1: int, z1: int, x2: int, y2: int, z2: int,
                         u1: int, v1: int, u2: int, v2: int)
    requires m > 0
    requires Cong(x1, u1 * z1, m) && Cong(y1, v1 * z1, m) && Cong(x2, u2 * z2, m) && Cong(y2, v2 * z2, m)
    ensures var a, b := (y1 - x1) * (y2 - x2) % m, (y1 + x1) * (y2 + x2) % m;
            && Cong(b - a, 2 * z1 * z2 * (u1 * v2 + u2 * v1), m)
            && Cong(b + a, 2 * z1 * z2 * (v1 * v2 + u1 * u2), m)
  {
    hide Cong;
    var x1', y1', x2', y2' := u1 * z1, v1 * z1, u2 * z2, v2 * z2;
    CongSub(y1, y1', x1, x1', m);
    CongSub(y2, y2', x2, x2', m);
    CongProductMod(m, y1 - x1, y2 - x2, y1' - x1', y2' - x2');
    CongAdd(y1, y1', x1, x1', m);
    CongAdd(y2, y2', x2, x2', m);
    CongProductMod(m, y1 + x1, y2 + x2, y1' + x1', y2' + x2');
    var a, b := (y1 - x1) * (y2 - x2) % m, (y1 + x1) * (y2 + x2) % m;
    CongSub(b, (y1' + x1') * (y2' + x2'), a, (y1' - x1') * (y2' - x2'), m);
    CongAdd(b, (y1' + x1') * (y2' + x2'), a, (y1' - x1') * (y2' - x2'), m);
    CrossTerms(z1, z2, u1, v1, u2, v2);
  }

  lemma CongModOf(a: int, b: int, m: int)
    requires m > 0 && Cong(a, b, m)
    ensures Cong(a % m, b, m)
  {
    CongMod(a, m);
  }

  /** f = dd - cc and g = dd + cc of the addition formula. */
  lemma Denominators(m: int, d: int, z1: int, t1: int, z2: int, t2: int, u1: int, v1: int, u2: int, v2: int)
    requires m > 0
    requires Cong(t1, u1 * v1 * z1, m) && Cong(t2, u2 * v2 * z2, m)
    ensures var cc, dd := t1 * 2 * d * t2 % m, z1 * 2 * z2 % m;
            && Cong(dd - cc, 2 * z1 * z2 * (1 - d * u1 * u2 * v1 * v2), m)
            && Cong(dd + cc, 2 * z1 * z2 * (1 + d * u1 * u2 * v1 * v2), m)
  {
    hide Cong;
    var cc, dd := t1 * 2 * d * t2 % m, z1 * 2 * z2 % m;
    var cc', dd' := u1 * v1 * z1 * (2 * d) * (u2 * v2 * z2), z1 * 2 * z2;
    CongRefl(2 * d, m);
    CongProducts(t1, 2 * d, t2, u1 * v1 * z1, 2 * d, u2 * v2 * z2, m);
    assert t1 * (2 * d) * t2 == t1 * 2 * d * t2;
    CongModOf(t1 * 2 * d * t2, cc', m);
    CongRefl(dd', m);
    CongModOf(dd', dd', m);
    CongSub(dd, dd', cc, cc', m);
    CongAdd(dd, dd', cc, cc', m);
    assert cc' == 2 * z1 * z2 * (d * u1 * u2 * v1 * v2);
    assert dd' - cc' == 2 * z1 * z2 * (1 - d * u1 * u2 * v1 * v2);
    assert dd' + cc' == 2 * z1 * z2 * (1 + d * u1 * u2 * v1 * v2);
  }

  lemma AddFollows(c: Curve, p1: Point, p2: Point, u1: int, v1: int, u2: int, v2: int)
    requires c.q > 0
    requires Represents(c.q, p1, u1, v1) && Represents(c.q, p2, u2, v2)
    ensures Follows(c.q, Add(c, p1, p2), LawOf(c.d, p1.z, p2.z, u1, v1, u2, v2))
  {
    hide Cong;
    var m, l := c.q, LawOf(c.d, p1.z, p2.z, u1, v1, u2, v2);
    var a := (p1.y - p1.x) * (p2.y - p2.x) % m;
    var b := (p1.y + p1.x) * (p2.y + p2.x) % m;
    var cc := p1.t * 2 * c.d * p2.t % m;
    var dd := p1.z * 2 * p2.z % m;
    SumAndDifference(m, p1.x, p1.y, p1.z, p2.x, p2.y, p2.z, u1, v1, u2, v2);
    Denominators(m, c.d, p1.z, p1.t, p2.z, p2.t, u1, v1, u2, v2);
    var e, f, g, h := b - a, dd - cc, dd + cc, b + a;
    ProductsMod(m, e, f, g, h, l.w * l.n1, l.w * l.d2, l.w * l.d1, l.w * l.n2);
  }

  lemma ProductsMod(m: int, e: int, f: int, g: int, h: int, e': int, f': int, g': int, h': int)
    requires m > 0 && Cong(e, e', m) && Cong(f, f', m) && Cong(g, g', m) && Cong(h, h', m)
    ensures Cong(e * f % m, e' * f', m) && Cong(g * h % m, g' * h', m)
    ensures Cong(f * g % m, f' * g', m) && Cong(e * h % m, e' * h', m)
  {
    hide Cong;
    CongMul(e, e', f, f', m);
    CongMul(g, g', h, h', m);
    CongMul(f, f', g, g', m);
    CongMul(e, e', h, h', m);
    CongModOf(e * f, e' * f', m);
    CongModOf(g * h, g' * h', m);
    CongModOf(f * g, f' * g', m);
    CongModOf(e * h, e' * h', m);
  }

  lemma LawProducts(w: int, d1: int, d2: int, u: int, v: int)
    ensures var z := w * d2 * (w * d1);
            && w * (u * d1) * (w * d2) == u * z
            && w * d1 * (w * (v * d2)) == v * z
            && w * (u * d1) * (w * (v * d2)) == u * v * z
  {
    var a, b := w * d1, w * d2;
    assert w * (u * d1) == u * a && w * (v * d2) == v * b;
    assert u * a * b == u * (b * a) && a * (v * b) == v * (b * a) && u * a * (v * b) == u * v * (b * a);
  }

  lemma NotZeroProduct(m: int, w: int, d1: int, d2: int)
    requires IsPrime(m) && !Cong(w, 0, m) && !Cong(d1, 0, m) && !Cong(d2, 0, m)
    ensures !Cong(w * d2 * (w * d1), 0, m)
  {
    hide Cong;
    if Cong(w * d2 * (w * d1), 0, m) {
      Euclid(w * d2, w * d1, m);
      if Cong(w * d2, 0, m) { Euclid(w, d2, m); } else { Euclid(w, d1, m); }
    }
  }

  /** Points that follow a law with invertible denominators represent the quotients. */
  lemma FollowsRepresents(m: int, p: Point, l: Law, u: int, v: int)
    requires IsPrime(m)
    requires Follows(m, p, l)
    requires !Cong(l.w, 0, m) && !Cong(l.d1, 0, m) && !Cong(l.d2, 0, m)
    requires Cong(l.n1, u * l.d1, m) && Cong(l.n2, v * l.d2, m)
    ensures Represents(m, p, u, v)
  {
    hide Cong;
    var w, n1, n2, d1, d2 := l.w, l.n1, l.n2, l.d1, l.d2;
    var z := w * d2 * (w * d1);
    NotZeroProduct(m, w, d1, d2);
    SameZero(p.z, z, m);
    CongRefl(w, m);
    CongRefl(w * d1, m);
    CongRefl(w * d2, m);
    CongMul(w, w, n1, u * d1, m);
    CongMul(w, w, n2, v * d2, m);
    CongMul(w * n1, w * (u * d1), w * d2, w * d2, m);
    CongMul(w * d1, w * d1, w * n2, w * (v * d2), m);
    CongMul(w * n1, w * (u * d1), w * n2, w * (v * d2), m);
    LawProducts(w, d1, d2, u, v);
    ScaleBack(m, p.x, w * n1 * (w * d2), u, z, p.z);
    ScaleBack(m, p.y, w * d1 * (w * n2), v, z, p.z);
    ScaleBack(m, p.t, w * n1 * (w * n2), u * v, z, p.z);
  }

  lemma SameZero(a: int, b: int, m: int)
    requires m > 0 && Cong(a, b, m)
    ensures Cong(a, 0, m) <==> Cong(b, 0, m)
  {
  }

  lemma ScaleBack(m: int, x: int, x': int, u: int, z': int, z: int)
    requires m > 0 && Cong(x, x', m) && Cong(x', u * z', m) && Cong(z, z', m)
    ensures Cong(x, u * z, m)
  {
    CongMul(u, u, z, z', m);
  }

  // ----- The denominators never vanish on the curve -----

  /** The curve equation of an affine point, as a number that is zero modulo q on the curve. */
  function Equation(d: int, u: int, v: int): int {
    v * v - u * u - 1 - d * (u * u) * (v * v)
  }

  lemma EquationOf(c: Curve, p: Affine)
    requires c.q > 0
    ensures AffineOnCurve(c, p) <==> Cong(Equation(c.d, p.x, p.y), 0, c.q)
  {
    assert -p.x * p.x + p.y * p.y - 1 - c.d * p.x * p.x * p.y * p.y == Equation(c.d, p.x, p.y) by {
      assert c.d * p.x * p.x * p.y * p.y == c.d * (p.x * p.x) * (p.y * p.y);
    }
    DivisionUnique(0, c.q, 0, 0);
  }

  /**
   * For two points of U^2 + V^2 = 1 + k U^2 V^2 with k U1 V1 U2 V2 = e and e^2 = 1, the square of
   * U1 + e V1 is k times another square, up to multiples of what is zero modulo q.
   */
  lemma SquareIdentity(k: int, e: int, s1: int, s2: int, p: int, r: int)
    requires e * e == 1
    ensures var c1, c2, h := s1 - 1 - k * (p * p), s2 - 1 - k * (r * r), k * p * r - e;
            s1 + 2 * e * p - k * (p * p) * (s2 + 2 * r) == c1 - k * (p * p) * c2 - h * (h + 2 * e + 2 * p)
  {
    var kpr := k * p * r;
    assert (kpr - e) * (kpr - e + 2 * e + 2 * p) == kpr * kpr - e * e + 2 * p * kpr - 2 * e * p;
    assert k * (p * p) * (k * (r * r)) == kpr * kpr;
    assert k * (p * p) * (2 * r) == 2 * p * kpr;
    assert k * (p * p) * (s2 + 2 * r) == k * (p * p) * s2 + k * (p * p) * (2 * r);
    assert k * (p * p) * (s2 - 1 - k * (r * r)) == k * (p * p) * s2 - k * (p * p) - k * (p * p) * (k * (r * r));
  }

  lemma SquareForm(k: int, e: int, a1: int, b1: int, a2: int, b2: int)
    requires e * e == 1
    ensures var p := a1 * b1;
            (a1 + e * b1) * (a1 + e * b1) - k * (p * (a2 + b2) * (p * (a2 + b2)))
            == (a1 * a1 + b1 * b1) + 2 * e * p - k * (p * p) * (a2 * a2 + b2 * b2 + 2 * (a2 * b2))
  {
    var p, t := a1 * b1, a2 + b2;
    assert (a1 + e * b1) * (a1 + e * b1) == a1 * a1 + 2 * e * p + e * e * (b1 * b1);
    assert t * t == a2 * a2 + b2 * b2 + 2 * (a2 * b2);
    assert k * (p * t * (p * t)) == k * (p * p) * (t * t);
  }

  lemma ZeroCombination(m: int, c1: int, x: int, c2: int, h: int, y: int)
    requires m > 0 && Cong(c1, 0, m) && Cong(c2, 0, m) && Cong(h, 0, m)
    ensures Cong(c1 - x * c2 - h * y, 0, m)
  {
    CongMul(x, x, c2, 0, m);
    CongMul(h, 0, y, y, m);
    CongSub(c1, 0, x * c2, 0, m);
    CongSub(c1 - x * c2, 0, h * y, 0, m);
  }

  /** The square of a1 + e b1 is k times the square of a1 b1 (a2 + b2). */
  lemma SquareRelation(m: int, k: int, e: int, a1: int, b1: int, a2: int, b2: int)
    requires m > 0 && e * e == 1
    requires Cong(a1 * a1 + b1 * b1 - 1 - k * (a1 * b1 * (a1 * b1)), 0, m)
    requires Cong(a2 * a2 + b2 * b2 - 1 - k * (a2 * b2 * (a2 * b2)), 0, m)
    requires Cong(k * (a1 * b1) * (a2 * b2) - e, 0, m)
    ensures var b := a1 * b1 * (a2 + b2);
            Cong((a1 + e * b1) * (a1 + e * b1) - k * (b * b), 0, m)
  {
    hide Cong;
    var p, r, s1, s2 := a1 * b1, a2 * b2, a1 * a1 + b1 * b1, a2 * a2 + b2 * b2;
    SquareForm(k, e, a1, b1, a2, b2);
    SquareIdentity(k, e, s1, s2, p, r);
    ZeroCombination(m, s1 - 1 - k * (p * p), k * (p * p), s2 - 1 - k * (r * r), k * p * r - e,
                    k * p * r - e + 2 * e + 2 * p);
  }

  /** If a square is -d times another, the other is zero: i times its root has a square that is d times it. */
  lemma NoSquareRelation(c: Curve, i: int, a: int, b: int)
    requires Good(c) && RootOfMinusOne(c, i)
    requires Cong(a * a - (-c.d) * (b * b), 0, c.q)
    ensures Cong(b, 0, c.q)
  {
    var m, s := c.q, i * a;
    CongMul(i * i, -1, a * a, a * a, m);
    assert s * s == i * i * (a * a);
    CongAdd(a * a - (-c.d) * (b * b), 0, s * s, -1 * (a * a), m);
    assert a * a - (-c.d) * (b * b) + s * s == s * s + c.d * (b * b) + a * a;
    MinusForm(m, s * s, a * a, c.d * (b * b));
    assert SquareTimes(c, s, b);
  }

  lemma MinusForm(m: int, ss: int, aa: int, dbb: int)
    requires m > 0 && Cong(aa + dbb, 0, m) && Cong(ss, -1 * aa, m)
    ensures Cong(ss, dbb, m)
  {
    CongAdd(aa + dbb, 0, -1 * aa, -1 * aa, m);
    CongSub(aa + dbb, 0, aa, aa, m);
  }

  /** Times a root of -1, a point of the twisted curve is one of u^2 + v^2 = 1 - d u^2 v^2. */
  lemma Twist(m: int, d: int, i: int, u: int, v: int)
    requires m > 0 && Cong(i * i, -1, m) && Cong(Equation(d, u, v), 0, m)
    ensures var a := i * u; Cong(a * a + v * v - 1 - (-d) * (a * v * (a * v)), 0, m)
  {
    var a, x := i * u, u * u + d * (u * u) * (v * v);
    assert a * a + v * v - 1 - (-d) * (a * v * (a * v)) == i * i * x + (v * v - 1) by {
      assert a * a == i * i * (u * u);
      assert a * v * (a * v) == a * a * (v * v);
      assert i * i * x == i * i * (u * u) + i * i * (d * (u * u) * (v * v));
      assert d * (i * i * (u * u) * (v * v)) == i * i * (d * (u * u) * (v * v));
    }
    CongMul(i * i, -1, x, x, m);
    CongAdd(i * i * x, -1 * x, v * v - 1, v * v - 1, m);
    assert -1 * x + (v * v - 1) == Equation(d, u, v);
  }

  lemma TwistTerms(d: int, i: int, u1: int, v1: int, u2: int, v2: int)
    ensures (-d) * (i * u1 * v1) * (i * u2 * v2) == i * i * (-1 * (d * u1 * u2 * v1 * v2))
  {
    var x, y := u1 * v1, u2 * v2;
    assert i * u1 * v1 == i * x && i * u2 * v2 == i * y;
    assert d * u1 * u2 * v1 * v2 == d * (x * y);
    assert (-d) * (i * x) * (i * y) == i * i * (-1 * (d * (x * y)));
  }

  lemma TwistProduct(m: int, d: int, i: int, u1: int, v1: int, u2: int, v2: int, e: int)
    requires m > 0 && Cong(i * i, -1, m) && Cong(d * u1 * u2 * v1 * v2, e, m)
    ensures Cong((-d) * (i * u1 * v1) * (i * u2 * v2) - e, 0, m)
  {
    var x := d * u1 * u2 * v1 * v2;
    TwistTerms(d, i, u1, v1, u2, v2);
    TwistUnit(m, i, x, e);
  }

  lemma TwistUnit(m: int, i: int, x: int, e: int)
    requires m > 0 && Cong(i * i, -1, m) && Cong(x, e, m)
    ensures Cong(i * i * (-1 * x) - e, 0, m)
  {
    CongMul(i * i, -1, -1 * x, -1 * x, m);
    CongSub(i * i * (-1 * x), x, e, e, m);
    CongSub(x, e, e, e, m);
  }

  lemma UnitNotZero(m: int, e: int)
    requires m > 2 && (e == 1 || e == -1)
    ensures !Cong(e, 0, m) && !Cong(2 * e, 0, m)
  {
    DivisionUnique(1, m, 0, 1);
    DivisionUnique(-1, m, -1, m - 1);
    DivisionUnique(2, m, 0, 2);
    DivisionUnique(-2, m, -1, m - 2);
  }

  lemma ZeroFactor(m: int, b: int, x: int)
    requires m > 0 && Cong(b, 0, m)
    ensures Cong(b * x, 0, m)
  {
    CongMul(b, 0, x, x, m);
  }

  /** A product that is a unit has no factor zero. */
  lemma NoZeroFactor(m: int, k: int, p: int, a: int, b: int, e: int)
    requires m > 2 && (e == 1 || e == -1)
    requires Cong(k * p * (a * b) - e, 0, m)
    ensures !Cong(p, 0, m) && !Cong(b, 0, m)
  {
    hide Cong;
    var t := k * p * (a * b);
    assert t == p * (k * (a * b)) && t == b * (k * p * a);
    UnitNotZero(m, e);
    if Cong(p, 0, m) {
      ZeroFactor(m, p, k * (a * b));
      ZeroUnit(m, t, e);
    }
    if Cong(b, 0, m) {
      ZeroFactor(m, b, k * p * a);
      ZeroUnit(m, t, e);
    }
  }

  lemma ZeroUnit(m: int, t: int, e: int)
    requires m > 0 && Cong(t - e, 0, m) && Cong(t, 0, m)
    ensures Cong(e, 0, m)
  {
    CongSub(t, 0, t - e, 0, m);
  }

  /** The product in the denominators of the addition law is never 1 or -1 on the curve. */
  lemma NotUnit(c: Curve, u1: int, v1: int, u2: int, v2: int, e: int)
    requires Good(c) && (e == 1 || e == -1)
    requires Cong(Equation(c.d, u1, v1), 0, c.q) && Cong(Equation(c.d, u2, v2), 0, c.q)
    ensures !Cong(c.d * u1 * u2 * v1 * v2, e, c.q)
  {
    hide Cong;
    var i :| RootOfMinusOne(c, i);
    Twist(c.q, c.d, i, u1, v1);
    Twist(c.q, c.d, i, u2, v2);
    NotTwistedUnit(c, i, i * u1, v1, i * u2, v2, e);
    if Cong(c.d * u1 * u2 * v1 * v2, e, c.q) {
      TwistProduct(c.q, c.d, i, u1, v1, u2, v2, e);
    }
  }

  lemma NotTwistedUnit(c: Curve, i: int, a1: int, b1: int, a2: int, b2: int, e: int)
    requires Good(c) && RootOfMinusOne(c, i) && (e == 1 || e == -1)
    requires Cong(a1 * a1 + b1 * b1 - 1 - (-c.d) * (a1 * b1 * (a1 * b1)), 0, c.q)
    requires Cong(a2 * a2 + b2 * b2 - 1 - (-c.d) * (a2 * b2 * (a2 * b2)), 0, c.q)
    ensures !Cong((-c.d) * (a1 * b1) * (a2 * b2) - e, 0, c.q)
  {
    hide Cong;
    var m, k, p := c.q, -c.d, a1 * b1;
    if Cong(k * p * (a2 * b2) - e, 0, m) {
      NoZeroFactor(m, k, p, a2, b2, e);
      SquareRelation(m, k, e, a1, b1, a2, b2);
      NoSquareRelation(c, i, a1 + e * b1, p * (a2 + b2));
      Mirror(m, k, p, a2, b2, e);
      SquareRelation(m, k, -e, a1, b1, a2, -b2);
      NoSquareRelation(c, i, a1 + (-e) * b1, p * (a2 + (-b2)));
      Euclid(p, a2 + b2, m);
      Euclid(p, a2 + (-b2), m);
      SumAndDifferenceZero(m, a2, b2);
    }
  }

  lemma SumAndDifferenceZero(m: int, a: int, b: int)
    requires IsPrime(m) && m > 2 && Cong(a + b, 0, m) && Cong(a + (-b), 0, m)
    ensures Cong(b, 0, m)
  {
    hide Cong;
    CongSub(a + b, 0, a + (-b), 0, m);
    assert a + b - (a + (-b)) == 2 * b;
    UnitNotZero(m, 1);
    Euclid(2, b, m);
  }

  lemma MirrorTerms(k: int, p: int, a: int, b: int)
    ensures (-b) * (-b) == b * b && a * (-b) * (a * (-b)) == a * b * (a * b)
    ensures k * p * (a * (-b)) == -(k * p * (a * b))
  {
    var n := a * b;
    assert a * (-b) == -n && (-n) * (-n) == n * n;
  }

  lemma Mirror(m: int, k: int, p: int, a: int, b: int, e: int)
    requires m > 0
    requires Cong(a * a + b * b - 1 - k * (a * b * (a * b)), 0, m) && Cong(k * p * (a * b) - e, 0, m)
    ensures Cong(a * a + (-b) * (-b) - 1 - k * (a * (-b) * (a * (-b))), 0, m)
    ensures Cong(k * p * (a * (-b)) - (-e), 0, m)
  {
    hide Cong;
    MirrorTerms(k, p, a, b);
    CongRefl(0, m);
    CongSub(0, 0, k * p * (a * b) - e, 0, m);
  }

  /** Completeness: no two points of the curve make a denominator zero. */
  lemma Completeness(c: Curve, u1: int, v1: int, u2: int, v2: int)
    requires Good(c)
    requires Cong(Equation(c.d, u1, v1), 0, c.q) && Cong(Equation(c.d, u2, v2), 0, c.q)
    ensures !Cong(1 + c.d * u1 * u2 * v1 * v2, 0, c.q) && !Cong(1 - c.d * u1 * u2 * v1 * v2, 0, c.q)
  {
    hide Cong;
    var t := c.d * u1 * u2 * v1 * v2;
    NotUnit(c, u1, v1, u2, v2, 1);
    NotUnit(c, u1, v1, u2, v2, -1);
    DenominatorUnit(c.q, t);
  }

  lemma DenominatorUnit(m: int, t: int)
    requires m > 0
    ensures Cong(1 + t, 0, m) ==> Cong(t, -1, m)
    ensures Cong(1 - t, 0, m) ==> Cong(t, 1, m)
  {
    CongZero(t, -1, m);
    CongZero(t, 1, m);
    if Cong(1 + t, 0, m) {
      assert t - -1 == 1 + t;
      DivisionUnique(0, m, 0, 0);
    }
    if Cong(1 - t, 0, m) {
      CongSub(0, 0, 1 - t, 0, m);
      DivisionUnique(0, m, 0, 0);
    }
  }

  // ----- The sum is on the curve -----

  /** What is left of the curve equation of a sum, over its common denominator. */
  function SumEquation(d: int, n1: int, n2: int, d1: int, d2: int): int {
    n2 * n2 * (d1 * d1) - n1 * n1 * (d2 * d2) - d1 * d1 * (d2 * d2) - d * (n1 * n1 * (n2 * n2))
  }

  lemma SquareOfBinomial(a: int, b: int)
    ensures (a + b) * (a + b) == a * a + b * b + 2 * (a * b)
    ensures (a - b) * (a - b) == a * a + b * b - 2 * (a * b)
    ensures (a - b) * (a + b) == a * a - b * b
  {
  }

  lemma NumeratorSquares(u1: int, v1: int, u2: int, v2: int)
    ensures var n1, n2 := u1 * v2 + u2 * v1, v1 * v2 + u1 * u2;
            var s1, s2, r1, r2 := v1 * v1 - u1 * u1, v2 * v2 - u2 * u2, v1 * v1 + u1 * u1, v2 * v2 + u2 * u2;
            var p := u1 * v1 * (u2 * v2);
            && n2 * n2 - n1 * n1 == s1 * s2
            && n2 * n2 + n1 * n1 == r1 * r2 + 4 * p
  {
    var n1, n2 := u1 * v2 + u2 * v1, v1 * v2 + u1 * u2;
    var a1, b1, a2, b2 := v1 - u1, v1 + u1, v2 - u2, v2 + u2;
    FourProducts(v1, u1, v2, u2);
    assert n2 - n1 == a1 * a2 && n2 + n1 == b1 * b2;
    SquareOfBinomial(n2, n1);
    SquareOfBinomial(v1, u1);
    SquareOfBinomial(v2, u2);
    PairProduct(a1, a2, b1, b2);
    PairProduct(a1, a2, a1, a2);
    PairProduct(b1, b2, b1, b2);
    HalfSum(v1 * v1 + u1 * u1, v2 * v2 + u2 * u2, v1 * u1, v2 * u2);
    PairProduct(u1, v1, u2, v2);
    PairProduct(v1, u1, v2, u2);
  }

  lemma HalfSum(r1: int, r2: int, p1: int, p2: int)
    ensures (r1 - 2 * p1) * (r2 - 2 * p2) + (r1 + 2 * p1) * (r2 + 2 * p2) == 2 * (r1 * r2) + 8 * (p1 * p2)
  {
  }

  lemma NumeratorProduct(u1: int, v1: int, u2: int, v2: int)
    ensures var n1, n2 := u1 * v2 + u2 * v1, v1 * v2 + u1 * u2;
            var s1, s2, r1, r2 := v1 * v1 - u1 * u1, v2 * v2 - u2 * u2, v1 * v1 + u1 * u1, v2 * v2 + u2 * u2;
            var a, b := u1 * v1, u2 * v2;
            n1 * n1 * (n2 * n2)
            == a * a * (s2 * s2) + b * b * (s1 * s1) + 8 * (a * b * (a * b)) + 2 * (a * b) * (r1 * r2)
  {
    var n1, n2 := u1 * v2 + u2 * v1, v1 * v2 + u1 * u2;
    var s1, s2, r1, r2 := v1 * v1 - u1 * u1, v2 * v2 - u2 * u2, v1 * v1 + u1 * u1, v2 * v2 + u2 * u2;
    var a, b := u1 * v1, u2 * v2;
    NumeratorTerms(u1, v1, u2, v2);
    SquareOfProduct(n1, n2, a * r2 + b * r1);
    SumSquared(u1, v1);
    SumSquared(u2, v2);
    SquareOfSum(a, b, r1, r2, s1, s2);
  }

  lemma NumeratorTerms(u1: int, v1: int, u2: int, v2: int)
    ensures (u1 * v2 + u2 * v1) * (v1 * v2 + u1 * u2)
            == u1 * v1 * (v2 * v2 + u2 * u2) + u2 * v2 * (v1 * v1 + u1 * u1)
  {
  }

  lemma SquareOfProduct(a: int, b: int, c: int)
    requires a * b == c
    ensures a * a * (b * b) == c * c
  {
    assert a * a * (b * b) == (a * b) * (a * b);
  }

  lemma SumSquared(u: int, v: int)
    ensures (v * v + u * u) * (v * v + u * u) == (v * v - u * u) * (v * v - u * u) + 4 * (u * v * (u * v))
  {
  }

  lemma SquareOfSum(a: int, b: int, r1: int, r2: int, s1: int, s2: int)
    requires r1 * r1 == s1 * s1 + 4 * (a * a) && r2 * r2 == s2 * s2 + 4 * (b * b)
    ensures (a * r2 + b * r1) * (a * r2 + b * r1)
            == a * a * (s2 * s2) + b * b * (s1 * s1) + 8 * (a * b * (a * b)) + 2 * (a * b) * (r1 * r2)
  {
    assert (a * r2 + b * r1) * (a * r2 + b * r1) == a * a * (r2 * r2) + b * b * (r1 * r1) + 2 * (a * b) * (r1 * r2);
    assert a * a * (r2 * r2) == a * a * (s2 * s2) + 4 * (a * b * (a * b));
    assert b * b * (r1 * r1) == b * b * (s1 * s1) + 4 * (a * b * (a * b));
  }

  /** The denominators 1 + t and 1 - t are free of the numerators but for their sums and differences. */
  lemma SumEquationForm(d: int, n1: int, n2: int, t: int, diff: int, sum: int, prod: int)
    requires diff == n2 * n2 - n1 * n1 && sum == n2 * n2 + n1 * n1 && prod == n1 * n1 * (n2 * n2)
    ensures SumEquation(d, n1, n2, 1 + t, 1 - t)
            == diff * (1 + t * t) + 2 * t * sum - (1 - t * t) * (1 - t * t) - d * prod
  {
    var x, y := n2 * n2, n1 * n1;
    assert (1 + t) * (1 + t) == 1 + 2 * t + t * t && (1 - t) * (1 - t) == 1 - 2 * t + t * t;
    assert (1 + t) * (1 + t) * ((1 - t) * (1 - t)) == (1 - t * t) * (1 - t * t);
    assert x * (1 + 2 * t + t * t) - y * (1 - 2 * t + t * t) == (x - y) * (1 + t * t) + 2 * t * (x + y);
  }

  lemma CrossTermsCancel(d: int, p: int, rr: int, x: int)
    ensures 2 * (d * p) * (rr + 4 * p) - d * (x + 8 * (p * p) + 2 * p * rr) == -(d * x)
  {
    var w := 8 * (p * p) + 2 * p * rr;
    assert 2 * (d * p) * (rr + 4 * p) == d * w;
    assert d * (x + w) == d * x + d * w;
  }

  /** With a = u1 v1, b = u2 v2 and t = d a b, the equation of the sum in terms of the points' own. */
  lemma SumEquationReduced(d: int, u1: int, v1: int, u2: int, v2: int)
    ensures var s1, s2, a, b := v1 * v1 - u1 * u1, v2 * v2 - u2 * u2, u1 * v1, u2 * v2;
            var t := d * (a * b);
            SumEquation(d, u1 * v2 + u2 * v1, v1 * v2 + u1 * u2, 1 + t, 1 - t)
            == s1 * s2 * (1 + t * t) - (1 - t * t) * (1 - t * t) - d * (a * a * (s2 * s2) + b * b * (s1 * s1))
  {
    hide SumEquation;
    var n1, n2 := u1 * v2 + u2 * v1, v1 * v2 + u1 * u2;
    var s1, s2, r1, r2 := v1 * v1 - u1 * u1, v2 * v2 - u2 * u2, v1 * v1 + u1 * u1, v2 * v2 + u2 * u2;
    var a, b := u1 * v1, u2 * v2;
    var p, rr, x := a * b, r1 * r2, a * a * (s2 * s2) + b * b * (s1 * s1);
    NumeratorSquares(u1, v1, u2, v2);
    NumeratorProduct(u1, v1, u2, v2);
    SumEquationForm(d, n1, n2, d * p, s1 * s2, rr + 4 * p, x + 8 * (p * p) + 2 * p * rr);
    CrossTermsCancel(d, p, rr, x);
  }

  /** Where both points satisfy s = 1 + d a^2, nothing is left. */
  lemma NothingLeft(d: int, a: int, b: int)
    ensures var t, s1, s2 := d * (a * b), 1 + d * (a * a), 1 + d * (b * b);
            s1 * s2 * (1 + t * t) - (1 - t * t) * (1 - t * t) - d * (a * a * (s2 * s2) + b * b * (s1 * s1)) == 0
  {
    var x, y := d * (a * a), d * (b * b);
    var t := d * (a * b);
    assert t * t == x * y;
    assert d * (a * a * ((1 + y) * (1 + y)) + b * b * ((1 + x) * (1 + x)))
           == x * ((1 + y) * (1 + y)) + y * ((1 + x) * (1 + x));
    assert (1 + x) * (1 + y) * (1 + x * y) - (1 - x * y) * (1 - x * y)
           == x * ((1 + y) * (1 + y)) + y * ((1 + x) * (1 + x));
  }

  lemma ReducedCong(m: int, d: int, s1: int, s2: int, s1': int, s2': int, a: int, b: int, t: int)
    requires m > 0 && Cong(s1, s1', m) && Cong(s2, s2', m)
    ensures Cong(s1 * s2 * (1 + t * t) - (1 - t * t) * (1 - t * t) - d * (a * a * (s2 * s2) + b * b * (s1 * s1)),
                 s1' * s2' * (1 + t * t) - (1 - t * t) * (1 - t * t)
                 - d * (a * a * (s2' * s2') + b * b * (s1' * s1')), m)
  {
    hide Cong;
    var k, l, aa, bb := 1 + t * t, (1 - t * t) * (1 - t * t), a * a, b * b;
    CongRefl(k, m);
    CongRefl(l, m);
    CongRefl(aa, m);
    CongRefl(bb, m);
    CongRefl(d, m);
    CongProducts(s1, s2, k, s1', s2', k, m);
    CongSub(s1 * s2 * k, s1' * s2' * k, l, l, m);
    CongMul(s2, s2', s2, s2', m);
    CongMul(s1, s1', s1, s1', m);
    CongMul(aa, aa, s2 * s2, s2' * s2', m);
    CongMul(bb, bb, s1 * s1, s1' * s1', m);
    CongAdd(aa * (s2 * s2), aa * (s2' * s2'), bb * (s1 * s1), bb * (s1' * s1'), m);
    CongMul(d, d, aa * (s2 * s2) + bb * (s1 * s1), aa * (s2' * s2') + bb * (s1' * s1'), m);
    CongSub(s1 * s2 * k - l, s1' * s2' * k - l, d * (aa * (s2 * s2) + bb * (s1 * s1)),
            d * (aa * (s2' * s2') + bb * (s1' * s1')), m);
  }

  lemma DenominatorTerm(d: int, u1: int, v1: int, u2: int, v2: int)
    ensures d * u1 * u2 * v1 * v2 == d * (u1 * v1 * (u2 * v2))
  {
    assert u1 * v1 * (u2 * v2) == u1 * u2 * v1 * v2;
    assert d * (u1 * u2 * v1 * v2) == d * u1 * u2 * v1 * v2;
  }

  lemma SumEquationZero(m: int, d: int, u1: int, v1: int, u2: int, v2: int)
    requires m > 0 && Cong(Equation(d, u1, v1), 0, m) && Cong(Equation(d, u2, v2), 0, m)
    ensures var l := LawOf(d, 1, 1, u1, v1, u2, v2);
            Cong(SumEquation(d, l.n1, l.n2, l.d1, l.d2), 0, m)
  {
    hide SumEquation;
    hide Cong;
    hide Equation;
    var s1, s2, a, b := v1 * v1 - u1 * u1, v2 * v2 - u2 * u2, u1 * v1, u2 * v2;
    var t := d * (a * b);
    DenominatorTerm(d, u1, v1, u2, v2);
    EquationAsSum(m, d, u1, v1);
    EquationAsSum(m, d, u2, v2);
    SumEquationReduced(d, u1, v1, u2, v2);
    ReducedCong(m, d, s1, s2, 1 + d * (a * a), 1 + d * (b * b), a, b, t);
    NothingLeft(d, a, b);
  }

  lemma EquationAsSum(m: int, d: int, u: int, v: int)
    requires m > 0
    ensures Cong(Equation(d, u, v), 0, m) <==> Cong(v * v - u * u, 1 + d * (u * v * (u * v)), m)
  {
    hide Cong;
    PairProduct(u, v, u, v);
    assert d * (u * u) * (v * v) == d * (u * u * (v * v));
    CongZero(v * v - u * u, 1 + d * (u * v * (u * v)), m);
    CongZero(Equation(d, u, v), 0, m);
  }

  lemma SumEquationScaled(d: int, u: int, v: int, d1: int, d2: int)
    ensures SumEquation(d, u * d1, v * d2, d1, d2) == d1 * d1 * (d2 * d2) * Equation(d, u, v)
  {
    var x, y, a, b := d1 * d1, d2 * d2, u * u, v * v;
    assert u * d1 * (u * d1) == a * x && v * d2 * (v * d2) == b * y;
    assert b * y * x - a * x * y - x * y - d * (a * x * (b * y)) == x * y * (b - a - 1 - d * a * b);
  }

  lemma SumEquationCong(m: int, d: int, n1: int, n2: int, n1': int, n2': int, d1: int, d2: int)
    requires m > 0 && Cong(n1, n1', m) && Cong(n2, n2', m)
    ensures Cong(SumEquation(d, n1, n2, d1, d2), SumEquation(d, n1', n2', d1, d2), m)
  {
    hide Cong;
    var x, y := d1 * d1, d2 * d2;
    CongRefl(x, m);
    CongRefl(y, m);
    CongRefl(x * y, m);
    CongRefl(d, m);
    CongMul(n1, n1', n1, n1', m);
    CongMul(n2, n2', n2, n2', m);
    CongMul(n2 * n2, n2' * n2', x, x, m);
    CongMul(n1 * n1, n1' * n1', y, y, m);
    CongMul(n1 * n1, n1' * n1', n2 * n2, n2' * n2', m);
    CongMul(d, d, n1 * n1 * (n2 * n2), n1' * n1' * (n2' * n2'), m);
    CongSub(n2 * n2 * x, n2' * n2' * x, n1 * n1 * y, n1' * n1' * y, m);
    CongSub(n2 * n2 * x - n1 * n1 * y, n2' * n2' * x - n1' * n1' * y, x * y, x * y, m);
    CongSub(n2 * n2 * x - n1 * n1 * y - x * y, n2' * n2' * x - n1' * n1' * y - x * y,
            d * (n1 * n1 * (n2 * n2)), d * (n1' * n1' * (n2' * n2')), m);
  }

  /** The affine sum of two points of the curve satisfies the curve equation. */
  lemma SumSatisfiesEquation(m: int, d: int, u1: int, v1: int, u2: int, v2: int, u: int, v: int)
    requires IsPrime(m)
    requires Cong(Equation(d, u1, v1), 0, m) && Cong(Equation(d, u2, v2), 0, m)
    requires var l := LawOf(d, 1, 1, u1, v1, u2, v2);
             !Cong(l.d1, 0, m) && !Cong(l.d2, 0, m) && Cong(l.n1, u * l.d1, m) && Cong(l.n2, v * l.d2, m)
    ensures Cong(Equation(d, u, v), 0, m)
  {
    hide Cong;
    hide SumEquation;
    hide Equation;
    var l := LawOf(d, 1, 1, u1, v1, u2, v2);
    var f := l.d1 * l.d1 * (l.d2 * l.d2);
    SumEquationZero(m, d, u1, v1, u2, v2);
    SumEquationCong(m, d, l.n1, l.n2, u * l.d1, v * l.d2, l.d1, l.d2);
    SumEquationScaled(d, u, v, l.d1, l.d2);
    SameZero(SumEquation(d, l.n1, l.n2, l.d1, l.d2), f * Equation(d, u, v), m);
    Euclid(f, Equation(d, u, v), m);
    if Cong(f, 0, m) {
      Euclid(l.d1 * l.d1, l.d2 * l.d2, m);
      if Cong(l.d1 * l.d1, 0, m) { Euclid(l.d1, l.d1, m); } else { Euclid(l.d2, l.d2, m); }
    }
  }

  // ----- On the curve, in extended coordinates -----

  lemma ExtendedEquation(m: int, d: int, p: Point, u: int, v: int)
    requires m > 0 && Represents(m, p, u, v)
    ensures Cong(p.y * p.y - p.x * p.x - p.z * p.z - d * p.t * p.t, p.z * p.z * Equation(d, u, v), m)
    ensures Cong(p.x * p.y, p.z * p.t, m)
  {
    hide Cong;
    var x, y, z, t := u * p.z, v * p.z, p.z, u * v * p.z;
    CongRefl(z, m);
    CongRefl(z * z, m);
    CongRefl(d, m);
    CongMul(p.x, x, p.x, x, m);
    CongMul(p.y, y, p.y, y, m);
    CongMul(p.t, t, p.t, t, m);
    CongMul(d, d, p.t * p.t, t * t, m);
    CongSub(p.y * p.y, y * y, p.x * p.x, x * x, m);
    CongSub(p.y * p.y - p.x * p.x, y * y - x * x, z * z, z * z, m);
    CongSub(p.y * p.y - p.x * p.x - z * z, y * y - x * x - z * z, d * (p.t * p.t), d * (t * t), m);
    assert d * p.t * p.t == d * (p.t * p.t);
    ExtendedTerms(d, u, v, z);
    CongMul(p.x, x, p.y, y, m);
    CongMul(z, z, p.t, t, m);
    BothCong(p.x * p.y, p.z * p.t, x * y, m);
  }

  lemma ExtendedTerms(d: int, u: int, v: int, z: int)
    ensures var x, y, t := u * z, v * z, u * v * z;
            && y * y - x * x - z * z - d * (t * t) == z * z * Equation(d, u, v)
            && x * y == z * t
  {
    var a, b, w := u * u, v * v, z * z;
    assert u * z * (u * z) == a * w && v * z * (v * z) == b * w;
    assert u * v * z * (u * v * z) == a * b * w;
    assert b * w - a * w - w - d * (a * b * w) == w * (b - a - 1 - d * a * b);
  }

  /** Extended coordinates are on the curve exactly when the affine point they represent is. */
  lemma OnCurveEquation(c: Curve, p: Point, u: int, v: int)
    requires IsPrime(c.q) && Represents(c.q, p, u, v)
    ensures OnCurve(c, p) <==> Cong(Equation(c.d, u, v), 0, c.q)
  {
    var m, e := c.q, Equation(c.d, u, v);
    ExtendedEquation(m, c.d, p, u, v);
    DivisionUnique(0, m, 0, 0);
    if Cong(p.z * p.z * e, 0, m) {
      Euclid(p.z * p.z, e, m);
      if Cong(p.z * p.z, 0, m) {
        Euclid(p.z, p.z, m);
      }
    }
    if Cong(e, 0, m) {
      CongMul(p.z * p.z, p.z * p.z, e, 0, m);
    }
  }

  lemma OnCurveRepresents(c: Curve, p: Point)
    requires IsPrime(c.q) && c.q > 2 && OnCurve(c, p)
    ensures Represents(c.q, p, ToAffine(c, p).x, ToAffine(c, p).y)
    ensures Cong(Equation(c.d, ToAffine(c, p).x, ToAffine(c, p).y), 0, c.q)
    ensures AffineOnCurve(c, ToAffine(c, p))
  {
    hide ToAffine;
    RepresentsToAffine(c, p);
    OnCurveEquation(c, p, ToAffine(c, p).x, ToAffine(c, p).y);
    EquationOf(c, ToAffine(c, p));
  }

  /** The sum of two representations, when the affine law applies. */
  lemma AddRepresents(c: Curve, p1: Point, p2: Point, a1: Affine, a2: Affine)
    requires Good(c)
    requires Represents(c.q, p1, a1.x, a1.y) && Represents(c.q, p2, a2.x, a2.y)
    requires Cong(Equation(c.d, a1.x, a1.y), 0, c.q) && Cong(Equation(c.d, a2.x, a2.y), 0, c.q)
    ensures Represents(c.q, Add(c, p1, p2), AffineAdd(c, a1, a2).x, AffineAdd(c, a1, a2).y)
    ensures Cong(Equation(c.d, AffineAdd(c, a1, a2).x, AffineAdd(c, a1, a2).y), 0, c.q)
  {
    hide Cong;
    hide Equation;
    hide InvMod;
    hide Add;
    var m := c.q;
    var l := LawOf(c.d, p1.z, p2.z, a1.x, a1.y, a2.x, a2.y);
    var sum := AffineAdd(c, a1, a2);
    AddFollows(c, p1, p2, a1.x, a1.y, a2.x, a2.y);
    Completeness(c, a1.x, a1.y, a2.x, a2.y);
    LawTerms(c, a1, a2);
    QuotientTimes(c, l.n1, l.d1);
    QuotientTimes(c, l.n2, l.d2);
    FactorNotZero(m, p1.z, p2.z);
    FollowsRepresents(m, Add(c, p1, p2), l, sum.x, sum.y);
    SumSatisfiesEquation(m, c.d, a1.x, a1.y, a2.x, a2.y, sum.x, sum.y);
  }

  lemma LawTerms(c: Curve, p: Affine, q: Affine)
    requires c.q > 2
    ensures var l := LawOf(c.d, 1, 1, p.x, p.y, q.x, q.y);
            AffineAdd(c, p, q) == Affine(l.n1 * InvMod(c, l.d1) % c.q, l.n2 * InvMod(c, l.d2) % c.q)
  {
    hide InvMod;
  }

  lemma FactorNotZero(m: int, z1: int, z2: int)
    requires IsPrime(m) && m > 2 && !Cong(z1, 0, m) && !Cong(z2, 0, m)
    ensures !Cong(2 * z1 * z2, 0, m)
  {
    hide Cong;
    UnitNotZero(m, 1);
    if Cong(2 * z1 * z2, 0, m) {
      Euclid(2 * z1, z2, m);
      Euclid(2, z1, m);
    }
  }

  /**
   * On the curve the fast addition refines the affine one: the sum is on the curve again, and its
   * affine point is the affine sum.
   */
  lemma AddRefines(c: Curve, p1: Point, p2: Point)
    requires Good(c) && OnCurve(c, p1) && OnCurve(c, p2)
    ensures OnCurve(c, Add(c, p1, p2))
    ensures ToAffine(c, Add(c, p1, p2)) == AffineAdd(c, ToAffine(c, p1), ToAffine(c, p2))
  {
    hide ToAffine;
    hide Add;
    hide InvMod;
    var a1, a2 := ToAffine(c, p1), ToAffine(c, p2);
    OnCurveRepresents(c, p1);
    OnCurveRepresents(c, p2);
    AddRepresents(c, p1, p2, a1, a2);
    var sum := AffineAdd(c, a1, a2);
    OnCurveEquation(c, Add(c, p1, p2), sum.x, sum.y);
    RepresentedPoint(c, Add(c, p1, p2), sum.x, sum.y);
    AffineReduced(c, a1, a2);
  }

  lemma AffineReduced(c: Curve, p: Affine, q: Affine)
    requires c.q > 2
    ensures var s := AffineAdd(c, p, q); s.x % c.q == s.x && s.y % c.q == s.y
  {
    hide InvMod;
    var s := AffineAdd(c, p, q);
    DivisionUnique(s.x, c.q, 0, s.x);
    DivisionUnique(s.y, c.q, 0, s.y);
  }

  /** Whatever its arguments, the fast addition keeps x y = z t. */
  lemma AddKeepsProduct(c: Curve, p1: Point, p2: Point)
    requires c.q > 0
    ensures var s := Add(c, p1, p2); Cong(s.x * s.y, s.z * s.t, c.q)
  {
    hide Cong;
    var a := (p1.y - p1.x) * (p2.y - p2.x) % c.q;
    var b := (p1.y + p1.x) * (p2.y + p2.x) % c.q;
    var cc := p1.t * 2 * c.d * p2.t % c.q;
    var dd := p1.z * 2 * p2.z % c.q;
    ProductsKeep(c.q, b - a, dd - cc, dd + cc, b + a);
  }

  lemma ProductsKeep(m: int, e: int, f: int, g: int, h: int)
    requires m > 0
    ensures Cong(e * f % m * (g * h % m), f * g % m * (e * h % m), m)
  {
    hide Cong;
    CongMod(e * f, m);
    CongMod(g * h, m);
    CongMod(f * g, m);
    CongMod(e * h, m);
    CongMul(e * f % m, e * f, g * h % m, g * h, m);
    CongMul(f * g % m, f * g, e * h % m, e * h, m);
    assert e * f * (g * h) == f * g * (e * h);
    BothCong(e * f % m * (g * h % m), f * g % m * (e * h % m), e * f * (g * h), m);
  }

  // ----- Doubling -----

  lemma DoubleTerms(x: int, y: int, z: int)
    ensures (x + y) * (x + y) - x * x - y * y == 2 * (x * y)
    ensures 2 * z * z == 2 * (z * z)
  {
  }

  /** The intermediate values of doubling, up to congruence. */
  lemma DoubleValues(m: int, p: Point)
    requires m > 0
    ensures var a, b, cc := p.x * p.x % m, p.y * p.y % m, 2 * p.z * p.z % m;
            var e := ((p.x + p.y) * (p.x + p.y) - a - b) % m;
            && Cong(e, 2 * (p.x * p.y), m)
            && Cong(-a + b, p.y * p.y - p.x * p.x, m)
            && Cong(-a + b - cc, p.y * p.y - p.x * p.x - 2 * (p.z * p.z), m)
            && Cong(-a - b, -(p.x * p.x) - p.y * p.y, m)
  {
    hide Cong;
    var xx, yy, zz := p.x * p.x, p.y * p.y, 2 * (p.z * p.z);
    var a, b, cc := xx % m, yy % m, 2 * p.z * p.z % m;
    CongMod(xx, m);
    CongMod(yy, m);
    DoubleTerms(p.x, p.y, p.z);
    CongMod(zz, m);
    var s := (p.x + p.y) * (p.x + p.y);
    CongRefl(s, m);
    CongRefl(0, m);
    CongSub(s, s, a, xx, m);
    CongSub(s - a, s - xx, b, yy, m);
    CongModOf(s - a - b, 2 * (p.x * p.y), m);
    CongSub(b, yy, a, xx, m);
    assert b - a == -a + b;
    CongSub(-a + b, yy - xx, cc, zz, m);
    CongSub(0, 0, a, xx, m);
    CongSub(0 - a, 0 - xx, b, yy, m);
    assert 0 - a - b == -a - b && 0 - xx - yy == -xx - yy;
  }

  lemma SelfAddTerms(d: int, x: int, y: int, z: int, t: int)
    ensures (y + x) * (y + x) - (y - x) * (y - x) == 2 * (2 * (x * y))
    ensures (y + x) * (y + x) + (y - x) * (y - x) == -2 * (-(x * x) - y * y)
    ensures t * 2 * d * t == 2 * (d * t * t) && z * 2 * z == 2 * (z * z)
  {
  }

  /** The intermediate values of adding a point of the curve to itself, in terms of those of doubling. */
  lemma SelfAddValues(m: int, d: int, p: Point)
    requires m > 0
    requires Cong(p.y * p.y - p.x * p.x - p.z * p.z - d * p.t * p.t, 0, m)
    ensures var a, b := (p.y - p.x) * (p.y - p.x) % m, (p.y + p.x) * (p.y + p.x) % m;
            var cc, dd := p.t * 2 * d * p.t % m, p.z * 2 * p.z % m;
            && Cong(b - a, 2 * (2 * (p.x * p.y)), m)
            && Cong(b + a, -2 * (-(p.x * p.x) - p.y * p.y), m)
            && Cong(dd - cc, -2 * (p.y * p.y - p.x * p.x - 2 * (p.z * p.z)), m)
            && Cong(dd + cc, 2 * (p.y * p.y - p.x * p.x), m)
  {
    hide Cong;
    SelfAddTerms(d, p.x, p.y, p.z, p.t);
    ResiduesOf(m, (p.y + p.x) * (p.y + p.x), (p.y - p.x) * (p.y - p.x));
    SelfAddDenominators(m, p.y * p.y - p.x * p.x, p.z * p.z, d * p.t * p.t);
  }

  lemma ResiduesOf(m: int, b: int, a: int)
    requires m > 0
    ensures Cong(b % m - a % m, b - a, m) && Cong(b % m + a % m, b + a, m)
  {
    hide Cong;
    CongMod(a, m);
    CongMod(b, m);
    CongSub(b % m, b, a % m, a, m);
    CongAdd(b % m, b, a % m, a, m);
  }

  lemma SelfAddDenominators(m: int, diff: int, zz: int, s: int)
    requires m > 0 && Cong(diff - zz - s, 0, m)
    ensures var cc, dd := 2 * s % m, 2 * zz % m;
            && Cong(dd - cc, -2 * (diff - 2 * zz), m)
            && Cong(dd + cc, 2 * diff, m)
  {
    hide Cong;
    var w := diff - zz;
    CongShift(m, w, s);
    CongModOf(2 * s, 2 * w, m);
    CongMod(2 * zz, m);
    CongSub(2 * zz % m, 2 * zz, 2 * s % m, 2 * w, m);
    CongAdd(2 * zz % m, 2 * zz, 2 * s % m, 2 * w, m);
  }

  lemma CongShift(m: int, w: int, s: int)
    requires m > 0 && Cong(w - s, 0, m)
    ensures Cong(2 * s, 2 * w, m)
  {
    CongZero(w, s, m);
    DivisionUnique(0, m, 0, 0);
    CongMul(2, 2, w, s, m);
  }

  /** On the curve, adding a point to itself gives -4 times the coordinates that doubling gives. */
  lemma SelfAddIsDouble(c: Curve, p: Point)
    requires c.q > 0
    requires Cong(p.y * p.y - p.x * p.x - p.z * p.z - c.d * p.t * p.t, 0, c.q)
    ensures var s, r := Add(c, p, p), Double(c, p);
            && Cong(s.x, -4 * r.x, c.q) && Cong(s.y, -4 * r.y, c.q)
            && Cong(s.z, -4 * r.z, c.q) && Cong(s.t, -4 * r.t, c.q)
  {
    hide Cong;
    var m := c.q;
    var a, b := (p.y - p.x) * (p.y - p.x) % m, (p.y + p.x) * (p.y + p.x) % m;
    var cc, dd := p.t * 2 * c.d * p.t % m, p.z * 2 * p.z % m;
    var a', b', cc' := p.x * p.x % m, p.y * p.y % m, 2 * p.z * p.z % m;
    var e' := ((p.x + p.y) * (p.x + p.y) - a' - b') % m;
    var g', h' := -a' + b', -a' - b';
    SelfAddValues(m, c.d, p);
    DoubleValues(m, p);
    Scaled(m, b - a, e', 2, 2 * (p.x * p.y));
    Scaled(m, dd - cc, g' - cc', -2, p.y * p.y - p.x * p.x - 2 * (p.z * p.z));
    Scaled(m, dd + cc, g', 2, p.y * p.y - p.x * p.x);
    Scaled(m, b + a, h', -2, -(p.x * p.x) - p.y * p.y);
    ScaledProducts(m, b - a, dd - cc, dd + cc, b + a, e', g' - cc', g', h');
  }

  lemma ScaledProducts(m: int, e: int, f: int, g: int, h: int, e': int, f': int, g': int, h': int)
    requires m > 0 && Cong(e, 2 * e', m) && Cong(f, -2 * f', m) && Cong(g, 2 * g', m) && Cong(h, -2 * h', m)
    ensures Cong(e * f % m, -4 * (e' * f' % m), m) && Cong(g * h % m, -4 * (g' * h' % m), m)
    ensures Cong(f * g % m, -4 * (f' * g' % m), m) && Cong(e * h % m, -4 * (e' * h' % m), m)
  {
    hide Cong;
    ScaledProduct(m, e, f, 2, -2, e', f');
    ScaledProduct(m, g, h, 2, -2, g', h');
    ScaledProduct(m, f, g, -2, 2, f', g');
    ScaledProduct(m, e, h, 2, -2, e', h');
  }

  lemma Scaled(m: int, x: int, y: int, k: int, v: int)
    requires m > 0 && Cong(x, k * v, m) && Cong(y, v, m)
    ensures Cong(x, k * y, m)
  {
    CongMul(k, k, y, v, m);
  }

  lemma ScaledProduct(m: int, x: int, y: int, k: int, l: int, x': int, y': int)
    requires m > 0 && Cong(x, k * x', m) && Cong(y, l * y', m) && k * l == -4
    ensures Cong(x * y % m, -4 * (x' * y' % m), m)
  {
    hide Cong;
    CongMul(x, k * x', y, l * y', m);
    Regroup(k, l, x', y');
    CongModOf(x * y, -4 * (x' * y'), m);
    CongMod(x' * y', m);
    CongRefl(-4, m);
    CongMul(-4, -4, x' * y' % m, x' * y', m);
    BothCong(x * y % m, -4 * (x' * y' % m), -4 * (x' * y'), m);
  }

  lemma Regroup(k: int, l: int, x: int, y: int)
    ensures k * x * (l * y) == k * l * (x * y)
  {
  }

  /** Coordinates that are -4 times others represent the same affine point. */
  lemma ScaledRepresents(m: int, s: Point, r: Point, u: int, v: int)
    requires IsPrime(m) && m > 2 && Represents(m, s, u, v)
    requires Cong(s.x, -4 * r.x, m) && Cong(s.y, -4 * r.y, m) && Cong(s.z, -4 * r.z, m) && Cong(s.t, -4 * r.t, m)
    ensures Represents(m, r, u, v)
  {
    hide Cong;
    FourNotZero(m);
    ScaledCoordinate(m, s.x, r.x, u, s.z, r.z);
    ScaledCoordinate(m, s.y, r.y, v, s.z, r.z);
    ScaledCoordinate(m, s.t, r.t, u * v, s.z, r.z);
    if Cong(r.z, 0, m) {
      ZeroFactor(m, r.z, -4);
      assert r.z * -4 == -4 * r.z;
      SameZero(s.z, -4 * r.z, m);
    }
  }

  lemma FourNotZero(m: int)
    requires IsPrime(m) && m > 2
    ensures !Cong(-4, 0, m)
  {
    UnitNotZero(m, -1);
    UnitNotZero(m, 1);
    if Cong(-4, 0, m) {
      assert -4 == 2 * -2;
      Euclid(2, -2, m);
    }
  }

  lemma ScaledCoordinate(m: int, sx: int, rx: int, u: int, sz: int, rz: int)
    requires IsPrime(m) && !Cong(-4, 0, m)
    requires Cong(sx, u * sz, m) && Cong(sx, -4 * rx, m) && Cong(sz, -4 * rz, m)
    ensures Cong(rx, u * rz, m)
  {
    CongMul(u, u, sz, -4 * rz, m);
    assert u * (-4 * rz) == -4 * (u * rz);
    Cancel(-4, rx, u * rz, m);
  }

  /** On the curve, doubling refines the affine sum of a point with itself, and stays on the curve. */
  lemma DoubleRefines(c: Curve, p: Point)
    requires Good(c) && OnCurve(c, p)
    ensures OnCurve(c, Double(c, p))
    ensures ToAffine(c, Double(c, p)) == AffineAdd(c, ToAffine(c, p), ToAffine(c, p))
  {
    hide ToAffine;
    hide Add;
    hide Double;
    hide InvMod;
    var a := ToAffine(c, p);
    OnCurveRepresents(c, p);
    AddRepresents(c, p, p, a, a);
    DivisionUnique(0, c.q, 0, 0);
    SelfAddIsDouble(c, p);
    var sum := AffineAdd(c, a, a);
    ScaledRepresents(c.q, Add(c, p, p), Double(c, p), sum.x, sum.y);
    OnCurveEquation(c, Double(c, p), sum.x, sum.y);
    RepresentedPoint(c, Double(c, p), sum.x, sum.y);
    AffineReduced(c, a, a);
  }

  /** The conditions on the curve can be met: modulo 5, with d = 2, they are. */
  lemma GoodCurveExists()
    ensures Good(Curve(5, 2))
  {
    var c := Curve(5, 2);
    assert RootOfMinusOne(c, 2);
    assert !Divides(2, 5) && !Divides(3, 5) && !Divides(4, 5);
    forall a, b | SquareTimes(c, a, b)
      ensures Cong(b, 0, 5)
    {
      SquareMod5(a);
      SquareMod5(b);
    }
  }

  lemma SquareMod5(a: int)
    ensures a * a % 5 in {0, 1, 4} && (a * a % 5 == 0 <==> a % 5 == 0)
  {
    var k, r := a / 5, a % 5;
    assert a == 5 * k + r;
    assert a * a == (5 * k * k + 2 * k * r) * 5 + r * r;
    CongByMultiple(a * a, r * r, 5 * k * k + 2 * k * r, 5);
  }
}
