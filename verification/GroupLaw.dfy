/** The affine points of a good curve are an abelian group under affine addition. */
module GroupLaw {
  import opened ModArith
  import opened Edwards
  import opened CrossProducts

  const ZERO := Affine(0, 1)

  // ----- The affine points of the curve -----

  lemma PrimeOfGood(c: Curve)
    requires Good(c)
    ensures IsPrime(c.q) && c.q > 2
  {
  }

  ghost predicate Element(c: Curve, p: Affine)
    requires c.q > 0
  {
    0 <= p.x < c.q && 0 <= p.y < c.q && AffineOnCurve(c, p)
  }

  lemma Commutative(c: Curve, p: Affine, q: Affine)
    requires c.q > 2
    ensures AffineAdd(c, p, q) == AffineAdd(c, q, p)
  {
    hide InvMod;
    assert c.d * p.x * q.x * p.y * q.y == c.d * q.x * p.x * q.y * p.y;
    assert p.x * q.y + q.x * p.y == q.x * p.y + p.x * q.y;
    assert p.y * q.y + p.x * q.x == q.y * p.y + q.x * p.x;
  }

  /** The sum of two points of the curve is a point of the curve. */
  lemma SumIsElement(c: Curve, p: Affine, q: Affine)
    requires Good(c) && Element(c, p) && Element(c, q)
    ensures Element(c, AffineAdd(c, p, q))
  {
    hide InvMod;
    hide Add;
    var p1, p2 := Point(p.x, p.y, 1, p.x * p.y), Point(q.x, q.y, 1, q.x * q.y);
    UnitNotZero(c.q, 1);
    EquationOf(c, p);
    EquationOf(c, q);
    AddRepresents(c, p1, p2, p, q);
    EquationOf(c, AffineAdd(c, p, q));
  }

  lemma ZeroIsElement(c: Curve)
    requires c.q > 2
    ensures Element(c, ZERO)
  {
    DivisionUnique(0, c.q, 0, 0);
  }

  lemma AddZero(c: Curve, p: Affine)
    requires IsPrime(c.q) && c.q > 2 && Element(c, p)
    ensures AffineAdd(c, p, ZERO) == p && AffineAdd(c, ZERO, p) == p
  {
    hide InvMod;
    UnitNotZero(c.q, 1);
    Quotient(c, p.x, 1, p.x);
    Quotient(c, p.y, 1, p.y);
    DivisionUnique(p.x, c.q, 0, p.x);
    DivisionUnique(p.y, c.q, 0, p.y);
    Commutative(c, p, ZERO);
  }

  lemma ToAffineIsElement(c: Curve, p: Point)
    requires Good(c) && OnCurve(c, p)
    ensures Element(c, ToAffine(c, p))
  {
    hide InvMod;
    OnCurveRepresents(c, p);
  }

  // ----- Inverses -----

  function Negated(c: Curve, p: Affine): Affine
    requires c.q > 0
  {
    Affine(-p.x % c.q, p.y)
  }

  /** Every point has an inverse. */
  lemma NegatedAdds(c: Curve, p: Affine)
    requires Good(c) && Element(c, p)
    ensures Element(c, Negated(c, p)) && AffineAdd(c, p, Negated(c, p)) == ZERO
  {
    hide InvMod;
    hide Cong;
    hide Equation;
    var q, n, w := c.q, Negated(c, p), p.x * p.x;
    PrimeOfGood(c);
    EquationOf(c, p);
    EquationOf(c, n);
    CongMod(-p.x, q);
    NegatedSquares(c, p, n);
    Completeness(c, p.x, p.y, n.x, n.y);
    hide Good;
    hide IsPrime;
    var l := LawOf(c.d, 1, 1, p.x, p.y, n.x, n.y);
    LawTerms(c, p, n);
    Quotient(c, l.n1, l.d1, 0);
    Quotient(c, l.n2, l.d2, 1);
    DivisionUnique(0, q, 0, 0);
    DivisionUnique(1, q, 0, 1);
    hide LawOf;
    ReducedFraction(l.n1 * InvMod(c, l.d1), 0, q);
    ReducedFraction(l.n2 * InvMod(c, l.d2), 1, q);
  }

  lemma ReducedFraction(a: int, r: int, m: int)
    requires m > 0 && Cong(a, r, m) && 0 <= r < m
    ensures a % m == r
  {
    DivisionUnique(r, m, 0, r);
  }

  /** The law for a point and its inverse: the numerators are 0 and the denominator. */
  lemma NegatedSquares(c: Curve, p: Affine, n: Affine)
    requires c.q > 2 && Cong(Equation(c.d, p.x, p.y), 0, c.q) && Cong(n.x, -p.x, c.q) && n.y == p.y
    ensures Cong(Equation(c.d, n.x, n.y), 0, c.q)
    ensures var l := LawOf(c.d, 1, 1, p.x, p.y, n.x, n.y);
            Cong(l.n1, 0 * l.d1, c.q) && Cong(l.n2, 1 * l.d2, c.q)
  {
    hide Cong;
    hide Equation;
    var q, d, x, y, u := c.q, c.d, p.x, p.y, n.x;
    CongMul(u, -x, u, -x, q);
    CongRefl(x, q);
    CongMul(x, x, u, -x, q);
    NegatedProducts(x);
    SameEquation(q, d, u, x, y);
    CongTrans(Equation(d, u, y), Equation(d, x, y), 0, q);
    CongRefl(x * y, q);
    CongTimes(u, -x, y, q);
    CongAdd(x * y, x * y, u * y, -x * y, q);
    NegatedTimes(x, y);
    SameSum(q, d, x, y, u);
  }

  lemma NegatedProducts(x: int)
    ensures -x * -x == x * x && x * -x == -(x * x)
  {
  }

  lemma NegatedTimes(x: int, y: int)
    ensures x * y + -x * y == 0
  {
  }

  lemma EquationByX(d: int, x: int, y: int)
    ensures Equation(d, x, y) == y * y - 1 - x * x * (1 + d * (y * y))
    ensures Equation(d, x, y) == y * y - x * x - (1 + x * x * (d * (y * y)))
  {
    assert d * (x * x) * (y * y) == x * x * (d * (y * y));
  }

  lemma SameEquation(q: int, d: int, u: int, x: int, y: int)
    requires q > 0 && Cong(u * u, x * x, q)
    ensures Cong(Equation(d, u, y), Equation(d, x, y), q)
  {
    hide Cong;
    hide Equation;
    EquationByX(d, u, y);
    EquationByX(d, x, y);
    CongTimes(u * u, x * x, 1 + d * (y * y), q);
    CongRefl(y * y - 1, q);
    CongSub(y * y - 1, y * y - 1, u * u * (1 + d * (y * y)), x * x * (1 + d * (y * y)), q);
  }

  /** With x u = -x^2 the second numerator and its denominator are equal on the curve. */
  lemma SameSum(q: int, d: int, x: int, y: int, u: int)
    requires q > 0 && Cong(x * u, -(x * x), q) && Cong(Equation(d, x, y), 0, q)
    ensures Cong(y * y + x * u, 1 - d * x * u * y * y, q)
  {
    hide Cong;
    hide Equation;
    var xx, yy, k := x * x, y * y, d * (y * y);
    CongRefl(yy, q);
    CongAdd(yy, yy, x * u, -xx, q);
    CongTimes(x * u, -xx, k, q);
    CongRefl(1, q);
    CongSub(1, 1, x * u * k, -xx * k, q);
    assert -xx * k == -(xx * k);
    EquationByX(d, x, y);
    CongRefl(1 + xx * k, q);
    CongAdd(Equation(d, x, y), 0, 1 + xx * k, 1 + xx * k, q);
    CongTrans(yy + x * u, yy - xx, 1 + xx * k, q);
    BothCong(yy + x * u, 1 - x * u * k, 1 + xx * k, q);
    FactorsInOrder(d, x, u, y);
  }

  lemma FactorsInOrder(d: int, x: int, u: int, y: int)
    ensures d * x * u * y * y == x * u * (d * (y * y))
  {
  }

  // ----- Associativity -----

  /** The numerators and denominators of (P + Q) + R in terms of the fractions of P + Q = (u, v). */
  lemma ScaledLaw(m: int, d: int, l: Law, u: int, v: int, x: int, y: int)
    requires m > 0 && Cong(l.n1, u * l.d1, m) && Cong(l.n2, v * l.d2, m)
    ensures var s := LawOf(d, 1, 1, u, v, x, y);
            && Cong(s.n1 * (l.d1 * l.d2), NumX(l, x, y), m) && Cong(s.n2 * (l.d1 * l.d2), NumY(l, x, y), m)
            && Cong(s.d1 * (l.d1 * l.d2), DenX(d, l, x, y), m) && Cong(s.d2 * (l.d1 * l.d2), DenY(d, l, x, y), m)
  {
    hide Cong;
    var d1, d2, ud, vd := l.d1, l.d2, u * l.d1, v * l.d2;
    CongSymm(l.n1, ud, m);
    CongSymm(l.n2, vd, m);
    CongTimes(ud, l.n1, d2 * y, m);
    CongTimes(vd, l.n2, x * d1, m);
    CongAdd(ud * (d2 * y), l.n1 * (d2 * y), vd * (x * d1), l.n2 * (x * d1), m);
    CongTimes(vd, l.n2, d1 * y, m);
    CongTimes(ud, l.n1, d2 * x, m);
    CongAdd(vd * (d1 * y), l.n2 * (d1 * y), ud * (d2 * x), l.n1 * (d2 * x), m);
    CongMul(ud, l.n1, vd, l.n2, m);
    CongTimes(ud * vd, l.n1 * l.n2, d * x * y, m);
    CongRefl(d1 * d2, m);
    CongAdd(d1 * d2, d1 * d2, ud * vd * (d * x * y), l.n1 * l.n2 * (d * x * y), m);
    CongSub(d1 * d2, d1 * d2, ud * vd * (d * x * y), l.n1 * l.n2 * (d * x * y), m);
    ScaledNumerators(u, v, d1, d2, x, y);
    ScaledDenominator(d, u, v, d1, d2, x, y);
    LawNumerators(l, d, x, y);
  }

  lemma ScaledNumerators(u: int, v: int, d1: int, d2: int, x: int, y: int)
    ensures (u * y + x * v) * (d1 * d2) == u * d1 * (d2 * y) + v * d2 * (x * d1)
    ensures (v * y + u * x) * (d1 * d2) == v * d2 * (d1 * y) + u * d1 * (d2 * x)
  {
  }

  lemma ScaledDenominator(d: int, u: int, v: int, d1: int, d2: int, x: int, y: int)
    ensures var t, z := d * u * x * v * y, u * d1 * (v * d2) * (d * x * y);
            (1 + t) * (d1 * d2) == d1 * d2 + z && (1 - t) * (d1 * d2) == d1 * d2 - z
  {
    var p, q, r := u * v, d1 * d2, d * x * y;
    assert d * u * x * v * y == p * r;
    assert u * d1 * (v * d2) == p * q;
    assert p * q * r == p * r * q;
  }

  lemma LawNumerators(l: Law, d: int, x: int, y: int)
    ensures NumX(l, x, y) == l.n1 * (l.d2 * y) + l.n2 * (x * l.d1)
    ensures NumY(l, x, y) == l.n2 * (l.d1 * y) + l.n1 * (l.d2 * x)
    ensures DenX(d, l, x, y) == l.d1 * l.d2 + l.n1 * l.n2 * (d * x * y)
    ensures DenY(d, l, x, y) == l.d1 * l.d2 - l.n1 * l.n2 * (d * x * y)
  {
    assert d * l.n1 * l.n2 * x * y == l.n1 * l.n2 * (d * x * y);
  }

  lemma ProductNotZero(m: int, a: int, b: int)
    requires IsPrime(m) && !Cong(a, 0, m) && !Cong(b, 0, m)
    ensures !Cong(a * b, 0, m)
  {
    hide Cong;
    if Cong(a * b, 0, m) {
      Euclid(a, b, m);
    }
  }

  /** A fraction keeps its value when numerator and denominator are scaled. */
  lemma ScaledFraction(m: int, s: int, n: int, d: int, w: int, num: int, den: int)
    requires IsPrime(m) && Cong(n, s * d, m) && !Cong(d, 0, m) && !Cong(w, 0, m)
    requires Cong(n * w, num, m) && Cong(d * w, den, m)
    ensures Cong(num, s * den, m) && !Cong(den, 0, m)
  {
    hide Cong;
    assert m > 0;
    hide IsPrime;
    CongTimes(n, s * d, w, m);
    Associated(s, d, w);
    CongRefl(s, m);
    CongMul(s, s, d * w, den, m);
    CongTrans(n * w, s * (d * w), s * den, m);
    CongSymm(n * w, num, m);
    CongTrans(num, n * w, s * den, m);
    ProductNotZero(m, d, w);
    if Cong(den, 0, m) {
      CongTrans(d * w, den, 0, m);
    }
  }

  /** Fractions with equal cross products are equal. */
  lemma SameFraction(m: int, s: int, num: int, den: int, s': int, num': int, den': int)
    requires IsPrime(m) && Cong(num, s * den, m) && Cong(num', s' * den', m)
    requires !Cong(den, 0, m) && !Cong(den', 0, m) && Cong(num * den' - num' * den, 0, m)
    ensures Cong(s, s', m)
  {
    hide Cong;
    assert m > 0;
    hide IsPrime;
    var w := den * den';
    CongTimes(num, s * den, den', m);
    CongTimes(num', s' * den', den, m);
    CongSub(num * den', s * den * den', num' * den, s' * den' * den, m);
    CongSymm(num * den' - num' * den, s * den * den' - s' * den' * den, m);
    CongTrans(s * den * den' - s' * den' * den, num * den' - num' * den, 0, m);
    CommonFactor(s, den, den');
    CommonFactor(s', den', den);
    assert den' * den == w;
    CongRefl(w * s', m);
    CongAdd(w * s - w * s', 0, w * s', w * s', m);
    ProductNotZero(m, den, den');
    Cancel(w, s, s', m);
  }

  lemma CommonFactor(s: int, a: int, b: int)
    ensures s * a * b == a * b * s
  {
  }

  /** What both coordinates of (P + Q) + R are. */
  lemma DoubleSum(c: Curve, p: Affine, r: Affine, s: Affine)
    requires Good(c) && Element(c, p) && Element(c, r) && Element(c, s)
    ensures var l, z := LawOf(c.d, 1, 1, p.x, p.y, r.x, r.y), AffineAdd(c, AffineAdd(c, p, r), s);
            && Element(c, z)
            && Cong(NumX(l, s.x, s.y), z.x * DenX(c.d, l, s.x, s.y), c.q) && !Cong(DenX(c.d, l, s.x, s.y), 0, c.q)
            && Cong(NumY(l, s.x, s.y), z.y * DenY(c.d, l, s.x, s.y), c.q) && !Cong(DenY(c.d, l, s.x, s.y), 0, c.q)
  {
    hide AffineAdd;
    hide NumX;
    hide NumY;
    hide DenX;
    hide DenY;
    hide LawOf;
    hide Cong;
    hide Element;
    PrimeOfGood(c);
    hide Good;
    hide IsPrime;
    var a := AffineAdd(c, p, r);
    var l, k, z := LawOf(c.d, 1, 1, p.x, p.y, r.x, r.y), LawOf(c.d, 1, 1, a.x, a.y, s.x, s.y), AffineAdd(c, a, s);
    SumFractions(c, p, r);
    SumFractions(c, a, s);
    ScaledLaw(c.q, c.d, l, a.x, a.y, s.x, s.y);
    ProductNotZero(c.q, l.d1, l.d2);
    ScaledFraction(c.q, z.x, k.n1, k.d1, l.d1 * l.d2, NumX(l, s.x, s.y), DenX(c.d, l, s.x, s.y));
    ScaledFraction(c.q, z.y, k.n2, k.d2, l.d1 * l.d2, NumY(l, s.x, s.y), DenY(c.d, l, s.x, s.y));
  }

  lemma SumFractions(c: Curve, p: Affine, r: Affine)
    requires Good(c) && Element(c, p) && Element(c, r)
    ensures var l, z := LawOf(c.d, 1, 1, p.x, p.y, r.x, r.y), AffineAdd(c, p, r);
            && Element(c, z)
            && Cong(l.n1, z.x * l.d1, c.q) && !Cong(l.d1, 0, c.q)
            && Cong(l.n2, z.y * l.d2, c.q) && !Cong(l.d2, 0, c.q)
  {
    hide InvMod;
    hide Cong;
    hide Equation;
    PrimeOfGood(c);
    var l := LawOf(c.d, 1, 1, p.x, p.y, r.x, r.y);
    EquationOf(c, p);
    EquationOf(c, r);
    Completeness(c, p.x, p.y, r.x, r.y);
    hide Good;
    hide IsPrime;
    LawTerms(c, p, r);
    SumIsElement(c, p, r);
    QuotientTimes(c, l.n1, l.d1);
    QuotientTimes(c, l.n2, l.d2);
  }

  /** Affine addition is associative on the curve. */
  lemma AdditionAssociates(c: Curve, p: Affine, r: Affine, s: Affine)
    requires Good(c) && Element(c, p) && Element(c, r) && Element(c, s)
    ensures AffineAdd(c, AffineAdd(c, p, r), s) == AffineAdd(c, p, AffineAdd(c, r, s))
  {
    hide AffineAdd;
    hide NumX;
    hide NumY;
    hide DenX;
    hide DenY;
    hide Cong;
    hide Equation;
    hide LawOf;
    PrimeOfGood(c);
    var l, k := LawOf(c.d, 1, 1, p.x, p.y, r.x, r.y), LawOf(c.d, 1, 1, r.x, r.y, s.x, s.y);
    var z, z' := AffineAdd(c, AffineAdd(c, p, r), s), AffineAdd(c, AffineAdd(c, r, s), p);
    Commutative(c, p, AffineAdd(c, r, s));
    DoubleSum(c, p, r, s);
    DoubleSum(c, r, s, p);
    EquationOf(c, p);
    EquationOf(c, r);
    EquationOf(c, s);
    CrossX(c.q, c.d, p.x, p.y, r.x, r.y, s.x, s.y);
    CrossY(c.q, c.d, p.x, p.y, r.x, r.y, s.x, s.y);
    hide Good;
    hide IsPrime;
    SameFraction(c.q, z.x, NumX(l, s.x, s.y), DenX(c.d, l, s.x, s.y),
                 z'.x, NumX(k, p.x, p.y), DenX(c.d, k, p.x, p.y));
    SameFraction(c.q, z.y, NumY(l, s.x, s.y), DenY(c.d, l, s.x, s.y),
                 z'.y, NumY(k, p.x, p.y), DenY(c.d, k, p.x, p.y));
    SameElement(c, z, z');
  }

  lemma SameElement(c: Curve, z: Affine, z': Affine)
    requires c.q > 0 && Element(c, z) && Element(c, z') && Cong(z.x, z'.x, c.q) && Cong(z.y, z'.y, c.q)
    ensures z == z'
  {
    DivisionUnique(z.x, c.q, 0, z.x);
    DivisionUnique(z.y, c.q, 0, z.y);
    DivisionUnique(z'.x, c.q, 0, z'.x);
    DivisionUnique(z'.y, c.q, 0, z'.y);
  }
}
