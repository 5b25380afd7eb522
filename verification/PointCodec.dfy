/**
 * Points as 32 bytes: y and the lowest bit of x, from which decoding recovers x by a square root
 * modulo q.
 */
module PointCodec {
  import opened Bytes
  import opened ModArith
  import opened FieldInverse
  import opened Edwards
  import opened GroupLaw
  import opened QuadraticResidues
  import opened Ed25519
  import opened IntegerCodec

  // ----- The functions of the source -----

  /** The square root of -1 that the source computes. */
  function RootI(c: Curve): int
    requires c.q > 2
  {
    Expmod(2, (c.q - 1) / 4, c.q)
  }

  /** Inverting by the addition chain gives the same number. */
  function XSquared(c: Curve, y: int): int
    requires c.q > 2
  {
    (y * y - 1) * InvMod(c, c.d * y * y + 1)
  }

  predicate IsRoot(x: int, xx: int, q: int)
    requires q > 0
  {
    (x * x - xx) % q == 0
  }

  /** A number whose square is the argument, if there is one. */
  function SquareRoot(c: Curve, xx: int): int
    requires c.q > 2
  {
    var x := Expmod(xx, (c.q + 3) / 8, c.q);
    if !IsRoot(x, xx, c.q) then x * RootI(c) % c.q else x
  }

  function XRecover(c: Curve, y: int): int
    requires c.q > 2
  {
    var x := SquareRoot(c, XSquared(c, y));
    if x % 2 != 0 then c.q - x else x
  }

  /** The low 255 bits of y, and the lowest bit of x. */
  function PointBits(a: Affine): (bit: nat -> int)
    ensures AreBits(bit)
  {
    (i: nat) => if i < 255 then Bit(a.y, i) else a.x % 2
  }

  function EncodePoint(c: Curve, p: Point): (s: seq<byte>)
    requires c.q > 2
    ensures |s| == WIDTH
  {
    EncodeBits(PointBits(ToAffine(c, p)))
  }

  function YOf(s: seq<byte>): int
    requires |s| >= WIDTH
  {
    SumBits(BitsOf(s), 255)
  }

  /** No point when the coordinates are not on the curve. */
  function DecodePoint(c: Curve, s: seq<byte>): Option<Point>
    requires c.q > 2 && |s| >= WIDTH
  {
    var y := YOf(s);
    var even := XRecover(c, y);
    var x := if even % 2 != BitsOf(s)(255) then c.q - even else even;
    var p := Point(x, y, 1, x * y % c.q);
    if OnCurve(c, p) then Some(p) else None
  }

  /** A good curve whose modulus is 5 modulo 8 and has at most 255 bits. */
  ghost predicate Encodable(c: Curve) {
    Good(c) && FiveModEight(c.q) && c.q < Pow2(255)
  }

  // ----- Recovering x -----

  /** The exponents of the source in terms of n with q = 4 n + 1. */
  lemma Exponents(q: int, n: nat)
    requires q % 8 == 5 && n == (q - 1) / 4
    ensures q == 4 * n + 1 && n % 2 == 1 && (q + 3) / 8 == n / 2 + 1
  {
  }

  lemma QuarterOf(c: Curve) returns (n: nat, r: int)
    requires Encodable(c)
    ensures IsPrime(c.q) && c.q > 2 && n == (c.q - 1) / 4
    ensures c.q == 4 * n + 1 && n % 2 == 1 && (c.q + 3) / 8 == n / 2 + 1
    ensures Cong(r * r, -1, c.q)
  {
    hide Cong;
    hide IsPrime;
    n := (c.q - 1) / 4;
    Exponents(c.q, n);
    r :| RootOfMinusOne(c, r);
    PrimeOfGood(c);
  }

  lemma RootISquare(c: Curve)
    requires Encodable(c)
    ensures Cong(RootI(c) * RootI(c), -1, c.q)
  {
    hide Cong;
    hide Pow;
    hide Expmod;
    hide IsPrime;
    var n, r := QuarterOf(c);
    hide Encodable;
    var i := Expmod(2, n, c.q);
    assert RootI(c) == i;
    hide RootI;
    TwoIsNoSquare(r, n, c.q);
    ExpmodIsPower(2, n, c.q);
    CongMul(i, Pow(2, n), i, Pow(2, n), c.q);
    SquareOfPower(2, n);
    CongTrans(i * i, Pow(2, 2 * n), -1, c.q);
  }

  /** The candidate or the candidate times the root of -1 is a root. */
  lemma CandidateRoot(c: Curve, s: int, xx: int, x: int)
    requires Encodable(c) && Cong(xx, s * s, c.q) && x == Expmod(xx, (c.q + 3) / 8, c.q)
    ensures Cong(x * x, xx, c.q) || Cong((x * RootI(c) % c.q) * (x * RootI(c) % c.q), xx, c.q)
    ensures 0 <= x < c.q
  {
    hide Cong;
    hide Pow;
    hide Expmod;
    hide RootI;
    hide IsPrime;
    var n, r := QuarterOf(c);
    RootISquare(c);
    hide Encodable;
    var i := RootI(c);
    ExpmodIsPower(xx, n / 2 + 1, c.q);
    if Cong(xx, 0, c.q) {
      ZeroCandidate(xx, x, n, c.q);
    } else {
      QuarterPower(s, xx, n, c.q);
      if Cong(Pow(xx, n), 1, c.q) {
        CandidateSquare(xx, x, n, 1, c.q);
      } else {
        CandidateSquare(xx, x, n, -1, c.q);
        NegatedRoot(x, xx, i, c.q);
      }
    }
  }

  lemma RootIsCong(x: int, xx: int, q: int)
    requires q > 0
    ensures IsRoot(x, xx, q) <==> Cong(x * x, xx, q)
  {
    CongZero(x * x, xx, q);
    DivisionUnique(0, q, 0, 0);
  }

  /** Whatever is congruent to a square has the square root that is computed. */
  lemma SquareRootOf(c: Curve, s: int, xx: int)
    requires Encodable(c) && Cong(xx, s * s, c.q)
    ensures Cong(SquareRoot(c, xx) * SquareRoot(c, xx), xx, c.q)
    ensures 0 <= SquareRoot(c, xx) < c.q
  {
    hide Cong;
    hide Expmod;
    hide RootI;
    hide IsRoot;
    assert c.q > 2;
    hide Encodable;
    var x := Expmod(xx, (c.q + 3) / 8, c.q);
    CandidateRoot(c, s, xx, x);
    RootIsCong(x, xx, c.q);
  }

  /** The factor of x squared in the curve equation is never zero. */
  lemma FactorOfXSquared(c: Curve, y: int)
    requires Good(c)
    ensures !Cong(c.d * y * y + 1, 0, c.q)
  {
    hide Cong;
    var q := c.q;
    if Cong(c.d * y * y + 1, 0, q) {
      var r :| RootOfMinusOne(c, r);
      MinusOneIsMultiple(c, r, y);
      ZeroFactor(q, y, y * c.d);
      assert y * (y * c.d) == c.d * y * y;
      CongRefl(1, q);
      CongAdd(c.d * y * y, 0, 1, 1, q);
      CongSymm(c.d * y * y + 1, 1, q);
      CongTrans(1, c.d * y * y + 1, 0, q);
      UnitNotZero(q, 1);
    }
  }

  lemma MinusOneIsMultiple(c: Curve, r: int, y: int)
    requires Good(c) && RootOfMinusOne(c, r) && Cong(c.d * y * y + 1, 0, c.q)
    ensures Cong(y, 0, c.q)
  {
    hide Cong;
    CongRefl(1, c.q);
    CongSub(c.d * y * y + 1, 0, 1, 1, c.q);
    assert c.d * y * y + 1 - 1 == c.d * (y * y) && 0 - 1 == -1;
    BothCong(r * r, c.d * (y * y), -1, c.q);
    assert SquareTimes(c, r, y);
  }

  lemma EquationForX(d: int, x: int, y: int)
    ensures Equation(d, x, y) == y * y - 1 - x * x * (d * y * y + 1)
  {
    assert d * (x * x) * (y * y) == x * x * (d * y * y);
  }

  /** On the curve the quotient is the square of x. */
  lemma XSquaredIs(c: Curve, x: int, y: int)
    requires Good(c) && Cong(Equation(c.d, x, y), 0, c.q)
    ensures Cong(XSquared(c, y), x * x, c.q)
  {
    hide Cong;
    hide InvMod;
    hide Equation;
    var den, q := c.d * y * y + 1, c.q;
    FactorOfXSquared(c, y);
    EquationForX(c.d, x, y);
    CongRefl(x * x * den, q);
    CongAdd(Equation(c.d, x, y), 0, x * x * den, x * x * den, q);
    Quotient(c, y * y - 1, den, x * x);
  }

  /** Of two reduced roots of one square, the second is the first or its opposite. */
  lemma ReducedRoots(a: int, b: int, q: int)
    requires IsPrime(q) && Cong(a * a, b * b, q) && 0 <= a < q && 0 <= b < q
    ensures a == b || (b > 0 && a == q - b)
  {
    OppositeRoots(a, b, q);
    DivisionUnique(a, q, 0, a);
    DivisionUnique(b, q, 0, b);
    if b > 0 {
      DivisionUnique(-b, q, -1, q - b);
    }
  }

  /** For every point of the curve, the even one of x and q - x is recovered from y. */
  lemma RecoversX(c: Curve, x: int, y: int)
    requires Encodable(c) && 0 <= x < c.q && Cong(Equation(c.d, x, y), 0, c.q)
    ensures XRecover(c, y) == if x % 2 == 0 then x else c.q - x
  {
    hide Cong;
    hide SquareRoot;
    hide XSquared;
    hide Equation;
    hide Good;
    hide IsPrime;
    hide Pow2;
    PrimeOfGood(c);
    assert c.q > 2 && c.q % 2 == 1;
    hide Encodable;
    hide FiveModEight;
    var xx := XSquared(c, y);
    var r := SquareRoot(c, xx);
    XSquaredIs(c, x, y);
    SquareRootOf(c, x, xx);
    CongTrans(r * r, xx, x * x, c.q);
    ReducedRoots(r, x, c.q);
    EvenOfRoots(r, x, c.q);
  }

  lemma EvenOfRoots(r: int, x: int, q: int)
    requires q % 2 == 1 && 0 <= x < q && (r == x || (x > 0 && r == q - x))
    ensures (if r % 2 != 0 then q - r else r) == if x % 2 == 0 then x else q - x
  {
    Opposite(x, q);
  }

  /** Of x and q - x exactly one is even. */
  lemma Opposite(x: int, q: int)
    requires q % 2 == 1 && 0 <= x < q
    ensures (q - x) % 2 == 1 - x % 2
  {
    assert q - x == 2 * (q / 2 - x / 2) + (1 - x % 2);
    LowestBit(q / 2 - x / 2, 1 - x % 2);
  }

  // ----- Round trip -----

  lemma EncodedY(a: Affine)
    requires 0 <= a.y < Pow2(255)
    ensures YOf(EncodeBits(PointBits(a))) == a.y
    ensures BitsOf(EncodeBits(PointBits(a)))(255) == a.x % 2
  {
    hide Bit;
    hide SumBits;
    hide Pow2;
    hide BitsOf;
    hide EncodeBits;
    var bit := BitsOf(EncodeBits(PointBits(a)));
    forall k: nat | k < 255
      ensures bit(k) == Bit(a.y, k)
    {
      EncodedBit(PointBits(a), k);
    }
    EncodedBit(PointBits(a), 255);
    SumIsResidue(bit, a.y, 255);
    DivisionUnique(a.y, Pow2(255), 0, a.y);
  }

  function Plain(c: Curve, a: Affine): Point
    requires c.q > 0
  {
    Point(a.x, a.y, 1, a.x * a.y % c.q)
  }

  lemma PlainIsSame(c: Curve, a: Affine)
    requires Good(c) && Element(c, a)
    ensures OnCurve(c, Plain(c, a)) && ToAffine(c, Plain(c, a)) == a
  {
    hide Good;
    hide InvMod;
    PrimeOfGood(c);
    hide IsPrime;
    PlainOnCurve(c, a.x, a.y);
    EquationOf(c, a);
    RepresentedPoint(c, Plain(c, a), a.x, a.y);
    DivisionUnique(a.x, c.q, 0, a.x);
    DivisionUnique(a.y, c.q, 0, a.y);
  }

  lemma InElement(c: Curve, a: Affine)
    requires c.q > 0 && Element(c, a)
    ensures 0 <= a.x < c.q && 0 <= a.y < c.q && Cong(Equation(c.d, a.x, a.y), 0, c.q)
  {
    EquationOf(c, a);
  }

  /** Every point of the curve is decoded from its encoding: the same affine point, with z = 1. */
  lemma DecodesEncoded(c: Curve, p: Point)
    requires Encodable(c) && OnCurve(c, p)
    ensures DecodePoint(c, EncodePoint(c, p)) == Some(Plain(c, ToAffine(c, p)))
  {
    hide Good;
    hide IsPrime;
    hide ToAffine;
    hide OnCurve;
    hide EncodeBits;
    hide XRecover;
    hide YOf;
    hide BitsOf;
    hide PointBits;
    hide Equation;
    hide Element;
    hide Pow2;
    PrimeOfGood(c);
    var a := ToAffine(c, p);
    ToAffineIsElement(c, p);
    InElement(c, a);
    EncodedY(a);
    RecoversX(c, a.x, a.y);
    PlainIsSame(c, a);
  }

  /** Decoding and encoding again gives the same bytes as the point did. */
  lemma EncodesDecoded(c: Curve, p: Point)
    requires Good(c) && OnCurve(c, p)
    ensures var r := Plain(c, ToAffine(c, p));
            OnCurve(c, r) && ToAffine(c, r) == ToAffine(c, p) && EncodePoint(c, r) == EncodePoint(c, p)
  {
    hide Good;
    hide ToAffine;
    hide OnCurve;
    hide EncodeBits;
    hide Element;
    PrimeOfGood(c);
    ToAffineIsElement(c, p);
    PlainIsSame(c, ToAffine(c, p));
  }

  ghost predicate HasPoint(c: Curve, x: int, y: int)
    requires c.q > 0
  {
    Cong(Equation(c.d, x, y), 0, c.q)
  }

  lemma SquaresGiveEquation(c: Curve, x: int, u: int, y: int)
    requires c.q > 0 && Cong(x * x, u * u, c.q)
    ensures HasPoint(c, x, y) <==> HasPoint(c, u, y)
  {
    hide Cong;
    var den, q := c.d * y * y + 1, c.q;
    EquationForX(c.d, x, y);
    EquationForX(c.d, u, y);
    CongRefl(den, q);
    CongRefl(y * y - 1, q);
    CongMul(x * x, u * u, den, den, q);
    CongSub(y * y - 1, y * y - 1, x * x * den, u * u * den, q);
    SameZero(Equation(c.d, x, y), Equation(c.d, u, y), q);
  }

  lemma SquareOfOpposite(u: int, q: int)
    requires q > 0
    ensures Cong((q - u) * (q - u), u * u, q)
  {
    assert (q - u) * (q - u) == u * u + (q - 2 * u) * q;
    CongByMultiple((q - u) * (q - u), u * u, q - 2 * u, q);
  }

  /** Decoding succeeds exactly when some point of the curve has the y that is encoded. */
  lemma DecodesExactly(c: Curve, s: seq<byte>)
    requires Encodable(c) && |s| >= WIDTH
    ensures DecodePoint(c, s).Some? <==> exists x: int :: HasPoint(c, x, YOf(s))
  {
    hide Good;
    hide IsPrime;
    hide Cong;
    hide XRecover;
    hide YOf;
    hide BitsOf;
    hide OnCurve;
    hide Equation;
    hide Pow2;
    PrimeOfGood(c);
    var y, even, q := YOf(s), XRecover(c, YOf(s)), c.q;
    var x := if even % 2 != BitsOf(s)(255) then q - even else even;
    PlainOnCurve(c, x, y);
    if DecodePoint(c, s).Some? {
      assert HasPoint(c, x, y);
    }
    if u: int :| HasPoint(c, u, y) {
      CongMod(u, q);
      CongMul(u % q, u, u % q, u, q);
      SquaresGiveEquation(c, u % q, u, y);
      RecoversX(c, u % q, y);
      SquareOfOpposite(u % q, q);
      SquareOfOpposite(0, q);
      SquaresGiveEquation(c, q - u % q, u % q, y);
      SquaresGiveEquation(c, q - 0, 0, y);
    }
  }

  // ----- Ed25519 -----

  lemma Ed25519Encodable()
    ensures IsPrime(Q) ==> Encodable(ED25519)
  {
    hide Good;
    hide IsPrime;
    hide Pow2;
    GoodIfPrime();
    QIsPow2();
  }

  /** The x coordinate of the base point is the one that the source recovers. */
  lemma BaseRecovered()
    requires IsPrime(Q)
    ensures BASE_X == XRecover(ED25519, BASE_Y)
  {
    hide XRecover;
    hide Encodable;
    hide IsPrime;
    hide Cong;
    hide Equation;
    Ed25519Encodable();
    BaseEquation();
    ConstantFractions();
    RecoversX(ED25519, BASE_X, BASE_Y);
  }
}
