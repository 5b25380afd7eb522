/**
 * Squares modulo a prime that is 5 modulo 8, as the modulus of Ed25519 is: which numbers have square
 * roots, and how they are found.
 */
module QuadraticResidues {
  import opened ModArith
  import opened FieldInverse
  import opened Edwards

  ghost predicate FiveModEight(p: int) {
    IsPrime(p) && p % 8 == 5
  }

  lemma {:induction false} PowMulBase(x: int, y: int, n: nat)
    ensures Pow(x * y, n) == Pow(x, n) * Pow(y, n)
  {
    if n == 0 {
    } else {
      PowMulBase(x, y, n - 1);
      assert Pow(x * y, n) == x * y * (Pow(x, n - 1) * Pow(y, n - 1));
    }
  }

  lemma {:induction false} PowMinusOne(n: nat)
    ensures Pow(-1, n) == if n % 2 == 0 then 1 else -1
  {
    if n == 0 {
    } else {
      PowMinusOne(n - 1);
    }
  }

  lemma OncePower(x: int)
    ensures Pow(x, 1) == x
  {
    assert Pow(x, 1) == x * Pow(x, 0);
  }

  lemma ZeroPower(n: nat)
    requires n > 0
    ensures Pow(0, n) == 0
  {
  }

  lemma SquareOfPower(x: int, n: nat)
    ensures Pow(x, n) * Pow(x, n) == Pow(x, 2 * n)
    ensures Pow(x, 2 * n) == Pow(x * x, n)
  {
    PowAdd(x, n, n);
    assert Pow(x, 2) == x * x by {
      assert Pow(x, 1) == x * Pow(x, 0);
    }
    PowMul(x, 2, n);
  }

  // ----- Fourth roots of -1 -----

  lemma FourthPowers(x: int, y: int, n: nat, p: int)
    requires p > 0 && n % 2 == 1
    requires Cong(Pow(x, 4), -1 * Pow(y, 4), p)
    ensures Cong(Pow(x, 4 * n), -1 * Pow(y, 4 * n), p)
  {
    hide Cong;
    hide Pow;
    CongPow(Pow(x, 4), -1 * Pow(y, 4), n, p);
    PowMulBase(-1, Pow(y, 4), n);
    PowMinusOne(n);
    PowMul(x, 4, n);
    PowMul(y, 4, n);
  }

  lemma PowerNotMinusOne(x: int, n: nat, p: int)
    requires IsPrime(p) && p == n + 1 && p > 2
    ensures !Cong(Pow(x, n), -1, p)
  {
    DivisionUnique(0, p, 0, 0);
    DivisionUnique(1, p, 0, 1);
    DivisionUnique(-1, p, -1, p - 1);
    if Cong(x, 0, p) {
      CongMul(x, 0, Pow(x, n - 1), Pow(x, n - 1), p);
    } else {
      Fermat(x, p);
    }
  }

  /** A prime that is one more than four times an odd number has no fourth root of -1. */
  lemma NoFourthRoot(x: int, y: int, n: nat, p: int)
    requires IsPrime(p) && p == 4 * n + 1 && n % 2 == 1
    requires Cong(Pow(x, 4), -1 * Pow(y, 4), p)
    ensures Cong(y, 0, p)
  {
    hide Cong;
    hide Pow;
    if !Cong(y, 0, p) {
      FourthPowers(x, y, n, p);
      Fermat(y, p);
      CongRefl(-1, p);
      CongMul(-1, -1, Pow(y, 4 * n), 1, p);
      PowerNotMinusOne(x, 4 * n, p);
      CongTrans(Pow(x, 4 * n), -1 * Pow(y, 4 * n), -1, p);
    }
  }

  lemma FourthPower(x: int)
    ensures Pow(x, 4) == x * x * (x * x)
  {
    assert Pow(x, 2) == x * Pow(x, 1) && Pow(x, 1) == x * Pow(x, 0);
    PowAdd(x, 2, 2);
  }

  lemma FourthFromRoot(i: int, x: int, y: int, p: int)
    requires p > 0 && Cong(i * i, -1, p) && Cong(x * x, i * (y * y), p)
    ensures Cong(Pow(x, 4), -1 * Pow(y, 4), p)
  {
    hide Cong;
    hide Pow;
    var yy := y * y;
    CongMul(x * x, i * yy, x * x, i * yy, p);
    CongRefl(yy * yy, p);
    CongMul(i * i, -1, yy * yy, yy * yy, p);
    assert i * yy * (i * yy) == i * i * (yy * yy);
    CongTrans(x * x * (x * x), i * i * (yy * yy), -1 * (yy * yy), p);
    FourthPower(x);
    FourthPower(y);
  }

  // ----- A number that is no square -----

  lemma RootTerms(i: int, s: int, d: int, a: int, b: int)
    ensures (1 + i) * a * ((1 + i) * a) == (1 + 2 * i + i * i) * (a * a)
    ensures s * b * (s * b) == s * s * (b * b)
    ensures 2 * d * (b * b) == 2 * (d * (b * b))
    ensures i * (2 * (a * a)) == (1 + 2 * i + -1) * (a * a)
  {
    assert (1 + i) * (1 + i) == 1 + 2 * i + i * i;
  }

  /** With i^2 = -1 and s^2 = 2d, a^2 = d b^2 would make ((1 + i) a)^2 = i (s b)^2. */
  lemma RootFromSquare(i: int, s: int, d: int, a: int, b: int, p: int)
    requires p > 0 && Cong(i * i, -1, p) && Cong(s * s, 2 * d, p) && Cong(a * a, d * (b * b), p)
    ensures var x, y := (1 + i) * a, s * b; Cong(x * x, i * (y * y), p)
  {
    hide Cong;
    var aa, bb, yy := a * a, b * b, s * b * (s * b);
    var k := 1 + 2 * i + i * i;
    RootTerms(i, s, d, a, b);
    CongRefl(1 + 2 * i, p);
    CongAdd(1 + 2 * i, 1 + 2 * i, i * i, -1, p);
    CongTimes(k, 1 + 2 * i + -1, aa, p);
    CongTimes(s * s, 2 * d, bb, p);
    CongRefl(2, p);
    CongMul(2, 2, aa, d * bb, p);
    BothCong(yy, 2 * aa, 2 * (d * bb), p);
    CongRefl(i, p);
    CongMul(i, i, yy, 2 * aa, p);
    BothCong(k * aa, i * yy, (1 + 2 * i + -1) * aa, p);
  }

  /** If twice d is a square but not zero, no square is d times another but zero. */
  lemma NoSquareMultiple(i: int, s: int, d: int, a: int, b: int, p: int)
    requires FiveModEight(p) && Cong(i * i, -1, p) && Cong(s * s, 2 * d, p) && !Cong(s, 0, p)
    requires Cong(a * a, d * (b * b), p)
    ensures Cong(b, 0, p)
  {
    hide Cong;
    hide Pow;
    RootFromSquare(i, s, d, a, b, p);
    FourthFromRoot(i, (1 + i) * a, s * b, p);
    NoFourthRoot((1 + i) * a, s * b, p / 4, p);
    Euclid(s, b, p);
  }

  // ----- Square roots -----

  lemma OneMoreNotZero(r: int, p: int)
    requires IsPrime(p) && p > 2 && Cong(r * r, -1, p)
    ensures !Cong(1 + r, 0, p)
  {
    hide Cong;
    if Cong(1 + r, 0, p) {
      CongRefl(1 - r, p);
      CongMul(1 + r, 0, 1 - r, 1 - r, p);
      assert (1 + r) * (1 - r) == 1 - r * r && 0 * (1 - r) == 0;
      CongRefl(1, p);
      CongSub(1, 1, r * r, -1, p);
      CongSymm(1 - r * r, 2, p);
      CongTrans(2, 1 - r * r, 0, p);
      UnitNotZero(p, 1);
    }
  }

  /** 2 is no square: its power with exponent half of p - 1 is -1. */
  lemma TwoIsNoSquare(r: int, n: nat, p: int)
    requires IsPrime(p) && p == 4 * n + 1 && n % 2 == 1 && Cong(r * r, -1, p)
    ensures Cong(Pow(2, 2 * n), -1, p)
  {
    hide Cong;
    hide Pow;
    var s, w := 1 + r, Pow(2, 2 * n);
    CongRefl(1 + 2 * r, p);
    CongAdd(1 + 2 * r, 1 + 2 * r, r * r, -1, p);
    assert s * s == 1 + 2 * r + r * r;
    CongPow(s * s, 2 * r, 2 * n, p);
    SquareOfPower(s, 2 * n);
    PowMulBase(2, r, 2 * n);
    SquareOfPower(r, n);
    CongPow(r * r, -1, n, p);
    PowMinusOne(n);
    CongRefl(w, p);
    CongMul(w, w, Pow(r, 2 * n), -1, p);
    CongTrans(Pow(s, 4 * n), w * Pow(r, 2 * n), w * -1, p);
    OneMoreNotZero(r, p);
    Fermat(s, p);
    CongSymm(Pow(s, 4 * n), w * -1, p);
    CongTrans(w * -1, Pow(s, 4 * n), 1, p);
    CongRefl(-1, p);
    CongMul(-1, -1, w * -1, 1, p);
  }

  /** The power of a square with exponent a quarter of p - 1 is a unit. */
  lemma QuarterPower(s: int, xx: int, n: nat, p: int)
    requires IsPrime(p) && p == 4 * n + 1 && Cong(xx, s * s, p) && !Cong(xx, 0, p)
    ensures Cong(Pow(xx, n), 1, p) || Cong(Pow(xx, n), -1, p)
  {
    hide Cong;
    hide Pow;
    var w := Pow(xx, n);
    if Cong(s, 0, p) {
      ZeroFactor(p, s, s);
      CongTrans(xx, s * s, 0, p);
    }
    CongPow(xx, s * s, 2 * n, p);
    SquareOfPower(xx, n);
    SquareOfPower(s, 2 * n);
    Fermat(s, p);
    CongTrans(w * w, Pow(s, 4 * n), 1, p);
    RootOfOne(w, p);
  }

  /** The square of the candidate is xx or -xx, according to that unit. */
  lemma CandidateSquare(xx: int, x: int, n: nat, e: int, p: int)
    requires p > 0 && n % 2 == 1 && Cong(x, Pow(xx, n / 2 + 1), p) && Cong(Pow(xx, n), e, p)
    ensures Cong(x * x, e * xx, p)
  {
    hide Cong;
    hide Pow;
    var y := Pow(xx, n / 2 + 1);
    CongMul(x, y, x, y, p);
    SquareOfPower(xx, n / 2 + 1);
    PowAdd(xx, n, 1);
    assert Pow(xx, 1) == xx by {
      OncePower(xx);
    }
    CongRefl(xx, p);
    CongMul(Pow(xx, n), e, xx, xx, p);
    CongTrans(x * x, Pow(xx, n) * xx, e * xx, p);
  }

  lemma ZeroCandidate(xx: int, x: int, n: nat, p: int)
    requires p > 0 && n % 2 == 1 && Cong(xx, 0, p) && Cong(x, Pow(xx, n / 2 + 1), p)
    ensures Cong(x * x, xx, p)
  {
    hide Cong;
    hide Pow;
    CongPow(xx, 0, n, p);
    assert Pow(0, n) == 0 by {
      ZeroPower(n);
    }
    CandidateSquare(xx, x, n, 0, p);
    BothCong(x * x, xx, 0, p);
  }

  lemma NegatedRoot(x: int, xx: int, i: int, p: int)
    requires p > 0 && Cong(x * x, -1 * xx, p) && Cong(i * i, -1, p)
    ensures Cong((x * i % p) * (x * i % p), xx, p)
  {
    hide Cong;
    CongMod(x * i, p);
    CongMul(x * i % p, x * i, x * i % p, x * i, p);
    CongMul(x * x, -1 * xx, i * i, -1, p);
    PairProduct(x, i, x, i);
    CongTrans((x * i % p) * (x * i % p), x * x * (i * i), -1 * xx * -1, p);
  }

  lemma OppositeRoots(a: int, b: int, p: int)
    requires IsPrime(p) && Cong(a * a, b * b, p)
    ensures Cong(a, b, p) || Cong(a, -b, p)
  {
    CongZero(a * a, b * b, p);
    assert a * a - b * b == (a - b) * (a - -b);
    DivisionUnique(0, p, 0, 0);
    Euclid(a - b, a - -b, p);
    CongZero(a, b, p);
    CongZero(a, -b, p);
  }
}
