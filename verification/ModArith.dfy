/** Congruence of integers, powers, and what holds modulo a prime. */
module ModArith {

  ghost predicate Cong(a: int, b: int, m: int)
    requires m > 0
  {
    a % m == b % m
  }

  lemma MultipleBound(d: int, m: int)
    requires m > 0
    ensures d >= 1 ==> d * m >= m
    ensures d <= -1 ==> d * m <= -m
  {
  }

  lemma DivisionUnique(a: int, m: int, q: int, r: int)
    requires m > 0 && a == q * m + r && 0 <= r < m
    ensures a / m == q && a % m == r
  {
    var d := a / m - q;
    assert d * m == r - a % m;
    MultipleBound(d, m);
  }

  /** Dividing twice is dividing by the product. */
  lemma QuotientOfQuotient(y: int, v: int, w: int)
    requires v > 0 && w > 0
    ensures y / v / w == y / (v * w)
    ensures y % (v * w) == y / v % w * v + y % v
  {
    var k, r := y / v, y % v;
    var h, b := k / w, k % w;
    QuotientTerms(v, w, k, r, h, b);
    RemainderBound(v, w, b, r);
    DivisionUnique(y, v * w, h, b * v + r);
  }

  lemma QuotientTerms(v: int, w: int, k: int, r: int, h: int, b: int)
    requires k == h * w + b
    ensures k * v + r == h * (v * w) + (b * v + r)
  {
    assert (h * w + b) * v == h * w * v + b * v;
    assert h * w * v == h * (v * w);
  }

  lemma RemainderBound(v: int, w: int, b: int, r: int)
    requires 0 <= b < w && 0 <= r < v
    ensures 0 <= b * v + r < v * w && v * w > 0
  {
    var left := w - 1 - b;
    assert left * v >= 0;
    assert v * w == b * v + left * v + v;
  }

  lemma CongByMultiple(a: int, b: int, k: int, m: int)
    requires m > 0 && a == b + k * m
    ensures Cong(a, b, m)
  {
    var q := b / m + k;
    assert a == q * m + b % m;
    DivisionUnique(a, m, q, b % m);
  }

  lemma MultipleOfCong(a: int, b: int, m: int) returns (k: int)
    requires m > 0 && Cong(a, b, m)
    ensures a == b + k * m
  {
    k := a / m - b / m;
    assert a == a / m * m + a % m && b == b / m * m + b % m;
    assert k * m == a / m * m - b / m * m;
  }

  lemma CongRefl(a: int, m: int)
    requires m > 0
    ensures Cong(a, a, m)
  {
  }

  lemma CongSymm(a: int, b: int, m: int)
    requires m > 0 && Cong(a, b, m)
    ensures Cong(b, a, m)
  {
  }

  lemma CongTrans(a: int, b: int, c: int, m: int)
    requires m > 0 && Cong(a, b, m) && Cong(b, c, m)
    ensures Cong(a, c, m)
  {
  }

  lemma BothCong(a: int, b: int, c: int, m: int)
    requires m > 0 && Cong(a, c, m) && Cong(b, c, m)
    ensures Cong(a, b, m)
  {
  }

  lemma CongMod(a: int, m: int)
    requires m > 0
    ensures Cong(a % m, a, m)
  {
  }

  lemma CongAdd(a: int, b: int, c: int, d: int, m: int)
    requires m > 0 && Cong(a, b, m) && Cong(c, d, m)
    ensures Cong(a + c, b + d, m)
  {
    var k := MultipleOfCong(a, b, m);
    var l := MultipleOfCong(c, d, m);
    assert a + c == b + d + (k + l) * m;
    CongByMultiple(a + c, b + d, k + l, m);
  }

  lemma CongSub(a: int, b: int, c: int, d: int, m: int)
    requires m > 0 && Cong(a, b, m) && Cong(c, d, m)
    ensures Cong(a - c, b - d, m)
  {
    var k := MultipleOfCong(a, b, m);
    var l := MultipleOfCong(c, d, m);
    assert a - c == b - d + (k - l) * m;
    CongByMultiple(a - c, b - d, k - l, m);
  }

  lemma MultipleTerms(b: int, d: int, k: int, l: int, m: int)
    ensures (b + k * m) * (d + l * m) == b * d + (k * d + b * l + k * l * m) * m
  {
    var x, y := k * m, l * m;
    assert (b + x) * (d + y) == b * d + x * d + b * y + x * y;
    assert x * d == k * d * m && b * y == b * l * m && x * y == k * l * m * m;
  }

  lemma CongMul(a: int, b: int, c: int, d: int, m: int)
    requires m > 0 && Cong(a, b, m) && Cong(c, d, m)
    ensures Cong(a * c, b * d, m)
  {
    var k := MultipleOfCong(a, b, m);
    var l := MultipleOfCong(c, d, m);
    MultipleTerms(b, d, k, l, m);
    CongByMultiple(a * c, b * d, k * d + b * l + k * l * m, m);
  }

  lemma CongTimes(a: int, b: int, c: int, m: int)
    requires m > 0 && Cong(a, b, m)
    ensures Cong(a * c, b * c, m)
  {
    CongRefl(c, m);
    CongMul(a, b, c, c, m);
  }

  /** Congruence says the difference is a multiple. */
  lemma CongZero(a: int, b: int, m: int)
    requires m > 0
    ensures Cong(a, b, m) <==> (a - b) % m == 0
  {
    if Cong(a, b, m) {
      CongSub(a, b, b, b, m);
    }
    if (a - b) % m == 0 {
      CongAdd(a - b, 0, b, b, m);
    }
  }

  // ----- Powers -----

  function Pow(z: int, n: nat): int {
    if n == 0 then 1 else z * Pow(z, n - 1)
  }

  lemma {:induction false} PowAdd(z: int, a: nat, b: nat)
    ensures Pow(z, a + b) == Pow(z, a) * Pow(z, b)
  {
    if a == 0 {
    } else {
      PowAdd(z, a - 1, b);
      assert Pow(z, a + b) == z * (Pow(z, a - 1) * Pow(z, b));
    }
  }

  lemma {:induction false} CongPow(a: int, b: int, n: nat, m: int)
    requires m > 0 && Cong(a, b, m)
    ensures Cong(Pow(a, n), Pow(b, n), m)
  {
    if n == 0 {
    } else {
      CongPow(a, b, n - 1, m);
      CongMul(a, b, Pow(a, n - 1), Pow(b, n - 1), m);
    }
  }

  // ----- Primes -----

  predicate Divides(d: int, n: int) {
    d != 0 && n % d == 0
  }

  ghost predicate IsPrime(p: int) {
    p > 1 && forall d :: 1 < d < p ==> !Divides(d, p)
  }

  /** Every number that is no multiple of a prime has an inverse modulo the prime. */
  lemma {:induction false} Inverse(a: int, p: int) returns (x: int)
    requires IsPrime(p) && 0 < a < p
    ensures Cong(a * x, 1, p)
    decreases a
  {
    if a == 1 {
      x := 1;
    } else {
      assert !Divides(a, p);
      var k, r := p / a, p % a;
      var y := Inverse(r, p);
      x := -(k * y);
      assert a * x == r * y + (-y) * p;
      CongByMultiple(a * x, r * y, -y, p);
    }
  }

  /** A prime that divides a product divides one of its factors. */
  lemma Euclid(a: int, b: int, p: int)
    requires IsPrime(p)
    requires Cong(a * b, 0, p)
    ensures Cong(a, 0, p) || Cong(b, 0, p)
  {
    if a % p != 0 {
      CongMod(a, p);
      var x := Inverse(a % p, p);
      CongMul(a % p, a, x, x, p);
      assert Cong(a * x, 1, p);
      CongMul(a * x, 1, b, b, p);
      CongMul(a * b, 0, x, x, p);
      assert a * x * b == a * b * x;
    }
  }

  /** A factor that is no multiple of the prime can be cancelled. */
  lemma Cancel(c: int, a: int, b: int, p: int)
    requires IsPrime(p) && !Cong(c, 0, p)
    requires Cong(c * a, c * b, p)
    ensures Cong(a, b, p)
  {
    CongZero(c * a, c * b, p);
    assert c * a - c * b == c * (a - b);
    Euclid(c, a - b, p);
    CongZero(a, b, p);
  }

  /** The only square roots of 1 are 1 and -1. */
  lemma RootOfOne(y: int, p: int)
    requires IsPrime(p) && Cong(y * y, 1, p)
    ensures Cong(y, 1, p) || Cong(y, -1, p)
  {
    CongZero(y * y, 1, p);
    assert y * y - 1 == (y - 1) * (y - -1);
    DivisionUnique(0, p, 0, 0);
    Euclid(y - 1, y - -1, p);
    CongZero(y, 1, p);
    CongZero(y, -1, p);
  }

  // ----- Fermat's little theorem -----

  function Residues(p: int): (s: set<int>)
    ensures forall i :: i in s <==> 0 < i < p
    ensures p >= 1 ==> |s| == p - 1
    decreases p
  {
    if p <= 1 then {} else Residues(p - 1) + {p - 1}
  }

  function Factorial(n: nat): nat {
    if n == 0 then 1 else n * Factorial(n - 1)
  }

  /** The product of the members of a set that are at most n. */
  function Product(s: set<int>, n: nat): int {
    if n == 0 then 1 else if n in s then n * Product(s, n - 1) else Product(s, n - 1)
  }

  lemma {:induction false} ProductWith(s: set<int>, x: int, n: nat)
    requires x !in s && x > 0
    ensures Product(s + {x}, n) == if x <= n then x * Product(s, n) else Product(s, n)
  {
    if n == 0 {
    } else {
      ProductWith(s, x, n - 1);
    }
  }

  lemma {:induction false} ProductOfResidues(p: int, n: nat)
    requires n < p
    ensures Product(Residues(p), n) == Factorial(n)
  {
    if n == 0 {
    } else {
      ProductOfResidues(p, n - 1);
    }
  }

  /** The residues of a, 2a, ..., na. */
  function Multiples(a: int, n: nat, p: int): set<int>
    requires p > 0
  {
    if n == 0 then {} else Multiples(a, n - 1, p) + {a * n % p}
  }

  lemma DistinctMultiples(a: int, i: int, j: int, p: int)
    requires IsPrime(p) && !Cong(a, 0, p)
    requires 0 <= i < j < p
    ensures a * i % p != a * j % p
  {
    if a * i % p == a * j % p {
      Cancel(a, i, j, p);
      DivisionUnique(i, p, 0, i);
      DivisionUnique(j, p, 0, j);
    }
  }

  lemma {:induction false} NewMultiple(a: int, n: nat, j: int, p: int)
    requires IsPrime(p) && !Cong(a, 0, p) && n < j < p
    ensures a * j % p !in Multiples(a, n, p)
  {
    if n == 0 {
    } else {
      NewMultiple(a, n - 1, j, p);
      DistinctMultiples(a, n, j, p);
    }
  }

  /** There are n such residues, none is zero, and their product is n! times the n-th power of a. */
  lemma {:induction false} MultiplesProduct(a: int, n: nat, p: int)
    requires IsPrime(p) && !Cong(a, 0, p) && n < p
    ensures Multiples(a, n, p) <= Residues(p) && |Multiples(a, n, p)| == n
    ensures Cong(Product(Multiples(a, n, p), p - 1), Factorial(n) * Pow(a, n), p)
  {
    if n == 0 {
      EmptyProduct(p - 1);
    } else {
      MultiplesProduct(a, n - 1, p);
      NewMultiple(a, n - 1, n, p);
      DistinctMultiples(a, 0, n, p);
      ProductWith(Multiples(a, n - 1, p), a * n % p, p - 1);
      NextProduct(a, n, p, Product(Multiples(a, n - 1, p), p - 1));
    }
  }

  lemma {:induction false} EmptyProduct(n: nat)
    ensures Product({}, n) == 1
  {
    if n == 0 {
    } else {
      EmptyProduct(n - 1);
    }
  }

  lemma NextProduct(a: int, n: nat, p: int, product: int)
    requires n > 0 && p > 0
    requires Cong(product, Factorial(n - 1) * Pow(a, n - 1), p)
    ensures Cong(a * n % p * product, Factorial(n) * Pow(a, n), p)
  {
    var f, w := Factorial(n - 1), Pow(a, n - 1);
    CongMod(a * n, p);
    CongMul(a * n % p, a * n, product, f * w, p);
    assert a * n * (f * w) == (n * f) * (a * w);
  }

  lemma {:induction false} FactorialNotZero(n: nat, p: int)
    requires IsPrime(p) && n < p
    ensures !Cong(Factorial(n), 0, p)
  {
    if n == 0 {
      DivisionUnique(1, p, 0, 1);
    } else {
      FactorialNotZero(n - 1, p);
      DivisionUnique(n, p, 0, n);
      if Cong(n * Factorial(n - 1), 0, p) {
        Euclid(n, Factorial(n - 1), p);
      }
    }
  }

  lemma SubsetOfSameSize(s: set<int>, t: set<int>)
    requires s <= t && |s| == |t|
    ensures s == t
  {
    assert |t - s| == |t| - |s|;
    assert t == s + (t - s);
  }

  lemma Fermat(a: int, p: int)
    requires IsPrime(p) && !Cong(a, 0, p)
    ensures Cong(Pow(a, p - 1), 1, p)
  {
    hide Product;
    hide Pow;
    hide Factorial;
    MultiplesProduct(a, p - 1, p);
    SubsetOfSameSize(Multiples(a, p - 1, p), Residues(p));
    ProductOfResidues(p, p - 1);
    FactorialNotZero(p - 1, p);
    assert Factorial(p - 1) * 1 == Factorial(p - 1);
    Cancel(Factorial(p - 1), Pow(a, p - 1), 1, p);
  }
}
