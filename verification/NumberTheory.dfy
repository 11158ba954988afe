/**
  The number theory behind the unique random sequence: Euclid's lemma,
  Fermat's little theorem, squares modulo a prime that is 3 modulo 4, and a
  primality test in the style of Pocklington.
*/
module NumberTheory {

  // ---------------------------------------------------------------------
  // Divisibility
  // ---------------------------------------------------------------------

  type pos = n: nat | n > 0 witness 1

  predicate Divides(d: pos, n: int) {
    n % d == 0
  }

  lemma Quotient(d: pos, n: int) returns (k: int)
    requires Divides(d, n)
    ensures n == d * k
  {
    k := n / d;
  }

  /** A multiple of `d` other than zero is at least `d` in size. */
  lemma MultipleBound(d: pos, j: int)
    ensures j >= 1 ==> d * j >= d
    ensures j <= -1 ==> d * j + d <= 0
  {
  }

  lemma Multiple(d: pos, k: int)
    ensures Divides(d, d * k)
  {
    var q, r := d * k / d, d * k % d;
    assert r == d * (k - q);
    MultipleBound(d, k - q);
  }

  lemma DividesSum(d: pos, a: int, b: int)
    requires Divides(d, a) && Divides(d, b)
    ensures Divides(d, a + b) && Divides(d, a - b)
  {
    var x := Quotient(d, a);
    var y := Quotient(d, b);
    Multiple(d, x + y);
    Multiple(d, x - y);
    assert d * (x + y) == d * x + d * y && d * (x - y) == d * x - d * y;
  }

  lemma DividesProduct(d: pos, a: int, k: int)
    requires Divides(d, a)
    ensures Divides(d, a * k)
  {
    var x := Quotient(d, a);
    Multiple(d, x * k);
    assert d * (x * k) == d * x * k;
  }

  lemma DividesTransitive(d: pos, m: pos, n: int)
    requires Divides(d, m) && Divides(m, n)
    ensures Divides(d, n)
  {
    var k := Quotient(m, n);
    DividesProduct(d, m, k);
  }

  lemma DividesAtMost(d: pos, n: pos)
    requires Divides(d, n)
    ensures d <= n
  {
  }

  // ---------------------------------------------------------------------
  // Congruence
  // ---------------------------------------------------------------------

  predicate Congruent(a: int, b: int, m: pos) {
    Divides(m, a - b)
  }

  lemma CongruentSymmetric(a: int, b: int, m: pos)
    requires Congruent(a, b, m)
    ensures Congruent(b, a, m)
  {
    DividesProduct(m, a - b, -1);
  }

  lemma CongruentTransitive(a: int, b: int, c: int, m: pos)
    requires Congruent(a, b, m) && Congruent(b, c, m)
    ensures Congruent(a, c, m)
  {
    DividesSum(m, a - b, b - c);
  }

  lemma CongruentSum(a: int, b: int, c: int, d: int, m: pos)
    requires Congruent(a, b, m) && Congruent(c, d, m)
    ensures Congruent(a + c, b + d, m)
  {
    DividesSum(m, a - b, c - d);
  }

  lemma CongruentProduct(a: int, b: int, c: int, d: int, m: pos)
    requires Congruent(a, b, m) && Congruent(c, d, m)
    ensures Congruent(a * c, b * d, m)
  {
    DividesProduct(m, a - b, c);
    DividesProduct(m, c - d, b);
    DividesSum(m, (a - b) * c, (c - d) * b);
    assert (a - b) * c + (c - d) * b == a * c - b * d;
  }

  lemma RemainderCongruent(a: int, m: pos)
    ensures Congruent(a, a % m, m)
  {
    Multiple(m, a / m);
  }

  lemma EqualRemainders(a: int, b: int, m: pos)
    ensures Congruent(a, b, m) <==> a % m == b % m
  {
    var x, y := a / m, b / m;
    if Congruent(a, b, m) {
      var k := Quotient(m, a - b);
      assert a % m - b % m == m * (k - x + y);
      MultipleBound(m, k - x + y);
    }
    if a % m == b % m {
      Multiple(m, x - y);
      assert a - b == m * (x - y);
    }
  }

  // ---------------------------------------------------------------------
  // Primes
  // ---------------------------------------------------------------------

  ghost predicate Prime(p: nat) {
    p >= 2 && forall d :: 2 <= d < p ==> !Divides(d, p)
  }

  lemma {:induction false} EuclidReduced(p: pos, r: nat, b: int)
    requires Prime(p) && 0 < r < p && Divides(p, r * b)
    ensures Divides(p, b)
    decreases r
  {
    if r > 1 {
      var q, s := p / r, p % r;
      assert s != 0 by { assert !Divides(r, p); }
      assert s * b == p * b - q * (r * b) by { assert p == q * r + s; }
      Multiple(p, b);
      DividesProduct(p, r * b, q);
      DividesSum(p, p * b, (r * b) * q);
      EuclidReduced(p, s, b);
    }
  }

  /** Euclid's lemma. */
  lemma Euclid(p: pos, a: int, b: int)
    requires Prime(p) && Divides(p, a * b)
    ensures Divides(p, a) || Divides(p, b)
  {
    if !Divides(p, a) {
      var r := a % p;
      Multiple(p, (a / p) * b);
      assert a * b - p * ((a / p) * b) == r * b by { assert a == p * (a / p) + r; }
      DividesSum(p, a * b, p * ((a / p) * b));
      EuclidReduced(p, r, b);
    }
  }

  /** Every number above one has a prime divisor; a composite one, a small one. */
  lemma PrimeDivisor(n: pos) returns (r: pos)
    requires n >= 2
    ensures Prime(r) && Divides(r, n) && (r == n || r * r <= n)
  {
    r := 2;
    while r < n && !Divides(r, n)
      invariant 2 <= r <= n
      invariant forall d :: 2 <= d < r ==> !Divides(d, n)
    {
      r := r + 1;
    }
    forall d | 2 <= d < r ensures !Divides(d, r) {
      if Divides(d, r) {
        DividesTransitive(d, r, n);
      }
    }
    if r != n {
      var k := Quotient(r, n);
      assert k >= 2 by {
        MultipleBound(r, 1 - k);
        assert r * (1 - k) == r - n;
      }
      assert r * k == k * r;
      Multiple(k, r);
      assert k >= r;
      MultipleBound(r, k - r + 1);
      assert r * (k - r + 1) == n - r * r + r;
    }
  }

  // ---------------------------------------------------------------------
  // Powers
  // ---------------------------------------------------------------------

  function Pow(a: int, n: nat): int {
    if n == 0 then 1 else a * Pow(a, n - 1)
  }

  lemma {:induction false} PowSum(a: int, m: nat, n: nat)
    ensures Pow(a, m + n) == Pow(a, m) * Pow(a, n)
  {
    if m > 0 {
      PowSum(a, m - 1, n);
      assert a * (Pow(a, m - 1) * Pow(a, n)) == a * Pow(a, m - 1) * Pow(a, n);
    }
  }

  lemma {:induction false} PowProduct(a: int, m: nat, n: nat)
    ensures Pow(a, m * n) == Pow(Pow(a, m), n)
  {
    if n == 0 {
      assert m * n == 0;
    } else {
      PowProduct(a, m, n - 1);
      PowSum(a, m, m * (n - 1));
      assert m * n == m + m * (n - 1);
    }
  }

  lemma {:induction false} PowCongruent(a: int, b: int, n: nat, m: pos)
    requires Congruent(a, b, m)
    ensures Congruent(Pow(a, n), Pow(b, n), m)
  {
    if n > 0 {
      PowCongruent(a, b, n - 1, m);
      CongruentProduct(a, b, Pow(a, n - 1), Pow(b, n - 1), m);
    }
  }

  lemma {:induction false} PowOne(n: nat)
    ensures Pow(1, n) == 1
  {
    if n > 0 {
      PowOne(n - 1);
    }
  }

  lemma {:induction false} PowPositive(a: pos, n: nat)
    ensures Pow(a, n) > 0
  {
    if n > 0 {
      PowPositive(a, n - 1);
    }
  }

  // ---------------------------------------------------------------------
  // Fermat's little theorem, by the binomial theorem
  // ---------------------------------------------------------------------

  function Choose(n: nat, k: nat): nat {
    if k == 0 then 1 else if n == 0 then 0 else Choose(n - 1, k - 1) + Choose(n - 1, k)
  }

  lemma {:induction false} ChooseAbove(n: nat, k: nat)
    requires k > n
    ensures Choose(n, k) == 0
  {
    if n > 0 {
      ChooseAbove(n - 1, k - 1);
      ChooseAbove(n - 1, k);
    }
  }

  lemma {:induction false} ChooseAll(n: nat)
    ensures Choose(n, n) == 1
  {
    if n > 0 {
      ChooseAll(n - 1);
      ChooseAbove(n - 1, n);
    }
  }

  lemma AbsorptionStep(n: int, k: int, x: int, y: int, z: int, v: int)
    requires k * x == (n - 1) * z && (k - 1) * y == (n - 1) * v && y == v + z
    ensures k * (y + x) == n * y
  {
    calc {
      k * (y + x);
      y + (k - 1) * y + k * x;
      y + (n - 1) * v + (n - 1) * z;
      y + (n - 1) * (v + z);
    }
  }

  lemma {:induction false} Absorption(n: nat, k: nat)
    requires n > 0 && k > 0
    ensures k * Choose(n, k) == n * Choose(n - 1, k - 1)
  {
    if n == 1 {
      if k > 1 {
        ChooseAbove(1, k);
        ChooseAbove(0, k - 1);
      }
    } else if k == 1 {
      Absorption(n - 1, 1);
    } else {
      Absorption(n - 1, k);
      Absorption(n - 1, k - 1);
      AbsorptionStep(n, k, Choose(n - 1, k), Choose(n - 1, k - 1), Choose(n - 2, k - 1), Choose(n - 2, k - 2));
    }
  }

  function Term(n: nat, a: int, j: nat): int {
    Choose(n, j) * Pow(a, j)
  }

  /** The binomial expansion of (1 + a)^n, up to and including a^j. */
  function Expansion(n: nat, a: int, j: nat): int {
    Term(n, a, j) + (if j == 0 then 0 else Expansion(n, a, j - 1))
  }

  lemma TermStep(n: nat, a: int, j: nat)
    requires j > 0
    ensures Term(n + 1, a, j) == Term(n, a, j) + a * Term(n, a, j - 1)
  {
    var x, y, w := Choose(n, j - 1), Choose(n, j), Pow(a, j - 1);
    assert (x + y) * (a * w) == y * (a * w) + a * (x * w);
  }

  lemma Distribute(a: int, x: int, y: int)
    ensures a * (x + y) == a * x + a * y
  {
  }

  lemma {:induction false} ExpansionStep(n: nat, a: int, j: nat)
    requires j > 0
    ensures Expansion(n + 1, a, j) == Expansion(n, a, j) + a * Expansion(n, a, j - 1)
  {
    TermStep(n, a, j);
    if j > 1 {
      ExpansionStep(n, a, j - 1);
      Distribute(a, Term(n, a, j - 1), Expansion(n, a, j - 2));
    }
  }

  lemma {:induction false} Binomial(n: nat, a: int)
    ensures Expansion(n, a, n) == Pow(1 + a, n)
  {
    if n > 0 {
      Binomial(n - 1, a);
      ExpansionStep(n - 1, a, n);
      ChooseAbove(n - 1, n);
    }
  }

  /** The inner binomial coefficients of a prime are divisible by it. */
  lemma ChooseDivisible(p: pos, j: nat)
    requires Prime(p) && 0 < j < p
    ensures Divides(p, Choose(p, j))
  {
    Absorption(p, j);
    Multiple(p, Choose(p - 1, j - 1));
    EuclidReduced(p, j, Choose(p, j));
  }

  lemma {:induction false} ExpansionModulo(p: pos, a: int, j: nat)
    requires Prime(p) && j < p
    ensures Congruent(Expansion(p, a, j), 1, p)
  {
    if j > 0 {
      ExpansionModulo(p, a, j - 1);
      assert Divides(p, Term(p, a, j)) by {
        ChooseDivisible(p, j);
        DividesProduct(p, Choose(p, j), Pow(a, j));
      }
      CongruentSum(Term(p, a, j), 0, Expansion(p, a, j - 1), 1, p);
    }
  }

  /** (1 + a)^p is 1 + a^p modulo a prime p. */
  lemma PowerOfSum(p: pos, a: int)
    requires Prime(p)
    ensures Congruent(Pow(1 + a, p), 1 + Pow(a, p), p)
  {
    Binomial(p, a);
    ChooseAll(p);
    ExpansionModulo(p, a, p - 1);
    CongruentSum(Expansion(p, a, p - 1), 1, Pow(a, p), Pow(a, p), p);
  }

  lemma {:induction false} FermatAll(p: pos, a: nat)
    requires Prime(p)
    ensures Congruent(Pow(a, p), a, p)
  {
    if a > 0 {
      PowerOfSum(p, a - 1);
      FermatAll(p, a - 1);
      CongruentSum(1, 1, Pow(a - 1, p), a - 1, p);
      CongruentTransitive(Pow(a, p), 1 + Pow(a - 1, p), a, p);
    }
  }

  /** Fermat's little theorem. */
  lemma Fermat(p: pos, a: nat)
    requires Prime(p) && !Divides(p, a)
    ensures Congruent(Pow(a, p - 1), 1, p)
  {
    FermatAll(p, a);
    assert Pow(a, p) - a == a * (Pow(a, p - 1) - 1);
    Euclid(p, a, Pow(a, p - 1) - 1);
  }

  // ---------------------------------------------------------------------
  // Squares modulo a prime that is 3 modulo 4
  // ---------------------------------------------------------------------

  lemma {:induction false} PowNegated(a: int, n: nat)
    ensures Pow(-a, n) == if n % 2 == 0 then Pow(a, n) else -Pow(a, n)
  {
    if n > 0 {
      PowNegated(a, n - 1);
    }
  }

  lemma PowHalf(p: nat, a: int)
    requires p % 2 == 1
    ensures Pow(a * a, (p - 1) / 2) == Pow(a, p - 1)
  {
    PowProduct(a, 2, (p - 1) / 2);
    assert Pow(a, 2) == a * Pow(a, 1) && Pow(a, 1) == a;
    assert 2 * ((p - 1) / 2) == p - 1;
  }

  /** Fermat's theorem for a square. */
  lemma FermatSquare(p: pos, x: nat, square: nat)
    requires Prime(p) && p % 2 == 1 && !Divides(p, x) && square == x * x
    ensures Congruent(Pow(square, (p - 1) / 2), 1, p)
  {
    PowHalf(p, x);
    Fermat(p, x);
  }

  /** Two squares cancel modulo such a prime exactly if both numbers are divisible by it. */
  lemma SumOfSquares(p: pos, x: nat, y: nat)
    requires Prime(p) && p % 4 == 3
    ensures Congruent(x * x, -(y * y), p) <==> Divides(p, x) && Divides(p, y)
  {
    if Congruent(x * x, -(y * y), p) {
      if !Divides(p, x) && !Divides(p, y) {
        FermatSquare(p, x, x * x);
        FermatSquare(p, y, y * y);
        PowersClash(p, x * x, y * y, (p - 1) / 2);
      } else if Divides(p, x) {
        OtherSquare(p, x, y);
      } else {
        OtherSquare(p, y, x);
      }
    } else if Divides(p, x) && Divides(p, y) {
      DividesProduct(p, x, x);
      DividesProduct(p, y, y);
      DividesSum(p, x * x, y * y);
    }
  }

  lemma OtherSquare(p: pos, x: nat, y: nat)
    requires Prime(p) && Divides(p, x) && Divides(p, x * x + y * y)
    ensures Divides(p, y)
  {
    DividesProduct(p, x, x);
    DividesSum(p, x * x + y * y, x * x);
    assert x * x + y * y - x * x == y * y;
    Euclid(p, y, y);
  }

  lemma PowersClash(p: pos, u: int, v: int, h: nat)
    requires p >= 3 && h % 2 == 1
    requires Congruent(Pow(u, h), 1, p) && Congruent(Pow(v, h), 1, p)
    ensures !Congruent(u, -v, p)
  {
    if Congruent(u, -v, p) {
      PowCongruent(u, -v, h, p);
      PowNegated(v, h);
      var a, b := Pow(u, h), Pow(v, h);
      DividesSum(p, a - 1, b - 1);
      DividesSum(p, a + b, a + b - 2);
    }
  }

  /** Numbers with the same square modulo a prime are equal or opposite. */
  lemma EqualSquares(p: pos, x: int, y: int)
    requires Prime(p) && Congruent(x * x, y * y, p)
    ensures Divides(p, x - y) || Divides(p, x + y)
  {
    assert x * x - y * y == (x - y) * (x + y);
    Euclid(p, x - y, x + y);
  }

  lemma TimesSign(p: pos, z: int, u: int)
    ensures Divides(p, u - 1) ==> Divides(p, z * u - z)
    ensures Divides(p, u + 1) ==> Divides(p, z * u + z)
  {
    assert (u - 1) * z == z * u - z && (u + 1) * z == z * u + z;
    if Divides(p, u - 1) {
      DividesProduct(p, u - 1, z);
    }
    if Divides(p, u + 1) {
      DividesProduct(p, u + 1, z);
    }
  }

  /** The power that Euler's criterion is about is 1 or -1. */
  lemma EulerSign(p: pos, z: nat)
    requires Prime(p) && p % 2 == 1 && !Divides(p, z)
    ensures var u := Pow(z, (p - 1) / 2); Divides(p, u - 1) || Divides(p, u + 1)
  {
    var h := (p - 1) / 2;
    Fermat(p, z);
    PowSum(z, h, h);
    EqualSquares(p, Pow(z, h), 1);
  }

  /** So for a prime that is 3 modulo 4 the square of this power is the number itself or its opposite. */
  lemma RootOrOpposite(p: pos, z: nat, r: int)
    requires Prime(p) && p % 4 == 3 && !Divides(p, z) && r == Pow(z, (p + 1) / 4)
    ensures Divides(p, r * r - z) || Divides(p, r * r + z)
  {
    var h := (p + 1) / 4;
    PowSum(z, h, h);
    assert h + h == (p - 1) / 2 + 1;
    EulerSign(p, z);
    TimesSign(p, z, Pow(z, (p - 1) / 2));
  }

  // ---------------------------------------------------------------------
  // A primality test in the style of Pocklington
  // ---------------------------------------------------------------------

  function Gcd(m: nat, n: nat): nat
    decreases n
  {
    if n == 0 then m else Gcd(n, m % n)
  }

  lemma {:induction false} GcdDivides(m: nat, n: nat)
    requires m > 0 || n > 0
    ensures Gcd(m, n) > 0 && Divides(Gcd(m, n), m) && Divides(Gcd(m, n), n)
    decreases n
  {
    if n > 0 {
      var q, r := m / n, m % n;
      assert m == n * q + r;
      GcdDivides(n, r);
      var g := Gcd(n, r);
      assert Gcd(m, n) == g;
      DividesCombination(g, n, q, r);
    }
  }

  lemma DividesCombination(g: pos, n: int, q: int, r: int)
    requires Divides(g, n) && Divides(g, r)
    ensures Divides(g, n * q + r)
  {
    DividesProduct(g, n, q);
    DividesSum(g, n * q, r);
  }

  /** Powers that are one for two exponents are one for their gcd. */
  lemma {:induction false} PowGcd(a: int, m: nat, n: nat, p: pos)
    requires Congruent(Pow(a, m), 1, p) && Congruent(Pow(a, n), 1, p)
    ensures Congruent(Pow(a, Gcd(m, n)), 1, p)
    decreases n
  {
    if n > 0 {
      var q, r := m / n, m % n;
      assert m == n * q + r;
      PowRemainder(a, n, q, r, p);
      PowGcd(a, n, r, p);
    }
  }

  lemma PowRemainder(a: int, n: nat, q: nat, r: nat, p: pos)
    requires Congruent(Pow(a, n * q + r), 1, p) && Congruent(Pow(a, n), 1, p)
    ensures Congruent(Pow(a, r), 1, p)
  {
    PowSum(a, n * q, r);
    PowOfOne(a, n, q, p);
    CancelOne(Pow(a, n * q), Pow(a, r), p);
  }

  lemma PowOfOne(a: int, n: nat, q: nat, p: pos)
    requires Congruent(Pow(a, n), 1, p)
    ensures Congruent(Pow(a, n * q), 1, p)
  {
    PowProduct(a, n, q);
    PowCongruent(Pow(a, n), 1, q, p);
    PowOne(q);
  }

  /** A factor that is congruent to one can be dropped. */
  lemma CancelOne(u: int, v: int, p: pos)
    requires Congruent(u, 1, p) && Congruent(u * v, 1, p)
    ensures Congruent(v, 1, p)
  {
    CongruentProduct(u, 1, v, v, p);
    CongruentSymmetric(u * v, v, p);
    CongruentTransitive(v, u * v, 1, p);
  }

  /** A prime power that divides a product divides the factor that has the prime. */
  lemma {:induction false} PrimePower(q: pos, e: nat, g: int, k: int)
    requires Prime(q) && Pow(q, e) > 0 && Divides(Pow(q, e), g * k) && !Divides(q, k)
    ensures Divides(Pow(q, e), g)
  {
    if e > 0 {
      PowPositive(q, e - 1);
      var w := Pow(q, e - 1);
      Multiple(q, w);
      DividesTransitive(q, q * w, g * k);
      Euclid(q, g, k);
      var h := Quotient(q, g);
      var z := Quotient(q * w, g * k);
      CancelFactor(q, h * k, w * z);
      Multiple(w, z);
      PrimePower(q, e - 1, h, k);
      var y := Quotient(w, h);
      Multiple(q * w, y);
      assert q * w * y == q * (w * y);
    }
  }

  lemma CancelFactor(q: pos, x: int, y: int)
    requires q * x == q * y
    ensures x == y
  {
    MultipleBound(q, x - y);
    assert q * (x - y) == q * x - q * y;
  }

  /** A proper divisor of a prime power divides the next smaller one. */
  lemma ProperDivisor(q: pos, e: nat, g: pos)
    requires Prime(q) && e > 0 && Pow(q, e) > 0 && Divides(g, Pow(q, e)) && g < Pow(q, e)
    ensures Divides(g, Pow(q, e - 1))
  {
    var k := Quotient(g, Pow(q, e));
    CofactorHasPrime(q, e, g, k);
    var h := Quotient(q, k);
    SplitCofactor(q, Pow(q, e - 1), g, h);
    Multiple(g, h);
  }

  lemma CofactorHasPrime(q: pos, e: nat, g: pos, k: int)
    requires Prime(q) && Pow(q, e) > 0 && g * k == Pow(q, e) && g < Pow(q, e)
    ensures Divides(q, k)
  {
    if !Divides(q, k) {
      Multiple(Pow(q, e), 1);
      PrimePower(q, e, g, k);
      DividesAtMost(Pow(q, e), g);
    }
  }

  lemma SplitCofactor(q: pos, w: int, g: int, h: int)
    requires g * (q * h) == q * w
    ensures w == g * h
  {
    assert g * (q * h) == q * (g * h);
    CancelFactor(q, g * h, w);
  }

  lemma PowMultiple(b: int, g: pos, m: nat, r: pos)
    requires Congruent(Pow(b, g), 1, r) && Divides(g, m)
    ensures Congruent(Pow(b, m), 1, r)
  {
    var k := Quotient(g, m);
    MultipleBound(g, k);
    PowOfOne(b, g, k, r);
  }

  lemma PowerOneNotDivisible(r: pos, b: int, m: nat)
    requires r >= 2 && m > 0 && Congruent(Pow(b, m), 1, r)
    ensures !Divides(r, b)
  {
    if Divides(r, b) {
      DividesProduct(r, b, Pow(b, m - 1));
      DividesSum(r, Pow(b, m), Pow(b, m) - 1);
    }
  }

  /** Every prime factor of such an n is larger than the prime power. */
  lemma FactorIsLarge(n: pos, q: pos, e: nat, b: nat, u: int, r: pos)
    requires Prime(q) && e > 0 && Pow(q, e) > 0 && Pow(q, e - 1) > 0
    requires Congruent(Pow(b, Pow(q, e)), 1, n)
    requires Congruent((Pow(b, Pow(q, e - 1)) - 1) * u, 1, n)
    requires Prime(r) && Divides(r, n)
    ensures r > Pow(q, e)
  {
    var m, c := Pow(q, e), Pow(b, Pow(q, e - 1)) - 1;
    DividesTransitive(r, n, Pow(b, m) - 1);
    DividesTransitive(r, n, c * u - 1);
    PowerOneNotDivisible(r, b, m);
    Fermat(r, b);
    PowGcd(b, m, r - 1, r);
    GcdDivides(m, r - 1);
    var g := Gcd(m, r - 1);
    if r - 1 < m {
      DividesAtMost(g, r - 1);
      ProperDivisor(q, e, g);
      PowMultiple(b, g, Pow(q, e - 1), r);
      DividesProduct(r, c, u);
      DividesSum(r, c * u, c * u - 1);
    }
  }

  /**
    If b^(q^e) is one modulo n, b^(q^(e-1)) - 1 is invertible modulo n, and
    the prime power q^e exceeds the square root of n, then n is prime.
  */
  lemma Pocklington(n: pos, q: pos, e: nat, b: nat, u: int)
    requires n >= 2 && Prime(q) && e > 0 && n < Pow(q, e) * Pow(q, e)
    requires Pow(q, e) > 0 && Pow(q, e - 1) > 0
    requires Congruent(Pow(b, Pow(q, e)), 1, n)
    requires Congruent((Pow(b, Pow(q, e - 1)) - 1) * u, 1, n)
    ensures Prime(n)
  {
    var r := PrimeDivisor(n);
    assert r > Pow(q, e) by {
      FactorIsLarge(n, q, e, b, u, r);
    }
    LargerSquare(r, Pow(q, e));
  }

  lemma LargerSquare(a: nat, b: nat)
    requires a > b
    ensures a * a > b * b
  {
    assert a * a >= a * (b + 1) >= b * (b + 1);
  }

  // ---------------------------------------------------------------------
  // Powers by repeated squaring
  // ---------------------------------------------------------------------

  lemma FirstPower(b: int, n: pos) returns (e: nat)
    ensures e == 1 && Congruent(Pow(b, e), b, n)
  {
    e := 1;
  }

  /** One square-and-multiply step on a power known modulo n; `k` is the quotient. */
  lemma SquareStep(b: int, e: nat, x: int, y: int, k: int, bit: bool, n: pos) returns (e': nat)
    requires Congruent(Pow(b, e), x, n)
    requires (if bit then x * x * b else x * x) == y + n * k
    ensures e' == (if bit then 2 * e + 1 else 2 * e) && Congruent(Pow(b, e'), y, n)
  {
    PowSum(b, e, e);
    CongruentProduct(Pow(b, e), x, Pow(b, e), x, n);
    Multiple(n, k);
    if bit {
      e' := 2 * e + 1;
      CongruentProduct(b, b, Pow(b, 2 * e), x * x, n);
      assert Congruent(x * x * b, y, n) && b * (x * x) == x * x * b;
      CongruentTransitive(Pow(b, e'), x * x * b, y, n);
    } else {
      e' := 2 * e;
      assert Congruent(x * x, y, n);
      CongruentTransitive(Pow(b, e'), x * x, y, n);
    }
  }
}
