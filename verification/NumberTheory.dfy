/**
 Integer facts behind the Paillier model: congruences, powers, greatest common
 divisors with Bezout coefficients, the first-order binomial expansion and
 Fermat's little theorem.  Everything is over unbounded integers.
 */
module NumberTheory {

  // ---------- congruence ----------

  ghost predicate Cong(a: int, b: int, m: int)
    requires m > 0
  {
    a % m == b % m
  }

  /** Sign and size of a product, in the form the proofs below use. */
  lemma ProductSize(a: int, b: int)
    ensures a > 0 && b > 0 ==> a * b >= a && a * b >= b
    ensures a > 0 && b < 0 ==> a * b <= -a
    ensures b == 0 ==> a * b == 0
  {
    if a > 0 && b > 0 {
      assert a * (b - 1) >= 0;
    } else if a > 0 && b < 0 {
      assert a * (-b - 1) >= 0;
    }
  }

  lemma Regroup(a: int, b: int, c: int, d: int)
    ensures (a * b) * (c * d) == (a * c) * (b * d)
  {
    assert (a * b) * (c * d) == a * (b * (c * d)) == a * (c * (b * d));
  }

  lemma Distribute(d: int, k: int, x: int, l: int, y: int)
    ensures (d * k) * x + (d * l) * y == d * (k * x + l * y)
  {
    assert (d * k) * x == d * (k * x);
    assert (d * l) * y == d * (l * y);
  }

  lemma Associate(a: int, b: int, c: int)
    ensures a * (b * c) == (a * b) * c
  {
  }

  lemma ExpandProduct(b: int, k: int, d: int, l: int, m: int)
    ensures (b + k * m) * (d + l * m) == b * d + (b * l + k * (d + l * m)) * m
  {
    var e := d + l * m;
    assert (b + k * m) * e == b * e + (k * m) * e;
    assert b * e == b * d + b * (l * m);
    Associate(b, l, m);
    assert (k * m) * e == (k * e) * m;
  }

  lemma ProductNonNegative(a: nat, b: nat)
    ensures a * b >= 0
  {
  }

  /** Quotient and remainder are unique. */
  lemma DivModUnique(x: int, q: int, r: int, m: int)
    requires m > 0 && 0 <= r < m && x == q * m + r
    ensures x / m == q && x % m == r
  {
    var d := x / m - q;
    assert d * m == r - x % m by {
      assert x == (x / m) * m + x % m;
    }
    ProductSize(m, d);
  }

  lemma CongIntro(a: int, b: int, k: int, m: int)
    requires m > 0 && a == b + k * m
    ensures Cong(a, b, m)
  {
    assert b == (b / m) * m + b % m;
    assert a == (b / m + k) * m + b % m;
    DivModUnique(a, b / m + k, b % m, m);
  }

  lemma CongElim(a: int, b: int, m: int) returns (k: int)
    requires m > 0 && Cong(a, b, m)
    ensures a == b + k * m
  {
    k := a / m - b / m;
    assert a == (a / m) * m + a % m;
    assert b == (b / m) * m + b % m;
  }

  lemma CongMod(a: int, m: int)
    requires m > 0
    ensures Cong(a % m, a, m)
  {
    assert a == (a / m) * m + a % m;
    CongIntro(a, a % m, a / m, m);
  }

  lemma CongMul(a: int, b: int, c: int, d: int, m: int)
    requires m > 0 && Cong(a, b, m) && Cong(c, d, m)
    ensures Cong(a * c, b * d, m)
  {
    var k := CongElim(a, b, m);
    var l := CongElim(c, d, m);
    ExpandProduct(b, k, d, l, m);
    CongIntro(a * c, b * d, b * l + k * (d + l * m), m);
  }

  lemma CongAdd(a: int, b: int, c: int, d: int, m: int)
    requires m > 0 && Cong(a, b, m) && Cong(c, d, m)
    ensures Cong(a + c, b + d, m)
  {
    var k := CongElim(a, b, m);
    var l := CongElim(c, d, m);
    assert a + c == b + d + (k + l) * m;
    CongIntro(a + c, b + d, k + l, m);
  }

  // ---------- powers ----------

  function Pow(b: int, e: nat): int
  {
    if e == 0 then 1 else b * Pow(b, e - 1)
  }

  lemma {:induction false} PowAdd(b: int, x: nat, y: nat)
    ensures Pow(b, x + y) == Pow(b, x) * Pow(b, y)
  {
    if x != 0 {
      PowAdd(b, x - 1, y);
      Associate(b, Pow(b, x - 1), Pow(b, y));
    }
  }

  lemma {:induction false} PowOfProduct(a: int, b: int, e: nat)
    ensures Pow(a * b, e) == Pow(a, e) * Pow(b, e)
  {
    if e != 0 {
      PowOfProduct(a, b, e - 1);
      Regroup(a, b, Pow(a, e - 1), Pow(b, e - 1));
    }
  }

  lemma {:induction false} PowOfPow(b: int, x: nat, y: nat)
    ensures 0 <= x * y && Pow(Pow(b, x), y) == Pow(b, x * y)
  {
    if y != 0 {
      PowOfPow(b, x, y - 1);
      assert x * y == x + x * (y - 1);
      PowAdd(b, x, x * (y - 1));
    }
  }

  lemma {:induction false} PowOfOne(e: nat)
    ensures Pow(1, e) == 1
  {
    if e != 0 {
      PowOfOne(e - 1);
    }
  }

  lemma {:induction false} PowPositive(b: int, e: nat)
    requires b > 0
    ensures Pow(b, e) > 0
  {
    if e != 0 {
      PowPositive(b, e - 1);
    }
  }

  lemma {:induction false} CongPow(a: int, b: int, e: nat, m: int)
    requires m > 0 && Cong(a, b, m)
    ensures Cong(Pow(a, e), Pow(b, e), m)
  {
    if e != 0 {
      CongPow(a, b, e - 1, m);
      CongMul(a, b, Pow(a, e - 1), Pow(b, e - 1), m);
    }
  }

  // ---------- greatest common divisor ----------

  ghost predicate Divides(d: int, x: int)
  {
    if d == 0 then x == 0 else x % d == 0
  }

  lemma DividesIntro(d: int, k: int, x: int)
    requires x == d * k
    ensures Divides(d, x)
  {
    if d > 0 {
      DivModUnique(x, k, 0, d);
    } else if d < 0 {
      assert x == (-k) * (-d);
      DivModUnique(x, -k, 0, -d);
      assert x % d == x % (-d);
    }
  }

  lemma DividesElim(d: int, x: int) returns (k: int)
    requires Divides(d, x)
    ensures x == d * k
  {
    k := if d == 0 then 0 else x / d;
  }

  function Gcd(a: nat, b: nat): nat
    decreases b
  {
    if b == 0 then a else Gcd(b, a % b)
  }

  /** Extended Euclid: the coefficients of Gcd(a, b) as a combination of a and b. */
  function ExtendedGcd(a: nat, b: nat): (c: (int, int))
    ensures a * c.0 + b * c.1 == Gcd(a, b)
    decreases b
  {
    if b == 0 then (1, 0)
    else
      var (u, v) := ExtendedGcd(b, a % b);
      EuclidStep(a, b, u, v);
      (v, u - (a / b) * v)
  }

  lemma EuclidStep(a: nat, b: nat, u: int, v: int)
    requires b > 0
    ensures a * v + b * (u - (a / b) * v) == b * u + (a % b) * v
  {
    assert a % b == a - b * (a / b);
    assert (a - b * (a / b)) * v == a * v - b * (a / b) * v;
    assert b * (u - (a / b) * v) == b * u - b * (a / b) * v;
  }

  lemma {:induction false} GcdDivides(a: nat, b: nat)
    ensures Divides(Gcd(a, b), a) && Divides(Gcd(a, b), b)
    decreases b
  {
    var g := Gcd(a, b);
    if b == 0 {
      DividesIntro(a, 1, a);
      DividesIntro(a, 0, 0);
    } else {
      GcdDivides(b, a % b);
      var k := DividesElim(g, b);
      var l := DividesElim(g, a % b);
      calc {
        a;
        b * (a / b) + a % b;
        g * k * (a / b) + g * l;
        g * (k * (a / b) + l);
      }
      DividesIntro(g, k * (a / b) + l, a);
    }
  }

  /** Every common divisor divides the greatest one. */
  lemma GcdGreatest(a: nat, b: nat, d: int)
    requires Divides(d, a) && Divides(d, b)
    ensures Divides(d, Gcd(a, b))
  {
    var (x, y) := ExtendedGcd(a, b);
    var k := DividesElim(d, a);
    var l := DividesElim(d, b);
    Distribute(d, k, x, l, y);
    DividesIntro(d, k * x + l * y, Gcd(a, b));
  }

  lemma CoprimeFromCombination(a: nat, n: nat, x: int, y: int)
    requires n > 0 && a * x + n * y == 1
    ensures Gcd(a, n) == 1
  {
    var g := Gcd(a, n);
    GcdDivides(a, n);
    var k := DividesElim(g, a);
    var l := DividesElim(g, n);
    Distribute(g, k, x, l, y);
    ProductSize(g, k * x + l * y);
    assert g != 0 by {
      ProductSize(k * x + l * y, 0);
    }
  }

  lemma ReducedCombination(p: int, q: int, n: int, e: int, f: int)
    ensures (n * q + p) * e + n * f == p * e + n * (q * e + f)
  {
    assert (n * q + p) * e == (n * q) * e + p * e == n * (q * e) + p * e;
  }

  lemma CombinationProduct(r: int, x: int, s: int, u: int, n: int, y: int, v: int)
    requires r * x + n * y == 1 && s * u + n * v == 1
    ensures (r * s) * (x * u) + n * ((r * x) * v + y) == 1
  {
    calc {
      1;
      (r * x) * (s * u + n * v) + n * y;
      (r * x) * (s * u) + (r * x) * (n * v) + n * y;
      { assert (r * x) * (n * v) == n * ((r * x) * v); }
      (r * x) * (s * u) + n * ((r * x) * v + y);
      { Regroup(r, x, s, u); }
      (r * s) * (x * u) + n * ((r * x) * v + y);
    }
  }

  /** A product of units modulo n is a unit, also after reduction. */
  lemma CoprimeProduct(r: nat, s: nat, n: nat)
    requires n > 0 && Gcd(r, n) == 1 && Gcd(s, n) == 1
    ensures Gcd((r * s) % n, n) == 1
  {
    var (x, y) := ExtendedGcd(r, n);
    var (u, v) := ExtendedGcd(s, n);
    CombinationProduct(r, x, s, u, n, y, v);
    var q, p, e, f := (r * s) / n, (r * s) % n, x * u, (r * x) * v + y;
    assert r * s == n * q + p;
    ReducedCombination(p, q, n, e, f);
    CoprimeFromCombination(p, n, e, q * e + f);
  }

  lemma {:induction false} CoprimePow(r: nat, k: nat, n: nat)
    requires n > 0 && Gcd(r, n) == 1
    ensures Gcd(Pow(r, k) % n, n) == 1
  {
    if k == 0 {
      var q := 1 / n;
      assert 1 == n * q + 1 % n;
      CoprimeFromCombination(1 % n, n, 1, q);
    } else {
      CoprimePow(r, k - 1, n);
      CoprimeProduct(r, Pow(r, k - 1) % n, n);
      CongMod(Pow(r, k - 1), n);
      CongMul(r, r, Pow(r, k - 1) % n, Pow(r, k - 1), n);
    }
  }

  lemma CancelCombination(a: int, c: int, n: int, x: int, y: int, k: int)
    requires a * x + n * y == 1 && a * c == n * k
    ensures c == n * (k * x + y * c)
  {
    assert c == c * (a * x + n * y) == c * (a * x) + c * (n * y);
    assert c * (a * x) == (a * c) * x == (n * k) * x;
    Associate(n, k, x);
    assert c * (n * y) == n * (y * c);
  }

  /** Euclid's lemma. */
  lemma CoprimeCancels(a: nat, c: int, n: nat)
    requires n > 0 && Gcd(a, n) == 1 && Divides(n, a * c)
    ensures Divides(n, c)
  {
    var (x, y) := ExtendedGcd(a, n);
    var k := DividesElim(n, a * c);
    CancelCombination(a, c, n, x, y, k);
    DividesIntro(n, k * x + y * c, c);
  }

  // ---------- primes ----------

  ghost predicate Prime(p: int)
  {
    p > 1 && forall d :: 1 < d < p ==> !Divides(d, p)
  }

  lemma PrimeCoprime(p: nat, a: nat)
    requires Prime(p) && !Divides(p, a)
    ensures Gcd(a, p) == 1
  {
    var g := Gcd(a, p);
    GcdDivides(a, p);
    var k := DividesElim(g, p);
    ProductSize(g, k);
  }

  lemma PrimeDividesProduct(p: nat, a: nat, c: int)
    requires Prime(p) && Divides(p, a * c)
    ensures Divides(p, a) || Divides(p, c)
  {
    if !Divides(p, a) {
      PrimeCoprime(p, a);
      CoprimeCancels(a, c, p);
    }
  }

  lemma DistinctPrimesCoprime(p: nat, q: nat)
    requires Prime(p) && Prime(q) && p != q
    ensures Gcd(p, q) == 1
  {
    ProductSize(q, p / q);
    PrimeCoprime(q, p);
  }

  /** Two coprime divisors divide through their product. */
  lemma CoprimeDivisors(p: nat, q: nat, x: int)
    requires p > 0 && q > 0 && Gcd(p, q) == 1 && Divides(p, x) && Divides(q, x)
    ensures Divides(p * q, x)
  {
    var k := DividesElim(p, x);
    CoprimeCancels(p, k, q);
    var l := DividesElim(q, k);
    Associate(p, q, l);
    DividesIntro(p * q, l, x);
  }

  // ---------- binomial expansion ----------

  /** To first order in t, (y + t)^e is y^e + e * y^(e-1) * t. */
  lemma {:induction false} FirstOrder(y: int, t: int, e: nat) returns (w: int)
    ensures Pow(y + t, e) == Pow(y, e) + (if e == 0 then 0 else e * Pow(y, e - 1) * t) + w * (t * t)
  {
    if e == 0 {
      w := 0;
    } else {
      var v := FirstOrder(y, t, e - 1);
      var a := Pow(y, e - 1);
      var b := if e == 1 then 0 else (e - 1) * Pow(y, e - 2);
      assert Pow(y + t, e - 1) == a + b * t + v * (t * t);
      assert b * y == (e - 1) * a by {
        if e > 1 {
          assert a == y * Pow(y, e - 2);
        }
      }
      w := y * v + b + v * t;
      FirstOrderStep(y, t, a, b, v, e);
    }
  }

  lemma FirstOrderStep(y: int, t: int, a: int, b: int, v: int, e: int)
    requires b * y == (e - 1) * a
    ensures (y + t) * (a + b * t + v * (t * t)) == y * a + e * a * t + (y * v + b + v * t) * (t * t)
  {
    var s := t * t;
    assert (y + t) * (a + b * t + v * s) == y * (a + b * t + v * s) + t * (a + b * t + v * s);
    assert y * (a + b * t + v * s) == y * a + (b * y) * t + (y * v) * s by {
      Associate(y, b, t);
      Associate(y, v, s);
    }
    assert t * (a + b * t + v * s) == a * t + b * s + (v * t) * s by {
      assert t * (b * t) == b * (t * t);
      assert t * (v * s) == (v * t) * s;
    }
    assert (b * y) * t + a * t == ((e - 1) * a + a) * t == e * a * t;
    assert (y * v + b + v * t) * s == (y * v) * s + b * s + (v * t) * s;
  }

  function Binomial(n: nat, k: nat): nat
  {
    if k == 0 then 1 else if n == 0 then 0 else Binomial(n - 1, k - 1) + Binomial(n - 1, k)
  }

  lemma {:induction false} BinomialAbove(n: nat, k: nat)
    requires k > n
    ensures Binomial(n, k) == 0
  {
    if n > 0 {
      BinomialAbove(n - 1, k - 1);
      BinomialAbove(n - 1, k);
    }
  }

  lemma {:induction false} Absorption(n: nat, k: nat)
    requires n > 0 && k > 0
    ensures k * Binomial(n, k) == n * Binomial(n - 1, k - 1)
  {
    if n == 1 {
      if k > 1 {
        BinomialAbove(n, k);
      }
    } else {
      Absorption(n - 1, k);
      if k > 1 {
        Absorption(n - 1, k - 1);
      }
      AbsorptionStep(n - 1, k, Binomial(n - 2, k - 1), if k == 1 then 0 else Binomial(n - 2, k - 2),
                     Binomial(n - 1, k - 1), Binomial(n - 1, k));
    }
  }

  lemma AbsorptionStep(m: int, k: int, a: int, b: int, c: int, d: int)
    requires k * d == m * a && (k - 1) * c == m * b
    requires if k == 1 then c == a else c == a + b
    requires k == 1 ==> b == 0
    ensures k * (c + d) == (m + 1) * c
  {
    assert c == a + b;
    calc {
      k * (c + d);
      (k - 1) * c + c + k * d;
      m * b + c + m * a;
      m * (a + b) + c;
      (m + 1) * c;
    }
  }

  /** The partial sum of Binomial(n, i) * y^i over i < k. */
  function BinomialSum(n: nat, k: nat, y: int): int
  {
    if k == 0 then 0 else BinomialSum(n, k - 1, y) + Binomial(n, k - 1) * Pow(y, k - 1)
  }

  lemma {:induction false} BinomialSumPascal(n: nat, k: nat, y: int)
    requires k > 0
    ensures BinomialSum(n + 1, k, y) == BinomialSum(n, k, y) + y * BinomialSum(n, k - 1, y)
  {
    if k == 1 {
    } else {
      BinomialSumPascal(n, k - 1, y);
      PascalStep(BinomialSum(n, k - 1, y), BinomialSum(n, k - 2, y), Binomial(n, k - 2), Binomial(n, k - 1),
                 y, Pow(y, k - 2), Pow(y, k - 1));
    }
  }

  lemma PascalStep(s: int, r: int, a: int, b: int, y: int, t: int, z: int)
    requires z == y * t
    ensures s + y * r + (a + b) * z == (s + b * z) + y * (r + a * t)
  {
    assert a * z == a * (y * t) == y * (a * t);
    assert (a + b) * z == a * z + b * z;
    assert y * (r + a * t) == y * r + y * (a * t);
  }

  lemma {:induction false} BinomialTheorem(n: nat, y: int)
    ensures Pow(1 + y, n) == BinomialSum(n, n + 1, y)
  {
    if n == 0 {
      assert BinomialSum(0, 1, y) == BinomialSum(0, 0, y) + Binomial(0, 0) * Pow(y, 0);
    } else {
      BinomialTheorem(n - 1, y);
      BinomialSumPascal(n - 1, n + 1, y);
      BinomialAbove(n - 1, n);
      assert BinomialSum(n - 1, n + 1, y) == BinomialSum(n - 1, n, y) + 0 * Pow(y, n);
      var s := BinomialSum(n - 1, n, y);
      assert s + y * s == (1 + y) * s;
    }
  }

  /** A prime divides the inner binomial coefficients of its own row. */
  lemma PrimeDividesBinomial(p: nat, k: nat)
    requires Prime(p) && 0 < k < p
    ensures Divides(p, Binomial(p, k))
  {
    Absorption(p, k);
    DividesIntro(p, Binomial(p - 1, k - 1), k * Binomial(p, k));
    PrimeDividesProduct(p, k, Binomial(p, k));
    if Divides(p, k) {
      DivModUnique(k, 0, k, p);
      assert false;
    }
  }

  lemma {:induction false} InnerSumVanishes(p: nat, k: nat, y: int)
    requires Prime(p) && 1 <= k <= p
    ensures Cong(BinomialSum(p, k, y), 1, p)
  {
    if k == 1 {
      assert BinomialSum(p, 1, y) == BinomialSum(p, 0, y) + Binomial(p, 0) * Pow(y, 0);
    } else {
      InnerSumVanishes(p, k - 1, y);
      PrimeDividesBinomial(p, k - 1);
      CongMul(Binomial(p, k - 1), 0, Pow(y, k - 1), Pow(y, k - 1), p);
      CongAdd(BinomialSum(p, k - 1, y), 1, Binomial(p, k - 1) * Pow(y, k - 1), 0, p);
    }
  }

  lemma {:induction false} FermatAll(p: nat, a: nat)
    requires Prime(p)
    ensures Cong(Pow(a, p), a, p)
  {
    if a == 0 {
      assert Pow(0, p) == 0 * Pow(0, p - 1);
    } else {
      FermatAll(p, a - 1);
      BinomialTheorem(p, a - 1);
      InnerSumVanishes(p, p, a - 1);
      assert Binomial(p, p) == 1 by {
        Absorption(p, p);
        BinomialDiagonal(p);
      }
      var y := a - 1;
      assert Pow(a, p) == BinomialSum(p, p, y) + Binomial(p, p) * Pow(y, p);
      CongAdd(BinomialSum(p, p, y), 1, Pow(y, p), y, p);
    }
  }

  lemma {:induction false} BinomialDiagonal(n: nat)
    ensures Binomial(n, n) == 1
  {
    if n > 0 {
      BinomialDiagonal(n - 1);
      BinomialAbove(n - 1, n);
    }
  }

  /** Fermat's little theorem. */
  lemma Fermat(p: nat, a: nat)
    requires Prime(p) && !Divides(p, a)
    ensures Cong(Pow(a, p - 1), 1, p)
  {
    FermatAll(p, a);
    var k := CongElim(Pow(a, p), a, p);
    var c := Pow(a, p - 1) - 1;
    assert a * c == Pow(a, p) - a == k * p;
    DividesIntro(p, k, a * c);
    PrimeDividesProduct(p, a, c);
    var l := DividesElim(p, c);
    CongIntro(Pow(a, p - 1), 1, l, p);
  }
}
