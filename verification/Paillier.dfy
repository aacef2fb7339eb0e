/**
 The Paillier cryptosystem: the TypeScript client (modular exponentiation,
 sampling, encryption and the homomorphic operations) and the server's key
 assembly and decryption.  A JavaScript bigint and a Rust BigUint are both an
 unbounded integer here; random draws are parameters.
 */
module Paillier {
  import opened NumberTheory

  datatype Result<+T> = Ok(value: T) | Err(error: HeError)

  datatype HeError = MessageOutOfRange | SamplingExhausted | NegativeScalar | DivisionByZero | EqualPrimes
    | LambdaNotInvertible

  datatype PublicKey = PublicKey(n: nat, nSquared: nat)

  datatype PrivateKey = PrivateKey(public: PublicKey, lambda: nat, mu: nat)

  /** What the client demands of the key it is given. */
  predicate ValidKey(pk: PublicKey)
  {
    pk.n > 1 && pk.nSquared == pk.n * pk.n
  }

  function Magnitude(m: int): nat
  {
    if m < 0 then -m else m
  }

  /** The remainder operator of JavaScript bigints: the sign follows the dividend. */
  function JsRem(a: int, m: int): int
    requires m != 0
  {
    if a >= 0 then a % Magnitude(m) else -((-a) % Magnitude(m))
  }

  // ---------- loops of the client ----------

  /**
   Square-and-multiply computes the power modulo m; a negative exponent runs no
   iteration.  A zero modulus throws, and for a negative one the result is congruent
   to the power but not reduced.
   */
  method ModPow(base: int, exp: int, m: int) returns (res: Result<int>)
    ensures m == 0 ==> res == Err(DivisionByZero)
    ensures m > 0 ==> res == Ok((if exp >= 0 then Pow(base, exp) else 1) % m)
    ensures m < 0 ==> res.Ok? && Cong(res.value, if exp >= 0 then Pow(base, exp) else 1, -m)
  {
    ghost var goal := if exp >= 0 then Pow(base, exp) else 1;
    if m == 1 {
      DivModUnique(goal, goal, 0, 1);
      return Ok(0);
    }
    if m == 0 {
      return Err(DivisionByZero);
    }
    ghost var n := Magnitude(m);
    var result := 1;
    var b := JsRem(base, m);
    if b < 0 {
      b := b + m;
    }
    ReducedBase(base, m);
    var e := exp;
    if e >= 0 {
      CongPow(b, base, e, n);
    }
    while e > 0
      invariant exp >= 0 ==> e >= 0
      invariant exp < 0 ==> e == exp && result == 1
      invariant m > 0 ==> 0 <= result < m && 0 <= b < m
      invariant e >= 0 ==> Cong(result * Pow(b, e), goal, n)
    {
      Iteration(result, b, e, m);
      if e % 2 == 1 {
        result := JsRem(result * b, m);
      }
      e := e / 2;
      b := JsRem(b * b, m);
    }
    assert result * Pow(b, 0) == result;
    if m > 0 {
      Residue(result, goal, m);
    }
    return Ok(result);
  }

  lemma Residue(r: int, y: int, m: int)
    requires m > 0 && 0 <= r < m && Cong(r, y, m)
    ensures r == y % m
  {
    DivModUnique(r, 0, r, m);
  }

  /** A remainder is congruent to its dividend, and reduced for a non-negative dividend and positive modulus. */
  lemma RemCong(x: int, m: int)
    requires m != 0
    ensures Cong(JsRem(x, m), x, Magnitude(m))
    ensures m > 0 ==> (x >= 0 ==> 0 <= JsRem(x, m) < m) && (x < 0 ==> -m < JsRem(x, m) <= 0)
  {
    var n := Magnitude(m);
    var y := if x >= 0 then x else -x;
    CongMod(y, n);
    if x < 0 {
      var k := CongElim(y % n, y, n);
      assert -(y % n) == x + (-k) * n;
      CongIntro(-(y % n), x, -k, n);
    }
  }

  lemma ReducedBase(base: int, m: int)
    requires m != 0
    ensures var b := JsRem(base, m);
            var c := if b < 0 then b + m else b;
            Cong(c, base, Magnitude(m)) && (m > 0 ==> 0 <= c < m)
  {
    RemCong(base, m);
    var n, b := Magnitude(m), JsRem(base, m);
    if b < 0 {
      var k := CongElim(b, base, n);
      var sign := if m > 0 then 1 else -1;
      assert b + m == base + (k + sign) * n;
      CongIntro(b + m, base, k + sign, n);
    }
  }

  /** One iteration: the product with the remaining power is kept, and reduced values stay reduced. */
  lemma Iteration(r: int, b: int, e: nat, m: int)
    requires m != 0 && e > 0
    ensures var r', b' := if e % 2 == 1 then JsRem(r * b, m) else r, JsRem(b * b, m);
            && Cong(r' * Pow(b', e / 2), r * Pow(b, e), Magnitude(m))
            && (m > 0 && 0 <= r < m && 0 <= b < m ==> 0 <= r' < m && 0 <= b' < m)
  {
    RemCong(r * b, m);
    RemCong(b * b, m);
    SquareStep(r, b, e, if e % 2 == 1 then JsRem(r * b, m) else r, JsRem(b * b, m), Magnitude(m));
    if m > 0 && 0 <= r && 0 <= b {
      ProductNonNegative(r, b);
      ProductNonNegative(b, b);
    }
  }

  /** Squaring the base while halving the exponent keeps the power. */
  lemma SquareStep(r: int, b: int, e: nat, r': int, b': int, m: int)
    requires m > 0 && e > 0
    requires Cong(b', b * b, m) && if e % 2 == 1 then Cong(r', r * b, m) else r' == r
    ensures Cong(r' * Pow(b', e / 2), r * Pow(b, e), m)
  {
    var h := e / 2;
    CongPow(b', b * b, h, m);
    PowOfProduct(b, b, h);
    PowAdd(b, h, h);
    assert Cong(Pow(b', h), Pow(b, h + h), m);
    if e % 2 == 1 {
      CongMul(r', r * b, Pow(b', h), Pow(b, h + h), m);
      assert (r * b) * Pow(b, h + h) == r * (b * Pow(b, h + h));
      assert e == h + h + 1;
    } else {
      CongMul(r, r, Pow(b', h), Pow(b, h + h), m);
    }
  }

  /** The Euclid loop returns the greatest common divisor of the magnitudes. */
  method GreatestCommonDivisor(a: int, b: int) returns (x: nat)
    ensures Divides(x, a) && Divides(x, b)
    ensures forall d :: Divides(d, a) && Divides(d, b) ==> Divides(d, x)
    ensures x == Gcd(if a < 0 then -a else a, if b < 0 then -b else b)
  {
    ghost var p: nat, q: nat := if a < 0 then -a else a, if b < 0 then -b else b;
    x := if a < 0 then -a else a;
    var y: nat := if b < 0 then -b else b;
    while y > 0
      invariant Gcd(x, y) == Gcd(p, q)
      decreases y
    {
      var t := y;
      y := x % y;
      x := t;
    }
    GcdDivides(p, q);
    DividesNegated(x, p);
    DividesNegated(x, q);
    forall d | Divides(d, a) && Divides(d, b)
      ensures Divides(d, x)
    {
      DividesNegated(d, a);
      DividesNegated(d, b);
      GcdGreatest(p, q, d);
    }
  }

  lemma DividesNegated(d: int, x: int)
    requires Divides(d, x)
    ensures Divides(d, -x)
  {
    var k := DividesElim(d, x);
    assert -x == d * (-k);
    DividesIntro(d, -k, -x);
  }

  const MAX_ATTEMPTS := 256

  predicate Unit(r: int, n: nat)
  {
    1 <= r < n && Gcd(r, n) == 1
  }

  /** Rejection sampling returns the first acceptable of the 256 draws, or fails if there is none. */
  method SampleZnStar(n: nat, draws: seq<nat>) returns (res: Result<nat>)
    requires |draws| == MAX_ATTEMPTS
    ensures res.Ok? ==> exists i :: 0 <= i < |draws| && res.value == draws[i] && Unit(draws[i], n)
                                    && forall j :: 0 <= j < i ==> !Unit(draws[j], n)
    ensures res.Err? ==> res.error == SamplingExhausted && forall j :: 0 <= j < |draws| ==> !Unit(draws[j], n)
  {
    for attempt := 0 to MAX_ATTEMPTS
      invariant forall j :: 0 <= j < attempt ==> !Unit(draws[j], n)
    {
      var r := draws[attempt];
      if r >= 1 && r < n {
        var g := GreatestCommonDivisor(r, n);
        if g == 1 {
          return Ok(r);
        }
      }
    }
    return Err(SamplingExhausted);
  }

  // ---------- encryption and the homomorphic operations ----------

  /** The ciphertext of m under randomness r. */
  function Enc(m: nat, r: nat, n: nat): nat
    requires n > 1
  {
    (((1 + m * n) % (n * n)) * (Pow(r, n) % (n * n))) % (n * n)
  }

  /** c is a ciphertext that encryption can produce for plaintext m with randomness r. */
  ghost predicate Encrypts(c: int, m: int, r: int, n: nat)
  {
    n > 1 && 0 <= m < n && Unit(r, n) && c == Enc(m, r, n)
  }

  method Encrypt(message: int, pk: PublicKey, draws: seq<nat>) returns (res: Result<nat>)
    requires ValidKey(pk) && |draws| == MAX_ATTEMPTS
    ensures message < 0 || message >= pk.n ==> res == Err(MessageOutOfRange)
    ensures 0 <= message < pk.n ==>
              if forall j :: 0 <= j < |draws| ==> !Unit(draws[j], pk.n)
              then res == Err(SamplingExhausted)
              else res.Ok? && exists r :: r in draws && Encrypts(res.value, message, r, pk.n)
  {
    if message < 0 || message >= pk.n {
      return Err(MessageOutOfRange);
    }
    var s := SampleZnStar(pk.n, draws);
    if s.Err? {
      return s;
    }
    var onePlusMn := (1 + message * pk.n) % pk.nSquared;
    var rToN := ModPow(s.value, pk.n, pk.nSquared);
    res := Ok((onePlusMn * rToN.value) % pk.nSquared);
    assert Encrypts(res.value, message, s.value, pk.n);
  }

  function Add(a: int, b: int, pk: PublicKey): int
    requires ValidKey(pk)
  {
    JsRem(a * b, pk.nSquared)
  }

  method MulScalar(a: int, k: int, pk: PublicKey) returns (res: Result<int>)
    requires ValidKey(pk)
    ensures k < 0 ==> res == Err(NegativeScalar)
    ensures k >= 0 ==> res == Ok(Pow(a, k) % pk.nSquared)
    ensures k >= 0 ==> forall m, r :: Encrypts(a, m, r, pk.n) ==>
                         Encrypts(res.value, (m * k) % pk.n, Pow(r, k) % pk.n, pk.n)
  {
    if k < 0 {
      return Err(NegativeScalar);
    }
    var power := ModPow(a, k, pk.nSquared);
    var c := power.value;
    forall m, r | Encrypts(a, m, r, pk.n)
      ensures Encrypts(c, (m * k) % pk.n, Pow(r, k) % pk.n, pk.n)
    {
      ScalarMultiplication(m, r, k, pk.n);
    }
    res := Ok(c);
  }

  /** c' encrypts whatever c encrypts, with the randomness multiplied by s. */
  ghost predicate SamePlaintext(c: int, c': int, s: int, n: nat)
    requires n > 0
  {
    forall m, r :: Encrypts(c, m, r, n) ==> Encrypts(c', m, (r * s) % n, n)
  }

  method Rerandomize(c: int, pk: PublicKey, draws: seq<nat>) returns (res: Result<int>)
    requires ValidKey(pk) && |draws| == MAX_ATTEMPTS
    ensures if forall j :: 0 <= j < |draws| ==> !Unit(draws[j], pk.n)
            then res == Err(SamplingExhausted)
            else res.Ok? && exists s :: s in draws && Unit(s, pk.n) && SamePlaintext(c, res.value, s, pk.n)
  {
    var draw := SampleZnStar(pk.n, draws);
    if draw.Err? {
      return Err(draw.error);
    }
    var s := draw.value;
    var sToN := ModPow(s, pk.n, pk.nSquared);
    res := Ok(JsRem(c * sToN.value, pk.nSquared));
    forall m, r | Encrypts(c, m, r, pk.n)
      ensures Encrypts(res.value, m, (r * s) % pk.n, pk.n)
    {
      Rerandomization(m, r, s, pk.n);
    }
  }

  // ---------- closure of ciphertexts ----------

  /** The n-th power modulo n^2 depends only on the base modulo n. */
  lemma NthPowerLift(x: int, y: int, n: nat)
    requires n > 0 && Cong(x, y, n)
    ensures Cong(Pow(x, n), Pow(y, n), n * n)
  {
    var k := CongElim(x, y, n);
    var w := FirstOrder(y, k * n, n);
    SecondOrderTerms(n, Pow(y, n - 1), k, w);
    CongIntro(Pow(x, n), Pow(y, n), Pow(y, n - 1) * k + w * (k * k), n * n);
  }

  lemma SecondOrderTerms(n: int, p: int, k: int, w: int)
    ensures n * p * (k * n) + w * ((k * n) * (k * n)) == (p * k + w * (k * k)) * (n * n)
  {
    Regroup(n, p, n, k);
    assert n * p * (k * n) == n * p * (n * k) == (n * n) * (p * k);
    Regroup(k, n, k, n);
    Associate(w, k * k, n * n);
  }

  /** (1 + m*n)^k is 1 + k*m*n modulo n^2. */
  lemma {:induction false} LinearPower(m: int, k: nat, n: nat)
    requires n > 0
    ensures Cong(Pow(1 + m * n, k), 1 + (m * k) * n, n * n)
  {
    if k != 0 {
      LinearPower(m, k - 1, n);
      CongMul(1 + m * n, 1 + m * n, Pow(1 + m * n, k - 1), 1 + (m * (k - 1)) * n, n * n);
      LinearProduct(m, m * (k - 1), n);
      assert m + m * (k - 1) == m * k;
    }
  }

  lemma LinearProduct(a: int, b: int, n: nat)
    requires n > 0
    ensures Cong((1 + a * n) * (1 + b * n), 1 + (a + b) * n, n * n)
  {
    Regroup(a, n, b, n);
    assert (1 + a * n) * (1 + b * n) == 1 + (a + b) * n + (a * n) * (b * n);
    CongIntro((1 + a * n) * (1 + b * n), 1 + (a + b) * n, a * b, n * n);
  }

  /** 1 + m*n modulo n^2 depends only on m modulo n. */
  lemma LinearReduce(m: int, n: nat)
    requires n > 0
    ensures Cong(1 + m * n, 1 + (m % n) * n, n * n)
  {
    assert m == (m / n) * n + m % n;
    assert m * n == (m / n) * (n * n) + (m % n) * n;
    CongIntro(1 + m * n, 1 + (m % n) * n, m / n, n * n);
  }

  lemma SquarePositive(n: nat)
    requires n > 1
    ensures n * n > n
  {
  }

  lemma EncRange(m: nat, r: nat, n: nat)
    requires n > 1
    ensures 0 <= Enc(m, r, n) < n * n
  {
  }

  lemma EncCong(m: nat, r: nat, n: nat)
    requires n > 1
    ensures Cong(Enc(m, r, n), (1 + m * n) * Pow(r, n), n * n)
  {
    SquarePositive(n);
    var nn := n * n;
    CongMod(1 + m * n, nn);
    CongMod(Pow(r, n), nn);
    CongMul((1 + m * n) % nn, 1 + m * n, Pow(r, n) % nn, Pow(r, n), nn);
    CongMod(((1 + m * n) % nn) * (Pow(r, n) % nn), nn);
  }

  /** A value congruent to (1 + m*n) * r^n reduces to the ciphertext of m mod n under r mod n. */
  lemma ReducesToEnc(c: int, m: nat, r: nat, n: nat)
    requires n > 1 && Cong(c, (1 + m * n) * Pow(r, n), n * n)
    ensures c % (n * n) == Enc(m % n, r % n, n)
  {
    SquarePositive(n);
    LinearReduce(m, n);
    CongMod(r, n);
    NthPowerLift(r % n, r, n);
    CongMul(1 + m * n, 1 + (m % n) * n, Pow(r, n), Pow(r % n, n), n * n);
    EncCong(m % n, r % n, n);
    CongMod(c, n * n);
    DivModUnique(Enc(m % n, r % n, n), 0, Enc(m % n, r % n, n), n * n);
  }

  lemma AddedCong(m: nat, r: nat, k: nat, s: nat, n: nat)
    requires n > 1
    ensures Cong(Enc(m, r, n) * Enc(k, s, n), (1 + (m + k) * n) * Pow(r * s, n), n * n)
  {
    var nn := n * n;
    EncCong(m, r, n);
    EncCong(k, s, n);
    CongMul(Enc(m, r, n), (1 + m * n) * Pow(r, n), Enc(k, s, n), (1 + k * n) * Pow(s, n), nn);
    Regroup(1 + m * n, Pow(r, n), 1 + k * n, Pow(s, n));
    PowOfProduct(r, s, n);
    LinearProduct(m, k, n);
    CongMul((1 + m * n) * (1 + k * n), 1 + (m + k) * n, Pow(r * s, n), Pow(r * s, n), nn);
  }

  /** Adding two ciphertexts gives the ciphertext of the sum modulo n under the product of the randomness. */
  lemma HomomorphicAddition(a: int, b: int, m: int, k: int, r: int, s: int, pk: PublicKey)
    requires ValidKey(pk) && Encrypts(a, m, r, pk.n) && Encrypts(b, k, s, pk.n)
    ensures Encrypts(Add(a, b, pk), (m + k) % pk.n, (r * s) % pk.n, pk.n)
  {
    AddedCong(m, r, k, s, pk.n);
    CoprimeProduct(r, s, pk.n);
    ProductNonNegative(r, s);
    ProductNonNegative(a, b);
    PacksAsEncryption(a * b, m + k, r * s, pk.n);
  }

  lemma UnitFromGcd(x: nat, n: nat)
    requires n > 1 && x < n && Gcd(x, n) == 1
    ensures Unit(x, n)
  {
    assert x == 0 ==> Gcd(x, n) == Gcd(n, 0);
  }

  /** Packaging of a congruence as an encryption. */
  lemma PacksAsEncryption(c: int, m: nat, r: nat, n: nat)
    requires n > 1 && Cong(c, (1 + m * n) * Pow(r, n), n * n) && Gcd(r % n, n) == 1
    ensures Encrypts(c % (n * n), m % n, r % n, n)
  {
    ReducesToEnc(c, m, r, n);
    UnitFromGcd(r % n, n);
  }

  lemma ScalarMultiplication(m: int, r: int, k: nat, n: nat)
    requires n > 1 && 0 <= m < n && Unit(r, n)
    ensures Encrypts(Pow(Enc(m, r, n), k) % (n * n), (m * k) % n, Pow(r, k) % n, n)
  {
    ScalarCong(m, r, k, n);
    PowPositive(r, k);
    CoprimePow(r, k, n);
    PacksAsEncryption(Pow(Enc(m, r, n), k), m * k, Pow(r, k), n);
  }

  lemma ScalarCong(m: nat, r: nat, k: nat, n: nat)
    requires n > 1
    ensures Cong(Pow(Enc(m, r, n), k), (1 + (m * k) * n) * Pow(Pow(r, k), n), n * n)
  {
    var nn := n * n;
    EncCong(m, r, n);
    CongPow(Enc(m, r, n), (1 + m * n) * Pow(r, n), k, nn);
    PowOfProduct(1 + m * n, Pow(r, n), k);
    PowOfPow(r, n, k);
    PowOfPow(r, k, n);
    LinearPower(m, k, n);
    CongMul(Pow(1 + m * n, k), 1 + (m * k) * n, Pow(Pow(r, n), k), Pow(Pow(r, k), n), nn);
  }

  lemma Rerandomization(m: int, r: int, s: int, n: nat)
    requires n > 1 && 0 <= m < n && Unit(r, n) && Unit(s, n)
    ensures Encrypts((Enc(m, r, n) * (Pow(s, n) % (n * n))) % (n * n), m, (r * s) % n, n)
  {
    RerandomizedCong(m, r, s, n);
    CoprimeProduct(r, s, n);
    ProductNonNegative(r, s);
    PacksAsEncryption(Enc(m, r, n) * (Pow(s, n) % (n * n)), m, r * s, n);
    DivModUnique(m, 0, m, n);
  }

  lemma RerandomizedCong(m: nat, r: nat, s: nat, n: nat)
    requires n > 1
    ensures Cong(Enc(m, r, n) * (Pow(s, n) % (n * n)), (1 + m * n) * Pow(r * s, n), n * n)
  {
    var nn := n * n;
    EncCong(m, r, n);
    CongMod(Pow(s, n), nn);
    CongMul(Enc(m, r, n), (1 + m * n) * Pow(r, n), Pow(s, n) % nn, Pow(s, n), nn);
    PowOfProduct(r, s, n);
    Associate(1 + m * n, Pow(r, n), Pow(s, n));
  }

  // ---------- key assembly and decryption ----------

  function Lcm(a: nat, b: nat): nat
    requires a > 0 && b > 0
  {
    GcdDivides(a, b);
    a * (b / Gcd(a, b))
  }

  /** The inverse of a modulo n from the extended Euclid coefficients, if there is one. */
  function ModInverse(a: nat, n: nat): (inv: Result<nat>)
    requires n > 0
    ensures inv.Ok? <==> Gcd(a, n) == 1
    ensures inv.Ok? ==> 0 <= inv.value < n && Cong(a * inv.value, 1, n)
  {
    if Gcd(a, n) != 1 then Err(LambdaNotInvertible)
    else
      var (x, y) := ExtendedGcd(a, n);
      InverseFromCombination(a, n, x, y);
      Ok(x % n)
  }

  lemma InverseFromCombination(a: nat, n: nat, x: int, y: int)
    requires n > 0 && a * x + n * y == 1
    ensures Cong(a * (x % n), 1, n)
  {
    CongMod(x, n);
    CongMul(a, a, x % n, x, n);
    assert a * x == 1 + (-y) * n;
    CongIntro(a * x, 1, -y, n);
  }

  function FromPrimes(p: nat, q: nat): Result<PrivateKey>
    requires p > 1 && q > 1
  {
    if p == q then Err(EqualPrimes)
    else
      var n := p * q;
      var lambda := Lcm(p - 1, q - 1);
      match ModInverse(lambda, n)
      case Err(e) => Err(e)
      case Ok(mu) => Ok(PrivateKey(PublicKey(n, n * n), lambda, mu))
  }

  /** What a decryption call ends in; the subtraction u - 1 panics when u is zero. */
  datatype Decryption = Plaintext(m: nat) | InvalidCiphertext | Panicked

  function Decrypt(sk: PrivateKey, c: nat): Decryption
    requires ValidKey(sk.public)
  {
    var n, nn := sk.public.n, sk.public.nSquared;
    if c == 0 || c >= nn then InvalidCiphertext
    else
      var u := Pow(c, sk.lambda) % nn;
      if u == 0 then Panicked else Plaintext((((u - 1) / n) * sk.mu) % n)
  }

  lemma LcmMultiple(a: nat, b: nat)
    requires a > 0 && b > 0
    ensures Lcm(a, b) > 0 && Divides(a, Lcm(a, b)) && Divides(b, Lcm(a, b))
  {
    var g := Gcd(a, b);
    GcdDivides(a, b);
    var k := DividesElim(g, a);
    var l := DividesElim(g, b);
    ProductSize(g, k);
    ProductSize(g, l);
    ProductSize(k, g);
    assert g != 0;
    DivModUnique(b, l, 0, g);
    ProductSize(a, l);
    ProductSize(g, -l);
    DividesIntro(a, l, Lcm(a, b));
    assert a * l == (g * k) * l == b * k;
    DividesIntro(b, k, Lcm(a, b));
  }

  /** An integer that p does not divide, raised to a multiple of p - 1, is 1 modulo p. */
  lemma UnitPower(p: nat, r: nat, e: nat)
    requires Prime(p) && !Divides(p, r) && Divides(p - 1, e)
    ensures Cong(Pow(r, e), 1, p)
  {
    Fermat(p, r);
    var k := DividesElim(p - 1, e);
    assert k >= 0 by {
      ProductSize(p - 1, k);
    }
    PowOfPow(r, p - 1, k);
    CongPow(Pow(r, p - 1), 1, k, p);
    PowOfOne(k);
  }

  lemma DividesTrans(d: int, x: int, y: int)
    requires Divides(d, x)
    ensures Divides(d, x * y)
  {
    var k := DividesElim(d, x);
    assert x * y == d * (k * y);
    DividesIntro(d, k * y, x * y);
  }

  /** Carmichael's theorem for n = p*q. */
  lemma UnitToLambda(p: nat, q: nat, r: nat)
    requires Prime(p) && Prime(q) && p != q && Gcd(r, p * q) == 1
    ensures Cong(Pow(r, Lcm(p - 1, q - 1)), 1, p * q)
  {
    var n, e := p * q, Lcm(p - 1, q - 1);
    LcmMultiple(p - 1, q - 1);
    FactorNotDividing(p, q, r);
    assert q * p == p * q;
    FactorNotDividing(q, p, r);
    UnitPower(p, r, e);
    UnitPower(q, r, e);
    DistinctPrimesCoprime(p, q);
    CongBothModuli(Pow(r, e), 1, p, q);
  }

  lemma CongBothModuli(x: int, y: int, p: nat, q: nat)
    requires p > 0 && q > 0 && Gcd(p, q) == 1 && Cong(x, y, p) && Cong(x, y, q)
    ensures p * q > 0 && Cong(x, y, p * q)
  {
    ProductSize(p, q);
    DifferenceDivides(x, y, p);
    DifferenceDivides(x, y, q);
    CoprimeDivisors(p, q, x - y);
    DifferenceDivides(x, y, p * q);
  }

  lemma DifferenceDivides(x: int, y: int, m: nat)
    requires m > 0
    ensures Cong(x, y, m) <==> Divides(m, x - y)
  {
    if Cong(x, y, m) {
      var k := CongElim(x, y, m);
      DividesIntro(m, k, x - y);
    }
    if Divides(m, x - y) {
      var k := DividesElim(m, x - y);
      CongIntro(x, y, k, m);
    }
  }

  lemma FactorNotDividing(p: nat, q: nat, r: nat)
    requires p > 1 && q > 1 && Gcd(r, p * q) == 1
    ensures !Divides(p, r)
  {
    if Divides(p, r) {
      DividesIntro(p, q, p * q);
      GcdGreatest(r, p * q, p);
      assert false;
    }
  }

  // ---------- which primes make a key ----------

  lemma ModuliCombination(l: int, x: int, p: int, y: int, u: int, q: int, v: int)
    requires l * x + p * y == 1 && l * u + q * v == 1
    ensures l * (x * (l * u + q * v) + (p * y) * u) + (p * q) * (y * v) == 1
  {
    var t := l * u + q * v;
    assert l * (x * t + (p * y) * u) == (l * x) * t + (p * y) * (l * u);
    assert (p * q) * (y * v) == (p * y) * (q * v);
    assert (l * x) * t + (p * y) * (l * u) + (p * y) * (q * v) == (l * x) * t + (p * y) * t;
    assert (l * x) * t + (p * y) * t == (l * x + p * y) * t;
  }

  lemma CoprimeToBoth(l: nat, p: nat, q: nat)
    requires p > 1 && q > 1 && Gcd(l, p) == 1 && Gcd(l, q) == 1
    ensures Gcd(l, p * q) == 1
  {
    var (x, y) := ExtendedGcd(l, p);
    var (u, v) := ExtendedGcd(l, q);
    ModuliCombination(l, x, p, y, u, q, v);
    ProductSize(p, q);
    CoprimeFromCombination(l, p * q, x * (l * u + q * v) + (p * y) * u, y * v);
  }

  /** A prime divides lcm(p - 1, b) exactly when it divides b: it cannot divide p - 1. */
  lemma PrimeDividesLcm(p: nat, b: nat)
    requires Prime(p) && b > 0
    ensures Divides(p, Lcm(p - 1, b)) <==> Divides(p, b)
    ensures Divides(p, Lcm(b, p - 1)) <==> Divides(p, b)
  {
    LcmFactor(p, p - 1, b);
    LcmFactor(p, b, p - 1);
    DivModUnique(p - 1, 0, p - 1, p);
  }

  lemma LcmCofactor(a: nat, b: nat) returns (g: nat, l: nat)
    requires a > 0 && b > 0
    ensures Lcm(a, b) == a * l && b == l * g && g == Gcd(a, b)
  {
    g := Gcd(a, b);
    GcdDivides(a, b);
    l := b / g;
    var k := DividesElim(g, b);
    DivModUnique(b, k, 0, g);
  }

  /** With g = ax + by, b = lg and m = au = bv, and so gm = b·v·a·x + a·u·b·y, cancelling g gives m. */
  lemma BezoutMultiple(a: int, b: int, g: int, l: int, x: int, y: int, u: int, v: int, m: int)
    requires g > 0 && a * x + b * y == g && b == l * g && m == a * u && m == b * v
    ensures m == (a * l) * (x * v + y * u)
  {
    var w := (a * l) * (x * v + y * u);
    assert g * m == (a * x + b * y) * m == (a * x) * m + (b * y) * m;
    assert (a * x) * m == (a * x) * (b * v) == (a * b) * (x * v);
    assert (b * y) * m == (b * y) * (a * u) == (a * b) * (y * u);
    assert g * m == (a * b) * (x * v + y * u);
    assert a * b == (a * l) * g;
    assert g * m == g * w;
    CancelFactor(g, m, w);
  }

  lemma CancelFactor(g: int, m: int, w: int)
    requires g > 0 && g * m == g * w
    ensures m == w
  {
    assert g * (m - w) == 0;
    ProductSize(g, m - w);
  }

  lemma FactorOfMultiple(p: nat, a: nat, m: nat)
    requires Divides(p, a) && Divides(a, m)
    ensures Divides(p, m)
  {
    var k := DividesElim(a, m);
    DividesTrans(p, a, k);
  }

  /** A prime divides the least common multiple exactly when it divides one of the two numbers. */
  lemma LcmFactor(p: nat, a: nat, b: nat)
    requires Prime(p) && a > 0 && b > 0
    ensures Divides(p, Lcm(a, b)) <==> Divides(p, a) || Divides(p, b)
  {
    LcmMultiple(a, b);
    var m := Lcm(a, b);
    if Divides(p, a) {
      FactorOfMultiple(p, a, m);
    } else if Divides(p, b) {
      FactorOfMultiple(p, b, m);
    } else if Divides(p, m) {
      var g, l := LcmCofactor(a, b);
      PrimeDividesProduct(p, a, l);
      DividesTrans(p, l, g);
    }
  }

  /** The least common multiple divides every common multiple. */
  lemma LcmLeast(a: nat, b: nat, m: nat)
    requires a > 0 && b > 0 && Divides(a, m) && Divides(b, m)
    ensures Divides(Lcm(a, b), m)
  {
    var g, l := LcmCofactor(a, b);
    var (x, y) := ExtendedGcd(a, b);
    var u := DividesElim(a, m);
    var v := DividesElim(b, m);
    BezoutMultiple(a, b, g, l, x, y, u, v, m);
    DividesIntro(a * l, x * v + y * u, m);
  }

  lemma CoprimeToBothIff(l: nat, p: nat, q: nat)
    requires Prime(p) && Prime(q)
    ensures Gcd(l, p * q) == 1 <==> !Divides(p, l) && !Divides(q, l)
  {
    if Gcd(l, p * q) == 1 {
      FactorNotDividing(p, q, l);
      FactorNotDividing(q, p, l);
    }
    if !Divides(p, l) && !Divides(q, l) {
      PrimeCoprime(p, l);
      PrimeCoprime(q, l);
      CoprimeToBoth(l, p, q);
    }
  }

  /** Two primes make a key exactly when they differ and neither divides the other minus one. */
  lemma KeyAssemblesIff(p: nat, q: nat)
    requires Prime(p) && Prime(q)
    ensures FromPrimes(p, q).Ok? <==> p != q && !Divides(p, q - 1) && !Divides(q, p - 1)
  {
    if p != q {
      CoprimeToBothIff(Lcm(p - 1, q - 1), p, q);
      PrimeDividesLcm(p, q - 1);
      PrimeDividesLcm(q, p - 1);
      ProductSize(p, q);
      assert FromPrimes(p, q).Ok? <==> ModInverse(Lcm(p - 1, q - 1), p * q).Ok?;
    }
  }

  /** There are keys. */
  lemma SmallKey()
    ensures Prime(5) && Prime(7) && FromPrimes(5, 7).Ok?
  {
    assert !Divides(2, 5) && !Divides(3, 5) && !Divides(4, 5);
    assert !Divides(2, 7) && !Divides(3, 7) && !Divides(4, 7) && !Divides(5, 7) && !Divides(6, 7);
    KeyAssemblesIff(5, 7);
  }

  /** Decryption inverts encryption, for every plaintext and every admissible randomness. */
  lemma DecryptEncrypt(p: nat, q: nat, m: int, r: int)
    requires Prime(p) && Prime(q) && FromPrimes(p, q).Ok?
    requires 0 <= m < p * q && Unit(r, p * q)
    ensures var sk := FromPrimes(p, q).value;
            ValidKey(sk.public) && Decrypt(sk, Enc(m, r, p * q)) == Plaintext(m)
  {
    var sk := FromPrimes(p, q).value;
    ProductSize(p, q);
    LcmMultiple(p - 1, q - 1);
    RaisedToLambda(p, q, m, r);
    EncRange(m, r, p * q);
    DecryptFromPower(sk, Enc(m, r, p * q), m);
  }

  /** Raising a ciphertext to lambda leaves 1 + (m * lambda mod n) * n modulo n^2. */
  lemma RaisedToLambda(p: nat, q: nat, m: nat, r: nat)
    requires Prime(p) && Prime(q) && p != q && Unit(r, p * q)
    ensures p * q > 1
    ensures var n, e := p * q, Lcm(p - 1, q - 1);
            Cong(Pow(Enc(m, r, n), e), 1 + ((m * e) % n) * n, n * n)
  {
    var n, e := p * q, Lcm(p - 1, q - 1);
    ProductSize(p, q);
    EncCong(m, r, n);
    CongPow(Enc(m, r, n), (1 + m * n) * Pow(r, n), e, n * n);
    PowOfProduct(1 + m * n, Pow(r, n), e);
    MaskVanishes(p, q, r);
    LinearPower(m, e, n);
    CongMul(Pow(1 + m * n, e), 1 + (m * e) * n, Pow(Pow(r, n), e), 1, n * n);
    LinearReduce(m * e, n);
  }

  lemma DecryptFromPower(sk: PrivateKey, c: nat, m: nat)
    requires ValidKey(sk.public) && sk.lambda > 0 && m < sk.public.n && c < sk.public.nSquared
    requires Cong(sk.lambda * sk.mu, 1, sk.public.n)
    requires var n := sk.public.n; Cong(Pow(c, sk.lambda), 1 + ((m * sk.lambda) % n) * n, n * n)
    ensures Decrypt(sk, c) == Plaintext(m)
  {
    var n, l := sk.public.n, (m * sk.lambda) % sk.public.n;
    LinearBound(l, n);
    DivModUnique(1 + l * n, 0, 1 + l * n, n * n);
    var u := Pow(c, sk.lambda) % sk.public.nSquared;
    assert u == 1 + l * n;
    PowOfZero(sk.lambda);
    DivModUnique(0, 0, 0, n * n);
    assert c != 0;
    DivModUnique(l * n, l, 0, n);
    assert (u - 1) / n == l;
    Unmask(m, sk.lambda, sk.mu, n);
  }

  lemma PowOfZero(e: nat)
    requires e > 0
    ensures Pow(0, e) == 0
  {
  }

  lemma LinearBound(l: int, n: nat)
    requires n > 1 && 0 <= l < n
    ensures 1 <= 1 + l * n < n * n
  {
    assert l * n <= (n - 1) * n == n * n - n;
  }

  /** The mask r^n disappears when raised to lambda, modulo n^2. */
  lemma MaskVanishes(p: nat, q: nat, r: nat)
    requires Prime(p) && Prime(q) && p != q && Gcd(r, p * q) == 1
    ensures p * q > 0 && Cong(Pow(Pow(r, p * q), Lcm(p - 1, q - 1)), 1, (p * q) * (p * q))
  {
    var n, e := p * q, Lcm(p - 1, q - 1);
    ProductSize(p, q);
    UnitToLambda(p, q, r);
    PowOfPow(r, n, e);
    PowOfPow(r, e, n);
    assert n * e == e * n;
    NthPowerLift(Pow(r, e), 1, n);
    PowOfOne(n);
  }

  lemma Unmask(m: int, e: nat, mu: nat, n: nat)
    requires n > 1 && 0 <= m < n && Cong(e * mu, 1, n)
    ensures (((m * e) % n) * mu) % n == m
  {
    CongMod(m * e, n);
    CongMul((m * e) % n, m * e, mu, mu, n);
    CongMul(m, m, e * mu, 1, n);
    assert (m * e) * mu == m * (e * mu);
    DivModUnique(m, 0, m, n);
  }

  // ---------- whole computations ----------

  /** A computation a client can make on ciphertexts, with the randomness of every step. */
  datatype Computation =
    | Fresh(m: nat, r: nat)
    | Sum(left: Computation, right: Computation)
    | Scaled(of: Computation, k: nat)
    | Remasked(of: Computation, s: nat)

  predicate WellFormed(x: Computation, n: nat)
  {
    match x
    case Fresh(m, r) => m < n && Unit(r, n)
    case Sum(l, r) => WellFormed(l, n) && WellFormed(r, n)
    case Scaled(y, k) => WellFormed(y, n)
    case Remasked(y, s) => WellFormed(y, n) && Unit(s, n)
  }

  function Ciphertext(x: Computation, pk: PublicKey): int
    requires ValidKey(pk)
  {
    match x
    case Fresh(m, r) => Enc(m, r, pk.n)
    case Sum(l, r) => Add(Ciphertext(l, pk), Ciphertext(r, pk), pk)
    case Scaled(y, k) => Pow(Ciphertext(y, pk), k) % pk.nSquared
    case Remasked(y, s) => JsRem(Ciphertext(y, pk) * (Pow(s, pk.n) % pk.nSquared), pk.nSquared)
  }

  /** The same computation on plaintexts, over the integers. */
  function Meaning(x: Computation): nat
  {
    match x
    case Fresh(m, r) => m
    case Sum(l, r) => Meaning(l) + Meaning(r)
    case Scaled(y, k) => Meaning(y) * k
    case Remasked(y, s) => Meaning(y)
  }

  lemma {:induction false} ComputationEncrypts(x: Computation, pk: PublicKey) returns (r: nat)
    requires ValidKey(pk) && WellFormed(x, pk.n)
    ensures Encrypts(Ciphertext(x, pk), Meaning(x) % pk.n, r, pk.n)
  {
    var n := pk.n;
    match x
    case Fresh(m, r0) =>
      DivModUnique(m, 0, m, n);
      r := r0;
    case Sum(y, z) =>
      var a := ComputationEncrypts(y, pk);
      var b := ComputationEncrypts(z, pk);
      var m, k := Meaning(y), Meaning(z);
      HomomorphicAddition(Ciphertext(y, pk), Ciphertext(z, pk), m % n, k % n, a, b, pk);
      SumModulo(m, k, n);
      ProductNonNegative(a, b);
      r := (a * b) % n;
    case Scaled(y, k) =>
      var a := ComputationEncrypts(y, pk);
      ScalarMultiplication(Meaning(y) % n, a, k, n);
      ProductModulo(Meaning(y), k, n);
      r := Pow(a, k) % n;
    case Remasked(y, s) =>
      var a := ComputationEncrypts(y, pk);
      Rerandomization(Meaning(y) % n, a, s, n);
      ProductNonNegative(a, s);
      r := (a * s) % n;
  }

  lemma SumModulo(m: int, k: int, n: nat)
    requires n > 0
    ensures (m % n + k % n) % n == (m + k) % n
  {
    CongMod(m, n);
    CongMod(k, n);
    CongAdd(m % n, m, k % n, k, n);
  }

  lemma ProductModulo(m: int, k: int, n: nat)
    requires n > 0
    ensures ((m % n) * k) % n == (m * k) % n
  {
    CongMod(m, n);
    CongMul(m % n, m, k, k, n);
  }

  /** Decrypting the outcome of any client computation yields its plaintext meaning modulo n. */
  lemma ComputationDecrypts(p: nat, q: nat, x: Computation)
    requires Prime(p) && Prime(q) && FromPrimes(p, q).Ok? && WellFormed(x, p * q)
    ensures var sk := FromPrimes(p, q).value;
            && ValidKey(sk.public)
            && Ciphertext(x, sk.public) >= 0
            && Decrypt(sk, Ciphertext(x, sk.public)) == Plaintext(Meaning(x) % (p * q))
  {
    var sk := FromPrimes(p, q).value;
    ProductSize(p, q);
    var r := ComputationEncrypts(x, sk.public);
    DecryptEncrypt(p, q, Meaning(x) % (p * q), r);
  }

  // ---------- malformed ciphertexts ----------

  lemma {:induction false} PrimeDividesPower(p: nat, c: nat, e: nat)
    requires Prime(p) && Divides(p, Pow(c, e))
    ensures Divides(p, c)
  {
    if e == 0 {
      DivModUnique(1, 0, 1, p);
      assert false;
    } else {
      PrimeDividesProduct(p, c, Pow(c, e - 1));
      if !Divides(p, c) {
        PrimeDividesPower(p, c, e - 1);
      }
    }
  }

  /** Among the ciphertexts that pass the range test, exactly the multiples of n make decryption panic. */
  lemma DecryptPanicsExactlyOnMultiples(p: nat, q: nat, c: nat)
    requires Prime(p) && Prime(q) && FromPrimes(p, q).Ok?
    requires 0 < c < (p * q) * (p * q)
    ensures var sk := FromPrimes(p, q).value;
            ValidKey(sk.public) && (Decrypt(sk, c) == Panicked <==> Divides(p * q, c))
  {
    var n, nn, e := p * q, (p * q) * (p * q), Lcm(p - 1, q - 1);
    ProductSize(p, q);
    SquarePositive(n);
    LcmMultiple(p - 1, q - 1);
    if Divides(n, c) {
      LambdaAtLeastTwo(p, q);
      var k := DividesElim(n, c);
      PowAdd(c, 2, e - 2);
      assert Pow(c, 2) == c * Pow(c, 1) == c * c;
      Regroup(n, k, n, k);
      Associate(nn, k * k, Pow(c, e - 2));
      DividesIntro(nn, (k * k) * Pow(c, e - 2), Pow(c, e));
    }
    if Pow(c, e) % nn == 0 {
      var k := DividesElim(nn, Pow(c, e));
      Associate(n, n, k);
      Associate(p, q, n * k);
      Associate(q, p, n * k);
      DividesIntro(p, q * (n * k), Pow(c, e));
      DividesIntro(q, p * (n * k), Pow(c, e));
      PrimeDividesPower(p, c, e);
      PrimeDividesPower(q, c, e);
      DistinctPrimesCoprime(p, q);
      CoprimeDivisors(p, q, c);
    }
  }

  /** Zero and ciphertexts out of range are refused, and only those. */
  lemma DecryptRefusesIff(sk: PrivateKey, c: nat)
    requires ValidKey(sk.public)
    ensures Decrypt(sk, c) == InvalidCiphertext <==> c == 0 || c >= sk.public.n * sk.public.n
  {
  }

  /** The ciphertext 35 under the key of 5 and 7. */
  lemma DecryptPanicWitness()
    ensures FromPrimes(5, 7).Ok? && Decrypt(FromPrimes(5, 7).value, 35) == Panicked
  {
    SmallKey();
    DecryptPanicsExactlyOnMultiples(5, 7, 35);
  }

  lemma LambdaAtLeastTwo(p: nat, q: nat)
    requires p > 1 && q > 1 && p != q
    ensures Lcm(p - 1, q - 1) >= 2
  {
    LcmMultiple(p - 1, q - 1);
    var k := DividesElim(p - 1, Lcm(p - 1, q - 1));
    var l := DividesElim(q - 1, Lcm(p - 1, q - 1));
    ProductSize(p - 1, k);
    ProductSize(q - 1, l);
    ProductSize(p - 1, -k);
    ProductSize(q - 1, -l);
  }
}
