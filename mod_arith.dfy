/** Arithmetic of the integer group Z_p^* that the scheme is built on: exponentiation,
    multiplication and division modulo the group modulus p. Exponents are natural
    numbers; products are reduced only where the group operation reduces them. */
module ModArith {

  /** d is a non-zero divisor of n. */
  predicate Divides(d: int, n: int) {
    d != 0 && n % d == 0
  }

  ghost predicate IsPrime(p: int) {
    p > 1 && forall d :: 1 < d < p ==> !Divides(d, p)
  }

  /** Exact integer power b^e. */
  function Pow(b: int, e: nat): (r: int) {
    if e == 0 then 1 else b * Pow(b, e - 1)
  }

  /** The group exponentiation b^e, reduced modulo p. */
  function ModPow(b: int, e: nat, p: int): (r: int)
    requires p > 0
    ensures 0 <= r < p
  {
    Pow(b, e) % p
  }

  // ---------------------------------------------------------------------------
  // Facts about Euclidean remainders

  lemma MulBounds(p: int, m: int)
    requires p > 0
    ensures m >= 1 ==> p * m >= p
    ensures m <= -1 ==> p * m <= -p
  {
  }

  lemma MultipleInRange(p: int, m: int)
    requires p > 0 && -p < p * m < p
    ensures m == 0
  {
  }

  lemma SmallMod(z: int, p: int)
    requires 0 <= z < p
    ensures z % p == z
  {
  }

  lemma ModAddMultiple(k: int, z: int, p: int)
    requires p > 0
    ensures (p * k + z) % p == z % p
  {
    var w := p * k + z;
    assert w == p * (w / p) + w % p;
    assert z == p * (z / p) + z % p;
    assert w % p - z % p == p * (k + z / p - w / p);
    MultipleInRange(p, k + z / p - w / p);
  }

  lemma ModMulLeft(a: int, b: int, p: int)
    requires p > 0
    ensures ((a % p) * b) % p == (a * b) % p
  {
    assert a == p * (a / p) + a % p;
    assert a * b == p * ((a / p) * b) + (a % p) * b;
    ModAddMultiple((a / p) * b, (a % p) * b, p);
  }

  lemma ModMulRight(a: int, b: int, p: int)
    requires p > 0
    ensures (a * (b % p)) % p == (a * b) % p
  {
    ModMulLeft(b, a, p);
    assert a * (b % p) == (b % p) * a;
  }

  lemma ModMulBoth(a: int, b: int, p: int)
    requires p > 0
    ensures ((a % p) * (b % p)) % p == (a * b) % p
  {
    ModMulLeft(a, b % p, p);
    ModMulRight(a, b, p);
  }

  // ---------------------------------------------------------------------------
  // Exponent laws

  lemma {:induction false} PowAdd(b: int, m: nat, n: nat)
    ensures Pow(b, m + n) == Pow(b, m) * Pow(b, n)
  {
    if m > 0 {
      PowAdd(b, m - 1, n);
      assert Pow(b, m + n) == b * Pow(b, (m - 1) + n);
    }
  }

  lemma {:induction false} PowMul(b: int, m: nat, n: nat)
    ensures Pow(Pow(b, m), n) == Pow(b, m * n)
  {
    if n > 0 {
      PowMul(b, m, n - 1);
      assert m * n == m + m * (n - 1);
      PowAdd(b, m, m * (n - 1));
    }
  }

  /** Reducing the base first does not change the residue of the power. */
  lemma {:induction false} PowMod(b: int, e: nat, p: int)
    requires p > 0
    ensures Pow(b % p, e) % p == Pow(b, e) % p
  {
    if e > 0 {
      PowMod(b, e - 1, p);
      ModMulRight(b % p, Pow(b % p, e - 1), p);
      ModMulRight(b % p, Pow(b, e - 1), p);
      ModMulLeft(b, Pow(b, e - 1), p);
    }
  }

  /** g^a * g^b = g^(a+b) in the group. */
  lemma ModPowAdd(g: int, a: nat, b: nat, p: int)
    requires p > 0
    ensures (ModPow(g, a, p) * ModPow(g, b, p)) % p == ModPow(g, a + b, p)
  {
    ModMulBoth(Pow(g, a), Pow(g, b), p);
    PowAdd(g, a, b);
  }

  /** (g^a)^b = g^(a*b) in the group. */
  lemma ModPowPow(g: int, a: nat, b: nat, p: int)
    requires p > 0
    ensures ModPow(ModPow(g, a, p), b, p) == ModPow(g, a * b, p)
  {
    PowMod(Pow(g, a), b, p);
    PowMul(g, a, b);
  }

  // ---------------------------------------------------------------------------
  // Divisibility and the extended Euclidean algorithm

  lemma DividesCombination(d: int, m: int, n: int, k: int)
    requires Divides(d, m) && Divides(d, n)
    ensures Divides(d, m * k + n)
  {
    var d' := if d > 0 then d else -d;
    assert m == d * (m / d) + m % d;
    assert n == d * (n / d) + n % d;
    assert m * k + n == d * ((m / d) * k + n / d);
    if d > 0 {
      ModAddMultiple((m / d) * k + n / d, 0, d);
    } else {
      assert m * k + n == d' * (-((m / d) * k + n / d));
      ModAddMultiple(-((m / d) * k + n / d), 0, d');
    }
  }

  lemma DividesLe(d: int, n: int)
    requires d > 0 && n > 0 && Divides(d, n)
    ensures d <= n
  {
  }

  /** Extended Euclid: (x, y, d) with a*x + b*y == d, where d divides a and b. */
  function ExtGcd(a: nat, b: nat): (r: (int, int, nat))
    decreases b
    ensures a * r.0 + b * r.1 == r.2
    ensures a > 0 || b > 0 ==> Divides(r.2, a) && Divides(r.2, b)
  {
    if b == 0 then (1, 0, a)
    else
      var (x, y, d) := ExtGcd(b, a % b);
      assert a == b * (a / b) + a % b;
      assert a * y + b * (x - (a / b) * y) == b * x + (a % b) * y;
      DividesCombination(d, b, a % b, a / b);
      (y, x - (a / b) * y, d)
  }

  /** The inverse the group computes for b: the Bezout coefficient of b mod p, reduced. */
  function Inverse(b: int, p: int): (u: int)
    requires p > 1
    ensures 0 <= u < p
  {
    ExtGcd(b % p, p).0 % p
  }

  /** The gcd test the group's inversion makes: gcd(b mod p, p) == 1. InverseCorrect and
      InvertibleConverse show that it holds exactly when b has an inverse modulo p. */
  predicate Invertible(b: int, p: int)
    requires p > 1
  {
    ExtGcd(b % p, p).2 == 1
  }

  lemma InverseCorrect(b: int, p: int)
    requires p > 1 && Invertible(b, p)
    ensures (b * Inverse(b, p)) % p == 1
  {
    var e := ExtGcd(b % p, p);
    var x, y := e.0, e.1;
    assert (b % p) * x == p * (-y) + 1;
    calc {
      (b * Inverse(b, p)) % p;
      (b * (x % p)) % p;
      { ModMulRight(b, x, p); }
      (b * x) % p;
      { ModMulLeft(b, x, p); }
      ((b % p) * x) % p;
      { ModAddMultiple(-y, 1, p); }
      1 % p;
      { SmallMod(1, p); }
      1;
    }
  }

  /** Conversely, any b that has an inverse modulo p passes the gcd test. */
  lemma InvertibleConverse(b: int, u: int, p: int)
    requires p > 1 && (b * u) % p == 1
    ensures Invertible(b, p)
  {
    var d := ExtGcd(b % p, p).2;
    var c := b % p;
    ModMulLeft(b, u, p);
    assert (c * u) % p == 1;
    var q := (c * u) / p;
    assert c * u == p * q + 1;
    DividesCombination(d, c, 0, u);
    DividesCombination(d, p, c * u, -q);
    assert p * (-q) + c * u == 1;
    DividesLe(d, 1);
  }

  /** Modulo a prime, the gcd test succeeds exactly on the non-zero residues. */
  lemma InvertibleIffNonZero(b: int, p: int)
    requires IsPrime(p)
    ensures Invertible(b, p) <==> b % p != 0
  {
    if b % p != 0 {
      PrimeInvertible(b, p);
    } else {
      assert 0 % p == 0 && ExtGcd(p, 0).2 == p;
      assert ExtGcd(0, p).2 == p;
    }
  }

  /** Over a prime modulus every non-zero residue is invertible. */
  lemma PrimeInvertible(b: int, p: int)
    requires IsPrime(p) && b % p != 0
    ensures Invertible(b, p)
  {
    var d := ExtGcd(b % p, p).2;
    assert Divides(d, b % p) && Divides(d, p);
    DividesLe(d, b % p);
    assert d < p;
  }

  /** Euclid's lemma: a prime divides a product only if it divides a factor. */
  lemma ProductNonZero(a: int, b: int, p: int)
    requires IsPrime(p) && a % p != 0 && b % p != 0
    ensures (a * b) % p != 0
  {
    PrimeInvertible(a, p);
    InverseCorrect(a, p);
    var u := Inverse(a, p);
    calc {
      b % p;
      { SmallMod(1, p); }
      (((a * u) % p) * b) % p;
      { ModMulLeft(a * u, b, p); }
      (a * u * b) % p;
      { assert a * u * b == (a * b) * u; }
      ((a * b) * u) % p;
      { ModMulLeft(a * b, u, p); }
      (((a * b) % p) * u) % p;
    }
  }

  lemma {:induction false} PowNonZero(b: int, e: nat, p: int)
    requires IsPrime(p) && b % p != 0
    ensures Pow(b, e) % p != 0
  {
    if e == 0 {
      SmallMod(1, p);
    } else {
      PowNonZero(b, e - 1, p);
      ProductNonZero(b, Pow(b, e - 1), p);
    }
  }

  /** Every power of a non-zero residue is invertible modulo a prime. */
  lemma ModPowInvertible(b: int, e: nat, p: int)
    requires IsPrime(p) && b % p != 0
    ensures Invertible(ModPow(b, e, p), p)
  {
    PowNonZero(b, e, p);
    SmallMod(ModPow(b, e, p), p);
    PrimeInvertible(ModPow(b, e, p), p);
  }

  /** Group division a / b: multiplication of a by the inverse of b, reduced modulo p.
      The quotient is the residue q with q * b == a (mod p). */
  function Div(a: int, b: int, p: int): (q: int)
    requires p > 1 && Invertible(b, p)
    ensures 0 <= q < p
    ensures (q * b) % p == a % p
  {
    var u := Inverse(b, p);
    InverseCorrect(b, p);
    ModMulLeft(a * u, b, p);
    assert a * u * b == a * (b * u);
    ModMulRight(a, b * u, p);
    (a * u) % p
  }

  /** Multiplying by b and then by its inverse gives every residue back. */
  lemma CancelInverse(w: int, b: int, p: int)
    requires p > 1 && Invertible(b, p) && 0 <= w < p
    ensures (((w * b) % p) * Inverse(b, p)) % p == w
  {
    var u := Inverse(b, p);
    InverseCorrect(b, p);
    calc {
      (((w * b) % p) * u) % p;
      { ModMulLeft(w * b, u, p); }
      (w * b * u) % p;
      { assert w * b * u == w * (b * u); }
      (w * (b * u)) % p;
      { ModMulRight(w, b * u, p); }
      (w * ((b * u) % p)) % p;
      w % p;
      { SmallMod(w, p); }
      w;
    }
  }

  /** The quotient is the only residue with that property. */
  lemma DivUnique(z: int, a: int, b: int, p: int)
    requires p > 1 && Invertible(b, p)
    requires 0 <= z < p && (z * b) % p == a % p
    ensures z == Div(a, b, p)
  {
    var q := Div(a, b, p);
    CancelInverse(z, b, p);
    CancelInverse(q, b, p);
  }
}
