/** The integers modulo a prime: the scalar field of each elliptic curve. */
module PrimeField {
  import opened Fields

  ghost predicate IsPrime(p: int) {
    p > 1 && forall d :: 1 < d < p ==> p % d != 0
  }

  function Modulo(p: nat): (k: Field)
    requires p > 0
    ensures k.order == p
  {
    Field(p,
          (a: int, b: int) => (a + b) % p,
          (a: int) => (-a) % p,
          (a: int, b: int) => (a * b) % p,
          (a: int) => Inverse(a % p, p))
  }

  /** Bezout coefficients by Euclid's algorithm: s * a + t * b is the greatest common divisor. */
  function Bezout(a: nat, b: nat): (r: (int, int))
    decreases b
  {
    if b == 0 then (1, 0)
    else
      var (s, t) := Bezout(b, a % b);
      (t, s - (a / b) * t)
  }

  function Inverse(a: nat, p: nat): nat
    requires p > 0
  {
    Bezout(a, p).0 % p
  }

  // ---- reducing modulo p ----

  lemma Multiple(m: int, p: int)
    requires p > 0 && m != 0
    ensures m * p >= p || m * p <= -p
  {
    if m > 0 { assert (m - 1) * p >= 0; } else { assert (-m - 1) * p >= 0; }
  }

  lemma Separated(m: int, p: int, r: int, s: int)
    requires 0 <= r < p && 0 <= s < p && m * p == s - r
    ensures m == 0
  {
    if m != 0 { Multiple(m, p); }
  }

  lemma DivMod(a: int, p: int)
    requires p > 0
    ensures a == (a / p) * p + a % p
  {}

  lemma Remainder(a: int, q: int, r: int, p: int)
    requires 0 <= r < p && a == q * p + r
    ensures a % p == r && a / p == q
  {
    DivMod(a, p);
    var q', r' := a / p, a % p;
    assert (q - q') * p == q * p - q' * p;
    Separated(q - q', p, r, r');
  }

  /** Numbers that differ by a multiple of p have the same remainder. */
  lemma SameRemainder(a: int, b: int, m: int, p: int)
    requires p > 0 && a == b + m * p
    ensures a % p == b % p
  {
    DivMod(b, p);
    assert (b / p + m) * p == (b / p) * p + m * p;
    Remainder(a, b / p + m, b % p, p);
  }

  /** Reducing a summand first does not change the reduced sum. */
  lemma ReduceSum(a: int, b: int, p: int)
    requires p > 0
    ensures (a % p + b) % p == (a + b) % p && (b + a % p) % p == (a + b) % p
  {
    DivMod(a, p);
    SameRemainder(a + b, a % p + b, a / p, p);
  }

  /** Reducing a factor first does not change the reduced product. */
  lemma ReduceProduct(a: int, b: int, p: int)
    requires p > 0
    ensures (a % p * b) % p == (a * b) % p && (b * (a % p)) % p == (a * b) % p
  {
    DivMod(a, p);
    var q, r := a / p, a % p;
    Multiply(a, q, p, r, b);
    SameRemainder(a * b, r * b, q * b, p);
    assert r * b == b * r;
  }

  lemma Multiply(a: int, q: int, p: int, r: int, b: int)
    requires a == q * p + r
    ensures a * b == r * b + (q * b) * p
  {
    assert (q * p + r) * b == (q * p) * b + r * b;
    assert (q * p) * b == (q * b) * p;
  }

  // ---- inverses ----

  ghost predicate Divides(g: int, a: int) {
    exists m: int :: Times(m, g) == a
  }

  function Times(m: int, g: int): int { m * g }

  lemma {:induction false} BezoutDivides(a: nat, b: nat) returns (g: int)
    requires a + b > 0
    ensures g > 0 && Divides(g, a) && Divides(g, b)
    ensures Bezout(a, b).0 * a + Bezout(a, b).1 * b == g
    decreases b
  {
    if b == 0 {
      g := a;
      assert Times(1, a) == a && Times(0, g) == b;
    } else {
      g := BezoutDivides(b, a % b);
      var (s, t) := Bezout(b, a % b);
      DivMod(a, b);
      BezoutStep(a, b, a / b, a % b, s, t, g);
      DividesSum(a, b, a / b, a % b, g);
    }
  }

  lemma DividesSum(a: int, b: int, q: int, r: int, g: int)
    requires a == q * b + r && Divides(g, b) && Divides(g, r)
    ensures Divides(g, a)
  {
    var m: int :| Times(m, g) == b;
    var n: int :| Times(n, g) == r;
    Multiply(b, m, g, 0, q);
    assert (m * q) * g + n * g == (m * q + n) * g;
    assert b * q == q * b;
    assert Times(m * q + n, g) == a;
  }

  lemma BezoutStep(a: int, b: int, q: int, r: int, s: int, t: int, g: int)
    requires a == q * b + r && s * b + t * r == g
    ensures t * a + (s - q * t) * b == g
  {
    assert t * (q * b + r) == (q * t) * b + t * r;
    assert (s - q * t) * b == s * b - (q * t) * b;
  }

  /** A divisor of a number below a prime p and of p itself is 1. */
  lemma CommonDivisor(g: int, a: int, p: int)
    requires IsPrime(p) && 0 < a < p && g > 0 && Divides(g, a) && Divides(g, p)
    ensures g == 1
  {
    var m: int :| Times(m, g) == a;
    var n: int :| Times(n, g) == p;
    Multiple(m, g);
    Remainder(p, n, 0, g);
  }

  lemma InverseOk(a: nat, p: nat)
    requires IsPrime(p) && 0 < a < p
    ensures (a * Inverse(a, p)) % p == 1
  {
    var g := BezoutDivides(a, p);
    CommonDivisor(g, a, p);
    var r := Bezout(a, p);
    Product(r.0, a, p, r.1);
    ReduceProduct(r.0, a, p);
    Remainder(1, 0, 1, p);
  }

  lemma Product(s: int, a: int, p: int, t: int)
    requires p > 0 && s * a + t * p == 1
    ensures (s * a) % p == 1 % p
  {
    assert (-t) * p == -(t * p);
    SameRemainder(s * a, 1, -t, p);
  }

  // ---- the laws ----

  lemma AdditionLaws(p: nat, a: int, b: int, c: int)
    requires p > 1
    ensures ((a + b) % p + c) % p == (a + (b + c) % p) % p
  {
    ReduceSum(a + b, c, p);
    ReduceSum(b + c, a, p);
    calc {
      ((a + b) % p + c) % p;
      (a + b + c) % p;
      (b + c + a) % p;
      (a + (b + c) % p) % p;
    }
  }

  lemma NegationLaw(p: nat, a: int)
    requires p > 1
    ensures (a + (-a) % p) % p == 0
  {
    ReduceSum(-a, a, p);
    Remainder(0, 0, 0, p);
  }

  lemma MultiplicationLaws(p: nat, a: int, b: int, c: int)
    requires p > 1
    ensures ((a * b) % p * c) % p == (a * ((b * c) % p)) % p
    ensures (a * b) % p == (b * a) % p
  {
    ReduceProduct(a * b, c, p);
    ReduceProduct(b * c, a, p);
    assert (a * b) * c == (b * c) * a;
    assert a * b == b * a;
  }

  lemma DistributiveLaw(p: nat, a: int, b: int, c: int)
    requires p > 1
    ensures (a * ((b + c) % p)) % p == ((a * b) % p + (a * c) % p) % p
  {
    ReduceProduct(b + c, a, p);
    ReduceSum(a * b, (a * c) % p, p);
    ReduceSum(a * c, a * b, p);
    assert (b + c) * a == a * c + a * b;
  }

  lemma UnitLaws(p: nat, a: int)
    requires IsPrime(p)
    ensures 0 <= a < p ==> (a + 0) % p == a && (a * 1) % p == a
    ensures 0 < a < p ==> (a * Inverse(a % p, p)) % p == 1
    ensures 0 <= Inverse(a % p, p) < p
  {
    if 0 <= a < p { Remainder(a, 0, a, p); }
    if 0 < a < p { InverseOk(a, p); }
  }

  lemma LawsOfModulo(p: nat, a: int, b: int, c: int)
    requires IsPrime(p)
    ensures LawsAt(Modulo(p), a, b, c)
  {
    AdditionLaws(p, a, b, c);
    NegationLaw(p, a);
    MultiplicationLaws(p, a, b, c);
    DistributiveLaw(p, a, b, c);
    UnitLaws(p, a);
  }

  /** The integers modulo a prime are a field. */
  lemma ModuloLawful(p: nat)
    requires IsPrime(p)
    ensures Lawful(Modulo(p))
  {
    forall a: int, b: int, c: int {:trigger At(a, b, c)} | At(a, b, c)
      ensures LawsAt(Modulo(p), a, b, c)
    {
      LawsOfModulo(p, a, b, c);
    }
  }
}
