/** Integer arithmetic modulo p: powers, the congruence laws, primes, Bezout's
    identity and modular inverses. Dafny's `%` is Euclidean, so for p > 0 the
    remainder always lies in [0, p), as BigInteger.mod and modPow guarantee. */
module ModArith {
  import opened Wrappers

  function Pow(x: int, e: nat): int
  {
    if e == 0 then 1 else x * Pow(x, e - 1)
  }

  /** BigInteger.modPow(e, p): x to the power e, reduced into [0, p). */
  function ModPow(x: int, e: nat, p: nat): (r: int)
    requires p > 0
    ensures 0 <= r < p
  {
    Pow(x, e) % p
  }

  predicate Divides(d: int, n: int)
  {
    d != 0 && n % d == 0
  }

  /** p is a prime: it is greater than one and has no divisor strictly between 1 and p. */
  predicate IsPrime(p: int)
  {
    p > 1 && forall d :: 1 < d < p ==> !Divides(d, p)
  }

  /** Division with remainder is unique. */
  lemma DivModUnique(n: int, d: int, q: int, r: int)
    requires d > 0 && 0 <= r < d && n == q * d + r
    ensures n % d == r && n / d == q
  {
    var q0, r0 := n / d, n % d;
    assert (q - q0) * d == r0 - r;
    if q > q0 {
      MulAtLeast(q - q0, d);
      assert false;
    } else if q < q0 {
      MulAtLeast(q0 - q, d);
      assert false;
    }
  }

  lemma MulAtLeast(e: int, d: int)
    requires e >= 1 && d > 0
    ensures e * d >= d
  {
  }

  /** One more multiple of s adds s. */
  lemma MulSucc(i: int, s: int)
    ensures (i + 1) * s == i * s + s
  {
  }

  /** The negation of a multiple of d is a multiple of d. */
  lemma NegZero(a: int, d: int)
    requires d > 0 && a % d == 0
    ensures (-a) % d == 0
  {
    assert a == (a / d) * d;
    DivModUnique(-a, d, -(a / d), 0);
  }

  lemma ModAddMultiple(a: int, m: int, d: int)
    requires d > 0
    ensures (a + m * d) % d == a % d
  {
    assert a + m * d == (a / d + m) * d + a % d;
    DivModUnique(a + m * d, d, a / d + m, a % d);
  }

  lemma ModAdd(a: int, b: int, d: int)
    requires d > 0
    ensures (a + b) % d == (a % d + b % d) % d
  {
    assert a + b == (a % d + b % d) + (a / d + b / d) * d;
    ModAddMultiple(a % d + b % d, a / d + b / d, d);
  }

  lemma ModSub(a: int, b: int, d: int)
    requires d > 0
    ensures (a - b) % d == (a % d - b % d) % d
  {
    assert a - b == (a % d - b % d) + (a / d - b / d) * d;
    ModAddMultiple(a % d - b % d, a / d - b / d, d);
  }

  lemma ModMul(a: int, b: int, d: int)
    requires d > 0
    ensures (a * b) % d == ((a % d) * (b % d)) % d
  {
    var qa, ra, qb, rb := a / d, a % d, b / d, b % d;
    assert a == qa * d + ra;
    assert b == qb * d + rb;
    assert a * b == ra * rb + (qa * qb * d + qa * rb + ra * qb) * d;
    ModAddMultiple(ra * rb, qa * qb * d + qa * rb + ra * qb, d);
  }

  lemma ModIdempotent(a: int, d: int)
    requires d > 0
    ensures (a % d) % d == a % d
  {
    DivModUnique(a % d, d, 0, a % d);
  }

  /** Multiplying by a multiple of d gives a multiple of d. */
  lemma ModMulZero(a: int, b: int, d: int)
    requires d > 0 && a % d == 0
    ensures (a * b) % d == 0 && (b * a) % d == 0
  {
    ModMul(a, b, d);
    assert (a % d) * (b % d) == 0;
    assert b * a == a * b;
  }

  /** Congruence modulo d is preserved by multiplication on either side. */
  lemma ModMulCongruent(a: int, a': int, b: int, d: int)
    requires d > 0 && a % d == a' % d
    ensures (a * b) % d == (a' * b) % d
  {
    ModMul(a, b, d);
    ModMul(a', b, d);
  }

  /** A common divisor of x and y divides every combination c * x + y. */
  lemma DividesCombination(g: int, x: int, y: int, c: int)
    requires g > 0 && x % g == 0 && y % g == 0
    ensures (c * x + y) % g == 0
  {
    assert x == (x / g) * g;
    assert c * x + y == y + (c * (x / g)) * g;
    ModAddMultiple(y, c * (x / g), g);
  }

  /** A positive multiple of g is at least g. */
  lemma DivisorAtMost(g: int, a: int)
    requires g > 0 && a > 0 && a % g == 0
    ensures g <= a
  {
    if g > a {
      DivModUnique(a, g, 0, a);
    }
  }

  /** Extended Euclid: a positive common divisor g of a and b with s * a + t * b == g. */
  lemma {:induction false} Bezout(a: nat, b: nat) returns (g: int, s: int, t: int)
    requires a > 0
    ensures g > 0 && s * a + t * b == g && a % g == 0 && b % g == 0
    decreases b
  {
    if b == 0 {
      g, s, t := a, 1, 0;
      DivModUnique(a, a, 1, 0);
      DivModUnique(0, a, 0, 0);
    } else {
      var g', s', t' := Bezout(b, a % b);
      assert a == (a / b) * b + a % b;
      g, s, t := g', t', s' - (a / b) * t';
      assert s * a + t * b == s' * b + t' * (a % b) by {
        assert t' * a == t' * ((a / b) * b) + t' * (a % b);
      }
      DividesCombination(g, b, a % b, a / b);
    }
  }

  predicate IsInverse(a: int, b: int, p: int)
    requires p > 0
  {
    (a * b) % p == 1
  }

  /** The first b >= from below p that inverts a modulo p, if any. */
  function InverseFrom(a: int, p: nat, from: nat): Option<nat>
    requires p > 1
    decreases p - from
  {
    if from >= p then None
    else if IsInverse(a, from, p) then Some(from)
    else InverseFrom(a, p, from + 1)
  }

  lemma {:induction false} InverseFromSpec(a: int, p: nat, from: nat)
    requires p > 1
    ensures var r := InverseFrom(a, p, from);
      (r.Some? ==> from <= r.value < p && IsInverse(a, r.value, p)) &&
      (r.None? ==> forall b :: from <= b < p ==> !IsInverse(a, b, p))
    decreases p - from
  {
    if from < p && !IsInverse(a, from, p) {
      InverseFromSpec(a, p, from + 1);
    }
  }

  /** BigInteger.modInverse(p): the inverse of a modulo p in [0, p), or None
      where Java throws because a and p are not coprime. */
  function Inverse(a: int, p: nat): Option<nat>
    requires p > 1
  {
    InverseFrom(a, p, 0)
  }

  /** Inverse finds an inverse in [0, p) exactly when there is one. */
  lemma InverseSpec(a: int, p: nat)
    requires p > 1
    ensures Inverse(a, p).Some? ==> Inverse(a, p).value < p && IsInverse(a, Inverse(a, p).value, p)
    ensures Inverse(a, p).None? ==> forall b :: 0 <= b < p ==> !IsInverse(a, b, p)
  {
    InverseFromSpec(a, p, 0);
  }

  /** Multiplying by an element congruent to one leaves the residue unchanged. */
  lemma MulByUnit(u: int, y: int, p: nat)
    requires p > 0 && u % p == 1
    ensures (u * y) % p == y % p
  {
    ModMulCongruent(u, 1, y, p);
    assert 1 * y == y;
  }

  lemma MulSwap(a: int, b: int, c: int)
    ensures (a * c) * b == (a * b) * c
  {
  }

  /** Two elements of [0, p) that are congruent modulo p are equal. */
  lemma SameResidue(b: int, c: int, v: int, p: nat)
    requires p > 0 && 0 <= b < p && 0 <= c < p && v % p == b % p && v % p == c % p
    ensures b == c
  {
    DivModUnique(b, p, 0, b);
    DivModUnique(c, p, 0, c);
  }

  /** The inverse in [0, p) is unique, so Inverse returns the element Java returns. */
  lemma InverseUnique(a: int, b: int, c: int, p: nat)
    requires p > 1 && 0 <= b < p && 0 <= c < p
    requires IsInverse(a, b, p) && IsInverse(a, c, p)
    ensures b == c
  {
    // b == (a * c) * b == (a * b) * c == c, modulo p
    MulByUnit(a * c, b, p);
    MulByUnit(a * b, c, p);
    MulSwap(a, b, c);
    SameResidue(b, c, (a * b) * c, p);
  }

  /** The inverse of an element that has one, and zero otherwise. */
  function InverseOrZero(a: int, p: nat): (r: nat)
    requires p > 1
    ensures r < p
  {
    InverseSpec(a, p);
    match Inverse(a, p)
    case Some(v) => v
    case None => 0
  }

  lemma InverseOrZeroInverts(a: int, p: nat)
    requires p > 1 && Inverse(a, p).Some?
    ensures IsInverse(a, InverseOrZero(a, p), p)
  {
    InverseSpec(a, p);
  }

  /** Modulo a prime, every element not congruent to zero has an inverse. */
  lemma InverseExists(a: int, p: nat) returns (b: int)
    requires IsPrime(p) && a % p != 0
    ensures 0 <= b < p && IsInverse(a, b, p)
  {
    var a' := a % p;
    var g, s, t := Bezout(a', p);
    DivisorAtMost(g, a');
    if g != 1 {
      assert Divides(g, p);
      assert false;
    }
    b := s % p;
    assert a' * s == 1 + (-t) * p;
    ModAddMultiple(1, -t, p);
    DivModUnique(1, p, 0, 1);
    assert (a' * s) % p == 1;
    ModMulCongruent(a', a, s, p) by { ModIdempotent(a, p); }
    ModMulCongruent(s, b, a, p) by { ModIdempotent(s, p); }
    assert a * b == b * a && a' * s == s * a';
  }

  /** Modulo a prime, an element is invertible exactly when it is not congruent to zero. */
  lemma InvertibleIffNonzero(a: int, p: nat)
    requires IsPrime(p)
    ensures Inverse(a, p).Some? <==> a % p != 0
  {
    InverseSpec(a, p);
    if a % p != 0 {
      var b := InverseExists(a, p);
      assert IsInverse(a, b, p);
    } else {
      forall b | 0 <= b < p ensures !IsInverse(a, b, p) {
        ModMulZero(a, b, p);
      }
    }
  }

  /** Modulo a prime there are no zero divisors (Euclid's lemma). */
  lemma NoZeroDivisors(a: int, b: int, p: nat)
    requires IsPrime(p) && (a * b) % p == 0 && a % p != 0
    ensures b % p == 0
  {
    var v := InverseExists(a, p);
    // b == b * (a * v) == (a * b) * v == 0, modulo p
    ModMulCongruent(a * v, 1, b, p);
    assert (a * v) * b == (a * b) * v;
    ModMulZero(a * b, v, p);
  }
}
