/** Polynomials with integer coefficients, lowest degree first, evaluated
    exactly over the integers. They carry no behaviour of the engine: they are
    the vocabulary in which Lagrange interpolation is proved correct, ending in
    the factor theorem modulo a prime (a polynomial with no more coefficients
    than it has distinct roots modulo p vanishes everywhere modulo p). */
module Polynomials {
  import opened ModArith

  /** Evaluation by Horner's rule: P(z) == P[0] + z * (P[1..])(z). */
  function Eval(P: seq<int>, z: int): int
  {
    if |P| == 0 then 0 else P[0] + z * Eval(P[1..], z)
  }

  /** The sum of P[j] * z^j over j < m: the terms of degree below m. */
  function EvalUpTo(P: seq<int>, z: int, m: nat): int
    requires m <= |P|
  {
    if m == 0 then 0 else EvalUpTo(P, z, m - 1) + P[m - 1] * Pow(z, m - 1)
  }

  function Max(a: nat, b: nat): nat
  {
    if a < b then b else a
  }

  /** The coefficient-wise sum. */
  function Add(P: seq<int>, Q: seq<int>): (R: seq<int>)
    ensures |R| == Max(|P|, |Q|)
  {
    if |P| == 0 then Q
    else if |Q| == 0 then P
    else [P[0] + Q[0]] + Add(P[1..], Q[1..])
  }

  /** Every coefficient multiplied by c. */
  function Scale(c: int, P: seq<int>): (R: seq<int>)
    ensures |R| == |P|
  {
    if |P| == 0 then [] else [c * P[0]] + Scale(c, P[1..])
  }

  /** The polynomial (a - X) * P(X). */
  function MulLinear(P: seq<int>, a: int): (R: seq<int>)
    ensures |R| == |P| + 1
  {
    Add(Scale(a, P), Scale(-1, [0] + P))
  }

  /** The quotient of P(X) divided by X - a (synthetic division). */
  function Quot(P: seq<int>, a: int): (Q: seq<int>)
    ensures |Q| == if |P| == 0 then 0 else |P| - 1
  {
    if |P| <= 1 then [] else [Eval(P[1..], a)] + Quot(P[1..], a)
  }

  lemma EvalCons(c: int, P: seq<int>, z: int)
    ensures Eval([c] + P, z) == c + z * Eval(P, z)
  {
    assert ([c] + P)[1..] == P;
  }

  lemma Distribute(z: int, a: int, b: int)
    ensures z * (a + b) == z * a + z * b
  {
  }

  lemma {:induction false} EvalAdd(P: seq<int>, Q: seq<int>, z: int)
    ensures Eval(Add(P, Q), z) == Eval(P, z) + Eval(Q, z)
    decreases |P|
  {
    if |P| > 0 && |Q| > 0 {
      EvalAdd(P[1..], Q[1..], z);
      var R := Add(P[1..], Q[1..]);
      EvalCons(P[0] + Q[0], R, z);
      Distribute(z, Eval(P[1..], z), Eval(Q[1..], z));
    }
  }

  lemma ScaleMul(c: int, a: int, z: int, e: int)
    ensures c * a + z * (c * e) == c * (a + z * e)
  {
  }

  lemma {:induction false} EvalScale(c: int, P: seq<int>, z: int)
    ensures Eval(Scale(c, P), z) == c * Eval(P, z)
    decreases |P|
  {
    if |P| > 0 {
      EvalScale(c, P[1..], z);
      EvalCons(c * P[0], Scale(c, P[1..]), z);
      ScaleMul(c, P[0], z, Eval(P[1..], z));
    }
  }

  lemma EvalMulLinear(P: seq<int>, a: int, z: int)
    ensures Eval(MulLinear(P, a), z) == (a - z) * Eval(P, z)
  {
    var e := Eval(P, z);
    EvalAdd(Scale(a, P), Scale(-1, [0] + P), z);
    EvalScale(a, P, z);
    EvalScale(-1, [0] + P, z);
    EvalCons(0, P, z);
    assert a * e + -1 * (0 + z * e) == (a - z) * e;
  }

  lemma SyntheticStep(c: int, z: int, a: int, q: int, r: int)
    ensures c + z * ((z - a) * q + r) == (z - a) * (r + z * q) + (c + a * r)
  {
  }

  /** Synthetic division: P(z) == (z - a) * Quot(P, a)(z) + P(a). */
  lemma {:induction false} QuotEval(P: seq<int>, a: int, z: int)
    ensures Eval(P, z) == (z - a) * Eval(Quot(P, a), z) + Eval(P, a)
  {
    if |P| == 1 {
      assert P[1..] == [];
    } else if |P| > 1 {
      var R := P[1..];
      QuotEval(R, a, z);
      var q, r := Eval(Quot(R, a), z), Eval(R, a);
      EvalCons(r, Quot(R, a), z);
      SyntheticStep(P[0], z, a, q, r);
    }
  }

  lemma HornerStep(w: int, c: int, z: int, e: int)
    ensures w * (c + z * e) == c * w + (z * w) * e
  {
  }

  /** Horner evaluation splits into the terms below degree m and z^m times the rest. */
  lemma {:induction false} EvalSplit(P: seq<int>, z: int, m: nat)
    requires m <= |P|
    ensures Eval(P, z) == EvalUpTo(P, z, m) + Pow(z, m) * Eval(P[m..], z)
  {
    if m == 0 {
      assert P[0..] == P;
    } else {
      EvalSplit(P, z, m - 1);
      var w, e := Pow(z, m - 1), Eval(P[m..], z);
      assert P[m - 1..][1..] == P[m..];
      assert Eval(P[m - 1..], z) == P[m - 1] + z * e;
      HornerStep(w, P[m - 1], z, e);
    }
  }

  /** Horner's rule agrees with the sum of the terms P[j] * z^j. */
  lemma EvalIsPowerSum(P: seq<int>, z: int)
    ensures Eval(P, z) == EvalUpTo(P, z, |P|)
  {
    EvalSplit(P, z, |P|);
    assert P[|P|..] == [];
    var w := Pow(z, |P|);
    assert w * 0 == 0;
  }

  /** No two of the points are congruent modulo p. */
  ghost predicate DistinctModP(pts: seq<int>, p: nat)
    requires p > 0
  {
    forall i, j :: 0 <= i < j < |pts| ==> (pts[j] - pts[i]) % p != 0
  }

  /** A root b of P other than the root a, modulo a prime, is a root of Quot(P, a). */
  lemma QuotientKeepsRoot(P: seq<int>, a: int, b: int, p: nat)
    requires IsPrime(p)
    requires Eval(P, a) % p == 0 && Eval(P, b) % p == 0 && (b - a) % p != 0
    ensures Eval(Quot(P, a), b) % p == 0
  {
    QuotEval(P, a, b);
    RootOfFactor(b - a, Eval(Quot(P, a), b), Eval(P, a), Eval(P, b), p);
  }

  /** Modulo a prime, if v == d * e + r with v and r zero and d not, then e is zero. */
  lemma RootOfFactor(d: int, e: int, r: int, v: int, p: nat)
    requires IsPrime(p) && v == d * e + r && v % p == 0 && r % p == 0 && d % p != 0
    ensures e % p == 0
  {
    ModSub(v, r, p);
    assert v - r == d * e;
    DivModUnique(0, p, 0, 0);
    NoZeroDivisors(d, e, p);
  }

  lemma MultiplePlusZero(d: int, e: int, r: int, v: int, p: nat)
    requires p > 1 && v == d * e + r && e % p == 0 && r % p == 0
    ensures v % p == 0
  {
    ModMulZero(e, d, p);
    ModAdd(d * e, r, p);
    DivModUnique(0, p, 0, 0);
  }

  /** A multiple of a polynomial vanishing modulo p, plus a root value, vanishes modulo p. */
  lemma FactorVanishes(P: seq<int>, a: int, z: int, p: nat)
    requires p > 1
    requires Eval(P, a) % p == 0 && Eval(Quot(P, a), z) % p == 0
    ensures Eval(P, z) % p == 0
  {
    QuotEval(P, a, z);
    MultiplePlusZero(z - a, Eval(Quot(P, a), z), Eval(P, a), Eval(P, z), p);
  }

  /** The roots other than the first are roots of the quotient by the first. */
  lemma QuotientRoots(P: seq<int>, pts: seq<int>, p: nat)
    requires IsPrime(p) && |pts| > 0
    requires DistinctModP(pts, p)
    requires forall i :: 0 <= i < |pts| ==> Eval(P, pts[i]) % p == 0
    ensures forall i :: 0 <= i < |pts| - 1 ==> Eval(Quot(P, pts[0]), pts[1..][i]) % p == 0
  {
    forall i | 0 <= i < |pts| - 1 ensures Eval(Quot(P, pts[0]), pts[1..][i]) % p == 0 {
      assert pts[1..][i] == pts[i + 1];
      QuotientKeepsRoot(P, pts[0], pts[i + 1], p);
    }
  }

  lemma DistinctTail(pts: seq<int>, p: nat)
    requires p > 0 && |pts| > 0 && DistinctModP(pts, p)
    ensures DistinctModP(pts[1..], p)
  {
    var rest := pts[1..];
    forall i, j | 0 <= i < j < |rest| ensures (rest[j] - rest[i]) % p != 0 {
      assert rest[j] - rest[i] == pts[j + 1] - pts[i + 1];
    }
  }

  /** The factor theorem modulo a prime: a polynomial with at most as many
      coefficients as it has roots modulo p, pairwise distinct modulo p, is
      zero modulo p at every point. */
  lemma {:induction false} VanishesEverywhere(P: seq<int>, pts: seq<int>, p: nat, z: int)
    requires IsPrime(p)
    requires |P| <= |pts|
    requires DistinctModP(pts, p)
    requires forall i :: 0 <= i < |pts| ==> Eval(P, pts[i]) % p == 0
    ensures Eval(P, z) % p == 0
    decreases |pts|
  {
    if |pts| == 0 {
      assert P == [];
    } else {
      QuotientRoots(P, pts, p);
      DistinctTail(pts, p);
      VanishesEverywhere(Quot(P, pts[0]), pts[1..], p, z);
      FactorVanishes(P, pts[0], z, p);
    }
  }
}
