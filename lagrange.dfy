/** Secret reconstruction by Lagrange interpolation at zero over the first k
    shares (reconstructSecretValue, SecureShamir.java:89-107), and the proof
    that it returns the shared value modulo a prime p. */
module Lagrange {
  import opened Wrappers
  import opened ModArith
  import opened Polynomials

  /** The product over j < m, j != i, of (xs[j] - z) * inverse(xs[j] - xs[i]):
      the i-th Lagrange basis polynomial at z. At z = 0 it is the product the
      source accumulates in `prod`. */
  function Basis(xs: seq<int>, i: nat, m: nat, p: nat, z: int): int
    requires i < |xs| && m <= |xs| && p > 1
  {
    if m == 0 then 1
    else if m - 1 == i then Basis(xs, i, m - 1, p, z)
    else Basis(xs, i, m - 1, p, z) * ((xs[m - 1] - z) * InverseOrZero(xs[m - 1] - xs[i], p))
  }

  /** The sum over i < m of ys[i] * Basis(xs, i, k, p, z); at z = 0 the unreduced `secret`. */
  function Interp(xs: seq<int>, ys: seq<int>, m: nat, k: nat, p: nat, z: int): int
    requires m <= k <= |xs| && m <= |ys| && p > 1
  {
    if m == 0 then 0 else Interp(xs, ys, m - 1, k, p, z) + ys[m - 1] * Basis(xs, m - 1, k, p, z)
  }

  /** Every difference xs[j] - xs[i] of two of the first k points has an inverse modulo p. */
  predicate DenominatorsInvertible(xs: seq<int>, k: nat, p: nat)
    requires k <= |xs| && p > 1
  {
    forall i, j :: 0 <= i < k && 0 <= j < k && i != j ==> Inverse(xs[j] - xs[i], p).Some?
  }

  /** What reconstruction returns for x-coordinates xs and share values ys. */
  function Reconstruct(xs: seq<int>, ys: seq<int>, k: nat, p: nat): (r: Result<int>)
    requires p > 1
    ensures r.Ok? ==> 0 <= r.value < p
    ensures r.Err? <==> k > |xs| || k > |ys| || !DenominatorsInvertible(xs, k, p)
  {
    if k > |xs| || k > |ys| then Err(IndexOutOfBounds)
    else if !DenominatorsInvertible(xs, k, p) then Err(NotInvertible)
    else Ok(Interp(xs, ys, k, k, p, 0) % p)
  }

  /** The two accumulator loops of reconstructSecretValue; BigInteger.modInverse
      throwing is the NotInvertible result. */
  method ReconstructSecret(xs: seq<int>, ys: seq<int>, k: nat, p: nat) returns (r: Result<int>)
    requires p > 1
    ensures r == Reconstruct(xs, ys, k, p)
  {
    if k > |xs| || k > |ys| {
      return Err(IndexOutOfBounds);
    }
    var secret := 0;
    for i := 0 to k
      invariant secret == Interp(xs, ys, i, k, p, 0)
      invariant forall i', j :: 0 <= i' < i && 0 <= j < k && i' != j ==> Inverse(xs[j] - xs[i'], p).Some?
    {
      var prod := 1;
      for j := 0 to k
        invariant prod == Basis(xs, i, j, p, 0)
        invariant forall j' :: 0 <= j' < j && j' != i ==> Inverse(xs[j'] - xs[i], p).Some?
      {
        if j != i {
          var inv := Inverse(xs[j] - xs[i], p);
          if inv.None? {
            return Err(NotInvertible);
          }
          prod := prod * (xs[j] * inv.value);
        }
      }
      secret := secret + ys[i] * prod;
    }
    r := Ok(secret % p);
  }

  /** Reconstruction reads only the first k x-coordinates and share values. */
  lemma {:induction false} BasisPrefix(xs: seq<int>, xs': seq<int>, i: nat, m: nat, p: nat, z: int)
    requires i < |xs| && i < |xs'| && m <= |xs| && m <= |xs'| && p > 1
    requires xs[i] == xs'[i] && xs[..m] == xs'[..m]
    ensures Basis(xs, i, m, p, z) == Basis(xs', i, m, p, z)
  {
    if m > 0 {
      assert xs[..m - 1] == xs[..m][..m - 1];
      assert xs'[..m - 1] == xs'[..m][..m - 1];
      assert xs[m - 1] == xs[..m][m - 1];
      assert xs'[m - 1] == xs'[..m][m - 1];
      BasisPrefix(xs, xs', i, m - 1, p, z);
    }
  }

  lemma {:induction false} InterpPrefix(xs: seq<int>, ys: seq<int>, xs': seq<int>, ys': seq<int>, m: nat, k: nat, p: nat, z: int)
    requires m <= k <= |xs| && m <= |ys| && k <= |xs'| && m <= |ys'| && p > 1
    requires xs[..k] == xs'[..k] && ys[..m] == ys'[..m]
    ensures Interp(xs, ys, m, k, p, z) == Interp(xs', ys', m, k, p, z)
  {
    if m > 0 {
      assert ys[..m - 1] == ys[..m][..m - 1];
      assert ys'[..m - 1] == ys'[..m][..m - 1];
      assert ys[m - 1] == ys[..m][m - 1];
      assert ys'[m - 1] == ys'[..m][m - 1];
      assert xs[m - 1] == xs[..k][m - 1];
      assert xs'[m - 1] == xs'[..k][m - 1];
      InterpPrefix(xs, ys, xs', ys', m - 1, k, p, z);
      BasisPrefix(xs, xs', m - 1, k, p, z);
    }
  }

  lemma ReconstructReadsFirstK(xs: seq<int>, ys: seq<int>, xs': seq<int>, ys': seq<int>, k: nat, p: nat)
    requires p > 1 && k <= |xs| && k <= |ys| && k <= |xs'| && k <= |ys'|
    requires xs[..k] == xs'[..k] && ys[..k] == ys'[..k]
    ensures Reconstruct(xs, ys, k, p) == Reconstruct(xs', ys', k, p)
  {
    forall i | 0 <= i < k ensures xs[i] == xs'[i] {
      assert xs[i] == xs[..k][i];
    }
    InterpPrefix(xs, ys, xs', ys', k, k, p, 0);
  }

  /** Modulo a prime, reconstruction fails exactly when two of the first k
      x-coordinates are congruent. */
  lemma ReconstructFailsIff(xs: seq<int>, ys: seq<int>, k: nat, p: nat)
    requires IsPrime(p) && k <= |xs| && k <= |ys|
    ensures Reconstruct(xs, ys, k, p).Err? <==> !DistinctModP(xs[..k], p)
  {
    InvertibleIffDistinct(xs, k, p);
  }

  /** The basis product as a polynomial in z, with one coefficient per factor plus one. */
  ghost function BasisPoly(xs: seq<int>, i: nat, m: nat, p: nat): seq<int>
    requires i < |xs| && m <= |xs| && p > 1
  {
    if m == 0 then [1]
    else if m - 1 == i then BasisPoly(xs, i, m - 1, p)
    else Scale(InverseOrZero(xs[m - 1] - xs[i], p), MulLinear(BasisPoly(xs, i, m - 1, p), xs[m - 1]))
  }

  lemma {:induction false} BasisPolyLength(xs: seq<int>, i: nat, m: nat, p: nat)
    requires i < |xs| && m <= |xs| && p > 1
    ensures |BasisPoly(xs, i, m, p)| <= if i < m then m else m + 1
  {
    if m > 0 {
      BasisPolyLength(xs, i, m - 1, p);
    }
  }

  lemma MulRearrange(c: int, d: int, b: int)
    ensures c * (d * b) == b * (d * c)
  {
  }

  lemma {:induction false} BasisPolyEval(xs: seq<int>, i: nat, m: nat, p: nat, z: int)
    requires i < |xs| && m <= |xs| && p > 1
    ensures Eval(BasisPoly(xs, i, m, p), z) == Basis(xs, i, m, p, z)
  {
    if m == 0 {
      EvalCons(1, [], z);
      assert [1] + [] == [1];
    } else if m - 1 == i {
      BasisPolyEval(xs, i, m - 1, p, z);
    } else {
      BasisPolyEval(xs, i, m - 1, p, z);
      var B, c, a := BasisPoly(xs, i, m - 1, p), InverseOrZero(xs[m - 1] - xs[i], p), xs[m - 1];
      var b := Eval(B, z);
      var L := MulLinear(B, a);
      assert BasisPoly(xs, i, m, p) == Scale(c, L);
      EvalScale(c, L, z);
      EvalMulLinear(B, a, z);
      assert Eval(L, z) == (a - z) * b;
      assert Basis(xs, i, m, p, z) == b * ((a - z) * c);
      MulRearrange(c, a - z, b);
    }
  }

  ghost function InterpPoly(xs: seq<int>, ys: seq<int>, m: nat, k: nat, p: nat): seq<int>
    requires m <= k <= |xs| && m <= |ys| && p > 1
  {
    if m == 0 then []
    else Add(InterpPoly(xs, ys, m - 1, k, p), Scale(ys[m - 1], BasisPoly(xs, m - 1, k, p)))
  }

  lemma {:induction false} InterpPolyLength(xs: seq<int>, ys: seq<int>, m: nat, k: nat, p: nat)
    requires m <= k <= |xs| && m <= |ys| && p > 1
    ensures |InterpPoly(xs, ys, m, k, p)| <= k
  {
    if m > 0 {
      InterpPolyLength(xs, ys, m - 1, k, p);
      BasisPolyLength(xs, m - 1, k, p);
    }
  }

  lemma {:induction false} InterpPolyEval(xs: seq<int>, ys: seq<int>, m: nat, k: nat, p: nat, z: int)
    requires m <= k <= |xs| && m <= |ys| && p > 1
    ensures Eval(InterpPoly(xs, ys, m, k, p), z) == Interp(xs, ys, m, k, p, z)
  {
    if m > 0 {
      var I, B := InterpPoly(xs, ys, m - 1, k, p), BasisPoly(xs, m - 1, k, p);
      InterpPolyEval(xs, ys, m - 1, k, p, z);
      BasisPolyEval(xs, m - 1, k, p, z);
      assert InterpPoly(xs, ys, m, k, p) == Add(I, Scale(ys[m - 1], B));
      EvalAdd(I, Scale(ys[m - 1], B), z);
      EvalScale(ys[m - 1], B, z);
    }
  }

  /** The i-th basis polynomial vanishes at every other point. */
  lemma {:induction false} BasisAtOtherPoint(xs: seq<int>, i: nat, m: nat, p: nat, t: nat)
    requires i < |xs| && m <= |xs| && p > 1 && t < m && t != i
    ensures Basis(xs, i, m, p, xs[t]) == 0
  {
    if m - 1 != t {
      BasisAtOtherPoint(xs, i, m - 1, p, t);
    }
  }

  /** The i-th basis polynomial is one modulo p at its own point. */
  lemma {:induction false} BasisAtOwnPoint(xs: seq<int>, i: nat, m: nat, p: nat)
    requires i < |xs| && m <= |xs| && p > 1
    requires forall j :: 0 <= j < m && j != i ==> Inverse(xs[j] - xs[i], p).Some?
    ensures Basis(xs, i, m, p, xs[i]) % p == 1
  {
    DivModUnique(1, p, 0, 1);
    if m > 0 {
      BasisAtOwnPoint(xs, i, m - 1, p);
      if m - 1 != i {
        var b := Basis(xs, i, m - 1, p, xs[i]);
        var d := xs[m - 1] - xs[i];
        InverseOrZeroInverts(d, p);
        var f := d * InverseOrZero(d, p);
        assert f % p == 1;
        ModMul(b, f, p);
      }
    }
  }

  /** Adding y times a unit to a multiple of p gives y, modulo p. */
  lemma AddScaledUnit(prev: int, y: int, b: int, p: nat)
    requires p > 1 && prev % p == 0 && b % p == 1
    ensures (prev + y * b) % p == y % p
  {
    ModMul(y, b, p);
    ModIdempotent(y, p);
    ModAdd(prev, y * b, p);
    assert (y % p) * 1 == y % p;
  }

  lemma MulZeroRight(y: int, b: int)
    requires b == 0
    ensures y * b == 0
  {
  }

  /** The term of the t-th point adds ys[t] modulo p at that point. */
  lemma InterpOwnTerm(xs: seq<int>, ys: seq<int>, k: nat, p: nat, t: nat)
    requires t < k <= |xs| && t < |ys| && p > 1
    requires Basis(xs, t, k, p, xs[t]) % p == 1
    requires Interp(xs, ys, t, k, p, xs[t]) % p == 0
    ensures Interp(xs, ys, t + 1, k, p, xs[t]) % p == ys[t] % p
  {
    AddScaledUnit(Interp(xs, ys, t, k, p, xs[t]), ys[t], Basis(xs, t, k, p, xs[t]), p);
  }

  /** The terms of the other points add nothing at the t-th point. */
  lemma InterpOtherTerm(xs: seq<int>, ys: seq<int>, m: nat, k: nat, p: nat, t: nat)
    requires 0 < m <= k <= |xs| && m <= |ys| && p > 1 && t < k && t != m - 1
    ensures Interp(xs, ys, m, k, p, xs[t]) == Interp(xs, ys, m - 1, k, p, xs[t])
  {
    BasisAtOtherPoint(xs, m - 1, k, p, t);
    MulZeroRight(ys[m - 1], Basis(xs, m - 1, k, p, xs[t]));
  }

  /** At the t-th point the interpolation sum agrees with ys[t] modulo p. */
  lemma {:induction false} InterpAtPoint(xs: seq<int>, ys: seq<int>, m: nat, k: nat, p: nat, t: nat)
    requires m <= k <= |xs| && m <= |ys| && p > 1 && t < k
    requires Basis(xs, t, k, p, xs[t]) % p == 1
    ensures Interp(xs, ys, m, k, p, xs[t]) % p == if t < m then ys[t] % p else 0
  {
    if m > 0 {
      InterpAtPoint(xs, ys, m - 1, k, p, t);
      if m - 1 == t {
        InterpOwnTerm(xs, ys, k, p, t);
      } else {
        InterpOtherTerm(xs, ys, m, k, p, t);
      }
    }
  }

  /** The interpolating polynomial minus the sharing polynomial [value] + coeffs. */
  ghost function Discrepancy(xs: seq<int>, ys: seq<int>, value: int, coeffs: seq<int>, k: nat, p: nat): seq<int>
    requires k <= |xs| && k <= |ys| && p > 1
  {
    Add(InterpPoly(xs, ys, k, k, p), Scale(-1, [value] + coeffs))
  }

  lemma DiscrepancyEval(xs: seq<int>, ys: seq<int>, value: int, coeffs: seq<int>, k: nat, p: nat, z: int)
    requires k <= |xs| && k <= |ys| && p > 1
    ensures Eval(Discrepancy(xs, ys, value, coeffs, k, p), z)
         == Interp(xs, ys, k, k, p, z) - Eval([value] + coeffs, z)
  {
    var I, F := InterpPoly(xs, ys, k, k, p), [value] + coeffs;
    InterpPolyEval(xs, ys, k, k, p, z);
    EvalAdd(I, Scale(-1, F), z);
    EvalScale(-1, F, z);
  }

  /** The discrepancy is zero modulo p at the t-th point. */
  lemma DiscrepancyAtPoint(xs: seq<int>, ys: seq<int>, value: int, coeffs: seq<int>, k: nat, p: nat, t: nat)
    requires p > 1 && t < k <= |xs| && k <= |ys|
    requires forall j :: 0 <= j < k && j != t ==> Inverse(xs[j] - xs[t], p).Some?
    requires ys[t] % p == Eval([value] + coeffs, xs[t]) % p
    ensures Eval(Discrepancy(xs, ys, value, coeffs, k, p), xs[t]) % p == 0
  {
    DiscrepancyEval(xs, ys, value, coeffs, k, p, xs[t]);
    BasisAtOwnPoint(xs, t, k, p);
    InterpAtPoint(xs, ys, k, k, p, t);
    DifferenceOfCongruent(Eval(Discrepancy(xs, ys, value, coeffs, k, p), xs[t]),
      Interp(xs, ys, k, k, p, xs[t]), Eval([value] + coeffs, xs[t]), ys[t], p);
  }

  lemma DifferenceOfCongruent(g: int, s: int, f: int, y: int, p: nat)
    requires p > 1 && g == s - f && s % p == y % p && y % p == f % p
    ensures g % p == 0
  {
    ModSub(s, f, p);
    DivModUnique(0, p, 0, 0);
  }

  /** The discrepancy has at most k coefficients and is zero modulo p at each of the first k points. */
  lemma DiscrepancyAtPoints(xs: seq<int>, ys: seq<int>, value: int, coeffs: seq<int>, k: nat, p: nat)
    requires p > 1 && |coeffs| < k <= |xs| && k <= |ys|
    requires DenominatorsInvertible(xs, k, p)
    requires forall t :: 0 <= t < k ==> ys[t] % p == Eval([value] + coeffs, xs[t]) % p
    ensures |Discrepancy(xs, ys, value, coeffs, k, p)| <= k
    ensures forall i :: 0 <= i < |xs[..k]| ==> Eval(Discrepancy(xs, ys, value, coeffs, k, p), xs[..k][i]) % p == 0
  {
    InterpPolyLength(xs, ys, k, k, p);
    forall i | 0 <= i < |xs[..k]| ensures Eval(Discrepancy(xs, ys, value, coeffs, k, p), xs[..k][i]) % p == 0 {
      assert xs[..k][i] == xs[i];
      DiscrepancyAtPoint(xs, ys, value, coeffs, k, p, i);
    }
  }

  /** Modulo a prime, the differences of the first k points are all
      invertible exactly when those points are pairwise distinct modulo p. */
  lemma InvertibleIffDistinct(xs: seq<int>, k: nat, p: nat)
    requires IsPrime(p) && k <= |xs|
    ensures DenominatorsInvertible(xs, k, p) <==> DistinctModP(xs[..k], p)
  {
    var pts := xs[..k];
    forall i, j | 0 <= i < k && 0 <= j < k && i != j
      ensures Inverse(xs[j] - xs[i], p).Some? <==> (xs[j] - xs[i]) % p != 0
    {
      InvertibleIffNonzero(xs[j] - xs[i], p);
    }
    if DistinctModP(pts, p) {
      forall i, j | 0 <= i < k && 0 <= j < k && i != j ensures (xs[j] - xs[i]) % p != 0 {
        if i < j {
          assert pts[j] - pts[i] == xs[j] - xs[i];
        } else {
          assert pts[i] - pts[j] == xs[i] - xs[j];
          if (xs[j] - xs[i]) % p == 0 {
            NegZero(xs[j] - xs[i], p);
            assert false;
          }
        }
      }
    }
    if DenominatorsInvertible(xs, k, p) {
      forall i, j | 0 <= i < j < |pts| ensures (pts[j] - pts[i]) % p != 0 {
        assert pts[j] - pts[i] == xs[j] - xs[i];
      }
    }
  }

  /** The unreduced interpolation sum at zero is congruent to the value. */
  lemma InterpAtZero(xs: seq<int>, ys: seq<int>, value: int, coeffs: seq<int>, k: nat, p: nat)
    requires IsPrime(p)
    requires |coeffs| < k <= |xs| && k <= |ys|
    requires DenominatorsInvertible(xs, k, p) && DistinctModP(xs[..k], p)
    requires forall t :: 0 <= t < k ==> ys[t] % p == Eval([value] + coeffs, xs[t]) % p
    ensures (Interp(xs, ys, k, k, p, 0) - value) % p == 0
  {
    DiscrepancyAtPoints(xs, ys, value, coeffs, k, p);
    VanishesEverywhere(Discrepancy(xs, ys, value, coeffs, k, p), xs[..k], p, 0);
    DiscrepancyEval(xs, ys, value, coeffs, k, p, 0);
    EvalCons(value, coeffs, 0);
  }

  lemma CongruentByDifference(s: int, v: int, p: nat)
    requires p > 1 && (s - v) % p == 0
    ensures s % p == v % p
  {
    ModAdd(s - v, v, p);
    ModIdempotent(v, p);
  }

  /** Lagrange correctness: when p is prime, the first k x-coordinates are
      pairwise distinct modulo p, and each of the first k share values agrees
      modulo p with a polynomial of at most k coefficients whose constant term
      is `value`, reconstruction returns value mod p. */
  lemma LagrangeCorrect(xs: seq<int>, ys: seq<int>, value: int, coeffs: seq<int>, k: nat, p: nat)
    requires IsPrime(p)
    requires |coeffs| < k <= |xs| && k <= |ys|
    requires DistinctModP(xs[..k], p)
    requires forall t :: 0 <= t < k ==> ys[t] % p == Eval([value] + coeffs, xs[t]) % p
    ensures Reconstruct(xs, ys, k, p) == Ok(value % p)
  {
    InvertibleIffDistinct(xs, k, p);
    InterpAtZero(xs, ys, value, coeffs, k, p);
    CongruentByDifference(Interp(xs, ys, k, k, p, 0), value, p);
  }
}
