/** Evaluation of one share: valueInX adds up the polynomial's coefficients
    times the powers of x, each power reduced modulo p but the sum left
    unreduced (SecureShamir.java:171-183). */
module ShareEval {
  import opened ModArith
  import opened Polynomials

  /** The sum of q[j] * (x^(j+1) mod p) over j < m. */
  function PowerSum(q: seq<int>, x: int, p: nat, m: nat): int
    requires p > 0 && m <= |q|
  {
    if m == 0 then 0 else PowerSum(q, x, p, m - 1) + q[m - 1] * ModPow(x, m, p)
  }

  /** valueInX: the accumulator loop over the quotients. */
  method ValueInX(quotients: seq<int>, x: int, p: nat) returns (result: int)
    requires p > 0
    ensures result == PowerSum(quotients, x, p, |quotients|)
    ensures |quotients| == 0 ==> result == 0
  {
    result := 0;
    for j := 0 to |quotients|
      invariant result == PowerSum(quotients, x, p, j)
    {
      result := result + quotients[j] * ModPow(x, j + 1, p);
    }
  }

  lemma {:induction false} PowerSumCongruent(q: seq<int>, x: int, p: nat, m: nat)
    requires p > 0 && m <= |q|
    ensures PowerSum(q, x, p, m) % p == (x * EvalUpTo(q, x, m)) % p
  {
    if m > 0 {
      PowerSumCongruent(q, x, p, m - 1);
      var s, e := PowerSum(q, x, p, m - 1), EvalUpTo(q, x, m - 1);
      var pw := Pow(x, m);
      assert x * EvalUpTo(q, x, m) == x * e + q[m - 1] * pw by {
        Distribute(x, e, q[m - 1] * Pow(x, m - 1));
        assert pw == x * Pow(x, m - 1);
      }
      ModMulCongruent(pw % p, pw, q[m - 1], p) by { ModIdempotent(pw, p); }
      assert (pw % p) * q[m - 1] == q[m - 1] * (pw % p);
      assert pw * q[m - 1] == q[m - 1] * pw;
      ModAdd(s, q[m - 1] * (pw % p), p);
      ModAdd(x * e, q[m - 1] * pw, p);
    }
  }

  /** A share value + valueInX(q, x) agrees modulo p with the polynomial whose
      constant term is the value and whose higher coefficients are q, at x. */
  lemma ShareIsPolynomial(value: int, q: seq<int>, x: int, p: nat)
    requires p > 0
    ensures (value + PowerSum(q, x, p, |q|)) % p == Eval([value] + q, x) % p
  {
    PowerSumCongruent(q, x, p, |q|);
    EvalIsPowerSum(q, x);
    EvalCons(value, q, x);
    ModAdd(value, PowerSum(q, x, p, |q|), p);
    ModAdd(value, x * Eval(q, x), p);
  }
}
