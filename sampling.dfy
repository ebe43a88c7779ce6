/** Rejection sampling of a field element inside a domain
    (generateFieldElement, SecureShamir.java:205-211). The random source is
    injected: a finite stream of 128-bit draws, each what
    new BigInteger(128, rnd) would have produced. */
module Sampling {
  import opened Wrappers
  import opened DomainSplit

  /** Draws are uniform over [0, 2^128): the field's bit length is 128. */
  const DRAW_BOUND: nat := 0x1_0000_0000_0000_0000_0000_0000_0000_0000

  type Draw = d: nat | d < DRAW_BOUND

  /** The first draw inside d and the draws after it; None when no draw of
      the stream is in range. */
  function Sample(draws: seq<Draw>, d: Domain): (r: Option<(int, seq<Draw>)>)
    ensures r.Some? ==> Contains(d, r.value.0) && |r.value.1| < |draws|
    ensures r.Some? ==> r.value.1 == draws[|draws| - |r.value.1|..] && r.value.0 == draws[|draws| - |r.value.1| - 1]
  {
    if |draws| == 0 then None
    else if Contains(d, draws[0]) then Some((draws[0] as int, draws[1..]))
    else Sample(draws[1..], d)
  }

  /** The draw Sample returns is the first one inside d: every draw before it
      is out of range, and Sample fails exactly when every draw is. */
  lemma {:induction false} SampleFirst(draws: seq<Draw>, d: Domain)
    ensures Sample(draws, d).Some? ==>
      forall j :: 0 <= j < |draws| - |Sample(draws, d).value.1| - 1 ==> !Contains(d, draws[j])
    ensures Sample(draws, d).None? <==> forall j :: 0 <= j < |draws| ==> !Contains(d, draws[j])
    decreases |draws|
  {
    if |draws| > 0 && !Contains(d, draws[0]) {
      SampleFirst(draws[1..], d);
      assert forall j :: 0 < j < |draws| ==> draws[j] == draws[1..][j - 1];
    }
  }

  /** Consumes draws until one lies inside d and returns it with the number
      of draws used; every rejected draw was out of range. When the stream runs
      out first the result is None (the source would keep drawing forever). */
  method GenerateFieldElement(draws: seq<Draw>, d: Domain) returns (c: Option<int>, used: nat)
    ensures used <= |draws|
    ensures c.Some? ==> 0 < used && c.value == draws[used - 1] && Contains(d, c.value)
    ensures c.None? ==> used == |draws|
    ensures forall j :: 0 <= j < (if c.Some? then used - 1 else used) ==> !Contains(d, draws[j])
    ensures c.None? <==> Sample(draws, d).None?
    ensures c.Some? ==> Sample(draws, d) == Some((c.value, draws[used..]))
    ensures d.hi <= d.lo ==> c.None?
  {
    used := 0;
    while used < |draws|
      invariant used <= |draws|
      invariant forall j :: 0 <= j < used ==> !Contains(d, draws[j])
      invariant Sample(draws, d) == Sample(draws[used..], d)
    {
      var draw := draws[used];
      assert draws[used..][1..] == draws[used + 1..];
      used := used + 1;
      if Contains(d, draw) {
        return Some(draw), used;
      }
    }
    c := None;
  }

  /** The first count accepted draws, in order, and the draws left after the
      last of them; None when the stream runs out first. */
  function SampleMany(draws: seq<Draw>, count: nat, d: Domain): (r: Option<(seq<int>, seq<Draw>)>)
    ensures r.Some? ==> |r.value.0| == count && |r.value.1| <= |draws|
    ensures r.Some? ==> forall i :: 0 <= i < count ==> Contains(d, r.value.0[i])
    ensures count > 0 && d.hi <= d.lo ==> r.None?
  {
    if count == 0 then Some(([], draws))
    else match SampleMany(draws, count - 1, d)
      case None => None
      case Some((cs, rest)) =>
        match Sample(rest, d)
        case None => None
        case Some((c, rest')) => Some((cs + [c], rest'))
  }

  /** One more accepted draw extends the samples by it. */
  lemma SampleManyStep(draws: seq<Draw>, i: nat, d: Domain, cs: seq<int>, rest: seq<Draw>, c: int, rest': seq<Draw>)
    requires SampleMany(draws, i, d) == Some((cs, rest)) && Sample(rest, d) == Some((c, rest'))
    ensures SampleMany(draws, i + 1, d) == Some((cs + [c], rest'))
  {
  }

  /** A stream that runs out before the next accepted draw leaves no samples. */
  lemma SampleManyStop(draws: seq<Draw>, i: nat, d: Domain, cs: seq<int>, rest: seq<Draw>)
    requires SampleMany(draws, i, d) == Some((cs, rest)) && Sample(rest, d).None?
    ensures SampleMany(draws, i + 1, d).None?
  {
  }

  /** Once the stream has run out, asking for more draws fails too. */
  lemma {:induction false} SampleManyExhausted(draws: seq<Draw>, i: nat, j: nat, d: Domain)
    requires i <= j && SampleMany(draws, i, d).None?
    ensures SampleMany(draws, j, d).None?
    decreases j
  {
    if i < j {
      SampleManyExhausted(draws, i, j - 1, d);
    }
  }
}
