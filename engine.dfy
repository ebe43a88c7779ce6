/** The SecureShamir engine (SecureShamir.java:9-212): its state, the domain
    split, share building and secret reconstruction, with the field prime p
    and the random stream given to the constructor. */
module Engine {
  import opened Wrappers
  import opened ModArith
  import opened Polynomials
  import opened Sorting
  import opened Sampling
  import opened DomainSplit
  import opened ShareEval
  import opened Lagrange
  import opened Sequences

  /** The share values value + valueInX(q, x_t), one per x-coordinate. */
  function ShareValues(value: int, q: seq<int>, xs: seq<int>, p: nat): seq<int>
    requires p > 0
  {
    seq(|xs|, t requires 0 <= t < |xs| => value + PowerSum(q, xs[t], p, |q|))
  }

  /** Share values computed one x-coordinate at a time are ShareValues. */
  lemma ShareValuesPointwise(value: int, q: seq<int>, xs: seq<int>, ys: seq<int>, p: nat)
    requires p > 0 && |ys| == |xs|
    requires forall t :: 0 <= t < |xs| ==> ys[t] == value + PowerSum(q, xs[t], p, |q|)
    ensures ys == ShareValues(value, q, xs, p)
  {
  }

  /** One stored share set: k - 1 coefficients and n x-coordinates, all in the
      owner's domain, and the share values they give. */
  predicate ShareSetOk(value: int, xs: seq<int>, ys: seq<int>, q: seq<int>, d: Domain, k: int, n: int, p: nat)
    requires p > 0
  {
    k >= 1 && n >= 0 && |q| == k - 1 && |xs| == n
    && (forall j :: 0 <= j < |q| ==> Contains(d, q[j]))
    && (forall t :: 0 <= t < n ==> Contains(d, xs[t]))
    && ys == ShareValues(value, q, xs, p)
  }

  /** The domains map is empty before the first split and the partition of the values after it. */
  predicate DomainsOk(values: seq<int>, domains: map<int, Domain>, p: nat)
  {
    domains == map[] || (|values| > 0 && domains == Partition(values, p))
  }

  /** The stored lists are index-aligned and every entry is a share set of its owner. */
  ghost predicate StoreOk(x: seq<seq<int>>, shares: seq<seq<int>>, owners: seq<int>, coeffs: seq<seq<int>>,
                          domains: map<int, Domain>, k: int, n: int, p: nat)
    requires p > 0
  {
    |x| == |shares| == |owners| == |coeffs|
    && (|x| > 0 ==> k >= 1)
    && (forall e :: 0 <= e < |x| ==> owners[e] in domains && |x[e]| == n && |shares[e]| == n)
    && forall e {:trigger ShareSetOk(owners[e], x[e], shares[e], coeffs[e], domains[owners[e]], k, n, p)} :: 0 <= e < |x| ==>
         owners[e] in domains && ShareSetOk(owners[e], x[e], shares[e], coeffs[e], domains[owners[e]], k, n, p)
  }

  lemma StoreAppend(x: seq<seq<int>>, shares: seq<seq<int>>, owners: seq<int>, coeffs: seq<seq<int>>,
                    domains: map<int, Domain>, k: int, n: int, p: nat,
                    xs: seq<int>, ys: seq<int>, v: int, q: seq<int>)
    requires p > 0 && StoreOk(x, shares, owners, coeffs, domains, k, n, p)
    requires v in domains && ShareSetOk(v, xs, ys, q, domains[v], k, n, p)
    ensures StoreOk(x + [xs], shares + [ys], owners + [v], coeffs + [q], domains, k, n, p)
  {
    var x', shares', owners', coeffs' := x + [xs], shares + [ys], owners + [v], coeffs + [q];
    forall e | 0 <= e < |x'|
      ensures owners'[e] in domains && ShareSetOk(owners'[e], x'[e], shares'[e], coeffs'[e], domains[owners'[e]], k, n, p)
    {
      if e < |x| {
        assert x'[e] == x[e] && shares'[e] == shares[e] && owners'[e] == owners[e] && coeffs'[e] == coeffs[e];
      }
    }
  }

  /** The draws buildValueShares takes from the stream: first the k - 1
      coefficients, then the n x-coordinates, each the next draw inside the
      domain; with the draws left afterwards. None when the stream runs out. */
  function ShareDraws(draws: seq<Draw>, qCount: nat, xCount: nat, d: Domain): (r: Option<(seq<int>, seq<int>, seq<Draw>)>)
    ensures r.Some? ==> |r.value.0| == qCount && |r.value.1| == xCount
    ensures r.Some? ==> forall j :: 0 <= j < qCount ==> Contains(d, r.value.0[j])
    ensures r.Some? ==> forall t :: 0 <= t < xCount ==> Contains(d, r.value.1[t])
  {
    match SampleMany(draws, qCount, d)
    case None => None
    case Some((q, rest)) =>
      match SampleMany(rest, xCount, d)
      case None => None
      case Some((xs, rest')) => Some((q, xs, rest'))
  }

  /** The share sets buildShares builds for vals[..m], in order: each value's
      coefficients, x-coordinates and share values come from ShareDraws on the
      draws the previous value left. None when the stream runs out first. */
  function ShareSets(draws: seq<Draw>, vals: seq<int>, m: nat, qCount: nat, xCount: nat, domains: map<int, Domain>, p: nat)
    : (r: Option<(seq<seq<int>>, seq<seq<int>>, seq<seq<int>>, seq<Draw>)>)
    requires m <= |vals| && p > 0
    requires forall i :: 0 <= i < |vals| ==> vals[i] in domains
    ensures r.Some? ==> |r.value.0| == m && |r.value.1| == m && |r.value.2| == m
  {
    if m == 0 then Some(([], [], [], draws))
    else match ShareSets(draws, vals, m - 1, qCount, xCount, domains, p)
      case None => None
      case Some((qss, xss, yss, rest)) =>
        match ShareDraws(rest, qCount, xCount, domains[vals[m - 1]])
        case None => None
        case Some((q, xs, rest')) =>
          Some((qss + [q], xss + [xs], yss + [ShareValues(vals[m - 1], q, xs, p)], rest'))
  }

  /** Once the stream has run out for some value, it has run out for every later one. */
  lemma {:induction false} ShareSetsExhausted(draws: seq<Draw>, vals: seq<int>, i: nat, j: nat, qCount: nat, xCount: nat,
                                              domains: map<int, Domain>, p: nat)
    requires i <= j <= |vals| && p > 0
    requires forall t :: 0 <= t < |vals| ==> vals[t] in domains
    requires ShareSets(draws, vals, i, qCount, xCount, domains, p).None?
    ensures ShareSets(draws, vals, j, qCount, xCount, domains, p).None?
    decreases j
  {
    if i < j {
      ShareSetsExhausted(draws, vals, i, j - 1, qCount, xCount, domains, p);
    }
  }

  /** One more value: when the draws after the earlier values give its
      coefficients and x-coordinates, its share set extends the chain. */
  lemma ShareSetsStep(draws: seq<Draw>, vals: seq<int>, i: nat, qCount: nat, xCount: nat, domains: map<int, Domain>, p: nat,
                      c: (seq<seq<int>>, seq<seq<int>>, seq<seq<int>>, seq<Draw>), dr: (seq<int>, seq<int>, seq<Draw>))
    requires i < |vals| && p > 0
    requires forall t :: 0 <= t < |vals| ==> vals[t] in domains
    requires ShareSets(draws, vals, i, qCount, xCount, domains, p) == Some(c)
    requires ShareDraws(c.3, qCount, xCount, domains[vals[i]]) == Some(dr)
    ensures ShareSets(draws, vals, i + 1, qCount, xCount, domains, p)
      == Some((c.0 + [dr.0], c.1 + [dr.1], c.2 + [ShareValues(vals[i], dr.0, dr.1, p)], dr.2))
  {
  }

  /** One more value: when the stream runs out during its draws, the chain fails. */
  lemma ShareSetsStop(draws: seq<Draw>, vals: seq<int>, i: nat, qCount: nat, xCount: nat, domains: map<int, Domain>, p: nat,
                      c: (seq<seq<int>>, seq<seq<int>>, seq<seq<int>>, seq<Draw>))
    requires i < |vals| && p > 0
    requires forall t :: 0 <= t < |vals| ==> vals[t] in domains
    requires ShareSets(draws, vals, i, qCount, xCount, domains, p) == Some(c)
    requires ShareDraws(c.3, qCount, xCount, domains[vals[i]]).None?
    ensures ShareSets(draws, vals, i + 1, qCount, xCount, domains, p).None?
  {
  }

  /** End to end: share values built as value + valueInX(q, x_t) at k pairwise
      distinct x-coordinates of [0, p), with k - 1 coefficients, reconstruct
      to value mod p when p is prime. */
  lemma SharesReconstruct(value: int, q: seq<int>, xs: seq<int>, ys: seq<int>, k: nat, p: nat)
    requires IsPrime(p) && |q| + 1 == k && k <= |xs| && k <= |ys|
    requires forall t :: 0 <= t < k ==> 0 <= xs[t] < p
    requires forall i, j :: 0 <= i < j < k ==> xs[i] != xs[j]
    requires forall t :: 0 <= t < k ==> ys[t] == value + PowerSum(q, xs[t], p, |q|)
    ensures Reconstruct(xs, ys, k, p) == Ok(value % p)
  {
    var pts := xs[..k];
    forall i, j | 0 <= i < j < |pts| ensures (pts[j] - pts[i]) % p != 0 {
      if (pts[j] - pts[i]) % p == 0 {
        CongruentByDifference(pts[j], pts[i], p);
        SameResidue(pts[j], pts[i], pts[j], p);
        assert false;
      }
    }
    forall t | 0 <= t < k ensures ys[t] % p == Eval([value] + q, xs[t]) % p {
      ShareIsPolynomial(value, q, xs[t], p);
    }
    LagrangeCorrect(xs, ys, value, q, k, p);
  }


  /** A share set built in a domain inside the field reconstructs to its value
      mod p, when p is prime, k <= n and its first k x-coordinates differ. */
  lemma ShareSetReconstructs(value: int, xs: seq<int>, ys: seq<int>, q: seq<int>, d: Domain, k: int, n: int, p: nat)
    requires IsPrime(p) && ShareSetOk(value, xs, ys, q, d, k, n, p)
    requires 0 <= d.lo && d.hi <= p && k <= n
    requires forall i, j :: 0 <= i < j < k ==> xs[i] != xs[j]
    ensures Reconstruct(xs, ys, k as nat, p) == Ok(value % p)
  {
    assert forall t :: 0 <= t < k ==> Contains(d, xs[t]);
    SharesReconstruct(value, q, xs, ys, k as nat, p);
  }

  class SecureShamir {
    /** The values to share, in ascending order. */
    const values: seq<int>
    /** The threshold: how many shares reconstruct a value. */
    const k: int
    /** The number of servers: how many shares each value gets. */
    const n: int
    /** The field prime. */
    const p: nat
    /** The x-coordinates of each stored share set. */
    var x: seq<seq<int>>
    /** The share values of each stored share set, aligned with x. */
    var shares: seq<seq<int>>
    /** The coefficients drawn for the latest value. */
    var quotients: seq<int>
    /** The domain of each value. */
    var domains: map<int, Domain>
    /** The random draws not yet consumed. */
    var rng: seq<Draw>
    /** The value and the coefficients behind each stored share set. */
    ghost var owners: seq<int>
    ghost var coeffs: seq<seq<int>>

    ghost predicate Valid()
      reads this
    {
      p > 1 && Sorted(values) && DomainsOk(values, domains, p)
      && StoreOk(x, shares, owners, coeffs, domains, k, n, p)
    }

    /** The values are sorted; no domain and no share exists yet. */
    constructor (values: seq<int>, k: int, n: int, p: nat, rng: seq<Draw>)
      requires p > 1
      ensures Valid()
      ensures this.values == SortAscending(values) && this.k == k && this.n == n && this.p == p && this.rng == rng
      ensures x == [] && shares == [] && quotients == [] && domains == map[]
    {
      this.values := SortAscending(values);
      this.k := k;
      this.n := n;
      this.p := p;
      this.rng := rng;
      x := [];
      shares := [];
      quotients := [];
      domains := map[];
      owners := [];
      coeffs := [];
    }

    /** splitDomain: one domain per value; dividing the field among no values
        fails. Splitting again changes no entry. */
    method SplitDomain() returns (r: Result<()>)
      requires Valid()
      modifies this`domains
      ensures Valid()
      ensures r.Ok? <==> |values| > 0
      ensures |values| == 0 ==> r == Err(DivisionByZero) && domains == old(domains)
      ensures |values| > 0 ==> r == Ok(()) && domains == Partition(values, p)
      ensures old(domains) != map[] ==> domains == old(domains)
    {
      if |values| == 0 {
        return Err(DivisionByZero);
      }
      var split := Split(p, |values|);
      var cur := 0;
      for i := 0 to |values|
        invariant cur == i * (split + 1)
        invariant domains == old(domains) + PartitionUpTo(values, i, split, p)
      {
        var hi := if p >= cur + split then cur + split else p;
        domains := domains[values[i] := Domain(cur, hi)];
        MulSucc(i, split + 1);
        cur := cur + (split + 1);
      }
      assert domains == Partition(values, p);
      r := Ok(());
    }

    /** generateFieldElement on the engine's stream: the next draw inside d. */
    method DrawFieldElement(d: Domain) returns (c: Option<int>)
      modifies this`rng
      ensures c.Some? ==> Sample(old(rng), d) == Some((c.value, rng)) && Contains(d, c.value)
      ensures c.None? ==> Sample(old(rng), d).None? && rng == []
    {
      var used;
      c, used := GenerateFieldElement(rng, d);
      rng := rng[used..];
    }

    /** The coefficient loop of buildValueShares: count draws inside d
        into a fresh array. */
    method DrawQuotients(count: nat, d: Domain) returns (r: Option<seq<int>>)
      modifies this`rng
      ensures r.Some? ==> SampleMany(old(rng), count, d) == Some((r.value, rng))
      ensures r.None? ==> SampleMany(old(rng), count, d).None? && rng == []
    {
      var qs := new int[count];
      for i := 0 to count
        invariant SampleMany(old(rng), i, d) == Some((qs[..i], rng))
      {
        ghost var cs, before := qs[..i], rng;
        var c := DrawFieldElement(d);
        if c.None? {
          SampleManyStop(old(rng), i, d, cs, before);
          SampleManyExhausted(old(rng), i + 1, count, d);
          return None;
        }
        SampleManyStep(old(rng), i, d, cs, before, c.value, rng);
        qs[i] := c.value;
        assert qs[..i + 1] == qs[..i] + [c.value];
      }
      assert qs[..count] == qs[..];
      r := Some(qs[..]);
    }

    /** One step of the x-coordinate loop of buildValueShares: the next
        draw inside d and the share value + valueInX(q, x) there. */
    method DrawSharePoint(value: int, q: seq<int>, d: Domain) returns (r: Option<(int, int)>)
      requires p > 1
      modifies this`rng
      ensures r.Some? ==> Sample(old(rng), d) == Some((r.value.0, rng))
      ensures r.Some? ==> r.value.1 == value + PowerSum(q, r.value.0, p, |q|)
      ensures r.None? ==> Sample(old(rng), d).None? && rng == []
    {
      var c := DrawFieldElement(d);
      if c.None? {
        return None;
      }
      var v := ValueInX(q, c.value, p);
      r := Some((c.value, value + v));
    }

    /** The x-coordinate loop of buildValueShares: count draws inside d
        and, for each, the share value + valueInX(q, x). */
    method DrawSharePoints(value: int, q: seq<int>, count: nat, d: Domain) returns (r: Option<(seq<int>, seq<int>)>)
      requires p > 1
      modifies this`rng
      ensures r.Some? ==> SampleMany(old(rng), count, d) == Some((r.value.0, rng))
      ensures r.Some? ==> r.value.1 == ShareValues(value, q, r.value.0, p)
      ensures r.None? ==> SampleMany(old(rng), count, d).None? && rng == []
    {
      var secret := new int[count];
      var shareValues := new int[count];
      ghost var xs: seq<int>, ys: seq<int> := [], [];
      for i := 0 to count
        invariant secret[..i] == xs && shareValues[..i] == ys
        invariant SampleMany(old(rng), i, d) == Some((xs, rng))
        invariant |ys| == i && forall t :: 0 <= t < i ==> ys[t] == value + PowerSum(q, xs[t], p, |q|)
      {
        ghost var before := rng;
        var pt := DrawSharePoint(value, q, d);
        if pt.None? {
          SampleManyStop(old(rng), i, d, xs, before);
          SampleManyExhausted(old(rng), i + 1, count, d);
          return None;
        }
        SampleManyStep(old(rng), i, d, xs, before, pt.value.0, rng);
        StorePair(secret, shareValues, i, pt.value.0, pt.value.1);
        xs, ys := xs + [pt.value.0], ys + [pt.value.1];
      }
      assert secret[..count] == secret[..] && shareValues[..count] == shareValues[..];
      ShareValuesPointwise(value, q, xs, ys, p);
      r := Some((secret[..], shareValues[..]));
    }

    /** buildValueShares: draw k - 1 coefficients and n x-coordinates in the
        value's domain, append the x-coordinates to x and return the share
        values; a negative array size fails first. */
    method BuildValueShares(value: int) returns (r: Result<seq<int>>)
      requires Valid() && value in domains
      modifies this`x, this`quotients, this`rng
      ensures n < 0 || k < 1 ==>
        r == Err(NegativeArraySize) && x == old(x) && quotients == old(quotients) && rng == old(rng)
      ensures n >= 0 && k >= 1 && ShareDraws(old(rng), k - 1, n, domains[value]).None? ==>
        r == Err(RandomnessExhausted) && x == old(x) && rng == []
      ensures n >= 0 && k >= 1 && ShareDraws(old(rng), k - 1, n, domains[value]).Some? ==>
        var (q, xs, rest) := ShareDraws(old(rng), k - 1, n, domains[value]).value;
        r == Ok(ShareValues(value, q, xs, p)) && quotients == q && x == old(x) + [xs] && rng == rest
    {
      if n < 0 || k < 1 {
        return Err(NegativeArraySize);
      }
      var d := domains[value];
      var qs := DrawQuotients(k - 1, d);
      if qs.None? {
        return Err(RandomnessExhausted);
      }
      quotients := qs.value;
      var pts := DrawSharePoints(value, quotients, n, d);
      if pts.None? {
        return Err(RandomnessExhausted);
      }
      x := x + [pts.value.0];
      r := Ok(pts.value.1);
    }

    /** One step of buildShares: build the share set of v and add it to
        shares, recording its owner and coefficients. */
    method AddValueShares(v: int) returns (r: Result<seq<int>>)
      requires Valid() && v in domains
      modifies this`x, this`quotients, this`rng, this`shares, this`owners, this`coeffs
      ensures Valid()
      ensures r.Err? ==> shares == old(shares) && x == old(x) && owners == old(owners)
      ensures n < 0 || k < 1 ==> r == Err(NegativeArraySize) && rng == old(rng)
      ensures n >= 0 && k >= 1 ==> (r.Ok? <==> ShareDraws(old(rng), k - 1, n, domains[v]).Some?)
      ensures n >= 0 && k >= 1 && ShareDraws(old(rng), k - 1, n, domains[v]).None? ==>
        r == Err(RandomnessExhausted) && rng == []
      ensures n >= 0 && k >= 1 && ShareDraws(old(rng), k - 1, n, domains[v]).Some? ==>
        var (q, xs, rest) := ShareDraws(old(rng), k - 1, n, domains[v]).value;
        r == Ok(ShareValues(v, q, xs, p)) && quotients == q && rng == rest
        && x == old(x) + [xs] && shares == old(shares) + [r.value] && owners == old(owners) + [v]
    {
      ghost var x0 := x;
      r := BuildValueShares(v);
      if r.Err? {
        return;
      }
      ghost var xs := x[|x| - 1];
      assert x == x0 + [xs];
      StoreAppend(x0, shares, owners, coeffs, domains, k, n, p, xs, r.value, v, quotients);
      shares := shares + [r.value];
      owners := owners + [v];
      coeffs := coeffs + [quotients];
    }

    /** The stored lists hold, after shares0 and x0, the share sets ShareSets
        builds from draws for the first i values, and the stream is what it left. */
    ghost predicate Chained(draws: seq<Draw>, i: nat, shares0: seq<seq<int>>, x0: seq<seq<int>>)
      reads this
      requires p > 0 && k >= 1 && n >= 0 && i <= |values|
      requires forall t :: 0 <= t < |values| ==> values[t] in domains
    {
      var c := ShareSets(draws, values, i, k - 1, n, domains, p);
      c.Some? && shares == shares0 + c.value.2 && x == x0 + c.value.1 && rng == c.value.3
    }

    /** After shares0, x0 and owners0, the stored lists hold exactly the
        share sets of the first i values. */
    ghost predicate Stored(shares0: seq<seq<int>>, x0: seq<seq<int>>, owners0: seq<int>, i: nat)
      reads this
      requires i <= |values|
    {
      shares0 <= shares && x0 <= x && |shares| == |shares0| + i && owners == owners0 + values[..i]
    }

    /** One iteration of the loop of buildShares: the share set of values[i]
        extends the chain, or the stream runs out and nothing more is stored. */
    method AddNextValueShares(ghost draws: seq<Draw>, ghost shares0: seq<seq<int>>, ghost x0: seq<seq<int>>,
                              ghost owners0: seq<int>, i: nat)
      returns (r: Result<seq<int>>)
      requires Valid() && n >= 0 && k >= 1 && i < |values| && domains == Partition(values, p)
      requires Stored(shares0, x0, owners0, i) && Chained(draws, i, shares0, x0)
      modifies this`x, this`quotients, this`rng, this`shares, this`owners, this`coeffs
      ensures Valid()
      ensures r.Ok? ==> Stored(shares0, x0, owners0, i + 1) && Chained(draws, i + 1, shares0, x0)
      ensures r.Err? ==> Stored(shares0, x0, owners0, i) && r == Err(RandomnessExhausted) && rng == []
      ensures r.Err? ==> ShareSets(draws, values, i + 1, k - 1, n, domains, p).None?
    {
      ghost var c := ShareSets(draws, values, i, k - 1, n, domains, p).value;
      ghost var next := ShareDraws(rng, k - 1, n, domains[values[i]]);
      assert rng == c.3;
      r := AddValueShares(values[i]);
      if r.Err? {
        assert next.None?;
        ShareSetsStop(draws, values, i, k - 1, n, domains, p, c);
        return;
      }
      ghost var dr := next.value;
      ShareSetsStep(draws, values, i, k - 1, n, domains, p, c, dr);
      AppendToExtension(shares0, c.2, old(shares), r.value);
      AppendToExtension(x0, c.1, old(x), dr.1);
      AppendToExtension(owners0, values[..i], old(owners), values[i]);
      PrefixExtend(values, i);
    }

    /** The loop of buildShares: build and store one share set per sorted
        value, in order, stopping at the first failure. */
    method AddAllValueShares() returns (r: Result<()>)
      requires Valid() && |values| > 0 && n >= 0 && k >= 1 && domains == Partition(values, p)
      modifies this`x, this`quotients, this`rng, this`shares, this`owners, this`coeffs
      ensures Valid()
      ensures old(shares) <= shares && old(x) <= x
      ensures |shares| - |old(shares)| <= |values|
      ensures owners == old(owners) + values[..|shares| - |old(shares)|]
      ensures r.Ok? ==> Chained(old(rng), |values|, old(shares), old(x))
      ensures r.Err? ==> r == Err(RandomnessExhausted) && rng == [] && ShareSets(old(rng), values, |values|, k - 1, n, domains, p).None?
    {
      for i := 0 to |values|
        invariant Valid()
        invariant Stored(old(shares), old(x), old(owners), i) && Chained(old(rng), i, old(shares), old(x))
      {
        var ys := AddNextValueShares(old(rng), old(shares), old(x), old(owners), i);
        if ys.Err? {
          ShareSetsExhausted(old(rng), values, i + 1, |values|, k - 1, n, domains, p);
          return Err(ys.error);
        }
      }
      r := Ok(());
    }

    /** buildShares: split the field, then build and store one share set per
        sorted value, in order; a failure leaves the sets stored so far. */
    method BuildShares() returns (r: Result<seq<seq<int>>>)
      requires Valid()
      modifies this`domains, this`x, this`quotients, this`rng, this`shares, this`owners, this`coeffs
      ensures Valid()
      ensures |values| == 0 ==> r == Err(DivisionByZero) && domains == old(domains) && shares == old(shares)
      ensures |values| > 0 ==> domains == Partition(values, p)
      ensures old(shares) <= shares && old(x) <= x
      ensures |shares| - |old(shares)| <= |values|
      ensures owners == old(owners) + values[..|shares| - |old(shares)|]
      ensures |values| > 0 && (n < 0 || k < 1) ==> r == Err(NegativeArraySize) && shares == old(shares)
      ensures |values| > 0 && n >= 0 && k >= 1 && ShareSets(old(rng), values, |values|, k - 1, n, Partition(values, p), p).Some? ==>
        var (qss, xss, yss, rest) := ShareSets(old(rng), values, |values|, k - 1, n, Partition(values, p), p).value;
        r == Ok(shares) && shares == old(shares) + yss && x == old(x) + xss && rng == rest
      ensures |values| > 0 && n >= 0 && k >= 1 && ShareSets(old(rng), values, |values|, k - 1, n, Partition(values, p), p).None? ==>
        r == Err(RandomnessExhausted) && rng == []
      ensures r.Err? ==>
        (|values| == 0 && r == Err(DivisionByZero)) || ((n < 0 || k < 1) && r == Err(NegativeArraySize))
        || (r == Err(RandomnessExhausted) && rng == [])
      ensures r.Ok? ==> r.value == shares && |shares| == |old(shares)| + |values|
    {
      var split := SplitDomain();
      if split.Err? {
        assert values[..0] == [];
        return Err(split.error);
      }
      if n < 0 || k < 1 {
        assert values[..0] == [];
        var ys := AddValueShares(values[0]);
        return Err(ys.error);
      }
      var stored := AddAllValueShares();
      if stored.Err? {
        return Err(stored.error);
      }
      r := Ok(shares);
    }

    /** reconstructSecretValue for the stored share set at index entry (the
        source finds it by identity); a set that was never stored fails. */
    method ReconstructSecretValue(entry: int) returns (r: Result<int>)
      requires Valid()
      ensures !(0 <= entry < |shares|) ==> r == Err(IndexOutOfBounds)
      ensures 0 <= entry < |shares| ==> k >= 1 && r == Reconstruct(x[entry], shares[entry], k as nat, p)
    {
      if !(0 <= entry < |shares|) {
        return Err(IndexOutOfBounds);
      }
      assert ShareSetOk(owners[entry], x[entry], shares[entry], coeffs[entry], domains[owners[entry]], k, n, p);
      r := ReconstructSecret(x[entry], shares[entry], k as nat, p);
    }

    /** A stored share set whose first k x-coordinates are pairwise distinct
        reconstructs to its value mod p, when p is prime and k <= n. */
    lemma StoredSetReconstructs(e: int)
      requires Valid() && IsPrime(p) && 0 <= e < |shares| && k <= n
      requires forall i, j :: 0 <= i < j < k ==> x[e][i] != x[e][j]
      ensures Reconstruct(x[e], shares[e], k as nat, p) == Ok(owners[e] % p)
    {
      var v := owners[e];
      assert v in domains && ShareSetOk(v, x[e], shares[e], coeffs[e], domains[v], k, n, p);
      PartitionWithinField(values, p, v);
      ShareSetReconstructs(v, x[e], shares[e], coeffs[e], domains[v], k, n, p);
    }
  }
}
