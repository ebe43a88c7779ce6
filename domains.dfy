/** The domain partition of splitDomain (SecureShamir.java:143-163): the
    field [0, p) is cut into one half-open interval per sorted value, each at
    most split = p / count wide, its upper bound clamped to p. The cursor
    advances by split + 1, so one element after every interval belongs to no
    domain. */
module DomainSplit {

  /** The half-open interval [lo, hi) stored as limits[0], limits[1]. */
  datatype Domain = Domain(lo: int, hi: int)

  predicate Contains(d: Domain, c: int)
  {
    d.lo <= c < d.hi
  }

  /** The bounds the i-th sorted value receives: the cursor reaches
      i * (split + 1); the upper bound is lo + split unless that exceeds p
      strictly, in which case it is p. */
  function DomainAt(i: nat, split: nat, p: nat): Domain
  {
    var lo := i * (split + 1);
    Domain(lo, if p >= lo + split then lo + split else p)
  }

  /** The map after the puts for values[0..m), a later put of an equal value
      replacing the earlier entry, as Hashtable.put does. */
  function PartitionUpTo(values: seq<int>, m: nat, split: nat, p: nat): map<int, Domain>
    requires m <= |values|
  {
    if m == 0 then map[]
    else PartitionUpTo(values, m - 1, split, p)[values[m - 1] := DomainAt(m - 1, split, p)]
  }

  /** The largest width of a domain, reached unless the upper bound is
      clamped to p: BigInteger.divide, which truncates; p and count are
      non-negative, so Dafny's division agrees. */
  function Split(p: nat, count: nat): nat
    requires count > 0
  {
    p / count
  }

  /** The domain map splitDomain builds: every value has an entry. */
  function Partition(values: seq<int>, p: nat): (r: map<int, Domain>)
    requires |values| > 0
    ensures forall i :: 0 <= i < |values| ==> values[i] in r
  {
    PartitionHasValues(values, |values|, Split(p, |values|), p);
    PartitionUpTo(values, |values|, Split(p, |values|), p)
  }

  lemma PartitionHasValues(values: seq<int>, m: nat, split: nat, p: nat)
    requires m <= |values|
    ensures forall i :: 0 <= i < m ==> values[i] in PartitionUpTo(values, m, split, p)
  {
    PartitionKeys(values, m, split, p);
    forall i | 0 <= i < m ensures values[i] in PartitionUpTo(values, m, split, p) {
      assert values[..m][i] == values[i];
    }
  }

  /** Exactly the values are keys of the partition. */
  lemma {:induction false} PartitionKeys(values: seq<int>, m: nat, split: nat, p: nat)
    requires m <= |values|
    ensures forall v :: v in PartitionUpTo(values, m, split, p) <==> v in values[..m]
  {
    if m > 0 {
      PartitionKeys(values, m - 1, split, p);
      assert values[..m] == values[..m - 1] + [values[m - 1]];
    }
  }

  /** A value gets the domain of its last position in the sorted values. */
  lemma {:induction false} PartitionLastWins(values: seq<int>, m: nat, split: nat, p: nat, i: nat)
    requires i < m <= |values|
    requires forall j :: i < j < m ==> values[j] != values[i]
    ensures values[i] in PartitionUpTo(values, m, split, p)
    ensures PartitionUpTo(values, m, split, p)[values[i]] == DomainAt(i, split, p)
  {
    if i < m - 1 {
      PartitionLastWins(values, m - 1, split, p, i);
    }
  }

  /** Every entry of the partition is the domain of some position of its key. */
  lemma {:induction false} PartitionEntries(values: seq<int>, m: nat, split: nat, p: nat, v: int)
    requires m <= |values|
    requires v in PartitionUpTo(values, m, split, p)
    ensures exists i :: 0 <= i < m && values[i] == v && PartitionUpTo(values, m, split, p)[v] == DomainAt(i, split, p)
  {
    if values[m - 1] != v {
      PartitionEntries(values, m - 1, split, p, v);
    }
  }

  /** Every domain starts at or above 0, ends at or below p, and is at most split wide. */
  lemma DomainWithinField(i: nat, split: nat, p: nat)
    ensures 0 <= DomainAt(i, split, p).lo
    ensures DomainAt(i, split, p).hi <= p
    ensures DomainAt(i, split, p).hi <= DomainAt(i, split, p).lo + split
  {
  }

  lemma MulMonotone(a: nat, b: nat, c: nat)
    requires a <= b
    ensures a * c <= b * c
  {
  }

  /** A later domain starts strictly after an earlier one ends. */
  lemma DomainsOrdered(i: nat, j: nat, split: nat, p: nat)
    requires i < j
    ensures DomainAt(i, split, p).hi < DomainAt(j, split, p).lo
  {
    MulMonotone(i + 1, j, split + 1);
  }

  /** Domains of distinct positions share no element. */
  lemma DomainsDisjoint(i: nat, j: nat, split: nat, p: nat, c: int)
    requires i != j
    ensures !(Contains(DomainAt(i, split, p), c) && Contains(DomainAt(j, split, p), c))
  {
    if i < j {
      DomainsOrdered(i, j, split, p);
    } else {
      DomainsOrdered(j, i, split, p);
    }
  }

  /** The element lo + split right after the i-th domain lies in no domain. */
  lemma GapUncovered(i: nat, j: nat, split: nat, p: nat)
    ensures !Contains(DomainAt(j, split, p), DomainAt(i, split, p).lo + split)
  {
    if i < j {
      MulMonotone(i + 1, j, split + 1);
    } else {
      MulMonotone(j, i, split + 1);
    }
  }

  /** When there are no more values than the width of one domain (count * count <= p,
      as for a handful of values in a 128-bit field), every domain is non-empty. */
  lemma DomainsNonEmpty(i: nat, count: nat, p: nat)
    requires 0 < count <= Split(p, count) && i < count
    ensures DomainAt(i, Split(p, count), p).lo < DomainAt(i, Split(p, count), p).hi
  {
    var split := Split(p, count);
    MulMonotone(i, count - 1, split + 1);
    assert (count - 1) * (split + 1) == count * split - split + count - 1;
    assert count * split <= p;
  }

  /** Every domain of the partition lies inside the field [0, p). */
  lemma PartitionWithinField(values: seq<int>, p: nat, v: int)
    requires |values| > 0 && v in Partition(values, p)
    ensures 0 <= Partition(values, p)[v].lo && Partition(values, p)[v].hi <= p
  {
    PartitionEntries(values, |values|, Split(p, |values|), p, v);
    var i :| 0 <= i < |values| && values[i] == v && Partition(values, p)[v] == DomainAt(i, Split(p, |values|), p);
    DomainWithinField(i, Split(p, |values|), p);
  }

  /** The domains of two distinct values share no element. */
  lemma PartitionDisjoint(values: seq<int>, p: nat, v: int, w: int, c: int)
    requires |values| > 0 && v in Partition(values, p) && w in Partition(values, p) && v != w
    ensures !(Contains(Partition(values, p)[v], c) && Contains(Partition(values, p)[w], c))
  {
    var split := Split(p, |values|);
    PartitionEntries(values, |values|, split, p, v);
    PartitionEntries(values, |values|, split, p, w);
    var i :| 0 <= i < |values| && values[i] == v && Partition(values, p)[v] == DomainAt(i, split, p);
    var j :| 0 <= j < |values| && values[j] == w && Partition(values, p)[w] == DomainAt(j, split, p);
    DomainsDisjoint(i, j, split, p, c);
  }
}
