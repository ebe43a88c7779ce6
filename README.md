# SecureShamir in Dafny

A model of `SecureShamir`, a Shamir-style threshold secret-sharing engine over the integers modulo a prime `p`, with proofs about it. The engine has four parts:

1. **Constructor.** It sorts the integer values to share. It stores the threshold `k` and the server count `n`, and starts with empty lists of x-coordinates (`x`) and of share sets (`shares`).
2. **Domain split** (`splitDomain`). It cuts the field `[0, p)` into one domain per value, with `split = p / count`. The i-th sorted value's domain is the half-open interval from `i * (split + 1)` to `i * (split + 1) + split`, with the upper bound clamped to `p` when it would exceed `p`. A domain is therefore at most `split` wide, and can be narrower or even empty near the top of the field. The cursor moves by `split + 1`, so one field element after every domain belongs to no domain.
3. **Share building** (`buildShares`, `buildValueShares`, `valueInX`). For each sorted value it:
   - draws `k - 1` coefficients and `n` x-coordinates inside the value's domain by rejection sampling;
   - returns the share values `value + Σ q[j] · (x^(j+1) mod p)`, leaving the sum unreduced.
4. **Reconstruction** (`reconstructSecretValue`). It runs Lagrange interpolation at zero over the first `k` points of a stored share set and reduces the result modulo `p` once at the end.

## Modules

| file | module | what it holds |
|---|---|---|
| `wrappers.dfy` | `Wrappers` | `Option`, `Result`, and the `Error` kinds that stand for the Java exceptions |
| `modarith.dfy` | `ModArith` | `Pow`, `ModPow`, primality, Bezout, and the modular inverse (`BigInteger.modInverse`) with its uniqueness and existence |
| `sorting.dfy` | `Sorting` | the ascending order `Arrays.sort` produces, and the uniqueness of a sorted permutation |
| `sampling.dfy` | `Sampling` | rejection sampling on a stream of 128-bit draws (`generateFieldElement`) |
| `domains.dfy` | `DomainSplit` | the domain partition and its layout (bounds, disjointness, the gaps) |
| `shares.dfy` | `ShareEval` | `valueInX` and its agreement with the sharing polynomial modulo `p` |
| `polynomials.dfy` | `Polynomials` | integer polynomials, synthetic division, and the factor theorem modulo a prime |
| `lagrange.dfy` | `Lagrange` | the two reconstruction loops, their specification, and the correctness theorem |
| `sequences.dfy` | `Sequences` | prefix facts for the loops, and the paired array store of the x-coordinate loop |
| `engine.dfy` | `Engine` | the `SecureShamir` class: its fields, `splitDomain`, `buildValueShares`, `buildShares`, `reconstructSecretValue` |

### How the model handles the environment

- **The field prime `p`** is a constructor parameter with `p > 1`. The correctness theorems also require `IsPrime(p)`.
- **Randomness.** The engine reads from a finite stream of draws, each below 2^128, passed to the constructor. A rejection loop that runs off the end of the stream returns `Err(RandomnessExhausted)`; in Java it would keep drawing forever.
- **Java exceptions** become `Err` results:

  | Java exception | `Err` value |
  |---|---|
  | `ArithmeticException` from dividing by zero values | `DivisionByZero` |
  | `NegativeArraySizeException` when `Integer.MIN_VALUE < k < 1` or `n < 0` | `NegativeArraySize` |
  | `ArithmeticException` from `modInverse` | `NotInvertible` |
  | `IndexOutOfBoundsException` when reading past `n` shares, or `x.get(-1)` for a share set that was never stored | `IndexOutOfBounds` |

### Where the code is followed

The code does not validate `values`, `k` or `n` when the engine is constructed. The model follows the code: each bad parameter fails at the first operation that trips over it, with the Java exception named above.

`values`, `k` and `n` are assigned only by the constructor, so the model declares them as constant fields.

Two further behaviours are reproduced as written:
- the share value is left unreduced;
- the one-element gap follows each domain.

Reconstruction returns `value mod p`, as the correctness lemmas state. For a negative `int` value, the result is therefore `p + value`.

## Model

| member | source | states |
|---|---|---|
| Engine.SecureShamir.constructor | src/org/marianilascu/secureshamir/SecureShamir.java:61-72 | the values are stored in ascending order (a sorted permutation of the input); k, n, p are stored; x, shares, quotients and the domain map start empty; the class invariant holds |
| Sorting.SortAscending | src/org/marianilascu/secureshamir/SecureShamir.java:62 | the result is sorted and has exactly the elements of the input, with multiplicity |
| Sorting.SortedPermutationUnique | src/org/marianilascu/secureshamir/SecureShamir.java:62 | two sorted sequences with the same elements are equal, so every sorting algorithm leaves the values as SortAscending does |
| Engine.SecureShamir.SplitDomain | src/org/marianilascu/secureshamir/SecureShamir.java:143-163 | succeeds exactly when there are values; with none it fails with division by zero and changes nothing; otherwise the domain map becomes the partition of the sorted values; a second call leaves every entry unchanged |
| DomainSplit.PartitionKeys | src/org/marianilascu/secureshamir/SecureShamir.java:147-157 | the keys of the domain map are exactly the values |
| DomainSplit.PartitionLastWins | src/org/marianilascu/secureshamir/SecureShamir.java:149-157 | a value gets the domain of its last position i in the sorted values, with lower bound i * (split + 1); an earlier equal value's entry is overwritten |
| DomainSplit.PartitionEntries | src/org/marianilascu/secureshamir/SecureShamir.java:147-157 | every entry of the map is the domain of some position that holds its key |
| DomainSplit.DomainWithinField | src/org/marianilascu/secureshamir/SecureShamir.java:149-155 | every domain starts at or above 0, ends at or below p, and is at most split wide |
| DomainSplit.DomainsOrdered | src/org/marianilascu/secureshamir/SecureShamir.java:151-160 | a later domain starts strictly after an earlier one ends |
| DomainSplit.DomainsDisjoint | src/org/marianilascu/secureshamir/SecureShamir.java:151-160 | domains of distinct positions share no element |
| DomainSplit.PartitionDisjoint | src/org/marianilascu/secureshamir/SecureShamir.java:147-160 | the domains the map gives two distinct values share no element |
| DomainSplit.PartitionWithinField | src/org/marianilascu/secureshamir/SecureShamir.java:147-157 | every domain in the map lies inside the field [0, p) |
| DomainSplit.GapUncovered | src/org/marianilascu/secureshamir/SecureShamir.java:152-160 | the element lo + split right after a domain belongs to no domain |
| DomainSplit.DomainsNonEmpty | src/org/marianilascu/secureshamir/SecureShamir.java:144-155 | when count <= p / count, every domain holds at least one element, so sampling in it can succeed |
| Sampling.Sample | src/org/marianilascu/secureshamir/SecureShamir.java:205-211 | a draw inside the domain [lo, hi), returned with the draws that follow it in the stream, the returned draw being the one just before them |
| Sampling.SampleFirst | src/org/marianilascu/secureshamir/SecureShamir.java:205-211 | the draw Sample returns is the first in-range draw of the stream: every draw before it is out of range; Sample fails exactly when no draw of the stream lies in [lo, hi) |
| Sampling.GenerateFieldElement | src/org/marianilascu/secureshamir/SecureShamir.java:205-211 | the returned element lies in [lo, hi) and is the last draw consumed; every draw rejected before it was out of range; with hi <= lo nothing is ever returned; agrees with Sample |
| Sampling.SampleMany | src/org/marianilascu/secureshamir/SecureShamir.java:122-134 | count accepted draws, each in [lo, hi), in stream order; none when the domain is empty and count > 0 |
| Sampling.SampleManyExhausted | src/org/marianilascu/secureshamir/SecureShamir.java:122-134 | once the stream runs out, asking for more elements fails too |
| Engine.SecureShamir.DrawFieldElement | src/org/marianilascu/secureshamir/SecureShamir.java:205-211 | the engine's stream advances past the accepted draw, which lies in [lo, hi); on exhaustion the stream is empty |
| Engine.SecureShamir.DrawQuotients | src/org/marianilascu/secureshamir/SecureShamir.java:122-125 | the coefficient loop yields exactly the next count in-range draws and leaves the rest of the stream |
| Engine.SecureShamir.DrawSharePoint | src/org/marianilascu/secureshamir/SecureShamir.java:131-134 | one x-coordinate is the next in-range draw, and its share value is value + valueInX(q, x) |
| Engine.SecureShamir.DrawSharePoints | src/org/marianilascu/secureshamir/SecureShamir.java:131-134 | the x-coordinate loop yields the next count in-range draws, and the share values value + valueInX(q, x_t) at each of them |
| ShareEval.ValueInX | src/org/marianilascu/secureshamir/SecureShamir.java:171-183 | the result is the sum of q[j] * (x^(j+1) mod p), with no final reduction; it is 0 when there are no coefficients (k = 1) |
| ModArith.ModPow | src/org/marianilascu/secureshamir/SecureShamir.java:176 | BigInteger.modPow: x^e reduced into [0, p) |
| ShareEval.ShareIsPolynomial | src/org/marianilascu/secureshamir/SecureShamir.java:133 | a share value agrees modulo p with the polynomial value + q[0]·x + … + q[k-2]·x^(k-1) at x |
| Engine.ShareDraws | src/org/marianilascu/secureshamir/SecureShamir.java:122-134 | the draws of one share set: k - 1 coefficients, then n x-coordinates, all inside the value's domain |
| Engine.SecureShamir.BuildValueShares | src/org/marianilascu/secureshamir/SecureShamir.java:113-138 | fails with a negative array size when k < 1 or n < 0 and changes nothing; on exhaustion x is unchanged; otherwise the coefficients are the next k - 1 in-domain draws, one x array of n in-domain draws is appended to x, and the result is the share values at those x |
| Engine.SecureShamir.AddValueShares | src/org/marianilascu/secureshamir/SecureShamir.java:78 | fails with a negative array size when k < 1 or n < 0, leaving the stream as it was; otherwise succeeds exactly when the stream holds the k - 1 coefficients and n x-coordinates of the value's domain (ShareDraws), and fails with exhaustion and an empty stream when it does not; on success the share values at those draws are appended to shares, the x array to x and the value to the owners, keeping the invariant; a failure stores nothing |
| Engine.ShareSetsExhausted | src/org/marianilascu/secureshamir/SecureShamir.java:77-79 | once the stream cannot supply the share set of some value, the share sets of all the values cannot be built either |
| Engine.SecureShamir.AddNextValueShares | src/org/marianilascu/secureshamir/SecureShamir.java:77-79 | one loop iteration: if the share sets of the first i values are stored (ShareSets), either the set of the next value is appended and the first i + 1 are stored, or the stream is exhausted, nothing more is stored and ShareSets of i + 1 values fails |
| Engine.SecureShamir.AddAllValueShares | src/org/marianilascu/secureshamir/SecureShamir.java:77-79 | the loop stores the share sets of the sorted values in order, stopping at the first failure (for k >= 1 and n >= 0; otherwise BuildShares stops at the first AddValueShares call, which fails with a negative array size); it succeeds exactly when ShareSets of all the values does, and then the stored lists grow by ShareSets' share values and x arrays and the stream is what ShareSets leaves; on failure the stream is exhausted |
| Engine.SecureShamir.BuildShares | src/org/marianilascu/secureshamir/SecureShamir.java:74-82 | splits the field, then appends one share set per sorted value in order; fails with division by zero when there are no values and with a negative array size when k < 1 or n < 0; otherwise succeeds exactly when the stream supplies every value's draws in turn (ShareSets), and then shares and x grow by exactly the sets ShareSets builds and the whole shares list is returned; it fails with exhaustion, the stream empty, exactly when ShareSets fails; every failure is one of these three; the owners of the new sets are the values in order |
| Lagrange.Reconstruct | src/org/marianilascu/secureshamir/SecureShamir.java:89-107 | the result lies in [0, p); it fails exactly when fewer than k points exist or some difference of two of the first k x-coordinates has no inverse |
| Lagrange.ReconstructSecret | src/org/marianilascu/secureshamir/SecureShamir.java:91-106 | the two accumulator loops (secret, prod) compute Reconstruct |
| Engine.SecureShamir.ReconstructSecretValue | src/org/marianilascu/secureshamir/SecureShamir.java:89-107 | for a share set that was never stored it fails with an index error; otherwise it reconstructs from that set's own x-coordinates |
| Lagrange.ReconstructReadsFirstK | src/org/marianilascu/secureshamir/SecureShamir.java:93-103 | reconstruction depends only on the first k x-coordinates and share values |
| Lagrange.ReconstructFailsIff | src/org/marianilascu/secureshamir/SecureShamir.java:99 | modulo a prime, reconstruction fails exactly when two of the first k x-coordinates are congruent modulo p |
| Lagrange.InvertibleIffDistinct | src/org/marianilascu/secureshamir/SecureShamir.java:96-101 | modulo a prime, every denominator x_j - x_i of the first k points has an inverse exactly when those points are pairwise distinct modulo p |
| ModArith.InverseSpec | src/org/marianilascu/secureshamir/SecureShamir.java:99 | modInverse finds an inverse in [0, p) exactly when one exists |
| ModArith.InverseUnique | src/org/marianilascu/secureshamir/SecureShamir.java:99 | the inverse in [0, p) is unique, so the searched inverse is the one BigInteger.modInverse returns |
| ModArith.InvertibleIffNonzero | src/org/marianilascu/secureshamir/SecureShamir.java:99 | modulo a prime, an element is invertible exactly when it is not congruent to zero |
| ModArith.NoZeroDivisors | src/org/marianilascu/secureshamir/SecureShamir.java:99 | modulo a prime, a product congruent to zero has a factor congruent to zero |
| Lagrange.BasisAtOwnPoint | src/org/marianilascu/secureshamir/SecureShamir.java:94-101 | the i-th basis product is 1 modulo p at its own x-coordinate |
| Lagrange.BasisAtOtherPoint | src/org/marianilascu/secureshamir/SecureShamir.java:94-101 | the i-th basis product is 0 at every other x-coordinate |
| Lagrange.InterpPolyEval | src/org/marianilascu/secureshamir/SecureShamir.java:93-104 | the interpolation sum is the value of a polynomial with at most k coefficients |
| Polynomials.VanishesEverywhere | src/org/marianilascu/secureshamir/SecureShamir.java:89-107 | factor theorem modulo a prime: a polynomial with no more coefficients than it has pairwise distinct roots is zero everywhere |
| Lagrange.LagrangeCorrect | src/org/marianilascu/secureshamir/SecureShamir.java:89-107 | p prime, the first k x-coordinates pairwise distinct modulo p, and each share congruent to the polynomial with constant term value: reconstruction returns value mod p |
| Engine.SharesReconstruct | src/org/marianilascu/secureshamir/SecureShamir.java:131-134 | share values built as value + valueInX(q, x_t) at k distinct field elements reconstruct to value mod p |
| Engine.SecureShamir.StoredSetReconstructs | src/org/marianilascu/secureshamir/SecureShamir.java:74-138 | every share set buildShares stored reconstructs to its own value mod p, when p is prime, k <= n and its first k x-coordinates differ |

## Left out

- **generatePrime** (`SecureShamir.java:190-198`): it is a probabilistic search through foreign library calls. The prime `p` is a constructor parameter instead, and the 128-bit size of `BIT_LENGTH` is not enforced.
- **`java.util.Random`**: replaced by a finite stream of draws below 2^128 given to the constructor. Java's rejection loop never ends on an empty domain. The model returns `Err(RandomnessExhausted)` when the stream runs out instead.
- **`System.out.println` diagnostics** (lines 71, 118, 124): logging only.
- **`Main.java`** is not part of this model.
- **Secrecy**: the claim that fewer than k shares reveal nothing is probabilistic and is not stated.
- **Engine.SecureShamir.ReconstructSecretValue: identity lookup.** The source finds the share set by identity lookup in `shares` (`indexOf`). The model takes the index of the stored set instead, and a missing set gives `IndexOutOfBounds`, as `x.get(-1)` throws.
- **Lagrange.ReconstructSecret: exception order.** When `k` exceeds the number of points, it reports `IndexOutOfBounds` before anything else. Java might first throw from `modInverse` on an earlier coincident pair. Both are failures, but which exception comes first is not modelled.
- **Engine.SecureShamir.BuildValueShares: exhaustion part-way through.** When the stream runs out part-way, the model does not state the contents of `quotients`. Java's `quotients` array would then hold a partly filled array.
- **Engine.SecureShamir.BuildShares: aliasing.** It returns the shares as a value. Java returns the live `shares` list, so later changes show through to the caller; that aliasing is not modelled.
- **Engine.SecureShamir.constructor: in-place sort.** The model stores a sorted copy of the values. Java sorts the caller's `values` array in place and keeps a reference to it (lines 62-63), so the caller sees its array reordered and later writes to it reach the engine; that aliasing is not modelled.
- **Engine.SecureShamir.constructor: sorting algorithm.** `Arrays.sort` is modelled by an insertion-sort function. Sorting.SortedPermutationUnique shows that the result does not depend on the algorithm.
- **Engine.SecureShamir.BuildValueShares: 32-bit width.** `values`, `k` and `n` are Java `int` fields (lines 18, 23, 28); the model makes them unbounded integers. The only place where the width changes behaviour is `k - 1` at line 115. With `k = Integer.MIN_VALUE` and `n >= 0`, `k - 1` wraps to `Integer.MAX_VALUE`, and Java fails allocating the array (`OutOfMemoryError`) instead of throwing `NegativeArraySizeException`. The model returns `Err(NegativeArraySize)` for that input. The share values and the reconstruction are `BigInteger` and unaffected.
