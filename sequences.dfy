/** Facts about sequence prefixes that the loops of the engine use, and the
    paired array store of the x-coordinate loop. */
module Sequences {

  /** The prefix of length i + 1 is the prefix of length i followed by s[i]. */
  lemma PrefixExtend<T>(s: seq<T>, i: nat)
    requires i < |s|
    ensures s[..i + 1] == s[..i] + [s[i]]
  {
  }

  /** Appending to a sequence that extends a base extends the base by the longer tail. */
  lemma AppendToExtension<T>(base: seq<T>, tail: seq<T>, s: seq<T>, y: T)
    requires s == base + tail
    ensures s + [y] == base + (tail + [y])
  {
  }

  /** Stores x at a[i] and y at b[i]: the prefix of each array up to i grows by that element. */
  method StorePair(a: array<int>, b: array<int>, i: nat, x: int, y: int)
    requires a != b && i < a.Length && i < b.Length
    modifies a, b
    ensures a[..i + 1] == old(a[..i]) + [x] && b[..i + 1] == old(b[..i]) + [y]
  {
    a[i], b[i] := x, y;
    assert a[..i + 1] == old(a[..i]) + [x];
  }
}
