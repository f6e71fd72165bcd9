/** Small facts about sequences that the scenario proofs use to tell
    literal keys apart. */
module Literals {
  /** Sequences that differ at one position differ, and neither is a
      prefix of the other. */
  lemma DifferAt(a: string, b: string, i: nat)
    requires i < |a| && i < |b| && a[i] != b[i]
    ensures a != b && !(a <= b)
  {
    if |a| <= |b| {
      assert b[..|a|][i] == b[i];
    }
  }

  /** A sequence with a non-empty prefix `p` starts with `p`'s first element. */
  lemma PrefixHead(p: string, s: string)
    requires |p| > 0 && p <= s
    ensures |s| > 0 && s[0] == p[0]
  {
    assert s[..|p|][0] == s[0];
  }

  /** Two singletons before a sequence are the pair before it. */
  lemma PairThen<T>(x: T, y: T, b: seq<T>)
    ensures [x] + [y] + b == [x, y] + b
  {
  }
}
