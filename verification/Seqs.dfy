/** Slices of sequences. */
module Seqs {

  /** A slice of a slice. */
  lemma Nested<T>(s: seq<T>, a: nat, b: nat, c: nat, d: nat)
    requires a <= b <= |s| && c <= d <= b - a
    ensures s[a..b][c..d] == s[a + c..a + d]
  {
    forall x | 0 <= x < d - c ensures s[a..b][c..d][x] == s[a + c..a + d][x] {
      assert s[a..b][c..d][x] == s[a..b][c + x];
    }
  }

  /** Slices that follow each other are one. */
  lemma Joined<T>(s: seq<T>, a: nat, b: nat, c: nat, d: nat)
    requires a <= b <= c <= d <= |s|
    ensures s[a..d] == s[a..b] + s[b..c] + s[c..d]
  {
  }
}
