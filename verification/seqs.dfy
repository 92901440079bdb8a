/** Facts about sequences that the solver finds only by chance. */
module Seqs {

  lemma Assoc<T>(a: seq<T>, b: seq<T>, c: seq<T>)
    ensures a + (b + c) == (a + b) + c && a + [] == a
  {}

  lemma SliceOfSlice<T>(s: seq<T>, a: nat, b: nat, i: nat, j: nat)
    requires a <= b <= |s| && i <= j <= b - a
    ensures s[a..b][i..j] == s[a + i..a + j]
  {
    forall k | 0 <= k < j - i
      ensures s[a..b][i..j][k] == s[a + i..a + j][k]
    {
      assert s[a..b][i + k] == s[a + i + k];
    }
  }

  /** Sequences that agree on a stretch have the same slice there. */
  lemma SameSlice<T>(s: seq<T>, t: seq<T>, a: nat, b: nat)
    requires a <= b <= |s| && b <= |t|
    requires forall i :: a <= i < b ==> s[i] == t[i]
    ensures s[a..b] == t[a..b]
  {}

  lemma ConcatAt<T>(s: seq<T>, t: seq<T>, i: nat)
    requires i < |s| + |t|
    ensures (s + t)[i] == if i < |s| then s[i] else t[i - |s|]
  {}
}
