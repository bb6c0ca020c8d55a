/** Facts about sequences that the proofs call by name. */
module Sequences {
  lemma Associative<T>(a: seq<T>, b: seq<T>, c: seq<T>)
    ensures a + (b + c) == a + b + c
  {
  }

  lemma SliceOfSlice<T>(ts: seq<T>, i: nat, n: nat, s: seq<T>, a: nat, b: nat)
    requires i + n <= |ts| && ts[i..i + n] == s && a <= b <= n
    ensures ts[i + a..i + b] == s[a..b]
  {
    forall k | a <= k < b ensures ts[i + k] == s[k] {
      assert ts[i..i + n][k] == ts[i + k];
    }
  }

  lemma JoinSlices<T>(s: seq<T>, i: nat, j: nat, k: nat)
    requires i <= j <= k <= |s|
    ensures s[i..k] == s[i..j] + s[j..k]
  {
  }

  /** The two parts of a concatenation found in place. */
  lemma SlicesOfConcat<T>(s: seq<T>, i: nat, mid: nat, e: nat, a: seq<T>, b: seq<T>)
    requires mid == i + |a| && e == mid + |b| && e <= |s| && s[i..e] == a + b
    ensures s[i..mid] == a && s[mid..e] == b
  {
    SliceOfSlice(s, i, |a + b|, a + b, 0, |a|);
    SliceOfSlice(s, i, |a + b|, a + b, |a|, |a| + |b|);
    assert (a + b)[..|a|] == a && (a + b)[|a|..] == b;
  }

  lemma SplitAt<T>(s: seq<T>, k: nat)
    requires k < |s|
    ensures s[k..] == [s[k]] + s[k + 1..]
    ensures s[..k + 1] == s[..k] + [s[k]]
  {
  }

  ghost predicate NoDuplicates<T>(s: seq<T>) {
    forall a, b | 0 <= a < b < |s| :: s[a] != s[b]
  }

  lemma ConcatHasNoDuplicates<T>(a: seq<T>, b: seq<T>)
    requires NoDuplicates(a) && NoDuplicates(b)
    requires forall x | x in a :: x !in b
    ensures NoDuplicates(a + b)
  {
    forall i, j | 0 <= i < j < |a + b| ensures (a + b)[i] != (a + b)[j] {
      if i < |a| <= j {
        assert (a + b)[i] in a && (a + b)[j] in b;
      }
    }
  }
}
