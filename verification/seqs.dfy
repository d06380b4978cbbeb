/** Small facts about sequences shared by the other modules. */
module Seqs {

  /** No element occurs twice. */
  predicate Distinct<T(==)>(s: seq<T>) {
    forall i, j :: 0 <= i < j < |s| ==> s[i] != s[j]
  }

  /** Joining two duplicate-free sequences with no element in common gives
      a duplicate-free sequence. */
  lemma DistinctConcat<T>(a: seq<T>, b: seq<T>)
    requires Distinct(a) && Distinct(b)
    requires forall x :: x in a ==> x !in b
    ensures Distinct(a + b)
  {
    var c := a + b;
    forall i, j | 0 <= i < j < |c|
      ensures c[i] != c[j]
    {
      if i < |a| && j >= |a| {
        assert c[i] in a && c[j] == b[j - |a|];
      } else if i >= |a| {
        assert c[i] == b[i - |a|] && c[j] == b[j - |a|];
      }
    }
  }

  /** In a duplicate-free sequence, an element lies after position `k`
      exactly when it is in the sequence and not among the first `k`. */
  lemma DistinctSuffix<T>(s: seq<T>, k: nat, x: T)
    requires Distinct(s) && k <= |s|
    ensures x in s[k..] <==> x in s && x !in s[..k]
  {
    assert s == s[..k] + s[k..];
  }

  /** A suffix of a duplicate-free sequence is duplicate-free. */
  lemma DistinctDrop<T>(s: seq<T>, k: nat)
    requires Distinct(s) && k <= |s|
    ensures Distinct(s[k..])
  {
    forall i, j | 0 <= i < j < |s| - k
      ensures s[k..][i] != s[k..][j]
    {
      assert s[k..][i] == s[i + k] && s[k..][j] == s[j + k];
    }
  }

  /** Dropping the last element of `xs + [x]` gives back `xs`. */
  lemma SnocFront<T>(xs: seq<T>, x: T)
    ensures (xs + [x])[..|xs|] == xs
  {
  }

  /** One more element of `cs` after a fixed prefix `before`. */
  lemma PrefixStep<T>(before: seq<T>, cs: seq<T>, l: nat)
    requires l < |cs|
    ensures before + cs[..l + 1] == (before + cs[..l]) + [cs[l]]
  {
    assert cs[..l + 1] == cs[..l] + [cs[l]];
  }

  lemma PrefixAll<T>(before: seq<T>, cs: seq<T>)
    ensures before + cs[..0] == before
    ensures before + cs[..|cs|] == before + cs
  {
  }
}
