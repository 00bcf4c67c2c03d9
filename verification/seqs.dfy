/** Generic facts about sequences, stated once so the list proofs can cite them. */
module Seqs {

  /** A non-empty sequence is its head followed by its tail. */
  lemma SplitFirst<T>(s: seq<T>)
    requires |s| > 0
    ensures s == [s[0]] + s[1..]
  {
  }

  /** A non-empty sequence is its prefix followed by its last element. */
  lemma SplitLast<T>(s: seq<T>)
    requires |s| > 0
    ensures s == s[..|s| - 1] + [s[|s| - 1]]
  {
  }

  /** Concatenation is associative. */
  lemma ConcatAssoc<T>(a: seq<T>, b: seq<T>, c: seq<T>)
    ensures a + (b + c) == (a + b) + c
  {
  }

  /** Dropping the head of a concatenation drops it from the first part. */
  lemma TailOfConcat<T>(a: seq<T>, b: seq<T>)
    requires |a| > 0
    ensures (a + b)[0] == a[0] && (a + b)[1..] == a[1..] + b
  {
  }

  /** Every element is related by `p` to every later element. */
  predicate Pairwise<T>(s: seq<T>, p: (T, T) -> bool) {
    forall i, j :: 0 <= i < j < |s| ==> p(s[i], s[j])
  }

  /** An element in front keeps the relation exactly when it relates to every element after it. */
  lemma PairwiseCons<T>(x: T, s: seq<T>, p: (T, T) -> bool)
    ensures Pairwise([x] + s, p) <==> Pairwise(s, p) && forall y :: y in s ==> p(x, y)
  {
    var xs := [x] + s;
    if Pairwise(xs, p) {
      forall i, j | 0 <= i < j < |s|
        ensures p(s[i], s[j])
      {
        assert xs[i + 1] == s[i] && xs[j + 1] == s[j];
      }
      forall y | y in s
        ensures p(x, y)
      {
        var k :| 0 <= k < |s| && s[k] == y;
        assert xs[0] == x && xs[k + 1] == y;
      }
    }
    if Pairwise(s, p) && forall y :: y in s ==> p(x, y) {
      forall i, j | 0 <= i < j < |xs|
        ensures p(xs[i], xs[j])
      {
        assert xs[j] == s[j - 1] && xs[j] in s;
        if i > 0 {
          assert xs[i] == s[i - 1];
        }
      }
    }
  }

  /** An element appended after elements that all relate to it keeps the relation. */
  lemma PairwiseSnoc<T>(s: seq<T>, x: T, p: (T, T) -> bool)
    requires Pairwise(s, p)
    requires forall i :: 0 <= i < |s| ==> p(s[i], x)
    ensures Pairwise(s + [x], p)
  {
    var xs := s + [x];
    forall i, j | 0 <= i < j < |xs|
      ensures p(xs[i], xs[j])
    {
      assert xs[i] == s[i];
      if j < |s| {
        assert xs[j] == s[j];
      }
    }
  }
}
