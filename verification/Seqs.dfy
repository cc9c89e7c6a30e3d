/** First-match search in a sequence: the shape shared by `strchr`, the slot loops and the list walks. */
module Seqs {

  /** Position of the first `x` in `s`, or `|s|` when there is none. */
  function IndexOf<T(==)>(s: seq<T>, x: T): (i: nat)
    ensures i <= |s|
    ensures x !in s[..i]
    ensures i < |s| ==> s[i] == x
  {
    if s == [] || s[0] == x then 0
    else
      var i := 1 + IndexOf(s[1..], x);
      assert s[..i] == [s[0]] + s[1..][..i - 1];
      i
  }

  /** The position with those three properties is unique. */
  lemma IndexOfUnique<T>(s: seq<T>, x: T, i: nat)
    requires i <= |s| && x !in s[..i] && (i < |s| ==> s[i] == x)
    ensures IndexOf(s, x) == i
  {}

  /** `x` occurs exactly when the search stops before the end. */
  lemma IndexOfIn<T>(s: seq<T>, x: T)
    ensures IndexOf(s, x) < |s| <==> x in s
  {
    assert s[..|s|] == s;
  }

  /** Taking one more element off the front. */
  lemma DropNext<T>(s: seq<T>, n: nat)
    requires n < |s|
    ensures s[n..][0] == s[n] && s[n..][1..] == s[n + 1..]
  {}

  /** A slice that is one element longer. */
  lemma SliceNext<T>(s: seq<T>, from: nat, n: nat)
    requires from + n < |s|
    ensures var longer := s[from..from + n + 1]; longer[..n] == s[from..from + n] && longer[n] == s[from + n]
  {}

  /** Cutting at `n` and dropping the last element. */
  lemma FrontParts<T>(s: seq<T>, n: nat)
    requires n < |s|
    ensures var front, tail := s[..|s| - 1], s[n..];
            front[..n] == s[..n] && front[n..] == tail[..|tail| - 1] && tail[|tail| - 1] == s[|s| - 1]
  {}

  /** No value other than `hole` sits in two places. */
  ghost predicate DistinctExcept<T>(s: seq<T>, hole: T) {
    forall i, j :: 0 <= i < j < |s| && s[i] != hole ==> s[i] != s[j]
  }
}
