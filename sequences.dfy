/** Order-preserving relations on sequences used to state what the list operations keep. */
module Sequences {

  /** `xs` can be obtained from `ys` by deleting elements, keeping the order of the rest. */
  predicate IsSubsequence<T(==)>(xs: seq<T>, ys: seq<T>)
    decreases |ys|
  {
    xs == [] ||
    (ys != [] &&
     ((xs[0] == ys[0] && IsSubsequence(xs[1..], ys[1..])) || IsSubsequence(xs, ys[1..])))
  }

  /** No element occurs twice. */
  predicate Distinct<T(==)>(s: seq<T>)
  {
    forall i, j :: 0 <= i < j < |s| ==> s[i] != s[j]
  }

  /** The first `cap` elements of `s`: all of `s` when it is shorter, none when `cap` is not positive. */
  function Capped<T>(s: seq<T>, cap: int): (r: seq<T>)
    ensures cap <= 0 ==> r == []
    ensures 0 <= cap && |s| <= cap ==> r == s
    ensures |s| > cap >= 0 ==> |r| == cap
    ensures |r| <= |s| && r == s[..|r|]
  {
    if cap <= 0 then [] else if |s| <= cap then s else s[..cap]
  }

  /** Appending an element to the longer sequence keeps a subsequence one. */
  lemma {:induction false} SubsequenceExtend<T>(xs: seq<T>, ys: seq<T>, y: T)
    requires IsSubsequence(xs, ys)
    ensures IsSubsequence(xs, ys + [y])
    decreases |ys|
  {
    if xs != [] {
      assert (ys + [y])[1..] == ys[1..] + [y];
      if xs[0] == ys[0] && IsSubsequence(xs[1..], ys[1..]) {
        SubsequenceExtend(xs[1..], ys[1..], y);
      } else {
        SubsequenceExtend(xs, ys[1..], y);
      }
    }
  }

  /** Appending the same element to both sides keeps a subsequence one. */
  lemma {:induction false} SubsequenceSnoc<T>(xs: seq<T>, ys: seq<T>, y: T)
    requires IsSubsequence(xs, ys)
    ensures IsSubsequence(xs + [y], ys + [y])
    decreases |ys|
  {
    if ys == [] {
      assert xs == [];
      assert IsSubsequence<T>([], []);
    } else {
      assert (ys + [y])[1..] == ys[1..] + [y];
      if xs == [] {
        SubsequenceSnoc(xs, ys[1..], y);
      } else if xs[0] == ys[0] && IsSubsequence(xs[1..], ys[1..]) {
        assert (xs + [y])[1..] == xs[1..] + [y];
        SubsequenceSnoc(xs[1..], ys[1..], y);
      } else {
        SubsequenceSnoc(xs, ys[1..], y);
      }
    }
  }

  /** Capping a sequence that grew by one element at the end. */
  lemma CappedSnoc<T>(s: seq<T>, x: T, cap: int)
    ensures Capped(s + [x], cap) ==
      if |Capped(s, cap)| < cap then Capped(s, cap) + [x] else Capped(s, cap)
  {
    if cap > 0 && |s| >= cap {
      assert (s + [x])[..cap] == s[..cap];
    }
  }
}
