/**
 * Order-preserving selection from a sequence, shared by the diff and the missing-parameter
 * check, and contiguous occurrence, Python's `t in s` on strings.
 */
module Sequences {

  /** `a` is `b` with some elements deleted (checked greedily from the back). */
  predicate IsSubsequence<T(==)>(a: seq<T>, b: seq<T>)
    decreases |b|
  {
    if a == [] then true
    else if b == [] then false
    else if a[|a| - 1] == b[|b| - 1] then IsSubsequence(a[..|a| - 1], b[..|b| - 1])
    else IsSubsequence(a, b[..|b| - 1])
  }

  /** Dropping the last selected element keeps a selection. */
  lemma {:induction false} SubsequenceDropLast<T>(a: seq<T>, b: seq<T>)
    requires a != [] && IsSubsequence(a, b)
    ensures IsSubsequence(a[..|a| - 1], b)
    decreases |b|, 0
  {
    var b0 := b[..|b| - 1];
    assert b == b0 + [b[|b| - 1]];
    if a[|a| - 1] == b[|b| - 1] {
      SubsequenceExtend(a[..|a| - 1], b0, b[|b| - 1]);
    } else {
      SubsequenceDropLast(a, b0);
      SubsequenceExtend(a[..|a| - 1], b0, b[|b| - 1]);
    }
  }

  /** A selection from `b` is a selection from `b` with one more element at the end. */
  lemma {:induction false} SubsequenceExtend<T>(a: seq<T>, b: seq<T>, x: T)
    requires IsSubsequence(a, b)
    ensures IsSubsequence(a, b + [x])
    decreases |b|, 1
  {
    assert (b + [x])[..|b|] == b;
    if a != [] && a[|a| - 1] == x {
      SubsequenceDropLast(a, b);
    }
  }

  /** Selecting the same new last element from both keeps a selection. */
  lemma SubsequenceSnoc<T>(a: seq<T>, b: seq<T>, x: T)
    requires IsSubsequence(a, b)
    ensures IsSubsequence(a + [x], b + [x])
  {
    assert (a + [x])[..|a|] == a && (b + [x])[..|b|] == b;
  }

  /** Python's `t in s` on strings: `t` occurs somewhere in `s` as a contiguous piece. */
  predicate IsSubstring<T(==)>(t: seq<T>, s: seq<T>)
    decreases |s|
  {
    t <= s || (s != [] && IsSubstring(t, s[1..]))
  }

  /** Whatever is put in front, an occurrence stays an occurrence. */
  lemma {:induction false} SubstringInSuffix<T>(t: seq<T>, a: seq<T>, b: seq<T>)
    requires IsSubstring(t, b)
    ensures IsSubstring(t, a + b)
    decreases |a|
  {
    if a != [] {
      assert (a + b)[1..] == a[1..] + b;
      SubstringInSuffix(t, a[1..], b);
    } else {
      assert a + b == b;
    }
  }
}
