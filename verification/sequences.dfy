/** Generic sequence operations with the meaning JavaScript's arrays give them:
    `filter`, `slice`, plus the order relations (subsequence, suffix, reversal)
    used to state what the book list and the event log promise. */
module Sequences {

  function Min(a: int, b: int): int
  {
    if a <= b then a else b
  }

  function Max(a: int, b: int): int
  {
    if a <= b then b else a
  }

  /** The elements of `s` that satisfy `p`, in their original order (`Array.prototype.filter`). */
  function Keep<T>(s: seq<T>, p: T -> bool): (r: seq<T>)
    ensures |r| <= |s|
    ensures forall i :: 0 <= i < |r| ==> p(r[i])
  {
    if |s| == 0 then []
    else if p(s[0]) then [s[0]] + Keep(s[1..], p)
    else Keep(s[1..], p)
  }

  /** `a` can be obtained from `b` by deleting elements, without reordering the rest. */
  predicate IsSubsequence<T(==)>(a: seq<T>, b: seq<T>)
    decreases |b|
  {
    if |a| == 0 then true
    else if |b| == 0 then false
    else if a[0] == b[0] then IsSubsequence(a[1..], b[1..])
    else IsSubsequence(a, b[1..])
  }

  /** `a` is what remains of `b` after dropping some elements from its front. */
  predicate IsSuffix<T(==)>(a: seq<T>, b: seq<T>)
  {
    |a| <= |b| && b[|b| - |a|..] == a
  }

  function Reverse<T>(s: seq<T>): (r: seq<T>)
    ensures |r| == |s|
  {
    if |s| == 0 then [] else [s[|s| - 1]] + Reverse(s[..|s| - 1])
  }

  /** How `slice` reads one of its arguments against a length: a negative index
      counts back from the end, and the result is clamped to `0..len`. */
  function ResolveIndex(k: int, len: nat): (r: nat)
    ensures r <= len
    ensures 0 <= k ==> r == Min(k, len)
    ensures k < 0 && len + k >= 0 ==> r == len + k
    ensures len + k < 0 ==> r == 0
  {
    if k < 0 then (if len + k < 0 then 0 else len + k)
    else if k > len then len
    else k
  }

  /** `Array.prototype.slice(start, end)`: the elements from the resolved start up to
      (not including) the resolved end, and nothing when the end is not past the start. */
  function JsSlice<T>(s: seq<T>, start: int, end: int): (r: seq<T>)
    ensures |r| <= |s|
    ensures var lo, hi := ResolveIndex(start, |s|), ResolveIndex(end, |s|);
      |r| == (if lo < hi then hi - lo else 0) && forall i :: 0 <= i < |r| ==> r[i] == s[lo + i]
  {
    var lo := ResolveIndex(start, |s|);
    var hi := ResolveIndex(end, |s|);
    if lo < hi then s[lo..hi] else []
  }

  /** With non-negative bounds, `slice` is the ordinary sub-sequence between the bounds
      clipped to the length, and it never holds more than `end - start` elements. */
  lemma SliceOfNaturals<T>(s: seq<T>, start: int, end: int)
    requires 0 <= start <= end
    ensures start < |s| ==> JsSlice(s, start, end) == s[start..Min(end, |s|)]
    ensures start >= |s| ==> JsSlice(s, start, end) == []
    ensures |JsSlice(s, start, end)| <= end - start
  {
  }

  /** With negative bounds that stay within the length, `slice` counts both bounds back
      from the end. */
  lemma SliceOfNegatives<T>(s: seq<T>, start: int, end: int)
    requires start <= end < 0 && |s| + start >= 0
    ensures JsSlice(s, start, end) == s[|s| + start..|s| + end]
  {
  }

  /** Every element `Keep` drops fails `p`, every element it keeps passes it,
      and each kept value appears exactly as often as in the input. */
  lemma {:induction false} KeepCounts<T>(s: seq<T>, p: T -> bool, x: T)
    ensures multiset(Keep(s, p))[x] == if p(x) then multiset(s)[x] else 0
  {
    if |s| > 0 {
      assert s == [s[0]] + s[1..];
      KeepCounts(s[1..], p, x);
      assert multiset(s) == multiset([s[0]]) + multiset(s[1..]);
      if p(s[0]) {
        assert multiset(Keep(s, p)) == multiset([s[0]]) + multiset(Keep(s[1..], p));
      }
    }
  }

  /** `Keep` preserves the relative order of what it keeps. */
  lemma {:induction false} KeepIsSubsequence<T>(s: seq<T>, p: T -> bool)
    ensures IsSubsequence(Keep(s, p), s)
  {
    if |s| > 0 {
      KeepIsSubsequence(s[1..], p);
      var k := Keep(s, p);
      if p(s[0]) {
        assert k[0] == s[0] && k[1..] == Keep(s[1..], p);
      } else if |k| > 0 {
        assert p(k[0]);
        assert k[0] != s[0];
      }
    }
  }

  /** Every sequence is a subsequence of itself. */
  lemma {:induction false} SubsequenceReflexive<T>(s: seq<T>)
    ensures IsSubsequence(s, s)
  {
    if |s| > 0 {
      SubsequenceReflexive(s[1..]);
    }
  }

  /** Filtering twice by the same predicate is filtering once. */
  lemma {:induction false} KeepIdempotent<T>(s: seq<T>, p: T -> bool)
    ensures Keep(Keep(s, p), p) == Keep(s, p)
  {
    if |s| > 0 {
      KeepIdempotent(s[1..], p);
      if p(s[0]) {
        var k := Keep(s, p);
        assert k[0] == s[0] && k[1..] == Keep(s[1..], p);
      }
    }
  }

  /** A filter that every element passes returns its input. */
  lemma {:induction false} KeepEverything<T>(s: seq<T>, p: T -> bool)
    requires forall i :: 0 <= i < |s| ==> p(s[i])
    ensures Keep(s, p) == s
  {
    if |s| > 0 {
      KeepEverything(s[1..], p);
      assert s == [s[0]] + s[1..];
    }
  }

  /** Two predicates that agree on every element of `s` filter it identically. */
  lemma {:induction false} KeepAgreeing<T>(s: seq<T>, p: T -> bool, q: T -> bool)
    requires forall i :: 0 <= i < |s| ==> p(s[i]) == q(s[i])
    ensures Keep(s, p) == Keep(s, q)
  {
    if |s| > 0 {
      KeepAgreeing(s[1..], p, q);
    }
  }

  /** Reversal distributes over concatenation with the operands swapped. */
  lemma {:induction false} ReverseConcat<T>(a: seq<T>, b: seq<T>)
    ensures Reverse(a + b) == Reverse(b) + Reverse(a)
    decreases |b|
  {
    if |b| == 0 {
      assert a + b == a;
    } else {
      var b', x := b[..|b| - 1], b[|b| - 1];
      var ab := a + b;
      assert ab[|ab| - 1] == x;
      assert ab[..|ab| - 1] == a + b';
      ReverseConcat(a, b');
      var ra, rb' := Reverse(a), Reverse(b');
      calc {
        Reverse(ab);
        [x] + Reverse(a + b');
        [x] + (rb' + ra);
        ([x] + rb') + ra;
        Reverse(b) + ra;
      }
    }
  }
}
