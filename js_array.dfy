/** The JavaScript array built-ins the application relies on (`slice`,
    `filter`, and `filter` with an index argument), over `seq<T>`. */
module JsArray {

  /** The index `slice` and `substring` start from, for a possibly negative
      argument counted from the end (as `slice` does). */
  function RelativeIndex(i: int, len: nat): (k: nat)
    ensures k <= len
    ensures 0 <= i <= len ==> k == i
    ensures -(len as int) <= i < 0 ==> k == len + i
  {
    if i < 0 then (if len + i < 0 then 0 else len + i)
    else if i > len then len
    else i
  }

  /** `s.slice(start, end)` on an array or string. */
  function Slice<T>(s: seq<T>, start: int, end: int): seq<T>
  {
    var from, to := RelativeIndex(start, |s|), RelativeIndex(end, |s|);
    if from < to then s[from..to] else []
  }

  /** `slice(0, n)` with `n >= 0` keeps the first `min(n, |s|)` elements. */
  lemma SliceTake<T>(s: seq<T>, n: nat)
    ensures Slice(s, 0, n) == if n <= |s| then s[..n] else s
  {
  }

  /** `slice(0, -1)` drops the last element, and of an empty sequence gives
      the empty sequence. */
  lemma SliceDropLast<T>(s: seq<T>)
    ensures Slice(s, 0, -1) == if s == [] then [] else s[..|s| - 1]
  {
  }

  /** `slice(1, -1)` drops the first and the last element; on fewer than two
      elements it gives the empty sequence. */
  lemma SliceInner<T>(s: seq<T>)
    ensures Slice(s, 1, -1) == if |s| < 2 then [] else s[1..|s| - 1]
  {
  }

  /** `s.filter(p)`: the elements satisfying `p`, in their original order. */
  function Filter<T>(p: T -> bool, s: seq<T>): (r: seq<T>)
    ensures |r| <= |s|
    ensures forall i | 0 <= i < |r| :: r[i] in s && p(r[i])
    ensures forall i | 0 <= i < |s| :: p(s[i]) ==> s[i] in r
  {
    if s == [] then []
    else (if p(s[0]) then [s[0]] else []) + Filter(p, s[1..])
  }

  /** `a` is `b` with some elements left out, the rest in the same order. */
  predicate IsSubsequence<T(==)>(a: seq<T>, b: seq<T>)
    decreases |b|
  {
    if a == [] then true
    else if b == [] then false
    else (a[0] == b[0] && IsSubsequence(a[1..], b[1..])) || IsSubsequence(a, b[1..])
  }

  /** `filter` keeps the order of what it keeps. */
  lemma {:induction false} FilterIsSubsequence<T>(p: T -> bool, s: seq<T>)
    ensures IsSubsequence(Filter(p, s), s)
  {
    if s != [] {
      FilterIsSubsequence(p, s[1..]);
      var rest := Filter(p, s[1..]);
      if p(s[0]) {
        assert Filter(p, s) == [s[0]] + rest;
        assert ([s[0]] + rest)[1..] == rest;
      } else {
        assert Filter(p, s) == rest;
        if rest != [] {
          assert IsSubsequence(rest, s[1..]);
        }
      }
    }
  }

  /** `filter` keeps every passing element as often as it occurs, and no
      other: the multiplicity of `x` in the result is its multiplicity in `s`
      when `p(x)` holds and zero otherwise. */
  lemma {:induction false} FilterMultiset<T>(p: T -> bool, s: seq<T>)
    ensures forall x :: multiset(Filter(p, s))[x] == if p(x) then multiset(s)[x] else 0
  {
    if s != [] {
      FilterMultiset(p, s[1..]);
      assert s == [s[0]] + s[1..];
      assert Filter(p, s) == (if p(s[0]) then [s[0]] else []) + Filter(p, s[1..]);
    }
  }

  /** A filter whose predicate holds of every element keeps the whole sequence. */
  lemma {:induction false} FilterKeepsAll<T>(p: T -> bool, s: seq<T>)
    requires forall x :: x in s ==> p(x)
    ensures Filter(p, s) == s
  {
    if s != [] {
      FilterKeepsAll(p, s[1..]);
      assert [s[0]] + s[1..] == s;
    }
  }

  /** Two predicates that agree on the elements of `s` filter it alike. */
  lemma {:induction false} FilterCongruent<T>(p: T -> bool, q: T -> bool, s: seq<T>)
    requires forall x :: x in s ==> p(x) == q(x)
    ensures Filter(p, s) == Filter(q, s)
  {
    if s != [] {
      FilterCongruent(p, q, s[1..]);
    }
  }

  /** `filter` with a test on the index alone: the elements whose position
      lies below `bound`. */
  function FilterIndexBelow<T>(s: seq<T>, bound: int): seq<T>
  {
    if s == [] then []
    else FilterIndexBelow(s[..|s| - 1], bound) + (if |s| - 1 < bound then [s[|s| - 1]] else [])
  }

  /** Filtering by position below `bound` keeps the first `bound` elements
      (none when `bound` is not positive). */
  lemma {:induction false} FilterIndexBelowIsPrefix<T>(s: seq<T>, bound: int)
    ensures FilterIndexBelow(s, bound) == s[..if bound <= 0 then 0 else if bound < |s| then bound else |s|]
  {
    if s != [] {
      var init := s[..|s| - 1];
      FilterIndexBelowIsPrefix(init, bound);
      if |s| - 1 < bound {
        assert init + [s[|s| - 1]] == s;
      }
    }
  }

  /** Slicing off the last element and keeping the elements whose index is
      below `length - 1` give the same sequence, also on the empty sequence. */
  lemma SliceAgreesWithFilter<T>(s: seq<T>)
    ensures Slice(s, 0, -1) == FilterIndexBelow(s, |s| - 1)
  {
    FilterIndexBelowIsPrefix(s, |s| - 1);
  }
}
