/**
 The few `Array.prototype` operations the application relies on (`filter`,
 `every`, `some`, `findIndex` and a one-element `splice`), written as pure
 functions over sequences, with the properties the application needs of them.
 */
module JsArray {

  /** `r` can be obtained from `s` by deleting elements, keeping the order of the rest. */
  ghost predicate IsSubsequence<T>(r: seq<T>, s: seq<T>)
    decreases |s|
  {
    if r == [] then true
    else if s == [] then false
    else (r[|r| - 1] == s[|s| - 1] && IsSubsequence(r[..|r| - 1], s[..|s| - 1]))
         || IsSubsequence(r, s[..|s| - 1])
  }

  /** The positions of `s` whose element satisfies `p`. */
  ghost function MatchingIndices<T>(s: seq<T>, p: T -> bool): set<int>
  {
    set i | 0 <= i < |s| && p(s[i])
  }

  /** `s.filter(p)`: the elements of `s` that satisfy `p`, in their order in `s`. */
  function Filter<T>(s: seq<T>, p: T -> bool): seq<T>
    decreases |s|
  {
    if s == [] then []
    else Filter(s[..|s| - 1], p) + (if p(s[|s| - 1]) then [s[|s| - 1]] else [])
  }

  /** Filter keeps exactly the elements of `s` that satisfy `p`. */
  lemma {:induction false} FilterMembers<T>(s: seq<T>, p: T -> bool)
    ensures forall x :: x in Filter(s, p) <==> x in s && p(x)
    decreases |s|
  {
    if s != [] {
      var pre, last := s[..|s| - 1], s[|s| - 1];
      assert s == pre + [last];
      FilterMembers(pre, p);
    }
  }

  /** Every position of the result holds an element satisfying `p`. */
  lemma FilterSatisfies<T>(s: seq<T>, p: T -> bool)
    ensures forall i :: 0 <= i < |Filter(s, p)| ==> p(Filter(s, p)[i])
  {
    FilterMembers(s, p);
    forall i | 0 <= i < |Filter(s, p)| ensures p(Filter(s, p)[i]) {
      assert Filter(s, p)[i] in Filter(s, p);
    }
  }

  /** Filter keeps each element satisfying `p` as often as it occurs in `s`, and no other. */
  lemma {:induction false} FilterCounts<T>(s: seq<T>, p: T -> bool)
    ensures forall x :: multiset(Filter(s, p))[x] == if p(x) then multiset(s)[x] else 0
    decreases |s|
  {
    if s != [] {
      var pre, last := s[..|s| - 1], s[|s| - 1];
      assert s == pre + [last];
      FilterCounts(pre, p);
      var tail := if p(last) then [last] else [];
      assert multiset(Filter(s, p)) == multiset(Filter(pre, p)) + multiset(tail);
      assert multiset(s) == multiset(pre) + multiset{last};
    }
  }

  /** Filter keeps the relative order of the elements it keeps. */
  lemma {:induction false} FilterIsSubsequence<T>(s: seq<T>, p: T -> bool)
    ensures IsSubsequence(Filter(s, p), s)
    decreases |s|
  {
    if s != [] {
      var pre, last := s[..|s| - 1], s[|s| - 1];
      FilterIsSubsequence(pre, p);
      var r := Filter(s, p);
      assert s[..|s| - 1] == pre;
      if p(last) {
        assert r == Filter(pre, p) + [last];
        assert r[..|r| - 1] == Filter(pre, p);
      } else {
        assert r == Filter(pre, p);
      }
    }
  }

  /** The number of elements kept is the number of positions of `s` that satisfy `p`. */
  lemma {:induction false} FilterLength<T>(s: seq<T>, p: T -> bool)
    ensures |Filter(s, p)| == |MatchingIndices(s, p)| <= |s|
    decreases |s|
  {
    if s == [] {
      assert MatchingIndices(s, p) == {};
    } else {
      var pre, last := s[..|s| - 1], s[|s| - 1];
      FilterLength(pre, p);
      var n := |s| - 1;
      var tail: set<int> := if p(last) then {n} else {};
      assert MatchingIndices(s, p) == MatchingIndices(pre, p) + tail by {
        forall i | i in MatchingIndices(s, p) ensures i in MatchingIndices(pre, p) + tail {
          if i < n { assert pre[i] == s[i]; }
        }
        forall i | i in MatchingIndices(pre, p) ensures i in MatchingIndices(s, p) {
          assert pre[i] == s[i];
        }
      }
      assert n !in MatchingIndices(pre, p);
    }
  }

  /** When every element satisfies `p`, filtering returns `s` itself. */
  lemma {:induction false} FilterKeepsAll<T>(s: seq<T>, p: T -> bool)
    requires forall i :: 0 <= i < |s| ==> p(s[i])
    ensures Filter(s, p) == s
    decreases |s|
  {
    if s != [] {
      FilterKeepsAll(s[..|s| - 1], p);
      assert s == s[..|s| - 1] + [s[|s| - 1]];
    }
  }

  /** Filtering twice by the same predicate is filtering once. */
  lemma {:induction false} FilterIdempotent<T>(s: seq<T>, p: T -> bool)
    ensures Filter(Filter(s, p), p) == Filter(s, p)
  {
    FilterSatisfies(s, p);
    FilterKeepsAll(Filter(s, p), p);
  }

  /** Filtering by `p` and by its negation splits `s` into two disjoint parts that together hold all of `s`. */
  lemma {:induction false} FilterPartition<T>(s: seq<T>, p: T -> bool, q: T -> bool)
    requires forall x :: q(x) == !p(x)
    ensures |Filter(s, p)| + |Filter(s, q)| == |s|
    ensures multiset(Filter(s, p)) + multiset(Filter(s, q)) == multiset(s)
    ensures forall x :: !(x in Filter(s, p) && x in Filter(s, q))
    decreases |s|
  {
    FilterMembers(s, p);
    FilterMembers(s, q);
    if s != [] {
      var pre, last := s[..|s| - 1], s[|s| - 1];
      FilterPartition(pre, p, q);
      assert s == pre + [last];
      assert multiset(s) == multiset(pre) + multiset{last};
      if p(last) {
        assert Filter(s, q) == Filter(pre, q);
        assert multiset(Filter(s, p)) == multiset(Filter(pre, p)) + multiset{last};
      } else {
        assert Filter(s, p) == Filter(pre, p);
        assert multiset(Filter(s, q)) == multiset(Filter(pre, q)) + multiset{last};
      }
    }
  }

  /** `s.every(p)`, scanning from the front and stopping at the first failure. */
  function Every<T>(s: seq<T>, p: T -> bool): (r: bool)
    ensures r <==> forall i :: 0 <= i < |s| ==> p(s[i])
  {
    if s == [] then true
    else if !p(s[0]) then false
    else
      assert forall i :: 1 <= i < |s| ==> s[i] == s[1..][i - 1];
      Every(s[1..], p)
  }

  /** `s.some(p)`, scanning from the front and stopping at the first success. */
  function Any<T>(s: seq<T>, p: T -> bool): (r: bool)
    ensures r <==> exists i :: 0 <= i < |s| && p(s[i])
  {
    if s == [] then false
    else if p(s[0]) then true
    else
      assert forall i :: 1 <= i < |s| ==> s[i] == s[1..][i - 1];
      Any(s[1..], p)
  }

  /** `s.findIndex(p)`: the first position whose element satisfies `p`, or -1 when there is none. */
  function FindIndex<T>(s: seq<T>, p: T -> bool): (r: int)
    ensures -1 <= r < |s|
    ensures r == -1 <==> forall i :: 0 <= i < |s| ==> !p(s[i])
    ensures 0 <= r ==> p(s[r]) && forall j :: 0 <= j < r ==> !p(s[j])
  {
    if s == [] then -1
    else if p(s[0]) then 0
    else
      var k := FindIndex(s[1..], p);
      assert forall i :: 1 <= i < |s| ==> s[i] == s[1..][i - 1];
      if k == -1 then -1 else k + 1
  }

  /**
   The position at which `splice(start, ...)` starts on an array of length
   `len`: a negative start counts from the end (and is clamped at 0), a start
   past the end is clamped to `len`.
   */
  function SpliceStart(len: nat, start: int): (k: nat)
    ensures k <= len
    ensures 0 <= start <= len ==> k == start
    ensures start < 0 && len + start >= 0 ==> k == len + start
    ensures start > len ==> k == len
    ensures start < 0 && len + start < 0 ==> k == 0
  {
    if start < 0 then (if len + start < 0 then 0 else len + start)
    else if start > len then len
    else start
  }

  /**
   The array `s` after `s.splice(start, 1, item)`: at most one element is
   removed at the normalised start position and `item` is put in its place.
   */
  function SpliceOne<T>(s: seq<T>, start: int, item: T): (r: seq<T>)
    ensures 0 <= start < |s| ==>
      |r| == |s| && r[start] == item && forall j :: 0 <= j < |s| && j != start ==> r[j] == s[j]
    ensures start == -1 && s != [] ==> r == s[..|s| - 1] + [item]
    ensures start >= |s| || s == [] ==> r == s + [item]
  {
    var k := SpliceStart(|s|, start);
    var removed := if k < |s| then 1 else 0;
    s[..k] + [item] + s[k + removed..]
  }
}
