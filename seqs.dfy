/** Order-preserving filtering of sequences, with the facts the model needs:
    what a filter keeps, where the kept elements came from, and that the
    result is a subsequence of the input. */
module Seqs {

  /** The elements of `s` that satisfy `p`, in their original order: the
      shape of a Python loop that appends each element passing a test, or
      of a `"".join(c for c in s if p(c))` comprehension. */
  function Filter<T>(p: T -> bool, s: seq<T>): (r: seq<T>)
    ensures |r| <= |s|
    ensures forall j :: 0 <= j < |r| ==> p(r[j])
  {
    if s == [] then []
    else Filter(p, s[..|s| - 1]) + (if p(s[|s| - 1]) then [s[|s| - 1]] else [])
  }

  /** The positions of `s` whose elements satisfy `p`, in increasing order. */
  ghost function FilterIndices<T>(p: T -> bool, s: seq<T>): seq<nat>
  {
    if s == [] then []
    else FilterIndices(p, s[..|s| - 1]) + (if p(s[|s| - 1]) then [|s| - 1] else [])
  }

  /** `a` can be obtained from `b` by deleting elements. */
  ghost predicate IsSubsequence<T>(a: seq<T>, b: seq<T>)
    decreases |b|
  {
    if a == [] then true
    else if b == [] then false
    else if a[|a| - 1] == b[|b| - 1] then IsSubsequence(a[..|a| - 1], b[..|b| - 1])
    else IsSubsequence(a, b[..|b| - 1])
  }

  /** The filter keeps exactly the positions that satisfy `p`: the j-th kept
      element is the element at the j-th such position, the positions are
      increasing, and every satisfying position is among them. */
  lemma {:induction false} FilterSelects<T>(p: T -> bool, s: seq<T>)
    ensures |FilterIndices(p, s)| == |Filter(p, s)|
    ensures forall j :: 0 <= j < |FilterIndices(p, s)| ==>
              FilterIndices(p, s)[j] < |s| && Filter(p, s)[j] == s[FilterIndices(p, s)[j]]
    ensures forall j, k :: 0 <= j < k < |FilterIndices(p, s)| ==>
              FilterIndices(p, s)[j] < FilterIndices(p, s)[k]
    ensures forall i :: 0 <= i < |s| ==> (p(s[i]) <==> i in FilterIndices(p, s))
  {
    if s != [] {
      var s' := s[..|s| - 1];
      FilterSelects(p, s');
      var idx', r' := FilterIndices(p, s'), Filter(p, s');
      assert forall i :: 0 <= i < |s'| ==> s'[i] == s[i];
      if p(s[|s| - 1]) {
        assert FilterIndices(p, s) == idx' + [|s| - 1];
        assert Filter(p, s) == r' + [s[|s| - 1]];
      } else {
        assert FilterIndices(p, s) == idx';
        assert Filter(p, s) == r';
      }
    }
  }

  /** When every element passes, nothing is dropped. */
  lemma {:induction false} FilterKeepsAll<T>(p: T -> bool, s: seq<T>)
    requires forall i :: 0 <= i < |s| ==> p(s[i])
    ensures Filter(p, s) == s
  {
    if s != [] {
      FilterKeepsAll(p, s[..|s| - 1]);
      assert s[..|s| - 1] + [s[|s| - 1]] == s;
    }
  }

  /** What the filter keeps and what it drops add up to the whole input:
      the number of dropped elements is the number failing `p`. */
  lemma {:induction false} FilterPartition<T>(p: T -> bool, s: seq<T>)
    ensures |Filter(p, s)| + |Filter(x => !p(x), s)| == |s|
  {
    if s != [] {
      FilterPartition(p, s[..|s| - 1]);
    }
  }

  /** Dropping the last element of a subsequence leaves a subsequence. */
  lemma {:induction false} SubsequenceDropLast<T>(a: seq<T>, b: seq<T>)
    requires a != [] && IsSubsequence(a, b)
    ensures IsSubsequence(a[..|a| - 1], b)
    decreases |b|
  {
    var a', b' := a[..|a| - 1], b[..|b| - 1];
    if a' != [] {
      if a[|a| - 1] == b[|b| - 1] {
        SubsequenceDropLast(a', b');
      } else {
        SubsequenceDropLast(a, b');
        SubsequenceDropLast(a', b');
      }
    }
  }

  /** Every prefix of a subsequence of `b` is a subsequence of `b`. */
  lemma {:induction false} SubsequencePrefix<T>(a: seq<T>, b: seq<T>, k: nat)
    requires k <= |a| && IsSubsequence(a, b)
    ensures IsSubsequence(a[..k], b)
    decreases |a| - k
  {
    if k < |a| {
      SubsequencePrefix(a, b, k + 1);
      SubsequenceDropLast(a[..k + 1], b);
      assert a[..k + 1][..k] == a[..k];
    } else {
      assert a[..k] == a;
    }
  }

  /** A filter's result is a subsequence of its input. */
  lemma {:induction false} FilterIsSubsequence<T>(p: T -> bool, s: seq<T>)
    ensures IsSubsequence(Filter(p, s), s)
  {
    if s != [] {
      var s', x := s[..|s| - 1], s[|s| - 1];
      var r' := Filter(p, s');
      FilterIsSubsequence(p, s');
      if p(x) {
        assert (r' + [x])[..|r'|] == r';
      } else {
        assert Filter(p, s) == r';
        if r' != [] && r'[|r'| - 1] == x {
          SubsequenceDropLast(r', s');
        }
      }
    }
  }
}
