/** Order-preserving filtering of sequences, the meaning of LINQ's `Where(p).ToList()`. */
module Seqs {

  /** The elements of `s` that satisfy `p`, in their original order. */
  function Filter<T(==,!new)>(s: seq<T>, p: T -> bool): (r: seq<T>)
    ensures |r| <= |s|
    ensures forall x :: x in r ==> x in s && p(x)
    ensures forall x :: x in s && p(x) ==> x in r
    decreases |s|
  {
    if |s| == 0 then []
    else
      var init, last := s[..|s| - 1], s[|s| - 1];
      assert s == init + [last];
      Filter(init, p) + if p(last) then [last] else []
  }

  /** The indices of `s` whose elements satisfy `p`, ascending. */
  function Positions<T>(s: seq<T>, p: T -> bool): (idx: seq<int>)
    ensures forall k :: 0 <= k < |idx| ==> 0 <= idx[k] < |s| && p(s[idx[k]])
    ensures forall k, l :: 0 <= k < l < |idx| ==> idx[k] < idx[l]
    ensures forall i :: 0 <= i < |s| && p(s[i]) ==> i in idx
    decreases |s|
  {
    if |s| == 0 then []
    else Positions(s[..|s| - 1], p) + if p(s[|s| - 1]) then [|s| - 1] else []
  }

  /** `r` is the sequence of elements of `s` at the strictly increasing indices `idx`. */
  ghost predicate Embeds<T>(r: seq<T>, s: seq<T>, idx: seq<int>) {
    && |idx| == |r|
    && (forall k :: 0 <= k < |idx| ==> 0 <= idx[k] < |s| && r[k] == s[idx[k]])
    && (forall k, l :: 0 <= k < l < |idx| ==> idx[k] < idx[l])
  }

  /** `r` can be obtained from `s` by deleting elements, keeping the order of the rest. */
  ghost predicate IsSubsequence<T>(r: seq<T>, s: seq<T>) {
    exists idx :: Embeds(r, s, idx)
  }

  /** Each value occurs in the filter result exactly as often as in the input if it
      satisfies `p`, and not at all otherwise. */
  lemma {:induction false} FilterMultiset<T(!new)>(s: seq<T>, p: T -> bool)
    ensures forall x :: multiset(Filter(s, p))[x] == if p(x) then multiset(s)[x] else 0
    decreases |s|
  {
    if |s| > 0 {
      var init, last := s[..|s| - 1], s[|s| - 1];
      assert s == init + [last];
      FilterMultiset(init, p);
      assert multiset(s) == multiset(init) + multiset{last};
    }
  }

  /** Filtering a sequence with one more element appended. */
  lemma FilterSnoc<T(!new)>(s: seq<T>, x: T, p: T -> bool)
    ensures Filter(s + [x], p) == Filter(s, p) + if p(x) then [x] else []
  {
    assert (s + [x])[..|s|] == s;
  }

  /** The filter picks exactly the elements at the positions where `p` holds, in index order. */
  lemma {:induction false} FilterAtPositions<T(!new)>(s: seq<T>, p: T -> bool)
    ensures Embeds(Filter(s, p), s, Positions(s, p))
    decreases |s|
  {
    if |s| > 0 {
      var init := s[..|s| - 1];
      FilterAtPositions(init, p);
      var r0, idx0 := Filter(init, p), Positions(init, p);
      var r, idx := Filter(s, p), Positions(s, p);
      assert r == r0 + if p(s[|s| - 1]) then [s[|s| - 1]] else [];
      assert idx == idx0 + if p(s[|s| - 1]) then [|s| - 1] else [];
      forall k | 0 <= k < |idx|
        ensures 0 <= idx[k] < |s| && r[k] == s[idx[k]]
      {
        if k < |idx0| {
          assert idx[k] == idx0[k] && r[k] == r0[k];
          assert s[idx0[k]] == init[idx0[k]];
        }
      }
    }
  }

  /** The filter result is an order-preserving subsequence of its input. */
  lemma FilterIsSubsequence<T(!new)>(s: seq<T>, p: T -> bool)
    ensures IsSubsequence(Filter(s, p), s)
  {
    FilterAtPositions(s, p);
  }

  /** When no element satisfies `p`, nothing is kept. */
  lemma FilterNone<T(!new)>(s: seq<T>, p: T -> bool)
    requires forall x :: x in s ==> !p(x)
    ensures Filter(s, p) == []
  {
  }

  /** When every element satisfies `p`, everything is kept. */
  lemma {:induction false} FilterAll<T(!new)>(s: seq<T>, p: T -> bool)
    requires forall x :: x in s ==> p(x)
    ensures Filter(s, p) == s
    decreases |s|
  {
    if |s| > 0 {
      var init := s[..|s| - 1];
      assert s == init + [s[|s| - 1]];
      FilterAll(init, p);
    }
  }

  /** Filtering twice is filtering once by the conjunction. */
  lemma {:induction false} FilterFuse<T(!new)>(s: seq<T>, p: T -> bool, q: T -> bool, pq: T -> bool)
    requires forall x :: pq(x) == (p(x) && q(x))
    ensures Filter(Filter(s, p), q) == Filter(s, pq)
    decreases |s|
  {
    if |s| > 0 {
      var init, last := s[..|s| - 1], s[|s| - 1];
      assert s == init + [last];
      FilterFuse(init, p, q, pq);
      var fp := Filter(init, p);
      if p(last) {
        calc {
          Filter(Filter(s, p), q);
          { FilterSnoc(init, last, p); }
          Filter(fp + [last], q);
          { FilterSnoc(fp, last, q); }
          Filter(fp, q) + if q(last) then [last] else [];
          Filter(init, pq) + if pq(last) then [last] else [];
          { FilterSnoc(init, last, pq); }
          Filter(s, pq);
        }
      } else {
        calc {
          Filter(Filter(s, p), q);
          { FilterSnoc(init, last, p); }
          { assert fp + [] == fp; }
          Filter(fp, q);
          Filter(init, pq);
          { FilterSnoc(init, last, pq); }
          Filter(s, pq);
        }
      }
    }
  }

  /** The order in which two filters are applied does not matter. */
  lemma FilterCommutes<T(!new)>(s: seq<T>, p: T -> bool, q: T -> bool)
    ensures Filter(Filter(s, p), q) == Filter(Filter(s, q), p)
  {
    var pq := (x: T) => p(x) && q(x);
    FilterFuse(s, p, q, pq);
    FilterFuse(s, q, p, pq);
  }
}
