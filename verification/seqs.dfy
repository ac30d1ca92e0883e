/** Counting and filtering over sequences, in storage order. Both walk the
    sequence from the front to the back, the way a Python loop or a database
    scan does; they are written by recursion on everything but the last
    element. */
module Seqs {

  /** The positions of `s` whose element satisfies `p`. */
  ghost function Positions<T>(s: seq<T>, p: T -> bool): set<int>
  {
    set i | 0 <= i < |s| && p(s[i])
  }

  /** Appending one element adds at most its own position. */
  lemma PositionsSnoc<T>(s: seq<T>, x: T, p: T -> bool)
    ensures Positions(s + [x], p) == Positions(s, p) + (if p(x) then {|s|} else {})
    ensures |s| !in Positions(s, p)
  {
    var t := s + [x];
    forall i | i in Positions(t, p)
      ensures i in Positions(s, p) + (if p(x) then {|s|} else {})
    {
      if i < |s| { assert t[i] == s[i]; }
    }
    forall i | i in Positions(s, p) ensures i in Positions(t, p) {
      assert t[i] == s[i];
    }
  }

  /** The number of elements of `s` that satisfy `p`. */
  function Count<T>(s: seq<T>, p: T -> bool): (n: nat)
    ensures n == |Positions(s, p)|
    ensures n <= |s|
    decreases |s|
  {
    if |s| == 0 then
      assert Positions(s, p) == {};
      0
    else
      var init := s[..|s| - 1];
      assert s == init + [s[|s| - 1]];
      PositionsSnoc(init, s[|s| - 1], p);
      Count(init, p) + (if p(s[|s| - 1]) then 1 else 0)
  }

  /** The elements of `s` that satisfy `p`, in their original order. */
  function Filter<T(!new)>(s: seq<T>, p: T -> bool): (r: seq<T>)
    ensures |r| == Count(s, p)
    ensures forall x :: x in r <==> x in s && p(x)
    decreases |s|
  {
    if |s| == 0 then []
    else
      var init := s[..|s| - 1];
      assert s == init + [s[|s| - 1]];
      Filter(init, p) + (if p(s[|s| - 1]) then [s[|s| - 1]] else [])
  }

  /** The positions of `s` whose element satisfies `p`, in increasing order. */
  function Selected<T>(s: seq<T>, p: T -> bool): (r: seq<int>)
    ensures forall k :: 0 <= k < |r| ==> 0 <= r[k] < |s| && p(s[r[k]])
    ensures forall i, j :: 0 <= i < j < |r| ==> r[i] < r[j]
    ensures forall i :: 0 <= i < |s| && p(s[i]) ==> i in r
    decreases |s|
  {
    if |s| == 0 then []
    else
      var init := s[..|s| - 1];
      var rest := Selected(init, p);
      var r := rest + (if p(s[|s| - 1]) then [|s| - 1] else []);
      assert forall k :: 0 <= k < |rest| ==> r[k] == rest[k] && s[rest[k]] == init[rest[k]];
      assert forall i :: 0 <= i < |init| ==> s[i] == init[i];
      r
  }

  /** `Filter` keeps the elements at the selected positions, in the order of
      those positions: the k-th kept element is `s[Selected(s, p)[k]]`, and
      the selected positions increase. */
  lemma {:induction false} FilterInOrder<T(!new)>(s: seq<T>, p: T -> bool)
    ensures |Selected(s, p)| == |Filter(s, p)|
    ensures forall k :: 0 <= k < |Filter(s, p)| ==> Filter(s, p)[k] == s[Selected(s, p)[k]]
    decreases |s|
  {
    if |s| > 0 {
      var init := s[..|s| - 1];
      var x := s[|s| - 1];
      FilterInOrder(init, p);
      var fi, ri := Filter(init, p), Selected(init, p);
      var f, r := Filter(s, p), Selected(s, p);
      assert f == fi + (if p(x) then [x] else []);
      assert r == ri + (if p(x) then [|s| - 1] else []);
      forall k | 0 <= k < |fi| ensures f[k] == s[r[k]] {
        assert f[k] == fi[k] && r[k] == ri[k];
        assert s[ri[k]] == init[ri[k]];
      }
    }
  }

  /** Filtering never duplicates: every element is kept at most as often as
      it occurs. */
  lemma {:induction false} FilterSubMultiset<T(!new)>(s: seq<T>, p: T -> bool)
    ensures multiset(Filter(s, p)) <= multiset(s)
    decreases |s|
  {
    if |s| > 0 {
      var init := s[..|s| - 1];
      var x := s[|s| - 1];
      FilterSubMultiset(init, p);
      assert s == init + [x];
      assert multiset(s) == multiset(init) + multiset{x};
    }
  }

  /** Filtering and counting one more element at the end. */
  lemma FilterSnoc<T(!new)>(s: seq<T>, x: T, p: T -> bool)
    ensures Filter(s + [x], p) == Filter(s, p) + (if p(x) then [x] else [])
    ensures Count(s + [x], p) == Count(s, p) + (if p(x) then 1 else 0)
  {
    assert (s + [x])[..|s|] == s;
  }

  /** Counting under a weaker predicate never gives less. */
  lemma {:induction false} CountMonotone<T>(s: seq<T>, p: T -> bool, q: T -> bool)
    requires forall x :: p(x) ==> q(x)
    ensures Count(s, p) <= Count(s, q)
  {
    assert Positions(s, p) <= Positions(s, q);
    SubsetCard(Positions(s, p), Positions(s, q));
  }

  lemma {:induction false} SubsetCard<T>(a: set<T>, b: set<T>)
    requires a <= b
    ensures |a| <= |b|
  {
    assert b == a + (b - a);
  }

  /** The positions of `s` whose element satisfies both `p` and `q`. */
  ghost function PositionsBoth<T>(s: seq<T>, p: T -> bool, q: T -> bool): set<int>
  {
    set i | 0 <= i < |s| && p(s[i]) && q(s[i])
  }

  lemma PositionsBothSnoc<T>(s: seq<T>, x: T, p: T -> bool, q: T -> bool)
    ensures PositionsBoth(s + [x], p, q)
         == PositionsBoth(s, p, q) + (if p(x) && q(x) then {|s|} else {})
    ensures |s| !in PositionsBoth(s, p, q)
  {
    var t := s + [x];
    forall i | i in PositionsBoth(t, p, q)
      ensures i in PositionsBoth(s, p, q) + (if p(x) && q(x) then {|s|} else {})
    {
      if i < |s| { assert t[i] == s[i]; }
    }
    forall i | i in PositionsBoth(s, p, q) ensures i in PositionsBoth(t, p, q) {
      assert t[i] == s[i];
    }
  }

  /** Counting a sequence with one more element at the end. */
  lemma CountSnoc<T>(s: seq<T>, x: T, p: T -> bool)
    ensures Count(s + [x], p) == Count(s, p) + (if p(x) then 1 else 0)
  {
    assert (s + [x])[..|s|] == s;
  }

  /** Counting over a filtered sequence counts the positions of the original
      sequence that satisfy both predicates. */
  lemma {:induction false} CountOfFilter<T(!new)>(s: seq<T>, p: T -> bool, q: T -> bool)
    ensures Count(Filter(s, p), q) == |PositionsBoth(s, p, q)|
    decreases |s|
  {
    if |s| == 0 {
      assert PositionsBoth(s, p, q) == {};
    } else {
      var init := s[..|s| - 1];
      var x := s[|s| - 1];
      var f := Filter(init, p);
      CountOfFilter(init, p, q);
      assert |PositionsBoth(s, p, q)| == |PositionsBoth(init, p, q)| + (if p(x) && q(x) then 1 else 0) by {
        assert s == init + [x];
        PositionsBothSnoc(init, x, p, q);
      }
      if p(x) {
        assert Filter(s, p) == f + [x];
        CountSnoc(f, x, q);
      } else {
        assert Filter(s, p) == f + [];
        assert f + [] == f;
      }
    }
  }

  /** Filtering depends only on which elements the predicate accepts. */
  lemma {:induction false} FilterExtensional<T(!new)>(s: seq<T>, p: T -> bool, q: T -> bool)
    requires forall x :: x in s ==> p(x) == q(x)
    ensures Filter(s, p) == Filter(s, q)
    decreases |s|
  {
    if |s| > 0 {
      var init := s[..|s| - 1];
      assert forall x :: x in init ==> x in s;
      FilterExtensional(init, p, q);
    }
  }
}
