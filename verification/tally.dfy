/** Grouped counts, the `d[k] = d.get(k, 0) + 1` idiom of a Python dict. A
    dict is an association list in insertion order: a new key goes to the end,
    an existing key keeps its place. */
module Tally {

  /** Each key appears at most once. */
  ghost predicate DistinctKeys<K>(b: seq<(K, nat)>)
  {
    forall i, j :: 0 <= i < j < |b| ==> b[i].0 != b[j].0
  }

  /** Every stored count is at least one: a key is only present once counted. */
  ghost predicate Positive<K>(b: seq<(K, nat)>)
  {
    forall i :: 0 <= i < |b| ==> b[i].1 >= 1
  }

  /** The position of key `k`, or `|b|` when `k` is absent. */
  function Find<K(==)>(b: seq<(K, nat)>, k: K): (i: nat)
    ensures i <= |b|
    ensures i < |b| ==> b[i].0 == k
    ensures forall j :: 0 <= j < i ==> b[j].0 != k
    decreases |b|
  {
    if |b| == 0 then 0
    else if b[0].0 == k then 0
    else 1 + Find(b[1..], k)
  }

  /** `d.get(k, 0)`. */
  function Get<K(==)>(b: seq<(K, nat)>, k: K): nat
  {
    var i := Find(b, k);
    if i < |b| then b[i].1 else 0
  }

  /** The sum of all counts. */
  function Total<K>(b: seq<(K, nat)>): nat
  {
    if |b| == 0 then 0 else Total(b[..|b| - 1]) + b[|b| - 1].1
  }

  /** The keys present, as a set. */
  function Keys<K>(b: seq<(K, nat)>): set<K>
  {
    set i | 0 <= i < |b| :: b[i].0
  }

  lemma {:induction false} TotalAppend<K>(b: seq<(K, nat)>, x: (K, nat))
    ensures Total(b + [x]) == Total(b) + x.1
  {
    assert (b + [x])[..|b|] == b;
  }

  lemma {:induction false} TotalUpdate<K>(b: seq<(K, nat)>, i: nat, x: (K, nat))
    requires i < |b|
    ensures Total(b[i := x]) + b[i].1 == Total(b) + x.1
    decreases |b|
  {
    var c := b[i := x];
    if i < |b| - 1 {
      assert c[..|c| - 1] == b[..|b| - 1][i := x];
      TotalUpdate(b[..|b| - 1], i, x);
    } else {
      assert c[..|c| - 1] == b[..|b| - 1];
    }
  }

  /** Under positive counts, a key is present exactly when its count is positive. */
  lemma GetPositiveIffKey<K>(b: seq<(K, nat)>, k: K)
    requires Positive(b)
    ensures Get(b, k) > 0 <==> k in Keys(b)
  {
    if k in Keys(b) {
      var i :| 0 <= i < |b| && b[i].0 == k;
      assert Find(b, k) <= i;
    }
  }

  /** `Find` returns the first position holding `k`, and only that. */
  lemma FindFirst<K>(b: seq<(K, nat)>, k: K, i: nat)
    requires i <= |b|
    requires i < |b| ==> b[i].0 == k
    requires forall j :: 0 <= j < i ==> b[j].0 != k
    ensures Find(b, k) == i
  {
  }

  /** Appending a key not yet present leaves every other count alone. */
  lemma GetAppendFresh<K>(b: seq<(K, nat)>, k: K, j: K)
    requires Find(b, k) == |b|
    ensures Get(b + [(k, 1)], j) == Get(b, j) + (if j == k then 1 else 0)
  {
    var r := b + [(k, 1)];
    var fb := Find(b, j);
    if fb < |b| {
      FindFirst(r, j, fb);
    } else if j == k {
      FindFirst(r, j, |b|);
    } else {
      FindFirst(r, j, |r|);
    }
  }

  /** Appending a fresh key keeps the keys distinct and adds it to the key set. */
  lemma AppendFreshKeys<K>(b: seq<(K, nat)>, k: K)
    requires DistinctKeys(b) && Positive(b)
    requires forall m :: 0 <= m < |b| ==> b[m].0 != k
    ensures DistinctKeys(b + [(k, 1)]) && Positive(b + [(k, 1)])
    ensures Keys(b + [(k, 1)]) == Keys(b) + {k}
  {
    var r := b + [(k, 1)];
    assert forall m :: 0 <= m < |b| ==> r[m] == b[m];
    assert r[|b|].0 == k;
  }

  /** Appending a fresh key with count one. */
  lemma AppendFresh<K>(b: seq<(K, nat)>, k: K)
    requires DistinctKeys(b) && Positive(b)
    requires Find(b, k) == |b|
    ensures DistinctKeys(b + [(k, 1)]) && Positive(b + [(k, 1)])
    ensures forall j :: Get(b + [(k, 1)], j) == Get(b, j) + (if j == k then 1 else 0)
    ensures Total(b + [(k, 1)]) == Total(b) + 1
    ensures Keys(b + [(k, 1)]) == Keys(b) + {k}
  {
    TotalAppend(b, (k, 1));
    forall j ensures Get(b + [(k, 1)], j) == Get(b, j) + (if j == k then 1 else 0) {
      GetAppendFresh(b, k, j);
    }
    AppendFreshKeys(b, k);
  }

  /** Replacing the entry at the position of `k` changes only `k`'s count. */
  lemma GetBump<K>(b: seq<(K, nat)>, k: K, i: nat, j: K)
    requires i == Find(b, k) < |b|
    ensures Get(b[i := (k, b[i].1 + 1)], j) == Get(b, j) + (if j == k then 1 else 0)
  {
    var r := b[i := (k, b[i].1 + 1)];
    assert forall m :: 0 <= m < |b| ==> r[m].0 == b[m].0;
    FindFirst(r, j, Find(b, j));
  }

  /** Adding one to the count of a key already present at `i`. */
  lemma BumpPresent<K>(b: seq<(K, nat)>, k: K, i: nat)
    requires DistinctKeys(b) && Positive(b)
    requires i == Find(b, k) < |b|
    ensures var r := b[i := (k, b[i].1 + 1)];
      && DistinctKeys(r) && Positive(r)
      && (forall j :: Get(r, j) == Get(b, j) + (if j == k then 1 else 0))
      && Total(r) == Total(b) + 1
      && Keys(r) == Keys(b)
  {
    var r := b[i := (k, b[i].1 + 1)];
    TotalUpdate(b, i, (k, b[i].1 + 1));
    forall j ensures Get(r, j) == Get(b, j) + (if j == k then 1 else 0) {
      GetBump(b, k, i, j);
    }
    assert DistinctKeys(r) && Positive(r) && Keys(r) == Keys(b) by {
      assert forall m :: 0 <= m < |b| ==> r[m].0 == b[m].0;
    }
  }

  /** `d[k] = d.get(k, 0) + 1`. */
  function Increment<K(==,!new)>(b: seq<(K, nat)>, k: K): (r: seq<(K, nat)>)
    requires DistinctKeys(b)
    requires Positive(b)
    ensures DistinctKeys(r)
    ensures Positive(r)
    ensures forall j :: Get(r, j) == Get(b, j) + (if j == k then 1 else 0)
    ensures Total(r) == Total(b) + 1
    ensures Keys(r) == Keys(b) + {k}
    ensures |b| <= |r| <= |b| + 1
    ensures forall i :: 0 <= i < |b| ==> r[i].0 == b[i].0
  {
    var i := Find(b, k);
    if i == |b| then
      AppendFresh(b, k);
      b + [(k, 1)]
    else
      BumpPresent(b, k, i);
      b[i := (k, b[i].1 + 1)]
  }

  /** The positions of `s` whose key is `k`. */
  ghost function KeyPositions<T, K>(s: seq<T>, key: T -> K, k: K): set<int>
  {
    set i | 0 <= i < |s| && key(s[i]) == k
  }

  lemma KeyPositionsSnoc<T, K>(s: seq<T>, x: T, key: T -> K, k: K)
    ensures KeyPositions(s + [x], key, k)
         == KeyPositions(s, key, k) + (if key(x) == k then {|s|} else {})
    ensures |s| !in KeyPositions(s, key, k)
  {
    var t := s + [x];
    forall i | i in KeyPositions(t, key, k)
      ensures i in KeyPositions(s, key, k) + (if key(x) == k then {|s|} else {})
    {
      if i < |s| { assert t[i] == s[i]; }
    }
    forall i | i in KeyPositions(s, key, k) ensures i in KeyPositions(t, key, k) {
      assert t[i] == s[i];
    }
  }

  /** The keys of the elements of `s`. */
  ghost function KeysOf<T, K>(s: seq<T>, key: T -> K): set<K>
  {
    set i | 0 <= i < |s| :: key(s[i])
  }

  lemma KeysOfSnoc<T, K>(s: seq<T>, x: T, key: T -> K)
    ensures KeysOf(s + [x], key) == KeysOf(s, key) + {key(x)}
  {
    var t := s + [x];
    forall y | y in KeysOf(t, key) ensures y in KeysOf(s, key) + {key(x)} {
      var i :| 0 <= i < |t| && key(t[i]) == y;
      if i < |s| { assert t[i] == s[i]; }
    }
    forall y | y in KeysOf(s, key) ensures y in KeysOf(t, key) {
      var i :| 0 <= i < |s| && key(s[i]) == y;
      assert t[i] == s[i];
    }
    assert key(t[|s|]) == key(x);
  }

  /** Group the elements of `s` by `key` and count each group, visiting the
      elements in order. */
  function TallyBy<T, K(==,!new)>(s: seq<T>, key: T -> K): (r: seq<(K, nat)>)
    ensures DistinctKeys(r)
    ensures Positive(r)
    ensures forall k :: Get(r, k) == |KeyPositions(s, key, k)|
    ensures Total(r) == |s|
    ensures Keys(r) == KeysOf(s, key)
    decreases |s|
  {
    if |s| == 0 then
      assert forall k :: KeyPositions(s, key, k) == {};
      []
    else
      var init := s[..|s| - 1];
      var x := s[|s| - 1];
      assert s == init + [x];
      var prev := TallyBy(init, key);
      forall k ensures |KeyPositions(s, key, k)| == |KeyPositions(init, key, k)| + (if key(x) == k then 1 else 0) {
        KeyPositionsSnoc(init, x, key, k);
      }
      KeysOfSnoc(init, x, key);
      Increment(prev, key(x))
  }
}
