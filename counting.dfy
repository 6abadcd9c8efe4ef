/** Counting occurrences into an insertion-ordered dictionary, the
    `dist[k] = dist.get(k, 0) + 1` loop of the distributions. A dictionary is
    a list of (key, count) pairs in insertion order. */
module Counting {
  import opened Sorting

  function Occurrences<K(==)>(ks: seq<K>, k: K): nat
  {
    if |ks| == 0 then 0
    else Occurrences(ks[..|ks| - 1], k) + (if ks[|ks| - 1] == k then 1 else 0)
  }

  /** Index of the first `k` in `ks`, or `|ks|` when there is none. */
  function FirstIndex<K(==)>(ks: seq<K>, k: K): (r: nat)
    ensures r <= |ks|
    ensures r < |ks| ==> ks[r] == k
    ensures forall i :: 0 <= i < r ==> ks[i] != k
  {
    if |ks| == 0 then 0 else if ks[0] == k then 0 else 1 + FirstIndex(ks[1..], k)
  }

  predicate HasKey<K(==)>(d: seq<(K, nat)>, k: K)
  {
    exists i :: 0 <= i < |d| && d[i].0 == k
  }

  predicate DistinctKeys<K(==)>(d: seq<(K, nat)>)
  {
    forall i, j :: 0 <= i < j < |d| ==> d[i].0 != d[j].0
  }

  function Count<K>(e: (K, nat)): int
  {
    e.1
  }

  /** `dist[k] = dist.get(k, 0) + 1`: an existing key keeps its place, a new
      key goes at the end. */
  function Bump<K(==)>(d: seq<(K, nat)>, k: K): seq<(K, nat)>
  {
    if |d| == 0 then [(k, 1)]
    else if d[0].0 == k then [(k, d[0].1 + 1)] + d[1..]
    else [d[0]] + Bump(d[1..], k)
  }

  /** The dictionary after counting every key of `ks` in order. */
  function Tally<K(==)>(ks: seq<K>): seq<(K, nat)>
  {
    if |ks| == 0 then [] else Bump(Tally(ks[..|ks| - 1]), ks[|ks| - 1])
  }

  lemma {:induction false} BumpExisting<K>(d: seq<(K, nat)>, k: K)
    requires DistinctKeys(d) && HasKey(d, k)
    ensures |Bump(d, k)| == |d|
    ensures forall i :: 0 <= i < |d| ==>
      Bump(d, k)[i].0 == d[i].0 && Bump(d, k)[i].1 == d[i].1 + (if d[i].0 == k then 1 else 0)
  {
    var t := Bump(d, k);
    if d[0].0 == k {
      assert t == [(k, d[0].1 + 1)] + d[1..];
      forall i | 0 < i < |d|
        ensures d[i].0 != k
      {
        assert d[0].0 != d[i].0;
      }
    } else {
      var rest := d[1..];
      var i :| 0 <= i < |d| && d[i].0 == k;
      assert rest[i - 1].0 == k;
      assert DistinctKeys(rest) by {
        forall a, b | 0 <= a < b < |rest|
          ensures rest[a].0 != rest[b].0
        {
          assert d[a + 1].0 != d[b + 1].0;
        }
      }
      BumpExisting(rest, k);
      assert t == [d[0]] + Bump(rest, k);
      forall j | 0 < j < |d|
        ensures t[j] == Bump(rest, k)[j - 1] && rest[j - 1] == d[j]
      {
      }
    }
  }

  lemma {:induction false} BumpNew<K>(d: seq<(K, nat)>, k: K)
    requires !HasKey(d, k)
    ensures Bump(d, k) == d + [(k, 1)]
  {
    if |d| > 0 {
      assert d[0].0 != k;
      BumpNew(d[1..], k);
      assert d == [d[0]] + d[1..];
    }
  }

  lemma FirstIndexOfPrefix<K>(ks: seq<K>, k: K)
    requires |ks| > 0 && k in ks[..|ks| - 1]
    ensures FirstIndex(ks, k) == FirstIndex(ks[..|ks| - 1], k)
  {
    var p := ks[..|ks| - 1];
    var i :| 0 <= i < |p| && p[i] == k;
    var b := FirstIndex(p, k);
    assert b <= i;
    assert forall j :: 0 <= j < b ==> ks[j] == p[j];
    FirstIndexIs(ks, k, b);
  }

  lemma FirstIndexIs<K>(ks: seq<K>, k: K, r: nat)
    requires r < |ks| && ks[r] == k
    requires forall i :: 0 <= i < r ==> ks[i] != k
    ensures FirstIndex(ks, k) == r
  {
  }

  lemma FirstIndexOfLast<K>(ks: seq<K>)
    requires |ks| > 0 && ks[|ks| - 1] !in ks[..|ks| - 1]
    ensures FirstIndex(ks, ks[|ks| - 1]) == |ks| - 1
  {
  }

  /** Counting a key already present keeps the keys distinct and the key
      set unchanged. */
  lemma BumpShapeExisting<K>(d: seq<(K, nat)>, x: K)
    requires DistinctKeys(d) && HasKey(d, x)
    ensures DistinctKeys(Bump(d, x))
    ensures forall k :: HasKey(Bump(d, x), k) <==> HasKey(d, k) || k == x
  {
    BumpExisting(d, x);
    var t := Bump(d, x);
    forall i, j | 0 <= i < j < |t|
      ensures t[i].0 != t[j].0
    {
      assert d[i].0 != d[j].0;
    }
    forall k
      ensures HasKey(t, k) <==> HasKey(d, k) || k == x
    {
      if HasKey(t, k) {
        var i :| 0 <= i < |t| && t[i].0 == k;
        assert d[i].0 == k;
      }
      if HasKey(d, k) {
        var i :| 0 <= i < |d| && d[i].0 == k;
        assert t[i].0 == k;
      }
    }
  }

  /** Counting a new key appends it, keeping the keys distinct. */
  lemma BumpShapeNew<K>(d: seq<(K, nat)>, x: K)
    requires DistinctKeys(d) && !HasKey(d, x)
    ensures DistinctKeys(Bump(d, x))
    ensures forall k :: HasKey(Bump(d, x), k) <==> HasKey(d, k) || k == x
  {
    BumpNew(d, x);
    var t := Bump(d, x);
    forall i, j | 0 <= i < j < |t|
      ensures t[i].0 != t[j].0
    {
      if j == |d| {
        assert !(d[i].0 == x);
      }
    }
    forall k
      ensures HasKey(t, k) <==> HasKey(d, k) || k == x
    {
      if HasKey(t, k) {
        var i :| 0 <= i < |t| && t[i].0 == k;
        if i < |d| {
          assert d[i].0 == k;
        }
      }
      if HasKey(d, k) {
        var i :| 0 <= i < |d| && d[i].0 == k;
        assert t[i].0 == k;
      }
      if k == x {
        assert t[|d|].0 == k;
      }
    }
  }

  /** After counting one more key, every count is still the number of
      occurrences of its key. */
  lemma BumpOccurrences<K>(p: seq<K>, x: K)
    requires DistinctKeys(Tally(p))
    requires forall i :: 0 <= i < |Tally(p)| ==>
      Tally(p)[i].1 == Occurrences(p, Tally(p)[i].0) && Tally(p)[i].1 > 0
    requires forall k :: k in p <==> HasKey(Tally(p), k)
    ensures forall i :: 0 <= i < |Tally(p + [x])| ==>
      Tally(p + [x])[i].1 == Occurrences(p + [x], Tally(p + [x])[i].0) && Tally(p + [x])[i].1 > 0
  {
    var d := Tally(p);
    var t := Bump(d, x);
    var ks := p + [x];
    assert ks[..|p|] == p;
    assert Tally(ks) == t;
    assert forall k :: Occurrences(ks, k) == Occurrences(p, k) + (if x == k then 1 else 0);
    if HasKey(d, x) {
      BumpExisting(d, x);
    } else {
      BumpNew(d, x);
      OccurrencesAbsent(p, x);
      assert t[|d|] == (x, 1);
    }
  }

  /** The tally has one entry per distinct key, holding its number of
      occurrences. */
  lemma {:induction false} TallyCounts<K>(ks: seq<K>)
    ensures DistinctKeys(Tally(ks))
    ensures forall i :: 0 <= i < |Tally(ks)| ==>
      Tally(ks)[i].1 == Occurrences(ks, Tally(ks)[i].0) && Tally(ks)[i].1 > 0
    ensures forall k :: k in ks <==> HasKey(Tally(ks), k)
  {
    if |ks| > 0 {
      var p, x := ks[..|ks| - 1], ks[|ks| - 1];
      TallyCounts(p);
      var d := Tally(p);
      assert ks == p + [x];
      assert Tally(ks) == Bump(d, x);
      if HasKey(d, x) {
        BumpShapeExisting(d, x);
      } else {
        BumpShapeNew(d, x);
      }
      BumpOccurrences(p, x);
      assert forall k :: k in ks <==> k in p || k == x;
    }
  }

  lemma {:induction false} OccurrencesAbsent<K>(ks: seq<K>, k: K)
    requires k !in ks
    ensures Occurrences(ks, k) == 0
  {
    if |ks| > 0 {
      assert forall y :: y in ks[..|ks| - 1] ==> y in ks;
      OccurrencesAbsent(ks[..|ks| - 1], k);
    }
  }

  /** The tally's keys appear in the order of their first occurrence. */
  lemma RankAfterBumpExisting<K>(p: seq<K>, x: K)
    requires RankIncreasing(Tally(p), (e: (K, nat)) => FirstIndex(p, e.0))
    requires DistinctKeys(Tally(p)) && HasKey(Tally(p), x)
    requires forall k :: k in p <==> HasKey(Tally(p), k)
    ensures RankIncreasing(Bump(Tally(p), x), (e: (K, nat)) => FirstIndex(p + [x], e.0))
  {
    var ks := p + [x];
    var d := Tally(p);
    var t := Bump(d, x);
    assert ks[..|ks| - 1] == p;
    BumpExisting(d, x);
    forall i, j | 0 <= i < j < |t|
      ensures FirstIndex(ks, t[i].0) < FirstIndex(ks, t[j].0)
    {
      assert HasKey(d, d[i].0) && HasKey(d, d[j].0);
      FirstIndexOfPrefix(ks, d[i].0);
      FirstIndexOfPrefix(ks, d[j].0);
      assert FirstIndex(p, d[i].0) < FirstIndex(p, d[j].0);
    }
  }

  lemma RankAfterBumpNew<K>(p: seq<K>, x: K)
    requires RankIncreasing(Tally(p), (e: (K, nat)) => FirstIndex(p, e.0))
    requires !HasKey(Tally(p), x)
    requires forall k :: k in p <==> HasKey(Tally(p), k)
    ensures RankIncreasing(Bump(Tally(p), x), (e: (K, nat)) => FirstIndex(p + [x], e.0))
  {
    var ks := p + [x];
    var d := Tally(p);
    var t := Bump(d, x);
    assert ks[..|ks| - 1] == p;
    BumpNew(d, x);
    FirstIndexOfLast(ks);
    forall i, j | 0 <= i < j < |t|
      ensures FirstIndex(ks, t[i].0) < FirstIndex(ks, t[j].0)
    {
      assert HasKey(d, d[i].0);
      FirstIndexOfPrefix(ks, d[i].0);
      if j < |d| {
        assert HasKey(d, d[j].0);
        FirstIndexOfPrefix(ks, d[j].0);
        assert FirstIndex(p, d[i].0) < FirstIndex(p, d[j].0);
      }
    }
  }

  /** The tally's keys appear in the order of their first occurrence. */
  lemma {:induction false} TallyFirstOccurrenceOrder<K>(ks: seq<K>)
    ensures RankIncreasing(Tally(ks), (e: (K, nat)) => FirstIndex(ks, e.0))
  {
    if |ks| > 0 {
      var p, x := ks[..|ks| - 1], ks[|ks| - 1];
      TallyFirstOccurrenceOrder(p);
      TallyCounts(p);
      assert ks == p + [x];
      if HasKey(Tally(p), x) {
        RankAfterBumpExisting(p, x);
      } else {
        RankAfterBumpNew(p, x);
      }
    }
  }

  lemma {:induction false} BumpTotal<K>(d: seq<(K, nat)>, k: K)
    ensures Total(Bump(d, k), Count) == Total(d, Count) + 1
  {
    if |d| > 0 && d[0].0 != k {
      BumpTotal(d[1..], k);
      assert Bump(d, k)[1..] == Bump(d[1..], k);
    }
  }

  /** The counts of a tally add up to the number of values counted. */
  lemma {:induction false} TallyTotal<K>(ks: seq<K>)
    ensures Total(Tally(ks), Count) == |ks|
  {
    if |ks| > 0 {
      TallyTotal(ks[..|ks| - 1]);
      BumpTotal(Tally(ks[..|ks| - 1]), ks[|ks| - 1]);
    }
  }
}
