/** A stable sort by an integer key, standing for Python's `sorted(..., key=...)`.
    Every stable sort by the same key produces the same list, so insertion
    sort is an exact stand-in for the library's sort. */
module Sorting {

  /** Inserts `x` before the first element whose key is not smaller. */
  function Insert<T>(x: T, s: seq<T>, key: T -> int): (r: seq<T>)
    ensures |r| == |s| + 1
    ensures multiset(r) == multiset(s) + multiset{x}
  {
    if |s| == 0 || key(x) <= key(s[0]) then [x] + s
    else
      assert s == [s[0]] + s[1..];
      [s[0]] + Insert(x, s[1..], key)
  }

  /** Sorts ascending by `key`, keeping equal keys in their input order. */
  function SortBy<T>(s: seq<T>, key: T -> int): (r: seq<T>)
    ensures |r| == |s|
    ensures multiset(r) == multiset(s)
  {
    if |s| == 0 then []
    else
      assert s == [s[0]] + s[1..];
      Insert(s[0], SortBy(s[1..], key), key)
  }

  predicate Ascending<T>(s: seq<T>, key: T -> int)
  {
    forall i, j :: 0 <= i < j < |s| ==> key(s[i]) <= key(s[j])
  }

  lemma {:induction false} InsertAscending<T>(x: T, s: seq<T>, key: T -> int)
    requires Ascending(s, key)
    ensures Ascending(Insert(x, s, key), key)
  {
    if |s| > 0 && key(x) > key(s[0]) {
      InsertAscending(x, s[1..], key);
      var r := Insert(x, s[1..], key);
      forall y | y in r
        ensures key(s[0]) <= key(y)
      {
        assert y in multiset(r);
        if y != x {
          assert y in multiset(s[1..]);
          var k :| 0 <= k < |s[1..]| && s[1..][k] == y;
          assert s[k + 1] == y;
        }
      }
    }
  }

  /** The sorted list is in ascending key order. */
  lemma {:induction false} SortByAscending<T>(s: seq<T>, key: T -> int)
    ensures Ascending(SortBy(s, key), key)
  {
    if |s| > 0 {
      SortByAscending(s[1..], key);
      InsertAscending(s[0], SortBy(s[1..], key), key);
    }
  }

  /** The elements of `s` whose key is `c`, in order. */
  function Keep<T>(s: seq<T>, key: T -> int, c: int): (r: seq<T>)
    ensures |r| <= |s|
  {
    if |s| == 0 then []
    else (if key(s[0]) == c then [s[0]] else []) + Keep(s[1..], key, c)
  }

  lemma {:induction false} KeepInsert<T>(x: T, s: seq<T>, key: T -> int, c: int)
    ensures Keep(Insert(x, s, key), key, c) == Keep([x] + s, key, c)
  {
    var r := Insert(x, s, key);
    if |s| == 0 || key(x) <= key(s[0]) {
    } else {
      assert r == [s[0]] + Insert(x, s[1..], key);
      assert r[1..] == Insert(x, s[1..], key);
      KeepInsert(x, s[1..], key, c);
      assert ([x] + s)[1..] == s;
      assert ([x] + s[1..])[1..] == s[1..];
      assert s == [s[0]] + s[1..];
    }
  }

  /** Stability: for every key value, the elements with that key appear in
      the sorted list in the same order as in the input. */
  lemma {:induction false} SortByStable<T>(s: seq<T>, key: T -> int, c: int)
    ensures Keep(SortBy(s, key), key, c) == Keep(s, key, c)
  {
    if |s| > 0 {
      SortByStable(s[1..], key, c);
      KeepInsert(s[0], SortBy(s[1..], key), key, c);
      assert ([s[0]] + SortBy(s[1..], key))[1..] == SortBy(s[1..], key);
    }
  }

  /** `s` is strictly increasing in `rank`. */
  predicate RankIncreasing<T>(s: seq<T>, rank: T -> int)
  {
    forall i, j :: 0 <= i < j < |s| ==> rank(s[i]) < rank(s[j])
  }

  /** `s` is strictly ordered by key first and rank second. */
  predicate OrderedByKeyThenRank<T>(s: seq<T>, key: T -> int, rank: T -> int)
  {
    forall i, j :: 0 <= i < j < |s| ==>
      key(s[i]) < key(s[j]) || (key(s[i]) == key(s[j]) && rank(s[i]) < rank(s[j]))
  }

  /** `x` comes strictly before `y` in the key-then-rank order. */
  predicate Precedes<T>(x: T, y: T, key: T -> int, rank: T -> int)
  {
    key(x) < key(y) || (key(x) == key(y) && rank(x) < rank(y))
  }

  lemma PrependOrdered<T>(x: T, s: seq<T>, key: T -> int, rank: T -> int)
    requires OrderedByKeyThenRank(s, key, rank)
    requires forall y :: y in s ==> Precedes(x, y, key, rank)
    ensures OrderedByKeyThenRank([x] + s, key, rank)
  {
    var r := [x] + s;
    forall i, j | 0 <= i < j < |r|
      ensures Precedes(r[i], r[j], key, rank)
    {
      assert r[j] == s[j - 1] && s[j - 1] in s;
      if i > 0 {
        assert r[i] == s[i - 1];
      }
    }
  }

  lemma InsertMembers<T>(x: T, s: seq<T>, key: T -> int, y: T)
    requires y in Insert(x, s, key)
    ensures y == x || y in s
  {
    assert y in multiset(Insert(x, s, key));
  }

  lemma {:induction false} InsertOrdered<T>(x: T, s: seq<T>, key: T -> int, rank: T -> int)
    requires OrderedByKeyThenRank(s, key, rank)
    requires forall y :: y in s ==> rank(x) < rank(y)
    ensures OrderedByKeyThenRank(Insert(x, s, key), key, rank)
  {
    if |s| == 0 {
    } else if key(x) <= key(s[0]) {
      forall y | y in s
        ensures Precedes(x, y, key, rank)
      {
        var k :| 0 <= k < |s| && s[k] == y;
        if k > 0 {
          assert Precedes(s[0], s[k], key, rank);
        }
      }
      PrependOrdered(x, s, key, rank);
    } else {
      var tail := s[1..];
      assert OrderedByKeyThenRank(tail, key, rank);
      assert forall y :: y in tail ==> y in s;
      InsertOrdered(x, tail, key, rank);
      var t := Insert(x, tail, key);
      forall y | y in t
        ensures Precedes(s[0], y, key, rank)
      {
        InsertMembers(x, tail, key, y);
        if y != x {
          var k :| 0 <= k < |tail| && tail[k] == y;
          assert s[k + 1] == y;
        }
      }
      PrependOrdered(s[0], t, key, rank);
    }
  }

  /** When the input is strictly increasing in `rank`, the sorted list is
      ordered by key, and elements with equal keys keep increasing rank. */
  lemma {:induction false} SortByOrdered<T>(s: seq<T>, key: T -> int, rank: T -> int)
    requires RankIncreasing(s, rank)
    ensures OrderedByKeyThenRank(SortBy(s, key), key, rank)
  {
    if |s| > 0 {
      assert RankIncreasing(s[1..], rank);
      SortByOrdered(s[1..], key, rank);
      var t := SortBy(s[1..], key);
      forall y | y in t
        ensures rank(s[0]) < rank(y)
      {
        assert y in multiset(t);
        assert y in multiset(s[1..]);
        var k :| 0 <= k < |s[1..]| && s[1..][k] == y;
        assert s[k + 1] == y;
      }
      InsertOrdered(s[0], t, key, rank);
    }
  }

  /** Sum of `weight` over a list. */
  function Total<T>(s: seq<T>, weight: T -> int): int
  {
    if |s| == 0 then 0 else weight(s[0]) + Total(s[1..], weight)
  }

  lemma {:induction false} InsertTotal<T>(x: T, s: seq<T>, key: T -> int, weight: T -> int)
    ensures Total(Insert(x, s, key), weight) == weight(x) + Total(s, weight)
  {
    if |s| > 0 && key(x) > key(s[0]) {
      InsertTotal(x, s[1..], key, weight);
      var r := Insert(x, s, key);
      assert r[1..] == Insert(x, s[1..], key);
    }
  }

  /** Sorting does not change a sum over the list. */
  lemma {:induction false} SortByTotal<T>(s: seq<T>, key: T -> int, weight: T -> int)
    ensures Total(SortBy(s, key), weight) == Total(s, weight)
  {
    if |s| > 0 {
      SortByTotal(s[1..], key, weight);
      InsertTotal(s[0], SortBy(s[1..], key), key, weight);
    }
  }

  lemma {:induction false} TotalAppend<T>(a: seq<T>, b: seq<T>, weight: T -> int)
    ensures Total(a + b, weight) == Total(a, weight) + Total(b, weight)
  {
    if |a| > 0 {
      TotalAppend(a[1..], b, weight);
      assert (a + b)[1..] == a[1..] + b;
    } else {
      assert a + b == b;
    }
  }

  /** Cutting a list short keeps, for every key, a prefix of the elements
      with that key. */
  lemma {:induction false} KeepOfPrefix<T>(s: seq<T>, n: nat, key: T -> int, c: int)
    requires n <= |s|
    ensures Keep(s[..n], key, c) <= Keep(s, key, c)
  {
    if n > 0 {
      KeepOfPrefix(s[1..], n - 1, key, c);
      assert s[..n][1..] == s[1..][..n - 1];
      assert s[..n][0] == s[0];
    }
  }

  /** Equal multisets have the same members. */
  lemma SameMembers<T>(a: seq<T>, b: seq<T>, x: T)
    requires multiset(a) == multiset(b)
    ensures x in a <==> x in b
  {
    assert x in a <==> x in multiset(a);
    assert x in b <==> x in multiset(b);
  }

  /** A prefix of a permutation of `b` holds only members of `b`. */
  lemma PrefixMembers<T>(a: seq<T>, b: seq<T>, n: nat)
    requires multiset(a) == multiset(b)
    requires n <= |a|
    ensures forall x :: x in a[..n] ==> x in b
  {
    forall x | x in a[..n]
      ensures x in b
    {
      SameMembers(a, b, x);
    }
  }
}
