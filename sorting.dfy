/**
 * The newest-first ordering used by lib/db.ts and lib/db/stats.ts: both
 * sort records with a comparator that subtracts the first record's time from
 * the second's, so the result runs from the largest key to the smallest, and
 * the JavaScript sort is stable, so records with equal keys keep their
 * relative order. Both then take a leading slice.
 */
module Sorting {
  import opened Geometry

  /** Keys never increase from left to right. */
  predicate Descending<T>(s: seq<T>, key: T -> int)
  {
    forall i, j :: 0 <= i < j < |s| ==> key(s[i]) >= key(s[j])
  }

  /** The records whose key is `t`, in their order. */
  function WithKey<T>(s: seq<T>, key: T -> int, t: int): (r: seq<T>)
    ensures |r| <= |s|
  {
    if s == [] then []
    else (if key(s[0]) == t then [s[0]] else []) + WithKey(s[1..], key, t)
  }

  /** Places `x` after every record whose key is at least its own. */
  function Insert<T>(sorted: seq<T>, x: T, key: T -> int): (r: seq<T>)
    ensures |r| == |sorted| + 1
    ensures multiset(r) == multiset(sorted) + multiset{x}
  {
    if sorted == [] then [x]
    else if key(sorted[0]) >= key(x) then
      assert sorted == [sorted[0]] + sorted[1..];
      [sorted[0]] + Insert(sorted[1..], x, key)
    else [x] + sorted
  }

  /**
   * The stable sort by descending key: the records taken in order, each
   * placed after the records already placed whose key is at least its own.
   */
  function SortDescending<T>(s: seq<T>, key: T -> int): (r: seq<T>)
    ensures |r| == |s|
    ensures multiset(r) == multiset(s)
  {
    if s == [] then []
    else
      assert s == s[..|s| - 1] + [s[|s| - 1]];
      Insert(SortDescending(s[..|s| - 1], key), s[|s| - 1], key)
  }

  lemma ConsDescending<T>(a: T, rest: seq<T>, key: T -> int)
    requires Descending(rest, key)
    requires forall y :: y in rest ==> key(a) >= key(y)
    ensures Descending([a] + rest, key)
  {
    forall i, j | 0 <= i < j < |[a] + rest|
      ensures key(([a] + rest)[i]) >= key(([a] + rest)[j])
    {
      assert ([a] + rest)[j] == rest[j - 1];
      if i > 0 {
        assert ([a] + rest)[i] == rest[i - 1];
      }
    }
  }

  lemma InsertMembers<T>(sorted: seq<T>, x: T, key: T -> int)
    ensures forall y :: y in Insert(sorted, x, key) ==> y == x || y in sorted
  {
    forall y | y in Insert(sorted, x, key)
      ensures y == x || y in sorted
    {
      assert y in multiset(Insert(sorted, x, key));
    }
  }

  lemma {:induction false} InsertDescending<T>(sorted: seq<T>, x: T, key: T -> int)
    requires Descending(sorted, key)
    ensures Descending(Insert(sorted, x, key), key)
  {
    if sorted == [] {
      assert Insert(sorted, x, key) == [x];
    } else if key(sorted[0]) >= key(x) {
      DescendingTail(sorted, key);
      InsertDescending(sorted[1..], x, key);
      InsertMembers(sorted[1..], x, key);
      ConsDescending(sorted[0], Insert(sorted[1..], x, key), key);
    } else {
      DescendingTail(sorted, key);
      ConsDescending(x, sorted, key);
    }
  }

  /** The sort's result is in descending key order. */
  lemma {:induction false} SortIsDescending<T>(s: seq<T>, key: T -> int)
    ensures Descending(SortDescending(s, key), key)
  {
    if s != [] {
      SortIsDescending(s[..|s| - 1], key);
      InsertDescending(SortDescending(s[..|s| - 1], key), s[|s| - 1], key);
    }
  }

  lemma {:induction false} WithKeyAppend<T>(a: seq<T>, b: seq<T>, key: T -> int, t: int)
    ensures WithKey(a + b, key, t) == WithKey(a, key, t) + WithKey(b, key, t)
  {
    if a != [] {
      var head := if key(a[0]) == t then [a[0]] else [];
      assert (a + b)[0] == a[0];
      assert (a + b)[1..] == a[1..] + b;
      WithKeyAppend(a[1..], b, key, t);
      assert WithKey(a + b, key, t) == head + WithKey(a[1..] + b, key, t);
      assert WithKey(a, key, t) == head + WithKey(a[1..], key, t);
    } else {
      assert a + b == b;
    }
  }

  lemma {:induction false} WithKeyNone<T>(s: seq<T>, key: T -> int, t: int)
    requires forall i :: 0 <= i < |s| ==> key(s[i]) < t
    ensures WithKey(s, key, t) == []
  {
    if s != [] {
      WithKeyNone(s[1..], key, t);
    }
  }

  lemma WithKeyUnfold<T>(s: seq<T>, key: T -> int, t: int)
    requires s != []
    ensures WithKey(s, key, t) == (if key(s[0]) == t then [s[0]] else []) + WithKey(s[1..], key, t)
  {
  }

  lemma WithKeyCons<T>(x: T, s: seq<T>, key: T -> int, t: int)
    ensures WithKey([x] + s, key, t) == (if key(x) == t then [x] else []) + WithKey(s, key, t)
  {
    assert ([x] + s)[0] == x;
    assert ([x] + s)[1..] == s;
  }

  lemma DescendingTail<T>(s: seq<T>, key: T -> int)
    requires s != [] && Descending(s, key)
    ensures Descending(s[1..], key)
    ensures forall i :: 0 <= i < |s| ==> key(s[i]) <= key(s[0])
  {
    forall i, j | 0 <= i < j < |s| - 1
      ensures key(s[1..][i]) >= key(s[1..][j])
    {
      assert s[1..][i] == s[i + 1] && s[1..][j] == s[j + 1];
    }
  }

  /** Inserting in front of a sorted list whose keys are all smaller. */
  lemma InsertInFront<T>(sorted: seq<T>, x: T, key: T -> int, t: int)
    requires sorted != [] && Descending(sorted, key) && key(sorted[0]) < key(x)
    ensures WithKey(Insert(sorted, x, key), key, t) == WithKey(sorted, key, t) + (if key(x) == t then [x] else [])
  {
    assert Insert(sorted, x, key) == [x] + sorted;
    WithKeyCons(x, sorted, key, t);
    if key(x) == t {
      DescendingTail(sorted, key);
      WithKeyNone(sorted, key, t);
    }
  }

  /** Inserting behind the first record, given the stability of inserting into the rest. */
  /** Putting the first record back in front of a list with the same records of key `t` as the rest, plus `x`. */
  lemma ConsStable<T>(sorted: seq<T>, rest: seq<T>, x: T, key: T -> int, t: int)
    requires sorted != []
    requires WithKey(rest, key, t) == WithKey(sorted[1..], key, t) + (if key(x) == t then [x] else [])
    ensures WithKey([sorted[0]] + rest, key, t) == WithKey(sorted, key, t) + (if key(x) == t then [x] else [])
  {
    WithKeyCons(sorted[0], rest, key, t);
  }

  /** Inserting behind the first record, given the stability of inserting into the rest. */
  lemma InsertBehind<T>(sorted: seq<T>, x: T, key: T -> int, t: int)
    requires sorted != [] && key(sorted[0]) >= key(x)
    requires WithKey(Insert(sorted[1..], x, key), key, t) == WithKey(sorted[1..], key, t) + (if key(x) == t then [x] else [])
    ensures WithKey(Insert(sorted, x, key), key, t) == WithKey(sorted, key, t) + (if key(x) == t then [x] else [])
  {
    ConsStable(sorted, Insert(sorted[1..], x, key), x, key, t);
  }

  lemma {:induction false} InsertStable<T>(sorted: seq<T>, x: T, key: T -> int, t: int)
    requires Descending(sorted, key)
    ensures WithKey(Insert(sorted, x, key), key, t) == WithKey(sorted, key, t) + (if key(x) == t then [x] else [])
  {
    if sorted == [] {
      assert Insert(sorted, x, key) == [x] + [];
      WithKeyCons(x, [], key, t);
    } else if key(sorted[0]) >= key(x) {
      DescendingTail(sorted, key);
      InsertStable(sorted[1..], x, key, t);
      InsertBehind(sorted, x, key, t);
    } else {
      InsertInFront(sorted, x, key, t);
    }
  }

  lemma WithKeyLast<T>(s: seq<T>, key: T -> int, t: int)
    requires s != []
    ensures WithKey(s, key, t) == WithKey(s[..|s| - 1], key, t) + (if key(s[|s| - 1]) == t then [s[|s| - 1]] else [])
  {
    var init, last := s[..|s| - 1], s[|s| - 1];
    assert s == init + [last];
    WithKeyAppend(init, [last], key, t);
    WithKeyCons(last, [], key, t);
    assert [last] + [] == [last];
  }

  /** Stability: for every key, the records with that key keep their relative order. */
  lemma {:induction false} SortIsStable<T>(s: seq<T>, key: T -> int, t: int)
    ensures WithKey(SortDescending(s, key), key, t) == WithKey(s, key, t)
  {
    if s != [] {
      var init, last := s[..|s| - 1], s[|s| - 1];
      SortIsStable(init, key, t);
      SortIsDescending(init, key);
      InsertStable(SortDescending(init, key), last, key, t);
      WithKeyLast(s, key, t);
    }
  }

  /** How many records `slice(0, limit)` keeps: a negative limit counts back from the end. */
  function SliceEnd(length: nat, limit: int): (n: nat)
    ensures n <= length
    ensures limit >= 0 ==> n == Min(limit, length)
    ensures limit < 0 ==> n == Max(0, length + limit)
  {
    if limit >= 0 then Min(limit, length) else Max(0, length + limit)
  }

  /**
   * The newest `limit` records of `s` in the JavaScript sense of
   * `slice(0, limit)`: the leading records of the stable descending sort.
   */
  function Newest<T>(s: seq<T>, key: T -> int, limit: int): (r: seq<T>)
    ensures |r| == SliceEnd(|s|, limit)
    ensures multiset(r) <= multiset(s)
  {
    var sorted := SortDescending(s, key);
    MultisetOfPrefix(sorted, SliceEnd(|s|, limit));
    sorted[..SliceEnd(|s|, limit)]
  }

  lemma MultisetOfPrefix<T>(s: seq<T>, n: nat)
    requires n <= |s|
    ensures multiset(s[..n]) <= multiset(s)
  {
    assert s == s[..n] + s[n..];
  }

  /** A descending list splits into a descending prefix whose keys are at least all keys after it. */
  lemma DescendingSplit<T>(s: seq<T>, n: nat, key: T -> int)
    requires n <= |s| && Descending(s, key)
    ensures Descending(s[..n], key)
    ensures forall x, y :: x in s[..n] && y in s[n..] ==> key(x) >= key(y)
  {
    forall x, y | x in s[..n] && y in s[n..]
      ensures key(x) >= key(y)
    {
      var i :| 0 <= i < n && s[..n][i] == x;
      var j :| 0 <= j < |s| - n && s[n..][j] == y;
      assert s[i] == x && s[n + j] == y;
    }
  }

  lemma PrefixRemainder<T>(s: seq<T>, n: nat)
    requires n <= |s|
    ensures multiset(s) - multiset(s[..n]) == multiset(s[n..])
  {
    assert s == s[..n] + s[n..];
  }

  /**
   * What `Newest` keeps: records in descending key order, none of them older
   * than any record it leaves out.
   */
  lemma NewestFacts<T>(s: seq<T>, key: T -> int, limit: int)
    ensures Descending(Newest(s, key, limit), key)
    ensures forall x, y :: x in Newest(s, key, limit) && y in multiset(s) - multiset(Newest(s, key, limit)) ==> key(x) >= key(y)
  {
    var sorted := SortDescending(s, key);
    var n := SliceEnd(|s|, limit);
    SortIsDescending(s, key);
    DescendingSplit(sorted, n, key);
    PrefixRemainder(sorted, n);
    assert multiset(s) - multiset(sorted[..n]) == multiset(sorted[n..]);
  }
}
