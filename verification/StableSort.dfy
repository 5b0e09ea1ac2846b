/** The ordering `sort_values(['SUBJECT_ID', 'ADMITTIME'])` imposes on a table,
    and a stable sort by it.  A missing admit time sorts after every present one
    of the same subject (pandas' `na_position='last'`); rows with equal keys
    keep their input order, as with pandas' multi-key sort. */
module StableSort {
  import opened Wrappers

  /** The sort key of a row: subject first, then admit time. */
  datatype SortKey = SortKey(subject: int, time: Option<int>)

  /** Admit-time order with missing values last. */
  predicate TimeLe(a: Option<int>, b: Option<int>) {
    match (a, b)
    case (Some(x), Some(y)) => x <= y
    case (Some(_), None) => true
    case (None, Some(_)) => false
    case (None, None) => true
  }

  predicate KeyLe(a: SortKey, b: SortKey) {
    a.subject < b.subject || (a.subject == b.subject && TimeLe(a.time, b.time))
  }

  /** `KeyLe` is a total order on keys: rows compare equal only on equal keys. */
  lemma KeyLeTotalOrder(a: SortKey, b: SortKey, c: SortKey)
    ensures KeyLe(a, a)
    ensures KeyLe(a, b) || KeyLe(b, a)
    ensures KeyLe(a, b) && KeyLe(b, a) ==> a == b
    ensures KeyLe(a, b) && KeyLe(b, c) ==> KeyLe(a, c)
  {
  }

  ghost predicate Sorted<T>(s: seq<T>, key: T -> SortKey) {
    forall i, j :: 0 <= i < j < |s| ==> KeyLe(key(s[i]), key(s[j]))
  }

  /** The rows of `s` whose key is `k`, in their order in `s`. */
  function WithKey<T>(s: seq<T>, key: T -> SortKey, k: SortKey): (r: seq<T>)
    ensures |r| <= |s|
  {
    if s == [] then []
    else (if key(s[0]) == k then [s[0]] else []) + WithKey(s[1..], key, k)
  }

  /** Places `x` before the first row of `t` whose key is not below `x`'s. */
  function Insert<T>(x: T, t: seq<T>, key: T -> SortKey): (r: seq<T>)
    requires Sorted(t, key)
    ensures |r| == |t| + 1
    ensures multiset(r) == multiset(t) + multiset{x}
    ensures Sorted(r, key)
  {
    if t == [] || KeyLe(key(x), key(t[0])) then
      KeyLeAll(x, t, key);
      [x] + t
    else
      var rest := Insert(x, t[1..], key);
      assert t == [t[0]] + t[1..];
      InsertTailBound(x, t, key, rest);
      SortedCons(t[0], rest, key);
      [t[0]] + rest
  }

  /** When `x` goes past the head of `t`, the head is below every row of the
      insertion into the tail. */
  lemma InsertTailBound<T>(x: T, t: seq<T>, key: T -> SortKey, rest: seq<T>)
    requires Sorted(t, key) && t != [] && !KeyLe(key(x), key(t[0]))
    requires multiset(rest) == multiset(t[1..]) + multiset{x}
    ensures forall y | y in multiset(rest) :: KeyLe(key(t[0]), key(y))
  {
    KeyLeTotalOrder(key(x), key(t[0]), key(t[0]));
    forall y | y in multiset(rest) ensures KeyLe(key(t[0]), key(y)) {
      if y != x {
        assert y in multiset(t[1..]);
        var k :| 0 <= k < |t[1..]| && t[1..][k] == y;
        assert t[k + 1] == y;
      }
    }
  }

  /** A row below every row of a sorted table can go in front of it. */
  lemma SortedCons<T>(y: T, r: seq<T>, key: T -> SortKey)
    requires Sorted(r, key)
    requires forall z | z in multiset(r) :: KeyLe(key(y), key(z))
    ensures Sorted([y] + r, key)
  {
    assert forall j | 0 <= j < |r| :: r[j] in multiset(r);
  }

  /** In a sorted table, a row below the head is below every row. */
  lemma KeyLeAll<T>(x: T, t: seq<T>, key: T -> SortKey)
    requires Sorted(t, key)
    requires t == [] || KeyLe(key(x), key(t[0]))
    ensures Sorted([x] + t, key)
  {
    forall j | 0 < j < |t|
      ensures KeyLe(key(x), key(t[j]))
    {
      KeyLeTotalOrder(key(x), key(t[0]), key(t[j]));
    }
  }

  /** Stable insertion sort of `s` by `key`. */
  function SortBy<T>(s: seq<T>, key: T -> SortKey): (r: seq<T>)
    ensures |r| == |s|
    ensures multiset(r) == multiset(s)
    ensures Sorted(r, key)
  {
    if s == [] then []
    else
      assert s == [s[0]] + s[1..];
      Insert(s[0], SortBy(s[1..], key), key)
  }

  /** Inserting `x` puts it ahead of the rows of equal key. */
  lemma {:induction false} InsertWithKey<T>(x: T, t: seq<T>, key: T -> SortKey, k: SortKey)
    requires Sorted(t, key)
    ensures WithKey(Insert(x, t, key), key, k)
         == (if key(x) == k then [x] else []) + WithKey(t, key, k)
  {
    if t == [] || KeyLe(key(x), key(t[0])) {
      assert Insert(x, t, key) == [x] + t;
      assert ([x] + t)[1..] == t;
    } else {
      var rest := Insert(x, t[1..], key);
      assert Insert(x, t, key) == [t[0]] + rest;
      assert ([t[0]] + rest)[1..] == rest;
      InsertWithKey(x, t[1..], key, k);
      KeyLeTotalOrder(key(x), key(t[0]), key(t[0]));
      assert t == [t[0]] + t[1..];
    }
  }

  /** Stability: for every key, the rows with that key come out in input order. */
  lemma {:induction false} SortByStable<T>(s: seq<T>, key: T -> SortKey, k: SortKey)
    ensures WithKey(SortBy(s, key), key, k) == WithKey(s, key, k)
  {
    if s != [] {
      SortByStable(s[1..], key, k);
      InsertWithKey(s[0], SortBy(s[1..], key), key, k);
    }
  }

  /** Sorting an already sorted table returns it unchanged. */
  lemma {:induction false} SortBySortedIsIdentity<T>(s: seq<T>, key: T -> SortKey)
    requires Sorted(s, key)
    ensures SortBy(s, key) == s
  {
    if s != [] {
      assert Sorted(s[1..], key);
      SortBySortedIsIdentity(s[1..], key);
      assert s == [s[0]] + s[1..];
    }
  }

  /** Sorting twice is sorting once. */
  lemma SortByIdempotent<T>(s: seq<T>, key: T -> SortKey)
    ensures SortBy(SortBy(s, key), key) == SortBy(s, key)
  {
    SortBySortedIsIdentity(SortBy(s, key), key);
  }
}
