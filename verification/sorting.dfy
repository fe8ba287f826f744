/** Orders and a reference sort, shared by the external sort, the posting
    lists and the tuple type. An order is a comparison function `le` ("less
    than or equal"); the Rust code relies on `Ord`, which promises a total
    order consistent with equality. */
module Sorting {
  import opened Seqs

  /** What `Ord` promises: total, antisymmetric (consistent with `==`) and
      transitive. */
  ghost predicate TotalOrder<T(!new)>(le: (T, T) -> bool) {
    && (forall a, b :: le(a, b) || le(b, a))
    && (forall a, b :: le(a, b) && le(b, a) ==> a == b)
    && (forall a, b, c :: le(a, b) && le(b, c) ==> le(a, c))
  }

  predicate Sorted<T>(s: seq<T>, le: (T, T) -> bool) {
    forall i, j :: 0 <= i < j < |s| ==> le(s[i], s[j])
  }

  /** Every element of `s` is at least `x`. */
  predicate AllAtLeast<T>(x: T, s: seq<T>, le: (T, T) -> bool) {
    forall i :: 0 <= i < |s| ==> le(x, s[i])
  }

  /** Insert `x` before the first element it does not exceed. */
  function Insert<T(!new)>(x: T, s: seq<T>, le: (T, T) -> bool): (r: seq<T>)
    ensures multiset(r) == multiset(s) + multiset{x}
    ensures |r| == |s| + 1
    ensures TotalOrder(le) && Sorted(s, le) ==> Sorted(r, le)
  {
    if |s| == 0 then [x]
    else if le(x, s[0]) then
      InsertFront(x, s, le);
      [x] + s
    else
      var rest := Insert(x, s[1..], le);
      InsertBehind(x, s, rest, le);
      assert s == [s[0]] + s[1..];
      [s[0]] + rest
  }

  /** An element at most the head of a sorted sequence can go in front. */
  lemma InsertFront<T(!new)>(x: T, s: seq<T>, le: (T, T) -> bool)
    requires |s| > 0 && le(x, s[0])
    ensures TotalOrder(le) && Sorted(s, le) ==> Sorted([x] + s, le)
  {
    if TotalOrder(le) && Sorted(s, le) {
      var r := [x] + s;
      forall i, j | 0 <= i < j < |r| ensures le(r[i], r[j]) {
        if i == 0 && j > 1 {
          assert le(s[0], s[j - 1]);
        }
      }
    }
  }

  /** The head of a sorted sequence stays in front of the rest with `x`
      inserted, when `x` exceeds it. */
  lemma InsertBehind<T(!new)>(x: T, s: seq<T>, rest: seq<T>, le: (T, T) -> bool)
    requires |s| > 0 && !le(x, s[0])
    requires multiset(rest) == multiset(s[1..]) + multiset{x}
    requires TotalOrder(le) && Sorted(s[1..], le) ==> Sorted(rest, le)
    ensures TotalOrder(le) && Sorted(s, le) ==> Sorted([s[0]] + rest, le)
  {
    if TotalOrder(le) && Sorted(s, le) {
      assert Sorted(s[1..], le);
      forall i | 0 <= i < |rest| ensures le(s[0], rest[i]) {
        assert rest[i] in multiset(rest);
        if rest[i] != x {
          assert rest[i] in multiset(s[1..]);
          var k :| 0 <= k < |s[1..]| && s[1..][k] == rest[i];
          assert s[k + 1] == rest[i];
        }
      }
      var r := [s[0]] + rest;
      forall i, j | 0 <= i < j < |r| ensures le(r[i], r[j]) {
        if i > 0 {
          assert r[i] == rest[i - 1] && r[j] == rest[j - 1];
        } else {
          assert r[j] == rest[j - 1];
        }
      }
    }
  }

  /** The reference sort: insertion sort. */
  function Sort<T(!new)>(s: seq<T>, le: (T, T) -> bool): (r: seq<T>)
    ensures multiset(r) == multiset(s)
    ensures |r| == |s|
    ensures TotalOrder(le) ==> Sorted(r, le)
  {
    if |s| == 0 then []
    else
      assert s == [s[0]] + s[1..];
      Insert(s[0], Sort(s[1..], le), le)
  }

  /** The least element of a sorted sequence is at most every element of it. */
  lemma SortedHeadIsLeast<T(!new)>(s: seq<T>, x: T, le: (T, T) -> bool)
    requires TotalOrder(le) && Sorted(s, le) && |s| > 0 && x in s
    ensures le(s[0], x)
  {
    var k :| 0 <= k < |s| && s[k] == x;
    if k > 0 {
      assert le(s[0], s[k]);
    }
  }

  /** Under a total order there is exactly one sorted arrangement of a
      multiset: two sorted sequences with the same elements are equal. */
  lemma {:induction false} SortedUnique<T(!new)>(a: seq<T>, b: seq<T>, le: (T, T) -> bool)
    requires TotalOrder(le) && Sorted(a, le) && Sorted(b, le)
    requires multiset(a) == multiset(b)
    ensures a == b
    decreases |a|
  {
    assert |a| == |multiset(a)| == |multiset(b)| == |b|;
    if |a| > 0 {
      assert a[0] in multiset(b);
      assert b[0] in multiset(a);
      SortedHeadIsLeast(a, b[0], le);
      SortedHeadIsLeast(b, a[0], le);
      assert a[0] == b[0];
      HeadAndTail(a);
      HeadAndTail(b);
      SortedUnique(a[1..], b[1..], le);
    }
  }

  /** Any sort is the reference sort: a sorted permutation of `s` is
      `Sort(s)`. */
  lemma SortIsUnique<T(!new)>(s: seq<T>, r: seq<T>, le: (T, T) -> bool)
    requires TotalOrder(le) && Sorted(r, le) && multiset(r) == multiset(s)
    ensures r == Sort(s, le)
  {
    SortedUnique(r, Sort(s, le), le);
  }
}
