/**
 Listing a sorted collection page by page, each page continuing strictly after the last row of the
 previous one. `lt` is the list order; rows are assumed comparable only with rows of their own list.
 */
module CursorPaging {
  import opened Prelude

  ghost predicate StrictOrder<T(!new)>(lt: (T, T) -> bool) {
    && (forall x :: !lt(x, x))
    && (forall x, y, z :: lt(x, y) && lt(y, z) ==> lt(x, z))
  }

  ghost predicate Sorted<T>(lt: (T, T) -> bool, rows: seq<T>) {
    forall i, j :: 0 <= i < j < |rows| ==> lt(rows[i], rows[j])
  }

  /** The rows strictly after the cursor, in list order. */
  function After<T>(lt: (T, T) -> bool, rows: seq<T>, cursor: Option<T>): seq<T> {
    if rows == [] then []
    else
      var rest := After(lt, rows[1..], cursor);
      if cursor.None? || lt(cursor.value, rows[0]) then [rows[0]] + rest else rest
  }

  function Page<T>(lt: (T, T) -> bool, rows: seq<T>, cursor: Option<T>, limit: nat): seq<T> {
    var after := After(lt, rows, cursor);
    after[..Min(limit, |after|)]
  }

  predicate HasNext<T>(lt: (T, T) -> bool, rows: seq<T>, cursor: Option<T>, limit: nat) {
    |After(lt, rows, cursor)| > limit
  }

  lemma {:induction false} AfterMember<T>(lt: (T, T) -> bool, rows: seq<T>, cursor: Option<T>, x: T)
    ensures x in After(lt, rows, cursor) <==> x in rows && (cursor.None? || lt(cursor.value, x))
    decreases |rows|
  {
    if rows != [] {
      AfterMember(lt, rows[1..], cursor, x);
      assert rows == [rows[0]] + rows[1..];
    }
  }

  lemma {:induction false} AfterSorted<T>(lt: (T, T) -> bool, rows: seq<T>, cursor: Option<T>)
    requires Sorted(lt, rows)
    ensures Sorted(lt, After(lt, rows, cursor))
    decreases |rows|
  {
    if rows != [] {
      var rest := After(lt, rows[1..], cursor);
      AfterSorted(lt, rows[1..], cursor);
      forall i | 0 <= i < |rest|
        ensures lt(rows[0], rest[i])
      {
        var x, tail := rest[i], rows[1..];
        AfterMember(lt, tail, cursor, x);
        var k :| 0 <= k < |tail| && tail[k] == rest[i];
        assert rows[k + 1] == rest[i];
      }
      SortedCons(lt, rows[0], rest);
    }
  }

  lemma SortedCons<T>(lt: (T, T) -> bool, x: T, rest: seq<T>)
    requires Sorted(lt, rest) && forall i :: 0 <= i < |rest| ==> lt(x, rest[i])
    ensures Sorted(lt, [x] + rest)
  {
  }

  lemma AfterFacts<T(!new)>(lt: (T, T) -> bool, rows: seq<T>, cursor: Option<T>)
    requires Sorted(lt, rows)
    ensures forall x :: x in After(lt, rows, cursor) <==> x in rows && (cursor.None? || lt(cursor.value, x))
    ensures Sorted(lt, After(lt, rows, cursor))
  {
    forall x
      ensures x in After(lt, rows, cursor) <==> x in rows && (cursor.None? || lt(cursor.value, x))
    {
      AfterMember(lt, rows, cursor, x);
    }
    AfterSorted(lt, rows, cursor);
  }

  /** A strictly sorted list is determined by its elements. */
  lemma {:induction false} SortedUnique<T(!new)>(lt: (T, T) -> bool, a: seq<T>, b: seq<T>)
    requires StrictOrder(lt) && Sorted(lt, a) && Sorted(lt, b) && forall x :: x in a <==> x in b
    ensures a == b
    decreases |a|
  {
    DistinctCount(a);
    DistinctCount(b);
    assert Elements(a) == Elements(b);
    if a != [] {
      assert a[0] in b;
      assert b[0] in a;
      assert a[0] == b[0];
      forall x
        ensures x in a[1..] <==> x in b[1..]
      {
        assert x in a[1..] ==> lt(a[0], x);
        assert x in b[1..] ==> lt(b[0], x);
        assert x in a ==> x == a[0] || x in a[1..];
        assert x in b ==> x == b[0] || x in b[1..];
      }
      SortedUnique(lt, a[1..], b[1..]);
      assert a == [a[0]] + a[1..] && b == [b[0]] + b[1..];
    }
  }

  /** Continuing after a row of the listing gives exactly the rest of the listing. */
  lemma ContinueAfterRow<T(!new)>(lt: (T, T) -> bool, rows: seq<T>, cursor: Option<T>, k: nat)
    requires StrictOrder(lt) && Sorted(lt, rows) && 0 < k <= |After(lt, rows, cursor)|
    ensures var after := After(lt, rows, cursor);
            After(lt, rows, Some(after[k - 1])) == after[k..]
  {
    var after := After(lt, rows, cursor);
    var last := after[k - 1];
    AfterFacts(lt, rows, cursor);
    AfterFacts(lt, rows, Some(last));
    forall x
      ensures x in After(lt, rows, Some(last)) <==> x in after[k..]
    {
      if x in after[k..] {
        var j :| k <= j < |after| && after[j] == x;
        assert lt(last, x);
      }
      if x in rows && lt(last, x) {
        assert last in after && x in after;
        var j :| 0 <= j < |after| && after[j] == x;
        assert j > k - 1;
        assert after[k..][j - k] == x;
      }
    }
    SortedUnique(lt, After(lt, rows, Some(last)), after[k..]);
  }

  /** All pages over an unchanging list, until a page says there is no next one. */
  function FollowAll<T(!new)>(lt: (T, T) -> bool, rows: seq<T>, cursor: Option<T>, limit: nat): seq<T>
    requires StrictOrder(lt) && Sorted(lt, rows) && limit > 0
    decreases |After(lt, rows, cursor)|
  {
    var page := Page(lt, rows, cursor, limit);
    if HasNext(lt, rows, cursor, limit) then
      ContinueAfterRow(lt, rows, cursor, limit);
      page + FollowAll(lt, rows, Some(page[|page| - 1]), limit)
    else page
  }

  /** Nothing skipped, nothing repeated, and the walk ends. */
  lemma {:induction false} FollowAllEnumerates<T(!new)>(lt: (T, T) -> bool, rows: seq<T>, cursor: Option<T>, limit: nat)
    requires StrictOrder(lt) && Sorted(lt, rows) && limit > 0
    ensures FollowAll(lt, rows, cursor, limit) == After(lt, rows, cursor)
    decreases |After(lt, rows, cursor)|
  {
    var after := After(lt, rows, cursor);
    if HasNext(lt, rows, cursor, limit) {
      var page := Page(lt, rows, cursor, limit);
      ContinueAfterRow(lt, rows, cursor, limit);
      FollowAllEnumerates(lt, rows, Some(page[|page| - 1]), limit);
      assert after == after[..limit] + after[limit..];
    }
  }

  lemma {:induction false} AfterNothing<T>(lt: (T, T) -> bool, rows: seq<T>)
    ensures After(lt, rows, None) == rows
  {
    if rows != [] {
      AfterNothing(lt, rows[1..]);
    }
  }

  // ----- Lists that grow between two pages -----

  /** One request per list: the k-th page is cut from the k-th list with the k-th limit. */
  function Walk<T>(lt: (T, T) -> bool, lists: seq<seq<T>>, limits: seq<nat>, cursor: Option<T>): seq<T>
    requires |lists| == |limits|
  {
    if lists == [] then []
    else
      var page := Page(lt, lists[0], cursor, limits[0]);
      if HasNext(lt, lists[0], cursor, limits[0]) && page != [] then
        page + Walk(lt, lists[1..], limits[1..], Some(page[|page| - 1]))
      else page
  }

  /** The walk reaches a page without a next one before the lists run out. */
  predicate Finishes<T>(lt: (T, T) -> bool, lists: seq<seq<T>>, limits: seq<nat>, cursor: Option<T>)
    requires |lists| == |limits|
  {
    lists != [] &&
    var page := Page(lt, lists[0], cursor, limits[0]);
    HasNext(lt, lists[0], cursor, limits[0]) && page != [] ==>
      Finishes(lt, lists[1..], limits[1..], Some(page[|page| - 1]))
  }

  ghost predicate Growing<T>(lists: seq<seq<T>>) {
    forall j, k :: 0 <= j <= k < |lists| ==> Elements(lists[j]) <= Elements(lists[k])
  }

  ghost predicate GoodLists<T(!new)>(lt: (T, T) -> bool, lists: seq<seq<T>>, limits: seq<nat>) {
    && StrictOrder(lt) && |lists| == |limits| && Growing(lists)
    && forall k :: 0 <= k < |lists| ==> Sorted(lt, lists[k]) && limits[k] > 0
  }

  lemma PageFacts<T(!new)>(lt: (T, T) -> bool, rows: seq<T>, cursor: Option<T>, limit: nat)
    requires StrictOrder(lt) && Sorted(lt, rows) && limit > 0
    ensures var page := Page(lt, rows, cursor, limit);
            && Sorted(lt, page)
            && (forall x :: x in page ==> x in rows && (cursor.None? || lt(cursor.value, x)))
            && (page != [] ==> forall x :: x in page ==> x == page[|page| - 1] || lt(x, page[|page| - 1]))
            && (forall x :: x in rows && (cursor.None? || lt(cursor.value, x)) && x !in page ==>
                  HasNext(lt, rows, cursor, limit) && page != [] && lt(page[|page| - 1], x))
  {
    var after, page := After(lt, rows, cursor), Page(lt, rows, cursor, limit);
    AfterFacts(lt, rows, cursor);
    assert forall x :: x in page ==> x in after;
    forall x | x in rows && (cursor.None? || lt(cursor.value, x)) && x !in page
      ensures HasNext(lt, rows, cursor, limit) && page != [] && lt(page[|page| - 1], x)
    {
      assert x in after;
      var j :| 0 <= j < |after| && after[j] == x;
      assert forall i :: 0 <= i < |page| ==> page[i] == after[i];
      assert j >= |page|;
    }
  }

  /** The walk is sorted, hence repeats nothing, and shows only rows of the latest list after the cursor. */
  lemma {:induction false} WalkSorted<T(!new)>(lt: (T, T) -> bool, lists: seq<seq<T>>, limits: seq<nat>, cursor: Option<T>)
    requires GoodLists(lt, lists, limits) && lists != []
    ensures Sorted(lt, Walk(lt, lists, limits, cursor))
    ensures forall x :: x in Walk(lt, lists, limits, cursor) ==>
              x in lists[|lists| - 1] && (cursor.None? || lt(cursor.value, x))
    decreases |lists|
  {
    var page := Page(lt, lists[0], cursor, limits[0]);
    PageFacts(lt, lists[0], cursor, limits[0]);
    assert Elements(lists[0]) <= Elements(lists[|lists| - 1]);
    assert forall x :: x in page ==> x in Elements(lists[0]);
    if HasNext(lt, lists[0], cursor, limits[0]) && page != [] && |lists| > 1 {
      var last := page[|page| - 1];
      WalkSorted(lt, lists[1..], limits[1..], Some(last));
      assert lists[1..][|lists| - 2] == lists[|lists| - 1];
      SortedAppend(lt, page, Walk(lt, lists[1..], limits[1..], Some(last)));
      assert last in page;
    }
  }

  lemma SortedAppend<T(!new)>(lt: (T, T) -> bool, a: seq<T>, b: seq<T>)
    requires StrictOrder(lt) && Sorted(lt, a) && Sorted(lt, b) && a != []
    requires forall x :: x in b ==> lt(a[|a| - 1], x)
    ensures Sorted(lt, a + b)
  {
    assert forall j :: 0 <= j < |b| ==> b[j] in b;
  }

  /** A walk that finishes misses no row that was there from the start. */
  lemma {:induction false} WalkComplete<T(!new)>(lt: (T, T) -> bool, lists: seq<seq<T>>, limits: seq<nat>, cursor: Option<T>, x: T)
    requires GoodLists(lt, lists, limits) && Finishes(lt, lists, limits, cursor)
    requires x in lists[0] && (cursor.None? || lt(cursor.value, x))
    ensures x in Walk(lt, lists, limits, cursor)
    decreases |lists|
  {
    var page := Page(lt, lists[0], cursor, limits[0]);
    PageFacts(lt, lists[0], cursor, limits[0]);
    if x !in page {
      assert Elements(lists[0]) <= Elements(lists[1]);
      assert x in Elements(lists[0]);
      WalkComplete(lt, lists[1..], limits[1..], Some(page[|page| - 1]), x);
    }
  }

  /** What remains after a cursor ends with the last row of the list. */
  lemma LastRowRemains<T(!new)>(lt: (T, T) -> bool, rows: seq<T>, cursor: Option<T>)
    requires StrictOrder(lt) && Sorted(lt, rows) && After(lt, rows, cursor) != []
    ensures rows != [] && var after := After(lt, rows, cursor); after[|after| - 1] == rows[|rows| - 1]
  {
    var after := After(lt, rows, cursor);
    AfterFacts(lt, rows, cursor);
    var y := after[|after| - 1];
    assert y in after;
    var k :| 0 <= k < |rows| && rows[k] == y;
    var x := rows[|rows| - 1];
    if k < |rows| - 1 {
      assert lt(y, x) && x in after;
      var p :| 0 <= p < |after| && after[p] == x;
      LastIsGreatest(lt, after, p);
    }
  }

  lemma LastIsGreatest<T(!new)>(lt: (T, T) -> bool, rows: seq<T>, p: nat)
    requires StrictOrder(lt) && Sorted(lt, rows) && p < |rows|
    ensures !lt(rows[|rows| - 1], rows[p])
  {
  }

  /** The next-page flag is up exactly when the page stops short of the last row. */
  lemma NextFlagExactly<T(!new)>(lt: (T, T) -> bool, rows: seq<T>, cursor: Option<T>, limit: nat)
    requires StrictOrder(lt) && Sorted(lt, rows) && limit > 0
    ensures var page := Page(lt, rows, cursor, limit);
            if page == [] then !HasNext(lt, rows, cursor, limit)
            else rows != [] && (HasNext(lt, rows, cursor, limit) <==> page[|page| - 1] != rows[|rows| - 1])
  {
    var after := After(lt, rows, cursor);
    if after != [] {
      LastRowRemains(lt, rows, cursor);
      AfterFacts(lt, rows, cursor);
      if |after| > limit {
        assert lt(after[limit - 1], after[|after| - 1]);
      }
    }
  }
}
