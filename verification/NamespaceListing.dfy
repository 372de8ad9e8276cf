/** `GET /v1/namespaces`: newest registrations first, page by page. */
module NamespaceListing {
  import opened Prelude
  import opened Text
  import opened NamespaceRules
  import opened CursorPaging

  datatype NamespaceRecord = NamespaceRecord(slug: string, owner: seq<byte>, height: nat)

  /** List order: registration height descending, then slug ascending. */
  predicate Before(a: NamespaceRecord, b: NamespaceRecord) {
    a.height > b.height || (a.height == b.height && StrLess(a.slug, b.slug))
  }

  lemma BeforeIsStrictOrder()
    ensures StrictOrder(Before)
  {
    forall a
      ensures !Before(a, a)
    {
      StrLessIrreflexive(a.slug);
    }
    forall a, b, c | Before(a, b) && Before(b, c)
      ensures Before(a, c)
    {
      if a.height == b.height == c.height {
        StrLessTransitive(a.slug, b.slug, c.slug);
      }
    }
  }

  ghost predicate UniqueSlugs(records: seq<NamespaceRecord>) {
    forall i, j :: 0 <= i < j < |records| ==> records[i].slug != records[j].slug
  }

  // ----- Sorting -----

  /** Inserts before the first record that is not ahead of `r`. */
  function Insert(r: NamespaceRecord, sorted: seq<NamespaceRecord>): (out: seq<NamespaceRecord>)
    ensures multiset(out) == multiset(sorted) + multiset{r}
  {
    if sorted == [] || !Before(sorted[0], r) then [r] + sorted
    else
      assert sorted == [sorted[0]] + sorted[1..];
      [sorted[0]] + Insert(r, sorted[1..])
  }

  /** The records stably sorted; the same records with the same multiplicities. */
  function SortRecords(records: seq<NamespaceRecord>): (out: seq<NamespaceRecord>)
    ensures multiset(out) == multiset(records)
  {
    if records == [] then []
    else
      assert records == [records[0]] + records[1..];
      Insert(records[0], SortRecords(records[1..]))
  }

  lemma {:induction false} InsertSorted(r: NamespaceRecord, sorted: seq<NamespaceRecord>)
    requires Sorted(Before, sorted) && forall x :: x in sorted ==> x.slug != r.slug
    ensures Sorted(Before, Insert(r, sorted))
    decreases |sorted|
  {
    BeforeIsStrictOrder();
    if sorted != [] {
      var head, tail := sorted[0], sorted[1..];
      StrLessTotal(r.slug, head.slug);
      if Before(head, r) {
        InsertSorted(r, tail);
        var rest := Insert(r, tail);
        forall i | 0 <= i < |rest|
          ensures Before(head, rest[i])
        {
          assert rest[i] in multiset(rest);
          assert rest[i] in tail || rest[i] == r;
          if rest[i] in tail {
            var k :| 0 <= k < |tail| && tail[k] == rest[i];
            assert sorted[k + 1] == rest[i];
          }
        }
        SortedCons(Before, head, rest);
      } else {
        assert forall i :: 0 <= i < |sorted| ==> Before(r, sorted[i]);
      }
    }
  }

  lemma {:induction false} SortRecordsSorts(records: seq<NamespaceRecord>)
    requires UniqueSlugs(records)
    ensures Sorted(Before, SortRecords(records))
    ensures forall x :: x in SortRecords(records) <==> x in records
    decreases |records|
  {
    var out := SortRecords(records);
    assert forall x :: x in out <==> x in multiset(out);
    if records != [] {
      var tail := records[1..];
      SortRecordsSorts(tail);
      forall x | x in SortRecords(tail)
        ensures x.slug != records[0].slug
      {
        assert x in tail;
        var k :| 0 <= k < |tail| && tail[k] == x;
        assert records[k + 1] == x;
      }
      InsertSorted(records[0], SortRecords(tail));
    }
  }

  /** Newest registrations first; in one block, slugs in dictionary order. */
  lemma NewestFirst(records: seq<NamespaceRecord>, i: nat, j: nat)
    requires UniqueSlugs(records) && i < j < |SortRecords(records)|
    ensures var a, b := SortRecords(records)[i], SortRecords(records)[j];
            a.height > b.height || (a.height == b.height && FirstDifference(a.slug, b.slug))
  {
    SortRecordsSorts(records);
    StrLessExactly(SortRecords(records)[i].slug, SortRecords(records)[j].slug);
  }

  /** Swapping `r` with its right neighbour. */
  lemma SwapStep<T>(s: seq<T>, front: seq<T>, r: T, later: seq<T>, j: nat)
    requires s == front + [r] + later && later != [] && j == |front|
    ensures s[j] == r && s[j + 1] == later[0]
    ensures s[j := later[0]][j + 1 := r] == front + [later[0]] + [r] + later[1..]
  {
  }

  lemma InsertMoves(front: seq<NamespaceRecord>, r: NamespaceRecord, later: seq<NamespaceRecord>)
    requires later != [] && Before(later[0], r)
    ensures front + Insert(r, later) == front + [later[0]] + Insert(r, later[1..])
  {
  }

  lemma InsertStops(front: seq<NamespaceRecord>, r: NamespaceRecord, later: seq<NamespaceRecord>)
    requires later == [] || !Before(later[0], r)
    ensures front + Insert(r, later) == front + [r] + later
  {
  }

  /** Moves record `i` right by swaps to its place in the sorted rest. */
  method InsertInPlace(records: array<NamespaceRecord>, i: nat)
    requires i < records.Length
    modifies records
    ensures records[..] == old(records[..i]) + Insert(old(records[i]), old(records[i + 1..]))
  {
    var j := i;
    ghost var front, r, later := records[..i], records[i], records[i + 1..];
    assert records[..] == front + [r] + later;
    while j + 1 < records.Length && Before(records[j + 1], records[j])
      invariant j == |front| < records.Length && records[..] == front + [r] + later
      invariant front + Insert(r, later) == old(records[..i]) + Insert(old(records[i]), old(records[i + 1..]))
      decreases records.Length - j
    {
      ghost var s := records[..];
      SwapStep(s, front, r, later, j);
      InsertMoves(front, r, later);
      records[j], records[j + 1] := records[j + 1], records[j];
      assert records[..] == s[j := later[0]][j + 1 := r];
      j, front, later := j + 1, front + [later[0]], later[1..];
    }
    if later != [] {
      SwapStep(records[..], front, r, later, j);
    }
    InsertStops(front, r, later);
  }

  lemma SortStep(all: seq<NamespaceRecord>, i: nat)
    requires i < |all|
    ensures SortRecords(all[i..]) == Insert(all[i], SortRecords(all[i + 1..]))
  {
    assert all[i..][0] == all[i] && all[i..][1..] == all[i + 1..];
  }

  /** Sorts in place, as the source does; a stable sort is determined by its order. */
  method SortNamespaceRecords(records: array<NamespaceRecord>)
    modifies records
    ensures records[..] == SortRecords(old(records[..]))
  {
    var i := records.Length;
    ghost var all := records[..];
    assert all[i..] == [] && records[..] == all[..i] + [];
    while i > 0
      invariant 0 <= i <= records.Length == |all| && records[..] == all[..i] + SortRecords(all[i..])
    {
      i := i - 1;
      SortStep(all, i);
      Middle(all, SortRecords(all[i + 1..]), records[..], i);
      InsertInPlace(records, i);
    }
    assert all[0..] == all;
  }

  lemma Middle(all: seq<NamespaceRecord>, tail: seq<NamespaceRecord>, s: seq<NamespaceRecord>, i: nat)
    requires i < |all| && s == all[..i + 1] + tail
    ensures s[..i] == all[..i] && s[i] == all[i] && s[i + 1..] == tail
  {
  }

  // ----- One request -----

  datatype ListParams = ListParams(afterHeight: Option<nat>, afterSlug: Option<string>, limit: Option<nat>)

  datatype ListError = InvalidLimit | InvalidAfterSlug | InvalidContinuation

  datatype Listing = Listing(rows: seq<NamespaceRecord>, hasNext: bool, total: Option<nat>)

  function EffectiveLimit(limit: Option<nat>): nat {
    Min(if limit.Some? then limit.value else 50, 100)
  }

  /** Both cursor fields or neither; the slug is normalised. */
  function ParseContinuation(p: ListParams): Result<Option<(nat, string)>, ListError> {
    match (p.afterHeight, p.afterSlug)
    case (None, None) => Ok(None)
    case (Some(h), Some(s)) =>
      (match NormalizeSlug(s)
       case None => Err(InvalidAfterSlug)
       case Some(canonical) => Ok(Some((h, canonical))))
    case _ => Err(InvalidContinuation)
  }

  function FilterAfter(records: seq<NamespaceRecord>, height: nat, slug: string): seq<NamespaceRecord> {
    if records == [] then []
    else
      var rest := FilterAfter(records[1..], height, slug);
      var r := records[0];
      if r.height < height || (r.height == height && StrLess(slug, r.slug)) then [r] + rest else rest
  }

  /** The page the handler returns for the sorted records. */
  function ListNamespaces(records: seq<NamespaceRecord>, p: ListParams): Result<Listing, ListError> {
    var limit := EffectiveLimit(p.limit);
    if limit == 0 then Err(InvalidLimit)
    else
      match ParseContinuation(p)
      case Err(e) => Err(e)
      case Ok(continuation) =>
        var rows :=
          match continuation
          case None => records
          case Some((h, s)) => FilterAfter(records, h, s);
        Ok(Listing(rows[..Min(limit, |rows|)], |rows| > limit, if continuation.None? then Some(|records|) else None))
  }

  /** Which requests are refused, and why. */
  lemma RefusedExactly(records: seq<NamespaceRecord>, p: ListParams)
    ensures ListNamespaces(records, p) == Err(InvalidLimit) <==> p.limit == Some(0)
    ensures ListNamespaces(records, p) == Err(InvalidContinuation) <==>
            p.limit != Some(0) && (p.afterHeight.Some? <==> p.afterSlug.None?)
    ensures ListNamespaces(records, p) == Err(InvalidAfterSlug) <==>
            p.limit != Some(0) && p.afterHeight.Some? && p.afterSlug.Some? && NormalizeSlug(p.afterSlug.value).None?
  {
  }

  /** The first page: up to 50 rows unless asked otherwise, never more than 100, and the total. */
  lemma FirstPage(records: seq<NamespaceRecord>, limit: Option<nat>)
    requires limit != Some(0)
    ensures var k := if limit.None? then 50 else if limit.value > 100 then 100 else limit.value;
            ListNamespaces(records, ListParams(None, None, limit)) ==
            if |records| > k then Ok(Listing(records[..k], true, Some(|records|))) else Ok(Listing(records, false, Some(|records|)))
  {
    assert records[..|records|] == records;
  }

  /** Every page: at most 100 rows, the flag up exactly when it stops short of the last record. */
  lemma NextFlagOfHandler(records: seq<NamespaceRecord>, cursor: Option<NamespaceRecord>, limit: Option<nat>)
    requires limit != Some(0) && Sorted(Before, records) && (cursor.Some? ==> ValidSlug(cursor.value.slug))
    ensures var r := ListNamespaces(records, ParamsAfter(cursor, limit));
            && r.Ok? && |r.value.rows| <= 100 && (r.value.total.Some? <==> cursor.None?)
            && (r.value.rows == [] ==> !r.value.hasNext)
            && (r.value.rows != [] ==>
                  records != [] && (r.value.hasNext <==> r.value.rows[|r.value.rows| - 1] != records[|records| - 1]))
  {
    BeforeIsStrictOrder();
    HandlerServesPage(records, cursor, limit);
    NextFlagExactly(Before, records, cursor, EffectiveLimit(limit));
    TotalOnFirstPage(records, cursor, limit);
  }

  lemma TotalOnFirstPage(records: seq<NamespaceRecord>, cursor: Option<NamespaceRecord>, limit: Option<nat>)
    requires ListNamespaces(records, ParamsAfter(cursor, limit)).Ok?
    ensures ListNamespaces(records, ParamsAfter(cursor, limit)).value.total == if cursor.None? then Some(|records|) else None
  {
  }

  // ----- Following the cursor -----

  /** What a client sends next: the last row's height and slug, verbatim. */
  function ParamsAfter(cursor: Option<NamespaceRecord>, limit: Option<nat>): ListParams {
    match cursor
    case None => ListParams(None, None, limit)
    case Some(r) => ListParams(Some(r.height), Some(r.slug), limit)
  }

  lemma {:induction false} FilterIsAfter(records: seq<NamespaceRecord>, r: NamespaceRecord)
    ensures FilterAfter(records, r.height, r.slug) == After(Before, records, Some(r))
  {
    if records != [] {
      FilterIsAfter(records[1..], r);
    }
  }

  /** With a canonical slug as cursor the handler serves the generic page. */
  lemma HandlerServesPage(records: seq<NamespaceRecord>, cursor: Option<NamespaceRecord>, limit: Option<nat>)
    requires EffectiveLimit(limit) > 0 && (cursor.Some? ==> ValidSlug(cursor.value.slug))
    ensures var r := ListNamespaces(records, ParamsAfter(cursor, limit));
            && r.Ok?
            && r.value.rows == Page(Before, records, cursor, EffectiveLimit(limit))
            && r.value.hasNext == HasNext(Before, records, cursor, EffectiveLimit(limit))
  {
    AfterNothing(Before, records);
    if cursor.Some? {
      CanonicalSlugIsFixed(cursor.value.slug);
      FilterIsAfter(records, cursor.value);
    }
  }

  /** A client that keeps asking until a response has no next page. */
  function FollowPages(records: seq<NamespaceRecord>, cursor: Option<NamespaceRecord>, limit: Option<nat>): seq<NamespaceRecord>
    requires EffectiveLimit(limit) > 0 && Sorted(Before, records)
    requires forall x :: x in records ==> ValidSlug(x.slug)
    requires cursor.Some? ==> ValidSlug(cursor.value.slug)
    decreases |After(Before, records, cursor)|
  {
    HandlerServesPage(records, cursor, limit);
    var listing := ListNamespaces(records, ParamsAfter(cursor, limit)).value;
    if !listing.hasNext then listing.rows
    else
      BeforeIsStrictOrder();
      ContinueAfterRow(Before, records, cursor, EffectiveLimit(limit));
      var last := listing.rows[|listing.rows| - 1];
      assert last in records by { AfterMember(Before, records, cursor, last); }
      listing.rows + FollowPages(records, Some(last), limit)
  }

  lemma FollowPagesUnfolds(records: seq<NamespaceRecord>, cursor: Option<NamespaceRecord>, limit: Option<nat>)
    requires EffectiveLimit(limit) > 0 && Sorted(Before, records)
    requires forall x :: x in records ==> ValidSlug(x.slug)
    requires cursor.Some? ==> ValidSlug(cursor.value.slug)
    ensures var after, k := After(Before, records, cursor), EffectiveLimit(limit);
            if |after| > k then
              && ValidSlug(after[k - 1].slug)
              && After(Before, records, Some(after[k - 1])) == after[k..]
              && FollowPages(records, cursor, limit) == after[..k] + FollowPages(records, Some(after[k - 1]), limit)
            else FollowPages(records, cursor, limit) == after
  {
    var after, k := After(Before, records, cursor), EffectiveLimit(limit);
    HandlerServesPage(records, cursor, limit);
    if |after| > k {
      RestAfterPage(records, cursor, k);
      assert Page(Before, records, cursor, k) == after[..k] && after[..k][k - 1] == after[k - 1];
    }
  }

  lemma RestAfterPage(records: seq<NamespaceRecord>, cursor: Option<NamespaceRecord>, k: nat)
    requires Sorted(Before, records) && 0 < k <= |After(Before, records, cursor)|
    ensures var after := After(Before, records, cursor);
            After(Before, records, Some(after[k - 1])) == after[k..] && after[k - 1] in records
  {
    BeforeIsStrictOrder();
    ContinueAfterRow(Before, records, cursor, k);
    AfterMember(Before, records, cursor, After(Before, records, cursor)[k - 1]);
  }

  lemma {:induction false} FollowPagesYieldsRest(records: seq<NamespaceRecord>, cursor: Option<NamespaceRecord>, limit: Option<nat>)
    requires EffectiveLimit(limit) > 0 && Sorted(Before, records)
    requires forall x :: x in records ==> ValidSlug(x.slug)
    requires cursor.Some? ==> ValidSlug(cursor.value.slug)
    ensures FollowPages(records, cursor, limit) == After(Before, records, cursor)
    decreases |After(Before, records, cursor)|
  {
    var after, k := After(Before, records, cursor), EffectiveLimit(limit);
    FollowPagesUnfolds(records, cursor, limit);
    if |after| > k {
      FollowPagesYieldsRest(records, Some(after[k - 1]), limit);
      PagesJoin(after, k);
    }
  }

  lemma PagesJoin(rows: seq<NamespaceRecord>, k: nat)
    requires k <= |rows|
    ensures rows[..k] + rows[k..] == rows
  {
  }

  /**
   Following the cursor over any registry with unique canonical slugs, at any accepted limit, ends and
   yields the sorted registry: nothing skipped, nothing repeated.
   */
  lemma FollowingListsRegistry(registry: seq<NamespaceRecord>, limit: Option<nat>)
    requires UniqueSlugs(registry) && EffectiveLimit(limit) > 0
    requires forall x :: x in registry ==> ValidSlug(x.slug)
    ensures Sorted(Before, SortRecords(registry)) && forall x :: x in SortRecords(registry) <==> x in registry
    ensures FollowPages(SortRecords(registry), None, limit) == SortRecords(registry)
  {
    SortRecordsSorts(registry);
    FollowPagesYieldsRest(SortRecords(registry), None, limit);
    AfterNothing(Before, SortRecords(registry));
  }

  // ----- Registrations between requests -----

  ghost predicate Canonical(records: seq<NamespaceRecord>) {
    UniqueSlugs(records) && forall x :: x in records ==> ValidSlug(x.slug)
  }

  /** A run of requests: the k-th is answered from the k-th registry at the k-th limit. */
  ghost predicate GoodRequests(registries: seq<seq<NamespaceRecord>>, limits: seq<Option<nat>>, cursor: Option<NamespaceRecord>) {
    && |registries| == |limits| && (cursor.Some? ==> ValidSlug(cursor.value.slug))
    && forall k :: 0 <= k < |registries| ==> Canonical(registries[k]) && EffectiveLimit(limits[k]) > 0
  }

  datatype Trail = Trail(rows: seq<NamespaceRecord>, finished: bool)

  /** What the client sees, and whether it got to a page without a next one. */
  function WalkPages(registries: seq<seq<NamespaceRecord>>, limits: seq<Option<nat>>, cursor: Option<NamespaceRecord>): Trail
    requires |registries| == |limits|
    decreases |registries|
  {
    if registries == [] then Trail([], false)
    else
      match ListNamespaces(SortRecords(registries[0]), ParamsAfter(cursor, limits[0]))
      case Err(_) => Trail([], false)
      case Ok(listing) =>
        if !listing.hasNext || listing.rows == [] then Trail(listing.rows, true)
        else
          var rest := WalkPages(registries[1..], limits[1..], Some(listing.rows[|listing.rows| - 1]));
          Trail(listing.rows + rest.rows, rest.finished)
  }

  ghost function SortedLists(registries: seq<seq<NamespaceRecord>>): (lists: seq<seq<NamespaceRecord>>)
    ensures |lists| == |registries| && forall k :: 0 <= k < |lists| ==> lists[k] == SortRecords(registries[k])
  {
    seq(|registries|, k requires 0 <= k < |registries| => SortRecords(registries[k]))
  }

  ghost function Limits(limits: seq<Option<nat>>): (r: seq<nat>)
    ensures |r| == |limits| && forall k :: 0 <= k < |r| ==> r[k] == EffectiveLimit(limits[k])
  {
    seq(|limits|, k requires 0 <= k < |limits| => EffectiveLimit(limits[k]))
  }

  lemma LastRowCanonical(registry: seq<NamespaceRecord>, cursor: Option<NamespaceRecord>, limit: nat)
    requires Canonical(registry)
    ensures forall x :: x in Page(Before, SortRecords(registry), cursor, limit) ==> ValidSlug(x.slug)
  {
    SortRecordsSorts(registry);
    forall x | x in Page(Before, SortRecords(registry), cursor, limit)
      ensures ValidSlug(x.slug)
    {
      AfterMember(Before, SortRecords(registry), cursor, x);
    }
  }

  /** The handler's pages are the generic ones. */
  lemma {:induction false} WalkPagesIsWalk(registries: seq<seq<NamespaceRecord>>, limits: seq<Option<nat>>, cursor: Option<NamespaceRecord>)
    requires GoodRequests(registries, limits, cursor)
    ensures var lists, ks := SortedLists(registries), Limits(limits);
            WalkPages(registries, limits, cursor) == Trail(Walk(Before, lists, ks, cursor), Finishes(Before, lists, ks, cursor))
    decreases |registries|
  {
    if registries != [] {
      var rows, k := SortRecords(registries[0]), EffectiveLimit(limits[0]);
      HandlerServesPage(rows, cursor, limits[0]);
      LastRowCanonical(registries[0], cursor, k);
      var page := Page(Before, rows, cursor, k);
      assert SortedLists(registries)[1..] == SortedLists(registries[1..]) && Limits(limits)[1..] == Limits(limits[1..]);
      if HasNext(Before, rows, cursor, k) && page != [] {
        WalkPagesIsWalk(registries[1..], limits[1..], Some(page[|page| - 1]));
      }
    }
  }

  lemma SortedListsAreGood(registries: seq<seq<NamespaceRecord>>, limits: seq<Option<nat>>)
    requires GoodRequests(registries, limits, None) && Growing(registries)
    ensures GoodLists(Before, SortedLists(registries), Limits(limits))
    ensures forall k :: 0 <= k < |registries| ==> Elements(SortedLists(registries)[k]) == Elements(registries[k])
  {
    var lists := SortedLists(registries);
    forall k | 0 <= k < |lists|
      ensures Sorted(Before, lists[k]) && Elements(lists[k]) == Elements(registries[k])
    {
      SortRecordsSorts(registries[k]);
    }
    BeforeIsStrictOrder();
  }

  /**
   Names registered while a client pages: its rows never repeat and are all registered, and if it
   reaches the end it has seen every name that was registered at the start.
   */
  lemma RegistrationsDuringListing(registries: seq<seq<NamespaceRecord>>, limits: seq<Option<nat>>)
    requires registries != [] && GoodRequests(registries, limits, None) && Growing(registries)
    ensures var trail := WalkPages(registries, limits, None);
            && Distinct(trail.rows) && (forall x :: x in trail.rows ==> x in registries[|registries| - 1])
            && (trail.finished ==> forall x :: x in registries[0] ==> x in trail.rows)
  {
    var lists, ks, trail := SortedLists(registries), Limits(limits), WalkPages(registries, limits, None);
    SortedListsAreGood(registries, limits);
    WalkPagesIsWalk(registries, limits, None);
    WalkSorted(Before, lists, ks, None);
    forall x | x in trail.rows
      ensures x in registries[|registries| - 1]
    {
      assert x in Elements(lists[|lists| - 1]);
    }
    if trail.finished {
      forall x | x in registries[0]
        ensures x in trail.rows
      {
        assert x in Elements(registries[0]);
        WalkComplete(Before, lists, ks, None, x);
      }
    }
    SortedIsDistinct(trail.rows);
  }

  lemma SortedIsDistinct(rows: seq<NamespaceRecord>)
    requires Sorted(Before, rows)
    ensures Distinct(rows)
  {
    BeforeIsStrictOrder();
  }
}
