/** `GET /epochs`: epoch numbers in either direction, with a limit-plus-one probe for the next page. */
module EpochListing {
  import opened Prelude
  import opened CursorPaging

  datatype Order = Asc | Desc

  /** List order of a direction. */
  function Before(order: Order): (int, int) -> bool {
    match order
    case Asc => (a, b) => a < b
    case Desc => (a, b) => a > b
  }

  function Reverse(s: seq<int>): (r: seq<int>)
    ensures |r| == |s| && forall i :: 0 <= i < |s| ==> r[i] == s[|s| - 1 - i]
  {
    seq(|s|, i requires 0 <= i < |s| => s[|s| - 1 - i])
  }

  /** The ascending epoch numbers in the requested direction. */
  function InOrder(epochs: seq<int>, order: Order): seq<int> {
    match order
    case Asc => epochs
    case Desc => Reverse(epochs)
  }

  /** The epochs past `after`, at most `fetchLimit` of them. */
  function SelectEpochs(epochs: seq<int>, order: Order, after: Option<int>, fetchLimit: nat): seq<int> {
    var past := After(Before(order), InOrder(epochs, order), after);
    past[..Min(fetchLimit, |past|)]
  }

  datatype EpochPage = EpochPage(epochs: seq<int>, hasNext: bool, total: Option<nat>)

  function EffectiveLimit(limit: Option<nat>): nat {
    Min(if limit.Some? then limit.value else 50, 100)
  }

  /** The handler's answer: a page, whether there is a next one, and the total on the first page. */
  function Answer(epochs: seq<int>, order: Order, after: Option<int>, limit: Option<nat>): Result<EpochPage, ()> {
    var k, rows := EffectiveLimit(limit), InOrder(epochs, order);
    if k == 0 then Err(())
    else
      Ok(EpochPage(Page(Before(order), rows, after, k), HasNext(Before(order), rows, after, k),
                   if after.None? then Some(|epochs|) else None))
  }

  /** Fetches one row more than asked for and drops it again; its presence is the next-page flag. */
  method GetEpochs(epochs: seq<int>, order: Order, after: Option<int>, limit: Option<nat>) returns (r: Result<EpochPage, ()>)
    ensures r == Answer(epochs, order, after, limit)
  {
    var k := EffectiveLimit(limit);
    if k == 0 {
      return Err(());
    }
    var rows := SelectEpochs(epochs, order, after, k + 1);
    ghost var past := After(Before(order), InOrder(epochs, order), after);
    assert |past| > k ==> past[..Min(k + 1, |past|)][..k] == past[..k];
    var hasNext := |rows| > k;
    if hasNext {
      rows := rows[..k];
    }
    r := Ok(EpochPage(rows, hasNext, if after.None? then Some(|epochs|) else None));
  }

  ghost predicate Ascending(epochs: seq<int>) {
    forall i, j :: 0 <= i < j < |epochs| ==> epochs[i] < epochs[j]
  }

  lemma OrderFacts(epochs: seq<int>, order: Order)
    requires Ascending(epochs)
    ensures StrictOrder(Before(order)) && Sorted(Before(order), InOrder(epochs, order))
  {
  }

  /** A client that asks on with the last epoch of each answer until there is no next page. */
  function FollowEpochs(epochs: seq<int>, order: Order, cursor: Option<int>, limit: Option<nat>): seq<int>
    requires Ascending(epochs) && EffectiveLimit(limit) > 0
    decreases |After(Before(order), InOrder(epochs, order), cursor)|
  {
    var page := Answer(epochs, order, cursor, limit).value;
    if !page.hasNext then page.epochs
    else
      OrderFacts(epochs, order);
      ContinueAfterRow(Before(order), InOrder(epochs, order), cursor, EffectiveLimit(limit));
      page.epochs + FollowEpochs(epochs, order, Some(page.epochs[|page.epochs| - 1]), limit)
  }

  lemma {:induction false} FollowEpochsYieldsRest(epochs: seq<int>, order: Order, cursor: Option<int>, limit: Option<nat>)
    requires Ascending(epochs) && EffectiveLimit(limit) > 0
    ensures FollowEpochs(epochs, order, cursor, limit) == After(Before(order), InOrder(epochs, order), cursor)
    decreases |After(Before(order), InOrder(epochs, order), cursor)|
  {
    var after, k := After(Before(order), InOrder(epochs, order), cursor), EffectiveLimit(limit);
    if |after| > k {
      OrderFacts(epochs, order);
      ContinueAfterRow(Before(order), InOrder(epochs, order), cursor, k);
      FollowEpochsYieldsRest(epochs, order, Some(after[k - 1]), limit);
      assert after == after[..k] + after[k..];
    }
  }

  /** In either direction and at any accepted limit, following the handler lists every epoch once, in order. */
  lemma FollowingListsEpochs(epochs: seq<int>, order: Order, limit: Option<nat>)
    requires Ascending(epochs) && EffectiveLimit(limit) > 0
    ensures FollowEpochs(epochs, order, None, limit) == InOrder(epochs, order)
  {
    FollowEpochsYieldsRest(epochs, order, None, limit);
    AfterNothing(Before(order), InOrder(epochs, order));
  }

  /** Ascending or descending as asked, with the same epochs. */
  lemma ListedInDirection(epochs: seq<int>, order: Order, limit: Option<nat>)
    requires Ascending(epochs) && EffectiveLimit(limit) > 0
    ensures var listed := FollowEpochs(epochs, order, None, limit);
            && Elements(listed) == Elements(epochs)
            && (order.Asc? ==> forall i, j :: 0 <= i < j < |listed| ==> listed[i] < listed[j])
            && (order.Desc? ==> forall i, j :: 0 <= i < j < |listed| ==> listed[i] > listed[j])
  {
    FollowingListsEpochs(epochs, order, limit);
    var listed := InOrder(epochs, order);
    assert forall x :: x in epochs ==> x in listed by {
      forall x | x in epochs
        ensures x in listed
      {
        var i :| 0 <= i < |epochs| && epochs[i] == x;
        assert listed[if order.Asc? then i else |epochs| - 1 - i] == x;
      }
    }
  }

  /** The first page: up to 50 epochs unless asked otherwise, never more than 100, and the total. */
  lemma FirstPage(epochs: seq<int>, order: Order, limit: Option<nat>)
    ensures var r := Answer(epochs, order, None, limit);
            var k := if limit.None? then 50 else if limit.value > 100 then 100 else limit.value;
            if k == 0 then r.Err?
            else r == Ok(EpochPage(InOrder(epochs, order)[..Min(k, |epochs|)], |epochs| > k, Some(|epochs|)))
  {
    AfterNothing(Before(order), InOrder(epochs, order));
  }

  /** The flag is up exactly when the page stops short of the last epoch; later pages carry no total. */
  lemma NextFlagOfHandler(epochs: seq<int>, order: Order, cursor: Option<int>, limit: Option<nat>)
    requires Ascending(epochs) && EffectiveLimit(limit) > 0
    ensures var page, rows := Answer(epochs, order, cursor, limit).value, InOrder(epochs, order);
            && (page.total.Some? <==> cursor.None?)
            && (page.epochs == [] ==> !page.hasNext)
            && (page.epochs != [] ==> rows != [] && (page.hasNext <==> page.epochs[|page.epochs| - 1] != rows[|rows| - 1]))
  {
    OrderFacts(epochs, order);
    NextFlagExactly(Before(order), InOrder(epochs, order), cursor, EffectiveLimit(limit));
  }
}
