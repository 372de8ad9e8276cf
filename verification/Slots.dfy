/**
 Slots of the capacity file and the index from content ids to slots. Offsets and sizes cut the
 file into byte ranges; a slot is reserved for proof data, open, or holds a piece of content.
 */
module Slots {
  import opened Prelude
  import opened CapacityProof

  datatype Slot<+D> = Slot(offset: nat, size: nat, state: SlotState<D>)

  /** Slot indices and true sizes of one content, in storage order. */
  type Placement = seq<(nat, nat)>

  datatype SlotError =
    | SlotMapNotLoaded
    | NotEnoughOpenSlots(needed: nat, found: nat)
    | SlotOutOfBounds(index: nat)
    | ContentIdNotInSlotMap
    | DataExceedsSlot(size: nat)
    | ReadPastEnd

  // ----- Finding open slots -----

  /** The open slots in ascending order. */
  function OpenIndices<D>(slots: seq<Slot<D>>): seq<nat> {
    if slots == [] then []
    else
      var n := |slots| - 1;
      var before := OpenIndices(slots[..n]);
      if slots[n].state.Open? then before + [n] else before
  }

  lemma {:induction false} OpenIndicesFacts<D>(slots: seq<Slot<D>>)
    ensures var open := OpenIndices(slots);
            && (forall k :: 0 <= k < |open| ==> open[k] < |slots| && slots[open[k]].state.Open?)
            && (forall j, k :: 0 <= j < k < |open| ==> open[j] < open[k])
            && (forall i :: 0 <= i < |slots| && slots[i].state.Open? ==> i in open)
  {
    if slots != [] {
      var n := |slots| - 1;
      OpenIndicesFacts(slots[..n]);
      var before, open := OpenIndices(slots[..n]), OpenIndices(slots);
      forall i | 0 <= i < |slots| && slots[i].state.Open?
        ensures i in open
      {
        if i < n {
          assert slots[..n][i].state.Open?;
          assert i in before;
        } else {
          assert open[|before|] == n;
        }
      }
    }
  }

  /** Up to `limit` open slots, smallest first. */
  function FirstOpen<D>(slots: seq<Slot<D>>, limit: nat): seq<nat> {
    var open := OpenIndices(slots);
    if |open| <= limit then open else open[..limit]
  }

  /** Asking for no slot still takes the first one. */
  function FindOpen<D>(slots: seq<Slot<D>>, needed: nat): Result<seq<nat>, SlotError> {
    var found := FirstOpen(slots, if needed == 0 then 1 else needed);
    if |found| < needed then Err(NotEnoughOpenSlots(needed, |found|)) else Ok(found)
  }

  /**
   For a positive request: exactly that many open slots, and no open slot outside the answer has a
   smaller index than one inside it. It fails exactly when there are fewer open slots.
   */
  lemma FindsSmallestOpenSlots<D>(slots: seq<Slot<D>>, needed: nat)
    requires needed > 0
    ensures FindOpen(slots, needed).Ok? <==> needed <= |OpenSet(slots)|
    ensures FindOpen(slots, needed).Ok? ==>
              var found := FindOpen(slots, needed).value;
              && |found| == needed && Distinct(found)
              && (forall k :: 0 <= k < |found| ==> found[k] < |slots| && slots[found[k]].state.Open?)
              && (forall i, k :: 0 <= i < |slots| && slots[i].state.Open? && i !in found && 0 <= k < |found| ==> found[k] < i)
  {
    var open := OpenIndices(slots);
    OpenIndicesFacts(slots);
    OpenCount(slots);
    if needed <= |open| {
      var found := open[..needed];
      assert forall m :: 0 <= m < needed ==> found[m] == open[m] && open[m] in found;
      forall i, k | 0 <= i < |slots| && slots[i].state.Open? && i !in found && 0 <= k < |found|
        ensures found[k] < i
      {
        var m :| 0 <= m < |open| && open[m] == i;
      }
    }
  }

  ghost function OpenSet<D>(slots: seq<Slot<D>>): set<nat> {
    set i | 0 <= i < |slots| && slots[i].state.Open?
  }

  lemma OpenCount<D>(slots: seq<Slot<D>>)
    ensures |OpenIndices(slots)| == |OpenSet(slots)|
  {
    OpenIndicesFacts(slots);
    DistinctCount(OpenIndices(slots));
    assert Elements(OpenIndices(slots)) == OpenSet(slots);
  }

  /** Asking for no slot is the odd case: it still yields one whenever one is open. */
  lemma FindingNoneYieldsOne<D>(slots: seq<Slot<D>>)
    ensures FindOpen(slots, 0).Ok?
    ensures |FindOpen(slots, 0).value| == if exists i :: 0 <= i < |slots| && slots[i].state.Open? then 1 else 0
  {
    OpenIndicesFacts(slots);
    if i :| 0 <= i < |slots| && slots[i].state.Open? {
      assert i in OpenIndices(slots);
    }
    assert |OpenIndices(slots)| > 0 ==> slots[OpenIndices(slots)[0]].state.Open?;
  }

  // ----- Marking and releasing -----

  ghost predicate Touches(placement: Placement, i: nat) {
    exists j :: 0 <= j < |placement| && placement[j].0 == i
  }

  ghost predicate InBounds(placement: Placement, n: nat) {
    forall j :: 0 <= j < |placement| ==> placement[j].0 < n
  }

  /** How many leading entries lie within `n` slots. */
  function BoundedPrefix(placement: Placement, n: nat): (p: nat)
    ensures p <= |placement| && InBounds(placement[..p], n)
    ensures p < |placement| ==> placement[p].0 >= n
    ensures InBounds(placement, n) <==> p == |placement|
  {
    if placement == [] || placement[0].0 >= n then 0
    else
      var p := 1 + BoundedPrefix(placement[1..], n);
      assert forall j :: 0 < j < p ==> placement[..p][j] == placement[1..][..p - 1][j - 1];
      assert InBounds(placement, n) ==> InBounds(placement[1..], n);
      p
  }

  function SetStates<D>(slots: seq<Slot<D>>, placement: Placement, state: SlotState<D>): (r: seq<Slot<D>>)
    requires InBounds(placement, |slots|)
    ensures |r| == |slots|
    ensures forall i :: 0 <= i < |slots| ==> r[i] == if Touches(placement, i) then slots[i].(state := state) else slots[i]
  {
    if placement == [] then slots
    else
      var n := |placement| - 1;
      var before := SetStates(slots, placement[..n], state);
      var i := placement[n].0;
      assert forall k :: Touches(placement, k) <==> Touches(placement[..n], k) || k == i by { TouchesSnoc(placement); }
      before[i := before[i].(state := state)]
  }

  lemma TouchesSnoc(placement: Placement)
    requires placement != []
    ensures forall k :: Touches(placement, k) <==> Touches(placement[..|placement| - 1], k) || k == placement[|placement| - 1].0
  {
    var n := |placement| - 1;
    forall k
      ensures Touches(placement, k) <==> Touches(placement[..n], k) || k == placement[n].0
    {
      if Touches(placement[..n], k) {
        var j :| 0 <= j < n && placement[..n][j].0 == k;
        assert placement[j].0 == k;
      }
      if Touches(placement, k) && k != placement[n].0 {
        var j :| 0 <= j < |placement| && placement[j].0 == k;
        assert placement[..n][j].0 == k;
      }
    }
  }

  /** The two maps the allocator must keep in step. */
  datatype Books<+D> = Books(slots: seq<Slot<D>>, content: map<string, Placement>)

  /** Marks entries up to the first one out of bounds, and records the id only if there is none. */
  function Mark<D>(b: Books<D>, placement: Placement, id: string, hash: D): Books<D> {
    var p := BoundedPrefix(placement, |b.slots|);
    Books(SetStates(b.slots, placement[..p], Content(id, hash)),
          if p == |placement| then b.content[id := placement] else b.content)
  }

  /** Opens the slots of `id` and forgets it; an entry out of bounds stops it half-way. */
  function Release<D>(b: Books<D>, id: string): Books<D>
    requires id in b.content
  {
    var placement := b.content[id];
    var p := BoundedPrefix(placement, |b.slots|);
    Books(SetStates(b.slots, placement[..p], Open), if p == |placement| then b.content - {id} else b.content)
  }

  /** Slot tags and index agree: what an id lists is tagged with it, and what is tagged is listed. */
  ghost predicate Agree<D>(b: Books<D>) {
    && (forall id :: id in b.content ==> InBounds(b.content[id], |b.slots|) && NoRepeats(b.content[id]))
    && (forall id, j :: id in b.content && 0 <= j < |b.content[id]| ==> TaggedWith(b.slots, b.content[id][j].0, id))
    && (forall i :: 0 <= i < |b.slots| && b.slots[i].state.Content? ==> Listed(b, i))
  }

  ghost predicate NoRepeats(placement: Placement) {
    forall j, k :: 0 <= j < k < |placement| ==> placement[j].0 != placement[k].0
  }

  ghost predicate TaggedWith<D>(slots: seq<Slot<D>>, i: nat, id: string) {
    i < |slots| && slots[i].state.Content? && slots[i].state.dealId == id
  }

  ghost predicate Listed<D>(b: Books<D>, i: nat)
    requires i < |b.slots| && b.slots[i].state.Content?
  {
    b.slots[i].state.dealId in b.content && Touches(b.content[b.slots[i].state.dealId], i)
  }

  /** When marking keeps the two maps in agreement: a test a caller can make beforehand. */
  ghost predicate MarkIsSafe<D>(b: Books<D>, placement: Placement, id: string) {
    if InBounds(placement, |b.slots|) then
      && NoRepeats(placement)
      && (forall j :: 0 <= j < |placement| ==>
            b.slots[placement[j].0].state.Content? ==> b.slots[placement[j].0].state.dealId == id)
      && (id in b.content ==> forall j :: 0 <= j < |b.content[id]| ==> Touches(placement, b.content[id][j].0))
    else
      forall j :: 0 <= j < BoundedPrefix(placement, |b.slots|) ==> TaggedWith(b.slots, placement[j].0, id)
  }

  /**
   Marking keeps agreement exactly when it is safe. So a reused id must be given a superset of its
   slots, and a marking that fails must have touched nothing but slots the id already had.
   */
  lemma MarkKeepsAgreementExactly<D>(b: Books<D>, placement: Placement, id: string, hash: D)
    requires Agree(b)
    ensures Agree(Mark(b, placement, id, hash)) <==> MarkIsSafe(b, placement, id)
  {
    if InBounds(placement, |b.slots|) {
      assert placement[..|placement|] == placement;
      if MarkIsSafe(b, placement, id) {
        SafeMarkAgrees(b, placement, id, hash);
      }
      if Agree(Mark(b, placement, id, hash)) {
        AgreeingMarkIsSafe(b, placement, id, hash);
      }
    } else {
      FailedMarkAgreesExactly(b, placement, id, hash);
    }
  }

  lemma SafeMarkAgrees<D>(b: Books<D>, placement: Placement, id: string, hash: D)
    requires Agree(b) && InBounds(placement, |b.slots|) && MarkIsSafe(b, placement, id)
    ensures Agree(Mark(b, placement, id, hash))
  {
    assert placement[..|placement|] == placement;
    var a := Mark(b, placement, id, hash);
    forall x, j | x in a.content && 0 <= j < |a.content[x]|
      ensures TaggedWith(a.slots, a.content[x][j].0, x)
    {
      if x == id {
        assert Touches(placement, placement[j].0);
      } else {
        var i := b.content[x][j].0;
        assert TaggedWith(b.slots, i, x);
        assert !Touches(placement, i);
      }
    }
    forall i | 0 <= i < |a.slots| && a.slots[i].state.Content?
      ensures Listed(a, i)
    {
      if !Touches(placement, i) {
        assert Listed(b, i);
      }
    }
  }

  lemma AgreeingMarkIsSafe<D>(b: Books<D>, placement: Placement, id: string, hash: D)
    requires Agree(b) && InBounds(placement, |b.slots|) && Agree(Mark(b, placement, id, hash))
    ensures MarkIsSafe(b, placement, id)
  {
    assert placement[..|placement|] == placement;
    var a := Mark(b, placement, id, hash);
    assert a.content[id] == placement;
    forall j | 0 <= j < |placement| && b.slots[placement[j].0].state.Content?
      ensures b.slots[placement[j].0].state.dealId == id
    {
      var i := placement[j].0;
      var x := b.slots[i].state.dealId;
      assert Listed(b, i);
      var k :| 0 <= k < |b.content[x]| && b.content[x][k].0 == i;
      assert Touches(placement, i);
      assert x == id || TaggedWith(a.slots, a.content[x][k].0, x);
    }
    forall j | id in b.content && 0 <= j < |b.content[id]|
      ensures Touches(placement, b.content[id][j].0)
    {
      var i := b.content[id][j].0;
      assert TaggedWith(b.slots, i, id);
      assert Listed(a, i);
    }
  }

  lemma FailedMarkAgreesExactly<D>(b: Books<D>, placement: Placement, id: string, hash: D)
    requires Agree(b) && !InBounds(placement, |b.slots|)
    ensures Agree(Mark(b, placement, id, hash)) <==> MarkIsSafe(b, placement, id)
  {
    var p := BoundedPrefix(placement, |b.slots|);
    var a := Mark(b, placement, id, hash);
    if MarkIsSafe(b, placement, id) {
      forall x, j | x in a.content && 0 <= j < |a.content[x]|
        ensures TaggedWith(a.slots, a.content[x][j].0, x)
      {
        assert TaggedWith(b.slots, b.content[x][j].0, x);
      }
      forall i | 0 <= i < |a.slots| && a.slots[i].state.Content?
        ensures Listed(a, i)
      {
        if Touches(placement[..p], i) {
          var j :| 0 <= j < p && placement[..p][j].0 == i;
          assert TaggedWith(b.slots, placement[j].0, id);
        }
        assert Listed(b, i);
      }
    }
    if Agree(a) {
      forall j | 0 <= j < p
        ensures TaggedWith(b.slots, placement[j].0, id)
      {
        var i := placement[j].0;
        assert placement[..p][j].0 == i;
        assert Touches(placement[..p], i);
        assert Listed(a, i);
        var k :| 0 <= k < |b.content[id]| && b.content[id][k].0 == i;
        assert TaggedWith(b.slots, b.content[id][k].0, id);
      }
    }
  }

  /** Releasing a listed id never fails and never breaks agreement. */
  lemma ReleaseKeepsAgreement<D>(b: Books<D>, id: string)
    requires Agree(b) && id in b.content
    ensures Agree(Release(b, id)) && Release(b, id).content == b.content - {id}
    ensures forall i :: 0 <= i < |b.slots| ==>
              Release(b, id).slots[i] == if TaggedWith(b.slots, i, id) then b.slots[i].(state := Open) else b.slots[i]
  {
    var placement := b.content[id];
    assert placement[..|placement|] == placement;
    var a := Release(b, id);
    forall i | 0 <= i < |b.slots|
      ensures Touches(placement, i) <==> TaggedWith(b.slots, i, id)
    {
      if TaggedWith(b.slots, i, id) { assert Listed(b, i); }
    }
    forall x, j | x in a.content && 0 <= j < |a.content[x]|
      ensures TaggedWith(a.slots, a.content[x][j].0, x)
    {
      assert TaggedWith(b.slots, b.content[x][j].0, x);
    }
    forall i | 0 <= i < |a.slots| && a.slots[i].state.Content?
      ensures Listed(a, i)
    {
      assert Listed(b, i);
    }
  }

  /** Reserving open slots under a fresh id and releasing that id restores both maps exactly. */
  lemma ReleaseUndoesReserve<D>(b: Books<D>, placement: Placement, id: string, hash: D)
    requires id !in b.content && InBounds(placement, |b.slots|)
    requires forall j :: 0 <= j < |placement| ==> b.slots[placement[j].0].state.Open?
    ensures Release(Mark(b, placement, id, hash), id) == b
  {
    assert placement[..|placement|] == placement;
    var a := Mark(b, placement, id, hash);
    assert a.content[id] == placement;
    assert a.content - {id} == b.content;
    assert Release(a, id).slots == b.slots;
  }

  // ----- Where agreement breaks -----

  function TwoOpen<D>(): Books<D> {
    Books([Slot(0, 1, Open), Slot(1, 1, Open)], map[])
  }

  /** The same id marked on slot 0, then on slot 1: slot 0 keeps a tag that nothing lists. */
  lemma ReusedIdBreaksAgreement<D>(hash: D)
    ensures var once := Mark(TwoOpen(), [(0, 1)], "a", hash);
            Agree(TwoOpen<D>()) && Agree(once) && !Agree(Mark(once, [(1, 1)], "a", hash))
  {
    var b: Books<D> := TwoOpen();
    var first: Placement := [(0, 1)];
    var second: Placement := [(1, 1)];
    MarkKeepsAgreementExactly(b, first, "a", hash);
    var once := Mark(b, first, "a", hash);
    assert once.content["a"] == first;
    assert once.content["a"][0].0 == 0 && !Touches(second, 0);
    MarkKeepsAgreementExactly(once, second, "a", hash);
  }

  /** A placement whose second entry is out of range: the first slot is tagged, the id never listed. */
  lemma FailedMarkBreaksAgreement<D>(hash: D)
    ensures !Agree(Mark(TwoOpen(), [(0, 1), (2, 1)], "a", hash))
  {
    var placement: Placement := [(0, 1), (2, 1)];
    assert !InBounds(placement, 2) by { assert placement[1].0 == 2; }
    var p := BoundedPrefix(placement, 2);
    assert p == 1 by { assert placement[0].0 < 2; }
    assert !TaggedWith(TwoOpen<D>().slots, placement[0].0, "a");
    MarkKeepsAgreementExactly(TwoOpen(), placement, "a", hash);
  }

  // ----- Runs of the allocator -----

  /** Slots stay where they are, and proof slots keep their role. */
  ghost predicate SameSlots<D>(a: seq<Slot<D>>, b: seq<Slot<D>>) {
    && |a| == |b|
    && forall i :: 0 <= i < |a| ==>
         a[i].offset == b[i].offset && a[i].size == b[i].size && (a[i].state.Proof? <==> b[i].state.Proof?)
  }

  /** `Reserve` finds open slots for pieces of these sizes and marks them if the id is fresh. */
  datatype TableOp<+D> = Reserve(id: string, sizes: seq<nat>, hash: D) | Forget(id: string)

  function PlacedAt(found: seq<nat>, sizes: seq<nat>): (placement: Placement)
    requires |sizes| <= |found|
    ensures |placement| == |sizes| && forall j :: 0 <= j < |sizes| ==> placement[j] == (found[j], sizes[j])
  {
    seq(|sizes|, j requires 0 <= j < |sizes| => (found[j], sizes[j]))
  }

  function TableStep<D>(b: Books<D>, op: TableOp<D>): Books<D> {
    match op
    case Reserve(id, sizes, hash) =>
      if id in b.content then b
      else
        (match FindOpen(b.slots, |sizes|)
         case Err(_) => b
         case Ok(found) => Mark(b, PlacedAt(found, sizes), id, hash))
    case Forget(id) => if id in b.content then Release(b, id) else b
  }

  function TableRun<D>(b: Books<D>, ops: seq<TableOp<D>>): Books<D> {
    if ops == [] then b else TableStep(TableRun(b, ops[..|ops| - 1]), ops[|ops| - 1])
  }

  lemma FreshMarkAgrees<D>(b: Books<D>, placement: Placement, id: string, hash: D)
    requires Agree(b) && id !in b.content && InBounds(placement, |b.slots|) && NoRepeats(placement)
    requires forall j :: 0 <= j < |placement| ==> b.slots[placement[j].0].state.Open?
    ensures Agree(Mark(b, placement, id, hash)) && SameSlots(b.slots, Mark(b, placement, id, hash).slots)
  {
    SafeMarkAgrees(b, placement, id, hash);
    assert placement[..|placement|] == placement;
  }

  lemma FoundSlotsAreOpen<D>(slots: seq<Slot<D>>, sizes: seq<nat>)
    requires FindOpen(slots, |sizes|).Ok?
    ensures var placement := PlacedAt(FindOpen(slots, |sizes|).value, sizes);
            && InBounds(placement, |slots|) && NoRepeats(placement)
            && forall j :: 0 <= j < |placement| ==> slots[placement[j].0].state.Open?
  {
    OpenIndicesFacts(slots);
    var open, found := OpenIndices(slots), FindOpen(slots, |sizes|).value;
    var placement := PlacedAt(found, sizes);
    assert forall j :: 0 <= j < |sizes| ==> found[j] == open[j];
    forall j | 0 <= j < |placement|
      ensures placement[j].0 == open[j] && open[j] < |slots| && slots[open[j]].state.Open?
    {
      assert placement[j] == (found[j], sizes[j]) && found[j] == open[j];
    }
  }

  lemma ReserveKeepsAgreement<D>(b: Books<D>, id: string, sizes: seq<nat>, hash: D)
    requires Agree(b) && id !in b.content && FindOpen(b.slots, |sizes|).Ok?
    ensures var c := Mark(b, PlacedAt(FindOpen(b.slots, |sizes|).value, sizes), id, hash);
            Agree(c) && SameSlots(b.slots, c.slots)
  {
    FoundSlotsAreOpen(b.slots, sizes);
    FreshMarkAgrees(b, PlacedAt(FindOpen(b.slots, |sizes|).value, sizes), id, hash);
  }

  lemma ForgetKeepsAgreement<D>(b: Books<D>, id: string)
    requires Agree(b)
    requires id in b.content
    ensures Agree(Release(b, id)) && SameSlots(b.slots, Release(b, id).slots)
  {
    ReleaseKeepsAgreement(b, id);
    assert forall i :: 0 <= i < |b.slots| && TaggedWith(b.slots, i, id) ==> !b.slots[i].state.Proof?;
  }

  /** From any agreeing tables, through every run: agreement holds, slots stay, proof slots never change role. */
  lemma {:induction false} TableRunKeepsAgreement<D>(b: Books<D>, ops: seq<TableOp<D>>)
    requires Agree(b)
    ensures Agree(TableRun(b, ops)) && SameSlots(b.slots, TableRun(b, ops).slots)
    decreases |ops|
  {
    if ops != [] {
      var n := |ops| - 1;
      var before := TableRun(b, ops[..n]);
      TableRunKeepsAgreement(b, ops[..n]);
      match ops[n]
      case Reserve(id, sizes, hash) =>
        if id !in before.content && FindOpen(before.slots, |sizes|).Ok? {
          ReserveKeepsAgreement(before, id, sizes, hash);
        }
      case Forget(id) =>
        if id in before.content {
          ForgetKeepsAgreement(before, id);
        }
    }
  }

  /** Two ids never share a slot. */
  lemma IdsAreDisjoint<D>(b: Books<D>, x: string, y: string, i: nat)
    requires Agree(b) && x in b.content && y in b.content
    requires Touches(b.content[x], i) && Touches(b.content[y], i)
    ensures x == y
  {
    var j :| 0 <= j < |b.content[x]| && b.content[x][j].0 == i;
    var k :| 0 <= k < |b.content[y]| && b.content[y][k].0 == i;
    assert TaggedWith(b.slots, b.content[x][j].0, x) && TaggedWith(b.slots, b.content[y][k].0, y);
  }

  // ----- The capacity file -----

  /** Writing past the end first extends the file with zeros; writing nothing changes nothing. */
  function FileWrite(file: seq<byte>, offset: nat, data: seq<byte>): (r: seq<byte>)
    ensures |r| >= |file|
    ensures data != [] ==> |r| >= offset + |data|
    ensures forall k :: 0 <= k < |data| ==> r[offset + k] == data[k]
    ensures forall k :: 0 <= k < |file| && !(offset <= k < offset + |data|) ==> r[k] == file[k]
  {
    if data == [] then file
    else
      var base := if |file| < offset + |data| then file + Zeros(offset + |data| - |file|) else file;
      base[..offset] + data + base[offset + |data|..]
  }

  /** `None` when the range runs past the end of the file. */
  function FileRead(file: seq<byte>, offset: nat, size: nat): Option<seq<byte>> {
    if size == 0 then Some([])
    else if offset + size <= |file| then Some(file[offset..offset + size])
    else None
  }

  function Pad(data: seq<byte>, size: nat): (padded: seq<byte>)
    requires |data| <= size
    ensures |padded| == size && padded[..|data|] == data && forall k :: |data| <= k < size ==> padded[k] == 0
  {
    data + Zeros(size - |data|)
  }

  /** Where slot `i` can take `data`. */
  function CheckWrite<D>(slots: seq<Slot<D>>, i: nat, data: seq<byte>): (error: Option<SlotError>) {
    if i >= |slots| then Some(SlotOutOfBounds(i))
    else if |data| > slots[i].size then Some(DataExceedsSlot(slots[i].size))
    else None
  }

  /** The file after a write, unchanged if the write is refused. */
  function WriteSlot<D>(slots: seq<Slot<D>>, file: seq<byte>, i: nat, data: seq<byte>): seq<byte> {
    if CheckWrite(slots, i, data).None? then FileWrite(file, slots[i].offset, Pad(data, slots[i].size)) else file
  }

  function ReadSlot<D>(slots: seq<Slot<D>>, file: seq<byte>, i: nat): Result<seq<byte>, SlotError> {
    if i >= |slots| then Err(SlotOutOfBounds(i))
    else
      match FileRead(file, slots[i].offset, slots[i].size)
      case None => Err(ReadPastEnd)
      case Some(data) => Ok(data)
  }

  ghost predicate RangesDisjoint<D>(a: Slot<D>, b: Slot<D>) {
    a.offset + a.size <= b.offset || b.offset + b.size <= a.offset
  }

  ghost predicate PairwiseDisjoint<D>(slots: seq<Slot<D>>) {
    forall i, j :: 0 <= i < |slots| && 0 <= j < |slots| && i != j ==> RangesDisjoint(slots[i], slots[j])
  }

  lemma ReadBackWrite<D>(slots: seq<Slot<D>>, file: seq<byte>, i: nat, data: seq<byte>)
    requires CheckWrite(slots, i, data).None?
    ensures ReadSlot(slots, WriteSlot(slots, file, i, data), i) == Ok(Pad(data, slots[i].size))
  {
    var s := slots[i];
    var r := WriteSlot(slots, file, i, data);
    if s.size > 0 {
      assert r[s.offset..s.offset + s.size] == Pad(data, s.size);
    }
  }

  lemma ReadOtherSlot<D>(slots: seq<Slot<D>>, file: seq<byte>, i: nat, j: nat, data: seq<byte>)
    requires j < |slots| && i != j && PairwiseDisjoint(slots) && ReadSlot(slots, file, j).Ok?
    ensures ReadSlot(slots, WriteSlot(slots, file, i, data), j) == ReadSlot(slots, file, j)
  {
    if CheckWrite(slots, i, data).None? && slots[j].size > 0 {
      var r := WriteSlot(slots, file, i, data);
      var t := slots[j];
      assert RangesDisjoint(slots[i], t);
      assert r[t.offset..t.offset + t.size] == file[t.offset..t.offset + t.size];
    }
  }

  function WriteAll<D>(slots: seq<Slot<D>>, file: seq<byte>, writes: seq<(nat, seq<byte>)>): seq<byte> {
    if writes == [] then file
    else
      var n := |writes| - 1;
      WriteSlot(slots, WriteAll(slots, file, writes[..n]), writes[n].0, writes[n].1)
  }

  /** What the last accepted write to slot `i` put there, if there was one. */
  function LastWrite<D>(slots: seq<Slot<D>>, writes: seq<(nat, seq<byte>)>, i: nat): Option<seq<byte>>
    requires i < |slots|
  {
    if writes == [] then None
    else
      var n := |writes| - 1;
      if writes[n].0 == i && CheckWrite(slots, i, writes[n].1).None? then Some(Pad(writes[n].1, slots[i].size))
      else LastWrite(slots, writes[..n], i)
  }

  /** After any sequence of writes every slot reads back its own last write, or what it held before. */
  lemma {:induction false} SlotsKeepTheirLastWrite<D>(slots: seq<Slot<D>>, file: seq<byte>, writes: seq<(nat, seq<byte>)>, i: nat)
    requires i < |slots| && PairwiseDisjoint(slots)
    ensures LastWrite(slots, writes, i).Some? ==>
              ReadSlot(slots, WriteAll(slots, file, writes), i) == Ok(LastWrite(slots, writes, i).value)
    ensures LastWrite(slots, writes, i).None? && ReadSlot(slots, file, i).Ok? ==>
              ReadSlot(slots, WriteAll(slots, file, writes), i) == ReadSlot(slots, file, i)
    decreases |writes|
  {
    if writes != [] {
      var n := |writes| - 1;
      SlotsKeepTheirLastWrite(slots, file, writes[..n], i);
      var before := WriteAll(slots, file, writes[..n]);
      if writes[n].0 == i && CheckWrite(slots, i, writes[n].1).None? {
        ReadBackWrite(slots, before, i, writes[n].1);
      } else if writes[n].0 != i && ReadSlot(slots, before, i).Ok? {
        ReadOtherSlot(slots, before, writes[n].0, i, writes[n].1);
      }
    }
  }

  // ----- The allocator object -----

  class SlotAllocator<D> {
    const hashChunk: seq<byte> -> D
    var slotMap: Option<seq<Slot<D>>>
    var contentSlotMap: map<string, Placement>
    var capacityFile: seq<byte>

    constructor (hashChunk: seq<byte> -> D)
      ensures this.hashChunk == hashChunk && slotMap == None && contentSlotMap == map[] && capacityFile == []
    {
      this.hashChunk := hashChunk;
      slotMap, contentSlotMap, capacityFile := None, map[], [];
    }

    method FindOpenSlots(needed: nat) returns (r: Result<seq<nat>, SlotError>)
      ensures r == if slotMap.None? then Err(SlotMapNotLoaded) else FindOpen(slotMap.value, needed)
    {
      if slotMap.None? {
        return Err(SlotMapNotLoaded);
      }
      var open := ScanOpen(slotMap.value, needed);
      if |open| < needed {
        return Err(NotEnoughOpenSlots(needed, |open|));
      }
      r := Ok(open);
    }

    method MarkSlotsAsContent(placement: Placement, id: string, hash: D) returns (r: Result<(), SlotError>)
      modifies this`slotMap, this`contentSlotMap
      ensures old(slotMap).None? ==> r == Err(SlotMapNotLoaded) && slotMap == None && contentSlotMap == old(contentSlotMap)
      ensures old(slotMap).Some? ==>
                && slotMap.Some?
                && Books(slotMap.value, contentSlotMap) == Mark(Books(old(slotMap).value, old(contentSlotMap)), placement, id, hash)
                && (r.Ok? <==> InBounds(placement, |slotMap.value|))
    {
      if slotMap.None? {
        return Err(SlotMapNotLoaded);
      }
      ghost var before := slotMap.value;
      ghost var p := BoundedPrefix(placement, |before|);
      for k := 0 to |placement|
        invariant k <= p
        invariant slotMap.Some? && slotMap.value == SetStates(before, placement[..k], Content(id, hash))
        invariant contentSlotMap == old(contentSlotMap)
      {
        var idx := placement[k].0;
        if idx >= |slotMap.value| {
          assert k == p;
          return Err(SlotOutOfBounds(idx));
        }
        assert k < p;
        assert placement[..k + 1][..k] == placement[..k];
        slotMap := Some(slotMap.value[idx := slotMap.value[idx].(state := Content(id, hash))]);
      }
      contentSlotMap := contentSlotMap[id := placement];
      r := Ok(());
    }

    method FindSlotsByContentId(id: string) returns (r: Result<Placement, SlotError>)
      ensures r == if id in contentSlotMap then Ok(contentSlotMap[id]) else Err(ContentIdNotInSlotMap)
    {
      r := if id in contentSlotMap then Ok(contentSlotMap[id]) else Err(ContentIdNotInSlotMap);
    }

    method RemoveContentById(id: string) returns (r: Result<Placement, SlotError>)
      modifies this`slotMap, this`contentSlotMap
      ensures id !in old(contentSlotMap) ==>
                r == Err(ContentIdNotInSlotMap) && slotMap == old(slotMap) && contentSlotMap == old(contentSlotMap)
      ensures id in old(contentSlotMap) && old(slotMap).None? ==>
                r == Err(SlotMapNotLoaded) && slotMap == None && contentSlotMap == old(contentSlotMap)
      ensures id in old(contentSlotMap) && old(slotMap).Some? ==>
                && slotMap.Some?
                && Books(slotMap.value, contentSlotMap) == Release(Books(old(slotMap).value, old(contentSlotMap)), id)
                && (r.Ok? <==> InBounds(old(contentSlotMap)[id], |slotMap.value|))
                && (r.Ok? ==> r.value == old(contentSlotMap)[id])
    {
      if id !in contentSlotMap {
        return Err(ContentIdNotInSlotMap);
      }
      var placement := contentSlotMap[id];
      if slotMap.None? {
        return Err(SlotMapNotLoaded);
      }
      ghost var before := slotMap.value;
      ghost var p := BoundedPrefix(placement, |before|);
      for k := 0 to |placement|
        invariant k <= p
        invariant slotMap.Some? && slotMap.value == SetStates(before, placement[..k], Open)
        invariant contentSlotMap == old(contentSlotMap)
      {
        var idx := placement[k].0;
        if idx >= |slotMap.value| {
          assert k == p;
          return Err(SlotOutOfBounds(idx));
        }
        assert k < p;
        assert placement[..k + 1][..k] == placement[..k];
        slotMap := Some(slotMap.value[idx := slotMap.value[idx].(state := Open)]);
      }
      contentSlotMap := contentSlotMap - {id};
      r := Ok(placement);
    }

    method WriteChunkToSlot(i: nat, data: seq<byte>) returns (r: Result<D, SlotError>)
      modifies this`capacityFile
      ensures slotMap.None? ==> r == Err(SlotMapNotLoaded) && capacityFile == old(capacityFile)
      ensures slotMap.Some? ==>
                && capacityFile == WriteSlot(slotMap.value, old(capacityFile), i, data)
                && (CheckWrite(slotMap.value, i, data).None? ==> r == Ok(hashChunk(Pad(data, slotMap.value[i].size))))
                && (CheckWrite(slotMap.value, i, data).Some? ==> r == Err(CheckWrite(slotMap.value, i, data).value))
    {
      if slotMap.None? {
        return Err(SlotMapNotLoaded);
      }
      if i >= |slotMap.value| {
        return Err(SlotOutOfBounds(i));
      }
      var slot := slotMap.value[i];
      if |data| > slot.size {
        return Err(DataExceedsSlot(slot.size));
      }
      var padded := Pad(data, slot.size);
      capacityFile := FileWrite(capacityFile, slot.offset, padded);
      r := Ok(hashChunk(padded));
    }

    method ReadChunkFromSlot(i: nat) returns (r: Result<seq<byte>, SlotError>)
      ensures r == if slotMap.None? then Err(SlotMapNotLoaded) else ReadSlot(slotMap.value, capacityFile, i)
    {
      if slotMap.None? {
        return Err(SlotMapNotLoaded);
      }
      r := ReadSlot(slotMap.value, capacityFile, i);
    }
  }

  /** The scan behind `FindOpenSlots`: it stops once enough open slots are collected. */
  method ScanOpen<D>(slots: seq<Slot<D>>, needed: nat) returns (open: seq<nat>)
    ensures open == FirstOpen(slots, if needed == 0 then 1 else needed)
  {
    open := [];
    ghost var want := if needed == 0 then 1 else needed;
    for i := 0 to |slots|
      invariant open == OpenIndices(slots[..i]) && |open| < want
    {
      assert slots[..i + 1][..i] == slots[..i];
      if slots[i].state.Open? {
        open := open + [i];
        if |open| >= needed {
          PrefixOfOpen(slots, i + 1);
          return;
        }
      }
    }
    assert slots[..|slots|] == slots;
  }

  lemma {:induction false} PrefixOfOpen<D>(slots: seq<Slot<D>>, n: nat)
    requires n <= |slots|
    ensures OpenIndices(slots[..n]) <= OpenIndices(slots)
    decreases |slots|
  {
    if n < |slots| {
      PrefixOfOpen(slots[..|slots| - 1], n);
      assert slots[..|slots| - 1][..n] == slots[..n];
    } else {
      assert slots[..n] == slots;
    }
  }
}
