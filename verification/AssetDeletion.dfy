/** The order in which a user's message assets are deleted, and what it guarantees. */
module AssetDeletion {
  import opened Common
  import opened AssetEvents
  import opened AssetRooms
  import opened AssetView
  import opened AssetHistory
  import opened AssetGraph

  datatype OwnedRef = OwnedRef(roomId: Id, assetId: Id)

  datatype Target = Target(assetId: Id, roomId: Id)

  /** What becomes of a listed asset: it may have no room, and it may be gone by now. */
  function TargetOf(v: View, ref: OwnedRef, id: Id): (t: Option<Target>)
    ensures t.Some? ==> t.value.assetId == id && t.value.roomId != ""
    ensures t.Some? <==> id in v.creations && (v.creations[id].roomId != "" || ref.roomId != "")
    ensures t.Some? && v.creations[id].roomId != "" ==> t.value.roomId == v.creations[id].roomId
  {
    if id !in v.creations then None
    else if v.creations[id].roomId != "" then Some(Target(id, v.creations[id].roomId))
    else if ref.roomId != "" then Some(Target(id, ref.roomId))
    else None
  }

  function TargetIds(targets: seq<Target>): seq<Id> {
    seq(|targets|, i requires 0 <= i < |targets| => targets[i].assetId)
  }

  /** x lies in the subtree of one of the referenced assets. */
  ghost predicate Owned(v: View, owned: seq<OwnedRef>, x: Id) {
    exists k :: 0 <= k < |owned| && v.Live(owned[k].assetId) && Reachable(v, owned[k].assetId, x)
  }

  ghost predicate HasRooms(owned: seq<OwnedRef>) {
    forall k :: 0 <= k < |owned| ==> owned[k].roomId != ""
  }

  /** Consistent maps, an exact child index, no parent cycle. */
  ghost predicate Tidy(v: View, rank: Id -> nat) {
    Consistent(v) && IndexInverse(v) && AcyclicBy(v, rank)
  }

  lemma NoVisitedAncestor(v: View, seen: set<Id>, a: Id, x: Id)
    requires Consistent(v) && IndexInverse(v) && ClosedUnderChildren(v, seen)
    requires a in seen && v.Live(x) && v.Live(a) && x !in seen
    ensures !ProperAncestor(v, a, x)
  {
    if ProperAncestor(v, a, x) {
      var k: nat :| ParentAt(v, x, k, a);
      AncestorReaches(v, a, x, k);
      ReachableStaysInClosedSet(v, seen, a, x);
    }
  }

  lemma {:induction false} DeleteAllTombstones(v: View, ids: seq<Id>)
    requires "" !in ids
    ensures DeleteAll(v, ids).deleted == v.deleted + Ids(ids)
  {
    if ids != [] {
      DeleteAllTombstones(v, ids[..|ids| - 1]);
      assert ids == ids[..|ids| - 1] + [ids[|ids| - 1]];
    }
  }

  /** If as many are counted as were listed, each was. */
  lemma AllCounted(ids: seq<Id>, done: set<Id>)
    requires Distinct(ids) && done <= Ids(ids) && |ids| <= |done|
    ensures done == Ids(ids)
  {
    DistinctCount(ids);
    assert |Ids(ids) - done| == |Ids(ids)| - |done|;
  }

  lemma {:induction false} DistinctCount(ids: seq<Id>)
    requires Distinct(ids)
    ensures |Ids(ids)| == |ids|
  {
    if ids != [] {
      var before := ids[..|ids| - 1];
      DistinctCount(before);
      assert ids == before + [ids[|ids| - 1]];
      assert Ids(ids) == Ids(before) + {ids[|ids| - 1]};
    }
  }

  /** Everything owned is tombstoned, n assets in all, nothing else is, and every asset answers
      with the room it had before, deleted or not. */
  ghost predicate CleanDeletion(v: View, owned: seq<OwnedRef>, w: View, n: nat) {
    && (forall x :: x in w.deleted <==> x in v.deleted || Owned(v, owned, x))
    && |w.deleted| == |v.deleted| + n
    && (forall x :: x != "" ==> w.RoomOf(x) == v.RoomOf(x))
  }

  /** The guarantee of the whole operation, for every leaf-first list of exactly the owned assets. */
  lemma DeletionKeepsEveryRoom(v: View, rank: Id -> nat, owned: seq<OwnedRef>, ids: seq<Id>)
    requires Tidy(v, rank) && Distinct(ids) && LeafFirst(v, ids)
    requires forall x :: x in ids <==> Owned(v, owned, x)
    ensures CleanDeletion(v, owned, DeleteAll(v, ids), |ids|)
  {
    forall x | x in ids ensures v.Live(x) {
      OwnedIsLive(v, owned, x);
    }
    DeleteAllTombstones(v, ids);
    DistinctCount(ids);
    assert v.deleted !! Ids(ids);
    forall x | x != "" ensures DeleteAll(v, ids).RoomOf(x) == v.RoomOf(x) {
      if x in ids {
        LeafFirstKeepsRooms(v, ids, x);
      } else {
        OwnedSpareOthers(v, owned, ids, x);
        BystanderKeepsRoom(v, ids, x);
      }
    }
  }

  /** An asset that is not owned has no owned asset above it. */
  lemma OwnedSpareOthers(v: View, owned: seq<OwnedRef>, ids: seq<Id>, x: Id)
    requires Consistent(v) && IndexInverse(v) && x !in ids && forall y :: y in ids <==> Owned(v, owned, y)
    ensures forall a :: a in ids ==> !ProperAncestor(v, a, x)
  {
    forall a | a in ids ensures !ProperAncestor(v, a, x) {
      if ProperAncestor(v, a, x) {
        var k: nat :| ParentAt(v, x, k, a);
        ChainStartsLive(v, x, k);
        OwnedIsLive(v, owned, a);
        AncestorReaches(v, a, x, k);
        OwnedIsClosed(v, owned, a, x);
      }
    }
  }

  lemma OwnedIsLive(v: View, owned: seq<OwnedRef>, x: Id)
    requires Owned(v, owned, x)
    ensures v.Live(x)
  {
  }

  lemma OwnedIsClosed(v: View, owned: seq<OwnedRef>, a: Id, x: Id)
    requires Owned(v, owned, a) && Reachable(v, a, x)
    ensures Owned(v, owned, x)
  {
    var k :| 0 <= k < |owned| && v.Live(owned[k].assetId) && Reachable(v, owned[k].assetId, a);
    var path :| PathBetween(v, path, owned[k].assetId, a);
    var rest :| PathBetween(v, rest, a, x);
    assert PathBetween(v, path + rest[1..], owned[k].assetId, x);
  }

  lemma {:induction false} ChainStartsLive(v: View, x: Id, k: nat)
    requires Consistent(v) && Up(v.creations, Find(v.creations, x), k).Some?
    ensures v.Live(x)
  {
    if k > 0 {
      ChainStartsLive(v, x, k - 1);
    }
  }

  // ---- Deletes among appends by others ----

  /** From this position on nothing is deleted. */
  ghost predicate NoDeletes(log: Log, from: nat) {
    forall i :: from <= i < |log| ==> !log[i].event.AssetDeleted?
  }

  lemma NoDeletesYet(log: Log)
    ensures NoDeletes(log, |log|)
  {
  }

  lemma NoDeletesJoin(log: Log, longer: Log, from: nat)
    requires log <= longer && from <= |log|
    ensures NoDeletes(log, from) && NoDeletes(longer, |log|) ==> NoDeletes(longer, from)
  {
  }

  /** From this position on exactly one entry is a delete, and it is of this asset. */
  ghost predicate SoleDelete(log: Log, from: nat, id: Id) {
    exists pos :: from <= pos < |log| && IsSoleDelete(log, from, id, pos)
  }

  ghost predicate IsSoleDelete(log: Log, from: nat, id: Id, pos: nat)
    requires pos < |log|
  {
    log[pos].event == AssetDeleted(id) && forall i :: from <= i < |log| && i != pos ==> !log[i].event.AssetDeleted?
  }

  /** If this entry is a create, its id has been neither created nor deleted before. */
  ghost predicate IsFresh(log: Log, i: nat)
    requires i < |log|
  {
    log[i].event.AssetCreated? && log[i].event.Asset() != "" ==>
      forall j :: 0 <= j < i ==>
        !Is(log[j].event, KCreate, log[i].event.Asset()) && !Is(log[j].event, KDelete, log[i].event.Asset())
  }

  ghost predicate FreshCreates(log: Log, from: nat) {
    forall i :: from <= i < |log| ==> IsFresh(log, i)
  }

  /** w comes from v by deleting `gone` among other events: what is left of v stands unchanged, and what is gone is
      remembered with its room. */
  ghost predicate Undisturbed(v: View, w: View, gone: set<Id>) {
    && Consistent(w)
    && (forall x :: x in v.creations && x !in gone ==> Find(w.creations, x) == Find(v.creations, x))
    && (forall x :: x in v.deleted || x in gone ==> x in w.deleted)
    && (forall x :: x in gone && v.RoomOf(x) != "" ==> Find(w.deletedRooms, x) == Some(v.RoomOf(x)))
    && (forall x :: x in v.deletedRooms ==> Find(w.deletedRooms, x) == Find(v.deletedRooms, x))
  }

  lemma NothingGone(v: View)
    requires Consistent(v)
    ensures Undisturbed(v, v, {})
  {
  }

  lemma OtherEventKeeps(v: View, w: View, gone: set<Id>, e: Event)
    requires Consistent(v) && Undisturbed(v, w, gone) && !e.AssetDeleted?
    requires e.AssetCreated? ==> e.Asset() !in w.creations && e.Asset() !in w.deleted
    ensures Undisturbed(v, Step(w, e), gone)
  {
    StepKeepsConsistency(w, e);
  }

  lemma DeleteKeeps(v: View, w: View, gone: set<Id>, t: Id)
    requires Consistent(v) && Undisturbed(v, w, gone) && t != "" && t !in v.deleted && t !in gone
    requires v.RoomOf(t) != "" ==> w.RoomOf(t) == v.RoomOf(t)
    ensures Undisturbed(v, Delete(w, t), gone + {t})
  {
    StepKeepsConsistency(w, AssetDeleted(t));
  }

  // ---- Which rooms survive ----

  /** The chain above x reaches its room at the k-th creation, and the link from the j-th, below that, leads to an asset
      that is gone. */
  ghost predicate CutAt(v: View, gone: set<Id>, x: Id, k: nat, j: nat) {
    && j < k && RoomAt(v.creations, Find(v.creations, x), k, v.RoomOf(x))
    && Up(v.creations, Find(v.creations, x), j).Some?
    && Up(v.creations, Find(v.creations, x), j).value.parentId in gone
  }

  /** Between x and the asset that carries its room, that one included, something is gone. */
  ghost predicate CutOff(v: View, gone: set<Id>, x: Id) {
    exists k: nat, j: nat :: CutAt(v, gone, x, k, j)
  }

  /** Up to the first link to something gone the chain stands. */
  lemma {:induction false} ChainSurvives(v: View, w: View, gone: set<Id>, x: Id, k: nat)
    requires Undisturbed(v, w, gone) && x !in gone
    requires Up(v.creations, Find(v.creations, x), k).Some?
    requires forall j: nat :: j < k && Up(v.creations, Find(v.creations, x), j).Some? ==>
               Up(v.creations, Find(v.creations, x), j).value.parentId !in gone
    ensures Up(w.creations, Find(w.creations, x), k) == Up(v.creations, Find(v.creations, x), k)
  {
    if k > 0 {
      ChainSurvives(v, w, gone, x, k - 1);
    }
  }

  lemma {:induction false} LinksBelow(creations: Creations, start: Option<Creation>, j: nat, k: nat)
    requires j <= k && Up(creations, start, k).Some?
    ensures Up(creations, start, j).Some?
  {
    if Up(creations, start, j).None? {
      ChainEnds(creations, start, j, k);
    }
  }

  lemma UncutRoomSurvives(v: View, w: View, gone: set<Id>, x: Id)
    requires Consistent(v) && Undisturbed(v, w, gone) && x in v.creations && x !in gone
    requires v.RoomOf(x) != "" && !CutOff(v, gone, x)
    ensures w.RoomOf(x) == v.RoomOf(x)
  {
    var start, room := Find(v.creations, x), v.RoomOf(x);
    WalkFindsNearestRoom(v.creations, start);
    var k: nat :| RoomAt(v.creations, start, k, room);
    forall j: nat | j < k && Up(v.creations, start, j).Some?
      ensures Up(v.creations, start, j).value.parentId !in gone
    {
      assert !CutAt(v, gone, x, k, j);
    }
    forall j: nat | j < k ensures Roomless(w.creations, Find(w.creations, x), j) {
      LinksBelow(v.creations, start, j, k);
      ChainSurvives(v, w, gone, x, j);
      assert Roomless(v.creations, start, j);
    }
    ChainSurvives(v, w, gone, x, k);
    assert RoomAt(w.creations, Find(w.creations, x), k, room);
    WalkFindsNearestRoom(w.creations, Find(w.creations, x));
    NearestRoomIsUnique(w.creations, Find(w.creations, x), room, WalkRoom(w.creations, Find(w.creations, x), {}));
  }

  /** The lowest cut. */
  lemma {:induction false} FirstCut(v: View, gone: set<Id>, x: Id, k: nat, j: nat) returns (f: nat)
    requires CutAt(v, gone, x, k, j)
    ensures CutAt(v, gone, x, k, f)
    ensures forall i: nat :: i < f && Up(v.creations, Find(v.creations, x), i).Some? ==>
              Up(v.creations, Find(v.creations, x), i).value.parentId !in gone
  {
    f := 0;
    while !CutAt(v, gone, x, k, f)
      invariant f <= j
      invariant forall i: nat :: i < f ==> !CutAt(v, gone, x, k, i)
      decreases j - f
    {
      f := f + 1;
    }
    forall i: nat | i < f && Up(v.creations, Find(v.creations, x), i).Some?
      ensures Up(v.creations, Find(v.creations, x), i).value.parentId !in gone
    {
      assert !CutAt(v, gone, x, k, i);
    }
  }

  lemma CutRoomIsLost(v: View, w: View, gone: set<Id>, x: Id)
    requires Consistent(v) && Undisturbed(v, w, gone) && x in v.creations && x !in gone
    requires v.RoomOf(x) != "" && CutOff(v, gone, x)
    ensures w.RoomOf(x) == ""
  {
    var start, there := Find(v.creations, x), Find(w.creations, x);
    var k: nat, j: nat :| CutAt(v, gone, x, k, j);
    var f := FirstCut(v, gone, x, k, j);
    forall i: nat | i < f + 1 ensures Roomless(w.creations, there, i) {
      LinksBelow(v.creations, start, i, k);
      ChainSurvives(v, w, gone, x, i);
      assert Roomless(v.creations, start, i);
    }
    ChainSurvives(v, w, gone, x, f);
    assert Up(w.creations, there, f + 1).None?;
    RoomlessAfterEnd(w.creations, there, f + 1);
    WalkFindsNearestRoom(w.creations, there);
    NearestRoomIsUnique(w.creations, there, "", WalkRoom(w.creations, there, {}));
  }

  /** The exact condition: an asset that had a room has it still exactly if it is gone itself, and so remembered, or
      nothing between it and its room is gone; otherwise it has none. */
  lemma RoomKeptExactly(v: View, w: View, gone: set<Id>, x: Id)
    requires Consistent(v) && Undisturbed(v, w, gone) && x in v.creations && v.RoomOf(x) != ""
    ensures w.RoomOf(x) == if x in gone || !CutOff(v, gone, x) then v.RoomOf(x) else ""
  {
    if x !in gone {
      if CutOff(v, gone, x) {
        CutRoomIsLost(v, w, gone, x);
      } else {
        UncutRoomSurvives(v, w, gone, x);
      }
    }
  }

  /** What becomes of the rooms when `gone` is deleted, in an order that deletes nothing below what is gone. */
  ghost predicate RoomsAfter(v: View, w: View, gone: set<Id>) {
    forall x :: v.RoomOf(x) != "" ==>
      w.RoomOf(x) == if x !in v.creations || x in gone || !CutOff(v, gone, x) then v.RoomOf(x) else ""
  }

  lemma UndisturbedRooms(v: View, w: View, gone: set<Id>)
    requires Consistent(v) && Undisturbed(v, w, gone)
    ensures RoomsAfter(v, w, gone)
  {
    hide CutOff;
    forall x | v.RoomOf(x) != ""
      ensures w.RoomOf(x) == if x !in v.creations || x in gone || !CutOff(v, gone, x) then v.RoomOf(x) else ""
    {
      if x in v.creations {
        RoomKeptExactly(v, w, gone, x);
      }
    }
  }

  /** No asset lost or changed the room it had. */
  ghost predicate KeepsRooms(v: View, w: View) {
    forall x :: v.RoomOf(x) != "" ==> w.RoomOf(x) == v.RoomOf(x)
  }

  /** If whatever stands below something gone is gone too, every room is kept. */
  lemma NothingCutOff(v: View, w: View, gone: set<Id>)
    requires Consistent(v) && IndexInverse(v) && RoomsAfter(v, w, gone) && ClosedUnderChildren(v, gone)
    ensures KeepsRooms(v, w)
  {
    forall x | x in v.creations && v.RoomOf(x) != "" && x !in gone ensures !CutOff(v, gone, x) {
      if CutOff(v, gone, x) {
        var k: nat, j: nat :| CutAt(v, gone, x, k, j);
        var a := CutIsAbove(v, gone, x, k, j);
        AncestorReaches(v, a, x, j);
        ReachableStaysInClosedSet(v, gone, a, x);
      }
    }
  }

  lemma CutIsAbove(v: View, gone: set<Id>, x: Id, k: nat, j: nat) returns (a: Id)
    requires Consistent(v) && CutAt(v, gone, x, k, j)
    ensures a in gone && v.Live(a) && v.Live(x) && ParentAt(v, x, j, a)
  {
    a := Up(v.creations, Find(v.creations, x), j).value.parentId;
    LinksBelow(v.creations, Find(v.creations, x), j + 1, k);
    ChainStartsLive(v, x, j);
  }

  /** A leaf whose delete failed loses its room with its parent's delete. */
  lemma FailedLeafLosesRoom(v: View, leaf: Id)
    requires Consistent(v) && v.Live(leaf) && v.creations[leaf].roomId == "" && v.RoomOf(leaf) != ""
    requires v.creations[leaf].parentId != leaf
    ensures Delete(v, v.creations[leaf].parentId).Live(leaf)
    ensures Delete(v, v.creations[leaf].parentId).RoomOf(leaf) == ""
  {
    var parent := v.creations[leaf].parentId;
    var start := Find(v.creations, leaf);
    WalkFindsNearestRoom(v.creations, start);
    var k: nat :| RoomAt(v.creations, start, k, v.RoomOf(leaf));
    assert Up(v.creations, start, 0) == start;
    LinksBelow(v.creations, start, 1, k);
    assert parent in v.creations && parent != "";
    assert CutAt(v, {parent}, leaf, k, 0);
    NothingGone(v);
    DeleteKeeps(v, v, {}, parent);
    assert {} + {parent} == {parent};
    RoomKeptExactly(v, Delete(v, parent), {parent}, leaf);
  }

  function Created(id: Id, roomId: Id, parentId: Id): Entry {
    Entry("", "", Aggregate, AssetCreated(Creation(id, roomId, parentId, "")))
  }

  lemma FoldOfTwo(first: Entry, second: Entry)
    ensures Fold([first, second]) == Step(Step(EMPTY_VIEW, first.event), second.event)
  {
    var both := [first, second];
    assert both[..1] == [first] && [first][..0] == [];
    assert Fold([first]) == Step(Fold([]), first.event);
  }

  /** Such a run: of the targets b and a, in that order, the delete of b fails and that of a is written. */
  lemma FailedDeleteLosesRoom()
    ensures var log := [Created("a", "room", ""), Created("b", "", "a")];
            var v, w := Fold(log), Fold(log + [Entry("", "", Aggregate, AssetDeleted("a"))]);
            && Reachable(v, "a", "b") && LeafFirst(v, ["b", "a"]) && v.RoomOf("b") == "room"
            && w.Live("b") && w.RoomOf("b") == ""
  {
    var log := [Created("a", "room", ""), Created("b", "", "a")];
    var v, gone := Fold(log), Entry("", "", Aggregate, AssetDeleted("a"));
    FoldIsConsistent(log);
    FoldOfTwo(log[0], log[1]);
    ParentAndChild(v);
    FailedLeafLosesRoom(v, "b");
    assert (log + [gone])[..2] == log;
  }

  lemma ParentAndChild(v: View)
    requires v == Step(Step(EMPTY_VIEW, Created("a", "room", "").event), Created("b", "", "a").event)
    ensures Reachable(v, "a", "b") && LeafFirst(v, ["b", "a"]) && v.RoomOf("b") == "room"
    ensures v.Live("b") && v.creations["b"] == Creation("b", "", "a", "")
  {
    var a := Creation("a", "room", "", "");
    assert v.creations["a"] == a && v.creations["b"] == Creation("b", "", "a", "");
    assert WalkRoom(v.creations, Some(a), {"a"}) == "room";
    assert PathBetween(v, ["a", "b"], "a", "b");
    assert Up(v.creations, Some(a), 1).None?;
    forall k: nat ensures !ParentAt(v, "a", k, "b") {
      if k > 0 {
        ChainEnds(v.creations, Some(a), 1, k);
      }
    }
  }

  // ---- One entry after the other ----

  lemma NextEventKeeps(v: View, log: Log, n: nat, gone: set<Id>)
    requires n < |log| && Consistent(v) && Undisturbed(v, Fold(log[..n]), gone)
    requires !log[n].event.AssetDeleted? && IsFresh(log, n)
    ensures Undisturbed(v, Fold(log[..n + 1]), gone)
  {
    hide Undisturbed, Consistent;
    var before, e := log[..n], log[n].event;
    assert log[..n + 1][..n] == before;
    if e.AssetCreated? {
      if e.Asset() == "" {
        NobodyIsUnknown(before);
      } else {
        UntouchedIsUnknown(before, e.Asset());
      }
    }
    OtherEventKeeps(v, Fold(before), gone, e);
  }

  lemma NobodyIsUnknown(log: Log)
    ensures "" !in Fold(log).creations && "" !in Fold(log).deleted
  {
    FoldIsConsistent(log);
  }

  lemma {:induction false} QuietStretchKeeps(v: View, log: Log, from: nat, n: nat, gone: set<Id>)
    requires from <= n <= |log| && Consistent(v) && Undisturbed(v, Fold(log[..from]), gone)
    requires forall i :: from <= i < n ==> !log[i].event.AssetDeleted? && IsFresh(log, i)
    ensures Undisturbed(v, Fold(log[..n]), gone)
  {
    hide Undisturbed, Consistent, Fold, IsFresh;
    if from < n {
      QuietStretchKeeps(v, log, from, n - 1, gone);
      NextEventKeeps(v, log, n - 1, gone);
    }
  }

  lemma DeleteAtKeeps(v: View, log: Log, pos: nat, gone: set<Id>, t: Id)
    requires pos < |log| && log[pos].event == AssetDeleted(t)
    requires Consistent(v) && Undisturbed(v, Fold(log[..pos]), gone)
    requires t != "" && t !in v.deleted && t !in gone && (v.RoomOf(t) != "" ==> !CutOff(v, gone, t))
    ensures Undisturbed(v, Fold(log[..pos + 1]), gone + {t})
  {
    hide Undisturbed, Delete, CutOff;
    assert log[..pos + 1][..pos] == log[..pos];
    if v.RoomOf(t) != "" {
      OnlyLiveHaveRooms(v, t);
      UncutRoomSurvives(v, Fold(log[..pos]), gone, t);
    }
    DeleteKeeps(v, Fold(log[..pos]), gone, t);
  }

  lemma OnlyLiveHaveRooms(v: View, t: Id)
    requires Consistent(v) && t !in v.deleted && v.RoomOf(t) != ""
    ensures t in v.creations
  {
  }

  /** One delete of an asset with nothing gone on the way to its room, among appends by others that delete nothing. */
  lemma OneDeleteKeeps(v: View, log: Log, longer: Log, gone: set<Id>, t: Id)
    requires Consistent(v) && Undisturbed(v, Fold(log), gone) && log <= longer
    requires SoleDelete(longer, |log|, t) && FreshCreates(longer, |log|)
    requires t != "" && t !in v.deleted && t !in gone && (v.RoomOf(t) != "" ==> !CutOff(v, gone, t))
    ensures Undisturbed(v, Fold(longer), gone + {t})
  {
    hide Undisturbed, Consistent, Fold, IsFresh, CutOff;
    var pos :| |log| <= pos < |longer| && IsSoleDelete(longer, |log|, t, pos);
    assert longer[..|log|] == log && longer[..|longer|] == longer;
    QuietStretchKeeps(v, longer, |log|, pos, gone);
    DeleteAtKeeps(v, longer, pos, gone, t);
    QuietStretchKeeps(v, longer, pos + 1, |longer|, gone + {t});
  }

  /** No delete at all, because it failed before it was written. */
  lemma NoDeleteKeeps(v: View, log: Log, longer: Log, gone: set<Id>)
    requires Consistent(v) && Undisturbed(v, Fold(log), gone) && log <= longer
    requires NoDeletes(longer, |log|) && FreshCreates(longer, |log|)
    ensures Undisturbed(v, Fold(longer), gone)
  {
    hide Undisturbed, Consistent, Fold, IsFresh;
    assert longer[..|log|] == log && longer[..|longer|] == longer;
    QuietStretchKeeps(v, longer, |log|, |longer|, gone);
  }

  // ---- Target by target ----

  /** A tombstone for the asset was written at or after `from`. */
  ghost predicate Tombstoned(log: Log, from: nat, id: Id) {
    exists i :: from <= i < |log| && Is(log[i].event, KDelete, id)
  }

  lemma TombstonesStay(log: Log, longer: Log, from: nat)
    requires log <= longer && from <= |log|
    ensures forall id :: Tombstoned(log, from, id) ==> Tombstoned(longer, from, id)
    ensures forall id :: Tombstoned(longer, |log|, id) ==> Tombstoned(longer, from, id)
  {
  }

  /** No live asset comes before one that stands below it. */
  ghost predicate LeafFirstAmong(v: View, ids: seq<Id>) {
    forall i, j :: 0 <= i < j < |ids| && v.Live(ids[i]) ==> !ProperAncestor(v, ids[i], ids[j])
  }

  ghost predicate Deletable(v: View, ids: seq<Id>) {
    Consistent(v) && LeafFirstAmong(v, ids) && forall x :: x in ids ==> x != "" && x !in v.deleted
  }

  /** In that order nothing on the way from a target to its room is gone before it. */
  lemma TargetIsUncut(v: View, ids: seq<Id>, i: nat, gone: set<Id>)
    requires Deletable(v, ids) && i < |ids| && forall x :: x in gone ==> x in ids[..i]
    ensures !CutOff(v, gone, ids[i])
  {
    if CutOff(v, gone, ids[i]) {
      var k: nat, j: nat :| CutAt(v, gone, ids[i], k, j);
      var _ := CutIsAbove(v, gone, ids[i], k, j);
    }
  }

  lemma SoleDeleteIsTombstone(log: Log, from: nat, id: Id)
    requires id != ""
    ensures SoleDelete(log, from, id) ==> Tombstoned(log, from, id)
    ensures NoDeletes(log, from) ==> !Tombstoned(log, from, id)
  {
  }

  /** One round, whether the delete was written or not. */
  lemma TargetHandled(v: View, start: Log, before: Log, after: Log, ids: seq<Id>, i: nat, gone: set<Id>)
    requires Deletable(v, ids) && Distinct(ids) && i < |ids| && forall x :: x in gone ==> x in ids[..i]
    requires start <= before <= after && FreshCreates(after, |start|)
    requires SoleDelete(after, |before|, ids[i]) || NoDeletes(after, |before|)
    requires FreshCreates(before, |start|) ==> Undisturbed(v, Fold(before), gone)
    ensures Undisturbed(v, Fold(after), if Tombstoned(after, |before|, ids[i]) then gone + {ids[i]} else gone)
  {
    hide Undisturbed, Fold, CutOff, SoleDelete, NoDeletes, Tombstoned, LeafFirstAmong, Consistent;
    forall k | |start| <= k < |before| ensures IsFresh(before, k) {
      assert IsFresh(after, k);
    }
    assert ids[i] in ids;
    SoleDeleteIsTombstone(after, |before|, ids[i]);
    if SoleDelete(after, |before|, ids[i]) {
      TargetIsUncut(v, ids, i, gone);
      OneDeleteKeeps(v, before, after, gone, ids[i]);
    } else {
      NoDeleteKeeps(v, before, after, gone);
    }
  }

  /** The deletion after n targets, for a log that has grown from `start` to `now`: sparing if the others delete
      nothing. */
  ghost predicate Deleting(v: View, start: Log, now: Log, ids: seq<Id>, n: nat, done: set<Id>, gone: set<Id>,
                           sparing: bool)
    requires n <= |ids|
  {
    && start <= now && done <= gone
    && (forall x :: x in gone ==> x in ids[..n] && Tombstoned(now, |start|, x))
    && (sparing && FreshCreates(now, |start|) ==> Undisturbed(v, Fold(now), gone))
  }

  /** Without interference the maps are those after the first n deletes. */
  ghost predicate DeletedSoFar(v: View, ids: seq<Id>, n: nat, w: View, deleted: nat)
    requires n <= |ids|
  {
    deleted == n && w == DeleteAll(v, ids[..n])
  }

  lemma DeletedNone(v: View, ids: seq<Id>)
    ensures DeletedSoFar(v, ids, 0, v, 0)
  {
  }

  lemma DeletedOneMore(v: View, ids: seq<Id>, n: nat, w: View, deleted: nat)
    requires n < |ids|
    ensures DeletedSoFar(v, ids, n, w, deleted) ==> DeletedSoFar(v, ids, n + 1, Delete(w, ids[n]), deleted + 1)
  {
    assert ids[..n + 1][..n] == ids[..n];
  }

  lemma DeletedThemAll(v: View, ids: seq<Id>, w: View, deleted: nat)
    ensures DeletedSoFar(v, ids, |ids|, w, deleted) ==> deleted == |ids| && w == DeleteAll(v, ids)
  {
    assert ids[..|ids|] == ids;
  }

  lemma DeletingStarts(v: View, start: Log, ids: seq<Id>, sparing: bool)
    requires sparing ==> Undisturbed(v, Fold(start), {})
    ensures Deleting(v, start, start, ids, 0, {}, {}, sparing)
  {
  }

  lemma DeletingGoesOn(v: View, start: Log, before: Log, after: Log, ids: seq<Id>, i: nat, done: set<Id>, gone: set<Id>,
                       sparing: bool, failed: bool)
    requires i < |ids| && Distinct(ids) && Deleting(v, start, before, ids, i, done, gone, sparing)
    requires before <= after
    requires !failed ==> Tombstoned(after, |before|, ids[i])
    requires sparing ==> Deletable(v, ids) && (SoleDelete(after, |before|, ids[i]) || NoDeletes(after, |before|))
    ensures ids[i] !in done
    ensures Deleting(v, start, after, ids, i + 1, if failed then done else done + {ids[i]},
                     if Tombstoned(after, |before|, ids[i]) then gone + {ids[i]} else gone, sparing)
  {
    hide Deletable, Undisturbed, Fold, SoleDelete, NoDeletes, Tombstoned, FreshCreates;
    assert ids[..i + 1] == ids[..i] + [ids[i]];
    TombstonesStay(before, after, |start|);
    if sparing && FreshCreates(after, |start|) {
      TargetHandled(v, start, before, after, ids, i, gone);
    }
  }

  lemma DeletingEnds(v: View, start: Log, now: Log, ids: seq<Id>, done: set<Id>, gone: set<Id>, sparing: bool)
    requires Deleting(v, start, now, ids, |ids|, done, gone, sparing)
    ensures forall x :: x in gone ==> x in ids && Tombstoned(now, |start|, x)
    ensures start <= now && done <= gone && (sparing && FreshCreates(now, |start|) ==> Undisturbed(v, Fold(now), gone))
  {
  }
}
