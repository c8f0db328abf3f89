/** Collecting what a user's messages own while the log goes on. */
module AssetCollection {
  import opened Common
  import opened AssetEvents
  import opened AssetView
  import opened AssetHistory
  import opened AssetGraph
  import opened AssetDeletion

  // ---- A log that only grows ----

  /** Every live asset and every listed child of v is one of w. */
  ghost predicate Covers(v: View, w: View) {
    && (forall x :: x in v.creations ==> x in w.creations)
    && (forall p, c :: c in v.ChildrenOf(p) ==> c in w.ChildrenOf(p))
  }

  lemma OtherEventCovers(v: View, w: View, e: Event)
    requires Covers(v, w) && !e.AssetDeleted?
    ensures Covers(v, Step(w, e))
  {
  }

  lemma {:induction false} StretchCovers(log: Log, n: nat, m: nat)
    requires n <= m <= |log| && forall i :: n <= i < m ==> !log[i].event.AssetDeleted?
    ensures Covers(Fold(log[..n]), Fold(log[..m]))
  {
    if n < m {
      hide Covers;
      StretchCovers(log, n, m - 1);
      assert log[..m][..m - 1] == log[..m - 1];
      OtherEventCovers(Fold(log[..n]), Fold(log[..m - 1]), log[m - 1].event);
    }
  }

  /** Parent links have no cycle in any state from this position on. */
  ghost predicate AcyclicFrom(log: Log, from: nat, rank: Id -> nat) {
    forall n :: from <= n <= |log| ==> AcyclicBy(Fold(log[..n]), rank)
  }

  /** From an exact child index on, nothing is deleted, only fresh ids are created, and no parent cycle arises. */
  ghost predicate Gentle(log: Log, from: nat, rank: Id -> nat) {
    && from <= |log| && IndexInverse(Fold(log[..from]))
    && NoDeletes(log, from) && FreshCreates(log, from) && AcyclicFrom(log, from, rank)
  }

  lemma GentlePrefix(log: Log, longer: Log, from: nat, rank: Id -> nat)
    requires Gentle(longer, from, rank) && from <= |log| && log <= longer
    ensures Gentle(log, from, rank)
  {
    hide IndexInverse, AcyclicBy, Fold;
    assert log[..from] == longer[..from];
    forall i | from <= i < |log| ensures !log[i].event.AssetDeleted? && IsFresh(log, i) {
      assert IsFresh(longer, i) && log[i] == longer[i];
    }
    forall n | from <= n <= |log| ensures AcyclicBy(Fold(log[..n]), rank) {
      assert log[..n] == longer[..n];
    }
  }

  lemma NextEventKeepsInverse(log: Log, n: nat)
    requires n < |log| && IndexInverse(Fold(log[..n])) && !log[n].event.AssetDeleted? && IsFresh(log, n)
    ensures IndexInverse(Fold(log[..n + 1]))
  {
    hide IndexInverse;
    var before, e := log[..n], log[n].event;
    assert log[..n + 1][..n] == before;
    FoldIsConsistent(before);
    if e.AssetCreated? && e.Asset() != "" {
      UntouchedIsUnknown(before, e.Asset());
      CreateKeepsInverse(Fold(before), e.creation);
    } else {
      SameIndex(Fold(before), e);
    }
  }

  lemma SameIndex(v: View, e: Event)
    requires IndexInverse(v) && !e.AssetDeleted? && (e.AssetCreated? ==> e.Asset() == "")
    ensures IndexInverse(Step(v, e))
  {
  }

  lemma {:induction false} GentleInverse(log: Log, from: nat, rank: Id -> nat, n: nat)
    requires Gentle(log, from, rank) && from <= n <= |log|
    ensures IndexInverse(Fold(log[..n]))
  {
    hide IndexInverse, Fold, AcyclicFrom, IsFresh;
    if from < n {
      GentleInverse(log, from, rank, n - 1);
      NextEventKeepsInverse(log, n - 1);
    }
  }

  lemma GentleUndisturbed(log: Log, from: nat, rank: Id -> nat, n: nat)
    requires Gentle(log, from, rank) && from <= n <= |log|
    ensures Consistent(Fold(log[..from])) && Undisturbed(Fold(log[..from]), Fold(log[..n]), {})
  {
    hide IndexInverse, Fold, AcyclicFrom, IsFresh, Undisturbed, Consistent;
    FoldIsConsistent(log[..from]);
    NothingGone(Fold(log[..from]));
    QuietStretchKeeps(Fold(log[..from]), log, from, n, {});
  }

  // ---- The state of the collection ----

  /** At some moment between these two, x was owned. */
  ghost predicate OwnedDuring(log: Log, from: nat, upto: nat, owned: seq<OwnedRef>, x: Id) {
    exists n :: from <= n <= upto && n <= |log| && Owned(Fold(log[..n]), owned, x)
  }

  /** Nothing on this path has been tombstoned since. */
  ghost predicate Untouched(log: Log, from: nat, path: seq<Id>) {
    forall i :: 0 <= i < |path| ==> !Tombstoned(log, from, path[i])
  }

  ghost predicate SparedBy(log: Log, from: nat, owned: seq<OwnedRef>, x: Id, k: nat, path: seq<Id>)
    requires from <= |log|
  {
    k < |owned| && PathBetween(Fold(log[..from]), path, owned[k].assetId, x) && Untouched(log, from, path)
  }

  /** x was owned at position `from`, and since then neither it nor what it was owned through has been deleted. */
  ghost predicate Spared(log: Log, from: nat, owned: seq<OwnedRef>, x: Id)
    requires from <= |log|
  {
    exists k: nat, path :: SparedBy(log, from, owned, x, k, path)
  }

  lemma SparedBefore(log: Log, longer: Log, from: nat, owned: seq<OwnedRef>)
    requires from <= |log| && log <= longer
    ensures forall x :: Spared(longer, from, owned, x) ==> Spared(log, from, owned, x)
  {
    TombstonesStay(log, longer, from);
    assert longer[..from] == log[..from];
    forall x | Spared(longer, from, owned, x) ensures Spared(log, from, owned, x) {
      var k: nat, path :| SparedBy(longer, from, owned, x, k, path);
      assert SparedBy(log, from, owned, x, k, path);
    }
  }

  lemma SparedIsStanding(log: Log, from: nat, owned: seq<OwnedRef>, x: Id)
    requires from <= |log| && Spared(log, from, owned, x)
    ensures !Tombstoned(log, from, x) && Owned(Fold(log[..from]), owned, x)
  {
  }

  /** Where nothing is deleted, whatever was owned is spared. */
  lemma OwnedIsSpared(log: Log, from: nat, owned: seq<OwnedRef>, x: Id)
    requires from <= |log| && NoDeletes(log, from) && Owned(Fold(log[..from]), owned, x)
    ensures Spared(log, from, owned, x)
  {
    var v := Fold(log[..from]);
    var k :| 0 <= k < |owned| && v.Live(owned[k].assetId) && Reachable(v, owned[k].assetId, x);
    var path :| PathBetween(v, path, owned[k].assetId, x);
    assert SparedBy(log, from, owned, x, k, path);
  }

  lemma NextEventKeepsPath(v: View, path: seq<Id>, e: Event)
    requires LivePath(v, path) && forall i :: 0 <= i < |path| ==> !Is(e, KDelete, path[i])
    ensures LivePath(Step(v, e), path)
  {
  }

  /** A path stands for as long as nothing on it is deleted. */
  lemma {:induction false} PathStays(log: Log, from: nat, n: nat, m: nat, path: seq<Id>)
    requires from <= n <= m <= |log| && LivePath(Fold(log[..n]), path) && Untouched(log, from, path)
    ensures LivePath(Fold(log[..m]), path)
  {
    hide LivePath;
    if n < m {
      PathStays(log, from, n, m - 1, path);
      assert log[..m][..m - 1] == log[..m - 1];
      NextEventKeepsPath(Fold(log[..m - 1]), path, log[m - 1].event);
    }
  }

  /** What has been visited and the targets so far, when the collection began at `from` and the projection stands at
      `upto`. */
  ghost predicate Gathered(
    log: Log, from: nat, upto: nat, rank: Id -> nat, owned: seq<OwnedRef>, seen: set<Id>, targets: seq<Target>)
    requires from <= |log|
  {
    var v, ids := Fold(log[..from]), TargetIds(targets);
    && (forall i :: 0 <= i < |targets| ==> targets[i].assetId in seen && targets[i].roomId != "")
    && Distinct(ids) && "" !in ids
    && (forall x :: x in ids ==> OwnedDuring(log, from, upto, owned, x))
    && (HasRooms(owned) ==> forall x :: x in seen ==> x in ids || Tombstoned(log, from, x))
    && (Gentle(log, from, rank) ==> ClosedUnderChildren(v, seen) && LeafFirstAmong(v, ids))
  }

  lemma NothingGathered(log: Log, from: nat, upto: nat, rank: Id -> nat, owned: seq<OwnedRef>)
    requires from <= |log|
    ensures Gathered(log, from, upto, rank, owned, {}, [])
  {
  }

  lemma OwnedDuringStays(log: Log, longer: Log, from: nat, upto: nat, later: nat, owned: seq<OwnedRef>, x: Id)
    requires log <= longer && upto <= later && OwnedDuring(log, from, upto, owned, x)
    ensures OwnedDuring(longer, from, later, owned, x)
  {
    var n :| from <= n <= upto && n <= |log| && Owned(Fold(log[..n]), owned, x);
    assert longer[..n] == log[..n];
  }

  lemma GatheredStays(log: Log, longer: Log, from: nat, upto: nat, later: nat, rank: Id -> nat, owned: seq<OwnedRef>,
                      seen: set<Id>, targets: seq<Target>)
    requires from <= |log| && log <= longer && upto <= later && Gathered(log, from, upto, rank, owned, seen, targets)
    ensures Gathered(longer, from, later, rank, owned, seen, targets)
  {
    hide Gentle, ClosedUnderChildren, LeafFirstAmong, OwnedDuring, Fold, Tombstoned;
    assert longer[..from] == log[..from];
    forall x | x in TargetIds(targets) ensures OwnedDuring(longer, from, later, owned, x) {
      OwnedDuringStays(log, longer, from, upto, later, owned, x);
    }
    TombstonesStay(log, longer, from);
    if Gentle(longer, from, rank) {
      GentlePrefix(log, longer, from, rank);
    }
  }

  lemma OrderGrows(v: View, seen: set<Id>, ids: seq<Id>, x: Id)
    requires Consistent(v) && IndexInverse(v) && ClosedUnderChildren(v, seen) && LeafFirstAmong(v, ids)
    requires x !in seen && forall a :: a in ids ==> a in seen
    requires forall c :: c in v.ChildrenOf(x) && v.Live(c) ==> c in seen
    ensures ClosedUnderChildren(v, seen + {x}) && LeafFirstAmong(v, ids + [x])
  {
    forall a | a in ids && v.Live(a) ensures !ProperAncestor(v, a, x) {
      if ProperAncestor(v, a, x) {
        var k: nat :| ParentAt(v, x, k, a);
        ChainStartsLive(v, x, k);
        NoVisitedAncestor(v, seen, a, x);
      }
    }
  }

  lemma IdsOfLonger(targets: seq<Target>, t: Target)
    ensures TargetIds(targets + [t]) == TargetIds(targets) + [t.assetId]
  {
  }

  /** Visiting an asset after all of its children keeps the order, whether it becomes a target or not. */
  lemma VisitKeepsOrder(log: Log, from: nat, upto: nat, rank: Id -> nat, owned: seq<OwnedRef>, seen: set<Id>,
                        targets: seq<Target>, id: Id, t: Option<Target>)
    requires from <= |log| && Gathered(log, from, upto, rank, owned, seen, targets)
    requires id != "" && id !in seen && OwnedDuring(log, from, upto, owned, id)
    requires t.Some? ==> t.value.assetId == id && t.value.roomId != ""
    requires HasRooms(owned) ==> t.Some? || Tombstoned(log, from, id)
    requires Gentle(log, from, rank) ==>
               var v := Fold(log[..from]); forall c :: c in v.ChildrenOf(id) && v.Live(c) ==> c in seen
    ensures Gathered(log, from, upto, rank, owned, seen + {id}, if t.Some? then targets + [t.value] else targets)
  {
    hide ClosedUnderChildren, LeafFirstAmong, OwnedDuring, Fold, Tombstoned, HasRooms, IndexInverse, Consistent;
    var ids := TargetIds(targets);
    assert forall x :: x in ids ==> x in seen;
    if t.Some? {
      IdsOfLonger(targets, t.value);
    }
    if Gentle(log, from, rank) {
      var v := Fold(log[..from]);
      FoldIsConsistent(log[..from]);
      OrderGrows(v, seen, ids, id);
      if t.None? {
        OrderOfPrefix(v, ids, id);
      }
    }
  }

  lemma OrderOfPrefix(v: View, ids: seq<Id>, x: Id)
    requires LeafFirstAmong(v, ids + [x])
    ensures LeafFirstAmong(v, ids)
  {
    forall i, j | 0 <= i < j < |ids| && v.Live(ids[i]) ensures !ProperAncestor(v, ids[i], ids[j]) {
      assert (ids + [x])[i] == ids[i] && (ids + [x])[j] == ids[j];
    }
  }

  /** In a listing read at position n, the children that an asset had when the collection began stand behind it. */
  lemma ChildrenAreLater(log: Log, from: nat, n: nat, rank: Id -> nat, root: Id, subtree: seq<Id>, i: nat)
    requires Gentle(log, from, rank) && from <= n <= |log|
    requires SubtreeOrder(Fold(log[..n]), root, subtree) && i < |subtree|
    ensures var v := Fold(log[..from]);
            forall c :: c in v.ChildrenOf(subtree[i]) && v.Live(c) ==> exists j :: i < j < |subtree| && subtree[j] == c
  {
    var v, w := Fold(log[..from]), Fold(log[..n]);
    StretchCovers(log, from, n);
    GentleInverse(log, from, rank, n);
    assert AcyclicBy(w, rank);
    hide Fold, AcyclicFrom, IndexInverse, AcyclicBy;
    forall c | c in v.ChildrenOf(subtree[i]) && v.Live(c) ensures exists j :: i < j < |subtree| && subtree[j] == c {
      assert subtree[i] in subtree;
      ReachableChild(w, root, subtree[i], c);
      var j :| 0 <= j < |subtree| && subtree[j] == c;
      ParentsComeFirst(w, rank, root, subtree, i, j);
    }
  }

  lemma MemberIsOwned(w: View, owned: seq<OwnedRef>, k: nat, subtree: seq<Id>, i: nat)
    requires k < |owned| && i < |subtree| && w.Live(owned[k].assetId)
    requires SubtreeOrder(w, owned[k].assetId, subtree)
    ensures w.Live(subtree[i]) && Owned(w, owned, subtree[i])
  {
    assert subtree[i] in subtree;
    OwnedIsLive(w, owned, subtree[i]);
  }

  /** What was owned when the collection began and has been spared is in the listings. */
  lemma SparedIsListed(log: Log, from: nat, n: nat, owned: seq<OwnedRef>, k: nat, x: Id)
    requires from <= n <= |log| && k < |owned| && Spared(log, from, owned[..k + 1], x)
    ensures Spared(log, from, owned[..k], x) ||
            (Fold(log[..n]).Live(owned[k].assetId) && Reachable(Fold(log[..n]), owned[k].assetId, x))
  {
    hide Fold, Untouched;
    var i: nat, path :| SparedBy(log, from, owned[..k + 1], x, i, path);
    if i < k {
      assert SparedBy(log, from, owned[..k], x, i, path);
    } else {
      PathStays(log, from, from, n, path);
      assert PathBetween(Fold(log[..n]), path, owned[k].assetId, x);
    }
  }

  /** The targets as a whole. */
  ghost predicate Collects(
    log: Log, from: nat, upto: nat, rank: Id -> nat, owned: seq<OwnedRef>, targets: seq<Target>)
    requires from <= |log|
  {
    var v, ids := Fold(log[..from]), TargetIds(targets);
    && (forall i :: 0 <= i < |targets| ==> targets[i].assetId != "" && targets[i].roomId != "")
    && Distinct(ids)
    && (forall x :: x in ids ==> OwnedDuring(log, from, upto, owned, x))
    && (HasRooms(owned) ==> forall x :: Spared(log, from, owned, x) ==> x in ids)
    && (Gentle(log, from, rank) ==> LeafFirstAmong(v, ids) && forall x :: x in ids ==> x !in v.deleted)
    && (Gentle(log, from, rank) && HasRooms(owned) ==> ClosedUnderChildren(v, Ids(ids)))
  }

  lemma GatheredCollects(log: Log, from: nat, upto: nat, rank: Id -> nat, owned: seq<OwnedRef>, seen: set<Id>,
                         targets: seq<Target>)
    requires from <= |log| && Gathered(log, from, upto, rank, owned, seen, targets)
    requires forall x :: Spared(log, from, owned, x) ==> x in seen
    ensures Collects(log, from, upto, rank, owned, targets)
  {
    hide LeafFirstAmong, ClosedUnderChildren, Fold, Owned, Gentle, Undisturbed, Consistent, Spared, Tombstoned;
    var v, ids := Fold(log[..from]), TargetIds(targets);
    forall x | Spared(log, from, owned, x) ensures !Tombstoned(log, from, x) {
      SparedIsStanding(log, from, owned, x);
    }
    forall i | 0 <= i < |targets| ensures targets[i].assetId != "" {
      assert ids[i] in ids;
    }
    if Gentle(log, from, rank) {
      GentleFrom(log, from, rank);
      if HasRooms(owned) {
        NoTombstones(log, from);
        assert seen == Ids(ids);
      }
      forall x | x in ids ensures x !in v.deleted {
        var n :| from <= n <= upto && n <= |log| && Owned(Fold(log[..n]), owned, x);
        OwnedIsLive(Fold(log[..n]), owned, x);
        GentleUndisturbed(log, from, rank, n);
        LiveWasNotDeleted(v, Fold(log[..n]), x);
      }
    }
  }

  lemma NoTombstones(log: Log, from: nat)
    requires NoDeletes(log, from)
    ensures forall x :: !Tombstoned(log, from, x)
  {
  }

  lemma GentleFrom(log: Log, from: nat, rank: Id -> nat)
    requires Gentle(log, from, rank)
    ensures from <= |log| && NoDeletes(log, from) && IndexInverse(Fold(log[..from]))
  {
  }

  lemma LiveWasNotDeleted(v: View, w: View, x: Id)
    requires Undisturbed(v, w, {}) && w.Live(x)
    ensures x !in v.deleted
  {
  }

  /** One visit: the listing was read at position n, the asset itself at `upto`. */
  lemma Visit(log: Log, from: nat, n: nat, upto: nat, rank: Id -> nat, owned: seq<OwnedRef>, k: nat, subtree: seq<Id>,
              i: nat, seen: set<Id>, targets: seq<Target>, t: Option<Target>)
    requires from <= n <= upto <= |log| && k < |owned| && i < |subtree|
    requires Gathered(log, from, upto, rank, owned, seen, targets) && subtree[i] !in seen
    requires Fold(log[..n]).Live(owned[k].assetId) && SubtreeOrder(Fold(log[..n]), owned[k].assetId, subtree)
    requires forall j :: i < j < |subtree| ==> subtree[j] in seen
    requires t.Some? ==> t.value.assetId == subtree[i] && t.value.roomId != ""
    requires owned[k].roomId != "" && subtree[i] in Fold(log[..upto]).creations ==> t.Some?
    ensures Gathered(log, from, upto, rank, owned, seen + {subtree[i]},
                     if t.Some? then targets + [t.value] else targets)
  {
    hide Gathered, SubtreeOrder, Owned, Fold, Gentle, Tombstoned;
    var id := subtree[i];
    MemberIsOwned(Fold(log[..n]), owned, k, subtree, i);
    assert OwnedDuring(log, from, upto, owned, id);
    if !Tombstoned(log, from, id) {
      PathStays(log, from, n, upto, [id]);
      assert Fold(log[..upto]).Live([id][0]);
    }
    if Gentle(log, from, rank) {
      ChildrenAreLater(log, from, n, rank, owned[k].assetId, subtree, i);
    }
    VisitKeepsOrder(log, from, upto, rank, owned, seen, targets, id, t);
  }

  /** After its round the listing has been seen, and with it what was owned through this reference. */
  lemma SubtreeIsSeen(log: Log, start: Log, from: nat, n: nat, owned: seq<OwnedRef>, k: nat, subtree: seq<Id>,
                      visited: set<Id>, seen: set<Id>)
    requires from <= n <= |log| && from <= |start| && start <= log && k < |owned| && visited <= seen
    requires forall x :: Spared(start, from, owned[..k], x) ==> x in visited
    requires Fold(log[..n]).Live(owned[k].assetId) ==> SubtreeOrder(Fold(log[..n]), owned[k].assetId, subtree)
    requires forall x :: x in subtree ==> x in seen
    ensures forall x :: Spared(log, from, owned[..k + 1], x) ==> x in seen
  {
    hide Spared, Fold;
    SparedBefore(start, log, from, owned[..k]);
    forall x | Spared(log, from, owned[..k + 1], x) ensures x in seen {
      SparedIsListed(log, from, n, owned, k, x);
    }
  }

  /** If the log stood still, the targets are exactly what is owned, leaf first. */
  lemma QuietCollection(log: Log, rank: Id -> nat, owned: seq<OwnedRef>, targets: seq<Target>)
    requires Collects(log, |log|, |log|, rank, owned, targets) && Tidy(Fold(log), rank) && HasRooms(owned)
    ensures LeafFirst(Fold(log), TargetIds(targets))
    ensures forall x :: x in TargetIds(targets) <==> Owned(Fold(log), owned, x)
  {
    hide Owned, Fold, IndexInverse, AcyclicBy, ProperAncestor;
    var ids := TargetIds(targets);
    assert log[..|log|] == log;
    assert Gentle(log, |log|, rank);
    forall x | x in ids ensures Owned(Fold(log), owned, x) {
      assert OwnedDuring(log, |log|, |log|, owned, x);
    }
    forall x | Owned(Fold(log), owned, x) ensures x in ids {
      OwnedIsSpared(log, |log|, owned, x);
    }
    forall i | 0 <= i < |ids| ensures Fold(log).Live(ids[i]) {
      OwnedIsLive(Fold(log), owned, ids[i]);
    }
  }
}
