/** The child index read off the log, for every log, and when exactly it is the inverse of the parent links. */
module AssetIndex {
  import opened Common
  import opened AssetEvents
  import opened AssetView
  import opened AssetHistory
  import opened AssetGraph

  /** The event creates c under the parent p. */
  predicate Names(e: Event, c: Id, p: Id) {
    e.AssetCreated? && e.Asset() == c != "" && e.creation.parentId == p != ""
  }

  /** The creation of c that stands at the end of the log names p as its parent. */
  predicate StandsUnder(log: Log, c: Id, p: Id) {
    ReadCreation(log, c).Some? && ReadCreation(log, c).value.parentId == p
  }

  /** The create at position i puts c under p, and nothing later takes it out: neither a delete of p, nor a delete of c
      while c stands under p. */
  ghost predicate ListedSince(log: Log, c: Id, p: Id, i: nat) {
    && i < |log| && Names(log[i].event, c, p)
    && (forall j :: i < j < |log| ==> !TakesOut(log, c, p, j))
  }

  predicate TakesOut(log: Log, c: Id, p: Id, j: nat)
    requires j < |log|
  {
    Is(log[j].event, KDelete, p) || (Is(log[j].event, KDelete, c) && StandsUnder(log[..j], c, p))
  }

  ghost predicate Listed(log: Log, c: Id, p: Id) {
    exists i: nat :: ListedSince(log, c, p, i)
  }

  // ---- One event ----

  lemma ListedSinceGrows(log: Log, c: Id, p: Id, i: nat)
    requires log != [] && i < |log| - 1
    ensures ListedSince(log, c, p, i) <==>
            ListedSince(log[..|log| - 1], c, p, i) && !TakesOut(log, c, p, |log| - 1)
  {
    var before := log[..|log| - 1];
    forall j | 0 <= j < |before| ensures TakesOut(log, c, p, j) == TakesOut(before, c, p, j) {
      assert before[..j] == log[..j];
    }
  }

  lemma ListedGrows(log: Log, c: Id, p: Id)
    requires log != []
    ensures Listed(log, c, p) <==>
            || Names(log[|log| - 1].event, c, p)
            || (Listed(log[..|log| - 1], c, p) && !TakesOut(log, c, p, |log| - 1))
  {
    hide TakesOut, Names;
    var n := |log| - 1;
    forall i: nat | i < n
      ensures ListedSince(log, c, p, i) <==> ListedSince(log[..n], c, p, i) && !TakesOut(log, c, p, n)
    {
      ListedSinceGrows(log, c, p, i);
    }
    if Names(log[n].event, c, p) {
      assert ListedSince(log, c, p, n);
    } else if Listed(log[..n], c, p) && !TakesOut(log, c, p, n) {
      var i: nat :| ListedSince(log[..n], c, p, i);
      assert ListedSince(log, c, p, i);
    }
  }

  lemma ChildrenAfterDelete(v: View, id: Id, c: Id, p: Id)
    requires id != "" && p != ""
    ensures c in ListOf(Delete(v, id).children, p) <==>
            && c in ListOf(v.children, p) && p != id
            && !(c == id && id in v.creations && v.creations[id].parentId == p)
  {
  }

  lemma ChildrenAfterCreate(v: View, e: Event, c: Id, p: Id)
    requires e.AssetCreated? && p != ""
    ensures c in ListOf(Create(v, e.creation).children, p) <==> c in ListOf(v.children, p) || Names(e, c, p)
  {
  }

  /** For every log: the children of p are those that some create puts there and nothing later takes out. */
  lemma {:induction false} IndexReadsTheLog(log: Log, c: Id, p: Id)
    requires p != ""
    ensures c in ListOf(Fold(log).children, p) <==> Listed(log, c, p)
  {
    if log != [] {
      var before, e := log[..|log| - 1], log[|log| - 1].event;
      IndexReadsTheLog(before, c, p);
      ListedGrows(log, c, p);
      match e
      case AssetCreated(_) => ChildrenAfterCreate(Fold(before), e, c, p);
      case AssetDeleted(id) =>
        if id != "" {
          ChildrenAfterDelete(Fold(before), id, c, p);
          FoldReadsTheLog(before, id);
        }
      case _ =>
    }
  }

  lemma {:induction false} ListsAreDistinct(log: Log)
    ensures DistinctLists(Fold(log).children) && "" !in Fold(log).children
  {
    if log != [] {
      var v := Fold(log[..|log| - 1]);
      ListsAreDistinct(log[..|log| - 1]);
      FoldIsConsistent(log[..|log| - 1]);
      forall p ensures Distinct(ListOf(Fold(log).children, p)) {
        assert Distinct(ListOf(v.children, p));
      }
    }
  }

  // ---- The exact condition ----

  /** No child is left behind: whoever is listed under p stands there. */
  ghost predicate NoneLeftBehind(log: Log) {
    forall c, p :: Listed(log, c, p) ==> StandsUnder(log, c, p)
  }

  predicate Deleted(log: Log, id: Id) {
    LifeStart(log, id) < 0
  }

  /** c stands under p, and p was deleted after the last create of c. */
  ghost predicate LostParent(log: Log, c: Id, p: Id) {
    StandsUnder(log, c, p) && LastOf(log, KDelete, p, 0) > LastOf(log, KCreate, c, 0)
  }

  /** No parent came back: whoever has lost its parent, the parent is still deleted. */
  ghost predicate NoParentCameBack(log: Log) {
    forall c, p :: c != "" && p != "" && LostParent(log, c, p) ==> Deleted(log, p)
  }

  /** A standing creation is the last create of its asset, and no delete follows it. */
  lemma StandingCreation(log: Log, c: Id) returns (s: nat)
    requires ReadCreation(log, c).Some?
    ensures s < |log| && s == LastOf(log, KCreate, c, 0) && Is(log[s].event, KCreate, c)
    ensures ReadCreation(log, c) == Some(log[s].event.creation) && LastOf(log, KDelete, c, 0) < s
  {
    var k := LastOf(log, KCreate, c, LastOf(log, KDelete, c, 0) + 1);
    s := k;
    assert Is(log[s].event, KCreate, c);
  }

  /** An asset that stands under p is listed there exactly if p has not been deleted since. */
  lemma StandingIsListed(log: Log, c: Id, p: Id)
    requires c != "" && p != "" && StandsUnder(log, c, p)
    ensures Listed(log, c, p) <==> !LostParent(log, c, p)
  {
    var s := StandingCreation(log, c);
    var d := LastOf(log, KDelete, p, 0);
    assert Names(log[s].event, c, p);
    if Listed(log, c, p) {
      var i: nat :| ListedSince(log, c, p, i);
      assert i <= s;
      assert d > s ==> TakesOut(log, c, p, d);
    }
    if d <= s {
      forall j | s < j < |log| ensures !TakesOut(log, c, p, j) {
        assert !Is(log[j].event, KDelete, p) && !Is(log[j].event, KDelete, c);
      }
      assert ListedSince(log, c, p, s);
    }
  }

  /** The map has c under p. */
  ghost predicate Standing(v: View, c: Id, p: Id) {
    c in v.creations && v.creations[c].parentId == p
  }

  lemma EntryOf(log: Log, c: Id, p: Id)
    requires p != ""
    ensures c in ListOf(Fold(log).children, p) <==> Listed(log, c, p)
    ensures c != "" ==> (Standing(Fold(log), c, p) <==> StandsUnder(log, c, p))
    ensures p in Fold(log).deleted <==> Deleted(log, p)
    ensures c != "" && StandsUnder(log, c, p) ==> (Listed(log, c, p) <==> !LostParent(log, c, p))
  {
    IndexReadsTheLog(log, c, p);
    FoldReadsTheLog(log, p);
    if c != "" {
      FoldReadsTheLog(log, c);
      if StandsUnder(log, c, p) {
        StandingIsListed(log, c, p);
      }
    }
  }

  lemma NobodyIsListed(log: Log)
    ensures forall c, p :: Listed(log, c, p) ==> c != "" && p != ""
    ensures forall c, p :: LostParent(log, c, p) ==> StandsUnder(log, c, p)
  {
  }

  /** For every log: the child index is the inverse of the parent links exactly if no child is left behind under a
      former parent, and no deleted parent came back to find the entries of its children gone. */
  lemma IndexIsInverseExactly(log: Log)
    ensures IndexInverse(Fold(log)) <==> NoneLeftBehind(log) && NoParentCameBack(log)
  {
    hide Fold, Listed, StandsUnder, LostParent, Deleted;
    var v := Fold(log);
    ListsAreDistinct(log);
    FoldIsConsistent(log);
    forall c, p | p != ""
      ensures c in ListOf(v.children, p) <==> Listed(log, c, p)
      ensures c != "" ==> (Standing(v, c, p) <==> StandsUnder(log, c, p)) && (p in v.deleted <==> Deleted(log, p))
      ensures c != "" && StandsUnder(log, c, p) ==> (Listed(log, c, p) <==> !LostParent(log, c, p))
    {
      EntryOf(log, c, p);
    }
    NobodyIsListed(log);
  }

  // ---- What the condition allows and forbids ----

  lemma CreateTakesNothingOut(log: Log, c: Id, p: Id, j: nat)
    requires j < |log| && log[j].event.AssetCreated?
    ensures !TakesOut(log, c, p, j)
  {
  }

  /** Moving a listed child breaks the index, in every log: its entry stays behind. */
  lemma MovedChildBreaksIndex(log: Log, e: Entry, c: Id, p: Id)
    requires Listed(log, c, p) && Is(e.event, KCreate, c) && e.event.creation.parentId != p
    ensures !IndexInverse(Fold(log + [e]))
  {
    hide Fold, IndexInverse, TakesOut;
    var longer := log + [e];
    assert longer[..|log|] == log;
    CreateTakesNothingOut(longer, c, p, |log|);
    ListedGrows(longer, c, p);
    assert LastOf(longer, KCreate, c, LastOf(longer, KDelete, c, 0) + 1) == |log|;
    assert !StandsUnder(longer, c, p);
    IndexIsInverseExactly(longer);
  }

  /** Bringing back a deleted parent breaks it too, in every log: the children that still name it are not listed. */
  lemma ReturnedParentBreaksIndex(log: Log, e: Entry, c: Id, p: Id)
    requires c != "" && p != "" && c != p && LostParent(log, c, p) && Is(e.event, KCreate, p)
    ensures !IndexInverse(Fold(log + [e]))
  {
    hide Fold, IndexInverse;
    var longer := log + [e];
    assert longer[..|log|] == log;
    assert LastOf(longer, KDelete, c, 0) == LastOf(log, KDelete, c, 0);
    assert LastOf(longer, KDelete, p, 0) == LastOf(log, KDelete, p, 0);
    assert ReadCreation(longer, c) == ReadCreation(log, c);
    assert LostParent(longer, c, p) && !Deleted(longer, p);
    IndexIsInverseExactly(longer);
  }

  lemma InverseAfterSameParent(v: View, children: map<Id, seq<Id>>, c: Creation)
    requires Inverse(v.children, v.creations, v.deleted) && "" !in children
    requires c.assetId in v.creations && v.creations[c.assetId].parentId == c.parentId
    requires forall p, x ::
      x in ListOf(children, p) <==> x in ListOf(v.children, p) || (p == c.parentId != "" && x == c.assetId)
    ensures Inverse(children, v.creations[c.assetId := c], v.deleted)
  {
  }

  /** Creating an asset once more under the parent it has keeps the index exact: no id need be created only once. */
  lemma SameParentKeepsInverse(v: View, c: Creation)
    requires IndexInverse(v) && Consistent(v) && c.assetId in v.creations
    requires v.creations[c.assetId].parentId == c.parentId
    ensures IndexInverse(Create(v, c))
  {
    var w := Create(v, c);
    assert w.deleted == v.deleted;
    forall p
      ensures Distinct(ListOf(w.children, p))
      ensures forall x ::
        x in ListOf(w.children, p) <==> x in ListOf(v.children, p) || (p == c.parentId != "" && x == c.assetId)
    {
      assert Distinct(ListOf(v.children, p));
    }
    InverseAfterSameParent(v, w.children, c);
  }
}
