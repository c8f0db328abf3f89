/** The in-memory projection: five maps updated in place, and the two graph walks over them. */
module AssetProjection {
  import opened Common
  import opened AssetEvents
  import opened AssetRooms
  import opened AssetView
  import opened AssetGraph
  import opened ReplayGuard

  class Projection {
    const guard: Guard
    var assetCreations: map<Id, Creation>
    var assetChildren: map<Id, seq<Id>>
    var videoManifests: map<Id, Manifest>
    var deletedAssets: set<Id>
    var deletedAssetRoom: map<Id, Id>

    function Contents(): View
      reads this
    {
      View(assetCreations, assetChildren, videoManifests, deletedAssets, deletedAssetRoom)
    }

    constructor ()
      ensures fresh(guard)
      ensures Contents() == EMPTY_VIEW
      ensures guard.Value() == NEW_GUARD
    {
      guard := new Guard();
      assetCreations, assetChildren, videoManifests := map[], map[], map[];
      deletedAssets, deletedAssetRoom := {}, map[];
    }

    /** One delivered event: foreign events are not even shown to the guard, seen ones change no map. */
    method Apply(d: Delivery)
      modifies this, guard
      ensures !d.entry.event.IsLifecycle() ==> unchanged(this) && unchanged(guard)
      ensures d.entry.event.IsLifecycle() ==> guard.Value() == old(guard.Value().After(d))
      ensures d.entry.event.IsLifecycle() && !old(guard.Value().Seen(d)) ==>
                Contents() == Step(old(Contents()), d.entry.event)
      ensures old(guard.Value().Seen(d)) ==> Contents() == old(Contents())
    {
      if !d.entry.event.IsLifecycle() {
        return;
      }
      var seen := guard.SeenOrMark(d);
      if seen {
        return;
      }
      ApplyEvent(d.entry.event);
    }

    method ApplyEvent(event: Event)
      modifies this
      ensures Contents() == Step(old(Contents()), event)
    {
      var id := event.Asset();
      if id == "" {
        return;
      }
      match event
      case AssetCreated(created) =>
        assetCreations := assetCreations[id := created];
        deletedAssets := deletedAssets - {id};
        deletedAssetRoom := deletedAssetRoom - {id};
        if created.parentId != "" {
          var siblings := if created.parentId in assetChildren then assetChildren[created.parentId] else [];
          assetChildren := assetChildren[created.parentId := AppendIfMissing(siblings, id)];
        }
      case ProcessingStarted(_, _) =>
        if id in deletedAssets {
          return;
        }
        if id in videoManifests && videoManifests[id].Settled() {
          return;
        }
        videoManifests := videoManifests[id := Manifest(Some(event), None, None)];
      case ProcessingSucceeded(_, _, _) =>
        if id in deletedAssets {
          return;
        }
        var manifest := if id in videoManifests then videoManifests[id] else EMPTY_MANIFEST;
        if manifest.Settled() {
          return;
        }
        videoManifests := videoManifests[id := manifest.(succeeded := Some(event), failed := None)];
      case ProcessingFailed(_, _, _) =>
        if id in deletedAssets {
          return;
        }
        var manifest := if id in videoManifests then videoManifests[id] else EMPTY_MANIFEST;
        if manifest.Settled() {
          return;
        }
        videoManifests := videoManifests[id := manifest.(failed := Some(event), succeeded := None)];
      case AssetDeleted(_) =>
        deletedAssets := deletedAssets + {id};
        var room := AssetRoomIDLocked(id);
        if room != "" {
          deletedAssetRoom := deletedAssetRoom[id := room];
        }
        if id in assetCreations {
          var parent := assetCreations[id].parentId;
          if parent != "" {
            var siblings := if parent in assetChildren then assetChildren[parent] else [];
            assetChildren := assetChildren[parent := RemoveId(siblings, id)];
          }
        }
        assetCreations := assetCreations - {id};
        assetChildren := assetChildren - {id};
        videoManifests := videoManifests - {id};
      case Other(_) =>
    }

    /** Startup replay is over. */
    method CompleteStartupReplay()
      modifies guard
      ensures guard.Value() == old(guard.Value().Completed())
    {
      guard.CompleteReplay();
    }

    predicate AssetDeleted(id: Id)
      reads this
    {
      id != "" && id in deletedAssets
    }

    function VideoAttachmentManifest(id: Id): Option<Manifest>
      reads this
    {
      if id == "" then None else Contents().ManifestOf(id)
    }

    function AssetCreation(id: Id): Option<Creation>
      reads this
    {
      if id == "" then None else Find(assetCreations, id)
    }

    method AssetRoomIDLocked(id: Id) returns (room: Id)
      ensures room == Contents().RoomOf(id)
    {
      if id in deletedAssetRoom && deletedAssetRoom[id] != "" {
        return deletedAssetRoom[id];
      }
      room := RoomIDOfAssetCreatedLocked(Find(assetCreations, id));
    }

    /** The room an asset answers with, and whether it has one. */
    method AssetRoomID(id: Id) returns (room: Id, found: bool)
      ensures room == if id == "" then "" else Contents().RoomOf(id)
      ensures found <==> room != ""
    {
      if id == "" {
        return "", false;
      }
      room := AssetRoomIDLocked(id);
      found := room != "";
    }

    /** The parent walk: it ends on cyclic links too, with the nearest room on the chain or with none. */
    method RoomIDOfAssetCreatedLocked(declared: Option<Creation>) returns (room: Id)
      ensures room == WalkRoom(assetCreations, declared, {})
      ensures NearestRoom(assetCreations, declared, room)
    {
      WalkFindsNearestRoom(assetCreations, declared);
      var seen: set<Id> := {};
      var event := declared;
      while event.Some?
        invariant WalkRoom(assetCreations, event, seen) == WalkRoom(assetCreations, declared, {})
        decreases if event.None? then 0 else 1 + |assetCreations.Keys - seen|
      {
        if event.value.roomId != "" {
          return event.value.roomId;
        }
        var parent := event.value.parentId;
        if parent == "" {
          return "";
        }
        if parent in seen {
          return "";
        }
        assert parent in assetCreations ==>
            assetCreations.Keys - (seen + {parent}) == (assetCreations.Keys - seen) - {parent};
        seen := seen + {parent};
        event := Find(assetCreations, parent);
      }
      room := "";
    }

    /** Breadth-first listing of the live assets below one. */
    method AssetSubtreeIDs(id: Id) returns (out: seq<Id>)
      ensures !Contents().Live(id) ==> out == []
      ensures Contents().Live(id) ==> SubtreeOrder(Contents(), id, out) && LevelOrder(Contents(), id, out)
    {
      if id == "" || id !in assetCreations {
        return [];
      }
      ghost var v := Contents();
      ghost var universe := Mentioned(v, id);
      out := [];
      var queue := [id];
      var seen: set<Id> := {};
      ghost var met: seq<Id> := [];
      while queue != []
        invariant Contents() == v && Walked(v, id, out, met, queue, seen)
        invariant seen <= universe
        invariant Explored(v, id, out, queue, seen)
        decreases |universe - seen|, |queue|
      {
        var next := queue[0];
        ghost var before := queue;
        QueuedIsMentioned(v, id, out, next);
        WalkOn(v, id, out, met, queue, seen);
        met := met + [next];
        queue := queue[1..];
        if next == "" {
          ExploreSkip(v, id, out, before, seen);
          continue;
        }
        if next in seen {
          ExploreSkip(v, id, out, before, seen);
          continue;
        }
        MeasureDrops(universe, seen, next);
        if next !in assetCreations {
          ExploreDead(v, id, out, before, seen);
          seen := seen + {next};
          continue;
        }
        ExploreLive(v, id, out, before, seen);
        seen := seen + {next};
        out := out + [next];
        queue := queue + Contents().ChildrenOf(next);
      }
      ExploredIsSubtree(v, id, out, seen);
      assert met + [] == met;
    }
  }

  // ---- Level by level ----

  /** The children of these assets, one list after the other. */
  function ChildrenOfAll(v: View, ids: seq<Id>): seq<Id> {
    if ids == [] then [] else ChildrenOfAll(v, ids[..|ids| - 1]) + v.ChildrenOf(ids[|ids| - 1])
  }

  /** The live ids, each where it occurs first. */
  function FirstLive(v: View, ids: seq<Id>): seq<Id> {
    if ids == [] then []
    else
      var n := |ids| - 1;
      FirstLive(v, ids[..n]) + (if v.Live(ids[n]) && ids[n] !in ids[..n] then [ids[n]] else [])
  }

  /** Breadth first: the listing is the root and the children of its members, in the order of those, each live id where
      it occurs first. */
  ghost predicate LevelOrder(v: View, root: Id, out: seq<Id>) {
    out == FirstLive(v, [root] + ChildrenOfAll(v, out))
  }

  /** The search has met these ids and still has the queue before it. */
  ghost predicate Walked(v: View, root: Id, out: seq<Id>, met: seq<Id>, queue: seq<Id>, seen: set<Id>) {
    && met + queue == [root] + ChildrenOfAll(v, out)
    && out == FirstLive(v, met)
    && forall x :: x in seen <==> x in met && x != ""
  }

  lemma WalkOn(v: View, root: Id, out: seq<Id>, met: seq<Id>, queue: seq<Id>, seen: set<Id>)
    requires queue != [] && Walked(v, root, out, met, queue, seen)
    ensures var next := queue[0];
            if next == "" || next in seen then Walked(v, root, out, met + [next], queue[1..], seen)
            else if !v.Live(next) then Walked(v, root, out, met + [next], queue[1..], seen + {next})
            else Walked(v, root, out + [next], met + [next], queue[1..] + v.ChildrenOf(next), seen + {next})
  {
    var next := queue[0];
    assert met + queue == (met + [next]) + queue[1..];
    assert (met + [next])[..|met|] == met && (out + [next])[..|out|] == out;
    assert (met + [next]) + (queue[1..] + v.ChildrenOf(next)) == ((met + [next]) + queue[1..]) + v.ChildrenOf(next);
    var below := ChildrenOfAll(v, out);
    assert [root] + (below + v.ChildrenOf(next)) == ([root] + below) + v.ChildrenOf(next);
  }

  lemma {:induction false} FirstLiveOfPrefix(v: View, front: seq<Id>, ids: seq<Id>)
    requires front <= ids
    ensures FirstLive(v, front) <= FirstLive(v, ids)
  {
    if |front| < |ids| {
      FirstLiveOfPrefix(v, front, ids[..|ids| - 1]);
    } else {
      assert front == ids;
    }
  }

  lemma {:induction false} FirstLiveMembers(v: View, ids: seq<Id>, x: Id)
    ensures x in FirstLive(v, ids) <==> x in ids && v.Live(x)
  {
    if ids != [] {
      FirstLiveMembers(v, ids[..|ids| - 1], x);
      FirstLiveMembers(v, ids[..|ids| - 1], ids[|ids| - 1]);
    }
  }

  lemma {:induction false} ChildrenOfPrefix(v: View, ids: seq<Id>, k: nat)
    requires k <= |ids|
    ensures ChildrenOfAll(v, ids[..k]) <= ChildrenOfAll(v, ids)
  {
    if k < |ids| {
      assert ids[..|ids| - 1][..k] == ids[..k];
      ChildrenOfPrefix(v, ids[..|ids| - 1], k);
    } else {
      assert ids[..k] == ids;
    }
  }

  lemma {:induction false} ChildIsAmongAll(v: View, ids: seq<Id>, j: nat, c: Id)
    requires j < |ids| && c in v.ChildrenOf(ids[j])
    ensures c in ChildrenOfAll(v, ids)
  {
    if j < |ids| - 1 {
      ChildIsAmongAll(v, ids[..|ids| - 1], j, c);
    }
  }

  /** What the first k members lead to begins the listing, and reaches beyond them. */
  lemma LevelsBegin(v: View, root: Id, out: seq<Id>, k: nat)
    requires SubtreeOrder(v, root, out) && LevelOrder(v, root, out) && k <= |out|
    ensures var begun := FirstLive(v, [root] + ChildrenOfAll(v, out[..k]));
            begun <= out && (k < |out| ==> k < |begun|)
  {
    var front := [root] + ChildrenOfAll(v, out[..k]);
    ChildrenOfPrefix(v, out, k);
    FirstLiveOfPrefix(v, front, [root] + ChildrenOfAll(v, out));
    if k < |out| {
      if k > 0 {
        assert HasEarlierParent(v, out, k);
        var j :| 0 <= j < k && out[k] in v.ChildrenOf(out[j]);
        ChildIsAmongAll(v, out[..k], j, out[k]);
      }
      assert out[k] in out;
      ReachableIsLive(v, root, out[k]);
      FirstLiveMembers(v, front, out[k]);
    }
  }

  lemma ReachableIsLive(v: View, root: Id, x: Id)
    requires Reachable(v, root, x)
    ensures v.Live(x)
  {
  }

  /** There is one such listing only. */
  lemma {:induction false} ListingIsUnique(v: View, root: Id, out: seq<Id>, other: seq<Id>, k: nat)
    requires SubtreeOrder(v, root, out) && LevelOrder(v, root, out)
    requires SubtreeOrder(v, root, other) && LevelOrder(v, root, other)
    requires k <= |out| && k <= |other|
    ensures out[..k] == other[..k]
    ensures k == |out| ==> out == other
    decreases k
  {
    if k > 0 {
      ListingIsUnique(v, root, out, other, k - 1);
      LevelsBegin(v, root, out, k - 1);
      LevelsBegin(v, root, other, k - 1);
    }
    if k == |out| < |other| {
      assert out[..k] == out;
      LevelsBegin(v, root, other, k);
    }
  }

  /** The queue element can be explained: it is the root at the very start, or a child of a listed asset. */
  ghost predicate Queued(v: View, root: Id, out: seq<Id>, x: Id) {
    (out == [] && x == root) || exists j :: 0 <= j < |out| && x in v.ChildrenOf(out[j])
  }

  /** Every id a search from `root` can ever meet. */
  ghost function Mentioned(v: View, root: Id): set<Id> {
    {root} + set p, i | p in v.children && 0 <= i < |v.children[p]| :: v.children[p][i]
  }

  lemma QueuedIsMentioned(v: View, root: Id, out: seq<Id>, x: Id)
    requires Queued(v, root, out, x)
    ensures x in Mentioned(v, root)
  {
  }

  lemma MeasureDrops(universe: set<Id>, seen: set<Id>, next: Id)
    requires next in universe && next !in seen
    ensures |universe - (seen + {next})| < |universe - seen|
  {
    assert universe - (seen + {next}) == (universe - seen) - {next};
  }

  /** The state of the breadth-first search. */
  ghost predicate Explored(v: View, root: Id, out: seq<Id>, queue: seq<Id>, seen: set<Id>) {
    && v.Live(root)
    && Distinct(out)
    && (forall x :: x in out ==> v.Live(x) && x in seen && Reachable(v, root, x))
    && (forall x :: x in seen && v.Live(x) ==> x in out)
    && (out != [] ==> out[0] == root)
    && (out == [] ==> queue == [root] && seen == {})
    && (forall i :: 0 < i < |out| ==> HasEarlierParent(v, out, i))
    && (forall x :: x in queue ==> Queued(v, root, out, x))
    && (forall x, c :: x in out && c in v.ChildrenOf(x) && v.Live(c) ==> c in seen || c in queue)
  }

  lemma ExploreSkip(v: View, root: Id, out: seq<Id>, queue: seq<Id>, seen: set<Id>)
    requires queue != [] && Explored(v, root, out, queue, seen)
    requires queue[0] == "" || queue[0] in seen
    ensures Explored(v, root, out, queue[1..], seen)
  {
  }

  lemma ExploreDead(v: View, root: Id, out: seq<Id>, queue: seq<Id>, seen: set<Id>)
    requires queue != [] && Explored(v, root, out, queue, seen)
    requires queue[0] !in v.creations
    ensures Explored(v, root, out, queue[1..], seen + {queue[0]})
  {
  }

  lemma ExploreLive(v: View, root: Id, out: seq<Id>, queue: seq<Id>, seen: set<Id>)
    requires queue != [] && Explored(v, root, out, queue, seen)
    requires queue[0] !in seen && v.Live(queue[0])
    ensures Explored(v, root, out + [queue[0]], queue[1..] + v.ChildrenOf(queue[0]), seen + {queue[0]})
  {
    var next := queue[0];
    var longer := out + [next];
    assert queue == [next] + queue[1..];
    assert Queued(v, root, out, next);
    if out == [] {
      ReachableSelf(v, root);
    } else {
      var j :| 0 <= j < |out| && next in v.ChildrenOf(out[j]);
      ReachableChild(v, root, out[j], next);
      assert longer[j] == out[j];
    }
    forall i | 0 < i < |longer| ensures HasEarlierParent(v, longer, i) {
      if i < |out| {
        assert HasEarlierParent(v, out, i);
        var j :| 0 <= j < i && out[i] in v.ChildrenOf(out[j]);
        assert longer[j] == out[j];
      }
    }
    forall x | x in queue[1..] + v.ChildrenOf(next) ensures Queued(v, root, longer, x) {
      if x in queue[1..] {
        assert Queued(v, root, out, x);
        if out != [] {
          var j :| 0 <= j < |out| && x in v.ChildrenOf(out[j]);
          assert longer[j] == out[j];
        }
      } else {
        assert longer[|out|] == next;
      }
    }
  }

  lemma ExploredIsSubtree(v: View, root: Id, out: seq<Id>, seen: set<Id>)
    requires Explored(v, root, out, [], seen)
    ensures SubtreeOrder(v, root, out)
  {
    assert ClosedUnderChildren(v, Ids(out));
    forall x | Reachable(v, root, x) ensures x in out {
      ReachableStaysInClosedSet(v, Ids(out), root, x);
    }
  }
}
