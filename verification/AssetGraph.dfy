/** The child index: what it means, what a subtree is, and why deleting leaves first keeps rooms. */
module AssetGraph {
  import opened Common
  import opened AssetEvents
  import opened AssetRooms
  import opened AssetView
  import opened AssetHistory

  ghost predicate LivePath(v: View, path: seq<Id>) {
    && path != []
    && (forall i :: 0 <= i < |path| ==> v.Live(path[i]))
    && (forall i :: 0 < i < |path| ==> path[i] in v.ChildrenOf(path[i - 1]))
  }

  ghost predicate PathBetween(v: View, path: seq<Id>, root: Id, x: Id) {
    LivePath(v, path) && path[0] == root && path[|path| - 1] == x
  }

  /** x is reached from root through live assets only. */
  ghost predicate Reachable(v: View, root: Id, x: Id) {
    exists path :: PathBetween(v, path, root, x)
  }

  ghost predicate HasEarlierParent(v: View, out: seq<Id>, i: nat)
    requires i < |out|
  {
    exists j :: 0 <= j < i && out[i] in v.ChildrenOf(out[j])
  }

  /** The listing of a subtree: root first, no repeats, exactly the reachable ids, each after one of its parents. */
  ghost predicate SubtreeOrder(v: View, root: Id, out: seq<Id>) {
    && Distinct(out)
    && out != [] && out[0] == root
    && (forall x :: x in out <==> Reachable(v, root, x))
    && (forall i :: 0 < i < |out| ==> HasEarlierParent(v, out, i))
  }

  lemma ReachableSelf(v: View, x: Id)
    requires v.Live(x)
    ensures Reachable(v, x, x)
  {
    assert PathBetween(v, [x], x, x);
  }

  lemma ReachableChild(v: View, root: Id, x: Id, c: Id)
    requires Reachable(v, root, x) && v.Live(c) && c in v.ChildrenOf(x)
    ensures Reachable(v, root, c)
  {
    var path :| PathBetween(v, path, root, x);
    assert PathBetween(v, path + [c], root, c);
  }

  lemma ReachableFromParent(v: View, p: Id, x: Id, y: Id)
    requires v.Live(p) && x in v.ChildrenOf(p) && Reachable(v, x, y)
    ensures Reachable(v, p, y)
  {
    var path :| PathBetween(v, path, x, y);
    assert PathBetween(v, [p] + path, p, y);
  }

  /** The set is closed: it holds the live children of every member. */
  ghost predicate ClosedUnderChildren(v: View, s: set<Id>) {
    forall x, c :: x in s && c in v.ChildrenOf(x) && v.Live(c) ==> c in s
  }

  lemma {:induction false} PathStaysInClosedSet(v: View, s: set<Id>, path: seq<Id>)
    requires LivePath(v, path) && path[0] in s && ClosedUnderChildren(v, s)
    ensures path[|path| - 1] in s
  {
    if |path| > 1 {
      PathStaysInClosedSet(v, s, path[..|path| - 1]);
    }
  }

  lemma ReachableStaysInClosedSet(v: View, s: set<Id>, root: Id, x: Id)
    requires Reachable(v, root, x) && root in s && ClosedUnderChildren(v, s)
    ensures x in s
  {
    var path :| PathBetween(v, path, root, x);
    PathStaysInClosedSet(v, s, path);
  }

  // ---- The index against the parent links ----

  /** Each id is created at most once, and is not deleted before that. */
  ghost predicate CreatedOnce(log: Log) {
    forall i, j :: 0 <= i < j < |log| && log[j].event.AssetCreated? && log[j].event.Asset() != ""
      ==> !Is(log[i].event, KCreate, log[j].event.Asset()) && !Is(log[i].event, KDelete, log[j].event.Asset())
  }

  /** The child index is the inverse of the parent links: sound everywhere, complete for parents not deleted. */
  ghost predicate IndexInverse(v: View) {
    Inverse(v.children, v.creations, v.deleted) && DistinctLists(v.children)
  }

  ghost predicate DistinctLists(children: map<Id, seq<Id>>) {
    forall p :: Distinct(ListOf(children, p))
  }

  ghost predicate Inverse(children: map<Id, seq<Id>>, creations: Creations, deleted: set<Id>) {
    && "" !in children
    && (forall p, c :: c in ListOf(children, p) ==> c in creations && creations[c].parentId == p)
    && (forall c :: c in creations && creations[c].parentId != "" && creations[c].parentId !in deleted
         ==> c in ListOf(children, creations[c].parentId))
  }

  lemma UntouchedIsUnknown(log: Log, id: Id)
    requires id != ""
    requires forall i :: 0 <= i < |log| ==> !Is(log[i].event, KCreate, id) && !Is(log[i].event, KDelete, id)
    ensures id !in Fold(log).creations && id !in Fold(log).deleted
  {
    FoldReadsTheLog(log, id);
    assert LastOf(log, KDelete, id, 0) == -1;
    assert LastOf(log, KCreate, id, 0) == -1;
  }

  lemma {:induction false} IndexInvertsParents(log: Log)
    requires CreatedOnce(log)
    ensures IndexInverse(Fold(log))
  {
    if log != [] {
      var before := log[..|log| - 1];
      IndexInvertsParents(before);
      FoldIsConsistent(before);
      match log[|log| - 1].event
      case AssetCreated(c) =>
        if c.assetId != "" {
          UntouchedIsUnknown(before, c.assetId);
          CreateKeepsInverse(Fold(before), c);
        }
      case AssetDeleted(id) => DeleteKeepsInverse(Fold(before), id);
      case _ =>
    }
  }

  lemma CreateKeepsInverse(v: View, c: Creation)
    requires IndexInverse(v) && Consistent(v)
    requires c.assetId != "" && c.assetId !in v.creations && c.assetId !in v.deleted
    ensures IndexInverse(Create(v, c))
  {
    var w := Create(v, c);
    assert w.deleted == v.deleted;
    forall p
      ensures Distinct(ListOf(w.children, p))
      ensures forall x ::
        x in ListOf(w.children, p) <==> x in ListOf(v.children, p) || (p == c.parentId != "" && x == c.assetId)
    {
      assert Distinct(ListOf(v.children, p));
    }
    InverseAfterCreate(v, w.children, c);
  }

  lemma InverseAfterCreate(v: View, children: map<Id, seq<Id>>, c: Creation)
    requires Inverse(v.children, v.creations, v.deleted) && c.assetId !in v.creations && "" !in children
    requires forall p, x ::
      x in ListOf(children, p) <==> x in ListOf(v.children, p) || (p == c.parentId != "" && x == c.assetId)
    ensures Inverse(children, v.creations[c.assetId := c], v.deleted)
  {
  }

  lemma DeleteKeepsInverse(v: View, id: Id)
    requires IndexInverse(v) && Consistent(v)
    ensures IndexInverse(Delete(v, id))
  {
    if id != "" {
      var w := Delete(v, id);
      forall p
        ensures Distinct(ListOf(w.children, p))
        ensures forall x :: x in ListOf(w.children, p) <==> p != id && x != id && x in ListOf(v.children, p)
      {
        ListAfterDelete(v, id, p);
      }
      InverseAfterDelete(v, w.children, id);
    }
  }

  lemma ListAfterDelete(v: View, id: Id, p: Id)
    requires IndexInverse(v) && id != ""
    ensures ListOf(Delete(v, id).children, p) == if p == id then [] else RemoveId(ListOf(v.children, p), id)
    ensures Distinct(ListOf(Delete(v, id).children, p))
  {
  }

  /** A deleted asset leaves every list of children, and its own list goes. */
  lemma InverseAfterDelete(v: View, children: map<Id, seq<Id>>, id: Id)
    requires Inverse(v.children, v.creations, v.deleted) && "" !in children
    requires forall p, x :: x in ListOf(children, p) <==> p != id && x != id && x in ListOf(v.children, p)
    ensures Inverse(children, v.creations - {id}, v.deleted + {id})
  {
  }

  // ---- Parents before children ----

  /** Parent links have no cycle: some rank grows along every link between live assets. */
  ghost predicate AcyclicBy(v: View, rank: Id -> nat) {
    forall c :: v.Live(c) && v.Live(v.creations[c].parentId) ==> rank(v.creations[c].parentId) < rank(c)
  }

  lemma {:induction false} RankGrowsAlongPath(v: View, rank: Id -> nat, path: seq<Id>)
    requires IndexInverse(v) && AcyclicBy(v, rank) && LivePath(v, path)
    ensures rank(path[0]) <= rank(path[|path| - 1])
  {
    if |path| > 1 {
      var shorter := path[..|path| - 1];
      RankGrowsAlongPath(v, rank, shorter);
      assert path[|path| - 1] in v.ChildrenOf(shorter[|shorter| - 1]);
    }
  }

  lemma ParentsComeFirst(v: View, rank: Id -> nat, root: Id, out: seq<Id>, i: nat, k: nat)
    requires IndexInverse(v) && AcyclicBy(v, rank) && SubtreeOrder(v, root, out)
    requires i < |out| && k < |out| && out[k] in v.ChildrenOf(out[i])
    ensures i < k
  {
    assert out[i] in out && out[k] in out;
    assert Reachable(v, root, out[i]) && Reachable(v, root, out[k]);
    var path :| PathBetween(v, path, root, out[i]);
    var other :| PathBetween(v, other, root, out[k]);
    RankGrowsAlongPath(v, rank, path);
    if k > 0 {
      assert HasEarlierParent(v, out, k);
      var j :| 0 <= j < k && out[k] in v.ChildrenOf(out[j]);
    }
  }

  // ---- Rooms survive a leaf-first deletion ----

  /** a stands on the chain of parent ids above x. */
  ghost predicate ProperAncestor(v: View, a: Id, x: Id) {
    exists k: nat :: ParentAt(v, x, k, a)
  }

  ghost predicate ParentAt(v: View, x: Id, k: nat, a: Id) {
    var at := Up(v.creations, Find(v.creations, x), k);
    at.Some? && at.value.parentId == a
  }

  /** No asset comes before one of its descendants. */
  ghost predicate LeafFirst(v: View, targets: seq<Id>) {
    forall i, j :: 0 <= i < j < |targets| ==> !ProperAncestor(v, targets[i], targets[j])
  }

  lemma {:induction false} AncestorReaches(v: View, a: Id, x: Id, k: nat)
    requires IndexInverse(v) && Consistent(v) && v.Live(a) && v.Live(x) && ParentAt(v, x, k, a)
    ensures Reachable(v, a, x)
    decreases k
  {
    var below := Up(v.creations, Find(v.creations, x), k).value.assetId;
    ChainIsLive(v, x, k);
    if k == 0 {
      ReachableSelf(v, x);
    } else {
      assert ParentAt(v, x, k - 1, below);
      AncestorReaches(v, below, x, k - 1);
    }
    ReachableFromParent(v, a, below, x);
  }

  lemma ChainIsLive(v: View, x: Id, k: nat)
    requires Consistent(v) && Up(v.creations, Find(v.creations, x), k).Some?
    ensures var c := Up(v.creations, Find(v.creations, x), k).value;
            v.Live(c.assetId) && v.creations[c.assetId] == c
    ensures k == 0 ==> Up(v.creations, Find(v.creations, x), k).value.assetId == x
    ensures k > 0 ==> ParentAt(v, x, k - 1, Up(v.creations, Find(v.creations, x), k).value.assetId)
  {
  }

  function DeleteAll(v: View, targets: seq<Id>): View {
    if targets == [] then v
    else Delete(DeleteAll(v, targets[..|targets| - 1]), targets[|targets| - 1])
  }

  ghost function Ids(s: seq<Id>): set<Id> {
    set x | x in s
  }

  lemma {:induction false} DeleteAllEffect(v: View, targets: seq<Id>, x: Id)
    requires Consistent(v) && "" !in targets && x !in targets
    ensures Consistent(DeleteAll(v, targets))
    ensures DeleteAll(v, targets).creations == v.creations - Ids(targets)
    ensures Find(DeleteAll(v, targets).deletedRooms, x) == Find(v.deletedRooms, x)
  {
    if targets == [] {
      assert v.creations - Ids(targets) == v.creations;
    } else {
      hide Delete, Consistent, Ids;
      var before := targets[..|targets| - 1];
      var last := targets[|targets| - 1];
      assert forall y :: y in before ==> y in targets;
      DeleteAllEffect(v, before, x);
      var w := DeleteAll(v, before);
      StepKeepsConsistency(w, AssetDeleted(last));
      DeleteEffect(w, last, x);
      IdsSplit(targets);
      MinusTwice(v.creations, Ids(before), {last});
    }
  }

  lemma MinusTwice(m: map<Id, Creation>, s: set<Id>, t: set<Id>)
    ensures m - s - t == m - (s + t)
  {
  }

  lemma IdsSplit(s: seq<Id>)
    requires s != []
    ensures Ids(s) == Ids(s[..|s| - 1]) + {s[|s| - 1]}
  {
  }

  lemma DeleteEffect(v: View, id: Id, x: Id)
    requires id != "" && x != id
    ensures Delete(v, id).creations == v.creations - {id}
    ensures Find(Delete(v, id).deletedRooms, x) == Find(v.deletedRooms, x)
  {
  }

  /** An asset outside the targets keeps its room if no target is an ancestor of it. */
  lemma BystanderKeepsRoom(v: View, targets: seq<Id>, x: Id)
    requires Consistent(v) && "" !in targets && x !in targets
    requires forall a :: a in targets ==> !ProperAncestor(v, a, x)
    ensures DeleteAll(v, targets).RoomOf(x) == v.RoomOf(x)
  {
    DeleteAllEffect(v, targets, x);
    var start := Find(v.creations, x);
    forall j: nat | Up(v.creations, start, j).Some?
      ensures Up(v.creations, start, j).value.parentId !in Ids(targets)
    {
      assert ParentAt(v, x, j, Up(v.creations, start, j).value.parentId);
    }
    WalkIgnoresOthers(v.creations, start, Ids(targets));
    assert Find(v.creations - Ids(targets), x) == start;
  }

  /** Leaf-first deletion keeps rooms: each deleted asset still resolves to the room it had before. */
  lemma {:induction false} LeafFirstKeepsRooms(v: View, targets: seq<Id>, x: Id)
    requires Consistent(v) && "" !in targets && Distinct(targets) && LeafFirst(v, targets)
    requires x in targets
    ensures DeleteAll(v, targets).RoomOf(x) == v.RoomOf(x)
  {
    var before := targets[..|targets| - 1];
    var last := targets[|targets| - 1];
    assert targets == before + [last];
    if x == last {
      forall a | a in before ensures !ProperAncestor(v, a, x) {
        var i :| 0 <= i < |before| && before[i] == a;
        assert targets[i] == a;
      }
      BystanderKeepsRoom(v, before, x);
      DeleteAllEffect(v, before, x);
    } else {
      LeafFirstKeepsRooms(v, before, x);
      DeleteAllEffect(v, before, last);
      var w := DeleteAll(v, before);
      assert x !in w.creations;
    }
  }

  /** Root-first deletion loses rooms: a derivative without a room of its own cannot be resolved any more. */
  lemma RootFirstLosesRooms()
    ensures exists v: View, root: Id, leaf: Id ::
              Consistent(v) && v.RoomOf(leaf) != "" && DeleteAll(v, [root, leaf]).RoomOf(leaf) == ""
  {
    var root := Creation("a", "room", "", "");
    var leaf := Creation("b", "", "a", "");
    var v := Create(Create(EMPTY_VIEW, root), leaf);
    StepKeepsConsistency(EMPTY_VIEW, AssetCreated(root));
    StepKeepsConsistency(Create(EMPTY_VIEW, root), AssetCreated(leaf));
    assert WalkRoom(v.creations, Some(root), {"a"}) == "room";
    assert v.RoomOf("b") == "room";
    assert ["a", "b"][..1] == ["a"] && ["a"][..0] == [];
    var w := DeleteAll(v, ["a"]);
    assert w == Delete(v, "a");
    assert "a" !in w.creations && w.creations["b"] == leaf;
    assert {} + {"a"} == {"a"};
    assert WalkRoom(w.creations, Some(leaf), {}) == WalkRoom(w.creations, None, {"a"}) == "";
    assert w.RoomOf("b") == "";
    assert DeleteAll(v, ["a", "b"]) == Delete(w, "b");
  }
}
