/** The five maps of the asset projection as one value, and the fold of a log into them. */
module AssetView {
  import opened Common
  import opened AssetEvents
  import opened AssetRooms

  /** Processing state of one asset: the facts the projection has kept. */
  datatype Manifest = Manifest(started: Option<Event>, succeeded: Option<Event>, failed: Option<Event>)
  {
    predicate Settled() {
      succeeded.Some? || failed.Some?
    }
  }

  const EMPTY_MANIFEST := Manifest(None, None, None)

  function ListOf(children: map<Id, seq<Id>>, id: Id): seq<Id> {
    if id in children then children[id] else []
  }

  datatype View = View(
    creations: map<Id, Creation>,
    children: map<Id, seq<Id>>,
    manifests: map<Id, Manifest>,
    deleted: set<Id>,
    deletedRooms: map<Id, Id>)
  {
    predicate Live(id: Id) {
      id != "" && id in creations
    }

    function ChildrenOf(id: Id): seq<Id> {
      ListOf(children, id)
    }

    function ManifestOf(id: Id): Option<Manifest> {
      if id in manifests then Some(manifests[id]) else None
    }

    /** The room of an asset, through its tombstone or through its parents. */
    function RoomOf(id: Id): Id {
      if id in deletedRooms && deletedRooms[id] != "" then deletedRooms[id]
      else WalkRoom(creations, Find(creations, id), {})
    }
  }

  const EMPTY_VIEW := View(map[], map[], map[], {}, map[])

  function AppendIfMissing(values: seq<Id>, value: Id): (r: seq<Id>)
    ensures forall x :: x in r <==> x in values || x == value
    ensures Distinct(values) ==> Distinct(r)
    ensures values <= r
  {
    if value in values then values else values + [value]
  }

  function RemoveId(values: seq<Id>, value: Id): (r: seq<Id>)
    ensures forall x :: x in r <==> x in values && x != value
    ensures Distinct(values) ==> Distinct(r)
    ensures value !in values ==> r == values
  {
    if values == [] then []
    else
      assert values == [values[0]] + values[1..];
      assert Distinct(values) ==> values[0] !in values[1..] && Distinct(values[1..]);
      (if values[0] == value then [] else [values[0]]) + RemoveId(values[1..], value)
  }

  /** The others keep their order. */
  lemma {:induction false} RemoveClosesGap(values: seq<Id>, k: nat)
    requires Distinct(values) && k < |values|
    ensures RemoveId(values, values[k]) == values[..k] + values[k + 1..]
  {
    if k > 0 {
      RemoveClosesGap(values[1..], k - 1);
      assert values[..k] + values[k + 1..] == [values[0]] + (values[1..][..k - 1] + values[1..][k..]);
    }
  }

  /** A terminal fact is kept only while the asset is neither deleted nor settled. */
  function Settle(v: View, e: Event): View
    requires e.IsTerminal()
  {
    var id := e.assetId;
    var manifest := v.ManifestOf(id);
    if id == "" || id in v.deleted then v
    else if manifest.Some? && manifest.value.Settled() then v
    else
      var m := if manifest.Some? then manifest.value else EMPTY_MANIFEST;
      var m' := if e.ProcessingSucceeded? then m.(succeeded := Some(e), failed := None)
                else m.(failed := Some(e), succeeded := None);
      v.(manifests := v.manifests[id := m'])
  }

  function Create(v: View, c: Creation): View {
    if c.assetId == "" then v
    else
      v.(creations := v.creations[c.assetId := c],
         deleted := v.deleted - {c.assetId},
         deletedRooms := v.deletedRooms - {c.assetId},
         children :=
           if c.parentId == "" then v.children
           else v.children[c.parentId := AppendIfMissing(v.ChildrenOf(c.parentId), c.assetId)])
  }

  function Start(v: View, e: Event): View
    requires e.ProcessingStarted?
  {
    var id := e.assetId;
    if id == "" || id in v.deleted then v
    else if id in v.manifests && v.manifests[id].Settled() then v
    else v.(manifests := v.manifests[id := EMPTY_MANIFEST.(started := Some(e))])
  }

  function Delete(v: View, id: Id): View {
    if id == "" then v
    else
      var room := v.RoomOf(id);
      var parent := if id in v.creations then v.creations[id].parentId else "";
      var children :=
        if parent == "" then v.children else v.children[parent := RemoveId(v.ChildrenOf(parent), id)];
      View(v.creations - {id}, children - {id}, v.manifests - {id}, v.deleted + {id},
           if room == "" then v.deletedRooms else v.deletedRooms[id := room])
  }

  /** What applying one event does to the maps. */
  function Step(v: View, e: Event): View {
    match e
    case AssetCreated(c) => Create(v, c)
    case ProcessingStarted(_, _) => Start(v, e)
    case ProcessingSucceeded(_, _, _) => Settle(v, e)
    case ProcessingFailed(_, _, _) => Settle(v, e)
    case AssetDeleted(id) => Delete(v, id)
    case Other(_) => v
  }

  function Fold(log: Log): View {
    if log == [] then EMPTY_VIEW else Step(Fold(log[..|log| - 1]), log[|log| - 1].event)
  }

  /** Invariant of every log: tombstones exclude live creations and manifests, and outcomes exclude each other. */
  ghost predicate Consistent(v: View) {
    && v.deleted !! v.creations.Keys
    && v.deleted !! v.manifests.Keys
    && v.deletedRooms.Keys <= v.deleted
    && "" !in v.creations && "" !in v.manifests && "" !in v.deleted
    && (forall id :: id in v.creations ==> v.creations[id].assetId == id)
    && (forall id :: id in v.manifests ==> !(v.manifests[id].succeeded.Some? && v.manifests[id].failed.Some?))
    && (forall id :: id in v.deletedRooms ==> v.deletedRooms[id] != "")
  }

  lemma StepKeepsConsistency(v: View, e: Event)
    requires Consistent(v)
    ensures Consistent(Step(v, e))
  {
  }

  lemma {:induction false} FoldIsConsistent(log: Log)
    ensures Consistent(Fold(log))
  {
    if log != [] {
      FoldIsConsistent(log[..|log| - 1]);
      StepKeepsConsistency(Fold(log[..|log| - 1]), log[|log| - 1].event);
    }
  }

  lemma CreateTwice(v: View, c: Creation)
    ensures Create(Create(v, c), c) == Create(v, c)
  {
  }

  lemma DeleteTwice(v: View, id: Id)
    requires Consistent(v)
    ensures Delete(Delete(v, id), id) == Delete(v, id)
  {
    var once := Delete(v, id);
    if id != "" {
      assert once.RoomOf(id) == if id in once.deletedRooms then once.deletedRooms[id] else "";
      assert Delete(once, id).deletedRooms == once.deletedRooms;
      assert Delete(once, id).children == once.children;
    }
  }

  lemma StartTwice(v: View, e: Event)
    requires e.ProcessingStarted?
    ensures Start(Start(v, e), e) == Start(v, e)
  {
  }

  /** Applying the same event twice in a row is the same as applying it once, whatever the state. */
  lemma RedeliveryIsHarmless(v: View, e: Event)
    requires Consistent(v)
    ensures Step(Step(v, e), e) == Step(v, e)
  {
    match e
    case AssetCreated(c) => CreateTwice(v, c);
    case AssetDeleted(id) => DeleteTwice(v, id);
    case ProcessingStarted(_, _) => StartTwice(v, e);
    case _ =>
  }
}
