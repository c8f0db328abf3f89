/** What a log says about one asset: a fold that looks at that asset only, and a declarative reading. */
module AssetHistory {
  import opened Common
  import opened AssetEvents
  import opened AssetRooms
  import opened AssetView

  /** The part of the view that belongs to one asset alone. */
  datatype Local = Local(creation: Option<Creation>, deleted: bool, manifest: Option<Manifest>)
  {
    predicate Settled() {
      manifest.Some? && manifest.value.Settled()
    }

    /** A processing fact may be recorded: no tombstone and no outcome yet. */
    predicate Open() {
      !deleted && !Settled()
    }
  }

  const UNKNOWN := Local(None, false, None)

  function LocalOf(v: View, id: Id): Local {
    Local(Find(v.creations, id), id in v.deleted, v.ManifestOf(id))
  }

  function LocalStep(l: Local, e: Event): Local {
    match e
    case AssetCreated(c) => l.(creation := Some(c), deleted := false)
    case AssetDeleted(_) => Local(None, true, None)
    case Other(_) => l
    case ProcessingStarted(_, _) =>
      if !l.Open() then l else l.(manifest := Some(EMPTY_MANIFEST.(started := Some(e))))
    case _ =>
      if !l.Open() then l
      else
        var m := if l.manifest.Some? then l.manifest.value else EMPTY_MANIFEST;
        l.(manifest := Some(if e.ProcessingSucceeded? then m.(succeeded := Some(e)) else m.(failed := Some(e))))
  }

  /** The fold of the events of one asset; all others are skipped. */
  function LocalFold(log: Log, id: Id): Local {
    if log == [] then UNKNOWN
    else
      var before := LocalFold(log[..|log| - 1], id);
      var e := log[|log| - 1].event;
      if e.Asset() == id then LocalStep(before, e) else before
  }

  /** One event acts on its own asset as `LocalStep` says, and on no other. */
  lemma StepIsLocal(v: View, e: Event, id: Id)
    requires id != ""
    ensures LocalOf(Step(v, e), id) == if e.Asset() == id then LocalStep(LocalOf(v, id), e) else LocalOf(v, id)
  {
    match e
    case AssetCreated(_) =>
    case AssetDeleted(_) =>
    case _ =>
  }

  lemma {:induction false} FoldIsLocal(log: Log, id: Id)
    requires id != ""
    ensures LocalOf(Fold(log), id) == LocalFold(log, id)
  {
    if log != [] {
      FoldIsLocal(log[..|log| - 1], id);
      StepIsLocal(Fold(log[..|log| - 1]), log[|log| - 1].event, id);
    }
  }

  /** The subsequence of events of one asset. */
  function Project(log: Log, id: Id): Log {
    if log == [] then []
    else
      var before := Project(log[..|log| - 1], id);
      var last := log[|log| - 1];
      if last.event.Asset() == id then before + [last] else before
  }

  lemma {:induction false} ProjectionDecides(log: Log, id: Id)
    ensures LocalFold(Project(log, id), id) == LocalFold(log, id)
  {
    if log != [] {
      var before := Project(log[..|log| - 1], id);
      ProjectionDecides(log[..|log| - 1], id);
      if log[|log| - 1].event.Asset() == id {
        assert (before + [log[|log| - 1]])[..|before|] == before;
      }
    }
  }

  /** Locality: however the events of different assets interleave, the three per-asset maps are the same. */
  lemma InterleavingIsIrrelevant(log: Log, other: Log)
    requires forall id :: id != "" ==> Project(log, id) == Project(other, id)
    ensures Fold(log).creations == Fold(other).creations
    ensures Fold(log).deleted == Fold(other).deleted
    ensures Fold(log).manifests == Fold(other).manifests
  {
    FoldIsConsistent(log);
    FoldIsConsistent(other);
    forall id | id != "" ensures LocalOf(Fold(log), id) == LocalOf(Fold(other), id) {
      FoldIsLocal(log, id);
      FoldIsLocal(other, id);
      ProjectionDecides(log, id);
      ProjectionDecides(other, id);
    }
    SameLocals(Fold(log), Fold(other));
  }

  lemma SameLocals(v: View, w: View)
    requires Consistent(v) && Consistent(w)
    requires forall id :: id != "" ==> LocalOf(v, id) == LocalOf(w, id)
    ensures v.creations == w.creations && v.deleted == w.deleted && v.manifests == w.manifests
  {
    forall id ensures id in v.creations <==> id in w.creations
              ensures id in v.creations ==> v.creations[id] == w.creations[id]
              ensures id in v.deleted <==> id in w.deleted
              ensures id in v.manifests <==> id in w.manifests
              ensures id in v.manifests ==> v.manifests[id] == w.manifests[id]
    {
      if id != "" { assert LocalOf(v, id) == LocalOf(w, id); }
    }
  }

  /** Events of other assets between two prefixes leave an asset's fold alone. */
  lemma {:induction false} QuietSuffix(log: Log, id: Id, k: nat)
    requires k <= |log|
    requires forall i :: k <= i < |log| ==> log[i].event.Asset() != id
    ensures LocalFold(log[..k], id) == LocalFold(log, id)
  {
    if k == |log| {
      assert log[..k] == log;
    } else {
      var before := log[..|log| - 1];
      assert before[..k] == log[..k];
      QuietSuffix(before, id, k);
    }
  }

  // ---- The declarative reading ----

  datatype Kind = KCreate | KStart | KTerminal | KDelete

  predicate Is(e: Event, kind: Kind, id: Id) {
    && e.Asset() == id
    && match kind
       case KCreate => e.AssetCreated?
       case KStart => e.ProcessingStarted?
       case KTerminal => e.IsTerminal()
       case KDelete => e.AssetDeleted?
  }

  /** The last position at or after `from` holding an event of this kind, or -1. */
  function LastOf(log: Log, kind: Kind, id: Id, from: nat): (i: int)
    ensures i == -1 || (from <= i < |log| && Is(log[i].event, kind, id))
    ensures forall j {:trigger log[j]} :: from <= j < |log| && i < j ==> !Is(log[j].event, kind, id)
  {
    if |log| <= from then -1
    else if Is(log[|log| - 1].event, kind, id) then |log| - 1
    else LastOf(log[..|log| - 1], kind, id, from)
  }

  /** The first position at or after `from` holding an event of this kind, or -1. */
  function FirstOf(log: Log, kind: Kind, id: Id, from: nat): (i: int)
    ensures i == -1 || (from <= i < |log| && Is(log[i].event, kind, id))
    ensures forall j {:trigger log[j]} :: from <= j < |log| && (i == -1 || j < i) ==> !Is(log[j].event, kind, id)
  {
    if |log| <= from then -1
    else
      var i := FirstOf(log[..|log| - 1], kind, id, from);
      if i >= 0 then i
      else if Is(log[|log| - 1].event, kind, id) then |log| - 1
      else -1
  }

  /** Where the asset's present life begins: at the first create after its last delete, if there is one. */
  function LifeStart(log: Log, id: Id): int {
    var d := LastOf(log, KDelete, id, 0);
    if d < 0 then 0 else FirstOf(log, KCreate, id, d + 1)
  }

  function At(log: Log, i: int): Option<Event>
    requires i < |log|
  {
    if i < 0 then None else Some(log[i].event)
  }

  /** The first outcome of the present life, and the last start before it. */
  function ReadManifest(log: Log, id: Id): Option<Manifest> {
    var w := LifeStart(log, id);
    if w < 0 then None
    else
      var t := FirstOf(log, KTerminal, id, w);
      var s := LastOf(if t < 0 then log else log[..t], KStart, id, w);
      if t < 0 && s < 0 then None
      else if t < 0 then Some(Manifest(At(log, s), None, None))
      else if log[t].event.ProcessingSucceeded? then Some(Manifest(At(log, s), At(log, t), None))
      else Some(Manifest(At(log, s), None, At(log, t)))
  }

  function ReadCreation(log: Log, id: Id): Option<Creation> {
    var c := LastOf(log, KCreate, id, LastOf(log, KDelete, id, 0) + 1);
    if c < 0 then None else Some(log[c].event.creation)
  }

  function Reading(log: Log, id: Id): Local {
    Local(ReadCreation(log, id), LifeStart(log, id) < 0, ReadManifest(log, id))
  }

  lemma {:induction false} LocalFoldIsReading(log: Log, id: Id)
    ensures LocalFold(log, id) == Reading(log, id)
  {
    if log != [] {
      var before := log[..|log| - 1];
      var e := log[|log| - 1].event;
      LocalFoldIsReading(before, id);
      if Is(e, KDelete, id) {
        assert LastOf(log, KDelete, id, 0) == |log| - 1;
      } else {
        assert LastOf(log, KDelete, id, 0) == LastOf(before, KDelete, id, 0);
        ReadingOfLongerLog(log, id);
      }
    }
  }

  lemma ReadingOfLongerLog(log: Log, id: Id)
    requires log != [] && !Is(log[|log| - 1].event, KDelete, id)
    ensures var e := log[|log| - 1].event;
            var before := Reading(log[..|log| - 1], id);
            Reading(log, id) == if e.Asset() == id then LocalStep(before, e) else before
  {
    LastCreationAdvances(log, id);
    LifeAdvances(log, id);
    if LifeStart(log[..|log| - 1], id) < 0 {
      ManifestOfNewLife(log, id);
    } else {
      ManifestAdvances(log, id);
    }
    Assemble(Reading(log[..|log| - 1], id), Reading(log, id), log[|log| - 1].event, id);
  }

  lemma Assemble(before: Local, after: Local, e: Event, id: Id)
    requires !Is(e, KDelete, id)
    requires after.creation == if Is(e, KCreate, id) then Some(e.creation) else before.creation
    requires after.deleted <==> before.deleted && !Is(e, KCreate, id)
    requires if before.deleted then before.manifest.None? && after.manifest.None?
             else after.manifest ==
                  if e.Asset() != id then before.manifest
                  else LocalStep(Local(None, false, before.manifest), e).manifest
    ensures after == if e.Asset() == id then LocalStep(before, e) else before
  {
  }

  lemma LifeAdvances(log: Log, id: Id)
    requires log != [] && !Is(log[|log| - 1].event, KDelete, id)
    ensures LifeStart(log, id) < 0 <==>
            LifeStart(log[..|log| - 1], id) < 0 && !Is(log[|log| - 1].event, KCreate, id)
  {
  }

  lemma ManifestAdvances(log: Log, id: Id)
    requires log != [] && !Is(log[|log| - 1].event, KDelete, id)
    requires LifeStart(log[..|log| - 1], id) >= 0
    ensures var e := log[|log| - 1].event;
            var before := Local(None, false, ReadManifest(log[..|log| - 1], id));
            ReadManifest(log, id) == (if e.Asset() == id then LocalStep(before, e).manifest else before.manifest)
  {
    if FirstOf(log[..|log| - 1], KTerminal, id, LifeStart(log[..|log| - 1], id)) >= 0 {
      SettledManifestStays(log, id);
    } else {
      OpenManifestAdvances(log, id);
    }
  }

  lemma LastCreationAdvances(log: Log, id: Id)
    requires log != [] && !Is(log[|log| - 1].event, KDelete, id)
    ensures var e := log[|log| - 1].event;
            ReadCreation(log, id) ==
            if Is(e, KCreate, id) then Some(e.creation) else ReadCreation(log[..|log| - 1], id)
  {
  }

  lemma LifeGoesOn(log: Log, id: Id)
    requires log != [] && !Is(log[|log| - 1].event, KDelete, id)
    requires LifeStart(log[..|log| - 1], id) >= 0
    ensures LifeStart(log, id) == LifeStart(log[..|log| - 1], id)
  {
  }

  lemma ManifestOfNewLife(log: Log, id: Id)
    requires log != [] && !Is(log[|log| - 1].event, KDelete, id)
    requires LifeStart(log[..|log| - 1], id) < 0
    ensures ReadManifest(log, id) == None && ReadManifest(log[..|log| - 1], id) == None
    ensures LifeStart(log, id) >= 0 <==> Is(log[|log| - 1].event, KCreate, id)
  {
  }

  lemma SettledManifestStays(log: Log, id: Id)
    requires log != [] && !Is(log[|log| - 1].event, KDelete, id)
    requires var w := LifeStart(log[..|log| - 1], id);
             w >= 0 && FirstOf(log[..|log| - 1], KTerminal, id, w) >= 0
    ensures ReadManifest(log, id) == ReadManifest(log[..|log| - 1], id)
    ensures ReadManifest(log, id).Some? && ReadManifest(log, id).value.Settled()
  {
    var before := log[..|log| - 1];
    assert LastOf(log, KDelete, id, 0) == LastOf(before, KDelete, id, 0);
    var w := LifeStart(before, id);
    assert LifeStart(log, id) == w;
    var t := FirstOf(before, KTerminal, id, w);
    assert FirstOf(log, KTerminal, id, w) == t;
    assert before[..t] == log[..t];
  }

  lemma OpenManifestAdvances(log: Log, id: Id)
    requires log != [] && !Is(log[|log| - 1].event, KDelete, id)
    requires var w := LifeStart(log[..|log| - 1], id);
             w >= 0 && FirstOf(log[..|log| - 1], KTerminal, id, w) < 0
    ensures var e := log[|log| - 1].event;
            var before := Local(None, false, ReadManifest(log[..|log| - 1], id));
            ReadManifest(log, id) == (if e.Asset() == id then LocalStep(before, e).manifest else before.manifest)
  {
    LifeGoesOn(log, id);
    var before := log[..|log| - 1];
    var w := LifeStart(before, id);
    hide LastOf, FirstOf, LifeStart;
    var e := log[|log| - 1].event;
    if Is(e, KTerminal, id) {
      OutcomeArrives(log, id, w);
    } else {
      NoOutcomeArrives(log, id, w);
    }
  }

  lemma NoOutcomeArrives(log: Log, id: Id, w: nat)
    requires log != [] && !Is(log[|log| - 1].event, KTerminal, id)
    requires LifeStart(log, id) == w && FirstOf(log[..|log| - 1], KTerminal, id, w) < 0 && w < |log|
    ensures var s := LastOf(log[..|log| - 1], KStart, id, w);
            var e := log[|log| - 1].event;
            ReadManifest(log, id) ==
            if Is(e, KStart, id) then Some(Manifest(Some(e), None, None))
            else if s < 0 then None else Some(Manifest(Some(log[s].event), None, None))
  {
  }

  lemma OutcomeArrives(log: Log, id: Id, w: nat)
    requires log != [] && Is(log[|log| - 1].event, KTerminal, id) && LifeStart(log, id) == w
    requires w < |log| && FirstOf(log[..|log| - 1], KTerminal, id, w) < 0
    ensures var s := At(log[..|log| - 1], LastOf(log[..|log| - 1], KStart, id, w));
            var e := log[|log| - 1].event;
            ReadManifest(log, id) ==
            Some(if e.ProcessingSucceeded? then Manifest(s, Some(e), None) else Manifest(s, None, Some(e)))
  {
  }

  /** The incremental fold means what the log says, for every log and every asset. */
  lemma FoldReadsTheLog(log: Log, id: Id)
    requires id != ""
    ensures LocalOf(Fold(log), id) == Reading(log, id)
  {
    FoldIsLocal(log, id);
    LocalFoldIsReading(log, id);
  }
}
