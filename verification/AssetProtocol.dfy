/** Writers fenced on one asset's tail, racing with each other and with unfenced creates and deletes. */
module AssetProtocol {
  import opened Common
  import opened AssetEvents
  import opened AssetView
  import opened AssetHistory

  const MAX_ATTEMPTS := 5

  /** The entry lies under the fence filter `evt.asset.{id}.>`. */
  predicate UnderFence(e: Entry, id: Id) {
    e.lane == Aggregate && e.event.Asset() == id
  }

  /** The stream sequence of the last message under the fence of `id`; zero if there is none. */
  function Tail(log: Log, id: Id): (t: nat)
    ensures t <= |log|
    ensures t > 0 ==> UnderFence(log[t - 1], id)
    ensures forall i {:trigger log[i]} :: t <= i < |log| ==> !UnderFence(log[i], id)
  {
    if log == [] then 0
    else if UnderFence(log[|log| - 1], id) then |log|
    else Tail(log[..|log| - 1], id)
  }

  /** How many entries under the fence of `id` the log holds from this position on. */
  function FenceCount(log: Log, from: nat, id: Id): nat {
    if |log| <= from then 0
    else FenceCount(log[..|log| - 1], from, id) + (if UnderFence(log[|log| - 1], id) then 1 else 0)
  }

  lemma {:induction false} FenceCountGrows(log: Log, n: nat, from: nat, id: Id)
    requires n <= |log|
    ensures FenceCount(log[..n], from, id) <= FenceCount(log, from, id)
  {
    if n < |log| {
      assert log[..|log| - 1][..n] == log[..n];
      FenceCountGrows(log[..|log| - 1], n, from, id);
    } else {
      assert log[..n] == log;
    }
  }

  /** A tail that has moved since it was read has been moved by a further entry under the fence. */
  lemma {:induction false} MovedTailCounts(log: Log, read: nat, from: nat, id: Id)
    requires from <= read <= |log| && Tail(log[..read], id) != Tail(log, id)
    ensures FenceCount(log[..read], from, id) < FenceCount(log, from, id)
  {
    assert log[..|log|] == log;
    if read < |log| {
      var before := log[..|log| - 1];
      assert before[..read] == log[..read];
      if UnderFence(log[|log| - 1], id) {
        FenceCountGrows(before, read, from, id);
      } else {
        MovedTailCounts(before, read, from, id);
      }
    }
  }

  datatype Outcome = Appended(pos: nat) | Skipped | Exhausted | Failed

  /** Where a writer stands in one attempt; the tail it read travels along. */
  datatype Phase =
    | Reading
    | Waiting(tail: nat)
    | CheckingTombstone(tail: nat)
    | CheckingManifest(tail: nat)
    | Publishing(tail: nat)
    | Confirming(pos: nat)
    | Done(outcome: Outcome)

  /** `since` remembers how long the log was when the writer entered, `read` when it last read the tail, or entered. */
  datatype Writer = Writer(replica: nat, entry: Entry, attempt: nat, since: nat, read: nat, phase: Phase)
  {
    function Asset(): Id {
      entry.event.Asset()
    }
  }

  /** One log, many replicas that have applied a prefix of it, many writers.
      Entries before `boot` are the history that every replica folded at startup, legacy lanes included. */
  datatype Cluster = Cluster(boot: nat, log: Log, applied: map<nat, nat>, writers: map<nat, Writer>)
  {
    ghost predicate FreshId(id: Id) {
      && (forall i :: 0 <= i < |log| ==> log[i].eventId != id)
      && (forall w :: w in writers ==> writers[w].entry.eventId != id)
    }

    predicate At(w: nat) {
      w in writers && writers[w].replica in applied
    }

    /** The view a writer reads: the fold of the prefix its replica has applied by now. */
    function SeenBy(w: nat): View
      requires At(w) && applied[writers[w].replica] <= |log|
    {
      Fold(log[..applied[writers[w].replica]])
    }

    function Move(w: nat, phase: Phase): Cluster
      requires w in writers
    {
      this.(writers := writers[w := writers[w].(phase := phase)])
    }

    /** Moves on and remembers that the tail has been read now. */
    function Read(w: nat, phase: Phase): Cluster
      requires w in writers
    {
      this.(writers := writers[w := writers[w].(read := |log|, phase := phase)])
    }
  }

  datatype Action =
    | Unfenced(entry: Entry)
    | Join(replica: nat, prefix: nat)
    | Catch(replica: nat)
    | Enter(writer: nat, state: Writer)
    | ReadTail(writer: nat)
    | EndWait(writer: nat)
    | CheckTombstone(writer: nat)
    | CheckManifest(writer: nat)
    | Publish(writer: nat, acknowledged: bool)
    | Conflict(writer: nat)
    | Confirm(writer: nat)
    | Abort(writer: nat)

  ghost predicate Enabled(c: Cluster, a: Action) {
    && (forall r :: r in c.applied ==> c.applied[r] <= |c.log|)
    && match a
       case Unfenced(e) => e.lane == Aggregate && !e.event.IsProcessing() && c.FreshId(e.eventId)
       case Join(r, n) => r !in c.applied && c.boot <= n <= |c.log|
       case Catch(r) => r in c.applied && c.applied[r] < |c.log|
       case Enter(w, state) =>
         && w !in c.writers && state.replica in c.applied
         && state.entry.lane == Aggregate && state.entry.event.IsProcessing() && state.Asset() != ""
         && state.attempt == 0 && state.phase == Reading && state.since == state.read == |c.log|
         && c.FreshId(state.entry.eventId)
       case ReadTail(w) => c.At(w) && c.writers[w].phase.Reading?
       case EndWait(w) =>
         && c.At(w) && c.writers[w].phase.Waiting?
         && c.writers[w].phase.tail <= c.applied[c.writers[w].replica]
       case CheckTombstone(w) => c.At(w) && c.writers[w].phase.CheckingTombstone?
       case CheckManifest(w) => c.At(w) && c.writers[w].phase.CheckingManifest?
       case Publish(w, _) =>
         c.At(w) && c.writers[w].phase.Publishing? && Tail(c.log, c.writers[w].Asset()) == c.writers[w].phase.tail
       case Conflict(w) =>
         c.At(w) && c.writers[w].phase.Publishing? && Tail(c.log, c.writers[w].Asset()) != c.writers[w].phase.tail
       case Confirm(w) =>
         && c.At(w) && c.writers[w].phase.Confirming?
         && c.writers[w].phase.pos <= c.applied[c.writers[w].replica]
       case Abort(w) => c.At(w) && !c.writers[w].phase.Done?
  }

  /** The effect of one action. The tombstone and the manifest are read at two different moments,
      and an append whose acknowledgement is lost has happened all the same. */
  function After(c: Cluster, a: Action): Cluster
    requires Enabled(c, a)
  {
    match a
    case Unfenced(e) => c.(log := c.log + [e])
    case Join(r, n) => c.(applied := c.applied[r := n])
    case Catch(r) => c.(applied := c.applied[r := c.applied[r] + 1])
    case Enter(w, state) => c.(writers := c.writers[w := state])
    case ReadTail(w) =>
      var t := Tail(c.log, c.writers[w].Asset());
      c.Read(w, if t == 0 then CheckingTombstone(0) else Waiting(t))
    case EndWait(w) => c.Move(w, CheckingTombstone(c.writers[w].phase.tail))
    case CheckTombstone(w) =>
      c.Move(w, if c.writers[w].Asset() in c.SeenBy(w).deleted then Done(Skipped)
                else CheckingManifest(c.writers[w].phase.tail))
    case CheckManifest(w) =>
      var manifest := c.SeenBy(w).ManifestOf(c.writers[w].Asset());
      c.Move(w, if manifest.Some? && manifest.value.Settled() then Done(Skipped)
                else Publishing(c.writers[w].phase.tail))
    case Publish(w, acknowledged) =>
      c.Move(w, if acknowledged then Confirming(|c.log| + 1) else Done(Failed))
       .(log := c.log + [c.writers[w].entry])
    case Conflict(w) =>
      var n := c.writers[w].attempt + 1;
      var phase := if n < MAX_ATTEMPTS then Reading else Done(Exhausted);
      c.(writers := c.writers[w := c.writers[w].(attempt := n, phase := phase)])
    case Confirm(w) => c.Move(w, Done(Appended(c.writers[w].phase.pos)))
    case Abort(w) => c.Move(w, Done(Failed))
  }

  ghost predicate Init(c: Cluster) {
    c.boot == |c.log| && c.applied == map[] && c.writers == map[]
  }

  ghost predicate Next(c: Cluster, d: Cluster) {
    exists a :: Enabled(c, a) && d == After(c, a)
  }

  ghost predicate Behavior(run: seq<Cluster>) {
    && run != [] && Init(run[0])
    && (forall i :: 0 < i < |run| ==> Next(run[i - 1], run[i]))
  }

  // ---- The invariant ----

  /** Every processing entry since boot found its asset open in the exact log before it. */
  ghost predicate Fenced(log: Log, boot: nat) {
    forall i :: boot <= i < |log| && log[i].event.IsProcessing() && log[i].event.Asset() != "" ==>
      LocalFold(log[..i], log[i].event.Asset()).Open()
  }

  ghost predicate Absent(log: Log, id: Id) {
    forall i :: 0 <= i < |log| ==> log[i].eventId != id
  }

  ghost predicate OnlyAt(log: Log, e: Entry, pos: nat) {
    0 < pos <= |log| && log[pos - 1] == e && forall i :: 0 <= i < |log| && i != pos - 1 ==> log[i].eventId != e.eventId
  }

  /** At some moment since the log had this length, the asset had a tombstone or an outcome. */
  ghost predicate ClosedSince(log: Log, from: nat, id: Id) {
    exists k :: from <= k <= |log| && !LocalFold(log[..k], id).Open()
  }

  /** t is the tail that the writer read last, and each conflict before that had an entry under the fence to blame. */
  ghost predicate ReadTailWas(log: Log, w: Writer, t: nat) {
    && w.read <= |log| && Tail(log[..w.read], w.Asset()) == t
    && w.attempt <= FenceCount(log[..w.read], w.since, w.Asset())
  }

  ghost predicate WriterOk(log: Log, applied: nat, w: Writer) {
    && w.entry.lane == Aggregate && w.entry.event.IsProcessing() && w.Asset() != ""
    && (if w.phase.Done? then w.attempt <= MAX_ATTEMPTS else w.attempt < MAX_ATTEMPTS)
    && w.since <= w.read <= |log|
    && match w.phase
       case Reading => Absent(log, w.entry.eventId) && w.attempt <= FenceCount(log, w.since, w.Asset())
       case Waiting(t) => ReadTailWas(log, w, t) && Absent(log, w.entry.eventId)
       case CheckingTombstone(t) => t <= applied && ReadTailWas(log, w, t) && Absent(log, w.entry.eventId)
       case CheckingManifest(t) =>
         && t <= applied && ReadTailWas(log, w, t) && Absent(log, w.entry.eventId)
         && (Tail(log, w.Asset()) == t ==> !LocalFold(log, w.Asset()).deleted)
       case Publishing(t) =>
         && ReadTailWas(log, w, t) && Absent(log, w.entry.eventId)
         && (Tail(log, w.Asset()) == t ==> LocalFold(log, w.Asset()).Open())
       case Confirming(p) => OnlyAt(log, w.entry, p)
       case Done(Appended(p)) => OnlyAt(log, w.entry, p)
       case Done(Skipped) => Absent(log, w.entry.eventId) && ClosedSince(log, w.read, w.Asset())
       case Done(Exhausted) =>
         Absent(log, w.entry.eventId) && MAX_ATTEMPTS <= FenceCount(log, w.since, w.Asset())
       case Done(Failed) => Absent(log, w.entry.eventId) || exists p :: OnlyAt(log, w.entry, p)
  }

  ghost predicate Inv(c: Cluster) {
    && c.boot <= |c.log|
    && (forall i :: c.boot <= i < |c.log| ==> c.log[i].lane == Aggregate)
    && (forall r :: r in c.applied ==> c.boot <= c.applied[r] <= |c.log|)
    && (forall w :: w in c.writers ==> c.At(w) && WriterOk(c.log, c.applied[c.writers[w].replica], c.writers[w]))
    && (forall w, x :: w in c.writers && x in c.writers && w != x ==>
         c.writers[w].entry.eventId != c.writers[x].entry.eventId)
    && Fenced(c.log, c.boot)
  }

  /** A replica at or beyond the tail sees the asset as the whole log has it, as long as the tail still stands. */
  lemma ReplicaIsExact(log: Log, boot: nat, applied: nat, id: Id)
    requires id != "" && boot <= applied <= |log| && Tail(log, id) <= applied
    requires forall i :: boot <= i < |log| ==> log[i].lane == Aggregate
    ensures LocalOf(Fold(log[..applied]), id) == LocalFold(log, id)
  {
    FoldIsLocal(log[..applied], id);
    forall i | applied <= i < |log| ensures log[i].event.Asset() != id {
      assert !UnderFence(log[i], id);
    }
    QuietSuffix(log, id, applied);
  }

  lemma TailOfLongerLog(log: Log, e: Entry, id: Id)
    ensures Tail(log + [e], id) == if UnderFence(e, id) then |log| + 1 else Tail(log, id)
    ensures LocalFold(log + [e], id) ==
            if e.event.Asset() == id then LocalStep(LocalFold(log, id), e.event) else LocalFold(log, id)
  {
  }

  /** A projection past the tail that finds the asset closed: it was closed at or after the reading of the tail. */
  lemma ClosedReading(log: Log, read: nat, applied: nat, id: Id)
    requires id != "" && read <= |log| && applied <= |log| && Tail(log[..read], id) <= applied
    requires forall i :: applied <= i < read ==> log[i].lane == Aggregate
    requires !LocalFold(log[..applied], id).Open()
    ensures ClosedSince(log, read, id)
  {
    if applied < read {
      var known := log[..read];
      assert known[..applied] == log[..applied];
      forall i | applied <= i < read ensures known[i].event.Asset() != id {
        assert !UnderFence(known[i], id);
      }
      QuietSuffix(known, id, applied);
    }
  }

  lemma ClosedSinceStays(log: Log, longer: Log, from: nat, id: Id)
    requires ClosedSince(log, from, id) && log <= longer
    ensures ClosedSince(longer, from, id)
  {
    var k :| from <= k <= |log| && !LocalFold(log[..k], id).Open();
    assert longer[..k] == log[..k];
  }

  /** A longer log and a further replica keep a writer's facts, if the new entry is not its own. */
  lemma WriterSurvivesAppend(log: Log, e: Entry, applied: nat, w: Writer)
    requires WriterOk(log, applied, w) && e.lane == Aggregate && e.eventId != w.entry.eventId
    ensures WriterOk(log + [e], applied, w)
  {
    TailOfLongerLog(log, e, w.Asset());
    assert (log + [e])[..w.read] == log[..w.read];
    assert (log + [e])[..|log|] == log;
    FenceCountGrows(log + [e], |log|, w.since, w.Asset());
    match w.phase
    case Done(Skipped) => ClosedSinceStays(log, log + [e], w.read, w.Asset());
    case Done(Failed) =>
      if !Absent(log, w.entry.eventId) {
        var p :| OnlyAt(log, w.entry, p);
        assert OnlyAt(log + [e], w.entry, p);
      }
    case _ =>
  }

  lemma FencedGrows(log: Log, e: Entry, boot: nat)
    requires Fenced(log, boot)
    requires e.event.IsProcessing() && e.event.Asset() != "" ==> LocalFold(log, e.event.Asset()).Open()
    ensures Fenced(log + [e], boot)
  {
    var longer := log + [e];
    forall i | boot <= i < |longer| && longer[i].event.IsProcessing() && longer[i].event.Asset() != ""
      ensures LocalFold(longer[..i], longer[i].event.Asset()).Open()
    {
      if i < |log| {
        assert longer[..i] == log[..i];
        assert log[i] == longer[i];
      } else {
        assert longer[..i] == log;
      }
    }
  }

  lemma UnfencedKeepsInv(c: Cluster, e: Entry)
    requires Inv(c) && Enabled(c, Unfenced(e))
    ensures Inv(After(c, Unfenced(e)))
  {
    FencedGrows(c.log, e, c.boot);
    forall w | w in c.writers ensures WriterOk(c.log + [e], c.applied[c.writers[w].replica], c.writers[w]) {
      WriterSurvivesAppend(c.log, e, c.applied[c.writers[w].replica], c.writers[w]);
    }
  }

  lemma PublishKeepsInv(c: Cluster, w: nat, acknowledged: bool)
    requires Inv(c) && Enabled(c, Publish(w, acknowledged))
    ensures Inv(After(c, Publish(w, acknowledged)))
  {
    var e := c.writers[w].entry;
    var d := After(c, Publish(w, acknowledged));
    FencedGrows(c.log, e, c.boot);
    assert OnlyAt(d.log, e, |c.log| + 1);
    forall x | x in d.writers
      ensures d.At(x) && WriterOk(d.log, d.applied[d.writers[x].replica], d.writers[x])
    {
      if x != w {
        WriterSurvivesAppend(c.log, e, c.applied[c.writers[x].replica], c.writers[x]);
      }
    }
  }

  /** Steps that only move one writer: the others keep their facts, this one needs its new facts. */
  lemma MoveKeepsInv(c: Cluster, w: nat, next: Writer)
    requires Inv(c) && w in c.writers
    requires next.replica == c.writers[w].replica && next.entry == c.writers[w].entry
    requires WriterOk(c.log, c.applied[next.replica], next)
    ensures Inv(c.(writers := c.writers[w := next]))
  {
  }

  lemma CheckKeepsInv(c: Cluster, w: nat, a: Action)
    requires Inv(c) && (a == CheckTombstone(w) || a == CheckManifest(w)) && Enabled(c, a)
    ensures Inv(After(c, a))
  {
    var writer := c.writers[w];
    var n := c.applied[writer.replica];
    var id := writer.Asset();
    if Tail(c.log, id) == writer.phase.tail {
      ReplicaIsExact(c.log, c.boot, n, id);
    }
    FoldIsLocal(c.log[..n], id);
    assert LocalOf(c.SeenBy(w), id) == LocalFold(c.log[..n], id);
    if !LocalFold(c.log[..n], id).Open() {
      ClosedReading(c.log, writer.read, n, id);
    }
    MoveKeepsInv(c, w, After(c, a).writers[w]);
  }

  lemma JoinKeepsInv(c: Cluster, r: nat, n: nat)
    requires Inv(c) && Enabled(c, Join(r, n))
    ensures Inv(After(c, Join(r, n)))
  {
    assert forall w :: w in c.writers ==> c.At(w) && c.writers[w].replica != r;
  }

  lemma CatchKeepsInv(c: Cluster, r: nat)
    requires Inv(c) && Enabled(c, Catch(r))
    ensures Inv(After(c, Catch(r)))
  {
    var d := After(c, Catch(r));
    forall w | w in d.writers ensures d.At(w) && WriterOk(d.log, d.applied[d.writers[w].replica], d.writers[w]) {
      assert c.At(w) && WriterOk(c.log, c.applied[c.writers[w].replica], c.writers[w]);
    }
  }

  lemma EnterKeepsInv(c: Cluster, w: nat, state: Writer)
    requires Inv(c) && Enabled(c, Enter(w, state))
    ensures Inv(After(c, Enter(w, state)))
  {
    assert WriterOk(c.log, c.applied[state.replica], state);
  }

  /** The actions after which a writer has only moved on in its own attempt. */
  lemma ProgressKeepsInv(c: Cluster, w: nat, a: Action)
    requires Inv(c) && Enabled(c, a)
    requires a == ReadTail(w) || a == EndWait(w) || a == Conflict(w) || a == Confirm(w) || a == Abort(w)
    ensures Inv(After(c, a))
  {
    assert c.log[..|c.log|] == c.log;
    if a == Conflict(w) {
      MovedTailCounts(c.log, c.writers[w].read, c.writers[w].since, c.writers[w].Asset());
    }
    MoveKeepsInv(c, w, After(c, a).writers[w]);
  }

  lemma StepKeepsInv(c: Cluster, a: Action)
    requires Inv(c) && Enabled(c, a)
    ensures Inv(After(c, a))
  {
    match a
    case Unfenced(e) => UnfencedKeepsInv(c, e);
    case Join(r, n) => JoinKeepsInv(c, r, n);
    case Catch(r) => CatchKeepsInv(c, r);
    case Enter(w, state) => EnterKeepsInv(c, w, state);
    case CheckTombstone(w) => CheckKeepsInv(c, w, a);
    case CheckManifest(w) => CheckKeepsInv(c, w, a);
    case Publish(w, acknowledged) => PublishKeepsInv(c, w, acknowledged);
    case ReadTail(w) => ProgressKeepsInv(c, w, a);
    case EndWait(w) => ProgressKeepsInv(c, w, a);
    case Conflict(w) => ProgressKeepsInv(c, w, a);
    case Confirm(w) => ProgressKeepsInv(c, w, a);
    case Abort(w) => ProgressKeepsInv(c, w, a);
  }

  lemma NextKeepsInv(c: Cluster, d: Cluster)
    requires Inv(c) && Next(c, d)
    ensures Inv(d)
  {
    var a :| Enabled(c, a) && d == After(c, a);
    StepKeepsInv(c, a);
  }

  /** The invariant holds in every state of every interleaving. */
  lemma {:induction false} BehaviorKeepsInv(run: seq<Cluster>)
    requires Behavior(run)
    ensures Inv(run[|run| - 1])
  {
    if |run| > 1 {
      var before := run[..|run| - 1];
      assert before[0] == run[0];
      forall i | 0 < i < |before| ensures Next(before[i - 1], before[i]) {
        assert Next(run[i - 1], run[i]);
      }
      BehaviorKeepsInv(before);
      NextKeepsInv(before[|before| - 1], run[|run| - 1]);
    }
  }

  // ---- What the invariant buys ----

  /** The projection has kept exactly this processing fact. */
  ghost predicate Recorded(v: View, e: Event) {
    && e.Asset() in v.manifests
    && match e
       case ProcessingStarted(id, _) => v.manifests[id] == Manifest(Some(e), None, None)
       case ProcessingSucceeded(id, _, _) => v.manifests[id].succeeded == Some(e) && v.manifests[id].failed == None
       case ProcessingFailed(id, _, _) => v.manifests[id].failed == Some(e) && v.manifests[id].succeeded == None
       case _ => false
  }

  /** No fenced processing entry is ever ignored by a replica that applies it. */
  lemma NothingFencedIsIgnored(run: seq<Cluster>, i: nat)
    requires Behavior(run)
    requires var c := run[|run| - 1];
             c.boot <= i < |c.log| && c.log[i].event.IsProcessing() && c.log[i].event.Asset() != ""
    ensures var log := run[|run| - 1].log; Recorded(Fold(log[..i + 1]), log[i].event)
  {
    BehaviorKeepsInv(run);
    var log := run[|run| - 1].log;
    var e := log[i].event;
    assert log[..i + 1][..i] == log[..i];
    FoldIsLocal(log[..i], e.Asset());
    FoldIsConsistent(log[..i]);
    assert LocalOf(Fold(log[..i]), e.Asset()).Open();
    assert Fold(log[..i + 1]) == Step(Fold(log[..i]), e);
  }

  /** An outcome is only undone by a delete. */
  lemma {:induction false} SettledUntilDeleted(log: Log, id: Id, i: nat, j: nat) returns (d: nat)
    requires i <= j <= |log| && LocalFold(log[..i], id).Settled() && !LocalFold(log[..j], id).Settled()
    ensures i <= d < j && Is(log[d].event, KDelete, id)
  {
    var before := log[..j - 1];
    assert log[..j][..j - 1] == before;
    if LocalFold(before, id).Settled() {
      d := j - 1;
    } else {
      d := SettledUntilDeleted(log, id, i, j - 1);
    }
  }

  /** A tombstone is only lifted by a create. */
  lemma {:induction false} DeletedUntilCreated(log: Log, id: Id, i: nat, j: nat) returns (k: nat)
    requires i <= j <= |log| && LocalFold(log[..i], id).deleted && !LocalFold(log[..j], id).deleted
    ensures i <= k < j && Is(log[k].event, KCreate, id)
  {
    var before := log[..j - 1];
    assert log[..j][..j - 1] == before;
    if LocalFold(before, id).deleted {
      k := j - 1;
    } else {
      k := DeletedUntilCreated(log, id, i, j - 1);
    }
  }

  lemma DeletedAndRecreated(log: Log, id: Id, i: nat, j: nat)
    requires i < j < |log| && LocalFold(log[..i + 1], id).Settled() && LocalFold(log[..j], id).Open()
    ensures exists d, k :: i < d < k < j && Is(log[d].event, KDelete, id) && Is(log[k].event, KCreate, id)
  {
    var d := SettledUntilDeleted(log, id, i + 1, j);
    assert log[..d + 1][..d] == log[..d];
    var k := DeletedUntilCreated(log, id, d + 1, j);
  }

  /** An outcome that found its asset open settles it. */
  lemma OutcomeSettles(log: Log, id: Id, i: nat)
    requires i < |log| && Is(log[i].event, KTerminal, id) && LocalFold(log[..i], id).Open()
    ensures LocalFold(log[..i + 1], id).Settled()
  {
    assert log[..i + 1][..i] == log[..i];
  }

  /** Between an outcome that counts, be it recorded before the replicas started or after, and a later outcome of the
      same asset the log holds a delete and, after it, a create. */
  lemma FirstOutcomeWins(run: seq<Cluster>, i: nat, j: nat, id: Id)
    requires Behavior(run) && id != ""
    requires var c := run[|run| - 1];
             && i < j < |c.log| && c.boot <= j && Is(c.log[j].event, KTerminal, id)
             && (LocalFold(c.log[..i + 1], id).Settled() || (c.boot <= i && Is(c.log[i].event, KTerminal, id)))
    ensures var log := run[|run| - 1].log;
            exists d, k :: i < d < k < j && Is(log[d].event, KDelete, id) && Is(log[k].event, KCreate, id)
  {
    var c := run[|run| - 1];
    BehaviorKeepsInv(run);
    if c.boot <= i && Is(c.log[i].event, KTerminal, id) {
      OutcomeSettles(c.log, id, i);
    }
    DeletedAndRecreated(c.log, id, i, j);
  }

  /** What a writer reports is true of the log: an appended event is there once, a skipped or exhausted one is not,
      and a skip happened because the asset was closed at some moment since this very attempt read the tail;
      a writer gives up only after as many further entries under the fence as there are attempts. */
  lemma OutcomesAreTrue(run: seq<Cluster>, w: nat)
    requires Behavior(run) && w in run[|run| - 1].writers
    ensures var c := run[|run| - 1]; var writer := c.writers[w];
            && writer.attempt <= 5
            && (writer.phase.Done? ==>
                 match writer.phase.outcome
                 case Appended(p) => OnlyAt(c.log, writer.entry, p)
                 case Skipped => Absent(c.log, writer.entry.eventId) && ClosedSince(c.log, writer.read, writer.Asset())
                 case Exhausted =>
                   && Absent(c.log, writer.entry.eventId)
                   && 5 <= FenceCount(c.log, writer.since, writer.Asset())
                 case Failed => Absent(c.log, writer.entry.eventId) || exists p :: OnlyAt(c.log, writer.entry, p))
  {
    BehaviorKeepsInv(run);
  }

  /** A sequence of steps from one state to another. */
  ghost predicate Leads(run: seq<Cluster>, c: Cluster, d: Cluster) {
    run != [] && run[0] == c && run[|run| - 1] == d && forall i :: 0 < i < |run| ==> Next(run[i - 1], run[i])
  }

  lemma LeadsOn(run: seq<Cluster>, c: Cluster, d: Cluster, a: Action)
    requires Leads(run, c, d) && Enabled(d, a)
    ensures Leads(run + [After(d, a)], c, After(d, a))
  {
  }

  /** A replica can always catch up, and nothing else changes. */
  lemma {:induction false} ReplicaCatchesUp(c: Cluster, r: nat) returns (run: seq<Cluster>, d: Cluster)
    requires Inv(c) && r in c.applied
    ensures Leads(run, c, d) && Inv(d) && d == c.(applied := c.applied[r := |c.log|])
    decreases |c.log| - c.applied[r]
  {
    if c.applied[r] == |c.log| {
      run, d := [c], c;
      assert c.applied[r := |c.log|] == c.applied;
    } else {
      var next := After(c, Catch(r));
      StepKeepsInv(c, Catch(r));
      run, d := ReplicaCatchesUp(next, r);
      assert next.applied[r := |c.log|] == c.applied[r := |c.log|];
      LeadsFrom(run, c, next, d);
      run := [c] + run;
    }
  }

  lemma LeadsFrom(run: seq<Cluster>, c: Cluster, next: Cluster, d: Cluster)
    requires Leads(run, next, d) && Next(c, next)
    ensures Leads([c] + run, c, d)
  {
  }

  lemma TailIsWaitedFor(start: seq<Cluster>, b: Cluster, c: Cluster, w: nat) returns (run: seq<Cluster>, d: Cluster)
    requires Leads(start, b, c)
    requires Inv(c) && c.At(w) && c.writers[w].phase == Reading && c.applied[c.writers[w].replica] == |c.log|
    ensures Leads(run, b, d) && d == c.Read(w, CheckingTombstone(Tail(c.log, c.writers[w].Asset())))
  {
    hide Tail, Inv, Leads;
    BoundsFromInv(c);
    LeadsOn(start, b, c, ReadTail(w));
    d := After(c, ReadTail(w));
    run := start + [d];
    if d.writers[w].phase.Waiting? {
      LeadsOn(run, b, d, EndWait(w));
      d := After(d, EndWait(w));
      run := run + [d];
    }
  }

  /** A writer whose replica is up to date and whose asset is open is allowed to publish. */
  lemma OpenAssetIsPublishable(start: seq<Cluster>, b: Cluster, c: Cluster, w: nat)
    returns (run: seq<Cluster>, d: Cluster)
    requires Leads(start, b, c)
    requires Inv(c) && c.At(w) && c.writers[w].phase == Reading && c.applied[c.writers[w].replica] == |c.log|
    requires LocalFold(c.log, c.writers[w].Asset()).Open()
    ensures Leads(run, b, d) && d == c.Read(w, Publishing(Tail(c.log, c.writers[w].Asset())))
  {
    hide Fold, Tail, LocalFold, Inv, Leads;
    BoundsFromInv(c);
    assert c.log[..|c.log|] == c.log;
    FoldIsLocal(c.log, c.writers[w].Asset());
    run, d := TailIsWaitedFor(start, b, c, w);
    LeadsOn(run, b, d, CheckTombstone(w));
    d := After(d, CheckTombstone(w));
    run := run + [d];
    LeadsOn(run, b, d, CheckManifest(w));
    d := After(d, CheckManifest(w));
    run := run + [d];
  }

  lemma PublishableIsAppended(start: seq<Cluster>, b: Cluster, c: Cluster, w: nat)
    returns (run: seq<Cluster>, d: Cluster)
    requires Leads(start, b, c) && c.At(w) && c.writers[w].phase == Publishing(Tail(c.log, c.writers[w].Asset()))
    requires c.applied[c.writers[w].replica] == |c.log| && forall r :: r in c.applied ==> c.applied[r] <= |c.log|
    ensures Leads(run, b, d) && d.log == c.log + [c.writers[w].entry]
    ensures w in d.writers && d.writers[w].phase == Done(Appended(|c.log| + 1))
  {
    hide Fold, Tail, LocalFold, Inv, Leads;
    LeadsOn(start, b, c, Publish(w, true));
    d := After(c, Publish(w, true));
    run := start + [d];
    LeadsOn(run, b, d, Catch(c.writers[w].replica));
    d := After(d, Catch(c.writers[w].replica));
    run := run + [d];
    LeadsOn(run, b, d, Confirm(w));
    d := After(d, Confirm(w));
    run := run + [d];
  }

  lemma BoundsFromInv(c: Cluster)
    requires Inv(c)
    ensures forall r :: r in c.applied ==> c.applied[r] <= |c.log|
    ensures forall w :: w in c.writers ==> c.writers[w].Asset() != ""
  {
  }

  /** The protocol is not blocked: a writer that starts an attempt on an open asset, however far its replica lags,
      can append its event and report it. */
  lemma OpenAssetCanBeAppendedTo(c: Cluster, w: nat) returns (run: seq<Cluster>, d: Cluster)
    requires Inv(c) && w in c.writers && c.writers[w].phase == Reading
    requires LocalFold(c.log, c.writers[w].Asset()).Open()
    ensures Leads(run, c, d) && d.log == c.log + [c.writers[w].entry]
    ensures w in d.writers && d.writers[w].phase == Done(Appended(|c.log| + 1))
  {
    WritersAreAt(c, w);
    hide Fold, Tail, LocalFold, Inv, Leads;
    run, d := ReplicaCatchesUp(c, c.writers[w].replica);
    BoundsFromInv(d);
    run, d := OpenAssetIsPublishable(run, c, d, w);
    run, d := PublishableIsAppended(run, c, d, w);
  }

  lemma WritersAreAt(c: Cluster, w: nat)
    requires Inv(c) && w in c.writers
    ensures c.At(w)
  {
  }

  /** An outcome on a room lane closes an open asset and moves no fence. */
  lemma LegacyOutcomeEscapesFence(log: Log, e: Entry, id: Id)
    requires e.lane == LegacyRoom && Is(e.event, KTerminal, id) && LocalFold(log, id).Open()
    ensures !LocalFold(log + [e], id).Open() && Tail(log + [e], id) == Tail(log, id)
  {
    TailOfLongerLog(log, e, id);
  }

  /** The assumption on legacy lanes is needed: if such an outcome slips in before a writer that may publish, the writer
      still may, and its entry then finds the asset closed. */
  lemma LegacyOutcomeBreaksFence(c: Cluster, w: nat, e: Entry, acknowledged: bool)
    requires Inv(c) && Enabled(c, Publish(w, acknowledged))
    requires e.lane == LegacyRoom && Is(e.event, KTerminal, c.writers[w].Asset())
    ensures var d := c.(log := c.log + [e]);
            Enabled(d, Publish(w, acknowledged)) && !Fenced(After(d, Publish(w, acknowledged)).log, c.boot)
  {
    var id := c.writers[w].Asset();
    LegacyOutcomeEscapesFence(c.log, e, id);
    var d := c.(log := c.log + [e]);
    var longer := After(d, Publish(w, acknowledged)).log;
    assert longer[..|c.log| + 1] == c.log + [e];
    assert longer[|c.log| + 1] == c.writers[w].entry;
  }
}
