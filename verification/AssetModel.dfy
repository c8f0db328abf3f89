/** The asset model: fenced appends with retries, outcome recording with cleanup, ordered deletion. */
module AssetModel {
  import opened Common
  import opened AssetEvents
  import opened AssetView
  import opened AssetHistory
  import opened AssetGraph
  import opened AssetCollection
  import opened AssetDeletion
  import opened AssetProjection
  import opened AssetProtocol
  import opened AssetReplay
  import opened AssetTurns
  import opened AssetOutputs
  import opened ReplayGuard

  class EventStream {
    var entries: Log
  }

  /** Feeds the stream to one projection, in order. */
  class Projector {
    const stream: EventStream
    const projection: Projection
    const boot: nat
    var lastSeq: nat

    ghost predicate Valid()
      reads this, stream, projection, projection.guard
    {
      && boot <= lastSeq <= |stream.entries|
      && (forall i :: boot <= i < |stream.entries| ==> stream.entries[i].lane == Aggregate)
      && projection.Contents() == Fold(stream.entries[..lastSeq])
      && projection.guard.Value().complete && !projection.guard.Value().compatible
      && projection.guard.Value().highest <= lastSeq
    }

    constructor (stream: EventStream, projection: Projection)
      requires projection.Contents() == Fold(stream.entries)
      requires projection.guard.Value().complete && !projection.guard.Value().compatible
      requires projection.guard.Value().highest <= |stream.entries|
      ensures Valid() && this.stream == stream && this.projection == projection
      ensures boot == lastSeq == |stream.entries|
    {
      this.stream, this.projection := stream, projection;
      boot, lastSeq := |stream.entries|, |stream.entries|;
      new;
      assert stream.entries[..lastSeq] == stream.entries;
    }

    method CatchUp(target: nat)
      requires Valid() && target <= |stream.entries|
      modifies this, projection, projection.guard
      ensures Valid() && lastSeq >= target && lastSeq >= old(lastSeq)
      ensures lastSeq <= target || lastSeq == old(lastSeq)
    {
      while lastSeq < target
        invariant Valid() && lastSeq >= old(lastSeq)
        invariant lastSeq <= target || lastSeq == old(lastSeq)
      {
        var entry := stream.entries[lastSeq];
        assert stream.entries[..lastSeq + 1][..lastSeq] == stream.entries[..lastSeq];
        projection.Apply(Delivery(entry, lastSeq + 1));
        lastSeq := lastSeq + 1;
      }
    }
  }

  /** Startup: a new projection replays the stream, and its projector takes over from there. */
  method StartProjector(stream: EventStream) returns (projector: Projector)
    requires OwnIds(stream.entries)
    ensures fresh(projector) && projector.Valid() && projector.stream == stream
    ensures projector.boot == projector.lastSeq == |stream.entries|
  {
    var projection := ReplayLog(stream.entries);
    projector := new Projector(stream, projection);
  }

  /** While the fence has not moved, nothing about the asset has changed. */
  lemma StandingTailPins(log: Log, longer: Log, id: Id)
    requires id != "" && log <= longer && Tail(longer, id) <= |log|
    requires forall i :: |log| <= i < |longer| ==> longer[i].lane == Aggregate
    ensures Tail(longer, id) == Tail(log, id)
    ensures LocalFold(longer, id) == LocalFold(log, id)
  {
    assert longer[..|log|] == log;
    forall i | |log| <= i < |longer| ensures longer[i].event.Asset() != id {
      assert !UnderFence(longer[i], id);
    }
    QuietSuffix(longer, id, |log|);
    TailOfPrefix(longer, id, |log|);
  }

  lemma TailOfPrefix(log: Log, id: Id, k: nat)
    requires Tail(log, id) <= k <= |log|
    ensures Tail(log[..k], id) == Tail(log, id)
  {
  }

  /** The entry was written after `from` at this position, and its asset was open in the exact log before it. */
  ghost predicate WrittenOpen(log: Log, from: nat, pos: nat, entry: Entry) {
    from < pos <= |log| && log[pos - 1] == entry && LocalFold(log[..pos - 1], entry.event.Asset()).Open()
  }

  /** The entry was written after `from`, at a moment when its asset was open. */
  ghost predicate WrittenSince(log: Log, from: nat, entry: Entry) {
    exists pos :: WrittenOpen(log, from, pos, entry)
  }

  lemma WrittenInPrefix(log: Log, from: nat, pos: nat, upto: nat, entry: Entry)
    requires WrittenOpen(log, from, pos, entry) && pos <= upto <= |log|
    ensures WrittenSince(log[..upto], from, entry)
  {
    assert log[..upto][..pos - 1] == log[..pos - 1];
    assert WrittenOpen(log[..upto], from, pos, entry);
  }

  /** The decision to append: valid for as long as the tail still stands. */
  ghost predicate Decided(log: Log, id: Id, tail: nat) {
    tail <= |log| && (Tail(log, id) == tail ==> LocalFold(log, id).Open())
  }

  /** The tail was read at some moment since the log had length `from`. */
  ghost predicate WasRead(log: Log, from: nat, id: Id, tail: nat) {
    exists read :: from <= read <= |log| && WasReadAt(log, read, id, tail)
  }

  ghost predicate WasReadAt(log: Log, read: nat, id: Id, tail: nat)
    requires read <= |log|
  {
    Tail(log[..read], id) == tail
  }

  /** A conflict means that somebody else has written under the fence during the attempt. */
  lemma ConflictCounts(before: Log, decided: Log, now: Log, from: nat, id: Id, tail: nat)
    requires from <= |before| && before <= decided <= now
    requires WasRead(decided, |before|, id, tail) && Tail(now, id) != tail
    ensures FenceCount(before, from, id) < FenceCount(now, from, id)
  {
    var read :| |before| <= read <= |decided| && WasReadAt(decided, read, id, tail);
    assert now[..read] == decided[..read] && decided[..read][..|before|] == before;
    FenceCountGrows(now[..read], |before|, from, id);
    MovedTailCounts(now, read, from, id);
  }

  lemma DecisionHolds(decided: Log, written: Log, id: Id, tail: nat, pos: nat, entry: Entry)
    requires Decided(decided, id, tail) && decided <= written && id == entry.event.Asset() && id != ""
    requires forall i :: |decided| <= i < |written| ==> written[i].lane == Aggregate
    requires |decided| < pos <= |written| && written[pos - 1] == entry && Tail(written[..pos - 1], id) == tail
    ensures WrittenOpen(written, |decided|, pos, entry)
  {
    StandingTailPins(decided, written[..pos - 1], id);
  }

  lemma WrittenStays(written: Log, longer: Log, from: nat, pos: nat, entry: Entry)
    requires WrittenOpen(written, from, pos, entry) && written <= longer
    ensures WrittenOpen(longer, from, pos, entry)
  {
    assert longer[..pos - 1] == written[..pos - 1];
  }

  class Model {
    const stream: EventStream
    const projector: Projector
    var turns: seq<Turn>

    ghost predicate Valid()
      reads this, stream, projector, projector.projection, projector.projection.guard
    {
      projector.stream == stream && projector.Valid()
    }

    ghost function Now(): Moment
      reads this, stream
    {
      Moment(stream.entries, turns)
    }

    constructor (stream: EventStream, projector: Projector, turns: seq<Turn>)
      requires projector.stream == stream && projector.Valid()
      ensures Valid() && this.stream == stream && this.projector == projector && this.turns == turns
    {
      this.stream, this.projector, this.turns := stream, projector, turns;
    }

    /** An I/O point: the next turn of the world happens here. */
    method Pause() returns (cancelled: bool)
      requires Valid()
      modifies this, stream, projector, projector.projection, projector.projection.guard
      ensures Valid()
      ensures old(stream.entries) <= stream.entries && old(projector.lastSeq) <= projector.lastSeq
      ensures Cancellations(turns) + (if cancelled then 1 else 0) == Cancellations(old(turns))
      ensures Wrote(old(Now()), Now(), multiset{}) && |turns| <= |old(turns)| <= |turns| + 1
      ensures Sparing(old(turns)) ==> Sparing(turns) && NoDeletes(stream.entries, |old(stream.entries)|)
      ensures old(turns) == [] ==>
                && turns == [] && stream.entries == old(stream.entries)
                && projector.lastSeq == old(projector.lastSeq)
                && projector.projection.Contents() == old(projector.projection.Contents())
    {
      hide Wrote, Fold;
      if turns == [] {
        WroteNothing(Now());
        return false;
      }
      TurnTaken(stream.entries, turns);
      var t := turns[0];
      turns := turns[1..];
      ghost var before := stream.entries;
      stream.entries := stream.entries + t.appends;
      assert stream.entries[..projector.lastSeq] == before[..projector.lastSeq];
      var target := projector.lastSeq + t.catchUp;
      projector.CatchUp(if target <= |stream.entries| then target else |stream.entries|);
      cancelled := t.cancelled;
    }

    /** Waits until the projection has applied this position. */
    method WaitForAssets(pos: nat) returns (cancelled: bool)
      requires Valid() && pos <= |stream.entries|
      modifies this, stream, projector, projector.projection, projector.projection.guard
      ensures Valid()
      ensures old(stream.entries) <= stream.entries && old(projector.lastSeq) <= projector.lastSeq
      ensures Cancellations(turns) + (if cancelled then 1 else 0) == Cancellations(old(turns))
      ensures Wrote(old(Now()), Now(), multiset{}) && |turns| <= |old(turns)| <= |turns| + 1
      ensures !cancelled ==> pos <= projector.lastSeq
      ensures Sparing(old(turns)) ==> Sparing(turns) && NoDeletes(stream.entries, |old(stream.entries)|)
      ensures old(turns) == [] ==>
                && turns == [] && stream.entries == old(stream.entries)
                && projector.lastSeq == if pos <= old(projector.lastSeq) then old(projector.lastSeq) else pos
    {
      cancelled := Pause();
      if !cancelled {
        projector.CatchUp(pos);
      }
    }

    /** Appends if the last message under the asset's fence is still the expected one. A call that is cut off reports an
        error, whether its entry has arrived or not. */
    method AppendAtFilter(entry: Entry, id: Id, expected: nat) returns (r: Result<nat, Error>)
      requires Valid() && entry.lane == Aggregate
      modifies this, stream, projector, projector.projection, projector.projection.guard
      ensures Valid()
      ensures old(stream.entries) <= stream.entries && old(projector.lastSeq) <= projector.lastSeq
      ensures Cancellations(turns) + (if r == Err(Cancelled) then 1 else 0) == Cancellations(old(turns))
      ensures WroteFor(old(Now()), Now(), entry, r) && |turns| <= |old(turns)| <= |turns| + 1
      ensures r.Ok? ==>
                && |old(stream.entries)| < r.value == |stream.entries|
                && stream.entries[r.value - 1] == entry
                && Tail(stream.entries[..r.value - 1], id) == expected
      ensures r.Err? ==> r.error == Cancelled || r.error == TailConflict
      ensures r == Err(TailConflict) ==> Tail(stream.entries, id) != expected
      ensures old(turns) == [] ==>
                && turns == [] && projector.lastSeq == old(projector.lastSeq)
                && (r.Ok? <==> Tail(old(stream.entries), id) == expected)
                && stream.entries == if r.Ok? then old(stream.entries) + [entry] else old(stream.entries)
    {
      hide Wrote, Cancellations, Coming, Tail, Fold, Step;
      ghost var begun := Now();
      var cancelled := Pause();
      var arrived: bool := *;
      if cancelled && !arrived {
        return Err(Cancelled);
      }
      if Tail(stream.entries, id) != expected {
        return Err(if cancelled then Cancelled else TailConflict);
      }
      ghost var before := Now();
      Write(entry);
      WroteBoth(begun, before, Now(), multiset{}, multiset{entry});
      assert stream.entries[..|stream.entries| - 1] == before.log;
      r := if cancelled then Err(Cancelled) else Ok(|stream.entries|);
    }

    method Write(entry: Entry)
      requires Valid() && entry.lane == Aggregate
      modifies stream
      ensures Valid() && stream.entries == old(stream.entries) + [entry]
      ensures Wrote(old(Now()), Now(), multiset{entry})
    {
      EntryWritten(stream.entries, turns, entry);
      stream.entries := stream.entries + [entry];
      assert stream.entries[..projector.lastSeq] == old(stream.entries)[..projector.lastSeq];
    }

    /** The decision, from two separate reads of the projection that may be at different prefixes. The tail was read
        when the log had length `read`. */
    method ShouldAppendAssetProcessingEvent(id: Id, event: Event, ghost read: nat) returns (should: bool)
      requires Valid() && id != "" && event.IsProcessing()
      requires projector.boot <= read <= |stream.entries|
      modifies this, stream, projector, projector.projection, projector.projection.guard
      ensures Valid()
      ensures old(stream.entries) <= stream.entries && old(projector.lastSeq) <= projector.lastSeq
      ensures Cancellations(turns) <= Cancellations(old(turns)) && Wrote(old(Now()), Now(), multiset{})
      ensures |turns| <= |old(turns)| <= |turns| + 1
      ensures should && Tail(stream.entries, id) <= old(projector.lastSeq) ==> LocalFold(stream.entries, id).Open()
      ensures !should && Tail(old(stream.entries)[..read], id) <= old(projector.lastSeq) ==>
                ClosedSince(stream.entries, read, id)
      ensures old(turns) == [] ==>
                && turns == [] && stream.entries == old(stream.entries) && projector.lastSeq == old(projector.lastSeq)
                && (Tail(stream.entries, id) <= projector.lastSeq ==> should == LocalFold(stream.entries, id).Open())
    {
      hide Fold, LocalFold, Tail, ClosedSince, Wrote, Cancellations;
      WroteNothing(Now());
      ghost var first := stream.entries;
      ghost var applied := projector.lastSeq;
      FoldIsLocal(first[..applied], id);
      if projector.projection.AssetDeleted(id) {
        assert !LocalFold(first[..applied], id).Open();
        if Tail(first[..read], id) <= applied {
          ClosedReading(first, read, applied, id);
        }
        if Tail(first, id) <= applied {
          ReplicaIsExact(first, projector.boot, applied, id);
        }
        return false;
      }
      if Tail(first, id) <= applied {
        ReplicaIsExact(first, projector.boot, applied, id);
      }
      var _ := Pause();
      ghost var second := stream.entries;
      FoldIsLocal(second[..projector.lastSeq], id);
      var manifest := projector.projection.VideoAttachmentManifest(id);
      if manifest.Some? && manifest.value.Settled() {
        assert !LocalFold(second[..projector.lastSeq], id).Open();
        if Tail(first[..read], id) <= applied {
          assert second[..read] == first[..read];
          ClosedReading(second, read, projector.lastSeq, id);
        }
        if Tail(second, id) <= projector.lastSeq {
          ReplicaIsExact(second, projector.boot, projector.lastSeq, id);
        }
        return false;
      }
      if Tail(second, id) <= applied {
        StandingTailPins(first, second, id);
        ReplicaIsExact(second, projector.boot, projector.lastSeq, id);
      }
      should := true;
    }

    /** The first half of an attempt: read the tail, wait for it, decide. */
    method ReadAndDecide(id: Id, entry: Entry) returns (tail: Result<nat, Error>)
      requires Valid() && entry.event.IsProcessing() && id != ""
      modifies this, stream, projector, projector.projection, projector.projection.guard
      ensures Valid() && old(stream.entries) <= stream.entries
      ensures Cancellations(turns) + (if tail == Err(Cancelled) then 1 else 0) <= Cancellations(old(turns))
      ensures Wrote(old(Now()), Now(), multiset{}) && |turns| <= |old(turns)| <= |turns| + 3
      ensures tail.Ok? ==> Decided(stream.entries, id, tail.value)
      ensures tail.Ok? ==> WasRead(stream.entries, |old(stream.entries)|, id, tail.value)
      ensures tail == Err(LifecycleSkipped) ==> ClosedSince(stream.entries, |old(stream.entries)|, id)
      ensures tail.Err? ==> tail.error == Cancelled || tail.error == LifecycleSkipped
      ensures old(turns) == [] ==>
                && turns == [] && stream.entries == old(stream.entries)
                && tail == if LocalFold(stream.entries, id).Open()
                           then Ok(Tail(stream.entries, id)) else Err(LifecycleSkipped)
    {
      hide Tail, LocalFold, Fold, ClosedSince, Cancellations, Wrote;
      ghost var start := Now();
      var seen, read := ReadTail(id);
      if seen.Err? {
        return seen;
      }
      ghost var waited := Now();
      var should := ShouldAppendAssetProcessingEvent(id, entry.event, read);
      WroteBoth(start, waited, Now(), multiset{}, multiset{});
      assert stream.entries[..read] == waited.log[..read];
      if !should {
        ClosedEarlier(stream.entries, |start.log|, read, id);
        return Err(LifecycleSkipped);
      }
      assert WasReadAt(stream.entries, read, id, seen.value);
      tail := seen;
    }

    /** Reads the tail, when the log had length `read`, and waits until the projection has applied it. */
    method ReadTail(id: Id) returns (tail: Result<nat, Error>, ghost read: nat)
      requires Valid() && id != ""
      modifies this, stream, projector, projector.projection, projector.projection.guard
      ensures Valid() && old(stream.entries) <= stream.entries && |old(stream.entries)| <= read <= |stream.entries|
      ensures Cancellations(turns) + (if tail == Err(Cancelled) then 1 else 0) == Cancellations(old(turns))
      ensures Wrote(old(Now()), Now(), multiset{}) && |turns| <= |old(turns)| <= |turns| + 2
      ensures tail.Ok? ==> tail.value <= projector.lastSeq && WasReadAt(stream.entries, read, id, tail.value)
      ensures tail.Err? ==> tail.error == Cancelled
      ensures old(turns) == [] ==>
                turns == [] && stream.entries == old(stream.entries) && tail == Ok(Tail(stream.entries, id))
    {
      hide Tail, Fold, Wrote;
      ghost var start := Now();
      var cancelled := Pause();
      ghost var paused := Now();
      read := |stream.entries|;
      if cancelled {
        return Err(Cancelled), read;
      }
      var seen := Tail(stream.entries, id);
      if seen != 0 {
        cancelled := WaitForAssets(seen);
        WroteBoth(start, paused, Now(), multiset{}, multiset{});
      }
      assert stream.entries[..read] == paused.log;
      tail := if cancelled then Err(Cancelled) else Ok(seen);
    }

    /** The second half: append at the tail the decision was taken for, and wait for the own entry. */
    method AppendAndWait(id: Id, entry: Entry, tail: nat) returns (r: Result<nat, Error>)
      requires Valid() && entry.lane == Aggregate && entry.event.Asset() == id != ""
      requires Decided(stream.entries, id, tail)
      modifies this, stream, projector, projector.projection, projector.projection.guard
      ensures Valid() && old(stream.entries) <= stream.entries
      ensures Cancellations(turns) + (if r == Err(Cancelled) then 1 else 0) == Cancellations(old(turns))
      ensures WroteFor(old(Now()), Now(), entry, r)
      ensures |turns| <= |old(turns)| <= |turns| + if r == Err(TailConflict) then 1 else 2
      ensures r.Ok? ==>
                r.value <= projector.lastSeq && WrittenOpen(stream.entries, |old(stream.entries)|, r.value, entry)
      ensures r.Err? ==> r.error == Cancelled || r.error == TailConflict
      ensures r == Err(TailConflict) ==> Tail(stream.entries, id) != tail
      ensures old(turns) == [] && Tail(old(stream.entries), id) == tail ==>
                r.Ok? && stream.entries == old(stream.entries) + [entry]
    {
      assert turns == [] ==> Cancellations(turns) == 0;
      hide Tail, LocalFold, Fold, Decided, WrittenOpen, Cancellations, Wrote, WroteFor;
      ghost var decided := stream.entries;
      ghost var begun := Now();
      WroteNothing(begun);
      r := AppendAtFilter(entry, id, tail);
      ghost var appended := Now();
      if r.Err? {
        return;
      }
      var pos := r.value;
      ghost var written := stream.entries;
      DecisionHolds(decided, written, id, tail, pos, entry);
      var cancelled := WaitForAssets(pos);
      WroteForLonger(begun, begun, appended, Now(), entry, r, if cancelled then Err(Cancelled) else r);
      if cancelled {
        return Err(Cancelled);
      }
      WrittenStays(written, stream.entries, |decided|, pos, entry);
    }

    /** The fenced append: a conflict starts over, five times at most. */
    method AppendAssetProcessingEvent(id: Id, entry: Entry) returns (r: Result<nat, Error>)
      requires Valid() && entry.lane == Aggregate && entry.event.IsProcessing() && entry.event.Asset() == id
      modifies this, stream, projector, projector.projection, projector.projection.guard
      ensures Valid() && old(stream.entries) <= stream.entries
      ensures Cancellations(turns) + (if r == Err(Cancelled) then 1 else 0) <= Cancellations(old(turns))
      ensures WroteFor(old(Now()), Now(), entry, r) && |old(turns)| <= |turns| + 21
      ensures r.Ok? ==>
                r.value <= projector.lastSeq && WrittenOpen(stream.entries, |old(stream.entries)|, r.value, entry)
      ensures r == Err(LifecycleSkipped) ==> ClosedSince(stream.entries, |old(stream.entries)|, id)
      ensures r == Err(TailConflict) ==> 5 <= FenceCount(stream.entries, |old(stream.entries)|, id)
      ensures Calm(old(turns)) && id != "" && FenceCount(stream.entries, |old(stream.entries)|, id) < 5 ==>
                r.Ok? || r == Err(LifecycleSkipped)
      ensures r == Err(Invalid) <==> id == ""
      ensures r == Err(Invalid) ==> Now() == old(Now())
      ensures old(turns) == [] && id != "" ==>
                if LocalFold(old(stream.entries), id).Open()
                then r.Ok? && stream.entries == old(stream.entries) + [entry]
                else r == Err(LifecycleSkipped) && stream.entries == old(stream.entries)
    {
      hide Cancellations, ClosedSince, WasRead, FenceCount, Decided, Tail, LocalFold, Fold, Wrote, WroteFor;
      ghost var begun := Now();
      WroteNothing(begun);
      Refused(begun, begun, entry, Err(Invalid));
      if id == "" {
        return Err(Invalid);
      }
      for attempt := 0 to MAX_ATTEMPTS
        invariant Valid() && old(stream.entries) <= stream.entries && Wrote(begun, Now(), multiset{})
        invariant Cancellations(turns) <= Cancellations(old(turns)) && |old(turns)| <= |turns| + 4 * attempt
        invariant old(turns) == [] ==> attempt == 0 && turns == [] && stream.entries == old(stream.entries)
        invariant attempt <= FenceCount(stream.entries, |old(stream.entries)|, id)
      {
        ghost var before := Now();
        var tail := ReadAndDecide(id, entry);
        ghost var decided := Now();
        WroteBoth(begun, before, decided, multiset{}, multiset{});
        if tail.Err? {
          if tail.error == LifecycleSkipped {
            ClosedEarlier(stream.entries, |old(stream.entries)|, |before.log|, id);
          }
          Refused(begun, decided, entry, tail);
          return tail;
        }
        r := AppendAndWait(id, entry, tail.value);
        WroteNothing(Now());
        WroteForLonger(begun, decided, Now(), Now(), entry, r, r);
        if r != Err(TailConflict) {
          return;
        }
        WasRefused(begun, Now(), entry, r);
        ConflictCounts(before.log, decided.log, stream.entries, |old(stream.entries)|, id, tail.value);
      }
      Refused(begun, Now(), entry, Err(TailConflict));
      r := Err(TailConflict);
    }

    /** Room, actor and asset are named, and the room is the asset's own if the projection knows one. */
    predicate MayPublish(actorId: Id, roomId: Id, id: Id)
      reads this, projector, projector.projection
    {
      var room := projector.projection.Contents().RoomOf(id);
      actorId != "" && roomId != "" && id != "" && (room == "" || room == roomId)
    }

    /** The fenced append behind its checks: without interference it writes exactly if the asset is open. */
    method PublishAssetProcessing(roomId: Id, entry: Entry) returns (r: Result<nat, Error>)
      requires Valid() && entry.lane == Aggregate && entry.event.IsProcessing()
      modifies this, stream, projector, projector.projection, projector.projection.guard
      ensures Valid() && old(stream.entries) <= stream.entries
      ensures Cancellations(turns) + (if r == Err(Cancelled) then 1 else 0) <= Cancellations(old(turns))
      ensures WroteFor(old(Now()), Now(), entry, r)
      ensures r.Ok? ==>
                r.value <= projector.lastSeq && WrittenOpen(stream.entries, |old(stream.entries)|, r.value, entry)
      ensures r == Err(TailConflict) ==>
                5 <= FenceCount(stream.entries, |old(stream.entries)|, entry.event.Asset())
      ensures r == Err(Invalid) <==> old(!MayPublish(entry.actorId, roomId, entry.event.Asset()))
      ensures r == Err(Invalid) ==> Now() == old(Now())
      ensures r == Err(LifecycleSkipped) ==> ClosedSince(stream.entries, |old(stream.entries)|, entry.event.Asset())
      ensures old(turns) == [] && old(MayPublish(entry.actorId, roomId, entry.event.Asset())) ==>
                if LocalFold(old(stream.entries), entry.event.Asset()).Open()
                then r.Ok? && stream.entries == old(stream.entries) + [entry]
                else r == Err(LifecycleSkipped) && stream.entries == old(stream.entries)
    {
      WroteNothing(Now());
      if roomId == "" || entry.actorId == "" {
        return Err(Invalid);
      }
      var id := entry.event.Asset();
      if id == "" {
        return Err(Invalid);
      }
      var assetRoom, found := projector.projection.AssetRoomID(id);
      if found && assetRoom != roomId {
        return Err(Invalid);
      }
      r := AppendAssetProcessingEvent(id, entry);
    }

    /** Writes a tombstone, `entry`; deletions carry no fence of their own. */
    method RecordAssetDeleted(actorId: Id, roomId: Id, id: Id) returns (error: Option<Error>, ghost entry: Entry)
      requires Valid()
      modifies this, stream, projector, projector.projection, projector.projection.guard
      ensures Valid() && old(stream.entries) <= stream.entries && IsDeleteBy(entry, actorId, id)
      ensures error.Some? ==> error.value == Invalid || error.value == Cancelled
      ensures error == Some(Invalid) <==> actorId == "" || roomId == "" || id == ""
      ensures error == Some(Invalid) ==> Now() == old(Now())
      ensures Cancellations(turns) + (if error == Some(Cancelled) then 1 else 0) == Cancellations(old(turns))
      ensures WroteFor(old(Now()), Now(), entry, Answer(error))
      ensures error.None? ==> Tombstoned(stream.entries[..projector.lastSeq], |old(stream.entries)|, id)
      ensures error.None? ==> Tombstoned(stream.entries, |old(stream.entries)|, id)
      ensures Sparing(old(turns)) ==>
                && Sparing(turns)
                && (SoleDelete(stream.entries, |old(stream.entries)|, id)
                    || (error.Some? && NoDeletes(stream.entries, |old(stream.entries)|)))
      ensures actorId != "" && roomId != "" && id != "" && old(turns) == [] ==>
                && turns == []
                && (old(projector.lastSeq) == |old(stream.entries)| ==>
                     && projector.lastSeq == |stream.entries|
                     && projector.projection.Contents() == Delete(old(projector.projection.Contents()), id))
    {
      hide Delete, Fold, Step, Wrote, Cancellations, Sparing;
      var eventId: Id := *;
      var deletion := Entry(eventId, actorId, Aggregate, AssetDeleted(id));
      entry := deletion;
      ghost var start := stream.entries;
      WroteNothing(Now());
      if roomId == "" || id == "" || actorId == "" {
        return Some(Invalid), entry;
      }
      assert Is(entry.event, KDelete, id);
      ghost var pos;
      error, pos := AppendAssetEventEventually(deletion);
      if Sparing(old(turns)) && pos < |stream.entries| {
        assert IsSoleDelete(stream.entries, |start|, id, pos);
      }
      assert error.None? ==> stream.entries[..projector.lastSeq][pos] == deletion;
      DeletedFold(start, deletion, id);
      assert stream.entries[..|stream.entries|] == stream.entries && start[..|start|] == start;
    }

    /** Appends without a fence, and waits for the entry. It stands at `pos` if it has arrived. */
    method AppendAssetEventEventually(entry: Entry) returns (error: Option<Error>, ghost pos: nat)
      requires Valid() && entry.lane == Aggregate
      modifies this, stream, projector, projector.projection, projector.projection.guard
      ensures Valid() && old(stream.entries) <= stream.entries
      ensures error.Some? ==> error.value == Cancelled
      ensures Cancellations(turns) + (if error == Some(Cancelled) then 1 else 0) == Cancellations(old(turns))
      ensures WroteFor(old(Now()), Now(), entry, Answer(error))
      ensures |old(stream.entries)| <= pos <= |stream.entries| && (error.None? ==> pos < projector.lastSeq)
      ensures pos < |stream.entries| ==> stream.entries[pos] == entry
      ensures Sparing(old(turns)) ==> Sparing(turns) && SparedBut(stream.entries, |old(stream.entries)|, pos)
      ensures old(turns) == [] ==>
                && turns == [] && error.None? && stream.entries == old(stream.entries) + [entry]
                && (old(projector.lastSeq) == |old(stream.entries)| ==> projector.lastSeq == |stream.entries|)
    {
      assert turns == [] ==> Cancellations(turns) == 0;
      hide Fold, Wrote, WroteFor, Cancellations, Sparing, NoDeletes, SparedBut;
      ghost var start := Now();
      var r;
      r, pos := AppendEventually(entry);
      ghost var written := Now();
      if r.Err? {
        return Some(Cancelled), pos;
      }
      var cancelled := WaitForAssets(r.value);
      error := if cancelled then Some(Cancelled) else None;
      WroteNothing(start);
      WroteForLonger(start, start, written, Now(), entry, r, if cancelled then Err(Cancelled) else r);
      SameAnswer(start, Now(), entry, r, error);
      SparedStretch(written.log, stream.entries, |start.log|, pos);
    }

    /** Writes at the end of the stream, whatever comes before. */
    method AppendEventually(entry: Entry) returns (r: Result<nat, Error>, ghost pos: nat)
      requires Valid() && entry.lane == Aggregate
      modifies this, stream, projector, projector.projection, projector.projection.guard
      ensures Valid() && old(stream.entries) <= stream.entries && old(projector.lastSeq) <= projector.lastSeq
      ensures r.Err? ==> r.error == Cancelled
      ensures Cancellations(turns) + (if r.Err? then 1 else 0) == Cancellations(old(turns))
      ensures WroteFor(old(Now()), Now(), entry, r)
      ensures |old(stream.entries)| <= pos <= |stream.entries| && (r.Ok? ==> r.value == pos + 1)
      ensures pos < |stream.entries| ==> |stream.entries| == pos + 1 && stream.entries[pos] == entry
      ensures r.Ok? ==> pos < |stream.entries|
      ensures Sparing(old(turns)) ==> Sparing(turns) && SparedBut(stream.entries, |old(stream.entries)|, pos)
      ensures old(turns) == [] ==>
                && turns == [] && r.Ok? && stream.entries == old(stream.entries) + [entry]
                && projector.lastSeq == old(projector.lastSeq)
    {
      assert turns == [] ==> Cancellations(turns) == 0;
      hide Fold, Wrote, Cancellations, Sparing;
      ghost var start := Now();
      var cancelled := Pause();
      ghost var before := Now();
      pos := |stream.entries|;
      var arrived: bool := *;
      if cancelled && !arrived {
        return Err(Cancelled), pos;
      }
      Write(entry);
      WroteBoth(start, before, Now(), multiset{}, multiset{entry});
      r := if cancelled then Err(Cancelled) else Ok(|stream.entries|);
    }

    /** Tombstones one derivative; a failure is only logged, so the id is reported as warned about. */
    method CleanupVideoDerivativeOutput(actorId: Id, fallbackRoomId: Id, attachment: Option<Attachment>)
      returns (warned: set<Id>, ghost own: multiset<Entry>)
      requires Valid()
      modifies this, stream, projector, projector.projection, projector.projection.guard
      ensures Valid() && old(stream.entries) <= stream.entries
      ensures Wrote(old(Now()), Now(), own) && |own| <= 1
      ensures forall e :: e in own ==>
                attachment.Some? && attachment.value.id != "" && IsDeleteBy(e, actorId, attachment.value.id)
      ensures forall x :: x in warned ==> attachment.Some? && attachment.value.id == x != ""
      ensures Cancellations(turns) + (if actorId != "" then |warned| else 0) <= Cancellations(old(turns))
      ensures attachment.Some? && attachment.value.id != ""
              && (fallbackRoomId != "" || old(projector.projection.Contents().RoomOf(attachment.value.id)) != "") ==>
                attachment.value.id in warned || Tombstoned(stream.entries, |old(stream.entries)|, attachment.value.id)
    {
      hide Wrote, WroteFor, Cancellations, Tombstoned;
      ghost var start := Now();
      WroteNothing(start);
      if attachment.None? || attachment.value.id == "" {
        return {}, multiset{};
      }
      var id := attachment.value.id;
      var projectedRoom, found := projector.projection.AssetRoomID(id);
      var roomId := if found then projectedRoom else fallbackRoomId;
      if roomId == "" {
        return {}, multiset{};
      }
      ghost var entry;
      var error;
      error, entry := RecordAssetDeleted(actorId, roomId, id);
      own := Written(start, Now(), entry, Answer(error));
      warned := if error.Some? then {id} else {};
    }

    method CleanupVideoDerivativeOutputs(actorId: Id, roomId: Id, thumbnail: Option<Attachment>,
                                         variants: seq<Option<VideoVariant>>)
      returns (warned: set<Id>, ghost own: multiset<Entry>)
      requires Valid()
      modifies this, stream, projector, projector.projection, projector.projection.guard
      ensures Valid() && old(stream.entries) <= stream.entries
      ensures Wrote(old(Now()), Now(), own) && OnlyCleansUp(own, actorId, thumbnail, variants, |variants|)
      ensures forall x :: x in warned ==> IsOutput(thumbnail, variants, x)
      ensures Cancellations(turns) + (if actorId != "" then |warned| else 0) <= Cancellations(old(turns))
      ensures roomId != "" ==> CleanedUp(stream.entries, |old(stream.entries)|, thumbnail, variants, |variants|, warned)
    {
      hide Wrote, Cancellations, Tombstoned, IsOutput, OnlyCleansUp, CleanedUp;
      ghost var start := Now();
      warned, own := CleanupVideoDerivativeOutput(actorId, roomId, thumbnail);
      ThumbnailCleanedUp(stream.entries, |start.log|, actorId, thumbnail, variants, warned, own);
      for i := 0 to |variants|
        invariant Valid() && start.log <= stream.entries && Wrote(start, Now(), own)
        invariant OnlyCleansUp(own, actorId, thumbnail, variants, i)
        invariant forall x :: x in warned ==> IsOutput(thumbnail, variants, x)
        invariant Cancellations(turns) + (if actorId != "" then |warned| else 0) <= Cancellations(start.turns)
        invariant roomId != "" ==> CleanedUp(stream.entries, |start.log|, thumbnail, variants, i, warned)
      {
        ghost var before := Now();
        ghost var done, wrote := warned, own;
        if variants[i].None? {
          NothingToCleanUp(stream.entries, |start.log|, actorId, thumbnail, variants, i, warned, own);
          continue;
        }
        ghost var more;
        var failed;
        failed, more := CleanupVideoDerivativeOutput(actorId, roomId, variants[i].value.attachment);
        WroteBoth(start, before, Now(), own, more);
        warned, own := warned + failed, own + more;
        VariantCleanedUp(before.log, stream.entries, |start.log|, actorId, thumbnail, variants, i, done, failed, wrote,
                         more, roomId != "");
      }
    }

    /** Records a finished transcode under a new event id, as `entry`. On success the log holds that entry, written
        while the asset was open; if the asset was closed during the call, every derivative handed to the call is
        tombstoned or its failed deletion is reported, and nothing else is written. */
    method RecordAssetProcessed(eventId: Id, actorId: Id, roomId: Id, messageEventId: Id, attachmentId: Id,
                                durationMs: int, width: int, height: int,
                                thumbnail: Option<Attachment>, variants: seq<Option<VideoVariant>>)
      returns (error: Option<Error>, warned: set<Id>, ghost entry: Entry, ghost own: multiset<Entry>)
      requires Valid()
      modifies this, stream, projector, projector.projection, projector.projection.guard
      ensures Valid() && old(stream.entries) <= stream.entries && Wrote(old(Now()), Now(), own)
      ensures RecordsOutputs(entry, messageEventId, attachmentId, durationMs, width, height, thumbnail, variants)
      ensures entry.eventId == eventId && entry.actorId == actorId && entry.lane == Aggregate
      ensures Cancellations(turns) + |warned| + (if error == Some(Cancelled) then 1 else 0) <= Cancellations(old(turns))
      ensures error.None? ==>
                || (own == multiset{entry} && warned == {}
                    && WrittenSince(stream.entries[..projector.lastSeq], |old(stream.entries)|, entry))
                || (OnlyCleansUp(own, actorId, thumbnail, variants, |variants|)
                    && ClosedSince(stream.entries, |old(stream.entries)|, attachmentId)
                    && CleanedUp(stream.entries, |old(stream.entries)|, thumbnail, variants, |variants|, warned))
      ensures error == Some(Invalid) <==> old(!MayPublish(actorId, roomId, attachmentId))
      ensures error == Some(Invalid) ==> Now() == old(Now())
      ensures error == Some(TailConflict) ==>
                own == multiset{} && 5 <= FenceCount(stream.entries, |old(stream.entries)|, attachmentId)
      ensures error == Some(Cancelled) ==> own == multiset{} || own == multiset{entry}
      ensures error != Some(LifecycleSkipped)
      ensures old(turns) == [] && old(MayPublish(actorId, roomId, attachmentId)) ==>
                error.None? && (LocalFold(old(stream.entries), attachmentId).Open() ==>
                                stream.entries == old(stream.entries) + [entry])
    {
      assert turns == [] ==> Cancellations(turns) == 0;
      hide Wrote, WroteFor, WrittenSince, WrittenOpen, ClosedSince, FenceCount, CleanedUp, OnlyCleansUp, Names;
      hide LocalFold, Fold, Cancellations, MayPublish, Valid, Projector.Valid;
      warned := {};
      var thumbnailId := if thumbnail.Some? then thumbnail.value.id else "";
      var assetVariants := NameVariants(variants);
      var event := ProcessingSucceeded(attachmentId, messageEventId,
                                       Video(durationMs, width, height, thumbnailId, assetVariants));
      var success := Entry(eventId, actorId, Aggregate, event);
      entry := success;
      assert RecordsOutputs(entry, messageEventId, attachmentId, durationMs, width, height, thumbnail, variants);
      hide RecordsOutputs;
      ghost var start := Now();
      var published := PublishAssetProcessing(roomId, success);
      ghost var closed := Now();
      own := Written(start, closed, entry, published);
      match published
      case Ok(pos) =>
        WrittenInPrefix(stream.entries, |start.log|, pos, projector.lastSeq, entry);
        error := None;
      case Err(LifecycleSkipped) =>
        warned, own := CleanupVideoDerivativeOutputs(actorId, roomId, thumbnail, variants);
        WroteBoth(start, closed, Now(), multiset{}, own);
        ClosedSinceStays(closed.log, stream.entries, |start.log|, attachmentId);
        CleanedUpSince(stream.entries, |closed.log|, |start.log|, thumbnail, variants, |variants|, warned);
        error := None;
      case Err(e) =>
        error := Some(e);
    }

    /** Lists what a user's message assets own, each subtree leaf first, each asset once, while the world goes on. */
    method CollectDeletionTargets(owned: seq<OwnedRef>, ghost rank: Id -> nat) returns (targets: seq<Target>)
      requires Valid()
      modifies this, stream, projector, projector.projection, projector.projection.guard
      ensures Valid() && old(stream.entries) <= stream.entries && old(projector.lastSeq) <= projector.lastSeq
      ensures Cancellations(turns) <= Cancellations(old(turns)) && Wrote(old(Now()), Now(), multiset{})
      ensures Sparing(old(turns)) ==> Sparing(turns)
      ensures Sparing(old(turns)) ==> NoDeletes(stream.entries, |old(stream.entries)|)
      ensures old(turns) == [] ==>
                turns == [] && stream.entries == old(stream.entries) && projector.lastSeq == old(projector.lastSeq)
      ensures Collects(stream.entries, old(projector.lastSeq), projector.lastSeq, rank, owned, targets)
    {
      NoDeletesYet(stream.entries);
      hide Gathered, Collects, Cancellations, Wrote, Sparing, Spared, Fold, NoDeletes;
      WroteNothing(Now());
      ghost var from := projector.lastSeq;
      ghost var start := stream.entries;
      targets := [];
      var seen: set<Id> := {};
      NothingGathered(stream.entries, from, from, rank, owned);
      NothingSpared(stream.entries, from);
      assert owned[..0] == [];
      for k := 0 to |owned|
        invariant Valid() && start <= stream.entries && from <= projector.lastSeq
        invariant start[..from] == stream.entries[..from]
        invariant Cancellations(turns) <= Cancellations(old(turns)) && Wrote(old(Now()), Now(), multiset{})
        invariant Sparing(old(turns)) ==> Sparing(turns)
        invariant Sparing(old(turns)) ==> NoDeletes(stream.entries, |start|)
        invariant old(turns) == [] ==> turns == [] && stream.entries == start && projector.lastSeq == from
        invariant Gathered(stream.entries, from, projector.lastSeq, rank, owned, seen, targets)
        invariant forall x :: Spared(stream.entries, from, owned[..k], x) ==> x in seen
      {
        ghost var before := Now();
        seen, targets := CollectSubtree(owned, k, seen, targets, from, rank);
        WroteBoth(old(Now()), before, Now(), multiset{}, multiset{});
        NoDeletesJoin(before.log, stream.entries, |start|);
      }
      assert owned[..|owned|] == owned;
      GatheredCollects(stream.entries, from, projector.lastSeq, rank, owned, seen, targets);
    }

    /** The inner loop: one subtree, from its last listed asset back to its root. */
    method CollectSubtree(owned: seq<OwnedRef>, k: nat, visited: set<Id>, collected: seq<Target>, ghost from: nat,
                          ghost rank: Id -> nat)
      returns (seen: set<Id>, targets: seq<Target>)
      requires Valid() && k < |owned| && from <= projector.lastSeq
      requires Gathered(stream.entries, from, projector.lastSeq, rank, owned, visited, collected)
      requires forall x :: Spared(stream.entries, from, owned[..k], x) ==> x in visited
      modifies this, stream, projector, projector.projection, projector.projection.guard
      ensures Valid() && old(stream.entries) <= stream.entries && old(projector.lastSeq) <= projector.lastSeq
      ensures Cancellations(turns) <= Cancellations(old(turns)) && Wrote(old(Now()), Now(), multiset{})
      ensures Sparing(old(turns)) ==> Sparing(turns)
      ensures Sparing(old(turns)) ==> NoDeletes(stream.entries, |old(stream.entries)|)
      ensures old(turns) == [] ==>
                turns == [] && stream.entries == old(stream.entries) && projector.lastSeq == old(projector.lastSeq)
      ensures Gathered(stream.entries, from, projector.lastSeq, rank, owned, seen, targets)
      ensures forall x :: Spared(stream.entries, from, owned[..k + 1], x) ==> x in seen
    {
      hide Gathered, Cancellations, Wrote, Sparing, Owned, Spared, Fold, HasRooms, SubtreeOrder, NoDeletes;
      ghost var start := stream.entries;
      ghost var begun := projector.lastSeq;
      var _ := Pause();
      ghost var n := projector.lastSeq;
      ghost var w := projector.projection.Contents();
      GatheredStays(start, stream.entries, from, begun, n, rank, owned, visited, collected);
      var subtree := projector.projection.AssetSubtreeIDs(owned[k].assetId);
      seen, targets := visited, collected;
      var i := |subtree|;
      while i > 0
        invariant 0 <= i <= |subtree| && n <= projector.lastSeq
        invariant Valid() && start <= stream.entries && w == Fold(stream.entries[..n])
        invariant Cancellations(turns) <= Cancellations(old(turns)) && Wrote(old(Now()), Now(), multiset{})
        invariant Sparing(old(turns)) ==> Sparing(turns)
        invariant Sparing(old(turns)) ==> NoDeletes(stream.entries, |start|)
        invariant old(turns) == [] ==> turns == [] && stream.entries == start && projector.lastSeq == begun
        invariant visited <= seen && forall j :: i <= j < |subtree| ==> subtree[j] in seen
        invariant Gathered(stream.entries, from, projector.lastSeq, rank, owned, seen, targets)
      {
        i := i - 1;
        var id := subtree[i];
        if id in seen {
          continue;
        }
        ghost var before := Now();
        ghost var applied := projector.lastSeq;
        MemberIsOwned(w, owned, k, subtree, i);
        var t := ReadTarget(owned[k], id);
        WroteBoth(old(Now()), before, Now(), multiset{}, multiset{});
        GatheredStays(before.log, stream.entries, from, applied, projector.lastSeq, rank, owned, seen, targets);
        assert stream.entries[..n] == before.log[..n];
        NoDeletesJoin(before.log, stream.entries, |start|);
        Visit(stream.entries, from, n, projector.lastSeq, rank, owned, k, subtree, i, seen, targets, t);
        seen := seen + {id};
        if t.Some? {
          targets := targets + [t.value];
        }
      }
      SubtreeIsSeen(stream.entries, start, from, n, owned, k, subtree, visited, seen);
    }

    /** Looks up an asset of a listing: it may have been deleted since, and it may have no room. */
    method ReadTarget(ref: OwnedRef, id: Id) returns (t: Option<Target>)
      requires Valid() && id != ""
      modifies this, stream, projector, projector.projection, projector.projection.guard
      ensures Valid() && old(stream.entries) <= stream.entries && old(projector.lastSeq) <= projector.lastSeq
      ensures Cancellations(turns) <= Cancellations(old(turns)) && Wrote(old(Now()), Now(), multiset{})
      ensures Sparing(old(turns)) ==> Sparing(turns)
      ensures Sparing(old(turns)) ==> NoDeletes(stream.entries, |old(stream.entries)|)
      ensures old(turns) == [] ==>
                turns == [] && stream.entries == old(stream.entries) && projector.lastSeq == old(projector.lastSeq)
      ensures t == TargetOf(Fold(stream.entries[..projector.lastSeq]), ref, id)
    {
      var _ := Pause();
      var declared := projector.projection.AssetCreation(id);
      if declared.None? {
        return None;
      }
      var own := declared.value.roomId;
      var roomId := if own != "" then own else ref.roomId;
      t := if roomId == "" then None else Some(Target(id, roomId));
    }

    /** Appends the tombstones in that order, whatever fails: as many targets are left as steps were cancelled, at most.
        `done` are the assets whose tombstone was acknowledged, `gone` those whose tombstone has been written since. */
    method DeleteTargets(actorId: Id, targets: seq<Target>, ghost v: View)
      returns (deleted: nat, ghost done: set<Id>, ghost gone: set<Id>, ghost own: multiset<Entry>)
      requires Valid() && Distinct(TargetIds(targets))
      requires forall i :: 0 <= i < |targets| ==> targets[i].roomId != "" && targets[i].assetId != ""
      modifies this, stream, projector, projector.projection, projector.projection.guard
      ensures Valid() && old(stream.entries) <= stream.entries
      ensures actorId != "" ==> |targets| - deleted + Cancellations(turns) <= Cancellations(old(turns))
      ensures Wrote(old(Now()), Now(), own) && DeletesSome(own, actorId, Ids(TargetIds(targets)), deleted)
      ensures deleted == |done| && done <= gone && forall x :: x in gone ==> x in TargetIds(targets)
      ensures forall x :: x in gone ==> Tombstoned(stream.entries, |old(stream.entries)|, x)
      ensures Sparing(old(turns)) && FreshCreates(stream.entries, |old(stream.entries)|)
              && Undisturbed(v, Fold(old(stream.entries)), {}) && Deletable(v, TargetIds(targets)) ==>
                Undisturbed(v, Fold(stream.entries), gone)
      ensures old(turns) == [] && old(projector.lastSeq) == |old(stream.entries)| && actorId != "" ==>
                && deleted == |targets|
                && projector.projection.Contents() ==
                   DeleteAll(old(projector.projection.Contents()), TargetIds(targets))
    {
      hide Sparing, Delete, Fold, Deletable, FreshCreates, NoDeletes, Tombstoned, Deleting, Undisturbed;
      hide DeletedSoFar, Cancellations, Wrote, DeletesSome, Counted;
      ghost var ids := TargetIds(targets);
      ghost var start := Now();
      ghost var base := projector.projection.Contents();
      ghost var quiet := turns == [] && projector.lastSeq == |stream.entries| && actorId != "";
      ghost var sparing := Sparing(turns) && Undisturbed(v, Fold(start.log), {}) && Deletable(v, ids);
      deleted, done, gone, own := 0, {}, {}, multiset{};
      DeletingStarts(v, start.log, ids, sparing);
      DeletedNone(base, ids);
      CountedNone(start, actorId, ids);
      for i := 0 to |targets|
        invariant Valid() && (sparing ==> Sparing(turns))
        invariant Counted(start, Now(), actorId, ids, i, deleted, own)
        invariant deleted == |done| && Deleting(v, start.log, stream.entries, ids, i, done, gone, sparing)
        invariant quiet ==>
                    && turns == [] && projector.lastSeq == |stream.entries|
                    && DeletedSoFar(base, ids, i, projector.projection.Contents(), deleted)
      {
        DeletedOneMore(base, ids, i, projector.projection.Contents(), deleted);
        ghost var before := Now();
        ghost var more;
        var ok;
        ok, gone, more := DeleteTarget(actorId, targets[i], v, start.log, ids, i, done, gone, sparing);
        CountedOneMore(start, before, Now(), actorId, ids, i, deleted, own, more, ok);
        own := own + more;
        if !ok {
          continue;
        }
        deleted, done := deleted + 1, done + {ids[i]};
      }
      DeletingEnds(v, start.log, stream.entries, ids, done, gone, sparing);
      DeletedThemAll(base, ids, projector.projection.Contents(), deleted);
      CountedAll(start, Now(), actorId, ids, deleted, own);
    }

    /** One target: its tombstone, and where the deletion stands after it. */
    method DeleteTarget(actorId: Id, t: Target, ghost v: View, ghost start: Log, ghost ids: seq<Id>, ghost i: nat,
                        ghost done: set<Id>, ghost gone: set<Id>, ghost sparing: bool)
      returns (ok: bool, ghost now: set<Id>, ghost own: multiset<Entry>)
      requires Valid() && i < |ids| && Distinct(ids) && ids[i] == t.assetId && t.assetId != "" && t.roomId != ""
      requires sparing ==> Sparing(turns) && Deletable(v, ids)
      requires Deleting(v, start, stream.entries, ids, i, done, gone, sparing)
      modifies this, stream, projector, projector.projection, projector.projection.guard
      ensures Valid() && (sparing ==> Sparing(turns)) && ids[i] !in done
      ensures actorId != "" ==> (if ok then 0 else 1) + Cancellations(turns) <= Cancellations(old(turns))
      ensures Wrote(old(Now()), Now(), own) && DeletesSome(own, actorId, {t.assetId}, if ok then 1 else 0)
      ensures Deleting(v, start, stream.entries, ids, i + 1, if ok then done + {ids[i]} else done, now, sparing)
      ensures old(turns) == [] && old(projector.lastSeq) == |old(stream.entries)| && actorId != "" ==>
                && ok && turns == [] && projector.lastSeq == |stream.entries|
                && projector.projection.Contents() == Delete(old(projector.projection.Contents()), ids[i])
    {
      assert turns == [] ==> Cancellations(turns) == 0;
      hide Sparing, Delete, Fold, Deletable, FreshCreates, SoleDelete, NoDeletes, Tombstoned, Deleting;
      hide Undisturbed, Cancellations, Wrote, WroteFor, DeletesSome;
      ghost var before := Now();
      ghost var entry;
      var error;
      error, entry := RecordAssetDeleted(actorId, t.roomId, t.assetId);
      ok := error.None?;
      own := Written(before, Now(), entry, Answer(error));
      DeletesOne(own, entry, actorId, t.assetId, ok);
      now := if Tombstoned(stream.entries, |before.log|, t.assetId) then gone + {t.assetId} else gone;
      DeletingGoesOn(v, start, before.log, stream.entries, ids, i, done, gone, sparing, !ok);
    }

    /** Deletes what a user's messages own. `listed` is what was collected, all owned at some moment of the collection,
        which ended when the log had length `collected`; every asset owned at the beginning and spared until then is
        listed. Whatever interferes and whatever fails, all that is listed is deleted but for one asset for each
        cancelled step, at most: `done` are the assets counted, `gone` those that have been tombstoned, and no other
        delete is written. If the others only add, the rooms are exactly those left by deleting `gone`. */
    method DeleteMessageOwnedAssetsForUser(actorId: Id, owned: seq<OwnedRef>, ghost rank: Id -> nat)
      returns (deleted: nat, ghost done: set<Id>, ghost gone: set<Id>, ghost listed: set<Id>, ghost collected: nat,
               ghost own: multiset<Entry>)
      requires Valid()
      modifies this, stream, projector, projector.projection, projector.projection.guard
      ensures Valid() && old(stream.entries) <= stream.entries && |old(stream.entries)| <= collected <= |stream.entries|
      ensures deleted == |done| && done <= gone <= listed
      ensures actorId != "" ==> |listed| - deleted <= Cancellations(old(turns))
      ensures Wrote(old(Now()), Now(), own) && DeletesSome(own, actorId, listed, deleted)
      ensures forall x :: x in listed ==> OwnedDuring(stream.entries, old(projector.lastSeq), collected, owned, x)
      ensures forall x :: x in gone ==> Tombstoned(stream.entries, |old(stream.entries)|, x)
      ensures HasRooms(owned) ==>
                forall x :: Spared(stream.entries[..collected], old(projector.lastSeq), owned, x) ==> x in listed
      ensures Calm(old(turns)) && actorId != "" ==> done == listed
      ensures OnlyAdded(stream.entries, old(projector.lastSeq), collected, rank) && Sparing(old(turns)) ==>
                RoomsAfter(old(projector.projection.Contents()), Fold(stream.entries), gone)
      ensures OnlyAdded(stream.entries, old(projector.lastSeq), collected, rank) && Sparing(old(turns))
              && Calm(old(turns)) && actorId != "" && HasRooms(owned) ==>
                KeepsRooms(old(projector.projection.Contents()), Fold(stream.entries))
      ensures old(turns) == [] && old(projector.lastSeq) == |old(stream.entries)| && actorId != ""
              && HasRooms(owned) && Tidy(old(projector.projection.Contents()), rank) ==>
                CleanDeletion(old(projector.projection.Contents()), owned, projector.projection.Contents(), deleted)
    {
      hide CleanDeletion, HasRooms, Owned, Delete, Fold, Sparing, Undisturbed, KeepsRooms, RoomsAfter, Tombstoned;
      hide FreshCreates, NoDeletes, Collects, Gentle, Deletable, OwnedDuring, Tidy, OnlyAdded, Spared;
      hide Cancellations, Wrote, DeletesSome;
      ghost var v := projector.projection.Contents();
      ghost var from := projector.lastSeq;
      ghost var start := Now();
      var targets := CollectDeletionTargets(owned, rank);
      ghost var log := stream.entries;
      ghost var middle := Now();
      ghost var ids := TargetIds(targets);
      collected, listed := |log|, Ids(ids);
      ghost var upto := projector.lastSeq;
      TargetsAreSound(log, from, upto, rank, owned, targets);
      deleted, done, gone, own := DeleteTargets(actorId, targets, v);
      WroteBoth(start, middle, Now(), multiset{}, own);
      DistinctCount(ids);
      if |ids| <= deleted {
        AllCounted(ids, done);
      }
      assert start.log[..from] == log[..from] && stream.entries[..|log|] == log;
      TombstonesStay(log, stream.entries, |start.log|);
      TargetsAreGone(log, stream.entries, from, upto, rank, owned, targets, gone);
      if start.log == log && from == |log| && HasRooms(owned) && Tidy(v, rank) {
        assert log[..|log|] == log;
        QuietCollection(log, rank, owned, targets);
        DeletionKeepsEveryRoom(v, rank, owned, ids);
      }
    }
  }

  /** Until the collection ended the log was gentle, and after it only fresh ids were created. */
  ghost predicate OnlyAdded(log: Log, from: nat, collected: nat, rank: Id -> nat)
    requires collected <= |log|
  {
    Gentle(log[..collected], from, rank) && FreshCreates(log, collected)
  }

  lemma TargetsAreSound(log: Log, from: nat, upto: nat, rank: Id -> nat, owned: seq<OwnedRef>, targets: seq<Target>)
    requires from <= upto <= |log| && Collects(log, from, upto, rank, owned, targets)
    ensures Distinct(TargetIds(targets))
    ensures forall i :: 0 <= i < |targets| ==> targets[i].assetId != "" && targets[i].roomId != ""
    ensures Gentle(log, from, rank) ==>
              Undisturbed(Fold(log[..from]), Fold(log), {}) && Deletable(Fold(log[..from]), TargetIds(targets))
  {
    hide Gentle, LeafFirstAmong, Undisturbed, Fold, Consistent;
    if Gentle(log, from, rank) {
      assert log[..|log|] == log;
      GentleUndisturbed(log, from, rank, |log|);
    }
  }

  /** What the deletion adds up to, for the log that the collection left and the log at the end. */
  lemma TargetsAreGone(log: Log, now: Log, from: nat, upto: nat, rank: Id -> nat, owned: seq<OwnedRef>,
                       targets: seq<Target>, gone: set<Id>)
    requires from <= upto <= |log| && log <= now && Collects(log, from, upto, rank, owned, targets)
    requires gone <= Ids(TargetIds(targets))
    ensures forall x :: x in Ids(TargetIds(targets)) ==> OwnedDuring(now, from, |log|, owned, x)
    ensures HasRooms(owned) ==> forall x :: Spared(log, from, owned, x) ==> x in Ids(TargetIds(targets))
    ensures OnlyAdded(now, from, |log|, rank) ==> Gentle(log, from, rank) && FreshCreates(now, |log|)
    ensures OnlyAdded(now, from, |log|, rank) && Undisturbed(Fold(log[..from]), Fold(now), gone) ==>
              && RoomsAfter(Fold(log[..from]), Fold(now), gone)
              && (HasRooms(owned) && gone == Ids(TargetIds(targets)) ==>
                   KeepsRooms(Fold(log[..from]), Fold(now)))
  {
    hide Gentle, Owned, OwnedDuring, HasRooms, RoomsAfter, KeepsRooms, Undisturbed, Fold, LeafFirstAmong, Consistent;
    hide NoDeletes, IndexInverse, ClosedUnderChildren, Spared;
    var v, ids := Fold(log[..from]), TargetIds(targets);
    forall x | x in Ids(ids) ensures OwnedDuring(now, from, |log|, owned, x) {
      OwnedDuringStays(log, now, from, upto, |log|, owned, x);
    }
    assert now[..|log|] == log;
    FoldIsConsistent(log[..from]);
    if OnlyAdded(now, from, |log|, rank) && Undisturbed(v, Fold(now), gone) {
      UndisturbedRooms(v, Fold(now), gone);
      if HasRooms(owned) && gone == Ids(ids) {
        GentleFrom(log, from, rank);
        NothingCutOff(v, Fold(now), gone);
      }
    }
  }

  /** From `from` on nothing is deleted, except perhaps at this position. */
  ghost predicate SparedBut(log: Log, from: nat, pos: nat) {
    forall i :: from <= i < |log| && i != pos ==> !log[i].event.AssetDeleted?
  }

  lemma SparedStretch(log: Log, longer: Log, from: nat, pos: nat)
    requires log <= longer && from <= |log|
    ensures SparedBut(log, from, pos) && NoDeletes(longer, |log|) ==> SparedBut(longer, from, pos)
  {
  }

  lemma NothingSpared(log: Log, from: nat)
    requires from <= |log|
    ensures forall x :: !Spared(log, from, [], x)
  {
  }

  lemma DeletedFold(log: Log, entry: Entry, id: Id)
    requires entry.event == AssetDeleted(id) && id != ""
    ensures Fold(log + [entry]) == Delete(Fold(log), id)
  {
  }

  lemma ClosedEarlier(log: Log, from: nat, later: nat, id: Id)
    requires ClosedSince(log, later, id) && from <= later
    ensures ClosedSince(log, from, id)
  {
  }

  /** Two outcomes of one asset that were both written while it was open have a delete and a create between them. */
  lemma OutcomesWrittenOpen(log: Log, from: nat, i: nat, d: Entry, j: nat, e: Entry, id: Id)
    requires i < j && Is(d.event, KTerminal, id) && Is(e.event, KTerminal, id)
    requires WrittenOpen(log, from, i, d) && WrittenOpen(log, from, j, e)
    ensures exists k, l :: i <= k < l < j - 1 && Is(log[k].event, KDelete, id) && Is(log[l].event, KCreate, id)
  {
    OutcomeSettles(log, id, i - 1);
    DeletedAndRecreated(log, id, i - 1, j - 1);
  }
}
