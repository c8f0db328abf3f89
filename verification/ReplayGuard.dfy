/** The guard that lets each delivered event through once, first by event id, later by stream sequence. */
module ReplayGuard {
  import opened AssetEvents

  datatype Delivery = Delivery(entry: Entry, seqNo: nat)

  /** The guard's fields as a value. */
  datatype State = State(eventIds: set<Id>, highest: nat, complete: bool, compatible: bool)
  {
    predicate Seen(d: Delivery) {
      if complete && !compatible then d.seqNo <= highest else d.entry.eventId in eventIds
    }

    function After(d: Delivery): State {
      if Seen(d) then
        if complete && !compatible then this else this.(compatible := true)
      else
        State(if (!complete || compatible) && d.entry.eventId != "" then eventIds + {d.entry.eventId} else eventIds,
              if d.seqNo > highest then d.seqNo else highest,
              complete, compatible)
    }

    function Completed(): State {
      State(if compatible then eventIds else {}, highest, true, compatible)
    }
  }

  const NEW_GUARD := State({}, 0, false, false)

  class Guard {
    var eventIds: set<Id>
    var highestSeq: nat
    var replayComplete: bool
    var compatibilityMode: bool

    function Value(): State
      reads this
    {
      State(eventIds, highestSeq, replayComplete, compatibilityMode)
    }

    constructor ()
      ensures Value() == NEW_GUARD
    {
      eventIds, highestSeq, replayComplete, compatibilityMode := {}, 0, false, false;
    }

    /** Seen events may switch the guard into compatibility mode; new ones are remembered. */
    method SeenOrMark(d: Delivery) returns (seen: bool)
      modifies this
      ensures seen == old(Value().Seen(d))
      ensures Value() == old(Value().After(d))
    {
      if replayComplete && !compatibilityMode {
        if d.seqNo <= highestSeq {
          return true;
        }
      } else if d.entry.eventId in eventIds {
        compatibilityMode := true;
        return true;
      }
      if d.seqNo > highestSeq {
        highestSeq := d.seqNo;
      }
      if !replayComplete || compatibilityMode {
        if d.entry.eventId != "" {
          eventIds := eventIds + {d.entry.eventId};
        }
      }
      seen := false;
    }

    method CompleteReplay()
      modifies this
      ensures Value() == old(Value().Completed())
    {
      replayComplete := true;
      if !compatibilityMode {
        eventIds := {};
      }
    }
  }

  /** The guard's state after startup replay has ended with delivery number `startup`. */
  function Run(ds: seq<Delivery>, startup: nat): State {
    if ds == [] then if startup == 0 then NEW_GUARD.Completed() else NEW_GUARD
    else
      var next := Run(ds[..|ds| - 1], startup).After(ds[|ds| - 1]);
      if |ds| == startup then next.Completed() else next
  }

  /** The entries that get past the guard. */
  function Accepted(ds: seq<Delivery>, startup: nat): Log {
    if ds == [] then []
    else
      var before := ds[..|ds| - 1];
      var last := ds[|ds| - 1];
      Accepted(before, startup) + (if Run(before, startup).Seen(last) then [] else [last.entry])
  }

  /** Delivery i repeats an earlier one. */
  predicate Repeats(ds: seq<Delivery>, i: nat)
    requires i < |ds|
  {
    exists j :: 0 <= j < i && ds[j].seqNo == ds[i].seqNo
  }

  function FirstDeliveries(ds: seq<Delivery>): Log {
    if ds == [] then []
    else
      FirstDeliveries(ds[..|ds| - 1]) + (if Repeats(ds, |ds| - 1) then [] else [ds[|ds| - 1].entry])
  }

  /** A stream read in order with redeliveries: positive sequences name entries one to one, new ones ascend. */
  ghost predicate InOrder(ds: seq<Delivery>) {
    && (forall i :: 0 <= i < |ds| ==> ds[i].entry.eventId != "" && ds[i].seqNo > 0)
    && (forall i, j :: 0 <= i < j < |ds| ==>
         (ds[i].seqNo == ds[j].seqNo <==> ds[i].entry.eventId == ds[j].entry.eventId))
    && (forall i, j :: 0 <= i < j < |ds| && !Repeats(ds, j) ==> ds[i].seqNo < ds[j].seqNo)
  }

  ghost predicate HasSeq(ds: seq<Delivery>, n: nat) {
    exists i :: 0 <= i < |ds| && ds[i].seqNo == n
  }

  ghost predicate HasId(ds: seq<Delivery>, id: Id) {
    exists i :: 0 <= i < |ds| && ds[i].entry.eventId == id
  }

  /** The high-water mark is exact. */
  ghost predicate KnowsMark(g: State, ds: seq<Delivery>) {
    && (forall i :: 0 <= i < |ds| ==> ds[i].seqNo <= g.highest)
    && (g.highest == 0 || HasSeq(ds, g.highest))
  }

  /** The set of ids is exact. */
  ghost predicate KnowsIds(g: State, ds: seq<Delivery>) {
    && (forall i :: 0 <= i < |ds| ==> ds[i].entry.eventId in g.eventIds)
    && (forall id :: id in g.eventIds ==> HasId(ds, id))
  }

  /** After a run the guard knows whatever it judges by. */
  ghost predicate Knows(g: State, ds: seq<Delivery>, startup: nat) {
    && (g.complete <==> startup <= |ds|)
    && KnowsMark(g, ds)
    && (!g.complete || g.compatible ==> KnowsIds(g, ds))
  }

  lemma {:induction false} GuardKnowsTheRun(ds: seq<Delivery>, startup: nat)
    requires InOrder(ds)
    ensures Knows(Run(ds, startup), ds, startup)
  {
    if ds != [] {
      var before := ds[..|ds| - 1];
      InOrderPrefix(ds);
      GuardKnowsTheRun(before, startup);
      KnowledgeGrows(ds, startup);
    }
  }

  lemma InOrderPrefix(ds: seq<Delivery>)
    requires ds != [] && InOrder(ds)
    ensures InOrder(ds[..|ds| - 1])
  {
  }

  lemma RepeatsBySeq(ds: seq<Delivery>, mark: nat)
    requires ds != [] && InOrder(ds)
    requires forall i :: 0 <= i < |ds| - 1 ==> ds[i].seqNo <= mark
    requires mark == 0 || HasSeq(ds[..|ds| - 1], mark)
    ensures Repeats(ds, |ds| - 1) <==> ds[|ds| - 1].seqNo <= mark
  {
  }

  lemma RepeatsById(ds: seq<Delivery>)
    requires ds != [] && InOrder(ds)
    ensures Repeats(ds, |ds| - 1) <==> HasId(ds[..|ds| - 1], ds[|ds| - 1].entry.eventId)
  {
  }

  lemma JudgesRepeats(ds: seq<Delivery>, startup: nat)
    requires ds != [] && InOrder(ds)
    requires Knows(Run(ds[..|ds| - 1], startup), ds[..|ds| - 1], startup)
    ensures Run(ds[..|ds| - 1], startup).Seen(ds[|ds| - 1]) <==> Repeats(ds, |ds| - 1)
  {
    var g := Run(ds[..|ds| - 1], startup);
    if g.complete && !g.compatible {
      assert forall i :: 0 <= i < |ds| - 1 ==> ds[..|ds| - 1][i] == ds[i];
      RepeatsBySeq(ds, g.highest);
    } else {
      RepeatsById(ds);
    }
  }

  lemma KnowledgeGrows(ds: seq<Delivery>, startup: nat)
    requires ds != [] && InOrder(ds)
    requires Knows(Run(ds[..|ds| - 1], startup), ds[..|ds| - 1], startup)
    ensures Knows(Run(ds, startup), ds, startup)
  {
    var before := ds[..|ds| - 1];
    var last := ds[|ds| - 1];
    var g := Run(before, startup);
    JudgesRepeats(ds, startup);
    MarkGrows(g, ds);
    if !g.complete || g.compatible {
      IdsGrow(g, ds);
    }
    assert KnowsMark(g.After(last).Completed(), ds);
  }

  lemma MarkGrows(g: State, ds: seq<Delivery>)
    requires ds != [] && KnowsMark(g, ds[..|ds| - 1])
    requires g.Seen(ds[|ds| - 1]) ==> Repeats(ds, |ds| - 1)
    ensures KnowsMark(g.After(ds[|ds| - 1]), ds)
  {
  }

  lemma IdsGrow(g: State, ds: seq<Delivery>)
    requires ds != [] && KnowsIds(g, ds[..|ds| - 1]) && (!g.complete || g.compatible)
    requires ds[|ds| - 1].entry.eventId != ""
    ensures KnowsIds(g.After(ds[|ds| - 1]), ds)
  {
  }

  /** Every stream event is applied exactly once and in order, wherever startup replay ends and
      whatever is redelivered, before, across or after that point. */
  lemma {:induction false} AppliedExactlyOnce(ds: seq<Delivery>, startup: nat)
    requires InOrder(ds)
    ensures Accepted(ds, startup) == FirstDeliveries(ds)
  {
    if ds != [] {
      InOrderPrefix(ds);
      AppliedExactlyOnce(ds[..|ds| - 1], startup);
      GuardKnowsTheRun(ds[..|ds| - 1], startup);
      JudgesRepeats(ds, startup);
    }
  }

  /** Historical duplicates: an id repeated under a new sequence during replay is dropped then and ever after. */
  lemma {:induction false} DuplicateHistoryKeepsFirst(ds: seq<Delivery>, startup: nat, i: nat, j: nat)
    requires i < j < |ds| && j < startup
    requires ds[i].entry.eventId == ds[j].entry.eventId != ""
    ensures Run(ds, startup).compatible && ds[i].entry.eventId in Run(ds, startup).eventIds
    ensures Run(ds, startup).Seen(ds[i])
  {
    var before := ds[..|ds| - 1];
    if j < |before| {
      DuplicateHistoryKeepsFirst(before, startup, i, j);
    } else {
      RemembersIds(before, startup, i);
    }
  }

  lemma {:induction false} RemembersIds(ds: seq<Delivery>, startup: nat, i: nat)
    requires i < |ds| < startup && ds[i].entry.eventId != ""
    ensures !Run(ds, startup).complete && ds[i].entry.eventId in Run(ds, startup).eventIds
  {
    var before := ds[..|ds| - 1];
    NotComplete(before, startup);
    if i < |before| {
      RemembersIds(before, startup, i);
    }
  }

  lemma {:induction false} NotComplete(ds: seq<Delivery>, startup: nat)
    requires |ds| < startup
    ensures !Run(ds, startup).complete
  {
    if ds != [] {
      NotComplete(ds[..|ds| - 1], startup);
    }
  }

  // ---- Histories that repeat event ids ----

  /** The entries whose event id has not been delivered before; an entry without an id always counts. */
  function FirstById(ds: seq<Delivery>): Log {
    if ds == [] then []
    else FirstById(ds[..|ds| - 1]) + (if RepeatsId(ds, |ds| - 1) then [] else [ds[|ds| - 1].entry])
  }

  predicate RepeatsId(ds: seq<Delivery>, i: nat)
    requires i < |ds|
  {
    ds[i].entry.eventId != "" && exists j :: 0 <= j < i && ds[j].entry.eventId == ds[i].entry.eventId
  }

  /** Startup still runs, or it met a duplicate. */
  predicate JudgesById(ds: seq<Delivery>, startup: nat) {
    |ds| <= startup || Run(ds[..startup], startup).compatible
  }

  ghost predicate RemembersExactly(g: State, ds: seq<Delivery>) {
    forall id :: id in g.eventIds <==> id != "" && HasId(ds, id)
  }

  lemma RememberedGrows(g: State, ds: seq<Delivery>)
    requires ds != [] && RemembersExactly(g, ds[..|ds| - 1]) && (!g.complete || g.compatible)
    ensures g.Seen(ds[|ds| - 1]) <==> RepeatsId(ds, |ds| - 1)
    ensures RemembersExactly(g.After(ds[|ds| - 1]), ds)
  {
  }

  lemma {:induction false} StaysCompatible(ds: seq<Delivery>, startup: nat)
    requires startup <= |ds| && Run(ds[..startup], startup).compatible
    ensures Run(ds, startup).compatible
  {
    if startup == |ds| {
      assert ds[..startup] == ds;
    } else {
      assert ds[..|ds| - 1][..startup] == ds[..startup];
      StaysCompatible(ds[..|ds| - 1], startup);
    }
  }

  /** While ids are what the guard judges by, it remembers all of them and no other. */
  lemma {:induction false} RemembersWhatItJudgesBy(ds: seq<Delivery>, startup: nat)
    requires |ds| < startup || (startup <= |ds| && Run(ds[..startup], startup).compatible)
    ensures RemembersExactly(Run(ds, startup), ds)
    ensures !Run(ds, startup).complete || Run(ds, startup).compatible
  {
    if startup <= |ds| {
      StaysCompatible(ds, startup);
    } else {
      NotComplete(ds, startup);
    }
    if ds != [] {
      var before := ds[..|ds| - 1];
      if startup <= |before| {
        assert before[..startup] == ds[..startup];
      }
      RemembersWhatItJudgesBy(before, startup);
      RememberedGrows(Run(before, startup), ds);
    }
  }

  /** While startup runs, and ever after if startup met a duplicate, exactly the first deliveries by event id pass. */
  lemma {:induction false} AcceptedById(ds: seq<Delivery>, startup: nat)
    requires JudgesById(ds, startup)
    ensures Accepted(ds, startup) == FirstById(ds)
  {
    if ds != [] {
      var before := ds[..|ds| - 1];
      if |ds| > startup {
        assert before[..startup] == ds[..startup];
      }
      AcceptedById(before, startup);
      RemembersWhatItJudgesBy(before, startup);
      RememberedGrows(Run(before, startup), ds);
    }
  }

  ghost predicate NoIdRepeats(ds: seq<Delivery>) {
    forall i :: 0 <= i < |ds| ==> !RepeatsId(ds, i)
  }

  /** Startup switches the guard over exactly if it met a duplicate. */
  lemma {:induction false} CompatibleExactly(ds: seq<Delivery>, startup: nat)
    requires |ds| <= startup
    ensures Run(ds, startup).compatible <==> !NoIdRepeats(ds)
  {
    if ds != [] {
      var n := |ds| - 1;
      var before := ds[..n];
      CompatibleExactly(before, startup);
      RemembersWhatItJudgesBy(before, startup);
      RememberedGrows(Run(before, startup), ds);
      forall i | 0 <= i < n ensures RepeatsId(before, i) <==> RepeatsId(ds, i) {
        assert before[i] == ds[i];
      }
    }
  }

  lemma {:induction false} HighestIsDelivered(ds: seq<Delivery>, startup: nat, n: nat)
    requires forall i :: 0 <= i < |ds| ==> ds[i].seqNo <= n
    ensures Run(ds, startup).highest <= n
  {
    if ds != [] {
      HighestIsDelivered(ds[..|ds| - 1], startup, n);
    }
  }

  lemma {:induction false} CompletesAt(ds: seq<Delivery>)
    ensures Run(ds, |ds|).complete
  {
  }
}
