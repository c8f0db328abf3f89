/** A projection fed by a stream: what its maps hold, whenever startup ends and whatever is redelivered. */
module AssetReplay {
  import opened AssetEvents
  import opened AssetView
  import opened AssetProjection
  import opened ReplayGuard

  /** The deliveries that the projection shows to its guard. */
  function Lifecycle(ds: seq<Delivery>): seq<Delivery> {
    if ds == [] then []
    else
      var last := ds[|ds| - 1];
      Lifecycle(ds[..|ds| - 1]) + (if last.entry.event.IsLifecycle() then [last] else [])
  }

  /** Startup ends after the first `startup` of the deliveries: so many of the lifecycle deliveries come before that,
      and not yet all that have come, if it has not ended. */
  function StartupAmong(ds: seq<Delivery>, startup: nat): nat {
    if |ds| < startup then |Lifecycle(ds)| + 1 else |Lifecycle(ds[..startup])|
  }

  // ---- Startup only matters once it has ended ----

  lemma {:induction false} PendingStartup(ds: seq<Delivery>, s: nat, t: nat)
    requires |ds| < s && |ds| < t
    ensures Run(ds, s) == Run(ds, t) && Accepted(ds, s) == Accepted(ds, t)
  {
    if ds != [] {
      PendingStartup(ds[..|ds| - 1], s, t);
    }
  }

  lemma StartupEnds(ds: seq<Delivery>, s: nat)
    requires |ds| < s
    ensures Run(ds, |ds|) == Run(ds, s).Completed() && Accepted(ds, |ds|) == Accepted(ds, s)
  {
    if ds != [] {
      PendingStartup(ds[..|ds| - 1], s, |ds|);
    }
  }

  lemma OneMore(ds: seq<Delivery>, d: Delivery, s: nat)
    requires s != |ds| + 1
    ensures Run(ds + [d], s) == Run(ds, s).After(d)
    ensures Accepted(ds + [d], s) == Accepted(ds, s) + (if Run(ds, s).Seen(d) then [] else [d.entry])
  {
  }

  // ---- The projection on its feed ----

  /** The projection stands where these deliveries lead. */
  ghost predicate StandsAfter(p: Projection, ds: seq<Delivery>, startup: nat)
    reads p, p.guard
  {
    && p.guard.Value() == Run(Lifecycle(ds), StartupAmong(ds, startup))
    && p.Contents() == Fold(Accepted(Lifecycle(ds), StartupAmong(ds, startup)))
  }

  lemma LifecycleGrows(ds: seq<Delivery>, d: Delivery)
    ensures Lifecycle(ds + [d]) == if d.entry.event.IsLifecycle() then Lifecycle(ds) + [d] else Lifecycle(ds)
  {
  }

  lemma FoldGrows(log: Log, e: Entry)
    ensures Fold(log + [e]) == Step(Fold(log), e.event)
  {
  }

  lemma {:induction false} LifecycleIsMonotone(ds: seq<Delivery>, n: nat)
    requires n <= |ds|
    ensures |Lifecycle(ds[..n])| <= |Lifecycle(ds)|
  {
    if n == |ds| {
      assert ds[..n] == ds;
    } else {
      LifecycleIsMonotone(ds[..|ds| - 1], n);
      assert ds[..|ds| - 1][..n] == ds[..n];
    }
  }

  /** Where a further delivery leads before it is asked whether startup ends with it. */
  lemma NextDelivery(ds: seq<Delivery>, d: Delivery, startup: nat)
    ensures var l, k := Lifecycle(ds), StartupAmong(ds, startup);
            var m := if |ds| < startup then |Lifecycle(ds + [d])| + 1 else k;
            if d.entry.event.IsLifecycle() then
              && Run(Lifecycle(ds + [d]), m) == Run(l, k).After(d)
              && Fold(Accepted(Lifecycle(ds + [d]), m)) ==
                 (if Run(l, k).Seen(d) then Fold(Accepted(l, k)) else Step(Fold(Accepted(l, k)), d.entry.event))
            else Run(Lifecycle(ds + [d]), m) == Run(l, k) && Accepted(Lifecycle(ds + [d]), m) == Accepted(l, k)
  {
    hide Run, Accepted, Fold, Lifecycle;
    var l, k := Lifecycle(ds), StartupAmong(ds, startup);
    LifecycleGrows(ds, d);
    if |ds| < startup {
      if d.entry.event.IsLifecycle() {
        PendingStartup(l, k, k + 1);
        OneMore(l, d, k + 1);
      }
    } else {
      LifecycleIsMonotone(ds, startup);
      OneMore(l, d, k);
    }
    if !Run(l, k).Seen(d) {
      FoldGrows(Accepted(l, k), d.entry);
    } else {
      assert Accepted(l, k) + [] == Accepted(l, k);
    }
  }

  /** Feeds deliveries to a new projection and ends startup replay after `startup` of them. */
  method Feed(p: Projection, ds: seq<Delivery>, startup: nat)
    requires p.Contents() == EMPTY_VIEW && p.guard.Value() == NEW_GUARD
    modifies p, p.guard
    ensures StandsAfter(p, ds, startup)
    ensures InOrder(Lifecycle(ds)) ==> p.Contents() == Fold(FirstDeliveries(Lifecycle(ds)))
    ensures JudgesById(Lifecycle(ds), StartupAmong(ds, startup)) ==> p.Contents() == Fold(FirstById(Lifecycle(ds)))
  {
    hide Run, Accepted, Fold, Lifecycle, StartupAmong;
    NothingFed(startup);
    if startup == 0 {
      p.CompleteStartupReplay();
    }
    for i := 0 to |ds|
      invariant StandsAfter(p, ds[..i], startup)
    {
      ghost var before := ds[..i];
      assert ds[..i + 1] == before + [ds[i]];
      NextDelivery(before, ds[i], startup);
      p.Apply(ds[i]);
      AfterDelivery(before, ds[i], startup);
      if i + 1 == startup {
        p.CompleteStartupReplay();
      }
    }
    assert ds[..|ds|] == ds;
    if InOrder(Lifecycle(ds)) {
      AppliedExactlyOnce(Lifecycle(ds), StartupAmong(ds, startup));
    }
    if JudgesById(Lifecycle(ds), StartupAmong(ds, startup)) {
      AcceptedById(Lifecycle(ds), StartupAmong(ds, startup));
    }
  }

  lemma NothingFed(startup: nat)
    ensures Run(Lifecycle([]), StartupAmong([], startup)) == if startup == 0 then NEW_GUARD.Completed() else NEW_GUARD
    ensures Fold(Accepted(Lifecycle([]), StartupAmong([], startup))) == EMPTY_VIEW
  {
  }

  /** Startup ends with this delivery, or it has ended before, or it is still to end. */
  lemma AfterDelivery(ds: seq<Delivery>, d: Delivery, startup: nat)
    ensures var l := Lifecycle(ds + [d]); var k := StartupAmong(ds + [d], startup);
            var m := if |ds| < startup then |l| + 1 else StartupAmong(ds, startup);
            && Run(l, k) == (if |ds| + 1 == startup then Run(l, m).Completed() else Run(l, m))
            && Accepted(l, k) == Accepted(l, m)
  {
    var longer := ds + [d];
    if |ds| + 1 == startup {
      assert longer[..startup] == longer;
      StartupEnds(Lifecycle(longer), |Lifecycle(longer)| + 1);
    } else if startup <= |ds| {
      assert longer[..startup] == ds[..startup];
    }
  }

  // ---- Feeding a whole log ----

  /** Each entry once, under its stream sequence. */
  function Deliveries(log: Log): seq<Delivery> {
    seq(|log|, i requires 0 <= i < |log| => Delivery(log[i], i + 1))
  }

  function LifecycleOf(log: Log): seq<Delivery> {
    Lifecycle(Deliveries(log))
  }

  /** No lifecycle entry repeats the event id of an earlier one. */
  ghost predicate OwnIds(log: Log) {
    NoIdRepeats(LifecycleOf(log))
  }

  lemma LogGrows(log: Log, e: Entry)
    ensures LifecycleOf(log + [e]) ==
            if e.event.IsLifecycle() then LifecycleOf(log) + [Delivery(e, |log| + 1)] else LifecycleOf(log)
  {
    assert Deliveries(log + [e]) == Deliveries(log) + [Delivery(e, |log| + 1)];
    LifecycleGrows(Deliveries(log), Delivery(e, |log| + 1));
  }

  lemma ForeignChangesNothing(v: View, e: Event)
    requires !e.IsLifecycle()
    ensures Step(v, e) == v
  {
  }

  lemma RepeatsGrow(ds: seq<Delivery>, d: Delivery)
    ensures NoIdRepeats(ds + [d]) <==> NoIdRepeats(ds) && !RepeatsId(ds + [d], |ds|)
    ensures FirstById(ds + [d]) == FirstById(ds) + (if RepeatsId(ds + [d], |ds|) then [] else [d.entry])
  {
    assert (ds + [d])[..|ds|] == ds;
    forall i | 0 <= i < |ds| ensures RepeatsId(ds + [d], i) <==> RepeatsId(ds, i) {
      assert (ds + [d])[i] == ds[i];
    }
  }

  ghost predicate UpTo(ds: seq<Delivery>, n: nat) {
    forall i :: 0 <= i < |ds| ==> ds[i].seqNo <= n
  }

  lemma {:induction false} LongerLog(log: Log, e: Entry)
    requires UpTo(LifecycleOf(log), |log|)
    requires OwnIds(log) ==> Fold(FirstById(LifecycleOf(log))) == Fold(log)
    ensures UpTo(LifecycleOf(log + [e]), |log| + 1)
    ensures OwnIds(log + [e]) ==> Fold(FirstById(LifecycleOf(log + [e]))) == Fold(log + [e])
  {
    hide Fold, FirstById, LifecycleOf, Step, NoIdRepeats, RepeatsId;
    LogGrows(log, e);
    FoldGrows(log, e);
    FoldGrows(FirstById(LifecycleOf(log)), e);
    if e.event.IsLifecycle() {
      RepeatsGrow(LifecycleOf(log), Delivery(e, |log| + 1));
    } else {
      ForeignChangesNothing(Fold(log), e.event);
    }
  }

  lemma EmptyLog(log: Log)
    requires log == []
    ensures LifecycleOf(log) == [] && FirstById([]) == []
  {
  }

  lemma {:induction false} LogIsFed(log: Log)
    ensures UpTo(LifecycleOf(log), |log|)
    ensures OwnIds(log) ==> Fold(FirstById(LifecycleOf(log))) == Fold(log)
  {
    hide Fold, FirstById, LifecycleOf, OwnIds;
    if log == [] {
      EmptyLog(log);
    } else {
      var before, e := log[..|log| - 1], log[|log| - 1];
      LogIsFed(before);
      LongerLog(before, e);
      assert log == before + [e];
    }
  }

  /** What startup brings about, for every log: the maps are the fold of the first entries by event id, and the guard
      judges by sequence from now on exactly if no id was repeated, and then the maps are the fold of the log. */
  method ReplayLog(log: Log) returns (p: Projection)
    ensures fresh(p) && fresh(p.guard)
    ensures p.Contents() == Fold(FirstById(LifecycleOf(log)))
    ensures p.guard.Value().complete && p.guard.Value().highest <= |log|
    ensures p.guard.Value().compatible <==> !OwnIds(log)
    ensures OwnIds(log) ==> p.Contents() == Fold(log)
  {
    p := new Projection();
    var ds := Deliveries(log);
    Feed(p, ds, |ds|);
    var l := Lifecycle(ds);
    assert ds[..|ds|] == ds;
    LogIsFed(log);
    CompatibleExactly(l, |l|);
    HighestIsDelivered(l, |l|, |log|);
    CompletesAt(l);
  }
}
