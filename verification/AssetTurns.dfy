/** What the rest of the world does while a call is under way, and what the call itself has written. */
module AssetTurns {
  import opened Common
  import opened AssetEvents
  import opened AssetGraph

  datatype Error = Invalid | Cancelled | LifecycleSkipped | TailConflict

  /** Every entry written since startup lies on its asset's own subject. */
  type FencedEntry = e: Entry | e.lane == Aggregate witness Entry("", "", Aggregate, Other(""))

  /** What the rest of the world does while a call is at an I/O point: others append, the projector
      moves on, and the call itself may be cancelled there. */
  datatype Turn = Turn(appends: seq<FencedEntry>, catchUp: nat, cancelled: bool)

  /** The others delete nothing. */
  ghost predicate Sparing(turns: seq<Turn>) {
    forall i, j :: 0 <= i < |turns| && 0 <= j < |turns[i].appends| ==> !turns[i].appends[j].event.AssetDeleted?
  }

  /** How many more I/O points fail. */
  function Cancellations(turns: seq<Turn>): nat {
    if turns == [] then 0 else (if turns[0].cancelled then 1 else 0) + Cancellations(turns[1..])
  }

  /** Nothing fails or is cancelled. */
  ghost predicate Calm(turns: seq<Turn>) {
    Cancellations(turns) == 0
  }

  /** What the others are still going to append. */
  function Coming(turns: seq<Turn>): Log {
    if turns == [] then [] else turns[0].appends + Coming(turns[1..])
  }

  // ---- What a call has written ----

  datatype Moment = Moment(log: Log, turns: seq<Turn>)

  /** Between two moments the call wrote exactly `own`: all else in the log was there or came from the others. */
  ghost predicate Wrote(m: Moment, n: Moment, own: multiset<Entry>) {
    multiset(n.log) + multiset(Coming(n.turns)) == multiset(m.log) + multiset(Coming(m.turns)) + own
  }

  lemma WroteNothing(m: Moment)
    ensures Wrote(m, m, multiset{})
  {
  }

  lemma WroteBoth(l: Moment, m: Moment, n: Moment, first: multiset<Entry>, second: multiset<Entry>)
    requires Wrote(l, m, first) && Wrote(m, n, second)
    ensures Wrote(l, n, first + second)
    ensures first == multiset{} ==> Wrote(l, n, second)
    ensures second == multiset{} ==> Wrote(l, n, first)
  {
    assert first == multiset{} ==> first + second == second;
    assert second == multiset{} ==> first + second == first;
  }

  /** What a call wrote is determined. */
  lemma WroteExactly(m: Moment, n: Moment, own: multiset<Entry>, other: multiset<Entry>)
    requires Wrote(m, n, own) && Wrote(m, n, other)
    ensures own == other
  {
    var base := multiset(m.log) + multiset(Coming(m.turns));
    forall e ensures own[e] == other[e] {
      assert (base + own)[e] == base[e] + own[e] && (base + other)[e] == base[e] + other[e];
    }
  }

  /** What a call that should write one entry has written, by its result: the entry if it succeeded, nothing if it was
      refused, and either if it was cut off. */
  ghost predicate WroteFor(m: Moment, n: Moment, entry: Entry, r: Result<nat, Error>) {
    match r
    case Ok(_) => Wrote(m, n, multiset{entry})
    case Err(Cancelled) => Wrote(m, n, multiset{}) || Wrote(m, n, multiset{entry})
    case Err(_) => Wrote(m, n, multiset{})
  }

  lemma WroteForLonger(l: Moment, m: Moment, n: Moment, k: Moment, entry: Entry, r: Result<nat, Error>,
                       q: Result<nat, Error>)
    requires Wrote(l, m, multiset{}) && WroteFor(m, n, entry, r) && Wrote(n, k, multiset{})
    requires q == r || q == Err(Cancelled)
    ensures WroteFor(l, k, entry, q)
  {
    hide Wrote;
    if Wrote(m, n, multiset{}) {
      WroteBoth(l, m, n, multiset{}, multiset{});
      WroteBoth(l, n, k, multiset{}, multiset{});
    }
    if Wrote(m, n, multiset{entry}) {
      WroteBoth(l, m, n, multiset{}, multiset{entry});
      WroteBoth(l, n, k, multiset{entry}, multiset{});
    }
  }

  function Answer(error: Option<Error>): Result<nat, Error> {
    if error.None? then Ok(0) else Err(error.value)
  }

  /** What it was. */
  ghost function Written(m: Moment, n: Moment, entry: Entry, r: Result<nat, Error>): (own: multiset<Entry>)
    requires WroteFor(m, n, entry, r)
    ensures Wrote(m, n, own) && (own == multiset{entry} || own == multiset{})
    ensures r.Ok? ==> own == multiset{entry}
    ensures r.Err? && r.error != Cancelled ==> own == multiset{}
  {
    if r.Ok? || (r == Err(Cancelled) && Wrote(m, n, multiset{entry})) then multiset{entry} else multiset{}
  }

  lemma SameAnswer(m: Moment, n: Moment, entry: Entry, r: Result<nat, Error>, error: Option<Error>)
    requires WroteFor(m, n, entry, if error.Some? then Err(error.value) else r) && r.Ok?
    ensures WroteFor(m, n, entry, Answer(error))
  {
  }

  lemma Refused(m: Moment, n: Moment, entry: Entry, r: Result<nat, Error>)
    requires Wrote(m, n, multiset{}) && r.Err?
    ensures WroteFor(m, n, entry, r)
  {
  }

  lemma WasRefused(m: Moment, n: Moment, entry: Entry, r: Result<nat, Error>)
    requires WroteFor(m, n, entry, r) && r.Err? && r.error != Cancelled
    ensures Wrote(m, n, multiset{})
  {
  }

  lemma TurnTaken(log: Log, turns: seq<Turn>)
    requires turns != []
    ensures Wrote(Moment(log, turns), Moment(log + turns[0].appends, turns[1..]), multiset{})
  {
  }

  lemma EntryWritten(log: Log, turns: seq<Turn>, entry: Entry)
    ensures Wrote(Moment(log, turns), Moment(log + [entry], turns), multiset{entry})
  {
  }

  // ---- What deletions have written ----

  ghost predicate IsDeleteBy(e: Entry, actorId: Id, id: Id) {
    e == Entry(e.eventId, actorId, Aggregate, AssetDeleted(id))
  }

  /** Only these assets are deleted by this actor, and at least n entries do so. */
  ghost predicate DeletesSome(own: multiset<Entry>, actorId: Id, ids: set<Id>, n: nat) {
    n <= |own| <= |ids| && forall e :: e in own ==> IsDeleteBy(e, actorId, e.event.Asset()) && e.event.Asset() in ids
  }

  lemma DeletesOne(own: multiset<Entry>, entry: Entry, actorId: Id, id: Id, ok: bool)
    requires IsDeleteBy(entry, actorId, id) && (own == multiset{entry} || (own == multiset{} && !ok))
    ensures DeletesSome(own, actorId, {id}, if ok then 1 else 0)
  {
  }

  lemma DeletesMore(own: multiset<Entry>, more: multiset<Entry>, actorId: Id, ids: seq<Id>, i: nat, n: nat, k: nat)
    requires i < |ids| && Distinct(ids)
    requires DeletesSome(own, actorId, Ids(ids[..i]), n) && DeletesSome(more, actorId, {ids[i]}, k)
    ensures DeletesSome(own + more, actorId, Ids(ids[..i + 1]), n + k)
  {
    assert ids[..i + 1] == ids[..i] + [ids[i]];
    assert Ids(ids[..i + 1]) == Ids(ids[..i]) + {ids[i]};
    assert ids[i] !in ids[..i];
  }

  /** Of the first i ids n have been deleted, the call wrote nothing else, and every id left cost a cancelled step. */
  ghost predicate Counted(start: Moment, now: Moment, actorId: Id, ids: seq<Id>, i: nat, n: nat, own: multiset<Entry>)
    requires i <= |ids|
  {
    && Wrote(start, now, own) && DeletesSome(own, actorId, Ids(ids[..i]), n)
    && (actorId != "" ==> i - n + Cancellations(now.turns) <= Cancellations(start.turns))
  }

  lemma CountedNone(start: Moment, actorId: Id, ids: seq<Id>)
    ensures Counted(start, start, actorId, ids, 0, 0, multiset{})
  {
  }

  lemma CountedOneMore(start: Moment, before: Moment, now: Moment, actorId: Id, ids: seq<Id>, i: nat, n: nat,
                       own: multiset<Entry>, more: multiset<Entry>, ok: bool)
    requires i < |ids| && Distinct(ids) && Counted(start, before, actorId, ids, i, n, own)
    requires Wrote(before, now, more) && DeletesSome(more, actorId, {ids[i]}, if ok then 1 else 0)
    requires actorId != "" ==> (if ok then 0 else 1) + Cancellations(now.turns) <= Cancellations(before.turns)
    ensures Counted(start, now, actorId, ids, i + 1, if ok then n + 1 else n, own + more)
  {
    hide Wrote, DeletesSome;
    WroteBoth(start, before, now, own, more);
    DeletesMore(own, more, actorId, ids, i, n, if ok then 1 else 0);
  }

  lemma CountedAll(start: Moment, now: Moment, actorId: Id, ids: seq<Id>, n: nat, own: multiset<Entry>)
    requires Counted(start, now, actorId, ids, |ids|, n, own)
    ensures Wrote(start, now, own) && DeletesSome(own, actorId, Ids(ids), n)
    ensures actorId != "" ==> |ids| - n + Cancellations(now.turns) <= Cancellations(start.turns)
  {
    assert ids[..|ids|] == ids;
  }
}
