/** Push subscriptions, at most one for each browser client. */
module PushDedupe {
  import opened Common

  /** createdAt is absent when the record carries no creation time. */
  datatype Subscription = Subscription(clientId: string, createdAt: Option<int>, endpoint: string)

  function PushSubscriptionNewer(candidate: Subscription, current: Subscription): bool {
    if candidate.createdAt.None? then false
    else if current.createdAt.None? then true
    else candidate.createdAt.value > current.createdAt.value
  }

  // ---- What the result should be, read off the input ----

  predicate SameClient(a: Subscription, b: Subscription) {
    a.clientId != "" && a.clientId == b.clientId
  }

  /** No entry before i belongs to the same client. */
  predicate IsFirst(s: seq<Subscription>, i: nat)
    requires i < |s|
  {
    forall j :: 0 <= j < i ==> !SameClient(s[j], s[i])
  }

  /** No entry of the client was created later, and among those created last, if any have a time, it is the earliest
      listed. */
  ghost predicate IsWinner(s: seq<Subscription>, w: nat) {
    && w < |s|
    && (forall j :: 0 <= j < |s| && SameClient(s[j], s[w]) && s[j].createdAt.Some? ==>
          s[w].createdAt.Some? && s[j].createdAt.value <= s[w].createdAt.value)
    && (forall j :: 0 <= j < w && SameClient(s[j], s[w]) ==> s[j].createdAt != s[w].createdAt)
  }

  /** The positions of first entries, in order. */
  function Firsts(s: seq<Subscription>): (at: seq<nat>)
    ensures forall k :: 0 <= k < |at| ==> at[k] < |s| && IsFirst(s, at[k])
  {
    if s == [] then []
    else
      var n := |s| - 1;
      Firsts(s[..n]) + (if IsFirst(s, n) then [n] else [])
  }

  /** x stands for the client whose first entry is at i; an entry without a client stands for itself. */
  ghost predicate StandsFor(s: seq<Subscription>, i: nat, x: Subscription)
    requires i < |s|
  {
    if s[i].clientId == "" then x == s[i]
    else exists w: nat :: IsWinner(s, w) && SameClient(s[w], s[i]) && x == s[w]
  }

  ghost predicate IsDeduped(s: seq<Subscription>, r: seq<Subscription>) {
    |r| == |Firsts(s)| && forall k :: 0 <= k < |r| ==> StandsFor(s, Firsts(s)[k], r[k])
  }

  // ---- One pass ----

  /** The first entry of the client, or the length if there is none. */
  function IndexOf(r: seq<Subscription>, x: Subscription): (k: nat)
    ensures k <= |r| && (k < |r| ==> SameClient(r[k], x))
    ensures forall j :: 0 <= j < k ==> !SameClient(r[j], x)
  {
    if r == [] || SameClient(r[0], x) then 0 else 1 + IndexOf(r[1..], x)
  }

  function Add(r: seq<Subscription>, x: Subscription): seq<Subscription> {
    var k := IndexOf(r, x);
    if k == |r| then r + [x]
    else if PushSubscriptionNewer(x, r[k]) then r[k := x] else r
  }

  function Deduped(s: seq<Subscription>): seq<Subscription> {
    if s == [] then [] else Add(Deduped(s[..|s| - 1]), s[|s| - 1])
  }

  predicate DistinctClients(r: seq<Subscription>) {
    forall i, j :: 0 <= i < j < |r| ==> !SameClient(r[i], r[j])
  }

  method DedupePushSubscriptionsByClientID(subscriptions: seq<Subscription>) returns (result: seq<Subscription>)
    ensures result == Deduped(subscriptions)
    ensures IsDeduped(subscriptions, result)
  {
    hide IsDeduped, Firsts, PushSubscriptionNewer;
    DedupedIsDeduped(subscriptions);
    if |subscriptions| < 2 {
      DistinctIsKept(subscriptions);
      return subscriptions;
    }
    result := [];
    var resultIndexByClientID: map<string, nat> := map[];
    for i := 0 to |subscriptions|
      invariant result == Deduped(subscriptions[..i])
      invariant forall c :: c in resultIndexByClientID ==>
                  resultIndexByClientID[c] < |result| && result[resultIndexByClientID[c]].clientId == c != ""
      invariant forall k :: 0 <= k < |result| && result[k].clientId != "" ==>
                  result[k].clientId in resultIndexByClientID && resultIndexByClientID[result[k].clientId] == k
    {
      var subscription := subscriptions[i];
      var clientID := subscription.clientId;
      assert subscriptions[..i + 1][..i] == subscriptions[..i];
      ghost var k := IndexOf(result, subscription);
      if clientID == "" {
        result := result + [subscription];
      } else if clientID !in resultIndexByClientID {
        resultIndexByClientID := resultIndexByClientID[clientID := |result|];
        result := result + [subscription];
      } else {
        var existingIndex := resultIndexByClientID[clientID];
        assert k == existingIndex;
        if PushSubscriptionNewer(subscription, result[existingIndex]) {
          result := result[existingIndex := subscription];
        }
      }
    }
    assert subscriptions[..|subscriptions|] == subscriptions;
  }

  // ---- The pass computes the reading ----

  lemma {:induction false} FirstsIncrease(s: seq<Subscription>, k: nat, l: nat)
    requires k < l < |Firsts(s)|
    ensures Firsts(s)[k] < Firsts(s)[l]
  {
    var n := |s| - 1;
    if l < |Firsts(s[..n])| {
      FirstsIncrease(s[..n], k, l);
    }
  }

  lemma FirstsAreOfDistinctClients(s: seq<Subscription>, k: nat, l: nat)
    requires k < |Firsts(s)| && l < |Firsts(s)| && k != l
    ensures !SameClient(s[Firsts(s)[k]], s[Firsts(s)[l]])
  {
  }

  lemma StandInsKeepClient(s: seq<Subscription>, r: seq<Subscription>)
    requires IsDeduped(s, r)
    ensures forall k :: 0 <= k < |r| ==> r[k].clientId == s[Firsts(s)[k]].clientId
    ensures DistinctClients(r)
  {
    forall k | 0 <= k < |r| ensures r[k].clientId == s[Firsts(s)[k]].clientId {
      assert StandsFor(s, Firsts(s)[k], r[k]);
    }
    forall i, j | 0 <= i < j < |r| ensures !SameClient(r[i], r[j]) {
      FirstsAreOfDistinctClients(s, i, j);
    }
  }

  /** A client is in the result exactly if it is in the input. */
  lemma {:induction false} EveryClientHasFirst(s: seq<Subscription>, j: nat)
    requires j < |s| && s[j].clientId != ""
    ensures exists k :: 0 <= k < |Firsts(s)| && SameClient(s[Firsts(s)[k]], s[j])
    decreases |s|
  {
    var n := |s| - 1;
    if j == n && IsFirst(s, n) {
      assert Firsts(s)[|Firsts(s)| - 1] == n;
    } else {
      var i := if j < n then j else FirstOfClient(s, n);
      EveryClientHasFirst(s[..n], i);
      var k :| 0 <= k < |Firsts(s[..n])| && SameClient(s[..n][Firsts(s[..n])[k]], s[..n][i]);
      assert Firsts(s)[k] == Firsts(s[..n])[k];
    }
  }

  ghost function FirstOfClient(s: seq<Subscription>, n: nat): (i: nat)
    requires n < |s| && !IsFirst(s, n)
    ensures i < n && SameClient(s[i], s[n])
  {
    var i: nat :| i < n && SameClient(s[i], s[n]);
    i
  }

  /** Entries of other clients leave a stand-in alone. */
  lemma StandInKept(s: seq<Subscription>, x: Subscription, i: nat, y: Subscription)
    requires i < |s| && StandsFor(s, i, y) && !SameClient(x, s[i])
    ensures StandsFor(s + [x], i, y)
  {
    if s[i].clientId != "" {
      var w: nat :| IsWinner(s, w) && SameClient(s[w], s[i]) && y == s[w];
      assert IsWinner(s + [x], w);
    }
  }

  /** A further entry of a client replaces the stand-in exactly if it is newer. */
  lemma StandInChallenged(s: seq<Subscription>, x: Subscription, i: nat, y: Subscription)
    requires i < |s| && StandsFor(s, i, y) && SameClient(x, s[i])
    ensures StandsFor(s + [x], i, if PushSubscriptionNewer(x, y) then x else y)
  {
    var w: nat :| IsWinner(s, w) && SameClient(s[w], s[i]) && y == s[w];
    if PushSubscriptionNewer(x, y) {
      assert (s + [x])[|s|] == x;
      assert IsWinner(s + [x], |s|);
    } else {
      assert IsWinner(s + [x], w);
    }
  }

  lemma FirstsOfLonger(s: seq<Subscription>, x: Subscription)
    ensures Firsts(s + [x]) == Firsts(s) + (if exists j :: 0 <= j < |s| && SameClient(s[j], x) then [] else [|s|])
  {
  }

  lemma NewEntryStands(s: seq<Subscription>, x: Subscription)
    requires forall j :: 0 <= j < |s| ==> !SameClient(s[j], x)
    ensures StandsFor(s + [x], |s|, x)
  {
  }

  lemma AddKeepsReading(s: seq<Subscription>, r: seq<Subscription>, x: Subscription)
    requires IsDeduped(s, r)
    ensures IsDeduped(s + [x], Add(r, x))
  {
    StandInsKeepClient(s, r);
    FirstsOfLonger(s, x);
    hide IsWinner, Firsts, IsFirst, PushSubscriptionNewer, StandsFor;
    var k := IndexOf(r, x);
    forall l | 0 <= l < |r| && l != k ensures StandsFor(s + [x], Firsts(s)[l], r[l]) {
      assert !SameClient(x, r[l]) by {
        if k < |r| {
          assert !SameClient(r[k], r[l]) && !SameClient(r[l], r[k]);
        }
      }
      StandInKept(s, x, Firsts(s)[l], r[l]);
    }
    if k < |r| {
      StandInChallenged(s, x, Firsts(s)[k], r[k]);
      assert SameClient(s[Firsts(s)[k]], x);
    } else {
      forall j | 0 <= j < |s| ensures !SameClient(s[j], x) {
        if SameClient(s[j], x) {
          EveryClientHasFirst(s, j);
        }
      }
      NewEntryStands(s, x);
    }
  }

  /**
   * Every entry without a client is kept, and every client keeps one entry, at the place of its first: the earliest
   * of its newest.
   */
  lemma {:induction false} DedupedIsDeduped(s: seq<Subscription>)
    ensures IsDeduped(s, Deduped(s))
  {
    if s != [] {
      hide IsDeduped, Add;
      var n := |s| - 1;
      DedupedIsDeduped(s[..n]);
      AddKeepsReading(s[..n], Deduped(s[..n]), s[n]);
      assert s == s[..n] + [s[n]];
    }
  }

  /** The reading leaves no choice. */
  lemma ReadingIsUnique(s: seq<Subscription>, r: seq<Subscription>, t: seq<Subscription>)
    requires IsDeduped(s, r) && IsDeduped(s, t)
    ensures r == t
  {
    hide StandsFor, Firsts;
    forall k | 0 <= k < |r| ensures r[k] == t[k] {
      assert StandsFor(s, Firsts(s)[k], r[k]) && StandsFor(s, Firsts(s)[k], t[k]);
      StandInIsUnique(s, Firsts(s)[k], r[k], t[k]);
    }
  }

  lemma StandInIsUnique(s: seq<Subscription>, i: nat, x: Subscription, y: Subscription)
    requires i < |s| && StandsFor(s, i, x) && StandsFor(s, i, y)
    ensures x == y
  {
    if s[i].clientId != "" {
      var v: nat :| IsWinner(s, v) && SameClient(s[v], s[i]) && x == s[v];
      var w: nat :| IsWinner(s, w) && SameClient(s[w], s[i]) && y == s[w];
      assert SameClient(s[v], s[w]) && SameClient(s[w], s[v]);
    }
  }

  lemma {:induction false} DistinctIsKept(s: seq<Subscription>)
    requires DistinctClients(s)
    ensures Deduped(s) == s
  {
    if s != [] {
      var n := |s| - 1;
      DistinctIsKept(s[..n]);
      assert s == s[..n] + [s[n]];
    }
  }

  lemma DedupeIsIdempotent(s: seq<Subscription>)
    ensures Deduped(Deduped(s)) == Deduped(s)
  {
    DedupedIsDeduped(s);
    StandInsKeepClient(s, Deduped(s));
    DistinctIsKept(Deduped(s));
  }
}
