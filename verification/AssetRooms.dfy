/** The walk from an asset up its parent links to the nearest room. */
module AssetRooms {
  import opened Common
  import opened AssetEvents

  type Creations = map<Id, Creation>

  function Find<V>(m: map<Id, V>, id: Id): Option<V> {
    if id in m then Some(m[id]) else None
  }

  /** The walk as the projection performs it: it stops when a parent id comes up twice. */
  function WalkRoom(creations: Creations, at: Option<Creation>, seen: set<Id>): Id
    decreases if at.None? then 0 else 1 + |creations.Keys - seen|
  {
    if at.None? then ""
    else if at.value.roomId != "" then at.value.roomId
    else
      var parent := at.value.parentId;
      if parent == "" || parent in seen then ""
      else
        assert parent in creations ==>
            creations.Keys - (seen + {parent}) == (creations.Keys - seen) - {parent};
        WalkRoom(creations, Find(creations, parent), seen + {parent})
  }

  /** The k-th creation on the chain that starts at `start` and follows parent links. */
  ghost function Up(creations: Creations, start: Option<Creation>, k: nat): Option<Creation> {
    if k == 0 then start
    else
      var below := Up(creations, start, k - 1);
      if below.None? || below.value.parentId == "" then None
      else Find(creations, below.value.parentId)
  }

  ghost predicate Roomless(creations: Creations, start: Option<Creation>, k: nat) {
    Up(creations, start, k).Some? ==> Up(creations, start, k).value.roomId == ""
  }

  ghost predicate RoomlessBelow(creations: Creations, start: Option<Creation>, k: nat) {
    forall j: nat :: j < k ==> Roomless(creations, start, j)
  }

  ghost predicate RoomAt(creations: Creations, start: Option<Creation>, k: nat, room: Id) {
    && RoomlessBelow(creations, start, k)
    && Up(creations, start, k).Some?
    && Up(creations, start, k).value.roomId == room
  }

  /** What the walk is for, on chains of any shape: the first non-empty room met, or none. */
  ghost predicate NearestRoom(creations: Creations, start: Option<Creation>, room: Id) {
    if room != "" then exists k: nat :: RoomAt(creations, start, k, room)
    else forall k: nat :: Roomless(creations, start, k)
  }

  lemma NearestRoomIsUnique(creations: Creations, start: Option<Creation>, r: Id, s: Id)
    requires NearestRoom(creations, start, r) && NearestRoom(creations, start, s)
    ensures r == s
  {
    if r != "" {
      var k: nat :| RoomAt(creations, start, k, r);
      assert !Roomless(creations, start, k);
    }
    if s != "" {
      var m: nat :| RoomAt(creations, start, m, s);
      assert !Roomless(creations, start, m);
    }
  }

  /** Once a parent id repeats, the chain only revisits creations it has already passed. */
  lemma {:induction false} ChainRepeats(creations: Creations, start: Option<Creation>, j: nat, k: nat, m: nat)
    returns (i: nat)
    requires j < k && Up(creations, start, j).Some? && Up(creations, start, k).Some?
    requires Up(creations, start, j).value.parentId == Up(creations, start, k).value.parentId
    ensures i <= k && Up(creations, start, m) == Up(creations, start, i)
  {
    if m <= k {
      i := m;
    } else {
      i := ChainRepeats(creations, start, j, k, m - 1);
      i := if i == k then j + 1 else i + 1;
    }
  }

  lemma {:induction false} ChainEnds(creations: Creations, start: Option<Creation>, k: nat, m: nat)
    requires k <= m && Up(creations, start, k).None?
    ensures Up(creations, start, m).None?
  {
    if k < m {
      ChainEnds(creations, start, k, m - 1);
    }
  }

  lemma RoomlessAfterEnd(creations: Creations, start: Option<Creation>, k: nat)
    requires RoomlessBelow(creations, start, k)
    requires Up(creations, start, k).None?
    ensures NearestRoom(creations, start, "")
  {
    forall m: nat ensures Roomless(creations, start, m) {
      if m >= k { ChainEnds(creations, start, k, m); }
    }
  }

  lemma RoomlessOnCycle(creations: Creations, start: Option<Creation>, j: nat, k: nat)
    requires RoomlessBelow(creations, start, k + 1)
    requires j < k && Up(creations, start, j).Some? && Up(creations, start, k).Some?
    requires Up(creations, start, j).value.parentId == Up(creations, start, k).value.parentId
    ensures NearestRoom(creations, start, "")
  {
    forall m: nat ensures Roomless(creations, start, m) {
      var i := ChainRepeats(creations, start, j, k, m);
      assert Roomless(creations, start, i);
    }
  }

  /** Some creation before the k-th one names `p` as its parent. */
  ghost predicate PassedParent(creations: Creations, start: Option<Creation>, k: nat, p: Id) {
    exists j: nat ::
      j < k && Up(creations, start, j).Some? && Up(creations, start, j).value.parentId == p
  }

  /** Everything the walk has seen was named as a parent before step k. */
  ghost predicate SeenBefore(creations: Creations, start: Option<Creation>, k: nat, seen: set<Id>) {
    forall p :: p in seen ==> PassedParent(creations, start, k, p)
  }

  lemma RoomlessGrows(creations: Creations, start: Option<Creation>, k: nat)
    requires RoomlessBelow(creations, start, k) && Roomless(creations, start, k)
    ensures RoomlessBelow(creations, start, k + 1)
  {
  }

  lemma SeenGrows(creations: Creations, start: Option<Creation>, k: nat, seen: set<Id>)
    requires SeenBefore(creations, start, k, seen) && Up(creations, start, k).Some?
    ensures SeenBefore(creations, start, k + 1, seen + {Up(creations, start, k).value.parentId})
  {
  }

  lemma RoomlessOnSeenParent(creations: Creations, start: Option<Creation>, k: nat, seen: set<Id>)
    requires RoomlessBelow(creations, start, k + 1)
    requires SeenBefore(creations, start, k, seen) && Up(creations, start, k).Some?
    requires Up(creations, start, k).value.parentId in seen
    ensures NearestRoom(creations, start, "")
  {
    var parent := Up(creations, start, k).value.parentId;
    assert PassedParent(creations, start, k, parent);
    var j: nat :| j < k && Up(creations, start, j).Some? && Up(creations, start, j).value.parentId == parent;
    RoomlessOnCycle(creations, start, j, k);
  }

  /** What is left of a walk: the creations not yet seen as parents. */
  ghost function Left(creations: Creations, at: Option<Creation>, seen: set<Id>): nat {
    if at.None? then 0 else 1 + |creations.Keys - seen|
  }

  lemma WalkShrinks(creations: Creations, at: Option<Creation>, seen: set<Id>, parent: Id)
    requires at.Some? && parent !in seen
    ensures Left(creations, Find(creations, parent), seen + {parent}) < Left(creations, at, seen)
  {
    assert parent in creations ==> creations.Keys - (seen + {parent}) == (creations.Keys - seen) - {parent};
  }

  lemma {:induction false} WalkFrom(creations: Creations, start: Option<Creation>, k: nat, at: Option<Creation>,
                                    seen: set<Id>)
    requires at == Up(creations, start, k)
    requires RoomlessBelow(creations, start, k) && SeenBefore(creations, start, k, seen)
    ensures NearestRoom(creations, start, WalkRoom(creations, at, seen))
    decreases Left(creations, at, seen)
  {
    if at.None? {
      RoomlessAfterEnd(creations, start, k);
    } else if at.value.roomId != "" {
      assert RoomAt(creations, start, k, at.value.roomId);
    } else {
      var parent := at.value.parentId;
      RoomlessGrows(creations, start, k);
      if parent == "" {
        RoomlessAfterEnd(creations, start, k + 1);
      } else if parent in seen {
        RoomlessOnSeenParent(creations, start, k, seen);
      } else {
        SeenGrows(creations, start, k, seen);
        WalkShrinks(creations, at, seen, parent);
        WalkFrom(creations, start, k + 1, Find(creations, parent), seen + {parent});
      }
    }
  }

  /** The walk returns the nearest room, on cyclic parent links too. */
  lemma WalkFindsNearestRoom(creations: Creations, start: Option<Creation>)
    ensures NearestRoom(creations, start, WalkRoom(creations, start, {}))
  {
    WalkFrom(creations, start, 0, start, {});
  }

  /** Removing creations that the chain never visits does not change the chain. */
  lemma {:induction false} ChainIgnoresOthers(creations: Creations, start: Option<Creation>, gone: set<Id>, k: nat)
    requires forall j: nat :: Up(creations, start, j).Some? ==> Up(creations, start, j).value.parentId !in gone
    ensures Up(creations - gone, start, k) == Up(creations, start, k)
  {
    if k > 0 {
      ChainIgnoresOthers(creations, start, gone, k - 1);
    }
  }

  lemma WalkIgnoresOthers(creations: Creations, start: Option<Creation>, gone: set<Id>)
    requires forall j: nat :: Up(creations, start, j).Some? ==> Up(creations, start, j).value.parentId !in gone
    ensures WalkRoom(creations - gone, start, {}) == WalkRoom(creations, start, {})
  {
    var kept := creations - gone;
    forall k: nat ensures Up(kept, start, k) == Up(creations, start, k) {
      ChainIgnoresOthers(creations, start, gone, k);
    }
    WalkFindsNearestRoom(creations, start);
    WalkFindsNearestRoom(kept, start);
    var r := WalkRoom(kept, start, {});
    if r != "" {
      var k: nat :| RoomAt(kept, start, k, r);
      assert forall j: nat :: Roomless(kept, start, j) == Roomless(creations, start, j);
      assert RoomAt(creations, start, k, r);
    } else {
      assert forall j: nat :: Roomless(kept, start, j) == Roomless(creations, start, j);
    }
    assert NearestRoom(creations, start, r);
    NearestRoomIsUnique(creations, start, r, WalkRoom(creations, start, {}));
  }
}
