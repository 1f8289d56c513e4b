/**
 * The address manager's operations (src/addrman.cpp) as functions on its
 * tables. Each contract says which part of the consistency invariant the
 * operation needs and re-establishes, and what it does to the other entries.
 */
module AddrOps {
  import opened AddrTables

  // ----- entries and the random list -----

  /** Append a new entry without a slot and count it as new. */
  function Create(e: Env, t: Tables, a: Address, source: NetAddr): (r: Tables)
    requires Linked(e, t) && a.service !in t.idOf
    ensures Linked(e, r) && Orphan(r, t.idCount)
    ensures t.idCount !in t.info && r.info.Keys == t.info.Keys + {t.idCount}
    ensures forall j :: j in t.info ==> r.info[j] == t.info[j]
  {
    var entry := AddrInfo(a.service, a.time, a.services, source, 0, 0, 0, 0, 0, false, |t.random|);
    CreateLinked(e, t, entry);
    Created(t, entry)
  }

  function Created(t: Tables, entry: AddrInfo): Tables {
    t.(idCount := t.idCount + 1, info := t.info[t.idCount := entry], newCount := t.newCount + 1,
       idOf := t.idOf[entry.addr := t.idCount], random := t.random + [t.idCount])
  }

  lemma CreateLinked(e: Env, t: Tables, entry: AddrInfo)
    requires Linked(e, t) && entry.addr !in t.idOf
    requires entry.refCount == 0 && !entry.inTried && entry.randomPos == |t.random|
    requires entry.lastTry >= 0 && entry.lastSuccess >= 0
    ensures Linked(e, Created(t, entry))
  {
    hide AddrsLinked, RandomLinked, TriedPlaced, NewPlaced, RefsExact, CountsExact, Slots;
    var id, r := t.idCount, Created(t, entry);
    IndexAfterAppend(t.info, id, entry, t.idOf, t.random);
    CountsAfterUpdate(t.info, id, entry, t.newCount, t.triedCount);
    NewPlacedFrame(e, t.info, r.info, t.newTable);
    TriedPlacedFrame(e, t.info, r.info, t.triedTable);
    NoSlotsOutside(e, t.info, t.newTable, id);
    RefsAfterAppend(t.info, t.newTable, id, entry);
  }

  function SwapRandom(t: Tables, i: nat, j: nat): (r: Tables)
    requires RandomLinked(t.info, t.random)
    requires i == j || (i < |t.random| && j < |t.random|)
    ensures RandomLinked(r.info, r.random)
    ensures r == t.(info := r.info, random := r.random) && |r.random| == |t.random|
    ensures r.info.Keys == t.info.Keys && forall id :: id in t.info ==> Kept(t.info[id], r.info[id])
    ensures i < |t.random| ==> r.random[j] == t.random[i] && r.random[i] == t.random[j]
  {
    if i == j then t else
    var a, b := t.random[i], t.random[j];
    t.(info := t.info[a := t.info[a].(randomPos := j)][b := t.info[b].(randomPos := i)],
       random := t.random[i := b][j := a])
  }

  /** Shuffling `random` touches no other part of the invariant. */
  lemma ShuffleKeepsLinked(e: Env, t: Tables, r: Tables)
    requires Linked(e, t) && RandomLinked(r.info, r.random) && r == t.(info := r.info, random := r.random)
    requires r.info.Keys == t.info.Keys && forall id :: id in t.info ==> Kept(t.info[id], r.info[id])
    ensures Linked(e, r)
    ensures forall id :: Orphan(r, id) <==> Orphan(t, id)
    ensures CollisionsOccupied(e, t) ==> CollisionsOccupied(e, r)
  {
    hide AddrsLinked, RandomLinked, TriedPlaced, NewPlaced, CountsExact, Slots;
    AddrsFrame(t.info, r.info, t.idOf);
    CountsFrame(t.info, r.info, t.newCount, t.triedCount);
    NewPlacedFrame(e, t.info, r.info, t.newTable);
    TriedPlacedFrame(e, t.info, r.info, t.triedTable);
  }

  function Delete(e: Env, t: Tables, id: int): (r: Tables)
    requires Linked(e, t) && Orphan(t, id)
    ensures Linked(e, r) && r.info.Keys == t.info.Keys - {id} && KeepsOthers(t, r, id)
    ensures r == t.(info := r.info, idOf := r.idOf, random := r.random, newCount := t.newCount - 1)
  {
    var u := SwapRandom(t, t.info[id].randomPos, |t.random| - 1);
    DeleteLinked(e, t, u, id);
    DroppedLast(u, id)
  }

  function DroppedLast(t: Tables, id: int): Tables
    requires id in t.info && t.random != []
  {
    t.(random := t.random[..|t.random| - 1], idOf := t.idOf - {t.info[id].addr},
       info := t.info - {id}, newCount := t.newCount - 1)
  }

  lemma DeleteLinked(e: Env, t: Tables, u: Tables, id: int)
    requires Linked(e, t) && Orphan(t, id) && u == SwapRandom(t, t.info[id].randomPos, |t.random| - 1)
    ensures u.random != [] && Linked(e, DroppedLast(u, id))
    ensures var r := DroppedLast(u, id);
      && r.info.Keys == t.info.Keys - {id} && KeepsOthers(t, r, id)
      && r == t.(info := r.info, idOf := r.idOf, random := r.random, newCount := t.newCount - 1)
  {
    hide AddrsLinked, TriedPlaced, NewPlaced, RefsExact, IdsBounded, TimesOk, CountsExact, SwapRandom;
    ShuffleKeepsLinked(e, t, u);
    assert id in t.info && Kept(t.info[id], u.info[id]);
    DropLastLinked(e, u, id);
  }

  lemma DropLastLinked(e: Env, t: Tables, id: int)
    requires Linked(e, t) && Orphan(t, id) && t.random != [] && t.random[|t.random| - 1] == id
    ensures Linked(e, DroppedLast(t, id))
  {
    hide AddrsLinked, RandomLinked, TriedPlaced, NewPlaced, RefsExact, CountsExact, Slots;
    var m := t.info - {id};
    OrphanHasNoSlots(t.info, t.newTable, id);
    IndexAfterDropLast(t.info, t.idOf, t.random);
    CountsAfterErase(t.info, id, t.newCount, t.triedCount);
    RefsAfterErase(t.info, t.newTable, id);
    NewPlacedFrame(e, t.info, m, t.newTable);
    TriedPlacedFrame(e, t.info, m, t.triedTable);
  }

  // ----- slots of the new table -----

  function SlotOwner(t: Tables, s: Slot): int { if s in t.newTable then t.newTable[s] else -1 }

  /** What freeing slot `s` may change: the owner's count, or the owner altogether. */
  ghost predicate OnlyCleared(t: Tables, r: Tables, s: Slot) {
    && KeepsOthers(t, r, SlotOwner(t, s))
    && (forall id :: id in r.info ==> Kept(t.info[id].(refCount := r.info[id].refCount), r.info[id]))
    && (forall id :: Orphan(r, id) ==> Orphan(t, id))
    && r == t.(info := r.info, idOf := r.idOf, random := r.random,
               newTable := t.newTable - {s}, newCount := r.newCount)
  }

  /** Free a new-table slot; the entry goes when that was its last slot. */
  function ClearNew(e: Env, t: Tables, s: Slot): (r: Tables)
    requires Linked(e, t)
    ensures Linked(e, r) && s !in r.newTable && OnlyCleared(t, r, s)
  {
    hide Linked, OnlyCleared, KeepsOthers, Delete;
    if s !in t.newTable then NothingCleared(t, s); t else
    ReleasedLinked(e, t, s);
    var u := Released(t, s);
    if u.info[t.newTable[s]].refCount == 0 then
      var r := Delete(e, u, t.newTable[s]);
      DeleteCleared(t, s, r);
      r
    else ReleaseCleared(t, s); u
  }

  lemma NothingCleared(t: Tables, s: Slot)
    requires s !in t.newTable
    ensures OnlyCleared(t, t, s)
  {
    assert t.newTable - {s} == t.newTable;
  }

  lemma ReleaseCleared(t: Tables, s: Slot)
    requires s in t.newTable && t.newTable[s] in t.info && Released(t, s).info[t.newTable[s]].refCount != 0
    ensures OnlyCleared(t, Released(t, s), s)
  {}

  lemma DeleteCleared(t: Tables, s: Slot, r: Tables)
    requires s in t.newTable && t.newTable[s] in t.info && r.info.Keys == t.info.Keys - {t.newTable[s]}
    requires KeepsOthers(Released(t, s), r, t.newTable[s])
    requires var u := Released(t, s);
      r == u.(info := r.info, idOf := r.idOf, random := r.random, newCount := u.newCount - 1)
    ensures OnlyCleared(t, r, s)
  {
    var id := t.newTable[s];
    forall j | j in r.info ensures j in t.info && j != id && Kept(t.info[j], r.info[j]) { assert j in r.info.Keys; }
  }

  function Released(t: Tables, s: Slot): Tables
    requires s in t.newTable && t.newTable[s] in t.info
  {
    var id := t.newTable[s];
    t.(newTable := t.newTable - {s}, info := t.info[id := t.info[id].(refCount := t.info[id].refCount - 1)])
  }

  lemma ReleasedLinked(e: Env, t: Tables, s: Slot)
    requires Linked(e, t) && s in t.newTable
    ensures t.newTable[s] in t.info && !t.info[t.newTable[s]].inTried && Linked(e, Released(t, s))
  {
    hide AddrsLinked, RandomLinked, TriedPlaced, RefsExact, CountsExact, Slots;
    var id, r := t.newTable[s], Released(t, s);
    assert id in t.info && !t.info[id].inTried;
    UpdateLinked(e, t, id, r.info[id]);
    RefsAfterRelease(t.info, t.newTable, s);
  }

  /** Clauses that survive a change of an entry that keeps its identity and its table. */
  lemma UpdateLinked(e: Env, t: Tables, id: int, x: AddrInfo)
    requires Linked(e, t) && id in t.info
    requires x.addr == t.info[id].addr && x.randomPos == t.info[id].randomPos && x.inTried == t.info[id].inTried
    requires x.lastTry >= 0 && x.lastSuccess >= 0 && (x.inTried ==> x.lastSuccess != 0)
    ensures var m := t.info[id := x];
      && IdsBounded(m, t.collisions, t.idCount) && AddrsLinked(m, t.idOf) && RandomLinked(m, t.random)
      && TimesOk(m) && TriedPlaced(e, m, t.triedTable) && NewPlaced(e, m, t.newTable)
      && CountsExact(m, t.newCount, t.triedCount)
  {
    hide AddrsLinked, RandomLinked, TriedPlaced, NewPlaced, CountsExact, Slots;
    IndexAfterUpdate(t.info, id, x, t.idOf, t.random);
    CountsFrame(t.info, t.info[id := x], t.newCount, t.triedCount);
    NewPlacedFrame(e, t.info, t.info[id := x], t.newTable);
    TriedPlacedFrame(e, t.info, t.info[id := x], t.triedTable);
  }

  /** Give an entry one more slot. */
  function Placed(t: Tables, id: int, s: Slot): Tables
    requires id in t.info
  {
    t.(newTable := t.newTable[s := id], info := t.info[id := t.info[id].(refCount := t.info[id].refCount + 1)])
  }

  lemma PlacedLinked(e: Env, t: Tables, id: int, s: Slot)
    requires Linked(e, t) && id in t.info && !t.info[id].inTried && t.info[id].refCount < MAX_NEW_REFS
    requires s !in t.newTable && s.bucket < NEW_BUCKETS && s.pos == e.NewPos(s.bucket, t.info[id].addr)
    ensures Linked(e, Placed(t, id, s)) && t.info[id].refCount >= 0
  {
    hide AddrsLinked, RandomLinked, TriedPlaced, CountsExact, Slots;
    UpdateLinked(e, t, id, t.info[id].(refCount := t.info[id].refCount + 1));
    RefsAfterPlace(t.info, t.newTable, id, s);
  }

  /** Take an entry out of every new-table slot it holds. */
  function Dropped(t: Tables, id: int): Tables
    requires id in t.info
  {
    t.(newTable := WithoutOwner(t.newTable, id), info := t.info[id := t.info[id].(refCount := 0)])
  }

  lemma DroppedLinked(e: Env, t: Tables, id: int)
    requires Linked(e, t) && id in t.info && !t.info[id].inTried
    ensures Linked(e, Dropped(t, id))
  {
    hide AddrsLinked, RandomLinked, TriedPlaced, NewPlaced, RefsExact, CountsExact, Slots;
    var r := Dropped(t, id);
    UpdateLinked(e, t, id, r.info[id]);
    NewPlacedSubset(e, r.info, t.newTable, r.newTable);
    RefsAfterDrop(t.info, t.newTable, id);
  }

  // ----- the tried table -----

  /** Take an entry out of the tried table, leaving it without a slot. */
  function Untried(e: Env, t: Tables, id: int): Tables
    requires id in t.info
  {
    t.(triedTable := t.triedTable - {e.TriedSlot(t.info[id].addr)},
       info := t.info[id := t.info[id].(inTried := false)],
       triedCount := t.triedCount - 1, newCount := t.newCount + 1)
  }

  lemma UntriedLinked(e: Env, t: Tables, id: int)
    requires Linked(e, t) && id in t.info && t.info[id].inTried
    ensures Linked(e, Untried(e, t, id)) && t.info[id].refCount == 0
  {
    hide AddrsLinked, RandomLinked, TriedPlaced, NewPlaced, CountsExact, Slots;
    var r := Untried(e, t, id);
    IndexAfterUpdate(t.info, id, r.info[id], t.idOf, t.random);
    CountsAfterUpdate(t.info, id, r.info[id], t.newCount, t.triedCount);
    NoSlotsOutside(e, t.info, t.newTable, id);
    NewPlacedFrame(e, t.info, r.info, t.newTable);
    TriedAfterLeave(e, t.info, id, t.triedTable);
  }

  /** Put an entry into its tried slot. */
  function Entered(e: Env, t: Tables, id: int): Tables
    requires id in t.info
  {
    t.(triedTable := t.triedTable[e.TriedSlot(t.info[id].addr) := id],
       info := t.info[id := t.info[id].(inTried := true)],
       triedCount := t.triedCount + 1, newCount := t.newCount - 1)
  }

  lemma EnteredLinked(e: Env, t: Tables, id: int)
    requires Linked(e, t) && Orphan(t, id) && t.info[id].lastSuccess != 0
    requires e.TriedSlot(t.info[id].addr) !in t.triedTable
    ensures Linked(e, Entered(e, t, id))
  {
    hide AddrsLinked, RandomLinked, TriedPlaced, NewPlaced, CountsExact, RefsExact, Slots;
    var r := Entered(e, t, id);
    IndexAfterUpdate(t.info, id, r.info[id], t.idOf, t.random);
    CountsAfterUpdate(t.info, id, r.info[id], t.newCount, t.triedCount);
    OrphanHasNoSlots(t.info, t.newTable, id);
    NewPlacedFrame(e, t.info, r.info, t.newTable);
    RefsFrame(t.info, t.newTable, id, r.info[id]);
    TriedAfterEnter(e, t.info, id, t.triedTable);
  }

  /** What no operation undoes: occupied tried slots stay occupied and an id keeps its address and source. */
  ghost predicate Evolves(t: Tables, r: Tables) {
    && t.idCount <= r.idCount && t.triedTable.Keys <= r.triedTable.Keys
    && (forall id :: id in r.info && id < t.idCount ==>
          id in t.info && r.info[id].addr == t.info[id].addr && r.info[id].source == t.info[id].source)
  }

  /** What emptying a tried slot may change: slotless entries stay as they are, no entry appears or changes identity. */
  ghost predicate OnlyMoved(t: Tables, r: Tables) {
    && r.info.Keys <= t.info.Keys && r.collisions == t.collisions && r.idCount == t.idCount
    && (forall j :: j in r.info ==> r.info[j].addr == t.info[j].addr && r.info[j].source == t.info[j].source)
    && (forall j :: Orphan(r, j) ==> Orphan(t, j))
    && (forall j :: Orphan(t, j) ==> j in r.info && Kept(t.info[j], r.info[j]))
  }

  /** Empty tried slot `s`, moving its entry back to the new table at the expense of what is there. */
  function MakeRoom(e: Env, t: Tables, s: Slot): (r: Tables)
    requires Linked(e, t)
    ensures Linked(e, r) && r.triedTable == t.triedTable - {s} && OnlyMoved(t, r)
  {
    hide AddrsLinked, RandomLinked, IdsBounded, TimesOk, NewPlaced, RefsExact, CountsExact, Slots, OnlyMoved,
      ClearNew, OnlyCleared, Placed;
    if s !in t.triedTable then NothingMoved(t, s); t else
    var id := t.triedTable[s];
    var home := e.NewSlot(t.info[id].addr, t.info[id].source);
    UntriedLinked(e, t, id);
    var u := Untried(e, t, id);
    OrphanOwnsNoSlot(e, u, home);
    var c := ClearNew(e, u, home);
    EvictedMoves(e, t, c, id);
    PlacedLinked(e, c, id, home);
    Placed(c, id, home)
  }

  lemma NothingMoved(t: Tables, s: Slot)
    requires s !in t.triedTable
    ensures t.triedTable == t.triedTable - {s} && OnlyMoved(t, t)
  {}

  lemma EvictedMoves(e: Env, t: Tables, c: Tables, id: int)
    requires id in t.info && t.info[id].inTried && t.info[id].refCount == 0
    requires var home := e.NewSlot(t.info[id].addr, t.info[id].source); var u := Untried(e, t, id);
      OnlyCleared(u, c, home) && !Orphan(u, SlotOwner(u, home))
    ensures id in c.info && Kept(Untried(e, t, id).info[id], c.info[id])
    ensures var home := e.NewSlot(t.info[id].addr, t.info[id].source);
      var r := Placed(c, id, home);
      OnlyMoved(t, r) && r.triedTable == t.triedTable - {e.TriedSlot(t.info[id].addr)}
  {
    var home := e.NewSlot(t.info[id].addr, t.info[id].source);
    var u := Untried(e, t, id);
    assert Orphan(u, id);
    assert id in u.info && id != SlotOwner(u, home);
    var r := Placed(c, id, home);
    forall j | j in r.info ensures r.info[j].addr == t.info[j].addr && r.info[j].source == t.info[j].source {
      assert j in c.info && j in u.info;
    }
    forall j | Orphan(t, j) ensures j in r.info && Kept(t.info[j], r.info[j]) {
      assert Orphan(u, j) && j in u.info && j != SlotOwner(u, home);
    }
    forall j | Orphan(r, j) ensures Orphan(t, j) {
      assert j != id && Orphan(c, j) && Orphan(u, j);
    }
  }

  lemma OrphanOwnsNoSlot(e: Env, t: Tables, s: Slot)
    requires Linked(e, t)
    ensures !Orphan(t, SlotOwner(t, s))
  {
    hide AddrsLinked, RandomLinked, NewPlaced, TriedPlaced, CountsExact;
    var id := SlotOwner(t, s);
    if s in t.newTable && id in t.info {
      assert s in Slots(t.newTable, id);
      assert t.info[id].refCount == |Slots(t.newTable, id)| > 0;
    }
  }

  /** Move an entry from the new table to the tried table. */
  function MakeTried(e: Env, t: Tables, id: int): (r: Tables)
    requires Linked(e, t) && id in t.info && !t.info[id].inTried && t.info[id].lastSuccess != 0
    ensures Linked(e, r) && Evolves(t, r) && r.collisions == t.collisions
    ensures forall j :: Orphan(r, j) ==> Orphan(t, j) && j != id
    ensures id in r.info && r.info[id].inTried && r.triedTable == t.triedTable[e.TriedSlot(t.info[id].addr) := id]
  {
    hide Linked, OnlyMoved, Evolves, MakeRoom;
    DroppedLinked(e, t, id);
    var u := MakeRoom(e, Dropped(t, id), e.TriedSlot(t.info[id].addr));
    EnteredMoves(e, t, u, id);
    EnteredLinked(e, u, id);
    Entered(e, u, id)
  }

  lemma EnteredMoves(e: Env, t: Tables, u: Tables, id: int)
    requires Linked(e, t) && id in t.info && !t.info[id].inTried && OnlyMoved(Dropped(t, id), u)
    requires u.triedTable == t.triedTable - {e.TriedSlot(t.info[id].addr)}
    ensures Orphan(u, id) && Kept(t.info[id].(refCount := 0), u.info[id])
    ensures Evolves(t, Entered(e, u, id)) && u.collisions == t.collisions
    ensures forall j :: Orphan(Entered(e, u, id), j) ==> Orphan(t, j) && j != id
    ensures Entered(e, u, id).triedTable == t.triedTable[e.TriedSlot(t.info[id].addr) := id]
  {
    hide AddrsLinked, RandomLinked, TriedPlaced, TimesOk, NewPlaced, RefsExact, CountsExact, WithoutOwner;
    var d, r := Dropped(t, id), Entered(e, u, id);
    assert Orphan(d, id);
    forall j | j in r.info
      ensures j in t.info && r.info[j].addr == t.info[j].addr && r.info[j].source == t.info[j].source
    {
      assert j in u.info && j in d.info;
    }
    forall j | Orphan(r, j) ensures Orphan(t, j) && j != id { assert j != id && Orphan(u, j) && Orphan(d, j); }
  }
}
