/**
 * Test-before-evict in full (src/addrman.cpp): where an entry evicted from the
 * tried table goes, what else changes, and exactly when a pending collision
 * ends in an eviction, is dropped or stays pending.
 */
module AddrEviction {
  import opened AddrTables
  import opened AddrOps
  import opened AddrManager
  import opened AddrRuns
  import opened AddrPromises

  // ----- one slot less -----

  /** Entry `w` has one reference less, or is gone if that was its last. */
  ghost predicate LosesOne(t: Tables, r: Tables, w: int) {
    && w in t.info && (w in r.info <==> t.info[w].refCount > 1)
    && (w in r.info ==> Kept(t.info[w].(refCount := t.info[w].refCount - 1), r.info[w]))
  }

  lemma ClearExact(e: Env, t: Tables, s: Slot)
    requires Linked(e, t) && s in t.newTable
    ensures LosesOne(t, ClearNew(e, t, s), t.newTable[s])
  {
    hide Linked, Delete, OnlyCleared;
    ReleasedLinked(e, t, s);
    OwnerKnown(e, t, s);
    var u, w := Released(t, s), t.newTable[s];
    if u.info[w].refCount == 0 { assert w !in Delete(e, u, w).info.Keys; }
  }

  // ----- an entry leaves the tried table -----

  /** What is in the new table, without the slots of `id`, once the tried entry `o` is back there. */
  ghost predicate BackInNew(e: Env, t: Tables, r: Tables, d: Table, o: int) {
    && o in t.info && o in r.info && Kept(t.info[o].(inTried := false, refCount := 1), r.info[o])
    && (var home := e.NewSlot(t.info[o].addr, t.info[o].source);
        r.newTable == d[home := o] && (home in d ==> LosesOne(t, r, d[home])))
  }

  /** The entry that loses a slot to `o`, or -1. */
  function Displaced(e: Env, t: Tables, d: Table, o: int): int {
    if o !in t.info then -1 else
    var home := e.NewSlot(t.info[o].addr, t.info[o].source);
    if home in d then d[home] else -1
  }

  lemma MakeRoomExact(e: Env, t: Tables, s: Slot)
    requires Linked(e, t) && s in t.triedTable
    ensures var o, r := t.triedTable[s], MakeRoom(e, t, s);
      && BackInNew(e, t, r, t.newTable, o) && t.info[o].inTried && r.lastGood == t.lastGood
      && OthersKept(t, r, {o, Displaced(e, t, t.newTable, o)})
  {
    hide AddrsLinked, RandomLinked, IdsBounded, TimesOk, NewPlaced, RefsExact, CountsExact, OnlyMoved, ClearNew,
      OnlyCleared, LosesOne, Env.NewSlot, Env.TriedSlot;
    var o := t.triedTable[s];
    UntriedLinked(e, t, o);
    var u, home := Untried(e, t, o), e.NewSlot(t.info[o].addr, t.info[o].source);
    OrphanOwnsNoSlot(e, u, home);
    if home in u.newTable { ClearExact(e, u, home); }
    EvictedExact(e, t, ClearNew(e, u, home), o);
  }

  lemma EvictedExact(e: Env, t: Tables, c: Tables, o: int)
    requires o in t.info && t.info[o].inTried && t.info[o].refCount == 0
    requires var home := e.NewSlot(t.info[o].addr, t.info[o].source);
      var u := Untried(e, t, o);
      OnlyCleared(u, c, home) && SlotOwner(u, home) != o && (home in u.newTable ==> LosesOne(u, c, u.newTable[home]))
    ensures o in c.info
    ensures var r := Placed(c, o, e.NewSlot(t.info[o].addr, t.info[o].source));
      && BackInNew(e, t, r, t.newTable, o) && r.lastGood == t.lastGood
      && OthersKept(t, r, {o, Displaced(e, t, t.newTable, o)})
  {
    hide Env.NewSlot, Env.TriedSlot;
    var home := e.NewSlot(t.info[o].addr, t.info[o].source);
    var u := Untried(e, t, o);
    assert o in u.info && o != SlotOwner(u, home);
    var r := Placed(c, o, home);
    assert (t.newTable - {home})[home := o] == t.newTable[home := o];
    if home in t.newTable {
      var w := t.newTable[home];
      assert w in u.info && w != o && u.info[w] == t.info[w];
    }
    forall j | j in t.info && j !in {o, Displaced(e, t, t.newTable, o)}
      ensures j in r.info && Kept(t.info[j], r.info[j])
    {
      assert j in u.info && j != SlotOwner(u, home);
    }
  }

  // ----- an entry enters the tried table -----

  /** Entry `id`, now `x`, is in its tried slot; the entry it found there is back in the new table; the rest is kept. */
  ghost predicate Entering(e: Env, t: Tables, r: Tables, id: int, x: AddrInfo) {
    var s, d := e.TriedSlot(x.addr), WithoutOwner(t.newTable, id);
    && id in r.info && Kept(x.(refCount := 0, inTried := true), r.info[id]) && r.triedTable == t.triedTable[s := id]
    && (if s in t.triedTable then
          var o := t.triedTable[s];
          && o != id && BackInNew(e, t, r, d, o) && t.info[o].inTried
          && OthersKept(t, r, {id, o, Displaced(e, t, d, o)})
        else r.newTable == d && OthersKept(t, r, {id}))
  }

  lemma MakeTriedExact(e: Env, t: Tables, id: int)
    requires Linked(e, t) && id in t.info && !t.info[id].inTried && t.info[id].lastSuccess != 0
    ensures Entering(e, t, MakeTried(e, t, id), id, t.info[id])
  {
    hide Linked, OnlyMoved, Evolves, MakeRoom, BackInNew, Displaced, WithoutOwner, Env.TriedSlot;
    var s, d := e.TriedSlot(t.info[id].addr), Dropped(t, id);
    DroppedLinked(e, t, id);
    MakeTriedKeeps(e, t, id);
    var u := MakeRoom(e, d, s);
    EnteredMoves(e, t, u, id);
    if s in t.triedTable {
      MakeRoomExact(e, d, s);
      EvictedByEntering(e, t, u, id);
    } else {
      NoRoomNeeded(e, d, s);
    }
  }

  lemma NoRoomNeeded(e: Env, t: Tables, s: Slot)
    requires Linked(e, t) && s !in t.triedTable
    ensures MakeRoom(e, t, s) == t
  {}

  lemma EvictedByEntering(e: Env, t: Tables, u: Tables, id: int)
    requires id in t.info && !t.info[id].inTried && id in u.info && e.TriedSlot(t.info[id].addr) in t.triedTable
    requires var d, o := Dropped(t, id), t.triedTable[e.TriedSlot(t.info[id].addr)];
      && BackInNew(e, d, u, d.newTable, o) && d.info[o].inTried && OthersKept(d, u, {o, Displaced(e, d, d.newTable, o)})
    ensures var w, o, r := WithoutOwner(t.newTable, id), t.triedTable[e.TriedSlot(t.info[id].addr)], Entered(e, u, id);
      && o != id && BackInNew(e, t, r, w, o) && t.info[o].inTried && OthersKept(t, r, {id, o, Displaced(e, t, w, o)})
  {
    hide Env.NewSlot, Env.TriedSlot;
    var d, o, r := Dropped(t, id), t.triedTable[e.TriedSlot(t.info[id].addr)], Entered(e, u, id);
    var home := e.NewSlot(t.info[o].addr, t.info[o].source);
    assert o != id && d.info[o] == t.info[o];
    if home in d.newTable {
      var w := d.newTable[home];
      assert w != id by { assert home !in Slots(d.newTable, id); }
      assert d.info[w] == t.info[w];
    }
  }

  /** A good connection that moves the address: where it goes, where the entry in its way goes, and what is kept. */
  lemma GoodMoves(e: Env, t: Tables, a: Service, testBeforeEvict: bool, time: int)
    requires Sound(e, t) && time > 0 && Good(e, t, a, testBeforeEvict, time).1
    ensures var r, id := Good(e, t, a, testBeforeEvict, time).0, t.idOf[a];
      && id in t.info && t.info[id].addr == a
      && Entering(e, t, r, id, t.info[id].(lastSuccess := time, lastTry := time, attempts := 0))
  {
    hide Linked, Evolves, MakeTried, GoodOutcome, Env.TriedSlot, Entering;
    KnownAddress(e, t, a);
    var id, t0 := t.idOf[a], t.(lastGood := time);
    LastGoodFree(e, t, time);
    var x := t.info[id].(lastSuccess := time, lastTry := time, attempts := 0);
    StatsLinked(e, t0, id, x);
    MakeTriedExact(e, WithInfo(t0, id, x), id);
    StatsAside(e, t, Good(e, t, a, testBeforeEvict, time).0, id, x, time);
  }

  lemma StatsAside(e: Env, t: Tables, r: Tables, id: int, x: AddrInfo, time: int)
    requires id in t.info && !t.info[id].inTried && Entering(e, WithInfo(t.(lastGood := time), id, x), r, id, x)
    requires x == t.info[id].(lastSuccess := time, lastTry := time, attempts := 0)
    ensures Entering(e, t, r, id, x)
  {
    hide Env.NewSlot, Env.TriedSlot;
    var u := WithInfo(t.(lastGood := time), id, x);
    assert forall j :: j in t.info && j != id ==> u.info[j] == t.info[j];
    var s, d := e.TriedSlot(x.addr), WithoutOwner(t.newTable, id);
    if s in t.triedTable {
      var o := t.triedTable[s];
      var home := e.NewSlot(t.info[o].addr, t.info[o].source);
      if home in d { assert d[home] != id by { assert home !in Slots(d, id); } }
    }
  }

  // ----- what becomes of a pending collision -----

  /** The entry in the way has not connected for four hours, and was tried in vain over a minute ago or cannot
      be tested. */
  predicate ShouldEvict(rival: AddrInfo, candidate: AddrInfo, now: int) {
    && now - rival.lastSuccess >= 4 * 60 * 60
    && (60 < now - rival.lastTry < 4 * 60 * 60
        || (now - rival.lastTry >= 4 * 60 * 60 && now - candidate.lastSuccess > 40 * 60))
  }

  /**
   * A pending collision of an untried entry with a valid address: the entry
   * takes the tried slot, and the one there goes back to the new table, if and
   * only if that one should be evicted. Otherwise the collision is dropped if
   * the entry in the way connected within four hours, and waits if not.
   */
  lemma CollisionSettled(e: Env, t: Tables, id: int, now: int)
    requires Consistent(e, t) && now > 0 && id in t.collisions
    requires id in t.info && e.valid(t.info[id].addr) && !t.info[id].inTried
    ensures var s := e.TriedSlot(t.info[id].addr);
      s in t.triedTable && t.triedTable[s] in t.info && t.triedTable[s] != id
    ensures var r, s := ResolveOne(e, t, id, now), e.TriedSlot(t.info[id].addr);
      var rival, x := t.info[t.triedTable[s]], t.info[id].(lastSuccess := now, lastTry := now, attempts := 0);
      && s in r.triedTable && (r.triedTable[s] == id <==> ShouldEvict(rival, t.info[id], now))
      && (ShouldEvict(rival, t.info[id], now) ==> Entering(e, t, r, id, x) && r.collisions == t.collisions - {id})
      && (now - rival.lastSuccess < 4 * 60 * 60 ==> r == t.(collisions := t.collisions - {id}))
      && (now - rival.lastSuccess >= 4 * 60 * 60 && !ShouldEvict(rival, t.info[id], now) ==> r == t)
  {
    hide AddrsLinked, RandomLinked, NewPlaced, RefsExact, CountsExact, TimesOk, Good, Evolves, Env.TriedSlot, Entering;
    var s := e.TriedSlot(t.info[id].addr);
    assert s in t.triedTable && t.triedTable[s] in t.info && t.info[t.triedTable[s]].inTried;
    var rival := t.info[t.triedTable[s]];
    KnownAs(e, t, id);
    GoodExact(e, t, t.info[id].addr, false, now);
    GoodMoves(e, t, t.info[id].addr, false, now);
    if ShouldEvict(rival, t.info[id], now) {
      var u := Good(e, t, t.info[id].addr, false, now).0;
      CollisionsAside(e, t, u, id, t.info[id].(lastSuccess := now, lastTry := now, attempts := 0));
    }
  }

  lemma CollisionsAside(e: Env, t: Tables, u: Tables, id: int, x: AddrInfo)
    requires Entering(e, t, u, id, x)
    ensures Entering(e, t, u.(collisions := u.collisions - {id}), id, x)
  {
    hide Env.NewSlot, Env.TriedSlot;
  }

  /** A pending collision of an entry that is gone or whose address is not valid is dropped, and nothing else
      happens. */
  lemma CollisionDropped(e: Env, t: Tables, id: int, now: int)
    requires Sound(e, t) && now > 0 && (id !in t.info || !e.valid(t.info[id].addr))
    ensures ResolveOne(e, t, id, now) == t.(collisions := t.collisions - {id})
  {
    hide Linked;
  }

  /** A pending collision of an entry that got into the tried table meanwhile is with itself: at most the statistics
      of the entry change. */
  lemma CollisionWithItself(e: Env, t: Tables, id: int, now: int)
    requires Consistent(e, t) && now > 0 && id in t.collisions
    requires id in t.info && e.valid(t.info[id].addr) && t.info[id].inTried
    ensures var r, i := ResolveOne(e, t, id, now), t.info[id];
      && (ShouldEvict(i, i, now) ==> r == t.(collisions := t.collisions - {id}, lastGood := now,
            info := t.info[id := i.(lastSuccess := now, lastTry := now, attempts := 0)]))
      && (now - i.lastSuccess < 4 * 60 * 60 ==> r == t.(collisions := t.collisions - {id}))
      && (now - i.lastSuccess >= 4 * 60 * 60 && !ShouldEvict(i, i, now) ==> r == t)
  {
    hide AddrsLinked, RandomLinked, NewPlaced, RefsExact, CountsExact, TimesOk, Evolves, Env.TriedSlot, MakeTried;
    KnownAs(e, t, id);
  }
}
