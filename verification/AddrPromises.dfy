/**
 * What the address manager's two main operations do to the entry they are
 * about, and that they leave the others alone (src/addrman.cpp).
 */
module AddrPromises {
  import opened Common
  import opened AddrTables
  import opened AddrOps
  import opened AddrManager
  import opened AddrRuns

  /** Every entry but `spared` is the same, up to its place in the random list. */
  ghost predicate OthersKept(t: Tables, r: Tables, spared: set<int>) {
    forall j :: j in t.info && j !in spared ==> j in r.info && Kept(t.info[j], r.info[j])
  }

  /** Hearing of a known address again never moves its time back, nor past the announced time. */
  lemma RefreshedForward(i: AddrInfo, a: Address, penalty: int, now: int)
    requires penalty >= 0 && a.time >= 0 && i.time >= 0
    ensures var x := Refreshed(i, a, penalty, now);
      && x == i.(time := x.time, services := x.services) && i.time <= x.time && (x.time == i.time || x.time <= a.time)
      && (i.time == 0 && a.time > penalty ==> x.time == a.time - penalty)
  {}

  /** News of an address that was recorded before, and is newer by more than the interval and the penalty, moves its
      time to that of the news less the penalty; the interval is an hour if the address was seen within a day, else
      a day. */
  lemma RefreshedWhen(i: AddrInfo, a: Address, penalty: int, now: int)
    requires i.time != 0 && a.time != 0
    ensures var x := Refreshed(i, a, penalty, now).time;
      && (a.time > i.time + 24 * 60 * 60 + penalty ==> x == Max(0, a.time - penalty))
      && (a.time > i.time + 60 * 60 + penalty && a.time > now - 24 * 60 * 60 ==> x == Max(0, a.time - penalty))
      && (a.time <= i.time + 60 * 60 + penalty ==> x == i.time)
      && (a.time <= i.time + 24 * 60 * 60 + penalty && a.time <= now - 24 * 60 * 60 ==> x == i.time)
  {}

  /** Nor does it forget a service. */
  lemma RefreshedServices(i: AddrInfo, a: Address, penalty: int, now: int)
    ensures var x := Refreshed(i, a, penalty, now);
      x.services & i.services == i.services && x.services & a.services == a.services
  {
    Absorbed(i.services, a.services, Refreshed(i, a, penalty, now).services);
  }

  lemma Absorbed(a: bv64, b: bv64, x: bv64)
    requires x == a | b
    ensures x & a == a && x & b == b
  {}

  /** Which entries are worth keeping: tried within a minute, or seen within 30 days, at most 10 minutes ahead of the
      clock, and neither failed three times without ever a success nor ten times without one in a week. */
  lemma WorthKeepingIff(i: AddrInfo, now: int)
    ensures !i.IsTerrible(now) <==>
      || (i.lastTry != 0 && now - i.lastTry <= 60)
      || (&& i.time != 0 && -10 * 60 <= now - i.time <= 30 * 24 * 60 * 60
          && (i.attempts < 3 || i.lastSuccess != 0)
          && (i.attempts < 10 || now - i.lastSuccess <= 7 * 24 * 60 * 60))
  {}

  /** Whether an entry without references may take slot `s`. */
  predicate Yields(t: Tables, s: Slot, now: int)
    requires s in t.newTable ==> t.newTable[s] in t.info
  {
    s !in t.newTable || t.info[t.newTable[s]].IsTerrible(now) || t.info[t.newTable[s]].refCount > 1
  }

  /** An unknown address is stored, with one reference, exactly when its slot yields; else nothing changes but
      the id counter. */
  ghost predicate UnknownOutcome(e: Env, t: Tables, a: Address, source: NetAddr, penalty: int, now: int, r: Tables,
      added: bool)
  {
    var s := e.NewSlot(a.service, source);
    && (s in t.newTable ==> t.newTable[s] in t.info) && r.idCount == t.idCount + 1 && t.idCount !in t.info
    && (added <==> Yields(t, s, now))
    && (added ==> t.idCount in r.info && SlotOwner(r, s) == t.idCount
                  && Kept(AddrInfo(a.service, Max(0, a.time - penalty), a.services, source, 0, 0, 0, 0, 1, false, 0),
                          r.info[t.idCount]))
    && (!added ==> r.info.Keys == t.info.Keys && r.newTable == t.newTable)
    && OthersKept(t, r, if added then {SlotOwner(t, s)} else {})
  }

  lemma UnknownStored(e: Env, t: Tables, a: Address, source: NetAddr, penalty: int, now: int)
    requires Sound(e, t) && a.service !in t.idOf
    ensures var r := AddUnknown(e, t, a, source, penalty, now);
      UnknownOutcome(e, t, a, source, penalty, now, r.0, r.1)
  {
    hide Linked, InsertOutcome, ClearNew, OnlyCleared, Delete, Evolves, Create;
    var s := e.NewSlot(a.service, source);
    OwnerKnown(e, t, s);
    CreateStores(e, t, a, source);
    var c := Create(e, t, a, source);
    var x := c.info[t.idCount].(time := Max(0, a.time - penalty));
    CreateEvolves(e, t, a, source);
    StatsLinked(e, c, t.idCount, x);
    var u := WithInfo(c, t.idCount, x);
    InsertExact(e, u, t.idCount, source, now);
    assert s in t.newTable ==> t.newTable[s] != t.idCount && u.info[t.newTable[s]] == t.info[t.newTable[s]];
  }

  /**
   * A known address is refreshed, and gains a slot exactly when the news is
   * fresher than what is recorded, the entry is untried with room for another
   * reference, luck allows it, and the slot is empty or its owner is not worth
   * keeping.
   */
  ghost predicate KnownOutcome(e: Env, t: Tables, a: Address, source: NetAddr, penalty: int, now: int, lucky: bool,
      r: Tables, added: bool)
  {
    && a.service in t.idOf && t.idOf[a.service] in t.info
    && var id := t.idOf[a.service];
       var x := Refreshed(t.info[id], a, penalty, now);
       var s := e.NewSlot(a.service, source);
       && (s in t.newTable ==> t.newTable[s] in t.info) && r.idCount == t.idCount
       && (added <==>
             && a.time != 0 && (x.time == 0 || a.time > x.time) && !x.inTried && x.refCount < MAX_NEW_REFS && lucky
             && (s !in t.newTable || (t.newTable[s] != id && t.info[t.newTable[s]].IsTerrible(now))))
       && (!added ==> r == WithInfo(t, id, x))
       && (added ==> id in r.info && Kept(x.(refCount := x.refCount + 1), r.info[id])
                     && r.newTable == t.newTable[s := id] && OthersKept(t, r, {id, SlotOwner(t, s)}))
  }

  lemma KnownRefreshed(e: Env, t: Tables, a: Address, source: NetAddr, penalty: int, now: int, lucky: bool)
    requires Sound(e, t) && a.service in t.idOf
    ensures var r := AddKnown(e, t, a, source, penalty, now, lucky);
      KnownOutcome(e, t, a, source, penalty, now, lucky, r.0, r.1)
  {
    hide Linked, InsertOutcome, Insert, Evolves;
    var id, s := t.idOf[a.service], e.NewSlot(a.service, source);
    KnownAddress(e, t, a.service);
    OwnerKnown(e, t, s);
    assert !Orphan(t, id);
    var x := Refreshed(t.info[id], a, penalty, now);
    StatsLinked(e, t, id, x);
    var u := WithInfo(t, id, x);
    if !x.inTried && x.refCount < MAX_NEW_REFS { InsertExact(e, u, id, source, now); }
  }

  /** What one announced address does: nothing unless it is routable, and without penalty if it announces itself. */
  ghost predicate SingleOutcome(e: Env, t: Tables, a: Address, source: NetAddr, penalty: int, now: int, lucky: bool,
      r: Tables, added: bool)
  {
    var p := if a.service.net == source then 0 else penalty;
    if !e.routable(a.service) then r == t && !added
    else if a.service in t.idOf then KnownOutcome(e, t, a, source, p, now, lucky, r, added)
    else UnknownOutcome(e, t, a, source, p, now, r, added)
  }

  lemma SingleExact(e: Env, t: Tables, a: Address, source: NetAddr, penalty: int, now: int, lucky: bool)
    requires Sound(e, t)
    ensures var r := AddSingle(e, t, a, source, penalty, now, lucky);
      SingleOutcome(e, t, a, source, penalty, now, lucky, r.0, r.1)
  {
    hide Sound, KnownOutcome, UnknownOutcome, AddKnown, AddUnknown;
    if e.routable(a.service) {
      var p := if a.service.net == source then 0 else penalty;
      if a.service in t.idOf {
        KnownRefreshed(e, t, a, source, p, now, lucky);
      } else {
        UnknownStored(e, t, a, source, p, now);
      }
    }
  }

  /** A whole announcement: every address has its effect, in order, and the answer is whether one was added. */
  lemma {:induction false} EveryAddressAdded(e: Env, t: Tables, addrs: seq<Address>, source: NetAddr, penalty: int,
      now: int, lucky: nat -> bool) returns (steps: seq<Tables>, added: seq<bool>)
    requires Sound(e, t)
    ensures |steps| == |addrs| + 1 && |added| == |addrs| && steps[0] == t
    ensures forall i :: 0 <= i < |addrs| ==>
      SingleOutcome(e, steps[i], addrs[i], source, penalty, now, lucky(i), steps[i + 1], added[i])
    ensures Add(e, t, addrs, source, penalty, now, lucky) == (steps[|addrs|], true in added)
  {
    hide Sound, Add, AddSingle, Evolves, SingleOutcome;
    if addrs == [] {
      steps, added := [t], [];
      AddNone(e, t, source, penalty, now, lucky);
    } else {
      var last := |addrs| - 1;
      var before, flags := EveryAddressAdded(e, t, addrs[..last], source, penalty, now, lucky);
      AddLast(e, t, addrs, source, penalty, now, lucky);
      SingleExact(e, before[last], addrs[last], source, penalty, now, lucky(last));
      var r := AddSingle(e, before[last], addrs[last], source, penalty, now, lucky(last));
      steps, added := before + [r.0], flags + [r.1];
      forall i | 0 <= i < |addrs|
        ensures SingleOutcome(e, steps[i], addrs[i], source, penalty, now, lucky(i), steps[i + 1], added[i])
      {
        if i < last { assert addrs[..last][i] == addrs[i]; }
      }
    }
  }

  lemma AddNone(e: Env, t: Tables, source: NetAddr, penalty: int, now: int, lucky: nat -> bool)
    requires Sound(e, t)
    ensures Add(e, t, [], source, penalty, now, lucky) == (t, false)
  {
    hide Linked;
  }

  lemma AddLast(e: Env, t: Tables, addrs: seq<Address>, source: NetAddr, penalty: int, now: int, lucky: nat -> bool)
    requires Sound(e, t) && addrs != []
    ensures var last := |addrs| - 1;
      var before := Add(e, t, addrs[..last], source, penalty, now, lucky);
      && Sound(e, before.0)
      && var r := AddSingle(e, before.0, addrs[last], source, penalty, now, lucky(last));
         Add(e, t, addrs, source, penalty, now, lucky) == (r.0, before.1 || r.1)
  {
    hide Linked, AddSingle, Evolves;
  }

  lemma CreateStores(e: Env, t: Tables, a: Address, source: NetAddr)
    requires Linked(e, t) && a.service !in t.idOf
    ensures var c := Create(e, t, a, source);
      && c.info[t.idCount] == AddrInfo(a.service, a.time, a.services, source, 0, 0, 0, 0, 0, false, |t.random|)
      && c.newTable == t.newTable && t.idCount >= 0 && c.idCount == t.idCount + 1
  {
    hide AddrsLinked, RandomLinked, TriedPlaced, NewPlaced, RefsExact, CountsExact, TimesOk;
  }

  /** When an entry gets the slot its source hashes it to, and what that does to the entries. */
  lemma InsertExact(e: Env, t: Tables, id: int, source: NetAddr, now: int)
    requires Linked(e, t) && id in t.info && !t.info[id].inTried && t.info[id].refCount < MAX_NEW_REFS
    requires forall j :: Orphan(t, j) ==> j == id
    ensures var s := e.NewSlot(t.info[id].addr, source);
      var r := Insert(e, t, id, source, now);
      && (s in t.newTable ==> t.newTable[s] in t.info) && r.0.idCount == t.idCount
      && (r.1 <==> SlotOwner(t, s) != id && (s !in t.newTable || t.info[t.newTable[s]].IsTerrible(now)
                                             || (t.info[t.newTable[s]].refCount > 1 && t.info[id].refCount == 0)))
      && (r.1 ==> id in r.0.info && Kept(t.info[id].(refCount := t.info[id].refCount + 1), r.0.info[id])
                  && r.0.newTable == t.newTable[s := id] && OthersKept(t, r.0, {id, SlotOwner(t, s)}))
      && (!r.1 && (t.info[id].refCount > 0 || SlotOwner(t, s) == id) ==> r.0 == t)
      && (!r.1 && t.info[id].refCount == 0 && SlotOwner(t, s) != id ==>
            r.0.info.Keys == t.info.Keys - {id} && r.0.newTable == t.newTable && OthersKept(t, r.0, {id}))
  {
    hide Linked, InsertOutcome, ClearNew, Delete;
    var s := e.NewSlot(t.info[id].addr, source);
    OwnerKnown(e, t, s);
    var c := ClearNew(e, t, s);
    assert SlotOwner(t, s) != id ==> id in c.info && Kept(t.info[id], c.info[id]);
    assert (t.newTable - {s})[s := id] == t.newTable[s := id];
  }

  /** What reporting a good connection does: exactly when the address moves to the tried table, and what is
      recorded otherwise. */
  lemma GoodExact(e: Env, t: Tables, a: Service, testBeforeEvict: bool, time: int)
    requires Sound(e, t) && time > 0
    ensures var r := Good(e, t, a, testBeforeEvict, time);
      && r.0.lastGood == time && r.0.idCount == t.idCount
      && (r.1 <==> a in t.idOf && !t.info[t.idOf[a]].inTried && (!testBeforeEvict || e.TriedSlot(a) !in t.triedTable))
      && (a in t.idOf ==> t.idOf[a] in r.0.info && r.0.info[t.idOf[a]].attempts == 0
                          && r.0.info[t.idOf[a]].lastSuccess == r.0.info[t.idOf[a]].lastTry == time)
      && (!r.1 ==> OthersKept(t, r.0, if a in t.idOf then {t.idOf[a]} else {}) && r.0.triedTable == t.triedTable)
      && (!r.1 && a in t.idOf && !t.info[t.idOf[a]].inTried && |t.collisions| < MAX_COLLISIONS ==>
        t.idOf[a] in r.0.collisions)
      && (r.1 ==> r.0.triedTable == t.triedTable[e.TriedSlot(a) := t.idOf[a]])
  {
    hide Linked, Evolves, MakeTried, GoodOutcome, Env.TriedSlot;
    if a in t.idOf {
      KnownAddress(e, t, a);
      var id := t.idOf[a];
      assert !Orphan(t, id);
      var t0 := t.(lastGood := time);
      LastGoodFree(e, t, time);
      var x := t.info[id].(lastSuccess := time, lastTry := time, attempts := 0);
      StatsLinked(e, t0, id, x);
      if !x.inTried { MakeTriedKeeps(e, WithInfo(t0, id, x), id); }
    }
  }

  /** Moving an entry to the tried table keeps its statistics. */
  lemma MakeTriedKeeps(e: Env, t: Tables, id: int)
    requires Linked(e, t) && id in t.info && !t.info[id].inTried && t.info[id].lastSuccess != 0
    ensures var r := MakeTried(e, t, id);
      && id in r.info && Kept(t.info[id].(refCount := 0, inTried := true), r.info[id])
      && r.lastGood == t.lastGood && r.idCount == t.idCount
  {
    hide Linked, Evolves;
    DroppedLinked(e, t, id);
    var u := Dropped(t, id);
    assert Orphan(u, id);
  }

  // ----- statistics -----

  /** An attempt is recorded, and counted if it is to be and none was counted since the last good connection; a
      connection moves the time if that is over 20 minutes old; services are replaced. Nothing else changes. */
  lemma UpdateExact(e: Env, t: Tables, a: Service, change: StatChange)
    requires Sound(e, t) && change.Timely()
    ensures var r := Update(e, t, a, change);
      if a !in t.idOf then r == t else
      var id := t.idOf[a];
      && id in t.info && id in r.info && r == t.(info := t.info[id := r.info[id]])
      && var i, x := t.info[id], r.info[id];
         match change
         case Attempted(countFailure, time) =>
           && x == i.(lastTry := time, lastCountAttempt := x.lastCountAttempt, attempts := x.attempts)
           && (if countFailure && i.lastCountAttempt < t.lastGood
               then x.attempts == i.attempts + 1 && x.lastCountAttempt == time
               else x.attempts == i.attempts && x.lastCountAttempt == i.lastCountAttempt)
         case WasConnected(time) => x == i.(time := if i.time + 20 * 60 < time then time else i.time)
         case Offers(services) => x == i.(services := services)
  {
    hide Linked, Evolves;
    if a in t.idOf { KnownAddress(e, t, a); }
  }

  /** A second attempt in a row is counted exactly if neither an earlier count nor the first attempt is as late as the
      last good connection, so failures are counted at most once per good connection. */
  lemma CountedOnce(e: Env, t: Tables, a: Service, first: int, second: int)
    requires Sound(e, t) && first > 0 && second > 0 && a in t.idOf
    ensures var u := Update(e, t, a, Attempted(true, first));
      var r := Update(e, u, a, Attempted(true, second));
      && t.idOf[a] in t.info && t.idOf[a] in u.info && t.idOf[a] in r.info
      && var i, x, y := t.info[t.idOf[a]], u.info[t.idOf[a]], r.info[t.idOf[a]];
         && x.attempts == i.attempts + (if i.lastCountAttempt < t.lastGood then 1 else 0)
         && y.attempts == x.attempts + (if i.lastCountAttempt < t.lastGood && first < t.lastGood then 1 else 0)
  {
    hide Linked, Evolves, Update;
    UpdateExact(e, t, a, Attempted(true, first));
    UpdateExact(e, Update(e, t, a, Attempted(true, first)), a, Attempted(true, second));
    KnownAddress(e, t, a);
  }

  // ----- test before evict -----

  /** A tried entry with a successful connection within the replacement period. */
  predicate RecentlyGood(t: Tables, id: int, now: int) {
    id in t.info && t.info[id].inTried && now - t.info[id].lastSuccess < REPLACEMENT_SECONDS
  }

  lemma MakeRoomKeepsTried(e: Env, t: Tables, s: Slot, j: int)
    requires Linked(e, t) && j in t.info && t.info[j].inTried && e.TriedSlot(t.info[j].addr) != s
    ensures j in MakeRoom(e, t, s).info && Kept(t.info[j], MakeRoom(e, t, s).info[j])
  {
    hide AddrsLinked, RandomLinked, IdsBounded, TimesOk, RefsExact, CountsExact, ClearNew, OnlyMoved, Env.TriedSlot,
      Env.NewSlot;
    if s in t.triedTable {
      var id := t.triedTable[s];
      assert id in t.info && id != j;
      UntriedLinked(e, t, id);
      var u := Untried(e, t, id);
      var home := e.NewSlot(t.info[id].addr, t.info[id].source);
      OwnerKnown(e, u, home);
      if home in u.newTable { var o := u.newTable[home]; assert o in u.info && !u.info[o].inTried; }
      var c := ClearNew(e, u, home);
      assert j in u.info && j != SlotOwner(u, home);
      assert Kept(u.info[j], c.info[j]);
    }
  }

  lemma MakeTriedKeepsTried(e: Env, t: Tables, id: int, j: int)
    requires Linked(e, t) && id in t.info && !t.info[id].inTried && t.info[id].lastSuccess != 0
    requires j in t.info && t.info[j].inTried && e.TriedSlot(t.info[j].addr) != e.TriedSlot(t.info[id].addr)
    ensures j in MakeTried(e, t, id).info && Kept(t.info[j], MakeTried(e, t, id).info[j])
  {
    hide Linked, OnlyMoved, Evolves, MakeRoom, Env.TriedSlot;
    DroppedLinked(e, t, id);
    MakeRoomKeepsTried(e, Dropped(t, id), e.TriedSlot(t.info[id].addr), j);
  }

  /** Settling one collision does not evict an entry that connected recently. */
  lemma ResolveOneSpares(e: Env, t: Tables, id: int, now: int, j: int)
    requires Sound(e, t) && now > 0 && RecentlyGood(t, j, now)
    ensures RecentlyGood(ResolveOne(e, t, id, now), j, now)
  {
    hide AddrsLinked, RandomLinked, NewPlaced, RefsExact, CountsExact, Evolves, MakeTried, Env.TriedSlot,
      CollisionsOccupied;
    if Judge(e, t, id, now) == Replace {
      var a := t.info[id].addr;
      KnownAs(e, t, id);
      GoodExact(e, t, a, false, now);
      if id != j && !t.info[id].inTried {
        var t0 := t.(lastGood := now);
        LastGoodFree(e, t, now);
        var x := t.info[id].(lastSuccess := now, lastTry := now, attempts := 0);
        StatsLinked(e, t0, id, x);
        MakeTriedKeepsTried(e, WithInfo(t0, id, x), id, j);
      }
    }
  }

  lemma KnownAs(e: Env, t: Tables, id: int)
    requires Linked(e, t) && id in t.info
    ensures t.info[id].addr in t.idOf && t.idOf[t.info[id].addr] == id
  {}

  /** Test-before-evict: settling any set of collisions never evicts an entry that connected within the last
      four hours. */
  lemma {:induction false} ResolveSpares(e: Env, t: Tables, todo: set<int>, now: int, j: int)
    requires Sound(e, t) && now > 0 && RecentlyGood(t, j, now)
    ensures RecentlyGood(ResolveAll(e, t, todo, now), j, now)
    decreases |todo|
  {
    hide Linked, ResolveOne, Evolves, CollisionsOccupied, RecentlyGood;
    if todo != {} {
      var id := Least(todo);
      ResolveOneSpares(e, t, id, now, j);
      ResolveSpares(e, ResolveOne(e, t, id, now), todo - {id}, now, j);
    }
  }

  /** A collision stays pending only while the entry in its way was tried within a minute, or the candidate
      connected within the test window. */
  lemma PendingBriefly(e: Env, t: Tables, id: int, now: int)
    requires Consistent(e, t) && now > 0 && id in ResolveOne(e, t, id, now).collisions
    ensures id in t.info && e.TriedSlot(t.info[id].addr) in t.triedTable
      && t.triedTable[e.TriedSlot(t.info[id].addr)] in t.info
    ensures var rival := t.info[t.triedTable[e.TriedSlot(t.info[id].addr)]];
      now - rival.lastTry <= 60 || now - t.info[id].lastSuccess <= TEST_WINDOW
  {
    hide AddrsLinked, RandomLinked, NewPlaced, RefsExact, CountsExact, TimesOk, Good, Evolves, Env.TriedSlot;
  }

  // ----- only announced, routable addresses get in -----

  /** Every entry has an address that is `ok`. */
  ghost predicate AllAre(ok: Service -> bool, t: Tables) { forall id :: id in t.info ==> ok(t.info[id].addr) }

  /** Routable addresses are `ok`. */
  ghost predicate Admits(e: Env, ok: Service -> bool) { forall a :: e.routable(a) ==> ok(a) }

  /** Without a new id, no new address. */
  lemma NoneAppears(e: Env, ok: Service -> bool, t: Tables, r: Tables)
    requires AllAre(ok, t) && Evolves(t, r) && Sound(e, r) && r.idCount == t.idCount
    ensures AllAre(ok, r)
  {
    hide AddrsLinked, RandomLinked, TriedPlaced, NewPlaced, RefsExact, CountsExact, TimesOk;
  }

  lemma SingleOk(e: Env, ok: Service -> bool, t: Tables, a: Address, source: NetAddr, penalty: int, now: int,
      lucky: bool)
    requires Sound(e, t) && AllAre(ok, t) && Admits(e, ok)
    ensures AllAre(ok, AddSingle(e, t, a, source, penalty, now, lucky).0)
  {
    hide Linked, AddKnown, AddUnknown;
    var r := AddSingle(e, t, a, source, penalty, now, lucky).0;
    if e.routable(a.service) {
      var p := if a.service.net == source then 0 else penalty;
      if a.service in t.idOf {
        KnownRefreshed(e, t, a, source, p, now, lucky);
        NoneAppears(e, ok, t, r);
      } else {
        UnknownStored(e, t, a, source, p, now);
        assert t.idCount in r.info ==> t.idCount in r.info.Keys;
        OneAppears(e, ok, t, r, a.service);
      }
    }
  }

  lemma OneAppears(e: Env, ok: Service -> bool, t: Tables, r: Tables, a: Service)
    requires AllAre(ok, t) && Evolves(t, r) && Sound(e, r) && r.idCount == t.idCount + 1 && ok(a)
    requires t.idCount in r.info ==> r.info[t.idCount].addr == a
    ensures AllAre(ok, r)
  {
    hide AddrsLinked, RandomLinked, TriedPlaced, NewPlaced, RefsExact, CountsExact, TimesOk;
    forall id | id in r.info ensures ok(r.info[id].addr) { if id >= t.idCount { assert id == t.idCount; } }
  }

  lemma {:induction false} AddOk(e: Env, ok: Service -> bool, t: Tables, addrs: seq<Address>, source: NetAddr,
      penalty: int, now: int, lucky: nat -> bool)
    requires Sound(e, t) && AllAre(ok, t) && Admits(e, ok)
    ensures AllAre(ok, Add(e, t, addrs, source, penalty, now, lucky).0)
  {
    hide Linked, AddSingle, Evolves, AllAre, Admits;
    if addrs != [] {
      var last := |addrs| - 1;
      AddOk(e, ok, t, addrs[..last], source, penalty, now, lucky);
      SingleOk(e, ok, Add(e, t, addrs[..last], source, penalty, now, lucky).0, addrs[last], source, penalty, now,
        lucky(last));
    }
  }

  lemma {:induction false} ResolveCount(e: Env, t: Tables, todo: set<int>, now: int)
    requires Sound(e, t) && now > 0
    ensures ResolveAll(e, t, todo, now).idCount == t.idCount
    decreases |todo|
  {
    hide Linked, Good, Judge, Evolves, CollisionsOccupied;
    if todo != {} {
      var id := Least(todo);
      if Judge(e, t, id, now) == Replace { GoodExact(e, t, t.info[id].addr, false, now); }
      ResolveCount(e, ResolveOne(e, t, id, now), todo - {id}, now);
    }
  }

  lemma ApplyOk(e: Env, ok: Service -> bool, t: Tables, op: Op)
    requires Consistent(e, t) && op.Timely() && AllAre(ok, t) && Admits(e, ok)
    ensures AllAre(ok, Apply(e, t, op))
  {
    hide Linked, Add, Good, ResolveAll, Evolves, CollisionsOccupied, AllAre, Admits, GetAddrFrom;
    var r := Apply(e, t, op);
    match op
    case AddAddresses(addrs, source, penalty, now, lucky) => AddOk(e, ok, t, addrs, source, penalty, now, lucky);
    case ReportGood(a, time) => GoodExact(e, t, a, true, time); NoneAppears(e, ok, t, r);
    case ReportStats(a, change) => NoneAppears(e, ok, t, r);
    case HandOut(maxAddresses, maxPct, network, now, draw) => NoneAppears(e, ok, t, r);
    case ResolveCollisions(now) => ResolveCount(e, t, t.collisions, now); NoneAppears(e, ok, t, r);
    case PickCollision(pick) => NoneAppears(e, ok, t, r);
  }

  /** Along every run, if every entry was `ok` and routable addresses are, every entry is. */
  lemma {:induction false} RunAdmits(e: Env, ok: Service -> bool, t: Tables, ops: seq<Op>)
    requires Consistent(e, t) && AllAre(ok, t) && Admits(e, ok) && forall op :: op in ops ==> op.Timely()
    ensures AllAre(ok, After(e, t, ops))
  {
    hide Apply, Consistent, Evolves, AllAre, Admits;
    if ops != [] {
      var last := |ops| - 1;
      assert ops[last] in ops;
      RunAdmits(e, ok, t, ops[..last]);
      ApplyOk(e, ok, After(e, t, ops[..last]), ops[last]);
    }
  }

  /** Along every run from the empty manager, every entry is a routable address. */
  lemma RunRoutable(e: Env, ops: seq<Op>)
    requires forall op :: op in ops ==> op.Timely()
    ensures AllAre(e.routable, Run(e, ops))
  {
    hide After, Consistent;
    EmptyConsistent(e);
    RunAdmits(e, e.routable, EMPTY, ops);
  }
}
