/**
 * The operations that src/addrman.cpp offers to its callers: announcing,
 * reporting and handing out addresses, each proved to keep the tables
 * consistent.
 *
 * Random draws and the clock are arguments.
 */
module AddrManager {
  import opened Common
  import opened AddrTables
  import opened AddrOps

  lemma EvolvesTransitive(t: Tables, u: Tables, r: Tables)
    requires Evolves(t, u) && Evolves(u, r)
    ensures Evolves(t, r)
  {}

  /** Pending collisions stay pending collisions as long as none is added. */
  lemma CollisionsEvolve(e: Env, t: Tables, r: Tables)
    requires CollisionsOccupied(e, t) && IdsBounded(t.info, t.collisions, t.idCount)
    requires Evolves(t, r) && r.collisions <= t.collisions
    ensures CollisionsOccupied(e, r)
  {
    forall id | id in r.collisions && id in r.info ensures e.TriedSlot(r.info[id].addr) in r.triedTable {
      assert id in t.collisions && id in t.info;
      assert e.TriedSlot(t.info[id].addr) in t.triedTable.Keys;
    }
  }

  // ----- statistics -----

  function WithInfo(t: Tables, id: int, x: AddrInfo): Tables { t.(info := t.info[id := x]) }

  /** A change of an entry's statistics that keeps recorded times meaningful. */
  predicate StatsOnly(a: AddrInfo, x: AddrInfo) {
    && x.addr == a.addr && x.source == a.source && x.refCount == a.refCount
    && x.inTried == a.inTried && x.randomPos == a.randomPos
    && x.lastTry >= 0 && x.lastSuccess >= 0 && (x.inTried ==> x.lastSuccess != 0)
  }

  lemma StatsLinked(e: Env, t: Tables, id: int, x: AddrInfo)
    requires Linked(e, t) && id in t.info && StatsOnly(t.info[id], x)
    ensures Linked(e, WithInfo(t, id, x)) && Evolves(t, WithInfo(t, id, x))
    ensures forall j :: Orphan(WithInfo(t, id, x), j) <==> Orphan(t, j)
  {
    hide AddrsLinked, RandomLinked, TriedPlaced, NewPlaced, RefsExact, CountsExact, Slots;
    UpdateLinked(e, t, id, x);
    RefsFrame(t.info, t.newTable, id, x);
  }

  // ----- adding an address -----

  /** The outcome of trying to place entry `id` of `t` at slot `s`: `added` tells whether it newly got the slot. */
  ghost predicate InsertOutcome(e: Env, t: Tables, id: int, s: Slot, r: Tables, added: bool) {
    && Sound(e, r) && Evolves(t, r) && r.collisions == t.collisions && r.triedTable == t.triedTable
    && (added <==> SlotOwner(t, s) != id && SlotOwner(r, s) == id)
    && (added ==> id in r.info && id in t.info && r.info[id].addr == t.info[id].addr)
  }

  /** Try to give entry `id` the slot that `source` hashes it to. */
  function Insert(e: Env, t: Tables, id: int, source: NetAddr, now: int): (r: (Tables, bool))
    requires Linked(e, t) && id in t.info && !t.info[id].inTried && t.info[id].refCount < MAX_NEW_REFS
    requires forall j :: Orphan(t, j) ==> j == id
    ensures InsertOutcome(e, t, id, e.NewSlot(t.info[id].addr, source), r.0, r.1)
  {
    hide Linked, InsertOutcome, ClearNew, OnlyCleared, Delete;
    var s := e.NewSlot(t.info[id].addr, source);
    OwnerKnown(e, t, s);
    if SlotOwner(t, s) == id then KeepOutcome(e, t, id, s); (t, false)
    else if
      || s !in t.newTable
      || t.info[t.newTable[s]].IsTerrible(now)
      || (t.info[t.newTable[s]].refCount > 1 && t.info[id].refCount == 0)
    then
      PlaceOutcome(e, t, id, s);
      (Placed(ClearNew(e, t, s), id, s), true)
    else if t.info[id].refCount == 0 then
      DeleteOutcome(e, t, id, s);
      (Delete(e, t, id), false)
    else KeepOutcome(e, t, id, s); (t, false)
  }

  lemma OwnerKnown(e: Env, t: Tables, s: Slot)
    requires Linked(e, t)
    ensures s in t.newTable ==> t.newTable[s] in t.info && t.info[t.newTable[s]].refCount > 0
    ensures forall id :: id in t.info ==> id >= 0
  {
    hide AddrsLinked, RandomLinked, TriedPlaced, CountsExact, TimesOk;
    OrphanOwnsNoSlot(e, t, s);
  }

  lemma KeepOutcome(e: Env, t: Tables, id: int, s: Slot)
    requires Linked(e, t) && id in t.info && (forall j :: Orphan(t, j) ==> j == id)
    requires SlotOwner(t, s) == id || t.info[id].refCount != 0
    ensures InsertOutcome(e, t, id, s, t, false)
  {
    OwnerKnown(e, t, s);
  }

  lemma DeleteOutcome(e: Env, t: Tables, id: int, s: Slot)
    requires Linked(e, t) && Orphan(t, id) && forall j :: Orphan(t, j) ==> j == id
    ensures InsertOutcome(e, t, id, s, Delete(e, t, id), false)
  {
    hide Linked, Delete;
    OwnerKnown(e, t, s);
    var r := Delete(e, t, id);
    forall j | j in r.info ensures j in t.info && Kept(t.info[j], r.info[j]) && !Orphan(r, j) {
      assert j in r.info.Keys && !Orphan(t, j);
    }
  }

  lemma PlaceOutcome(e: Env, t: Tables, id: int, s: Slot)
    requires Linked(e, t) && id in t.info && !t.info[id].inTried && t.info[id].refCount < MAX_NEW_REFS
    requires (forall j :: Orphan(t, j) ==> j == id) && SlotOwner(t, s) != id
    requires s.bucket < NEW_BUCKETS && s.pos == e.NewPos(s.bucket, t.info[id].addr)
    ensures id in ClearNew(e, t, s).info
    ensures InsertOutcome(e, t, id, s, Placed(ClearNew(e, t, s), id, s), true)
  {
    hide Linked, ClearNew;
    var c := ClearNew(e, t, s);
    assert id in c.info && Kept(t.info[id], c.info[id]);
    PlacedLinked(e, c, id, s);
    var r := Placed(c, id, s);
    forall j | j in r.info
      ensures j in t.info && r.info[j].addr == t.info[j].addr && r.info[j].source == t.info[j].source && !Orphan(r, j)
    {
      assert j in c.info && (Orphan(c, j) ==> Orphan(t, j));
    }
  }

  /** What announcing an address promises. */
  ghost predicate AddOutcome(e: Env, t: Tables, a: Service, source: NetAddr, r: Tables, added: bool) {
    && Sound(e, r) && Evolves(t, r) && r.collisions == t.collisions && r.triedTable == t.triedTable
    && (added ==> a in r.idOf && SlotOwner(r, e.NewSlot(a, source)) == r.idOf[a])
  }

  function AddSingle(e: Env, t: Tables, a: Address, source: NetAddr, penalty: int, now: int,
      lucky: bool): (r: (Tables, bool))
    requires Sound(e, t)
    ensures AddOutcome(e, t, a.service, source, r.0, r.1)
  {
    if !e.routable(a.service) then (t, false) else
    var p := if a.service.net == source then 0 else penalty;
    if a.service in t.idOf then AddKnown(e, t, a, source, p, now, lucky) else AddUnknown(e, t, a, source, p, now)
  }

  function AddKnown(e: Env, t: Tables, a: Address, source: NetAddr, penalty: int, now: int,
      lucky: bool): (r: (Tables, bool))
    requires Sound(e, t) && a.service in t.idOf
    ensures AddOutcome(e, t, a.service, source, r.0, r.1)
  {
    hide Linked, Insert, Evolves;
    var id := t.idOf[a.service];
    KnownAddress(e, t, a.service);
    var x := Refreshed(t.info[id], a, penalty, now);
    StatsLinked(e, t, id, x);
    var u := WithInfo(t, id, x);
    if || a.time == 0 || (x.time != 0 && a.time <= x.time)
       || x.inTried || x.refCount == MAX_NEW_REFS || (x.refCount > 0 && !lucky)
    then (u, false)
    else
      var r := Insert(e, u, id, source, now);
      EvolvesTransitive(t, u, r.0);
      if r.1 then AddressedBy(e, r.0, id); r else r
  }

  function AddUnknown(e: Env, t: Tables, a: Address, source: NetAddr, penalty: int, now: int): (r: (Tables, bool))
    requires Sound(e, t) && a.service !in t.idOf
    ensures AddOutcome(e, t, a.service, source, r.0, r.1)
  {
    hide Linked, Insert, Create, Evolves, Orphan;
    var c := Create(e, t, a, source);
    var x := c.info[t.idCount].(time := Max(0, a.time - penalty));
    CreateEvolves(e, t, a, source);
    StatsLinked(e, c, t.idCount, x);
    var u := WithInfo(c, t.idCount, x);
    var r := Insert(e, u, t.idCount, source, now);
    EvolvesTransitive(t, c, u);
    EvolvesTransitive(t, u, r.0);
    if r.1 then AddressedBy(e, r.0, t.idCount); r else r
  }

  lemma CreateEvolves(e: Env, t: Tables, a: Address, source: NetAddr)
    requires Sound(e, t) && a.service !in t.idOf
    ensures var c := Create(e, t, a, source);
      && Evolves(t, c) && c.collisions == t.collisions && c.triedTable == t.triedTable
      && (forall j :: Orphan(c, j) ==> j == t.idCount)
      && c.info[t.idCount].addr == a.service && c.info[t.idCount].lastTry == 0 && c.info[t.idCount].lastSuccess == 0
      && !c.info[t.idCount].inTried && c.info[t.idCount].refCount == 0
  {
    hide Linked;
    var c := Create(e, t, a, source);
    forall j | j in c.info ensures j != t.idCount ==> !Orphan(c, j) {
      assert j in c.info.Keys && !Orphan(t, j);
    }
  }

  lemma AddressedBy(e: Env, t: Tables, id: int)
    requires Linked(e, t) && id in t.info
    ensures t.info[id].addr in t.idOf && t.idOf[t.info[id].addr] == id
  {}

  lemma KnownAddress(e: Env, t: Tables, a: Service)
    requires Linked(e, t) && a in t.idOf
    ensures var id := t.idOf[a]; id in t.info && t.info[id].addr == a && 0 <= t.info[id].refCount <= MAX_NEW_REFS
    ensures var x := t.info[t.idOf[a]]; x.lastTry >= 0 && x.lastSuccess >= 0 && (x.inTried ==> x.lastSuccess != 0)
  {}

  /** Times and services after hearing about a known address again. */
  function Refreshed(i: AddrInfo, a: Address, penalty: int, now: int): AddrInfo {
    var interval := if now - a.time < 24 * 60 * 60 then 60 * 60 else 24 * 60 * 60;
    i.(time := if a.time != 0 && (i.time == 0 || i.time < a.time - interval - penalty)
               then Max(0, a.time - penalty) else i.time,
       services := i.services | a.services)
  }

  /** All addresses of one announcement, in order; `lucky` and the clock answer once per address. */
  function Add(e: Env, t: Tables, addrs: seq<Address>, source: NetAddr, penalty: int, now: int,
      lucky: nat -> bool): (r: (Tables, bool))
    requires Sound(e, t)
    ensures Sound(e, r.0) && Evolves(t, r.0) && r.0.collisions == t.collisions && r.0.triedTable == t.triedTable
  {
    hide Linked, AddSingle, Evolves;
    if addrs == [] then EvolvesReflexive(e, t); (t, false) else
    var last := |addrs| - 1;
    var first := Add(e, t, addrs[..last], source, penalty, now, lucky);
    var r := AddSingle(e, first.0, addrs[last], source, penalty, now, lucky(last));
    EvolvesTransitive(t, first.0, r.0);
    (r.0, first.1 || r.1)
  }

  lemma EvolvesReflexive(e: Env, t: Tables)
    ensures Evolves(t, t)
  {}

  // ----- connection results -----

  /** What a reported good connection promises: `moved` tells whether the address newly entered the tried table. */
  ghost predicate GoodOutcome(e: Env, t: Tables, a: Service, r: Tables, moved: bool) {
    && Sound(e, r) && Evolves(t, r) && (CollisionsOccupied(e, t) ==> CollisionsOccupied(e, r))
    && (forall id :: id in r.collisions && id !in t.collisions ==> id in r.info && r.info[id].addr == a)
    && (moved ==> a in t.idOf && t.idOf[a] in t.info && !t.info[t.idOf[a]].inTried
                  && t.idOf[a] in r.info && r.info[t.idOf[a]].inTried)
  }

  function Good(e: Env, t: Tables, a: Service, testBeforeEvict: bool, time: int): (r: (Tables, bool))
    requires Sound(e, t) && time > 0
    ensures GoodOutcome(e, t, a, r.0, r.1)
    ensures !testBeforeEvict ==> r.0.collisions == t.collisions
  {
    hide Linked, Evolves, MakeTried;
    LastGoodFree(e, t, time);
    var t0 := t.(lastGood := time);
    if a !in t.idOf then (t0, false) else
    var id := t.idOf[a];
    KnownAddress(e, t0, a);
    var x := t.info[id].(lastSuccess := time, lastTry := time, attempts := 0);
    StatsLinked(e, t0, id, x);
    var u := WithInfo(t0, id, x);
    CollisionsKept(e, t, t0, u);
    if x.inTried then (u, false)
    else if x.refCount == 0 then (u, false)
    else if testBeforeEvict && e.TriedSlot(a) in t.triedTable then
      CollisionRecorded(e, t, u, id);
      (if |u.collisions| < MAX_COLLISIONS then u.(collisions := u.collisions + {id}) else u, false)
    else
      var r := MakeTried(e, u, id);
      CollisionsKept(e, t, u, r);
      (r, true)
  }

  lemma LastGoodFree(e: Env, t: Tables, time: int)
    requires Sound(e, t)
    ensures Sound(e, t.(lastGood := time)) && Evolves(t, t.(lastGood := time))
  {
    forall j ensures Orphan(t.(lastGood := time), j) <==> Orphan(t, j) {}
  }

  lemma CollisionsKept(e: Env, t: Tables, u: Tables, r: Tables)
    requires Linked(e, t) && Evolves(t, u) && Evolves(u, r) && r.collisions <= t.collisions
    ensures Evolves(t, r) && (CollisionsOccupied(e, t) ==> CollisionsOccupied(e, r))
  {
    hide AddrsLinked, RandomLinked, TriedPlaced, NewPlaced, RefsExact, CountsExact, TimesOk;
    if CollisionsOccupied(e, t) { CollisionsEvolve(e, t, r); }
  }

  lemma CollisionRecorded(e: Env, t: Tables, u: Tables, id: int)
    requires Sound(e, u) && Evolves(t, u) && id in u.info && e.TriedSlot(u.info[id].addr) in u.triedTable
    ensures var c := u.(collisions := u.collisions + {id});
      Sound(e, c) && Evolves(t, c) && (CollisionsOccupied(e, u) ==> CollisionsOccupied(e, c))
  {
    hide AddrsLinked, RandomLinked, TriedPlaced, NewPlaced, RefsExact, CountsExact, TimesOk;
    var c := u.(collisions := u.collisions + {id});
    forall j ensures Orphan(c, j) <==> Orphan(u, j) {}
  }

  /** The statistics updates of Attempt, Connected and SetServices. */
  datatype StatChange =
    | Attempted(countFailure: bool, time: int)
    | WasConnected(time: int)
    | Offers(services: bv64)
  {
    predicate Timely() { (Attempted? || WasConnected?) ==> time > 0 }

    function Change(i: AddrInfo, lastGood: int): AddrInfo {
      match this
      case Attempted(countFailure, time) =>
        if countFailure && i.lastCountAttempt < lastGood
        then i.(lastTry := time, lastCountAttempt := time, attempts := i.attempts + 1)
        else i.(lastTry := time)
      case WasConnected(time) => if time - i.time > 20 * 60 then i.(time := time) else i
      case Offers(services) => i.(services := services)
    }
  }

  function Update(e: Env, t: Tables, a: Service, change: StatChange): (r: Tables)
    requires Sound(e, t) && change.Timely()
    ensures Sound(e, r) && Evolves(t, r) && r == t.(info := r.info) && r.info.Keys == t.info.Keys
    ensures forall id :: id in t.info && t.info[id].addr != a ==> r.info[id] == t.info[id]
  {
    hide Linked, Evolves;
    if a !in t.idOf then EvolvesReflexive(e, t); t else
    KnownAddress(e, t, a);
    var id := t.idOf[a];
    var x := change.Change(t.info[id], t.lastGood);
    StatsLinked(e, t, id, x);
    WithInfo(t, id, x)
  }

  // ----- handing out addresses -----

  predicate Wanted(e: Env, i: AddrInfo, network: Option<nat>, now: int) {
    (network == None || e.network(i.addr) == network.value) && !i.IsTerrible(now)
  }

  /** How many addresses GetAddr hands out at most. */
  function AddrLimit(size: nat, maxAddresses: nat, maxPct: nat): nat {
    var byPct := if maxPct != 0 then maxPct * size / 100 else size;
    if maxAddresses != 0 && maxAddresses < byPct then maxAddresses else byPct
  }

  /** The largest number within the percentage and the maximum, where zero stands for no restriction. */
  lemma LimitIsLargest(size: nat, maxAddresses: nat, maxPct: nat, n: nat)
    ensures n <= AddrLimit(size, maxAddresses, maxPct) <==>
      (maxAddresses == 0 || n <= maxAddresses) && (if maxPct == 0 then n <= size else 100 * n <= maxPct * size)
  {
    var p := maxPct * size;
    assert p == 100 * (p / 100) + p % 100;
  }

  /** Only `random` and the positions in it were shuffled, and only from index `n` on. */
  ghost predicate Shuffled(t: Tables, r: Tables, n: nat) {
    && RandomLinked(r.info, r.random) && r == t.(info := r.info, random := r.random)
    && r.info.Keys == t.info.Keys && (forall id :: id in t.info ==> Kept(t.info[id], r.info[id]))
    && |r.random| == |t.random| && (forall i :: 0 <= i < n && i < |t.random| ==> r.random[i] == t.random[i])
  }

  /** Chosen ids are wanted entries in increasing order of their place in `random`, so none is chosen twice. */
  ghost predicate Chosen(e: Env, t: Tables, n: nat, network: Option<nat>, now: int, ids: seq<int>) {
    && (forall k :: 0 <= k < |ids| ==>
          ids[k] in t.info && n <= t.info[ids[k]].randomPos && Wanted(e, t.info[ids[k]], network, now))
    && (forall k, l :: 0 <= k < l < |ids| ==>
          ids[k] in t.info && ids[l] in t.info && t.info[ids[k]].randomPos < t.info[ids[l]].randomPos)
  }

  /** No wanted entry from place `n` of `random` on is left out. */
  ghost predicate AllChosen(e: Env, t: Tables, n: nat, network: Option<nat>, now: int, ids: seq<int>) {
    forall id :: id in t.info && n <= t.info[id].randomPos && Wanted(e, t.info[id], network, now) ==> id in ids
  }

  /** A random index among those not drawn yet. */
  function Pick(draw: nat -> nat, n: nat, size: nat): (j: nat)
    requires n < size
    ensures n <= j < size
  {
    n + draw(n) % (size - n)
  }

  function GetAddrFrom(e: Env, t: Tables, n: nat, limit: nat, network: Option<nat>, now: int,
      draw: nat -> nat): (r: (Tables, seq<int>))
    requires RandomLinked(t.info, t.random)
    ensures Shuffled(t, r.0, n) && |r.1| <= limit && Chosen(e, r.0, n, network, now, r.1)
    ensures |r.1| < limit ==> AllChosen(e, r.0, n, network, now, r.1)
    decreases |t.random| - n
  {
    hide SwapRandom, Shuffled, Chosen, AllChosen, Wanted, RandomLinked, Pick;
    if n >= |t.random| || limit == 0 then NothingDrawn(e, t, n, network, now); (t, []) else
    var j := Pick(draw, n, |t.random|);
    var u := SwapRandom(t, n, j);
    Listed(u, n);
    var id := u.random[n];
    var take := Wanted(e, u.info[id], network, now);
    var r := GetAddrFrom(e, u, n + 1, if take then limit - 1 else limit, network, now, draw);
    ShuffledStep(e, t, u, r.0, n, j, network, now);
    ChosenStep(e, r.0, n, network, now, r.1);
    AllChosenStep(e, r.0, n, network, now, r.1);
    (r.0, if take then [id] + r.1 else r.1)
  }

  lemma NothingDrawn(e: Env, t: Tables, n: nat, network: Option<nat>, now: int)
    requires RandomLinked(t.info, t.random)
    ensures Shuffled(t, t, n) && Chosen(e, t, n, network, now, [])
    ensures n >= |t.random| ==> AllChosen(e, t, n, network, now, [])
  {
    hide Wanted;
  }

  lemma SwapSpares(t: Tables, n: nat, j: nat)
    requires RandomLinked(t.info, t.random) && n <= j < |t.random|
    ensures forall i :: 0 <= i < n ==> SwapRandom(t, n, j).random[i] == t.random[i]
  {
    hide RandomLinked;
  }

  lemma ShuffledStep(e: Env, t: Tables, u: Tables, r: Tables, n: nat, j: nat, network: Option<nat>, now: int)
    requires RandomLinked(t.info, t.random) && n <= j < |t.random| && u == SwapRandom(t, n, j)
    requires Shuffled(u, r, n + 1)
    ensures Shuffled(t, r, n) && RandomLinked(r.info, r.random) && n < |r.random| == |u.random|
    ensures r.random[n] == u.random[n] && u.random[n] in u.info && u.random[n] in r.info
    ensures r.info[r.random[n]].randomPos == n
    ensures Wanted(e, r.info[r.random[n]], network, now) <==> Wanted(e, u.info[u.random[n]], network, now)
  {
    hide SwapRandom;
    SwapSpares(t, n, j);
    forall id | id in t.info ensures Kept(t.info[id], r.info[id]) {
      assert id in u.info.Keys && Kept(t.info[id], u.info[id]) && Kept(u.info[id], r.info[id]);
    }
    assert u.random[n] in u.info && Kept(u.info[u.random[n]], r.info[u.random[n]]);
  }

  lemma ChosenStep(e: Env, r: Tables, n: nat, network: Option<nat>, now: int, ids: seq<int>)
    requires n < |r.random| && r.random[n] in r.info && r.info[r.random[n]].randomPos == n
    requires Chosen(e, r, n + 1, network, now, ids)
    ensures Chosen(e, r, n, network, now, ids)
    ensures Wanted(e, r.info[r.random[n]], network, now) ==> Chosen(e, r, n, network, now, [r.random[n]] + ids)
  {
    var more := [r.random[n]] + ids;
    assert forall k :: 1 <= k < |more| ==> more[k] == ids[k - 1];
  }

  lemma AllChosenStep(e: Env, r: Tables, n: nat, network: Option<nat>, now: int, ids: seq<int>)
    requires RandomLinked(r.info, r.random) && n < |r.random| && r.random[n] in r.info
    ensures AllChosen(e, r, n + 1, network, now, ids) ==>
      AllChosen(e, r, n, network, now, if Wanted(e, r.info[r.random[n]], network, now) then [r.random[n]] + ids
        else ids)
  {
    hide Wanted;
  }

  /** The outcome of GetAddrFrom when `ids` have been chosen before index `n`. */
  function GetAddrAfter(e: Env, t: Tables, n: nat, limit: nat, network: Option<nat>, now: int, draw: nat -> nat,
      ids: seq<int>): (Tables, seq<int>)
    requires RandomLinked(t.info, t.random) && |ids| <= limit
  {
    var rest := GetAddrFrom(e, t, n, limit - |ids|, network, now, draw);
    (rest.0, ids + rest.1)
  }

  lemma Listed(t: Tables, n: nat)
    requires RandomLinked(t.info, t.random) && n < |t.random|
    ensures t.random[n] in t.info
  {}

  lemma NoneChosen(e: Env, t: Tables, limit: nat, network: Option<nat>, now: int, draw: nat -> nat)
    requires RandomLinked(t.info, t.random)
    ensures GetAddrAfter(e, t, 0, limit, network, now, draw, []) == GetAddrFrom(e, t, 0, limit, network, now, draw)
  {
    hide GetAddrFrom;
    var r := GetAddrFrom(e, t, 0, limit, network, now, draw);
    assert [] + r.1 == r.1;
  }

  lemma GetAddrStep(e: Env, t: Tables, n: nat, limit: nat, network: Option<nat>, now: int, draw: nat -> nat,
      ids: seq<int>)
    requires RandomLinked(t.info, t.random) && |ids| <= limit
    ensures
      if n >= |t.random| || |ids| == limit then GetAddrAfter(e, t, n, limit, network, now, draw, ids) == (t, ids)
      else
        var u := SwapRandom(t, n, Pick(draw, n, |t.random|));
        u.random[n] in u.info &&
        var more := if Wanted(e, u.info[u.random[n]], network, now) then ids + [u.random[n]] else ids;
        GetAddrAfter(e, t, n, limit, network, now, draw, ids) ==
          GetAddrAfter(e, u, n + 1, limit, network, now, draw, more)
  {
    hide SwapRandom, Shuffled, Chosen, AllChosen, Pick, Wanted, RandomLinked;
    if n >= |t.random| || |ids| == limit {
      assert ids + [] == ids;
    } else {
      var u := SwapRandom(t, n, Pick(draw, n, |t.random|));
      Listed(u, n);
      var id := u.random[n];
      var rest := GetAddrFrom(e, u, n + 1, limit - |ids| - B(Wanted(e, u.info[id], network, now)), network, now, draw);
      assert ids + ([id] + rest.1) == (ids + [id]) + rest.1;
    }
  }

  function Announcements(m: Infos, ids: seq<int>): seq<Address>
    requires forall k :: 0 <= k < |ids| ==> ids[k] in m
  {
    seq(|ids|, k requires 0 <= k < |ids| => m[ids[k]].Announced())
  }

  function GetAddr(e: Env, t: Tables, maxAddresses: nat, maxPct: nat, network: Option<nat>, now: int,
      draw: nat -> nat): (r: (Tables, seq<Address>))
    requires Sound(e, t)
    ensures Sound(e, r.0) && Evolves(t, r.0) && r.0.collisions == t.collisions && r.0.triedTable == t.triedTable
    ensures |r.1| <= AddrLimit(|t.random|, maxAddresses, maxPct)
    ensures HandedOut(e, t, network, now, r.1)
    ensures |r.1| < AddrLimit(|t.random|, maxAddresses, maxPct) ==>
      forall id :: id in t.info && Wanted(e, t.info[id], network, now) ==> t.info[id].Announced() in r.1
  {
    hide GetAddrFrom, Sound, HandedOut, AddrLimit, Evolves, Shuffled, RandomLinked, AddrsLinked, Wanted;
    SoundIndex(e, t);
    var r := GetAddrFrom(e, t, 0, AddrLimit(|t.random|, maxAddresses, maxPct), network, now, draw);
    ShuffledSound(e, t, r.0);
    ChosenHandedOut(e, t, r.0, network, now, r.1);
    AllHandedOut(e, t, r.0, network, now, r.1);
    (r.0, Announcements(r.0.info, r.1))
  }

  lemma SoundIndex(e: Env, t: Tables)
    requires Sound(e, t)
    ensures RandomLinked(t.info, t.random) && AddrsLinked(t.info, t.idOf)
  {}

  lemma ShuffledSound(e: Env, t: Tables, r: Tables)
    requires Sound(e, t) && Shuffled(t, r, 0)
    ensures Sound(e, r) && Evolves(t, r) && r.collisions == t.collisions && r.triedTable == t.triedTable
  {
    hide Linked;
    ShuffleKeepsLinked(e, t, r);
  }

  /** Every address handed out is a known, wanted one as announced, and no address is handed out twice. */
  ghost predicate HandedOut(e: Env, t: Tables, network: Option<nat>, now: int, out: seq<Address>) {
    && (forall k :: 0 <= k < |out| ==>
          && out[k].service in t.idOf && t.idOf[out[k].service] in t.info
          && out[k] == t.info[t.idOf[out[k].service]].Announced()
          && Wanted(e, t.info[t.idOf[out[k].service]], network, now))
    && (forall k, l :: 0 <= k < l < |out| ==> out[k].service != out[l].service)
  }

  lemma ChosenHandedOut(e: Env, t: Tables, r: Tables, network: Option<nat>, now: int, ids: seq<int>)
    requires AddrsLinked(t.info, t.idOf) && Shuffled(t, r, 0) && Chosen(e, r, 0, network, now, ids)
    ensures HandedOut(e, t, network, now, Announcements(r.info, ids))
  {
    hide RandomLinked;
    var out := Announcements(r.info, ids);
    forall k | 0 <= k < |out| 
      ensures out[k].service in t.idOf && t.idOf[out[k].service] == ids[k] && ids[k] in t.info
      ensures out[k] == t.info[ids[k]].Announced() && Wanted(e, t.info[ids[k]], network, now)
    {
      var id := ids[k];
      assert id in r.info && id in t.info.Keys && Kept(t.info[id], r.info[id]);
    }
  }

  lemma AllHandedOut(e: Env, t: Tables, r: Tables, network: Option<nat>, now: int, ids: seq<int>)
    requires Shuffled(t, r, 0) && Chosen(e, r, 0, network, now, ids)
    ensures AllChosen(e, r, 0, network, now, ids) ==>
      forall id :: id in t.info && Wanted(e, t.info[id], network, now) ==>
        t.info[id].Announced() in Announcements(r.info, ids)
  {
    if AllChosen(e, r, 0, network, now, ids) {
      forall id | id in t.info && Wanted(e, t.info[id], network, now)
        ensures t.info[id].Announced() in Announcements(r.info, ids)
      {
        assert id in r.info.Keys && Kept(t.info[id], r.info[id]);
        assert id in ids;
        var k :| 0 <= k < |ids| && ids[k] == id;
        assert Announcements(r.info, ids)[k] == t.info[id].Announced();
      }
    }
  }
}
