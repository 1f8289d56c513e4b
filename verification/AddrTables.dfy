/**
 * The address manager's tables (src/addrman_impl.h) as values, and the
 * consistency invariant that src/addrman.cpp states as a run-time checker.
 *
 * The bucket tables are kept sparse: a slot absent from `newTable` or
 * `triedTable` is a slot holding -1 in the fixed-size arrays.
 */
module AddrTables {
  import opened Common

  const TRIED_BUCKETS: nat := 256
  const NEW_BUCKETS: nat := 1024
  const BUCKET_SIZE: nat := 64
  const MAX_NEW_REFS: nat := 8
  const MAX_COLLISIONS: nat := 10

  datatype NetAddr = NetAddr(ip: nat)
  datatype Service = Service(net: NetAddr, port: nat)
  datatype Slot = Slot(bucket: nat, pos: nat)

  /** An address as announced by a peer. */
  datatype Address = Address(service: Service, time: int, services: bv64)

  datatype AddrInfo = AddrInfo(
    addr: Service, time: int, services: bv64, source: NetAddr,
    lastTry: int, lastCountAttempt: int, lastSuccess: int, attempts: int,
    refCount: int, inTried: bool, randomPos: int)
  {
    function Announced(): Address { Address(addr, time, services) }

    /** Whether the statistics are bad enough for the entry to be dropped. */
    predicate IsTerrible(now: int) {
      if lastTry != 0 && lastTry >= now - 60 then false
      else
        || time > now + 10 * 60
        || time == 0 || now - time > 30 * 24 * 60 * 60
        || (lastSuccess == 0 && attempts >= 3)
        || (now - lastSuccess > 7 * 24 * 60 * 60 && attempts >= 10)
    }
  }

  /** The keyed hashes and address classification, which the tables only consult. */
  datatype Env = Env(
    triedHash: Service -> nat,
    newHash: (Service, NetAddr) -> nat,
    posHash: (bool, nat, Service) -> nat,
    routable: Service -> bool,
    valid: Service -> bool,
    network: Service -> nat)
  {
    function NewPos(bucket: nat, a: Service): nat { posHash(true, bucket, a) % BUCKET_SIZE }

    function NewBucket(a: Service, src: NetAddr): nat { newHash(a, src) % NEW_BUCKETS }

    function NewSlot(a: Service, src: NetAddr): Slot {
      var b := NewBucket(a, src); Slot(b, NewPos(b, a))
    }

    function TriedSlot(a: Service): Slot {
      var b := triedHash(a) % TRIED_BUCKETS; Slot(b, posHash(false, b, a) % BUCKET_SIZE)
    }
  }

  type Table = map<Slot, int>
  type Infos = map<int, AddrInfo>

  datatype Tables = Tables(
    idCount: int, info: Infos, idOf: map<Service, int>, random: seq<int>,
    newTable: Table, triedTable: Table, newCount: int, triedCount: int,
    lastGood: int, collisions: set<int>)

  const EMPTY := Tables(0, map[], map[], [], map[], map[], 0, 0, 1, {})

  // ----- the invariant, clause by clause -----

  function Slots(t: Table, id: int): set<Slot> { set s | s in t && t[s] == id }

  function NewIds(m: Infos): set<int> { set id | id in m && !m[id].inTried }

  function TriedIds(m: Infos): set<int> { set id | id in m && m[id].inTried }

  ghost predicate IdsBounded(m: Infos, collisions: set<int>, idCount: int) {
    && 0 <= idCount
    && (forall id :: id in m ==> 0 <= id < idCount)
    && (forall id :: id in collisions ==> id < idCount)
  }

  /** `idOf` and the addresses of the entries are inverse to each other. */
  ghost predicate AddrsLinked(m: Infos, idOf: map<Service, int>) {
    && (forall id :: id in m ==> m[id].addr in idOf && idOf[m[id].addr] == id)
    && (forall a :: a in idOf ==> idOf[a] in m && m[idOf[a]].addr == a)
  }

  /** `random` lists every id once, at the position the entry records. */
  ghost predicate RandomLinked(m: Infos, random: seq<int>) {
    && (forall id :: id in m ==> 0 <= m[id].randomPos < |random| && random[m[id].randomPos] == id)
    && (forall i :: 0 <= i < |random| ==> random[i] in m && m[random[i]].randomPos == i)
  }

  ghost predicate TimesOk(m: Infos) {
    forall id :: id in m ==>
      m[id].lastTry >= 0 && m[id].lastSuccess >= 0 && (m[id].inTried ==> m[id].lastSuccess != 0)
  }

  /** Each tried entry sits at its hashed slot, and nothing else is in the table. */
  ghost predicate TriedPlaced(e: Env, m: Infos, t: Table) {
    && (forall s :: s in t ==> t[s] in m && m[t[s]].inTried && s == e.TriedSlot(m[t[s]].addr))
    && (forall id :: id in m && m[id].inTried ==>
          e.TriedSlot(m[id].addr) in t && t[e.TriedSlot(m[id].addr)] == id)
  }

  /** New entries sit at the position hashed from their bucket. */
  ghost predicate NewPlaced(e: Env, m: Infos, t: Table) {
    forall s :: s in t ==>
      t[s] in m && !m[t[s]].inTried && s.bucket < NEW_BUCKETS && s.pos == e.NewPos(s.bucket, m[t[s]].addr)
  }

  /** `refCount` counts the new-table slots of an entry. */
  ghost predicate RefsExact(m: Infos, t: Table) {
    forall id :: id in m ==> m[id].refCount == |Slots(t, id)| <= MAX_NEW_REFS
  }

  ghost predicate CountsExact(m: Infos, newCount: int, triedCount: int) {
    newCount == |NewIds(m)| && triedCount == |TriedIds(m)|
  }

  ghost predicate CollisionsOccupied(e: Env, t: Tables) {
    forall id :: id in t.collisions && id in t.info ==> e.TriedSlot(t.info[id].addr) in t.triedTable
  }

  /** Everything except that some untried entries may be without a slot, as happens inside an operation. */
  ghost predicate Linked(e: Env, t: Tables) {
    && IdsBounded(t.info, t.collisions, t.idCount)
    && AddrsLinked(t.info, t.idOf)
    && RandomLinked(t.info, t.random)
    && TimesOk(t.info)
    && TriedPlaced(e, t.info, t.triedTable)
    && NewPlaced(e, t.info, t.newTable)
    && RefsExact(t.info, t.newTable)
    && CountsExact(t.info, t.newCount, t.triedCount)
  }

  predicate Orphan(t: Tables, id: int) { id in t.info && !t.info[id].inTried && t.info[id].refCount == 0 }

  /** What the consistency checker looks at: every entry is in the new or the tried table. */
  ghost predicate Sound(e: Env, t: Tables) { Linked(e, t) && forall id :: !Orphan(t, id) }

  /** The invariant between operations. */
  ghost predicate Consistent(e: Env, t: Tables) { Sound(e, t) && CollisionsOccupied(e, t) }

  /** An entry that an operation on another entry leaves alone, up to its place in `random`. */
  predicate Kept(a: AddrInfo, b: AddrInfo) { b == a.(randomPos := b.randomPos) }

  /** Every entry of `t` except `id` survives in `u` unchanged up to its place in `random`. */
  ghost predicate KeepsOthers(t: Tables, u: Tables, id: int) {
    && u.info.Keys <= t.info.Keys
    && (forall j :: j in t.info && j != id ==> j in u.info && Kept(t.info[j], u.info[j]))
  }

  // ----- counting slots and entries -----

  lemma SlotsAfterErase(t: Table, s: Slot, id: int)
    requires s in t
    ensures t[s] == id ==> |Slots(t - {s}, id)| == |Slots(t, id)| - 1
    ensures t[s] != id ==> Slots(t - {s}, id) == Slots(t, id)
  {
    assert Slots(t - {s}, id) == Slots(t, id) - {s};
  }

  lemma SlotsAfterPlace(t: Table, s: Slot, owner: int, id: int)
    requires s !in t
    ensures owner == id ==> |Slots(t[s := owner], id)| == |Slots(t, id)| + 1
    ensures owner != id ==> Slots(t[s := owner], id) == Slots(t, id)
  {
    assert s !in Slots(t, id);
    assert Slots(t[s := owner], id) == if owner == id then Slots(t, id) + {s} else Slots(t, id);
  }

  lemma IdsAfterUpdate(m: Infos, id: int, x: AddrInfo)
    ensures NewIds(m[id := x]) == if x.inTried then NewIds(m) - {id} else NewIds(m) + {id}
    ensures TriedIds(m[id := x]) == if x.inTried then TriedIds(m) + {id} else TriedIds(m) - {id}
  {
    var n := m[id := x];
    forall j ensures j in NewIds(n) <==> if j == id then !x.inTried else j in NewIds(m) {}
    forall j ensures j in TriedIds(n) <==> if j == id then x.inTried else j in TriedIds(m) {}
  }

  lemma CountsAfterUpdate(m: Infos, id: int, x: AddrInfo, newCount: int, triedCount: int)
    requires CountsExact(m, newCount, triedCount)
    ensures CountsExact(m[id := x],
                        newCount + B(!x.inTried) - B(id in m && !m[id].inTried),
                        triedCount + B(x.inTried) - B(id in m && m[id].inTried))
  {
    IdsAfterUpdate(m, id, x);
    assert id in NewIds(m) <==> id in m && !m[id].inTried;
    assert id in TriedIds(m) <==> id in m && m[id].inTried;
  }

  lemma CountsAfterErase(m: Infos, id: int, newCount: int, triedCount: int)
    requires CountsExact(m, newCount, triedCount) && id in m
    ensures CountsExact(m - {id}, newCount - B(!m[id].inTried), triedCount - B(m[id].inTried))
  {
    forall j ensures j in NewIds(m - {id}) <==> j != id && j in NewIds(m) {}
    forall j ensures j in TriedIds(m - {id}) <==> j != id && j in TriedIds(m) {}
    assert NewIds(m - {id}) == NewIds(m) - {id} && TriedIds(m - {id}) == TriedIds(m) - {id};
  }

  lemma CountsFrame(m: Infos, n: Infos, newCount: int, triedCount: int)
    requires CountsExact(m, newCount, triedCount)
    requires m.Keys == n.Keys && forall id :: id in m ==> n[id].inTried == m[id].inTried
    ensures CountsExact(n, newCount, triedCount)
  {
    forall j ensures j in NewIds(n) <==> j in NewIds(m) { assert j in n <==> j in m.Keys; }
    forall j ensures j in TriedIds(n) <==> j in TriedIds(m) { assert j in n <==> j in m.Keys; }
    assert NewIds(n) == NewIds(m) && TriedIds(n) == TriedIds(m);
  }

  // ----- how each clause carries over -----

  /** Statistics, counters and table membership of an entry are not part of the index structures. */
  lemma IndexAfterUpdate(m: Infos, id: int, x: AddrInfo, idOf: map<Service, int>, random: seq<int>)
    requires id in m && x.addr == m[id].addr && x.randomPos == m[id].randomPos
    requires AddrsLinked(m, idOf) && RandomLinked(m, random)
    ensures AddrsLinked(m[id := x], idOf) && RandomLinked(m[id := x], random)
  {}

  lemma IndexAfterAppend(m: Infos, id: int, x: AddrInfo, idOf: map<Service, int>, random: seq<int>)
    requires id !in m && x.addr !in idOf && x.randomPos == |random|
    requires AddrsLinked(m, idOf) && RandomLinked(m, random)
    ensures AddrsLinked(m[id := x], idOf[x.addr := id]) && RandomLinked(m[id := x], random + [id])
  {}

  lemma IndexAfterDropLast(m: Infos, idOf: map<Service, int>, random: seq<int>)
    requires AddrsLinked(m, idOf) && RandomLinked(m, random) && random != []
    ensures var last := |random| - 1; var id := random[last];
      && id in m
      && AddrsLinked(m - {id}, idOf - {m[id].addr}) && RandomLinked(m - {id}, random[..last])
  {}

  lemma AddrsFrame(m: Infos, n: Infos, idOf: map<Service, int>)
    requires m.Keys == n.Keys && forall id :: id in m ==> n[id].addr == m[id].addr
    requires AddrsLinked(m, idOf)
    ensures AddrsLinked(n, idOf)
  {}

  lemma NewPlacedFrame(e: Env, m: Infos, n: Infos, t: Table)
    requires NewPlaced(e, m, t)
    requires forall id :: id in m && !m[id].inTried && Slots(t, id) != {} ==>
      id in n && !n[id].inTried && n[id].addr == m[id].addr
    ensures NewPlaced(e, n, t)
  {
    forall s | s in t
      ensures t[s] in n && !n[t[s]].inTried && s.bucket < NEW_BUCKETS && s.pos == e.NewPos(s.bucket, n[t[s]].addr)
    {
      var id := t[s];
      assert s in Slots(t, id);
      assert id in m && s.pos == e.NewPos(s.bucket, m[id].addr);
    }
  }

  lemma NewPlacedSubset(e: Env, m: Infos, t: Table, u: Table)
    requires NewPlaced(e, m, t) && forall s :: s in u ==> s in t && u[s] == t[s]
    ensures NewPlaced(e, m, u)
  {}

  lemma TriedPlacedFrame(e: Env, m: Infos, n: Infos, t: Table)
    requires TriedPlaced(e, m, t)
    requires forall id :: id in m && m[id].inTried ==> id in n && n[id].inTried && n[id].addr == m[id].addr
    requires forall id :: id in n && n[id].inTried ==> id in m && m[id].inTried
    ensures TriedPlaced(e, n, t)
  {
    forall s | s in t ensures t[s] in n && n[t[s]].inTried && s == e.TriedSlot(n[t[s]].addr) {
      var id := t[s];
      assert id in m && m[id].inTried && s == e.TriedSlot(m[id].addr);
    }
  }

  lemma TriedAfterLeave(e: Env, m: Infos, id: int, t: Table)
    requires TriedPlaced(e, m, t) && id in m && m[id].inTried
    ensures TriedPlaced(e, m[id := m[id].(inTried := false)], t - {e.TriedSlot(m[id].addr)})
  {
    var n, u := m[id := m[id].(inTried := false)], t - {e.TriedSlot(m[id].addr)};
    forall s | s in u ensures u[s] in n && n[u[s]].inTried && s == e.TriedSlot(n[u[s]].addr) {
      var j := t[s];
      assert j in m && s == e.TriedSlot(m[j].addr);
      assert j != id;
    }
  }

  lemma TriedAfterEnter(e: Env, m: Infos, id: int, t: Table)
    requires TriedPlaced(e, m, t) && id in m && !m[id].inTried && e.TriedSlot(m[id].addr) !in t
    ensures TriedPlaced(e, m[id := m[id].(inTried := true)], t[e.TriedSlot(m[id].addr) := id])
  {
    var n, u := m[id := m[id].(inTried := true)], t[e.TriedSlot(m[id].addr) := id];
    forall s | s in u ensures u[s] in n && n[u[s]].inTried && s == e.TriedSlot(n[u[s]].addr) {
      var j := u[s];
      assert j == id || (j in m && s == e.TriedSlot(m[j].addr));
    }
  }

  lemma RefsAfterAppend(m: Infos, t: Table, id: int, x: AddrInfo)
    requires RefsExact(m, t) && Slots(t, id) == {} && x.refCount == 0
    ensures RefsExact(m[id := x], t)
  {}

  lemma RefsAfterErase(m: Infos, t: Table, id: int)
    requires RefsExact(m, t)
    ensures RefsExact(m - {id}, t)
  {}

  lemma RefsAfterPlace(m: Infos, t: Table, id: int, s: Slot)
    requires RefsExact(m, t) && id in m && m[id].refCount < MAX_NEW_REFS && s !in t
    ensures RefsExact(m[id := m[id].(refCount := m[id].refCount + 1)], t[s := id])
  {
    var n := m[id := m[id].(refCount := m[id].refCount + 1)];
    forall j | j in n ensures n[j].refCount == |Slots(t[s := id], j)| <= MAX_NEW_REFS {
      SlotsAfterPlace(t, s, id, j);
    }
  }

  lemma RefsAfterRelease(m: Infos, t: Table, s: Slot)
    requires RefsExact(m, t) && s in t && t[s] in m
    ensures RefsExact(m[t[s] := m[t[s]].(refCount := m[t[s]].refCount - 1)], t - {s})
  {
    var n := m[t[s] := m[t[s]].(refCount := m[t[s]].refCount - 1)];
    forall j | j in n ensures n[j].refCount == |Slots(t - {s}, j)| <= MAX_NEW_REFS {
      SlotsAfterErase(t, s, j);
    }
  }

  function WithoutOwner(t: Table, id: int): (u: Table)
    ensures Slots(u, id) == {} && forall j :: j != id ==> Slots(u, j) == Slots(t, j)
  {
    map s | s in t && t[s] != id :: t[s]
  }

  lemma RefsAfterDrop(m: Infos, t: Table, id: int)
    requires RefsExact(m, t) && id in m
    ensures RefsExact(m[id := m[id].(refCount := 0)], WithoutOwner(t, id))
  {}

  lemma RefsFrame(m: Infos, t: Table, id: int, x: AddrInfo)
    requires RefsExact(m, t) && id in m && x.refCount == m[id].refCount
    ensures RefsExact(m[id := x], t)
  {}

  lemma OrphanHasNoSlots(m: Infos, t: Table, id: int)
    requires RefsExact(m, t) && id in m && m[id].refCount == 0
    ensures Slots(t, id) == {}
  {}

  lemma NoSlotsOutside(e: Env, m: Infos, t: Table, id: int)
    requires NewPlaced(e, m, t) && (id in m ==> m[id].inTried)
    ensures Slots(t, id) == {}
  {
    forall s | s in t ensures t[s] != id { var j := t[s]; assert j in m && !m[j].inTried; }
  }
}
