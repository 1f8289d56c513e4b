/**
 * Test-before-evict (src/addrman.cpp) and runs of the address manager: from
 * the empty tables, every sequence of operations keeps them consistent, and
 * an occupied tried slot is never emptied again.
 */
module AddrRuns {
  import opened Common
  import opened AddrTables
  import opened AddrOps
  import opened AddrManager

  const REPLACEMENT_SECONDS := 4 * 60 * 60
  const TEST_WINDOW := 40 * 60

  // ----- pending collisions -----

  datatype Verdict = Erase | Replace | Wait

  /** What to do about a pending collision of entry `id`, looking at the tried entry in its way. */
  function Judge(e: Env, t: Tables, id: int, now: int): (v: Verdict)
    requires Sound(e, t)
    ensures v != Erase ==> id in t.info
  {
    hide AddrsLinked, RandomLinked, NewPlaced, RefsExact, CountsExact;
    if id !in t.info || !e.valid(t.info[id].addr) then Erase else
    var s := e.TriedSlot(t.info[id].addr);
    if s !in t.triedTable then Replace else
    var rival := t.info[t.triedTable[s]];
    if now - rival.lastSuccess < REPLACEMENT_SECONDS then Erase
    else if now - rival.lastTry < REPLACEMENT_SECONDS then (if now - rival.lastTry > 60 then Replace else Wait)
    else if now - t.info[id].lastSuccess > TEST_WINDOW then Replace
    else Wait
  }

  /** What handling pending collisions promises: none is added, and only `judged` ones are settled. */
  ghost predicate ResolveOutcome(e: Env, t: Tables, judged: set<int>, r: Tables) {
    && Sound(e, r) && Evolves(t, r) && (CollisionsOccupied(e, t) ==> CollisionsOccupied(e, r))
    && r.collisions <= t.collisions && t.collisions - judged <= r.collisions
  }

  function ResolveOne(e: Env, t: Tables, id: int, now: int): (r: Tables)
    requires Sound(e, t) && now > 0
    ensures ResolveOutcome(e, t, {id}, r)
  {
    hide Linked, Good, Judge, Evolves, CollisionsOccupied;
    EvolvesReflexive(e, t);
    match Judge(e, t, id, now)
    case Wait => t
    case Erase => Settled(e, t, t, id); t.(collisions := t.collisions - {id})
    case Replace =>
      var u := Good(e, t, t.info[id].addr, false, now).0;
      Settled(e, t, u, id);
      u.(collisions := u.collisions - {id})
  }

  lemma Settled(e: Env, t: Tables, u: Tables, id: int)
    requires Sound(e, u) && Evolves(t, u) && u.collisions == t.collisions
    ensures var r := u.(collisions := u.collisions - {id});
      Sound(e, r) && Evolves(t, r) && (CollisionsOccupied(e, u) ==> CollisionsOccupied(e, r))
  {
    hide AddrsLinked, RandomLinked, TriedPlaced, NewPlaced, RefsExact, CountsExact, TimesOk;
    var r := u.(collisions := u.collisions - {id});
    forall j ensures Orphan(r, j) <==> Orphan(u, j) {}
  }

  function Least(s: set<int>): (m: int)
    requires s != {}
    ensures m in s && forall x :: x in s ==> m <= x
  {
    assert exists m :: m in s && forall x :: x in s ==> m <= x by { var _ := LeastOf(s); }
    var m :| m in s && forall x :: x in s ==> m <= x;
    m
  }

  lemma {:induction false} LeastOf(s: set<int>) returns (m: int)
    requires s != {}
    ensures m in s && forall x :: x in s ==> m <= x
  {
    if forall y :: y !in s { assert false; }
    var y :| y in s;
    m := y;
    if s - {y} != {} {
      var k := LeastOf(s - {y});
      m := if k < y then k else y;
    }
    forall x | x in s ensures m <= x { assert x == y || x in s - {y}; }
  }

  /** Judge the pending collisions in `todo` in increasing order of id. */
  function ResolveAll(e: Env, t: Tables, todo: set<int>, now: int): (r: Tables)
    requires Sound(e, t) && now > 0
    ensures ResolveOutcome(e, t, todo, r)
    decreases |todo|
  {
    hide Linked, ResolveOne, Evolves, CollisionsOccupied;
    EvolvesReflexive(e, t);
    if todo == {} then t else
    var id := Least(todo);
    var u := ResolveOne(e, t, id, now);
    var r := ResolveAll(e, u, todo - {id}, now);
    EvolvesTransitive(t, u, r);
    r
  }

  /** Pick a pending collision and name the tried entry it would evict, for a test connection. */
  function SelectTriedCollision(e: Env, t: Tables, id: int): (r: (Tables, Option<(Address, int)>))
    requires Consistent(e, t) && id in t.collisions
    ensures Consistent(e, r.0) && Evolves(t, r.0)
    ensures r.1.Some? <==> id in t.info
    ensures r.1.Some? ==>
      var s := e.TriedSlot(t.info[id].addr);
      && r.0 == t && s in t.triedTable && t.triedTable[s] in t.info && t.info[t.triedTable[s]].inTried
      && r.1 == Some((t.info[t.triedTable[s]].Announced(), t.info[t.triedTable[s]].lastTry))
    ensures r.1.None? ==> r.0 == t.(collisions := t.collisions - {id})
  {
    hide AddrsLinked, RandomLinked, NewPlaced, RefsExact, CountsExact, TimesOk;
    if id !in t.info then
      Settled(e, t, t, id);
      (t.(collisions := t.collisions - {id}), None)
    else
      var s := e.TriedSlot(t.info[id].addr);
      var rival := t.triedTable[s];
      assert rival in t.info && t.info[rival].inTried;
      (t, Some((t.info[rival].Announced(), t.info[rival].lastTry)))
  }

  // ----- runs -----

  datatype Op =
    | AddAddresses(addrs: seq<Address>, source: NetAddr, penalty: int, now: int, lucky: nat -> bool)
    | ReportGood(a: Service, time: int)
    | ReportStats(a: Service, change: StatChange)
    | HandOut(maxAddresses: nat, maxPct: nat, network: Option<nat>, now: int, draw: nat -> nat)
    | ResolveCollisions(now: int)
    | PickCollision(pick: set<int> -> int)
  {
    /** Times reported by callers and by the clock are positive. */
    predicate Timely() {
      match this
      case ReportGood(_, time) => time > 0
      case ReportStats(_, change) => change.Timely()
      case ResolveCollisions(now) => now > 0
      case _ => true
    }
  }

  function Apply(e: Env, t: Tables, op: Op): (r: Tables)
    requires Consistent(e, t) && op.Timely()
    ensures Consistent(e, r) && Evolves(t, r)
  {
    hide Linked, Add, Good, Update, GetAddr, ResolveAll, SelectTriedCollision, Evolves, CollisionsOccupied;
    EvolvesReflexive(e, t);
    match op
    case AddAddresses(addrs, source, penalty, now, lucky) =>
      var r := Add(e, t, addrs, source, penalty, now, lucky).0;
      CollisionsKept(e, t, t, r); r
    case ReportGood(a, time) => Good(e, t, a, true, time).0
    case ReportStats(a, change) =>
      var r := Update(e, t, a, change);
      CollisionsKept(e, t, t, r); r
    case HandOut(maxAddresses, maxPct, network, now, draw) =>
      var r := GetAddr(e, t, maxAddresses, maxPct, network, now, draw).0;
      CollisionsKept(e, t, t, r); r
    case ResolveCollisions(now) => ResolveAll(e, t, t.collisions, now)
    case PickCollision(pick) =>
      if pick(t.collisions) in t.collisions then SelectTriedCollision(e, t, pick(t.collisions)).0 else t
  }

  /** The tables after a sequence of operations. */
  function After(e: Env, t: Tables, ops: seq<Op>): (r: Tables)
    requires Consistent(e, t) && forall op :: op in ops ==> op.Timely()
    ensures Consistent(e, r)
  {
    hide Apply, Consistent, Evolves;
    if ops == [] then t
    else assert ops[|ops| - 1] in ops; Apply(e, After(e, t, ops[..|ops| - 1]), ops[|ops| - 1])
  }

  /** The tables after a sequence of operations on an empty manager. */
  function Run(e: Env, ops: seq<Op>): (r: Tables)
    requires forall op :: op in ops ==> op.Timely()
    ensures Consistent(e, r)
  {
    EmptyConsistent(e);
    After(e, EMPTY, ops)
  }

  lemma EmptyConsistent(e: Env)
    ensures Consistent(e, EMPTY)
  {}

  /** Along a run, a tried slot once occupied stays occupied and an id never changes its address. */
  lemma {:induction false} RunEvolves(e: Env, t: Tables, ops: seq<Op>, k: nat)
    requires Consistent(e, t) && k <= |ops| && forall op :: op in ops ==> op.Timely()
    ensures Evolves(After(e, t, ops[..k]), After(e, t, ops))
    decreases |ops|
  {
    hide Apply, Consistent, Evolves;
    if k == |ops| {
      assert ops[..k] == ops;
      EvolvesReflexive(e, After(e, t, ops));
    } else {
      var last := |ops| - 1;
      RunEvolves(e, t, ops[..last], k);
      assert ops[..last][..k] == ops[..k] && ops[last] in ops;
      EvolvesTransitive(After(e, t, ops[..k]), After(e, t, ops[..last]), After(e, t, ops));
    }
  }
}
