/**
 * The run-time consistency check of src/addrman.cpp, and what a zero from it
 * is worth: up to address-map entries it never looks at, exactly the
 * invariant that the operations keep.
 */
module AddrCheck {
  import opened AddrTables

  /** Slots are those of the fixed-size arrays. */
  predicate Shaped(t: Tables) {
    && (forall s :: s in t.triedTable ==> s.bucket < TRIED_BUCKETS && s.pos < BUCKET_SIZE)
    && (forall s :: s in t.newTable ==> s.bucket < NEW_BUCKETS && s.pos < BUCKET_SIZE)
  }

  /** The checks made on one entry, with the code of the first that fails. */
  function EntryCode(t: Tables, id: int): int
    requires id in t.info
  {
    var i := t.info[id];
    if i.inTried && i.lastSuccess == 0 then -1
    else if i.inTried && i.refCount != 0 then -2
    else if !i.inTried && (i.refCount < 0 || i.refCount > MAX_NEW_REFS) then -3
    else if !i.inTried && i.refCount == 0 then -4
    else if i.addr !in t.idOf || t.idOf[i.addr] != id then -5
    else if i.randomPos < 0 || i.randomPos >= |t.random| || t.random[i.randomPos] != id then -14
    else if i.lastTry < 0 then -6
    else if i.lastSuccess < 0 then -8
    else 0
  }

  ghost predicate EntriesOk(t: Tables) { forall id :: id in t.info ==> EntryCode(t, id) == 0 }

  /** New-table references are at their hashed position and as many as the entries claim. */
  ghost predicate NewRefsOk(e: Env, t: Tables) {
    && NewPlaced(e, t.info, t.newTable)
    && (forall id :: id in NewIds(t.info) ==> t.info[id].refCount == |Slots(t.newTable, id)|)
  }

  /** What the checker accepts. */
  ghost predicate Accepted(e: Env, t: Tables) {
    && |t.random| == t.triedCount + t.newCount && CountsExact(t.info, t.newCount, t.triedCount)
    && EntriesOk(t) && TriedPlaced(e, t.info, t.triedTable) && NewRefsOk(e, t)
  }

  /** Slots that a bucket-by-bucket scan has passed on reaching position `i` of bucket `n`. */
  predicate Passed(s: Slot, n: nat, i: nat) { s.bucket < n || (s.bucket == n && s.pos < i) }

  method CheckAddrman(e: Env, t: Tables) returns (code: int)
    requires Shaped(t)
    ensures code == 0 <==> Accepted(e, t)
  {
    if |t.random| != t.triedCount + t.newCount { return -7; }
    var tried, refs;
    code, tried, refs := CheckEntries(t);
    if code != 0 { return; }
    if |tried| != t.triedCount { return -9; }
    if |refs| != t.newCount { return -10; }
    code := CheckTried(e, t, tried);
    if code != 0 { return; }
    code := CheckNew(e, t, refs);
  }

  /** The pass over the entries, collecting the tried ones and the reference counts of the others. */
  method CheckEntries(t: Tables) returns (code: int, tried: set<int>, refs: map<int, int>)
    ensures code == 0 <==> EntriesOk(t)
    ensures code == 0 ==> tried == TriedIds(t.info) && |refs| == |NewIds(t.info)| && ClaimedRefs(t, refs)
  {
    tried, refs := {}, map[];
    var todo := t.info.Keys;
    while todo != {}
      invariant todo <= t.info.Keys
      invariant forall id :: id in t.info && id !in todo ==> EntryCode(t, id) == 0
      invariant forall id :: id in tried <==> id in t.info && id !in todo && t.info[id].inTried
      invariant forall id :: id in refs <==> id in t.info && id !in todo && !t.info[id].inTried
      invariant forall id :: id in refs ==> refs[id] == t.info[id].refCount > 0
      decreases |todo|
    {
      if forall y :: y !in todo { assert false; }
      var id :| id in todo;
      code := EntryCode(t, id);
      if code != 0 { return; }
      if t.info[id].inTried { tried := tried + {id}; } else { refs := refs[id := t.info[id].refCount]; }
      todo := todo - {id};
    }
    forall id ensures id in tried <==> id in TriedIds(t.info) {}
    forall id ensures id in refs.Keys <==> id in NewIds(t.info) {}
    assert refs.Keys == NewIds(t.info);
    code := 0;
  }

  /** After the slots passed so far, `tried` holds the tried entries not met yet. */
  ghost predicate TriedScan(e: Env, t: Tables, tried: set<int>, n: nat, i: nat) {
    && (forall s :: s in t.triedTable && Passed(s, n, i) ==>
          t.triedTable[s] in t.info && t.info[t.triedTable[s]].inTried
            && s == e.TriedSlot(t.info[t.triedTable[s]].addr))
    && (forall id :: id in tried ==> id in t.info && t.info[id].inTried)
    && (forall id :: id in t.info && t.info[id].inTried ==> (id !in tried <==> Met(e, t, id, n, i)))
  }

  predicate Met(e: Env, t: Tables, id: int, n: nat, i: nat)
    requires id in t.info
  {
    var s := e.TriedSlot(t.info[id].addr);
    Passed(s, n, i) && s in t.triedTable && t.triedTable[s] == id
  }

  /** The scan of the tried table, striking each entry off the set of tried ones. */
  method CheckTried(e: Env, t: Tables, all: set<int>) returns (code: int)
    requires Shaped(t) && all == TriedIds(t.info)
    ensures code == 0 <==> TriedPlaced(e, t.info, t.triedTable)
  {
    hide TriedScan, TriedPlaced, Env.TriedSlot;
    var tried := all;
    TriedStarts(e, t);
    for n := 0 to TRIED_BUCKETS
      invariant TriedScan(e, t, tried, n, 0)
    {
      for i := 0 to BUCKET_SIZE
        invariant TriedScan(e, t, tried, n, i)
      {
        TriedStep(e, t, tried, n, i);
        var s := Slot(n, i);
        if s in t.triedTable {
          var id := t.triedTable[s];
          if id !in tried { return -11; }
          if e.TriedSlot(t.info[id].addr).bucket != n { return -17; }
          if e.TriedSlot(t.info[id].addr).pos != i { return -18; }
          tried := tried - {id};
        }
      }
      TriedNextBucket(e, t, tried, n);
    }
    TriedEnds(e, t, tried);
    code := if tried != {} then -13 else 0;
  }

  lemma TriedStarts(e: Env, t: Tables)
    ensures TriedScan(e, t, TriedIds(t.info), 0, 0)
  {
    forall id ensures id in TriedIds(t.info) <==> id in t.info && t.info[id].inTried {}
  }

  lemma TriedNextBucket(e: Env, t: Tables, tried: set<int>, n: nat)
    requires Shaped(t) && TriedScan(e, t, tried, n, BUCKET_SIZE)
    ensures TriedScan(e, t, tried, n + 1, 0)
  {}

  /** One slot of the scan: it passes and is struck off, or it shows that the table is wrong. */
  lemma TriedStep(e: Env, t: Tables, tried: set<int>, n: nat, i: nat)
    requires TriedScan(e, t, tried, n, i)
    ensures var s := Slot(n, i);
      if s !in t.triedTable then TriedScan(e, t, tried, n, i + 1)
      else if t.triedTable[s] !in tried then !TriedPlaced(e, t.info, t.triedTable)
      else
        && t.triedTable[s] in t.info
        && if e.TriedSlot(t.info[t.triedTable[s]].addr) != s then !TriedPlaced(e, t.info, t.triedTable)
           else TriedScan(e, t, tried - {t.triedTable[s]}, n, i + 1)
  {
    var s := Slot(n, i);
    if s !in t.triedTable {
      forall j | j in t.info ensures Met(e, t, j, n, i + 1) <==> Met(e, t, j, n, i) {}
    } else {
      var id := t.triedTable[s];
      if id !in tried {
        TriedTwice(e, t, tried, n, i);
      } else if e.TriedSlot(t.info[id].addr) == s {
        StruckOff(e, t, tried, n, i);
      }
    }
  }

  lemma StruckOff(e: Env, t: Tables, tried: set<int>, n: nat, i: nat)
    requires TriedScan(e, t, tried, n, i) && Slot(n, i) in t.triedTable
    requires var id := t.triedTable[Slot(n, i)];
      id in tried && id in t.info && e.TriedSlot(t.info[id].addr) == Slot(n, i)
    ensures TriedScan(e, t, tried - {t.triedTable[Slot(n, i)]}, n, i + 1)
  {
    var id := t.triedTable[Slot(n, i)];
    forall j | j in t.info ensures Met(e, t, j, n, i + 1) <==> Met(e, t, j, n, i) || j == id {}
  }

  /** A slot whose entry is already struck off breaks the placement. */
  lemma TriedTwice(e: Env, t: Tables, tried: set<int>, n: nat, i: nat)
    requires TriedScan(e, t, tried, n, i) && Slot(n, i) in t.triedTable && t.triedTable[Slot(n, i)] !in tried
    ensures !TriedPlaced(e, t.info, t.triedTable)
  {
    var id := t.triedTable[Slot(n, i)];
    if id in t.info && t.info[id].inTried {
      assert Met(e, t, id, n, i);
    }
  }

  lemma TriedEnds(e: Env, t: Tables, tried: set<int>)
    requires Shaped(t) && TriedScan(e, t, tried, TRIED_BUCKETS, 0)
    ensures tried == {} <==> TriedPlaced(e, t.info, t.triedTable)
  {
    forall s | s in t.triedTable ensures Passed(s, TRIED_BUCKETS, 0) {}
    if tried == {} {
      forall id | id in t.info && t.info[id].inTried ensures Met(e, t, id, TRIED_BUCKETS, 0) { assert id !in tried; }
    } else if forall y :: y !in tried {
      assert false;
    } else {
      var id :| id in tried;
      assert !Met(e, t, id, TRIED_BUCKETS, 0);
    }
  }

  function PassedSlots(t: Tables, id: int, n: nat, i: nat): set<Slot> {
    set s | s in t.newTable && t.newTable[s] == id && Passed(s, n, i)
  }

  /** After the slots passed so far, `refs` holds what is left of the reference counts `all`. */
  ghost predicate NewScan(e: Env, t: Tables, all: map<int, int>, refs: map<int, int>, n: nat, i: nat) {
    && (forall s :: s in t.newTable && Passed(s, n, i) ==>
          t.newTable[s] in all && t.newTable[s] in t.info && s.pos == e.NewPos(s.bucket, t.info[t.newTable[s]].addr))
    && (forall id :: id in refs ==> id in all && refs[id] == all[id] - |PassedSlots(t, id, n, i)| > 0)
    && (forall id :: id in all && id !in refs ==> all[id] == |PassedSlots(t, id, n, i)|)
  }

  /** The reference counts of the untried entries, all positive. */
  ghost predicate ClaimedRefs(t: Tables, all: map<int, int>) {
    && (forall id :: id in all <==> id in t.info && !t.info[id].inTried)
    && (forall id :: id in all ==> all[id] == t.info[id].refCount > 0)
  }

  function CountDown(refs: map<int, int>, id: int): map<int, int>
    requires id in refs
  {
    if refs[id] == 1 then refs - {id} else refs[id := refs[id] - 1]
  }

  /** The scan of the new table, counting down each entry's references. */
  method CheckNew(e: Env, t: Tables, all: map<int, int>) returns (code: int)
    requires Shaped(t) && ClaimedRefs(t, all)
    ensures code == 0 <==> NewRefsOk(e, t)
  {
    hide NewScan, NewRefsOk, Shaped;
    var refs := all;
    ScanStarts(e, t, all);
    for n := 0 to NEW_BUCKETS
      invariant NewScan(e, t, all, refs, n, 0)
    {
      for i := 0 to BUCKET_SIZE
        invariant NewScan(e, t, all, refs, n, i)
      {
        ScanStep(e, t, all, refs, n, i);
        var s := Slot(n, i);
        if s in t.newTable {
          var id := t.newTable[s];
          if id !in refs { return -12; }
          if e.NewPos(n, t.info[id].addr) != i { return -19; }
          refs := CountDown(refs, id);
        }
      }
      NextBucket(e, t, all, refs, n);
    }
    ScanEnds(e, t, all, refs);
    code := if refs != map[] then -15 else 0;
  }

  lemma ScanStarts(e: Env, t: Tables, all: map<int, int>)
    requires ClaimedRefs(t, all)
    ensures NewScan(e, t, all, all, 0, 0)
  {
    assert forall id :: PassedSlots(t, id, 0, 0) == {};
  }

  lemma NextBucket(e: Env, t: Tables, all: map<int, int>, refs: map<int, int>, n: nat)
    requires Shaped(t) && NewScan(e, t, all, refs, n, BUCKET_SIZE)
    ensures NewScan(e, t, all, refs, n + 1, 0)
  {
    forall id ensures PassedSlots(t, id, n + 1, 0) == PassedSlots(t, id, n, BUCKET_SIZE) {}
  }

  /** One slot of the scan: it passes and is counted down, or it shows that the table is wrong. */
  lemma ScanStep(e: Env, t: Tables, all: map<int, int>, refs: map<int, int>, n: nat, i: nat)
    requires Shaped(t) && ClaimedRefs(t, all) && NewScan(e, t, all, refs, n, i)
    ensures var s := Slot(n, i);
      if s !in t.newTable then NewScan(e, t, all, refs, n, i + 1)
      else if t.newTable[s] !in refs then !NewRefsOk(e, t)
      else
        && t.newTable[s] in t.info
        && if e.NewPos(n, t.info[t.newTable[s]].addr) != i then !NewRefsOk(e, t)
           else NewScan(e, t, all, CountDown(refs, t.newTable[s]), n, i + 1)
  {
    var s := Slot(n, i);
    if s !in t.newTable { EmptySlot(e, t, all, refs, n, i); }
    else if t.newTable[s] !in refs { OverdrawnSlot(e, t, all, refs, n, i); }
    else {
      var id := t.newTable[s];
      assert id in all && id in t.info;
      if e.NewPos(n, t.info[id].addr) == i { CountedSlot(e, t, all, refs, n, i); }
    }
  }

  lemma PassOne(t: Tables, id: int, n: nat, i: nat)
    ensures var s := Slot(n, i);
      if s in t.newTable && t.newTable[s] == id
      then PassedSlots(t, id, n, i + 1) == PassedSlots(t, id, n, i) + {s} && s !in PassedSlots(t, id, n, i)
      else PassedSlots(t, id, n, i + 1) == PassedSlots(t, id, n, i)
  {
    assert PassedSlots(t, id, n, i + 1) == PassedSlots(t, id, n, i)
      + if Slot(n, i) in t.newTable && t.newTable[Slot(n, i)] == id then {Slot(n, i)} else {};
  }

  lemma EmptySlot(e: Env, t: Tables, all: map<int, int>, refs: map<int, int>, n: nat, i: nat)
    requires NewScan(e, t, all, refs, n, i) && Slot(n, i) !in t.newTable
    ensures NewScan(e, t, all, refs, n, i + 1)
  {
    forall id ensures PassedSlots(t, id, n, i + 1) == PassedSlots(t, id, n, i) { PassOne(t, id, n, i); }
  }

  lemma OverdrawnSlot(e: Env, t: Tables, all: map<int, int>, refs: map<int, int>, n: nat, i: nat)
    requires ClaimedRefs(t, all) && NewScan(e, t, all, refs, n, i)
    requires Slot(n, i) in t.newTable && t.newTable[Slot(n, i)] !in refs
    ensures !NewRefsOk(e, t)
  {
    var s := Slot(n, i);
    var id := t.newTable[s];
    if id in all {
      FewerPassed(t, id, n, i, s);
      assert id in NewIds(t.info);
    }
  }

  lemma CountedSlot(e: Env, t: Tables, all: map<int, int>, refs: map<int, int>, n: nat, i: nat)
    requires ClaimedRefs(t, all) && NewScan(e, t, all, refs, n, i)
    requires Slot(n, i) in t.newTable && t.newTable[Slot(n, i)] in refs && t.newTable[Slot(n, i)] in t.info
    requires e.NewPos(n, t.info[t.newTable[Slot(n, i)]].addr) == i
    ensures NewScan(e, t, all, CountDown(refs, t.newTable[Slot(n, i)]), n, i + 1)
  {
    hide ClaimedRefs, PassedSlots;
    var id, left := t.newTable[Slot(n, i)], CountDown(refs, t.newTable[Slot(n, i)]);
    forall j | j in left ensures j in all && left[j] == all[j] - |PassedSlots(t, j, n, i + 1)| > 0 {
      PassOne(t, j, n, i);
    }
    forall j | j in all && j !in left ensures all[j] == |PassedSlots(t, j, n, i + 1)| { PassOne(t, j, n, i); }
  }

  lemma FewerPassed(t: Tables, id: int, n: nat, i: nat, s: Slot)
    requires s in Slots(t.newTable, id) && s !in PassedSlots(t, id, n, i)
    ensures |PassedSlots(t, id, n, i)| < |Slots(t.newTable, id)|
  {
    var rest := Slots(t.newTable, id) - PassedSlots(t, id, n, i);
    assert s in rest;
    assert Slots(t.newTable, id) == PassedSlots(t, id, n, i) + rest;
  }

  lemma ScanEnds(e: Env, t: Tables, all: map<int, int>, refs: map<int, int>)
    requires Shaped(t) && ClaimedRefs(t, all) && NewScan(e, t, all, refs, NEW_BUCKETS, 0)
    ensures refs == map[] <==> NewRefsOk(e, t)
  {
    forall id ensures PassedSlots(t, id, NEW_BUCKETS, 0) == Slots(t.newTable, id) {}
    assert NewPlaced(e, t.info, t.newTable) by {
      forall s | s in t.newTable
        ensures t.newTable[s] in t.info && !t.info[t.newTable[s]].inTried && s.bucket < NEW_BUCKETS
        ensures s.pos == e.NewPos(s.bucket, t.info[t.newTable[s]].addr)
      {
        var id := t.newTable[s];
        assert Passed(s, NEW_BUCKETS, 0) && id in all;
      }
    }
    if refs == map[] {
      forall id | id in NewIds(t.info) ensures t.info[id].refCount == |Slots(t.newTable, id)| { assert id in all; }
    } else if forall y :: y !in refs {
      assert false;
    } else {
      var id :| id in refs;
      assert id in NewIds(t.info);
    }
  }

  // ----- what acceptance means -----

  /** The address map names only entries that exist; the checker does not look for stale names. */
  ghost predicate NoStaleNames(t: Tables) {
    forall a :: a in t.idOf ==> t.idOf[a] in t.info && t.info[t.idOf[a]].addr == a
  }

  /** Each entry claims the place in `random` where it is listed. */
  ghost predicate Claims(m: Infos, random: seq<int>) {
    forall id :: id in m ==> 0 <= m[id].randomPos < |random| && random[m[id].randomPos] == id
  }

  predicate Claimed(m: Infos, random: seq<int>, i: nat)
    requires i < |random|
  {
    random[i] in m && m[random[i]].randomPos == i
  }

  lemma {:induction false} ClaimsFit(m: Infos, random: seq<int>)
    requires Claims(m, random)
    ensures |m| <= |random|
    decreases |random|
  {
    if random == [] {
      if forall id :: id !in m { assert m == map[]; }
    } else {
      var last := |random| - 1;
      ClaimsFit(if Claimed(m, random, last) then m - {random[last]} else m, random[..last]);
      assert (m - {random[last]}).Keys == m.Keys - {random[last]};
    }
  }

  /** With a place nobody claims, there are fewer entries than places. */
  lemma {:induction false} UnclaimedPlace(m: Infos, random: seq<int>, i: nat)
    requires Claims(m, random) && i < |random| && !Claimed(m, random, i)
    ensures |m| < |random|
    decreases |random|
  {
    var last := |random| - 1;
    assert (m - {random[last]}).Keys == m.Keys - {random[last]};
    if i == last {
      ClaimsFit(m, random[..last]);
    } else {
      UnclaimedPlace(if Claimed(m, random, last) then m - {random[last]} else m, random[..last], i);
    }
  }

  lemma IdsPartition(m: Infos)
    ensures |m| == |NewIds(m)| + |TriedIds(m)|
  {
    forall id ensures id in m.Keys <==> id in NewIds(m) + TriedIds(m) {}
    assert m.Keys == NewIds(m) + TriedIds(m);
  }

  /** The checker accepts exactly the tables that satisfy the invariant, stale names aside. */
  lemma AcceptedIffSound(e: Env, t: Tables)
    requires NoStaleNames(t) && IdsBounded(t.info, t.collisions, t.idCount)
    ensures Accepted(e, t) <==> Sound(e, t)
  {
    if Accepted(e, t) { AcceptedSound(e, t); }
    if Sound(e, t) { SoundAccepted(e, t); }
  }

  lemma AcceptedSound(e: Env, t: Tables)
    requires NoStaleNames(t) && IdsBounded(t.info, t.collisions, t.idCount) && Accepted(e, t)
    ensures Sound(e, t)
  {
    hide NewPlaced, TriedPlaced, Slots, RandomLinked, RefsExact, EntriesOk, NewIds, AddrsLinked, NoStaleNames;
    IdsPartition(t.info);
    EntriesLinked(t);
    RefsAccepted(e, t);
    AllClaimed(t.info, t.random);
  }

  lemma EntriesLinked(t: Tables)
    requires EntriesOk(t) && NoStaleNames(t)
    ensures Claims(t.info, t.random) && AddrsLinked(t.info, t.idOf) && TimesOk(t.info) && forall id :: !Orphan(t, id)
  {
    forall id | id in t.info ensures !Orphan(t, id) { assert EntryCode(t, id) == 0; }
  }

  lemma RefsAccepted(e: Env, t: Tables)
    requires EntriesOk(t) && NewRefsOk(e, t)
    ensures RefsExact(t.info, t.newTable)
  {
    forall id | id in t.info ensures t.info[id].refCount == |Slots(t.newTable, id)| <= MAX_NEW_REFS {
      assert EntryCode(t, id) == 0;
      if t.info[id].inTried { NoSlotsOutside(e, t.info, t.newTable, id); } else { assert id in NewIds(t.info); }
    }
  }

  lemma AllClaimed(m: Infos, random: seq<int>)
    requires Claims(m, random) && |random| == |m|
    ensures RandomLinked(m, random)
  {
    forall i | 0 <= i < |random| ensures random[i] in m && m[random[i]].randomPos == i {
      if !Claimed(m, random, i) { UnclaimedPlace(m, random, i); }
    }
  }

  lemma SoundAccepted(e: Env, t: Tables)
    requires Sound(e, t)
    ensures Accepted(e, t)
  {
    IdsPartition(t.info);
    assert Claims(t.info, t.random);
    assert |t.random| == |t.info| by {
      ClaimsFit(t.info, t.random);
      ListedFit(t.info, t.random);
    }
    forall id | id in t.info ensures EntryCode(t, id) == 0 {
      assert !Orphan(t, id);
      if t.info[id].inTried { NoSlotsOutside(e, t.info, t.newTable, id); }
    }
  }

  lemma {:induction false} ListedFit(m: Infos, random: seq<int>)
    requires forall i :: 0 <= i < |random| ==> Claimed(m, random, i)
    ensures |random| <= |m|
    decreases |random|
  {
    if random != [] {
      var last := |random| - 1;
      assert Claimed(m, random, last);
      forall i | 0 <= i < last ensures Claimed(m - {random[last]}, random[..last], i) { assert Claimed(m, random, i); }
      ListedFit(m - {random[last]}, random[..last]);
      assert (m - {random[last]}).Keys == m.Keys - {random[last]};
    }
  }
}
