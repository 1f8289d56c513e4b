/**
 * What loading makes of an arbitrary file of src/addrman.cpp: whatever it
 * says, tables that pass the check after loading satisfy the whole invariant.
 */
module AddrLoading {
  import opened AddrTables
  import opened AddrOps
  import opened AddrCheck
  import opened AddrFile

  /** What holds at every step of loading: names lead to entries, ids are bounded, and what is in a table is valid. */
  ghost predicate Loading(e: Env, u: Tables) {
    && NoStaleNames(u) && IdsBounded(u.info, u.collisions, u.idCount) && u.collisions == {}
    && (forall id :: id in u.info && (u.info[id].inTried || u.info[id].refCount != 0) ==> e.valid(u.info[id].addr))
  }

  lemma {:induction false} NewLoading(e: Env, news: seq<Record>, n: nat)
    requires n <= |news|
    ensures Loading(e, LoadNew(news, n).(idCount := n))
  {
    if n > 0 { NewLoading(e, news, n - 1); }
  }

  lemma OneTriedLoading(e: Env, u: Tables, r: Record)
    requires Loading(e, u)
    ensures Loading(e, LoadOneTried(e, u, r))
  {
    hide Env.TriedSlot;
  }

  lemma {:induction false} TriedLoading(e: Env, u: Tables, trieds: seq<Record>, k: nat)
    requires Loading(e, u) && k <= |trieds|
    ensures Loading(e, LoadTried(e, u, trieds, k))
  {
    hide Loading, LoadOneTried;
    if k > 0 {
      TriedLoading(e, u, trieds, k - 1);
      OneTriedLoading(e, LoadTried(e, u, trieds, k - 1), trieds[k - 1]);
    }
  }

  lemma OnePlacedLoading(e: Env, u: Tables, entry: (nat, int), restore: bool)
    requires Loading(e, u) && entry.1 in u.info
    ensures Loading(e, PlaceOne(e, u, entry, restore))
  {
    hide Env.NewPos, Env.NewSlot;
  }

  lemma {:induction false} PlacedLoading(e: Env, u: Tables, entries: seq<(nat, int)>, j: nat, restore: bool)
    requires Loading(e, u) && j <= |entries| && forall i :: 0 <= i < |entries| ==> entries[i].1 in u.info
    ensures Loading(e, PlaceAll(e, u, entries, j, restore))
  {
    hide Loading, PlaceOne;
    if j > 0 {
      PlacedLoading(e, u, entries, j - 1, restore);
      OnePlacedLoading(e, PlaceAll(e, u, entries, j - 1, restore), entries[j - 1], restore);
    }
  }

  lemma FilledLoading(e: Env, f: File, checksum: int)
    ensures Loading(e, Filled(e, f, checksum))
  {
    hide Loading, LoadNew, LoadTried, PlaceAll, Entries;
    var u1 := LoadNew(f.news, |f.news|).(idCount := |f.news|, newCount := |f.news|, triedCount := |f.trieds|);
    NewLoading(e, f.news, |f.news|);
    CountsAside(e, LoadNew(f.news, |f.news|).(idCount := |f.news|), |f.news|, |f.trieds|);
    LoadNewIndexed(f.news, |f.news|);
    LoadTriedIndexed(e, u1, f.trieds, |f.trieds|);
    TriedLoading(e, u1, f.trieds, |f.trieds|);
    var entries := Entries(f.buckets, |f.buckets|, |f.news|);
    var restore := |f.buckets| == NEW_BUCKETS && f.checksum == checksum;
    PlacedLoading(e, LoadTried(e, u1, f.trieds, |f.trieds|), entries, |entries|, restore);
  }

  lemma CountsAside(e: Env, u: Tables, newCount: int, triedCount: int)
    requires Loading(e, u)
    ensures Loading(e, u.(newCount := newCount, triedCount := triedCount))
  {}

  lemma ErasedKeeps(u: Tables, id: int)
    requires RandomLinked(u.info, u.random) && id in u.info
    ensures var r := Erased(u, id);
      && r == u.(info := r.info, idOf := u.idOf - {u.info[id].addr}, random := r.random, newCount := u.newCount - 1)
      && KeepsOthers(u, r, id) && id !in r.info
  {
    hide SwapRandom;
    var v := SwapRandom(u, u.info[id].randomPos, |u.random| - 1);
    forall j | j in u.info ensures j in v.info && Kept(u.info[j], v.info[j]) { assert j in u.info.Keys; }
    assert id !in Erased(u, id).info.Keys;
  }

  lemma ErasedLoading(e: Env, u: Tables, id: int)
    requires Loading(e, u) && RandomLinked(u.info, u.random) && id in u.info
    ensures Loading(e, Erased(u, id))
  {
    hide Erased, RandomLinked;
    ErasedKeeps(u, id);
    var r := Erased(u, id);
    forall j | j in r.info ensures j in u.info && Kept(u.info[j], r.info[j]) { assert j in r.info.Keys; }
    forall a | a in r.idOf ensures r.idOf[a] in r.info && r.info[r.idOf[a]].addr == a {
      assert a in u.idOf && u.idOf[a] in u.info && u.info[u.idOf[a]].addr == a;
    }
  }

  lemma {:induction false} PrunedLoading(e: Env, u: Tables, visit: Visit)
    requires Loading(e, u) && RandomLinked(u.info, u.random)
    ensures Loading(e, Pruned(u, visit)) && Orphans(Pruned(u, visit)) == {}
    decreases |u.info.Keys|
  {
    hide Loading, RandomLinked, Erased;
    if Orphans(u) != {} {
      var id := NextOf(Orphans(u), visit);
      ErasedLoading(e, u, id);
      PrunedLoading(e, Erased(u, id), visit);
    }
  }

  /** Any file that is accepted, whoever wrote it, gives consistent tables whose addresses are all valid. */
  lemma LoadedConsistent(e: Env, f: File, checksum: int, visit: Visit)
    requires Loaded(e, f, checksum, visit).Some?
    ensures var t := Loaded(e, f, checksum, visit).value;
      Consistent(e, t) && forall id :: id in t.info ==> e.valid(t.info[id].addr)
  {
    hide Filled, Pruned, Accepted, Sound;
    var u := Filled(e, f, checksum);
    FilledLoading(e, f, checksum);
    PrunedLoading(e, u, visit);
    var t := Pruned(u, visit);
    AcceptedIffSound(e, t);
    forall id | id in t.info ensures e.valid(t.info[id].addr) { assert id !in Orphans(t); }
  }
}
