/**
 * Loading files under other circumstances than they were written in
 * (src/addrman.cpp): with another map of address groups, another key or other
 * bucket counts, entries hash to other slots. Files with different addresses
 * still load, and which entries survive is determined by who comes first.
 */
module AddrRebucket {
  import opened AddrTables
  import opened AddrOps
  import opened AddrManager
  import opened AddrCheck
  import opened AddrFile
  import AddrLoading

  // ----- files that always load -----

  /** All records of a file. */
  function Recorded(f: File): seq<Record> { f.news + f.trieds }

  /** Different records have different addresses, times are sane, and the counts are within the limits. */
  ghost predicate GoodFile(f: File) {
    && |f.news| <= NEW_LIMIT && |f.trieds| <= TRIED_LIMIT
    && (forall i, j :: 0 <= i < j < |Recorded(f)| ==> Recorded(f)[i].addr != Recorded(f)[j].addr)
    && (forall i :: 0 <= i < |Recorded(f)| ==> Recorded(f)[i].lastSuccess >= 0)
    && (forall i :: 0 <= i < |f.trieds| ==> f.trieds[i].lastSuccess != 0)
  }

  /** Every entry is about one of the first `n` records. */
  ghost predicate OnlyFrom(u: Tables, recs: seq<Record>, n: nat) {
    n <= |recs| && forall id :: id in u.info ==> exists i :: 0 <= i < n && recs[i].addr == u.info[id].addr
  }

  /** The next record is about an address not known yet. */
  lemma NextUnknown(e: Env, u: Tables, recs: seq<Record>, n: nat)
    requires Linked(e, u) && OnlyFrom(u, recs, n) && n < |recs|
    requires forall i, j :: 0 <= i < j < |recs| ==> recs[i].addr != recs[j].addr
    ensures recs[n].addr !in u.idOf
  {
    hide Linked;
    if recs[n].addr in u.idOf { KnownAddress(e, u, recs[n].addr); }
  }

  /** The tables after `n` new records, counted so far. */
  function AfterNew(news: seq<Record>, n: nat): Tables
    requires n <= |news|
  {
    LoadNew(news, n).(idCount := n, newCount := n)
  }

  lemma {:induction false} NewLinked(e: Env, f: File, n: nat)
    requires GoodFile(f) && n <= |f.news|
    ensures var u := AfterNew(f.news, n);
      && Linked(e, u) && OnlyFrom(u, Recorded(f), n) && u.triedCount == 0
      && (forall id :: id in u.info ==> !u.info[id].inTried)
  {
    hide Linked, OnlyFrom, GoodFile, LoadNew;
    if n == 0 {
      NoneRead(e, f);
    } else {
      NewLinked(e, f, n - 1);
      var u, x := AfterNew(f.news, n - 1), EntryOf(f.news[n - 1]).(randomPos := n - 1);
      GoodNew(f, n - 1);
      OneNewIs(f.news, n);
      NextUnknown(e, u, Recorded(f), n - 1);
      CreateLinked(e, u, x);
      OneMoreFrom(u, Created(u, x), Recorded(f), n - 1);
    }
  }

  /** The next new record is created as an entry. */
  lemma OneNewIs(news: seq<Record>, n: nat)
    requires 0 < n <= |news|
    ensures |AfterNew(news, n - 1).random| == n - 1
    ensures AfterNew(news, n) == Created(AfterNew(news, n - 1), EntryOf(news[n - 1]).(randomPos := n - 1))
  {}

  lemma NoneRead(e: Env, f: File)
    requires GoodFile(f)
    ensures AfterNew(f.news, 0) == EMPTY && Linked(e, EMPTY) && OnlyFrom(EMPTY, Recorded(f), 0)
  {
    EmptyLinked(e);
  }

  lemma GoodNew(f: File, k: nat)
    requires GoodFile(f) && k < |f.news|
    ensures k < |Recorded(f)| && Recorded(f)[k] == f.news[k] && f.news[k].lastSuccess >= 0
    ensures forall i, j :: 0 <= i < j < |Recorded(f)| ==> Recorded(f)[i].addr != Recorded(f)[j].addr
  {
    assert Recorded(f)[k] == f.news[k];
  }

  lemma EmptyLinked(e: Env)
    ensures Linked(e, EMPTY)
  {}

  lemma OneMoreFrom(u: Tables, r: Tables, recs: seq<Record>, n: nat)
    requires OnlyFrom(u, recs, n) && n < |recs|
    requires forall id :: id in r.info ==>
      r.info[id].addr == recs[n].addr || (id in u.info && r.info[id].addr == u.info[id].addr)
    ensures OnlyFrom(r, recs, n + 1)
  {
    forall id | id in r.info ensures exists i :: 0 <= i < n + 1 && recs[i].addr == r.info[id].addr {
      if r.info[id].addr != recs[n].addr {
        var i :| 0 <= i < n && recs[i].addr == u.info[id].addr;
      }
    }
  }

  /** The tables after `k` tried records, counting only those that were read. */
  function AfterTried(e: Env, u: Tables, trieds: seq<Record>, k: nat): Tables
    requires k <= |trieds|
  {
    var r := LoadTried(e, u, trieds, k);
    r.(triedCount := r.triedCount - (|trieds| - k))
  }

  lemma {:induction false} TriedLinked(e: Env, f: File, u: Tables, k: nat)
    requires GoodFile(f) && k <= |f.trieds| && u.triedCount == |f.trieds|
    requires Linked(e, u.(triedCount := 0)) && OnlyFrom(u, Recorded(f), |f.news|)
    ensures Linked(e, AfterTried(e, u, f.trieds, k))
    ensures OnlyFrom(AfterTried(e, u, f.trieds, k), Recorded(f), |f.news| + k)
  {
    hide Linked, LoadOneTried;
    if k > 0 {
      TriedLinked(e, f, u, k - 1);
      assert Recorded(f)[|f.news| + k - 1] == f.trieds[k - 1];
      OneTriedLinked(e, LoadTried(e, u, f.trieds, k - 1), f, k - 1);
    }
  }

  lemma OneTriedLinked(e: Env, u: Tables, f: File, k: nat)
    requires GoodFile(f) && k < |f.trieds| && Recorded(f)[|f.news| + k] == f.trieds[k]
    requires var v := u.(triedCount := u.triedCount - (|f.trieds| - k));
      Linked(e, v) && OnlyFrom(v, Recorded(f), |f.news| + k)
    ensures var r := LoadOneTried(e, u, f.trieds[k]);
      var w := r.(triedCount := r.triedCount - (|f.trieds| - (k + 1)));
      Linked(e, w) && OnlyFrom(w, Recorded(f), |f.news| + k + 1)
  {
    hide Linked, OnlyFrom, Env.TriedSlot, LoadOneTried, GoodFile;
    var v := u.(triedCount := u.triedCount - (|f.trieds| - k));
    var r := LoadOneTried(e, u, f.trieds[k]);
    var w := r.(triedCount := r.triedCount - (|f.trieds| - (k + 1)));
    var n := |f.news| + k;
    var x := EntryOf(f.trieds[k]).(randomPos := |u.random|);
    OneTriedIs(e, u, f.trieds[k], |f.trieds| - k);
    OneMoreFrom(v, w, Recorded(f), n);
    if e.valid(x.addr) && e.TriedSlot(x.addr) !in u.triedTable {
      GoodRecord(f, k);
      NextUnknown(e, v, Recorded(f), n);
      CreateLinked(e, v, x);
      EnteredLinked(e, Created(v, x), u.idCount);
    }
  }

  /** A tried record that is kept is created as an entry and moved to its tried slot; one that is lost is not
      counted. */
  lemma OneTriedIs(e: Env, u: Tables, record: Record, left: int)
    ensures var v, r := u.(triedCount := u.triedCount - left), LoadOneTried(e, u, record);
      var w, x := r.(triedCount := r.triedCount - (left - 1)), EntryOf(record).(randomPos := |u.random|);
      && u.idCount in Created(v, x).info
      && w == (if e.valid(x.addr) && e.TriedSlot(x.addr) !in u.triedTable then Entered(e, Created(v, x), u.idCount)
        else v)
      && (forall id :: id in w.info ==>
            w.info[id].addr == record.addr || (id in v.info && w.info[id].addr == v.info[id].addr))
  {
    hide Env.TriedSlot;
    var v, x := u.(triedCount := u.triedCount - left), EntryOf(record).(randomPos := |u.random|);
    var c := Created(v, x);
    assert c.info[u.idCount := x.(inTried := true)] == u.info[u.idCount := x.(inTried := true)];
  }

  lemma GoodRecord(f: File, k: nat)
    requires GoodFile(f) && k < |f.trieds|
    ensures f.trieds[k].lastSuccess > 0
    ensures forall i, j :: 0 <= i < j < |Recorded(f)| ==> Recorded(f)[i].addr != Recorded(f)[j].addr
  {
    assert Recorded(f)[|f.news| + k] == f.trieds[k];
  }

  // ----- the bucket entries -----

  /** Bucket entries name new entries, and buckets that exist if they are to be trusted. */
  ghost predicate Usable(u: Tables, entries: seq<(nat, int)>, restore: bool) {
    forall i :: 0 <= i < |entries| ==>
      entries[i].1 in u.info && !u.info[entries[i].1].inTried && (restore ==> entries[i].0 < NEW_BUCKETS)
  }

  lemma OnePlacedLinked(e: Env, u: Tables, entry: (nat, int), restore: bool)
    requires Linked(e, u) && entry.1 in u.info && !u.info[entry.1].inTried && (restore ==> entry.0 < NEW_BUCKETS)
    ensures Linked(e, PlaceOne(e, u, entry, restore))
  {
    hide Linked, Env.NewPos;
    var id := entry.1;
    var i := u.info[id];
    if e.valid(i.addr) && i.refCount < MAX_NEW_REFS {
      var here, home := Slot(entry.0, e.NewPos(entry.0, i.addr)), e.NewSlot(i.addr, i.source);
      if restore && here !in u.newTable {
        PlacedLinked(e, u, id, here);
      } else if home !in u.newTable {
        PlacedLinked(e, u, id, home);
      }
    }
  }

  /** Entries are the same but for their reference counts. */
  ghost predicate OnlyCounts(u: Tables, r: Tables) {
    r.info.Keys == u.info.Keys && forall id :: id in u.info ==>
      r.info[id] == u.info[id].(refCount := r.info[id].refCount)
  }

  lemma CountsAside(u: Tables, r: Tables, id: int)
    requires OnlyCounts(u, r) && id in u.info
    ensures id in r.info && r.info[id].inTried == u.info[id].inTried && r.info[id].addr == u.info[id].addr
    ensures r.info[id].source == u.info[id].source && r.info[id] == u.info[id].(refCount := r.info[id].refCount)
  {
    assert id in u.info.Keys;
  }

  lemma OneCountChanges(e: Env, v: Tables, entry: (nat, int), restore: bool)
    requires entry.1 in v.info
    ensures var m, id := PlaceOne(e, v, entry, restore).info, entry.1;
      m == v.info || m == v.info[id := v.info[id].(refCount := v.info[id].refCount + 1)]
  {
    hide Env.NewPos, Env.NewSlot;
  }

  lemma OnePlacedCounts(e: Env, u: Tables, v: Tables, entry: (nat, int), restore: bool)
    requires OnlyCounts(u, v) && entry.1 in v.info
    ensures OnlyCounts(u, PlaceOne(e, v, entry, restore))
  {
    hide PlaceOne;
    OneCountChanges(e, v, entry, restore);
    var r := PlaceOne(e, v, entry, restore);
    forall id | id in u.info ensures r.info[id] == u.info[id].(refCount := r.info[id].refCount) {
      assert id in u.info.Keys;
    }
  }

  lemma {:induction false} AllPlacedLinked(e: Env, u: Tables, entries: seq<(nat, int)>, j: nat, restore: bool)
    requires Linked(e, u) && Usable(u, entries, restore) && j <= |entries|
    ensures Linked(e, PlaceAll(e, u, entries, j, restore)) && OnlyCounts(u, PlaceAll(e, u, entries, j, restore))
  {
    hide Linked, PlaceOne;
    if j > 0 {
      AllPlacedLinked(e, u, entries, j - 1, restore);
      var v, entry := PlaceAll(e, u, entries, j - 1, restore), entries[j - 1];
      CountsAside(u, v, entry.1);
      OnePlacedLinked(e, v, entry, restore);
      OnePlacedCounts(e, u, v, entry, restore);
    }
  }

  lemma {:induction false} PrunedLinked(e: Env, u: Tables, visit: Visit)
    requires Linked(e, u) && RandomLinked(u.info, u.random)
    ensures Linked(e, Pruned(u, visit))
    decreases |u.info.Keys|
  {
    hide Linked, RandomLinked, SwapRandom;
    if Orphans(u) != {} {
      var id := NextOf(Orphans(u), visit);
      ErasedIsDelete(e, u, id);
      PrunedLinked(e, Erased(u, id), visit);
    }
  }

  lemma ErasedIsDelete(e: Env, u: Tables, id: int)
    requires Linked(e, u) && RandomLinked(u.info, u.random) && Orphan(u, id)
    ensures Erased(u, id) == Delete(e, u, id)
  {
    hide AddrsLinked, TriedPlaced, NewPlaced, RefsExact, CountsExact, TimesOk, SwapRandom;
  }

  /** The tables read from a file before the bucket entries. */
  function EntriesRead(e: Env, f: File): Tables {
    var u := LoadNew(f.news, |f.news|).(idCount := |f.news|, newCount := |f.news|, triedCount := |f.trieds|);
    LoadTried(e, u, f.trieds, |f.trieds|)
  }

  lemma ReadLinked(e: Env, f: File)
    requires GoodFile(f)
    ensures Linked(e, EntriesRead(e, f))
  {
    hide Linked, OnlyFrom, GoodFile, LoadNew, LoadTried;
    NewLinked(e, f, |f.news|);
    var u0 := LoadNew(f.news, |f.news|).(idCount := |f.news|, newCount := |f.news|);
    var u1 := u0.(triedCount := |f.trieds|);
    assert u1.(triedCount := 0) == u0;
    FromAside(u0, u1, Recorded(f), |f.news|);
    TriedLinked(e, f, u1, |f.trieds|);
    assert AfterTried(e, u1, f.trieds, |f.trieds|) == LoadTried(e, u1, f.trieds, |f.trieds|);
  }

  lemma FromAside(u: Tables, r: Tables, recs: seq<Record>, n: nat)
    requires OnlyFrom(u, recs, n) && r.info == u.info
    ensures OnlyFrom(r, recs, n)
  {}

  /** The entry read from record `i` of the new ones. */
  lemma {:induction false} NewEntryIs(news: seq<Record>, n: nat, i: nat)
    requires i < n <= |news|
    ensures i in LoadNew(news, n).info && LoadNew(news, n).info[i] == EntryOf(news[i]).(randomPos := i)
  {
    if i < n - 1 { NewEntryIs(news, n - 1, i); }
  }

  lemma {:induction false} TriedKeepsNew(e: Env, u: Tables, trieds: seq<Record>, k: nat, id: int)
    requires k <= |trieds| && Indexed(u) && u.idCount >= 0 && id in u.info
    ensures LoadTried(e, u, trieds, k).idCount >= u.idCount
    ensures id in LoadTried(e, u, trieds, k).info && LoadTried(e, u, trieds, k).info[id] == u.info[id]
  {
    hide Env.TriedSlot, RandomLinked;
    if k > 0 { TriedKeepsNew(e, u, trieds, k - 1, id); }
  }

  lemma ReadEntryIs(e: Env, f: File, i: nat)
    requires i < |f.news|
    ensures i in EntriesRead(e, f).info && EntriesRead(e, f).info[i] == EntryOf(f.news[i]).(randomPos := i)
  {
    hide LoadNew, LoadTried, RandomLinked;
    NewEntryIs(f.news, |f.news|, i);
    LoadNewIndexed(f.news, |f.news|);
    var u1 := LoadNew(f.news, |f.news|).(idCount := |f.news|, newCount := |f.news|, triedCount := |f.trieds|);
    TriedKeepsNew(e, u1, f.trieds, |f.trieds|, i);
  }

  /** Whether the buckets of the file can be trusted. */
  predicate Restores(f: File, checksum: int) { |f.buckets| == NEW_BUCKETS && f.checksum == checksum }

  lemma EntriesUsable(e: Env, f: File, checksum: int)
    ensures Usable(EntriesRead(e, f), Entries(f.buckets, |f.buckets|, |f.news|), Restores(f, checksum))
  {
    hide Entries;
    var u, entries := EntriesRead(e, f), Entries(f.buckets, |f.buckets|, |f.news|);
    forall i | 0 <= i < |entries| ensures entries[i].1 in u.info && !u.info[entries[i].1].inTried {
      ReadEntryIs(e, f, entries[i].1);
    }
  }

  /** A file without repeated addresses loads into consistent tables, whatever the hashes, checksum and order are. */
  lemma GoodFileLoads(e: Env, f: File, checksum: int, visit: Visit)
    requires GoodFile(f)
    ensures Loaded(e, f, checksum, visit).Some? && Consistent(e, Loaded(e, f, checksum, visit).value)
  {
    hide Linked, PlaceAll, Entries, EntriesRead, Usable, RandomLinked, Accepted;
    ReadLinked(e, f);
    EntriesUsable(e, f, checksum);
    var entries, u := Entries(f.buckets, |f.buckets|, |f.news|), Filled(e, f, checksum);
    AllPlacedLinked(e, EntriesRead(e, f), entries, |entries|, Restores(f, checksum));
    assert u == PlaceAll(e, EntriesRead(e, f), entries, |entries|, Restores(f, checksum)) by {
      FilledIs(e, f, checksum);
    }
    PrunedLinked(e, u, visit);
    AddrLoading.FilledLoading(e, f, checksum);
    AddrLoading.PrunedLoading(e, u, visit);
    var r := Pruned(u, visit);
    forall id ensures !Orphan(r, id) { assert id !in Orphans(r); }
    SoundAccepted(e, r);
    AddrLoading.LoadedConsistent(e, f, checksum, visit);
  }

  lemma FilledIs(e: Env, f: File, checksum: int)
    ensures var entries := Entries(f.buckets, |f.buckets|, |f.news|);
      && (forall i :: 0 <= i < |entries| ==> entries[i].1 in EntriesRead(e, f).info)
      && Filled(e, f, checksum) == PlaceAll(e, EntriesRead(e, f), entries, |entries|, Restores(f, checksum))
  {
    hide PlaceAll, LoadNew, LoadTried, Entries, RandomLinked;
    EntriesUsable(e, f, checksum);
  }

  // ----- who survives rebucketing -----

  /** The slot that the source of an entry hashes it to. */
  function Home(e: Env, u: Tables, id: int): Slot
    requires id in u.info
  {
    e.NewSlot(u.info[id].addr, u.info[id].source)
  }

  /** Bucket entry `i` asks for slot `s`. */
  ghost predicate Asks(e: Env, u: Tables, entries: seq<(nat, int)>, i: nat, s: Slot)
    requires i < |entries| && entries[i].1 in u.info
  {
    e.valid(u.info[entries[i].1].addr) && Home(e, u, entries[i].1) == s
  }

  /** Slot `s` goes to the first of the first `j` bucket entries that asks for it, and to nobody if none does. */
  ghost predicate FirstCome(e: Env, u: Tables, entries: seq<(nat, int)>, j: nat, t: Table, s: Slot)
    requires j <= |entries| && forall i :: 0 <= i < |entries| ==> entries[i].1 in u.info
  {
    if s in t then exists i :: 0 <= i < j && Asks(e, u, entries, i, s) && t[s] == entries[i].1
                               && forall h :: 0 <= h < i ==> !Asks(e, u, entries, h, s)
    else forall i :: 0 <= i < j ==> !Asks(e, u, entries, i, s)
  }

  /** Every slot went to the first that asked, and an entry has a reference exactly if it got its home slot. */
  ghost predicate Homed(e: Env, u: Tables, entries: seq<(nat, int)>, j: nat, r: Tables)
    requires j <= |entries| && forall i :: 0 <= i < |entries| ==> entries[i].1 in u.info
  {
    && OnlyCounts(u, r) && (forall s :: FirstCome(e, u, entries, j, r.newTable, s))
    && (forall id :: id in u.info ==>
          r.info[id].refCount == if Home(e, u, id) in r.newTable && r.newTable[Home(e, u, id)] == id then 1 else 0)
  }

  lemma OneHomed(e: Env, u: Tables, entries: seq<(nat, int)>, j: nat, v: Tables)
    requires j < |entries| && (forall i :: 0 <= i < |entries| ==> entries[i].1 in u.info) && Homed(e, u, entries, j, v)
    ensures entries[j].1 in v.info && Homed(e, u, entries, j + 1, PlaceOne(e, v, entries[j], false))
  {
    hide Env.NewPos, Env.NewSlot;
    var id := entries[j].1;
    CountsAside(u, v, id);
    var home := Home(e, u, id);
    var r := PlaceOne(e, v, entries[j], false);
    OnePlacedCounts(e, u, v, entries[j], false);
    assert v.info[id].refCount <= 1;
    var next := j + 1;
    forall s ensures FirstCome(e, u, entries, next, r.newTable, s) {
      SlotFirstCome(e, u, entries, j, v, s);
    }
  }

  lemma SlotFirstCome(e: Env, u: Tables, entries: seq<(nat, int)>, j: nat, v: Tables, s: Slot)
    requires j < |entries| && (forall i :: 0 <= i < |entries| ==> entries[i].1 in u.info)
    requires OnlyCounts(u, v) && FirstCome(e, u, entries, j, v.newTable, s) && entries[j].1 in v.info
    requires v.info[entries[j].1].refCount < MAX_NEW_REFS
    ensures FirstCome(e, u, entries, j + 1, PlaceOne(e, v, entries[j], false).newTable, s)
  {
    hide Env.NewPos, Env.NewSlot, Asks;
    CountsAside(u, v, entries[j].1);
    var t, r := v.newTable, PlaceOne(e, v, entries[j], false).newTable;
    assert Asks(e, u, entries, j, s) <==> e.valid(u.info[entries[j].1].addr) && Home(e, u, entries[j].1) == s by {
      AsksIs(e, u, entries, j, s);
    }
    if s in t {
      assert s in r && r[s] == t[s];
      var i :| 0 <= i < j && Asks(e, u, entries, i, s) && t[s] == entries[i].1
               && forall h :: 0 <= h < i ==> !Asks(e, u, entries, h, s);
    } else if s in r {
      assert r[s] == entries[j].1 && Asks(e, u, entries, j, s);
    }
  }

  lemma AsksIs(e: Env, u: Tables, entries: seq<(nat, int)>, i: nat, s: Slot)
    requires i < |entries| && entries[i].1 in u.info
    ensures Asks(e, u, entries, i, s) <==> e.valid(u.info[entries[i].1].addr) && Home(e, u, entries[i].1) == s
  {}

  lemma {:induction false} AllHomed(e: Env, u: Tables, entries: seq<(nat, int)>, j: nat)
    requires j <= |entries| && (forall i :: 0 <= i < |entries| ==> entries[i].1 in u.info)
    requires u.newTable == map[] && forall id :: id in u.info ==> u.info[id].refCount == 0
    ensures Homed(e, u, entries, j, PlaceAll(e, u, entries, j, false))
  {
    hide PlaceOne, Homed;
    if j == 0 {
      NobodyHomed(e, u, entries);
    } else {
      AllHomed(e, u, entries, j - 1);
      OneHomed(e, u, entries, j - 1, PlaceAll(e, u, entries, j - 1, false));
    }
  }

  lemma NobodyHomed(e: Env, u: Tables, entries: seq<(nat, int)>)
    requires forall i :: 0 <= i < |entries| ==> entries[i].1 in u.info
    requires u.newTable == map[] && forall id :: id in u.info ==> u.info[id].refCount == 0
    ensures Homed(e, u, entries, 0, u)
  {
    hide Env.NewSlot;
  }

  // ----- pruning -----

  /** Exactly the entries without a slot go, whatever the order; the others are kept. */
  lemma {:induction false} PrunedExact(u: Tables, visit: Visit)
    requires RandomLinked(u.info, u.random)
    ensures var r := Pruned(u, visit);
      && (forall id :: id in r.info <==> id in u.info && !Orphan(u, id))
      && (forall id :: id in r.info ==> Kept(u.info[id], r.info[id]))
    decreases |u.info.Keys|
  {
    hide RandomLinked, Erased;
    if Orphans(u) == {} {
      forall id | id in u.info ensures !Orphan(u, id) { assert id !in Orphans(u); }
    } else {
      var id := NextOf(Orphans(u), visit);
      AddrLoading.ErasedKeeps(u, id);
      var v := Erased(u, id);
      forall j ensures j in v.info <==> j in u.info && j != id { assert j in v.info.Keys <==> j in u.info.Keys - {id}; }
      forall j | j in v.info ensures Kept(u.info[j], v.info[j]) {}
      PrunedExact(v, visit);
    }
  }

  // ----- what becomes of the new entries of a file -----

  lemma {:induction false} NewFresh(news: seq<Record>, n: nat)
    requires n <= |news|
    ensures forall id :: id in LoadNew(news, n).info ==> LoadNew(news, n).info[id].refCount == 0
  {
    if n > 0 { NewFresh(news, n - 1); }
  }

  lemma {:induction false} TriedFresh(e: Env, u: Tables, trieds: seq<Record>, k: nat)
    requires k <= |trieds| && u.newTable == map[] && forall id :: id in u.info ==> u.info[id].refCount == 0
    ensures var r := LoadTried(e, u, trieds, k);
      r.newTable == map[] && forall id :: id in r.info ==> r.info[id].refCount == 0
  {
    hide Env.TriedSlot;
    if k > 0 { TriedFresh(e, u, trieds, k - 1); }
  }

  lemma ReadFresh(e: Env, f: File)
    ensures var u := EntriesRead(e, f);
      u.newTable == map[] && forall id :: id in u.info ==> u.info[id].refCount == 0
  {
    hide LoadNew, LoadTried;
    ShapedNew(f.news, |f.news|);
    NewFresh(f.news, |f.news|);
    var u1 := LoadNew(f.news, |f.news|).(idCount := |f.news|, newCount := |f.news|, triedCount := |f.trieds|);
    TriedFresh(e, u1, f.trieds, |f.trieds|);
  }

  /**
   * When the buckets of a file cannot be trusted, each new slot goes to the
   * first usable bucket entry whose source hashes there, and a new entry
   * survives, with one reference, exactly if it got that slot.
   */
  lemma RebucketedExact(e: Env, f: File, checksum: int, visit: Visit, k: nat)
    requires !Restores(f, checksum) && k < |f.news|
    ensures k in EntriesRead(e, f).info && Home(e, EntriesRead(e, f), k) == e.NewSlot(f.news[k].addr, f.news[k].source)
    ensures var entries, u := Entries(f.buckets, |f.buckets|, |f.news|), EntriesRead(e, f);
      var r, home := Pruned(Filled(e, f, checksum), visit), Home(e, u, k);
      && (forall i :: 0 <= i < |entries| ==> entries[i].1 in u.info)
      && FirstCome(e, u, entries, |entries|, r.newTable, home)
      && (k in r.info <==> home in r.newTable && r.newTable[home] == k)
      && (k in r.info ==> Kept(EntryOf(f.news[k]).(refCount := 1), r.info[k]))
  {
    hide Entries, EntriesRead, PlaceAll, Pruned, RandomLinked, Env.NewSlot;
    var entries, u, v := Entries(f.buckets, |f.buckets|, |f.news|), EntriesRead(e, f), Filled(e, f, checksum);
    FilledIs(e, f, checksum);
    ReadEntryIs(e, f, k);
    ReadFresh(e, f);
    AllHomed(e, u, entries, |entries|);
    CountsAside(u, v, k);
    PrunedExact(v, visit);
  }

  /** An entry with a valid address, listed in some bucket, whose home slot no other listed entry asks for survives. */
  lemma FreeHomeSurvives(e: Env, f: File, checksum: int, visit: Visit, b: nat, n: nat)
    requires !Restores(f, checksum) && b < |f.buckets| && n < |f.buckets[b]| && 0 <= f.buckets[b][n] < |f.news|
    requires var x := f.news[f.buckets[b][n]];
      && e.valid(x.addr)
      && forall j :: 0 <= j < |f.news| && e.valid(f.news[j].addr) && j != f.buckets[b][n] ==>
           e.NewSlot(f.news[j].addr, f.news[j].source) != e.NewSlot(x.addr, x.source)
    ensures var r, k := Pruned(Filled(e, f, checksum), visit), f.buckets[b][n];
      k in r.info && Kept(EntryOf(f.news[k]).(refCount := 1), r.info[k])
  {
    hide Entries, EntriesRead, PlaceAll, Pruned, Filled, RandomLinked, Env.NewSlot;
    var entries, u, k := Entries(f.buckets, |f.buckets|, |f.news|), EntriesRead(e, f), f.buckets[b][n];
    RebucketedExact(e, f, checksum, visit, k);
    ReadEntryIs(e, f, k);
    var home, r := Home(e, u, k), Pruned(Filled(e, f, checksum), visit);
    var i := ListedAt(f.buckets, |f.buckets|, |f.news|, b, n);
    assert Asks(e, u, entries, i, home);
    assert home in r.newTable;
    var h :| 0 <= h < |entries| && Asks(e, u, entries, h, home) && r.newTable[home] == entries[h].1
             && forall g :: 0 <= g < h ==> !Asks(e, u, entries, g, home);
    ReadEntryIs(e, f, entries[h].1);
    assert entries[h].1 == k;
  }

  lemma {:induction false} ListedIn(b: nat, indices: seq<int>, count: nat, n: nat) returns (i: nat)
    requires n < |indices| && 0 <= indices[n] < count
    ensures i < |EntriesOf(b, indices, count)| && EntriesOf(b, indices, count)[i].1 == indices[n]
  {
    var last := |indices| - 1;
    if n == last {
      i := |EntriesOf(b, indices[..last], count)|;
    } else {
      i := ListedIn(b, indices[..last], count, n);
    }
  }

  lemma {:induction false} ListedAt(buckets: seq<seq<int>>, m: nat, count: nat, b: nat, n: nat) returns (i: nat)
    requires b < m <= |buckets| && n < |buckets[b]| && 0 <= buckets[b][n] < count
    ensures i < |Entries(buckets, m, count)| && Entries(buckets, m, count)[i].1 == buckets[b][n]
  {
    if b == m - 1 {
      i := ListedIn(b, buckets[b], count, n);
      i := i + |Entries(buckets, m - 1, count)|;
    } else {
      i := ListedAt(buckets, m - 1, count, b, n);
    }
  }

  // ----- what becomes of the tried entries of a file -----

  /** Tried slot `s` holds the entry of the first of the first `k` tried records with a valid address hashing there. */
  ghost predicate FirstTried(e: Env, trieds: seq<Record>, k: nat, r: Tables, s: Slot)
    requires k <= |trieds|
  {
    if s in r.triedTable then
      && r.triedTable[s] in r.info
      && exists i :: 0 <= i < k && e.valid(trieds[i].addr) && e.TriedSlot(trieds[i].addr) == s
           && Kept(EntryOf(trieds[i]).(inTried := true), r.info[r.triedTable[s]])
           && forall h :: 0 <= h < i ==> !(e.valid(trieds[h].addr) && e.TriedSlot(trieds[h].addr) == s)
    else forall i :: 0 <= i < k ==> !(e.valid(trieds[i].addr) && e.TriedSlot(trieds[i].addr) == s)
  }

  lemma {:induction false} TriedFirstCome(e: Env, u: Tables, trieds: seq<Record>, k: nat, s: Slot)
    requires k <= |trieds| && Indexed(u) && u.idCount >= 0 && u.triedTable == map[]
    ensures FirstTried(e, trieds, k, LoadTried(e, u, trieds, k), s)
  {
    hide RandomLinked, Env.TriedSlot, LoadOneTried;
    if k > 0 {
      TriedFirstCome(e, u, trieds, k - 1, s);
      LoadTriedIndexed(e, u, trieds, k - 1);
      OneTriedFirst(e, LoadTried(e, u, trieds, k - 1), trieds, k - 1, s);
    }
  }

  lemma OneTriedFirst(e: Env, v: Tables, trieds: seq<Record>, k: nat, s: Slot)
    requires k < |trieds| && Indexed(v) && FirstTried(e, trieds, k, v, s)
    ensures FirstTried(e, trieds, k + 1, LoadOneTried(e, v, trieds[k]), s)
  {
    hide RandomLinked, Env.TriedSlot;
    var r := LoadOneTried(e, v, trieds[k]);
    if s in v.triedTable {
      var id := v.triedTable[s];
      assert r.triedTable[s] == id && id in r.info && r.info[id] == v.info[id];
      var i :| 0 <= i < k && e.valid(trieds[i].addr) && e.TriedSlot(trieds[i].addr) == s
           && Kept(EntryOf(trieds[i]).(inTried := true), v.info[id])
           && forall h :: 0 <= h < i ==> !(e.valid(trieds[h].addr) && e.TriedSlot(trieds[h].addr) == s);
    } else if s in r.triedTable {
      assert Kept(EntryOf(trieds[k]).(inTried := true), r.info[r.triedTable[s]]);
    }
  }

  /** Each tried slot holds, after loading any file, the first record with a valid address that hashes there. */
  lemma TriedSurvive(e: Env, f: File, checksum: int, visit: Visit, s: Slot)
    ensures FirstTried(e, f.trieds, |f.trieds|, Pruned(Filled(e, f, checksum), visit), s)
  {
    hide Entries, EntriesRead, PlaceAll, Pruned, RandomLinked, Env.TriedSlot, LoadNew, LoadTried;
    var u, v := EntriesRead(e, f), Filled(e, f, checksum);
    ReadTriedFirst(e, f, s);
    FilledIs(e, f, checksum);
    EntriesUsable(e, f, checksum);
    var entries := Entries(f.buckets, |f.buckets|, |f.news|);
    TriedUntouched(e, u, entries, |entries|, Restores(f, checksum));
    PrunedExact(v, visit);
    if s in u.triedTable {
      var id, r := u.triedTable[s], Pruned(v, visit);
      assert id in u.info && u.info[id].inTried;
      assert v.info[id] == u.info[id] && !Orphan(v, id);
      assert id in r.info && Kept(v.info[id], r.info[id]);
      var i :| 0 <= i < |f.trieds| && e.valid(f.trieds[i].addr) && e.TriedSlot(f.trieds[i].addr) == s
           && Kept(EntryOf(f.trieds[i]).(inTried := true), u.info[id])
           && forall h :: 0 <= h < i ==> !(e.valid(f.trieds[h].addr) && e.TriedSlot(f.trieds[h].addr) == s);
      assert Kept(EntryOf(f.trieds[i]).(inTried := true), r.info[id]);
    }
  }

  lemma ReadTriedFirst(e: Env, f: File, s: Slot)
    ensures FirstTried(e, f.trieds, |f.trieds|, EntriesRead(e, f), s)
  {
    hide LoadNew, LoadTried, FirstTried, RandomLinked;
    var u1 := LoadNew(f.news, |f.news|).(idCount := |f.news|, newCount := |f.news|, triedCount := |f.trieds|);
    LoadNewIndexed(f.news, |f.news|);
    ShapedNew(f.news, |f.news|);
    TriedFirstCome(e, u1, f.trieds, |f.trieds|, s);
  }

  lemma {:induction false} TriedUntouched(e: Env, u: Tables, entries: seq<(nat, int)>, j: nat, restore: bool)
    requires Usable(u, entries, restore) && j <= |entries|
    ensures forall id :: id in u.info && u.info[id].inTried ==>
      id in PlaceAll(e, u, entries, j, restore).info && PlaceAll(e, u, entries, j, restore).info[id] == u.info[id]
  {
    hide Env.NewPos, Env.NewSlot;
    if j > 0 {
      TriedUntouched(e, u, entries, j - 1, restore);
      var v := PlaceAll(e, u, entries, j - 1, restore);
      forall id | id in u.info && u.info[id].inTried ensures id != entries[j - 1].1 {}
      forall id | id in u.info && u.info[id].inTried
        ensures PlaceOne(e, v, entries[j - 1], restore).info[id] == u.info[id] {}
    }
  }

  // ----- files that were written -----

  lemma WrittenGood(e: Env, t: Tables, order: seq<int>, checksum: int)
    requires Sound(e, t) && Enumerates(order, t.info)
    ensures GoodFile(Written(t, order, checksum))
  {
    hide Sound, NewOrder, TriedOrder, BucketList, OwnSlots, RefsExact, NewPlaced;
    IdOrderComplete(e, t, order);
    SizesFit(e, t);
    SoundOwns(e, t);
    SoundTimes(e, t);
    var f, ids := Written(t, order, checksum), IdOrder(t.info, order);
    forall i | 0 <= i < |Recorded(f)| ensures ids[i] in t.info && Recorded(f)[i] == RecordOf(t.info[ids[i]]) {}
    forall i, j | 0 <= i < j < |Recorded(f)| ensures Recorded(f)[i].addr != Recorded(f)[j].addr {
      assert ids[i] != ids[j];
    }
    forall i | 0 <= i < |Recorded(f)| ensures Recorded(f)[i].lastSuccess >= 0 {
      var id := ids[i];
      assert id in t.info;
    }
    forall i | 0 <= i < |f.trieds| ensures f.trieds[i].lastSuccess != 0 {
      var id := TriedOrder(t.info, order)[i];
      assert id in t.info && t.info[id].inTried;
    }
  }

  lemma SoundTimes(e: Env, t: Tables)
    requires Sound(e, t)
    ensures TimesOk(t.info)
  {
    hide AddrsLinked, RandomLinked, TriedPlaced, NewPlaced, RefsExact, CountsExact, TimesOk;
  }

  /** What a sound manager wrote, any manager can load, with whatever hashes, key or map of address groups it has. */
  lemma LoadsAnywhere(e: Env, other: Env, t: Tables, order: seq<int>, checksum: int, otherChecksum: int, visit: Visit)
    requires Sound(e, t) && Enumerates(order, t.info)
    ensures var r := Loaded(other, Written(t, order, checksum), otherChecksum, visit);
      r.Some? && Consistent(other, r.value)
  {
    hide Sound, Consistent, Written, Loaded, GoodFile;
    WrittenGood(e, t, order, checksum);
    GoodFileLoads(other, Written(t, order, checksum), otherChecksum, visit);
  }
}
