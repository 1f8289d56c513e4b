/**
 * The address manager object of src/addrman_impl.h and src/addrman.cpp. Its
 * methods update the tables in place, step by step as the program does; each
 * is proved to end in the tables that the corresponding function on values
 * describes, for which consistency is proved elsewhere.
 */
module AddrMan {
  import opened Common
  import opened AddrTables
  import Ops = AddrOps
  import Manager = AddrManager
  import Runs = AddrRuns
  import Files = AddrFile
  import Check = AddrCheck
  import Loading = AddrLoading

  class AddrManImpl {
    const env: Env
    var idCount: int
    var info: Infos
    var idOf: map<Service, int>
    var random: seq<int>
    var newTable: Table
    var triedTable: Table
    var newCount: int
    var triedCount: int
    var lastGood: int
    var collisions: set<int>

    function Snapshot(): Tables
      reads this
    {
      Tables(idCount, info, idOf, random, newTable, triedTable, newCount, triedCount, lastGood, collisions)
    }

    constructor (env: Env)
      ensures this.env == env && Snapshot() == EMPTY && Consistent(env, Snapshot())
    {
      this.env := env;
      idCount, info, idOf, random := 0, map[], map[], [];
      newTable, triedTable, newCount, triedCount := map[], map[], 0, 0;
      lastGood, collisions := 1, {};
      new;
      Runs.EmptyConsistent(env);
    }

    method Create(a: Address, source: NetAddr) returns (id: int)
      requires Linked(env, Snapshot()) && a.service !in idOf
      modifies this
      ensures id == old(idCount) && Snapshot() == Ops.Create(env, old(Snapshot()), a, source)
    {
      hide Linked;
      id := idCount;
      idCount := idCount + 1;
      info := info[id := AddrInfo(a.service, a.time, a.services, source, 0, 0, 0, 0, 0, false, |random|)];
      idOf := idOf[a.service := id];
      random := random + [id];
      newCount := newCount + 1;
    }

    method SwapRandom(i: nat, j: nat)
      requires RandomLinked(info, random) && (i == j || (i < |random| && j < |random|))
      modifies this`info, this`random
      ensures Snapshot() == Ops.SwapRandom(old(Snapshot()), i, j)
    {
      if i == j { return; }
      var a, b := random[i], random[j];
      info := info[a := info[a].(randomPos := j)];
      info := info[b := info[b].(randomPos := i)];
      random := random[i := b];
      random := random[j := a];
    }

    method Delete(id: int)
      requires Linked(env, Snapshot()) && Orphan(Snapshot(), id)
      modifies this
      ensures Snapshot() == Ops.Delete(env, old(Snapshot()), id)
    {
      hide AddrsLinked, TriedPlaced, NewPlaced, RefsExact, CountsExact, Ops.SwapRandom;
      SwapRandom(info[id].randomPos, |random| - 1);
      random := random[..|random| - 1];
      idOf := idOf - {info[id].addr};
      info := info - {id};
      newCount := newCount - 1;
    }

    method ClearNew(s: Slot)
      requires Linked(env, Snapshot())
      modifies this
      ensures Snapshot() == Ops.ClearNew(env, old(Snapshot()), s)
    {
      hide Linked, Ops.Delete;
      if s in newTable {
        Ops.ReleasedLinked(env, Snapshot(), s);
        var id := newTable[s];
        info := info[id := info[id].(refCount := info[id].refCount - 1)];
        newTable := newTable - {s};
        if info[id].refCount == 0 {
          Delete(id);
        }
      }
    }

    /** Visit every new bucket once, starting at the entry's own, and clear the one slot per bucket that can hold it. */
    method DropNewRefs(id: int)
      requires Linked(env, Snapshot()) && id in info && !info[id].inTried
      modifies this`newTable, this`info
      ensures Snapshot() == Ops.Dropped(old(Snapshot()), id)
    {
      hide AddrsLinked, RandomLinked, TriedPlaced, CountsExact, TimesOk, NewPlaced, RefsExact, IdsBounded, Slots,
        Unvisited, WithoutOwner;
      ghost var t := Snapshot();
      var a := info[id].addr;
      var start := env.NewBucket(a, info[id].source);
      NothingVisited(t, id, start);
      var n := 0;
      while n < NEW_BUCKETS
        invariant 0 <= n <= NEW_BUCKETS
        invariant newTable == Unvisited(t.newTable, id, start, n)
        invariant info == t.info[id := t.info[id].(refCount := |Slots(newTable, id)|)]
      {
        var bucket := (start + n) % NEW_BUCKETS;
        var s := Slot(bucket, env.NewPos(bucket, a));
        VisitBucket(env, t, id, start, n);
        n := n + 1;
        if s in newTable && newTable[s] == id {
          newTable := newTable - {s};
          info := info[id := info[id].(refCount := info[id].refCount - 1)];
          if info[id].refCount == 0 { break; }
        }
      }
      NothingLeft(t.newTable, id, start, n);
    }

    method MakeTried(id: int)
      requires Linked(env, Snapshot()) && id in info && !info[id].inTried && info[id].lastSuccess != 0
      modifies this
      ensures Snapshot() == Ops.MakeTried(env, old(Snapshot()), id)
    {
      hide Linked, Ops.ClearNew, Ops.OnlyMoved;
      ghost var t := Snapshot();
      DropNewRefs(id);
      var s := env.TriedSlot(info[id].addr);
      Ops.DroppedLinked(env, t, id);
      MakeRoom(s);
      Ops.EnteredMoves(env, t, Snapshot(), id);
      triedTable := triedTable[s := id];
      triedCount := triedCount + 1;
      info := info[id := info[id].(inTried := true)];
      // The program takes the entry off the new count before it makes room; nothing reads the count in between.
      newCount := newCount - 1;
    }

    method MakeRoom(s: Slot)
      requires Linked(env, Snapshot())
      modifies this
      ensures Snapshot() == Ops.MakeRoom(env, old(Snapshot()), s)
    {
      hide AddrsLinked, RandomLinked, NewPlaced, RefsExact, CountsExact, TimesOk, IdsBounded, Ops.ClearNew,
        Ops.OnlyMoved, Ops.Untried, Ops.OnlyCleared;
      if s in triedTable {
        var id := triedTable[s];
        Ops.UntriedLinked(env, Snapshot(), id);
        Untry(id, s);
        var home := env.NewSlot(info[id].addr, info[id].source);
        Ops.OrphanOwnsNoSlot(env, Snapshot(), home);
        ClearNew(home);
        Ops.EvictedMoves(env, old(Snapshot()), Snapshot(), id);
        info := info[id := info[id].(refCount := info[id].refCount + 1)];
        newTable := newTable[home := id];
      }
    }

    /** Takes an entry out of its slot of the tried table. */
    method Untry(id: int, s: Slot)
      requires id in info && s == env.TriedSlot(info[id].addr)
      modifies this`info, this`triedTable, this`triedCount, this`newCount
      ensures Snapshot() == Ops.Untried(env, old(Snapshot()), id) && id in info
      ensures info[id].addr == old(info[id].addr) && info[id].source == old(info[id].source)
    {
      hide Env.TriedSlot;
      info := info[id := info[id].(inTried := false)];
      triedTable := triedTable - {s};
      triedCount := triedCount - 1;
      newCount := newCount + 1;
    }

    method AddSingle(a: Address, source: NetAddr, penalty: int, now: int, lucky: bool) returns (added: bool)
      requires Sound(env, Snapshot())
      modifies this
      ensures (Snapshot(), added) == Manager.AddSingle(env, old(Snapshot()), a, source, penalty, now, lucky)
    {
      hide Linked, Ops.Create, Manager.Insert, Manager.AddOutcome, Manager.InsertOutcome;
      if !env.routable(a.service) { return false; }
      var p := if a.service.net == source then 0 else penalty;
      var id;
      if a.service in idOf {
        id := idOf[a.service];
        Manager.KnownAddress(env, Snapshot(), a.service);
        var x := Manager.Refreshed(info[id], a, p, now);
        Manager.StatsLinked(env, Snapshot(), id, x);
        info := info[id := x];
        if a.time == 0 || (x.time != 0 && a.time <= x.time) { return false; }
        if x.inTried { return false; }
        if x.refCount == MAX_NEW_REFS { return false; }
        if x.refCount > 0 && !lucky { return false; }
      } else {
        Manager.CreateEvolves(env, Snapshot(), a, source);
        id := Create(a, source);
        var x := info[id].(time := Max(0, a.time - p));
        Manager.StatsLinked(env, Snapshot(), id, x);
        info := info[id := x];
      }
      added := Insert(id, source, now);
    }

    method Insert(id: int, source: NetAddr, now: int) returns (added: bool)
      requires Linked(env, Snapshot()) && id in info && !info[id].inTried && info[id].refCount < MAX_NEW_REFS
      requires forall j :: Orphan(Snapshot(), j) ==> j == id
      modifies this
      ensures (Snapshot(), added) == Manager.Insert(env, old(Snapshot()), id, source, now)
    {
      hide Linked, Ops.ClearNew, Ops.Delete, Manager.InsertOutcome;
      var s := env.NewSlot(info[id].addr, source);
      Manager.OwnerKnown(env, Snapshot(), s);
      added := s !in newTable;
      if s !in newTable || newTable[s] != id {
        if !added {
          var existing := info[newTable[s]];
          if existing.IsTerrible(now) || (existing.refCount > 1 && info[id].refCount == 0) { added := true; }
        }
        if added {
          Manager.PlaceOutcome(env, Snapshot(), id, s);
          ClearNew(s);
          info := info[id := info[id].(refCount := info[id].refCount + 1)];
          newTable := newTable[s := id];
        } else if info[id].refCount == 0 {
          Delete(id);
        }
      }
    }

    method Add(addrs: seq<Address>, source: NetAddr, penalty: int, now: int, lucky: nat -> bool) returns (any: bool)
      requires Sound(env, Snapshot())
      modifies this
      ensures (Snapshot(), any) == Manager.Add(env, old(Snapshot()), addrs, source, penalty, now, lucky)
    {
      hide Sound, Manager.AddSingle;
      var added := 0;
      for i := 0 to |addrs|
        invariant added >= 0 && (Snapshot(), added > 0) ==
          Manager.Add(env, old(Snapshot()), addrs[..i], source, penalty, now, lucky)
      {
        assert addrs[..i + 1][..i] == addrs[..i];
        var one := AddSingle(addrs[i], source, penalty, now, lucky(i));
        added := added + if one then 1 else 0;
      }
      assert addrs[..|addrs|] == addrs;
      any := added > 0;
    }

    method Good(a: Service, testBeforeEvict: bool, time: int) returns (moved: bool)
      requires Sound(env, Snapshot()) && time > 0
      modifies this
      ensures (Snapshot(), moved) == Manager.Good(env, old(Snapshot()), a, testBeforeEvict, time)
    {
      hide Linked, Ops.MakeTried, Ops.Evolves;
      Manager.LastGoodFree(env, Snapshot(), time);
      lastGood := time;
      if a !in idOf { return false; }
      var id := idOf[a];
      Manager.KnownAddress(env, Snapshot(), a);
      var x := info[id].(lastSuccess := time, lastTry := time, attempts := 0);
      Manager.StatsLinked(env, Snapshot(), id, x);
      info := info[id := x];
      if x.inTried { return false; }
      if x.refCount == 0 { return false; }
      if testBeforeEvict && env.TriedSlot(a) in triedTable {
        if |collisions| < MAX_COLLISIONS {
          collisions := collisions + {id};
        }
        return false;
      }
      MakeTried(id);
      return true;
    }

    /** Attempt, Connected and SetServices. */
    method Update(a: Service, change: Manager.StatChange)
      requires Sound(env, Snapshot()) && change.Timely()
      modifies this`info
      ensures Snapshot() == Manager.Update(env, old(Snapshot()), a, change)
    {
      hide Linked;
      if a in idOf {
        Manager.KnownAddress(env, Snapshot(), a);
        var id := idOf[a];
        info := info[id := change.Change(info[id], lastGood)];
      }
    }

    method GetAddr(maxAddresses: nat, maxPct: nat, network: Option<nat>, now: int, draw: nat -> nat)
        returns (addrs: seq<Address>)
      requires Sound(env, Snapshot())
      modifies this`info, this`random
      ensures (Snapshot(), addrs) == Manager.GetAddr(env, old(Snapshot()), maxAddresses, maxPct, network, now, draw)
    {
      hide Sound, Ops.SwapRandom, Manager.AddrLimit, Manager.Pick, Manager.Shuffled, Manager.HandedOut,
        Manager.Wanted, Manager.GetAddrFrom, Manager.GetAddrAfter;
      Manager.SoundIndex(env, Snapshot());
      ghost var t := Snapshot();
      var limit := Manager.AddrLimit(|random|, maxAddresses, maxPct);
      var ids: seq<int> := [];
      var n := 0;
      Manager.NoneChosen(env, t, limit, network, now, draw);
      while n < |random| && |ids| < limit
        invariant n <= |random| && |ids| <= limit && RandomLinked(info, random)
        invariant Manager.GetAddrFrom(env, t, 0, limit, network, now, draw) ==
          Manager.GetAddrAfter(env, Snapshot(), n, limit, network, now, draw, ids)
      {
        Manager.GetAddrStep(env, Snapshot(), n, limit, network, now, draw, ids);
        SwapRandom(n, Manager.Pick(draw, n, |random|));
        var id := random[n];
        if Manager.Wanted(env, info[id], network, now) {
          ids := ids + [id];
        }
        n := n + 1;
      }
      Manager.GetAddrStep(env, Snapshot(), n, limit, network, now, draw, ids);
      addrs := Manager.Announcements(info, ids);
    }

    method ResolveCollisions(now: int)
      requires Sound(env, Snapshot()) && now > 0
      modifies this
      ensures Snapshot() == Runs.ResolveAll(env, old(Snapshot()), old(collisions), now)
    {
      hide Sound, Runs.ResolveOne;
      var todo := collisions;
      while todo != {}
        invariant Sound(env, Snapshot())
        invariant Runs.ResolveAll(env, old(Snapshot()), old(collisions), now) ==
          Runs.ResolveAll(env, Snapshot(), todo, now)
        decreases |todo|
      {
        var id := Runs.Least(todo);
        ResolveOne(id, now);
        todo := todo - {id};
      }
    }

    method ResolveOne(id: int, now: int)
      requires Sound(env, Snapshot()) && now > 0
      modifies this
      ensures Snapshot() == Runs.ResolveOne(env, old(Snapshot()), id, now)
    {
      hide Linked, Runs.Judge, Manager.Good;
      var verdict := Runs.Judge(env, Snapshot(), id, now);
      if verdict == Runs.Replace {
        var _ := Good(info[id].addr, false, now);
      }
      if verdict != Runs.Wait {
        collisions := collisions - {id};
      }
    }

    method SelectTriedCollision(id: int) returns (out: Option<(Address, int)>)
      requires Consistent(env, Snapshot()) && id in collisions
      modifies this`collisions
      ensures (Snapshot(), out) == Runs.SelectTriedCollision(env, old(Snapshot()), id)
    {
      hide AddrsLinked, RandomLinked, NewPlaced, RefsExact, CountsExact, TimesOk;
      if id !in info {
        collisions := collisions - {id};
        return None;
      }
      var rival := triedTable[env.TriedSlot(info[id].addr)];
      return Some((info[rival].Announced(), info[rival].lastTry));
    }

    /** Writes the tables; `order` is the order in which a pass over the entries meets them. */
    method Serialize(order: seq<int>, checksum: int) returns (f: Files.File)
      requires Sound(env, Snapshot()) && Files.Enumerates(order, info)
      ensures f == Files.Written(Snapshot(), order, checksum)
    {
      hide Linked, Files.NewOrder, Files.TriedOrder, Files.Numbered, Files.BucketList, Files.IndexIn;
      Files.IdOrderComplete(env, Snapshot(), order);
      Files.OwnersAreListed(env, Snapshot(), order);
      var unk, news := WriteNew(order);
      var trieds := WriteTried(order);
      var buckets := [];
      for b := 0 to NEW_BUCKETS
        invariant |buckets| == b
        invariant forall k :: 0 <= k < b ==>
          buckets[k] == Files.BucketList(newTable, Files.NewOrder(info, order), k, BUCKET_SIZE)
      {
        var list := WriteBucket(order, unk, b);
        buckets := buckets + [list];
      }
      f := Files.File(news, trieds, buckets, checksum);
    }

    method WriteNew(order: seq<int>) returns (unk: map<int, int>, news: seq<Files.Record>)
      requires Files.Lists(info, order) && |Files.NewOrder(info, order)| == newCount
      ensures news == Files.Records(info, Files.NewOrder(info, order)) && Files.Numbered(info, order, |order|, unk)
    {
      hide Files.NewOrder, Files.Numbered, Files.RecordOf, Files.Records;
      unk, news := map[], [];
      var ids := 0;
      Files.NothingWritten(info, order);
      for k := 0 to |order|
        invariant Files.Numbered(info, order, k, unk)
        invariant news == Files.Records(info, Files.NewOrder(info, order[..k])) && ids == |news|
      {
        Files.OrderNext(info, order, k);
        Files.NumberNext(info, order, k, unk);
        Files.OrderPrefix(info, order, k + 1);
        Files.RecordsMore(info, Files.NewOrder(info, order[..k]), order[k]);
        unk := unk[order[k] := ids];
        if info[order[k]].refCount != 0 {
          assert ids != newCount;
          news := news + [Files.RecordOf(info[order[k]])];
          ids := ids + 1;
        }
      }
      assert order[..|order|] == order;
    }

    method WriteTried(order: seq<int>) returns (trieds: seq<Files.Record>)
      requires Files.Lists(info, order) && |Files.TriedOrder(info, order)| == triedCount
      ensures trieds == Files.Records(info, Files.TriedOrder(info, order))
    {
      hide Files.TriedOrder, Files.RecordOf, Files.Records;
      trieds := [];
      var ids := 0;
      Files.NothingWritten(info, order);
      for k := 0 to |order|
        invariant trieds == Files.Records(info, Files.TriedOrder(info, order[..k])) && ids == |trieds|
      {
        Files.OrderNext(info, order, k);
        Files.OrderPrefix(info, order, k + 1);
        Files.RecordsMore(info, Files.TriedOrder(info, order[..k]), order[k]);
        if info[order[k]].inTried {
          assert ids != triedCount;
          trieds := trieds + [Files.RecordOf(info[order[k]])];
          ids := ids + 1;
        }
      }
      assert order[..|order|] == order;
    }

    method WriteBucket(order: seq<int>, unk: map<int, int>, b: nat) returns (list: seq<int>)
      requires Files.Lists(info, order) && Files.Numbered(info, order, |order|, unk)
      requires Files.OwnersListed(newTable, Files.NewOrder(info, order))
      ensures list == Files.BucketList(newTable, Files.NewOrder(info, order), b, BUCKET_SIZE)
    {
      hide Files.NewOrder, Files.Numbered, Files.IndexIn;
      list := [];
      for i := 0 to BUCKET_SIZE
        invariant list == Files.BucketList(newTable, Files.NewOrder(info, order), b, i)
      {
        if Slot(b, i) in newTable {
          var id := newTable[Slot(b, i)];
          Files.NumbersAreIndices(info, order, unk, id);
          list := list + [unk[id]];
        }
      }
    }

    /** Loads a file into an empty manager; false if it is malformed or the result fails the check. */
    method Unserialize(f: Files.File, checksum: int, visit: Files.Visit) returns (ok: bool)
      requires Snapshot() == EMPTY
      modifies this
      ensures Files.Loaded(env, f, checksum, visit) == if ok then Some(Snapshot()) else None
      ensures ok ==> Consistent(env, Snapshot())
    {
      hide Files.LoadNew, Files.LoadTried, Files.PlaceAll, Files.Entries, Files.Pruned, Check.Accepted;
      if |f.news| > Files.NEW_LIMIT || |f.trieds| > Files.TRIED_LIMIT { return false; }
      newCount, triedCount := |f.news|, |f.trieds|;
      ReadNew(f.news);
      ReadTried(f.trieds);
      var entries := ReadEntries(f.buckets, |f.news|);
      ghost var u1 := Files.LoadNew(f.news, |f.news|).(idCount := |f.news|, newCount := |f.news|,
        triedCount := |f.trieds|);
      Files.LoadNewIndexed(f.news, |f.news|);
      Files.LoadTriedIndexed(env, u1, f.trieds, |f.trieds|);
      PlaceEntries(entries, |f.buckets| == NEW_BUCKETS && f.checksum == checksum);
      assert Snapshot() == Files.Filled(env, f, checksum);
      Files.FilledShaped(env, f, checksum);
      Prune(visit);
      var code := Check.CheckAddrman(env, Snapshot());
      ok := code == 0;
      if ok { Loading.LoadedConsistent(env, f, checksum, visit); }
    }

    method ReadNew(news: seq<Files.Record>)
      requires Snapshot() == EMPTY.(newCount := newCount, triedCount := triedCount) && newCount == |news|
      modifies this
      ensures Snapshot() ==
        Files.LoadNew(news, |news|).(idCount := |news|, newCount := |news|, triedCount := old(triedCount))
    {
      ghost var tried := triedCount;
      for n := 0 to |news|
        invariant Snapshot() == Files.LoadNew(news, n).(newCount := |news|, triedCount := tried)
      {
        var x := Files.EntryOf(news[n]);
        idOf := idOf[x.addr := n];
        info := info[n := x.(randomPos := |random|)];
        random := random + [n];
      }
      idCount := |news|;
    }

    method ReadTried(trieds: seq<Files.Record>)
      modifies this
      ensures Snapshot() == Files.LoadTried(env, old(Snapshot()), trieds, |trieds|)
    {
      hide Files.LoadOneTried;
      ghost var u := Snapshot();
      for n := 0 to |trieds|
        invariant Snapshot() == Files.LoadTried(env, u, trieds, n)
      {
        ReadOneTried(trieds[n]);
      }
    }

    method ReadOneTried(r: Files.Record)
      modifies this
      ensures Snapshot() == Files.LoadOneTried(env, old(Snapshot()), r)
    {
      hide Env.TriedSlot;
      var x := Files.EntryOf(r);
      var s := env.TriedSlot(x.addr);
      if env.valid(x.addr) && s !in triedTable {
        x := x.(randomPos := |random|, inTried := true);
        random := random + [idCount];
        info := info[idCount := x];
        idOf := idOf[x.addr := idCount];
        triedTable := triedTable[s := idCount];
        idCount := idCount + 1;
      } else {
        triedCount := triedCount - 1;
      }
    }

    method ReadEntries(buckets: seq<seq<int>>, count: nat) returns (entries: seq<(nat, int)>)
      ensures entries == Files.Entries(buckets, |buckets|, count)
    {
      entries := [];
      for b := 0 to |buckets|
        invariant entries == Files.Entries(buckets, b, count)
      {
        ghost var before := entries;
        assert before + [] == before;
        for n := 0 to |buckets[b]|
          invariant entries == before + Files.EntriesOf(b, buckets[b][..n], count)
        {
          assert buckets[b][..n + 1][..n] == buckets[b][..n];
          if 0 <= buckets[b][n] < count {
            entries := entries + [(b, buckets[b][n])];
          }
        }
        assert buckets[b][..|buckets[b]|] == buckets[b];
      }
    }

    method PlaceEntries(entries: seq<(nat, int)>, restore: bool)
      requires forall i :: 0 <= i < |entries| ==> entries[i].1 in info
      modifies this`info, this`newTable
      ensures Snapshot() == Files.PlaceAll(env, old(Snapshot()), entries, |entries|, restore)
    {
      hide Files.PlaceOne;
      ghost var u := Snapshot();
      for j := 0 to |entries|
        invariant Snapshot() == Files.PlaceAll(env, u, entries, j, restore)
      {
        PlaceEntry(entries[j], restore);
      }
    }

    method PlaceEntry(entry: (nat, int), restore: bool)
      requires entry.1 in info
      modifies this`info, this`newTable
      ensures Snapshot() == Files.PlaceOne(env, old(Snapshot()), entry, restore)
    {
      hide Env.NewPos, Env.NewSlot;
      var id := entry.1;
      if !env.valid(info[id].addr) || info[id].refCount >= MAX_NEW_REFS { return; }
      var s := Slot(entry.0, env.NewPos(entry.0, info[id].addr));
      if restore && s !in newTable {
        newTable := newTable[s := id];
        info := info[id := info[id].(refCount := info[id].refCount + 1)];
      } else {
        s := env.NewSlot(info[id].addr, info[id].source);
        if s !in newTable {
          newTable := newTable[s := id];
          info := info[id := info[id].(refCount := info[id].refCount + 1)];
        }
      }
    }

    /** Deletes the entries without a slot, in whatever order they are visited. */
    method Prune(visit: Files.Visit)
      requires RandomLinked(info, random)
      modifies this
      ensures Snapshot() == Files.Pruned(old(Snapshot()), visit)
    {
      hide RandomLinked, Files.Erased;
      ghost var u := Snapshot();
      while Files.Orphans(Snapshot()) != {}
        invariant RandomLinked(info, random) && Files.Pruned(Snapshot(), visit) == Files.Pruned(u, visit)
        decreases |info.Keys|
      {
        var id := Files.NextOf(Files.Orphans(Snapshot()), visit);
        Erase(id);
      }
    }

    method Erase(id: int)
      requires RandomLinked(info, random) && id in info
      modifies this
      ensures Snapshot() == Files.Erased(old(Snapshot()), id) && RandomLinked(info, random)
        && info.Keys == old(info.Keys) - {id}
    {
      hide Ops.SwapRandom;
      ghost var r := Files.Erased(Snapshot(), id);
      SwapRandom(info[id].randomPos, |random| - 1);
      random := random[..|random| - 1];
      idOf := idOf - {info[id].addr};
      info := info - {id};
      newCount := newCount - 1;
    }
  }

  // ----- the scan of the new buckets -----

  predicate Visited(s: Slot, start: nat, n: nat) { (s.bucket - start) % NEW_BUCKETS < n }

  function Unvisited(t: Table, id: int, start: nat, n: nat): Table {
    map s | s in t && !(t[s] == id && Visited(s, start, n)) :: t[s]
  }

  lemma VisitBucket(e: Env, t: Tables, id: int, start: nat, n: nat)
    requires NewPlaced(e, t.info, t.newTable) && id in t.info && n < NEW_BUCKETS
    ensures var bucket := (start + n) % NEW_BUCKETS;
      var s := Slot(bucket, e.NewPos(bucket, t.info[id].addr));
      var u := Unvisited(t.newTable, id, start, n);
      Unvisited(t.newTable, id, start, n + 1) == if s in u && u[s] == id then u - {s} else u
    ensures var bucket := (start + n) % NEW_BUCKETS;
      var s := Slot(bucket, e.NewPos(bucket, t.info[id].addr));
      var u := Unvisited(t.newTable, id, start, n);
      s in u && u[s] == id ==> |Slots(u - {s}, id)| == |Slots(u, id)| - 1
  {
    var bucket := (start + n) % NEW_BUCKETS;
    var s := Slot(bucket, e.NewPos(bucket, t.info[id].addr));
    var u := Unvisited(t.newTable, id, start, n);
    forall q | q in t.newTable && t.newTable[q] == id && Visited(q, start, n + 1) && !Visited(q, start, n)
      ensures q == s
    {
      assert q.bucket < NEW_BUCKETS;
    }
    assert !Visited(s, start, n) && Visited(s, start, n + 1);
    if s in u { SlotsAfterErase(u, s, id); }
  }

  lemma NothingVisited(t: Tables, id: int, start: nat)
    requires RefsExact(t.info, t.newTable) && id in t.info
    ensures Unvisited(t.newTable, id, start, 0) == t.newTable
    ensures t.info == t.info[id := t.info[id].(refCount := |Slots(t.newTable, id)|)]
  {}

  lemma NothingLeft(t: Table, id: int, start: nat, n: nat)
    requires n == NEW_BUCKETS || |Slots(Unvisited(t, id, start, n), id)| == 0
    ensures Unvisited(t, id, start, n) == WithoutOwner(t, id)
    ensures |Slots(Unvisited(t, id, start, n), id)| == 0
  {
    var u := Unvisited(t, id, start, n);
    forall s | s in t && t[s] == id ensures s !in u {
      assert s !in Slots(u, id);
    }
  }
}
