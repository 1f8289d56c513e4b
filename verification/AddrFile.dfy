/**
 * Writing the address manager's tables to disk and reading them back
 * (src/addrman.cpp). The file holds the new entries, the tried entries and, per
 * new bucket, indices into the new entries; ids, positions in the random list
 * and reference counts are rebuilt on loading.
 */
module AddrFile {
  import opened Common
  import opened AddrTables
  import opened AddrOps
  import opened AddrCheck
  import AddrRuns

  /** What is stored of an entry. */
  datatype Record = Record(addr: Service, time: int, services: bv64, source: NetAddr, lastSuccess: int, attempts: int)

  datatype File = File(news: seq<Record>, trieds: seq<Record>, buckets: seq<seq<int>>, checksum: int)

  function RecordOf(i: AddrInfo): Record { Record(i.addr, i.time, i.services, i.source, i.lastSuccess, i.attempts) }

  function EntryOf(r: Record): AddrInfo {
    AddrInfo(r.addr, r.time, r.services, r.source, 0, 0, r.lastSuccess, r.attempts, 0, false, -1)
  }

  // ----- writing -----

  /** The order in which a pass over the entries meets them. */
  ghost predicate Enumerates(order: seq<int>, m: Infos) {
    && (forall i, j :: 0 <= i < j < |order| ==> order[i] != order[j])
    && (forall i :: 0 <= i < |order| ==> order[i] in m)
    && (forall id :: id in m ==> id in order)
  }

  /** The ids of the entries with references, in order. */
  function NewOrder(m: Infos, order: seq<int>): (r: seq<int>)
    requires forall i :: 0 <= i < |order| ==> order[i] in m
    ensures forall i :: 0 <= i < |r| ==> r[i] in m && m[r[i]].refCount != 0 && r[i] in order
    ensures forall id :: id in order && m[id].refCount != 0 ==> id in r
  {
    if order == [] then []
    else
      var n := |order| - 1;
      NewOrder(m, order[..n]) + (if m[order[n]].refCount != 0 then [order[n]] else [])
  }

  function TriedOrder(m: Infos, order: seq<int>): (r: seq<int>)
    requires forall i :: 0 <= i < |order| ==> order[i] in m
    ensures forall i :: 0 <= i < |r| ==> r[i] in m && m[r[i]].inTried && r[i] in order
    ensures forall id :: id in order && m[id].inTried ==> id in r
  {
    if order == [] then []
    else
      var n := |order| - 1;
      TriedOrder(m, order[..n]) + (if m[order[n]].inTried then [order[n]] else [])
  }

  function Records(m: Infos, ids: seq<int>): (r: seq<Record>)
    requires forall i :: 0 <= i < |ids| ==> ids[i] in m
    ensures |r| == |ids| && forall i :: 0 <= i < |ids| ==> r[i] == RecordOf(m[ids[i]])
  {
    seq(|ids|, i requires 0 <= i < |ids| => RecordOf(m[ids[i]]))
  }

  lemma RecordsMore(m: Infos, ids: seq<int>, id: int)
    requires (forall i :: 0 <= i < |ids| ==> ids[i] in m) && id in m
    ensures Records(m, ids + [id]) == Records(m, ids) + [RecordOf(m[id])] && Records(m, ids + []) == Records(m, ids)
  {
    assert ids + [] == ids;
  }

  /** The place of an id in a list, or the length of the list. */
  function IndexIn(ids: seq<int>, id: int): (k: nat)
    ensures k <= |ids| && (id in ids ==> k < |ids| && ids[k] == id)
  {
    if ids == [] then 0 else if ids[0] == id then 0 else 1 + IndexIn(ids[1..], id)
  }

  /** The indices listed for bucket `b` up to position `i`. */
  function BucketList(t: Table, news: seq<int>, b: nat, i: nat): seq<int> {
    if i == 0 then []
    else BucketList(t, news, b, i - 1) + (if Slot(b, i - 1) in t then [IndexIn(news, t[Slot(b, i - 1)])] else [])
  }

  function Written(t: Tables, order: seq<int>, checksum: int): File
    requires forall i :: 0 <= i < |order| ==> order[i] in t.info
  {
    var news := NewOrder(t.info, order);
    File(Records(t.info, news), Records(t.info, TriedOrder(t.info, order)),
         seq(NEW_BUCKETS, b requires 0 <= b < NEW_BUCKETS => BucketList(t.newTable, news, b, BUCKET_SIZE)), checksum)
  }

  // ----- reading -----

  /** The tables after the first `n` new entries. */
  function LoadNew(news: seq<Record>, n: nat): (u: Tables)
    requires n <= |news|
    ensures |u.random| == n && forall id :: id in u.info <==> 0 <= id < n
  {
    if n == 0 then EMPTY
    else
      var u, x := LoadNew(news, n - 1), EntryOf(news[n - 1]);
      u.(info := u.info[n - 1 := x.(randomPos := |u.random|)], idOf := u.idOf[x.addr := n - 1],
        random := u.random + [n - 1])
  }

  /** One tried entry: kept if its address is valid and its slot free, else lost. */
  function LoadOneTried(e: Env, u: Tables, r: Record): Tables {
    var x := EntryOf(r);
    var s := e.TriedSlot(x.addr);
    if e.valid(x.addr) && s !in u.triedTable then
      u.(idCount := u.idCount + 1, info := u.info[u.idCount := x.(randomPos := |u.random|, inTried := true)],
         idOf := u.idOf[x.addr := u.idCount], random := u.random + [u.idCount],
           triedTable := u.triedTable[s := u.idCount])
    else u.(triedCount := u.triedCount - 1)
  }

  function LoadTried(e: Env, u: Tables, trieds: seq<Record>, k: nat): Tables
    requires k <= |trieds|
  {
    if k == 0 then u else LoadOneTried(e, LoadTried(e, u, trieds, k - 1), trieds[k - 1])
  }

  /** The bucket and index of each usable bucket entry. */
  function EntriesOf(b: nat, indices: seq<int>, count: nat): (r: seq<(nat, int)>)
    ensures forall i :: 0 <= i < |r| ==> 0 <= r[i].1 < count && r[i].0 == b
  {
    if indices == [] then []
    else
      var n := |indices| - 1;
      EntriesOf(b, indices[..n], count) + (if 0 <= indices[n] < count then [(b, indices[n])] else [])
  }

  function Entries(buckets: seq<seq<int>>, n: nat, count: nat): (r: seq<(nat, int)>)
    requires n <= |buckets|
    ensures forall i :: 0 <= i < |r| ==> 0 <= r[i].1 < count && r[i].0 < n
  {
    if n == 0 then [] else Entries(buckets, n - 1, count) + EntriesOf(n - 1, buckets[n - 1], count)
  }

  /** One bucket entry: back in its old bucket if that can be trusted and the slot is free, else by its source. */
  function PlaceOne(e: Env, u: Tables, entry: (nat, int), restore: bool): (r: Tables)
    requires entry.1 in u.info
    ensures r == u.(info := r.info, newTable := r.newTable) && r.info.Keys == u.info.Keys
  {
    var id := entry.1;
    var i := u.info[id];
    var here, home := Slot(entry.0, e.NewPos(entry.0, i.addr)), e.NewSlot(i.addr, i.source);
    if !e.valid(i.addr) || i.refCount >= MAX_NEW_REFS then u
    else if restore && here !in u.newTable then Placed(u, id, here)
    else if home !in u.newTable then Placed(u, id, home)
    else u
  }

  function PlaceAll(e: Env, u: Tables, entries: seq<(nat, int)>, j: nat, restore: bool): (r: Tables)
    requires j <= |entries| && forall i :: 0 <= i < |entries| ==> entries[i].1 in u.info
    ensures r == u.(info := r.info, newTable := r.newTable) && r.info.Keys == u.info.Keys
  {
    if j == 0 then u else PlaceOne(e, PlaceAll(e, u, entries, j - 1, restore), entries[j - 1], restore)
  }

  function Orphans(u: Tables): set<int> { set id | id in u.info && Orphan(u, id) }

  /** Delete an entry without a slot, whatever the address map says about it. */
  function Erased(u: Tables, id: int): (r: Tables)
    requires RandomLinked(u.info, u.random) && id in u.info
    ensures RandomLinked(r.info, r.random) && r.info.Keys == u.info.Keys - {id}
    ensures r.newTable == u.newTable && r.triedTable == u.triedTable
  {
    hide SwapRandom;
    var v := SwapRandom(u, u.info[id].randomPos, |u.random| - 1);
    assert v.random[|v.random| - 1] == id;
    DroppedLast(v, id)
  }

  /** Which of the remaining ids the pass over the hash map meets next. */
  type Visit = set<int> -> int

  function NextOf(s: set<int>, visit: Visit): (id: int)
    requires s != {}
    ensures id in s
  {
    if visit(s) in s then visit(s) else AddrRuns.Least(s)
  }

  /** Delete every entry that found no slot, in any order. */
  function Pruned(u: Tables, visit: Visit): (r: Tables)
    requires RandomLinked(u.info, u.random)
    ensures RandomLinked(r.info, r.random)
    ensures r.newTable == u.newTable && r.triedTable == u.triedTable
    decreases |u.info.Keys|
  {
    if Orphans(u) == {} then u else Pruned(Erased(u, NextOf(Orphans(u), visit)), visit)
  }

  const NEW_LIMIT := NEW_BUCKETS * BUCKET_SIZE
  const TRIED_LIMIT := TRIED_BUCKETS * BUCKET_SIZE

  /** The tables before pruning. */
  function Filled(e: Env, f: File, checksum: int): (u: Tables)
    ensures RandomLinked(u.info, u.random)
  {
    var u1 := LoadNew(f.news, |f.news|).(idCount := |f.news|, newCount := |f.news|, triedCount := |f.trieds|);
    LoadNewIndexed(f.news, |f.news|);
    LoadTriedIndexed(e, u1, f.trieds, |f.trieds|);
    var u2 := LoadTried(e, u1, f.trieds, |f.trieds|);
    var entries := Entries(f.buckets, |f.buckets|, |f.news|);
    PlaceAllIndexed(e, u2, entries, |entries|, |f.buckets| == NEW_BUCKETS && f.checksum == checksum);
    PlaceAll(e, u2, entries, |entries|, |f.buckets| == NEW_BUCKETS && f.checksum == checksum)
  }

  /** What loading a file gives: nothing if it is malformed or the tables it yields do not pass the check. */
  ghost function Loaded(e: Env, f: File, checksum: int, visit: Visit): Option<Tables> {
    if |f.news| > NEW_LIMIT || |f.trieds| > TRIED_LIMIT then None
    else
      var u := Pruned(Filled(e, f, checksum), visit);
      if Accepted(e, u) then Some(u) else None
  }

  /** The random list is right and ids are below the counter. */
  ghost predicate Indexed(u: Tables) {
    RandomLinked(u.info, u.random) && forall id :: id in u.info ==> 0 <= id < u.idCount
  }

  lemma {:induction false} LoadNewIndexed(news: seq<Record>, n: nat)
    requires n <= |news|
    ensures RandomLinked(LoadNew(news, n).info, LoadNew(news, n).random)
  {
    if n > 0 { LoadNewIndexed(news, n - 1); }
  }

  lemma {:induction false} LoadTriedIndexed(e: Env, u: Tables, trieds: seq<Record>, k: nat)
    requires k <= |trieds| && Indexed(u) && u.idCount >= 0
    ensures Indexed(LoadTried(e, u, trieds, k)) && u.info.Keys <= LoadTried(e, u, trieds, k).info.Keys
    ensures LoadTried(e, u, trieds, k).idCount >= 0
  {
    if k > 0 {
      LoadTriedIndexed(e, u, trieds, k - 1);
      OneTriedIndexed(e, LoadTried(e, u, trieds, k - 1), trieds[k - 1]);
    }
  }

  lemma OneTriedIndexed(e: Env, u: Tables, r: Record)
    requires Indexed(u) && u.idCount >= 0
    ensures Indexed(LoadOneTried(e, u, r)) && u.info.Keys <= LoadOneTried(e, u, r).info.Keys
      && LoadOneTried(e, u, r).idCount >= 0
  {
    hide Env.TriedSlot;
  }

  lemma {:induction false} PlaceAllIndexed(e: Env, u: Tables, entries: seq<(nat, int)>, j: nat, restore: bool)
    requires j <= |entries| && (forall i :: 0 <= i < |entries| ==> entries[i].1 in u.info)
      && RandomLinked(u.info, u.random)
    ensures RandomLinked(PlaceAll(e, u, entries, j, restore).info, PlaceAll(e, u, entries, j, restore).random)
  {
    hide RandomLinked, PlaceOne;
    if j > 0 {
      PlaceAllIndexed(e, u, entries, j - 1, restore);
      OnePlacedIndexed(e, PlaceAll(e, u, entries, j - 1, restore), entries[j - 1], restore);
    }
  }

  lemma OnePlacedIndexed(e: Env, u: Tables, entry: (nat, int), restore: bool)
    requires entry.1 in u.info && RandomLinked(u.info, u.random)
    ensures RandomLinked(PlaceOne(e, u, entry, restore).info, PlaceOne(e, u, entry, restore).random)
  {
    hide Env.NewPos, Env.NewSlot;
  }

  // ----- what a written file loads as -----

  /** An entry as it comes back: what is not stored starts afresh. */
  function Reloaded(x: AddrInfo, i: int): AddrInfo {
    x.(lastTry := 0, lastCountAttempt := 0, refCount := 0, randomPos := i)
  }

  /** The list names entries, each once. */
  ghost predicate Lists(m: Infos, ids: seq<int>) {
    (forall i, j :: 0 <= i < j < |ids| ==> ids[i] != ids[j]) && forall i :: 0 <= i < |ids| ==> ids[i] in m
  }

  /** The first `n` ids of the list are back, as the numbers of their places. */
  ghost predicate Back(m: Infos, ids: seq<int>, info: Infos, random: seq<int>, n: nat) {
    && n <= |ids| && |random| == n && Lists(m, ids)
    && (forall id :: id in info <==> 0 <= id < n)
    && (forall i :: 0 <= i < n ==> random[i] == i && info[i] == Reloaded(m[ids[i]], i))
  }

  ghost predicate NamesBack(m: Infos, ids: seq<int>, idOf: map<Service, int>, n: nat) {
    && n <= |ids| && Lists(m, ids)
    && (forall i :: 0 <= i < n ==> m[ids[i]].addr in idOf && idOf[m[ids[i]].addr] == i)
    && (forall a :: a in idOf ==> 0 <= idOf[a] < n && m[ids[idOf[a]]].addr == a)
  }

  /** The tried ones among them are in their slots, and nothing else is. */
  ghost predicate TriedBack(e: Env, m: Infos, ids: seq<int>, t: Table, n: nat) {
    && n <= |ids| && Lists(m, ids)
    && (forall s :: s in t ==> 0 <= t[s] < n && m[ids[t[s]]].inTried && s == e.TriedSlot(m[ids[t[s]]].addr))
    && (forall i :: 0 <= i < n && m[ids[i]].inTried ==>
      e.TriedSlot(m[ids[i]].addr) in t && t[e.TriedSlot(m[ids[i]].addr)] == i)
  }

  lemma BackMore(m: Infos, ids: seq<int>, info: Infos, random: seq<int>, n: nat)
    requires Back(m, ids, info, random, n) && n < |ids|
    ensures Back(m, ids, info[n := Reloaded(m[ids[n]], n)], random + [n], n + 1)
  {}

  /** Different ids have different addresses. */
  ghost predicate OwnAddrs(m: Infos) { forall i, j :: i in m && j in m && m[i].addr == m[j].addr ==> i == j }

  lemma NamesMore(m: Infos, ids: seq<int>, idOf: map<Service, int>, n: nat)
    requires NamesBack(m, ids, idOf, n) && n < |ids| && OwnAddrs(m)
    ensures NamesBack(m, ids, idOf[m[ids[n]].addr := n], n + 1)
  {}

  lemma TriedSame(e: Env, m: Infos, ids: seq<int>, t: Table, n: nat)
    requires TriedBack(e, m, ids, t, n) && n < |ids| && !m[ids[n]].inTried
    ensures TriedBack(e, m, ids, t, n + 1)
  {
    hide Env.TriedSlot;
  }

  /** Different tried ids have different slots. */
  ghost predicate OwnSlots(e: Env, m: Infos) {
    forall i, j ::
      i in m && j in m && m[i].inTried && m[j].inTried && e.TriedSlot(m[i].addr) == e.TriedSlot(m[j].addr) ==> i == j
  }

  lemma TriedMore(e: Env, m: Infos, ids: seq<int>, t: Table, n: nat)
    requires TriedBack(e, m, ids, t, n) && n < |ids| && m[ids[n]].inTried && OwnSlots(e, m)
    ensures var s := e.TriedSlot(m[ids[n]].addr); s !in t && TriedBack(e, m, ids, t[s := n], n + 1)
  {
    hide Env.TriedSlot;
    var s := e.TriedSlot(m[ids[n]].addr);
    if s in t { assert false; }
    forall i | 0 <= i < n && m[ids[i]].inTried ensures e.TriedSlot(m[ids[i]].addr) != s { assert ids[i] != ids[n]; }
  }

  /** Everything about the tables part way through the entries. */
  ghost predicate PartLoaded(e: Env, m: Infos, ids: seq<int>, u: Tables, n: nat) {
    && Back(m, ids, u.info, u.random, n) && NamesBack(m, ids, u.idOf, n) && TriedBack(e, m, ids, u.triedTable, n)
    && u.newTable == map[] && u.collisions == {} && u.lastGood == 1
  }

  lemma {:induction false} NewLoaded(e: Env, m: Infos, news: seq<int>, ids: seq<int>, n: nat)
    requires n <= |news| && news <= ids && OwnAddrs(m) && Lists(m, ids)
    requires forall i :: 0 <= i < |news| ==> news[i] in m && !m[news[i]].inTried
    ensures PartLoaded(e, m, ids, LoadNew(Records(m, news), n), n)
  {
    hide Back, NamesBack, TriedBack, Records;
    if n == 0 {
      NothingBack(e, m, ids);
    } else {
      NewLoaded(e, m, news, ids, n - 1);
      var u := LoadNew(Records(m, news), n - 1);
      assert ids[n - 1] == news[n - 1];
      BackMore(m, ids, u.info, u.random, n - 1);
      NamesMore(m, ids, u.idOf, n - 1);
      TriedSame(e, m, ids, u.triedTable, n - 1);
    }
  }

  lemma NothingBack(e: Env, m: Infos, ids: seq<int>)
    requires Lists(m, ids)
    ensures Back(m, ids, map[], [], 0) && NamesBack(m, ids, map[], 0) && TriedBack(e, m, ids, map[], 0)
  {}

  lemma {:induction false} TriedLoaded(e: Env, m: Infos, trieds: seq<int>, ids: seq<int>, u: Tables, n: nat, k: nat)
    requires k <= |trieds| && n + |trieds| == |ids| && ids[n..] == trieds && OwnAddrs(m) && OwnSlots(e, m)
    requires forall i :: 0 <= i < |trieds| ==> trieds[i] in m && m[trieds[i]].inTried && e.valid(m[trieds[i]].addr)
    requires PartLoaded(e, m, ids, u, n) && u.idCount == n
    ensures var r := LoadTried(e, u, Records(m, trieds), k);
      PartLoaded(e, m, ids, r, n + k) && r.idCount == n + k && r.newCount == u.newCount && r.triedCount == u.triedCount
  {
    hide Back, NamesBack, TriedBack, Records, OwnSlots, OwnAddrs, Env.TriedSlot;
    if k > 0 {
      TriedLoaded(e, m, trieds, ids, u, n, k - 1);
      var r := LoadTried(e, u, Records(m, trieds), k - 1);
      assert ids[n + k - 1] == ids[n..][k - 1] == trieds[k - 1];
      BackSize(m, ids, r.info, r.random, n + k - 1);
      BackMore(m, ids, r.info, r.random, n + k - 1);
      NamesMore(m, ids, r.idOf, n + k - 1);
      TriedMore(e, m, ids, r.triedTable, n + k - 1);
    }
  }

  lemma BackSize(m: Infos, ids: seq<int>, info: Infos, random: seq<int>, n: nat)
    requires Back(m, ids, info, random, n)
    ensures |random| == n
  {}

  // ----- the bucket entries -----

  /** The occupied slots of bucket `b` up to position `i`, and of the buckets before `b`, in order. */
  function InBucket(t: Table, b: nat, i: nat): seq<Slot> {
    if i == 0 then [] else InBucket(t, b, i - 1) + (if Slot(b, i - 1) in t then [Slot(b, i - 1)] else [])
  }

  function Occupied(t: Table, b: nat): seq<Slot> {
    if b == 0 then [] else Occupied(t, b - 1) + InBucket(t, b - 1, BUCKET_SIZE)
  }

  ghost predicate DistinctSlots(w: seq<Slot>) { forall i, j :: 0 <= i < j < |w| ==> w[i] != w[j] }

  lemma {:induction false} InBucketAll(t: Table, b: nat, i: nat)
    ensures DistinctSlots(InBucket(t, b, i))
    ensures forall s :: s in InBucket(t, b, i) <==> s in t && s.bucket == b && s.pos < i
  {
    if i > 0 {
      InBucketAll(t, b, i - 1);
      var w := InBucket(t, b, i - 1);
      assert forall k :: 0 <= k < |w| ==> w[k] in w;
      forall s | s in t && s.bucket == b && s.pos < i ensures s in InBucket(t, b, i) {
        if s.pos == i - 1 { assert s == Slot(b, i - 1); }
      }
    }
  }

  lemma {:induction false} OccupiedAll(t: Table, b: nat)
    requires forall s :: s in t ==> s.pos < BUCKET_SIZE
    ensures DistinctSlots(Occupied(t, b))
    ensures forall s :: s in Occupied(t, b) <==> s in t && s.bucket < b
  {
    if b > 0 {
      OccupiedAll(t, b - 1);
      InBucketAll(t, b - 1, BUCKET_SIZE);
      var w, v := Occupied(t, b - 1), InBucket(t, b - 1, BUCKET_SIZE);
      assert forall k :: 0 <= k < |w| ==> w[k] in w;
      assert forall k :: 0 <= k < |v| ==> v[k] in v;
    }
  }

  function Tagged(t: Table, news: seq<int>, w: seq<Slot>): (r: seq<(nat, int)>)
    requires forall i :: 0 <= i < |w| ==> w[i] in t
    ensures |r| == |w| && forall i :: 0 <= i < |w| ==> r[i] == (w[i].bucket, IndexIn(news, t[w[i]]))
  {
    seq(|w|, i requires 0 <= i < |w| => (w[i].bucket, IndexIn(news, t[w[i]])))
  }

  /** Every owner is listed. */
  ghost predicate OwnersListed(t: Table, news: seq<int>) { forall s :: s in t ==> t[s] in news }

  lemma {:induction false} BucketWritten(t: Table, news: seq<int>, b: nat, i: nat)
    requires OwnersListed(t, news)
    ensures (forall k :: 0 <= k < |InBucket(t, b, i)| ==> InBucket(t, b, i)[k] in t)
    ensures EntriesOf(b, BucketList(t, news, b, i), |news|) == Tagged(t, news, InBucket(t, b, i))
  {
    hide IndexIn;
    if i > 0 {
      BucketWritten(t, news, b, i - 1);
      var l, x := BucketList(t, news, b, i - 1), Slot(b, i - 1);
      if x in t {
        assert t[x] in news;
        assert (l + [IndexIn(news, t[x])])[..|l|] == l;
      } else {
        assert l + [] == l && InBucket(t, b, i) == InBucket(t, b, i - 1);
      }
    }
  }

  lemma {:induction false} EntriesWritten(t: Table, news: seq<int>, buckets: seq<seq<int>>, b: nat)
    requires OwnersListed(t, news) && b <= |buckets| == NEW_BUCKETS
    requires forall k :: 0 <= k < NEW_BUCKETS ==> buckets[k] == BucketList(t, news, k, BUCKET_SIZE)
    ensures (forall k :: 0 <= k < |Occupied(t, b)| ==> Occupied(t, b)[k] in t)
    ensures Entries(buckets, b, |news|) == Tagged(t, news, Occupied(t, b))
  {
    hide IndexIn, BucketList, InBucket, EntriesOf;
    if b > 0 {
      EntriesWritten(t, news, buckets, b - 1);
      BucketWritten(t, news, b - 1, BUCKET_SIZE);
    }
  }

  /** The first `j` slots are filled again, each with the new id of its owner. */
  ghost predicate SlotsBack(t: Table, ids: seq<int>, r: Table, w: seq<Slot>, j: nat) {
    && j <= |w| && (forall s :: s in r <==> s in w[..j])
    && (forall s :: s in r ==> s in t && 0 <= r[s] < |ids| && ids[r[s]] == t[s])
  }

  /** The entries are as reloaded, but for their reference counts. */
  ghost predicate InfosBack(m: Infos, ids: seq<int>, info: Infos) {
    && Lists(m, ids) && (forall id :: id in info <==> 0 <= id < |ids|)
    && (forall i :: 0 <= i < |ids| ==> info[i] == Reloaded(m[ids[i]], i).(refCount := info[i].refCount))
  }

  lemma SlotsMore(t: Table, ids: seq<int>, r: Table, w: seq<Slot>, j: nat, k: int)
    requires SlotsBack(t, ids, r, w, j) && j < |w| && DistinctSlots(w) && w[j] in t && 0 <= k < |ids|
      && ids[k] == t[w[j]]
    ensures w[j] !in r && SlotsBack(t, ids, r[w[j] := k], w, j + 1)
  {
    assert w[..j + 1] == w[..j] + [w[j]];
  }

  /** The entry about to get slot `w[j]` back has not got all its slots yet. */
  lemma RoomLeft(m: Infos, t: Table, ids: seq<int>, info: Infos, r: Table, w: seq<Slot>, j: nat, k: int)
    requires SlotsBack(t, ids, r, w, j) && j < |w| && DistinctSlots(w) && w[j] in t && 0 <= k < |ids|
      && ids[k] == t[w[j]]
    requires RefsExact(m, t) && RefsExact(info, r) && InfosBack(m, ids, info)
    ensures info[k].refCount < MAX_NEW_REFS
  {
    SlotsMore(t, ids, r, w, j, k);
    var mine, full := Slots(r, k), Slots(t, ids[k]);
    assert mine <= full && w[j] in full - mine;
    Smaller(mine, full, w[j]);
  }

  lemma Smaller(a: set<Slot>, b: set<Slot>, x: Slot)
    requires a <= b && x in b && x !in a
    ensures |a| < |b|
  {
    assert a <= b - {x};
    SubsetSize(a, b - {x});
  }

  lemma {:induction false} SubsetSize(a: set<Slot>, b: set<Slot>)
    requires a <= b
    ensures |a| <= |b|
    decreases |a|
  {
    if a != {} {
      var x :| x in a;
      SubsetSize(a - {x}, b - {x});
    }
  }

  lemma OneSlotBack(e: Env, m: Infos, t: Table, ids: seq<int>, u: Tables, w: seq<Slot>, j: nat, k: int)
    requires SlotsBack(t, ids, u.newTable, w, j) && RefsExact(u.info, u.newTable) && InfosBack(m, ids, u.info)
    requires j < |w| && DistinctSlots(w) && w[j] in t && 0 <= k < |ids| && ids[k] == t[w[j]]
    requires RefsExact(m, t) && NewPlaced(e, m, t) && e.valid(m[ids[k]].addr)
    ensures k in u.info
    ensures var r := PlaceOne(e, u, (w[j].bucket, k), true);
      SlotsBack(t, ids, r.newTable, w, j + 1) && RefsExact(r.info, r.newTable) && InfosBack(m, ids, r.info)
  {
    hide RefsExact, SlotsBack, Slots, Env.NewPos, Env.NewSlot;
    SlotsMore(t, ids, u.newTable, w, j, k);
    RoomLeft(m, t, ids, u.info, u.newTable, w, j, k);
    RefsAfterPlace(u.info, u.newTable, k, w[j]);
    var id := t[w[j]];
    assert w[j] == Slot(w[j].bucket, e.NewPos(w[j].bucket, u.info[k].addr)) by { assert id in m; }
    assert PlaceOne(e, u, (w[j].bucket, k), true) == Placed(u, k, w[j]);
    var x := u.info[k].(refCount := u.info[k].refCount + 1);
    assert InfosBack(m, ids, u.info[k := x]);
  }

  lemma {:induction false} AllSlotsBack(e: Env, m: Infos, t: Table, news: seq<int>, ids: seq<int>, u: Tables,
      w: seq<Slot>, j: nat)
    requires RefsExact(m, t) && NewPlaced(e, m, t) && OwnersListed(t, news) && news <= ids && Lists(m, ids)
    requires DistinctSlots(w) && (forall k :: 0 <= k < |w| ==> w[k] in t) && j <= |w|
    requires forall i :: 0 <= i < |ids| ==> e.valid(m[ids[i]].addr)
    requires u.newTable == map[] && RefsExact(u.info, u.newTable) && InfosBack(m, ids, u.info)
    ensures forall k :: 0 <= k < |w| ==> Tagged(t, news, w)[k].1 in u.info
    ensures var r := PlaceAll(e, u, Tagged(t, news, w), j, true);
      SlotsBack(t, ids, r.newTable, w, j) && RefsExact(r.info, r.newTable) && InfosBack(m, ids, r.info)
  {
    hide RefsExact, SlotsBack, InfosBack, NewPlaced, PlaceOne, IndexIn, Tagged, DistinctSlots;
    OwnersBack(m, t, news, ids, u.info, w);
    if j == 0 {
      NoSlotsBack(t, ids, w);
    } else {
      AllSlotsBack(e, m, t, news, ids, u, w, j - 1);
      var r := PlaceAll(e, u, Tagged(t, news, w), j - 1, true);
      var k := IndexIn(news, t[w[j - 1]]);
      assert t[w[j - 1]] in news && ids[k] == t[w[j - 1]];
      OneSlotBack(e, m, t, ids, r, w, j - 1, k);
    }
  }

  lemma NoSlotsBack(t: Table, ids: seq<int>, w: seq<Slot>)
    ensures SlotsBack(t, ids, map[], w, 0)
  {}

  lemma OwnersBack(m: Infos, t: Table, news: seq<int>, ids: seq<int>, info: Infos, w: seq<Slot>)
    requires OwnersListed(t, news) && news <= ids && InfosBack(m, ids, info) && forall k :: 0 <= k < |w| ==> w[k] in t
    ensures forall k :: 0 <= k < |w| ==> Tagged(t, news, w)[k].1 in info && ids[IndexIn(news, t[w[k]])] == t[w[k]]
  {
    hide IndexIn;
    forall k | 0 <= k < |w| ensures Tagged(t, news, w)[k].1 in info && ids[IndexIn(news, t[w[k]])] == t[w[k]] {
      assert t[w[k]] in news;
    }
  }

  // ----- the loaded tables are sound -----

  /** A table under new ids: `ids[i]` is now `i`. */
  ghost predicate SameUnder(ids: seq<int>, t: Table, u: Table) {
    t.Keys == u.Keys && forall s :: s in u ==> 0 <= u[s] < |ids| && ids[u[s]] == t[s]
  }

  ghost predicate SameNames(ids: seq<int>, t: map<Service, int>, u: map<Service, int>) {
    t.Keys == u.Keys && forall a :: a in u ==> 0 <= u[a] < |ids| && ids[u[a]] == t[a]
  }

  /** The entries under new ids, listed in the order of their ids; only what is not stored is lost. */
  ghost predicate SameEntries(ids: seq<int>, m: Infos, n: Infos, random: seq<int>) {
    && Lists(m, ids) && (forall id :: id in m ==> id in ids) && |random| == |ids|
    && (forall id :: id in n <==> 0 <= id < |ids|)
    && (forall i :: 0 <= i < |ids| ==>
          random[i] == i && n[i] == m[ids[i]].(lastTry := 0, lastCountAttempt := 0, randomPos := i))
  }

  /** The tables `t` come back as `u` under new ids. */
  ghost predicate Renamed(t: Tables, u: Tables, ids: seq<int>) {
    && SameEntries(ids, t.info, u.info, u.random) && SameNames(ids, t.idOf, u.idOf)
    && SameUnder(ids, t.newTable, u.newTable) && SameUnder(ids, t.triedTable, u.triedTable)
    && u.idCount == |ids| && u.newCount == t.newCount && u.triedCount == t.triedCount && u.collisions == {}
  }

  lemma SlotsRenamed(t: Table, r: Table, ids: seq<int>, i: nat)
    requires SameUnder(ids, t, r) && i < |ids| && forall j, k :: 0 <= j < k < |ids| ==> ids[j] != ids[k]
    ensures Slots(r, i) == Slots(t, ids[i])
  {
    forall s ensures s in Slots(r, i) <==> s in Slots(t, ids[i]) {
      assert s in r <==> s in t.Keys;
    }
  }

  lemma EntriesRenamed(ids: seq<int>, m: Infos, n: Infos, random: seq<int>, t: map<Service, int>, u: map<Service, int>)
    requires SameEntries(ids, m, n, random) && SameNames(ids, t, u) && AddrsLinked(m, t) && TimesOk(m)
    ensures AddrsLinked(n, u) && RandomLinked(n, random) && TimesOk(n)
  {
    forall i | 0 <= i < |ids| ensures n[i].addr in u && u[n[i].addr] == i {
      var id := ids[i];
      assert m[id].addr in t.Keys;
    }
    forall a | a in u ensures u[a] in n && n[u[a]].addr == a {
      var id := t[a];
      assert id in m && m[id].addr == a;
    }
  }

  lemma TriedRenamed(e: Env, ids: seq<int>, m: Infos, n: Infos, random: seq<int>, t: Table, u: Table)
    requires SameEntries(ids, m, n, random) && SameUnder(ids, t, u) && TriedPlaced(e, m, t)
    ensures TriedPlaced(e, n, u)
  {
    hide Env.TriedSlot;
    forall s | s in u ensures u[s] in n && n[u[s]].inTried && s == e.TriedSlot(n[u[s]].addr) {
      var id := t[s];
      assert id in m && s == e.TriedSlot(m[id].addr);
    }
    forall i | i in n && n[i].inTried ensures e.TriedSlot(n[i].addr) in u && u[e.TriedSlot(n[i].addr)] == i {
      var id := ids[i];
      assert e.TriedSlot(m[id].addr) in t.Keys && t[e.TriedSlot(m[id].addr)] == id;
    }
  }

  lemma NewRenamed(e: Env, ids: seq<int>, m: Infos, n: Infos, random: seq<int>, t: Table, u: Table)
    requires SameEntries(ids, m, n, random) && SameUnder(ids, t, u) && NewPlaced(e, m, t) && RefsExact(m, t)
    ensures NewPlaced(e, n, u) && RefsExact(n, u)
  {
    hide Env.NewPos;
    forall s | s in u
      ensures u[s] in n && !n[u[s]].inTried && s.bucket < NEW_BUCKETS && s.pos == e.NewPos(s.bucket, n[u[s]].addr)
    {
      var id := t[s];
      assert id in m && s.pos == e.NewPos(s.bucket, m[id].addr);
    }
    forall i | i in n ensures n[i].refCount == |Slots(u, i)| <= MAX_NEW_REFS {
      SlotsRenamed(t, u, ids, i);
      var id := ids[i];
      assert id in m;
    }
  }

  /** Renamed tables are as sound as the original ones. */
  lemma RenamedSound(e: Env, t: Tables, u: Tables, ids: seq<int>)
    requires Sound(e, t) && Renamed(t, u, ids) && CountsExact(u.info, u.newCount, u.triedCount)
    ensures Sound(e, u)
  {
    hide AddrsLinked, RandomLinked, TimesOk, TriedPlaced, NewPlaced, RefsExact, CountsExact, SameNames, SameUnder;
    EntriesRenamed(ids, t.info, u.info, u.random, t.idOf, u.idOf);
    TriedRenamed(e, ids, t.info, u.info, u.random, t.triedTable, u.triedTable);
    NewRenamed(e, ids, t.info, u.info, u.random, t.newTable, u.newTable);
    forall i ensures !Orphan(u, i) {
      if i in u.info { assert !Orphan(t, ids[i]); }
    }
  }

  // ----- counting -----

  lemma {:induction false} RangeSize(s: set<int>, a: int, b: int)
    requires a <= b && forall i :: i in s <==> a <= i < b
    ensures |s| == b - a
    decreases b - a
  {
    if a == b {
      if forall y :: y !in s { assert s == {}; }
    } else {
      assert b - 1 in s;
      RangeSize(s - {b - 1}, a, b - 1);
    }
  }

  lemma {:induction false} ListSize(ids: seq<int>, s: set<int>)
    requires forall i, j :: 0 <= i < j < |ids| ==> ids[i] != ids[j]
    requires forall id :: id in s <==> id in ids
    ensures |s| == |ids|
    decreases |ids|
  {
    if ids == [] {
      if forall y :: y !in s { assert s == {}; }
    } else {
      var n := |ids| - 1;
      var before := ids[..n];
      assert ids == before + [ids[n]];
      forall id ensures id in s - {ids[n]} <==> id in before {
        if id in before { var k :| 0 <= k < |before| && before[k] == id; assert ids[k] != ids[n]; }
      }
      ListSize(before, s - {ids[n]});
    }
  }

  /** What the order of the pass gives: the new entries first, then the tried ones. */
  function IdOrder(m: Infos, order: seq<int>): seq<int>
    requires forall i :: 0 <= i < |order| ==> order[i] in m
  {
    NewOrder(m, order) + TriedOrder(m, order)
  }

  lemma {:induction false} OrdersDistinct(m: Infos, order: seq<int>)
    requires Lists(m, order)
    ensures Lists(m, NewOrder(m, order)) && Lists(m, TriedOrder(m, order))
  {
    if order != [] {
      hide Lists;
      var n := |order| - 1;
      ListPrefix(m, order, n);
      OrdersDistinct(m, order[..n]);
      ListMore(m, NewOrder(m, order[..n]), order, n);
      ListMore(m, TriedOrder(m, order[..n]), order, n);
    }
  }

  lemma ListPrefix(m: Infos, order: seq<int>, n: nat)
    requires Lists(m, order) && n <= |order|
    ensures Lists(m, order[..n])
  {}

  lemma ListMore(m: Infos, w: seq<int>, order: seq<int>, n: nat)
    requires Lists(m, order) && n < |order| && Lists(m, w) && forall k :: 0 <= k < |w| ==> w[k] in order[..n]
    ensures Lists(m, w + [order[n]]) && w + [] == w
  {
    forall k | 0 <= k < |w| ensures w[k] != order[n] {
      var j :| 0 <= j < |order[..n]| && order[..n][j] == w[k];
      assert order[j] != order[n];
    }
  }

  /** In sound tables exactly the untried entries have references. */
  lemma NewIffReferenced(e: Env, t: Tables, id: int)
    requires Sound(e, t) && id in t.info
    ensures t.info[id].refCount != 0 <==> !t.info[id].inTried
  {
    hide AddrsLinked, RandomLinked, TimesOk, TriedPlaced, CountsExact;
    assert !Orphan(t, id);
    if t.info[id].inTried { NoSlotsOutside(e, t.info, t.newTable, id); }
  }

  lemma IdOrderComplete(e: Env, t: Tables, order: seq<int>)
    requires Sound(e, t) && Enumerates(order, t.info)
    ensures var news, trieds, ids := NewOrder(t.info, order), TriedOrder(t.info, order), IdOrder(t.info, order);
      && Lists(t.info, ids) && (forall id :: id in t.info ==> id in ids)
      && (forall i :: 0 <= i < |news| ==> !t.info[news[i]].inTried)
      && |news| == t.newCount && |trieds| == t.triedCount
  {
    hide Sound, NewOrder, TriedOrder;
    var m := t.info;
    forall id | id in m ensures m[id].refCount != 0 <==> !m[id].inTried { NewIffReferenced(e, t, id); }
    OrdersDistinct(m, order);
    OrdersTogether(m, order);
    OrdersCount(m, order);
    SoundCounts(e, t);
  }

  lemma OrdersTogether(m: Infos, order: seq<int>)
    requires Enumerates(order, m) && forall id :: id in m ==> (m[id].refCount != 0 <==> !m[id].inTried)
    requires Lists(m, NewOrder(m, order)) && Lists(m, TriedOrder(m, order))
    ensures Lists(m, IdOrder(m, order)) && (forall id :: id in m ==> id in IdOrder(m, order))
    ensures forall i :: 0 <= i < |NewOrder(m, order)| ==> !m[NewOrder(m, order)[i]].inTried
  {
    hide NewOrder, TriedOrder;
    var news, trieds := NewOrder(m, order), TriedOrder(m, order);
    forall i | 0 <= i < |news| ensures !m[news[i]].inTried { var id := news[i]; assert id in m; }
    forall i, j | 0 <= i < |news| && 0 <= j < |trieds| ensures news[i] != trieds[j] { assert !m[news[i]].inTried; }
  }

  lemma OrdersCount(m: Infos, order: seq<int>)
    requires Enumerates(order, m) && forall id :: id in m ==> (m[id].refCount != 0 <==> !m[id].inTried)
    requires Lists(m, NewOrder(m, order)) && Lists(m, TriedOrder(m, order))
    ensures |NewOrder(m, order)| == |NewIds(m)| && |TriedOrder(m, order)| == |TriedIds(m)|
  {
    hide NewOrder, TriedOrder;
    forall id ensures id in NewIds(m) <==> id in NewOrder(m, order) {}
    forall id ensures id in TriedIds(m) <==> id in TriedOrder(m, order) {}
    ListSize(NewOrder(m, order), NewIds(m));
    ListSize(TriedOrder(m, order), TriedIds(m));
  }

  lemma SoundCounts(e: Env, t: Tables)
    requires Sound(e, t)
    ensures t.newCount == |NewIds(t.info)| && t.triedCount == |TriedIds(t.info)|
  {
    hide AddrsLinked, RandomLinked, TimesOk, TriedPlaced, NewPlaced, RefsExact, Orphan;
  }

  // ----- sizes -----

  lemma {:induction false} BucketSize(w: set<Slot>, b: nat, i: nat)
    requires forall s :: s in w ==> s.bucket == b && s.pos < i
    ensures |w| <= i
  {
    if i == 0 {
      if s :| s in w { assert false; }
      assert w == {};
    } else {
      BucketSize(w - {Slot(b, i - 1)}, b, i - 1);
    }
  }

  lemma {:induction false} GridSize(w: set<Slot>, n: nat)
    requires forall s :: s in w ==> s.bucket < n && s.pos < BUCKET_SIZE
    ensures |w| <= n * BUCKET_SIZE
  {
    if n == 0 {
      if s :| s in w { assert false; }
      assert w == {};
    } else {
      var last := set s | s in w && s.bucket == n - 1;
      BucketSize(last, n - 1, BUCKET_SIZE);
      GridSize(w - last, n - 1);
      assert |w| == |w - last| + |last| by { assert w == (w - last) + last; }
    }
  }

  /** Owners of different slots are no more than the slots. */
  lemma {:induction false} OwnersFit(s: set<int>, t: Table)
    requires forall id :: id in s ==> Slots(t, id) != {}
    ensures |s| <= |t.Keys|
    decreases |s|
  {
    if forall y :: y !in s { assert s == {}; } else {
      var id :| id in s;
      var mine := Slots(t, id);
      var rest := t - mine;
      forall j | j in s - {id} ensures Slots(rest, j) != {} { assert Slots(rest, j) == Slots(t, j); }
      OwnersFit(s - {id}, rest);
      assert rest.Keys == t.Keys - mine;
      var x :| x in mine;
      SubsetSize({x}, mine);
      SubsetSize(mine, t.Keys);
    }
  }

  lemma SoundShaped(e: Env, t: Tables)
    requires Sound(e, t)
    ensures Shaped(t)
  {
    hide AddrsLinked, RandomLinked, TimesOk, CountsExact, RefsExact, Orphan;
  }

  lemma SizesFit(e: Env, t: Tables)
    requires Sound(e, t)
    ensures t.newCount <= NEW_LIMIT && t.triedCount <= TRIED_LIMIT
  {
    hide AddrsLinked, RandomLinked, TimesOk, CountsExact, NewPlaced, Env.TriedSlot, Orphan;
    SoundCounts(e, t);
    SoundShaped(e, t);
    forall id | id in NewIds(t.info) ensures Slots(t.newTable, id) != {} { NewIffReferenced(e, t, id); }
    OwnersFit(NewIds(t.info), t.newTable);
    GridSize(t.newTable.Keys, NEW_BUCKETS);
    forall id | id in TriedIds(t.info) ensures Slots(t.triedTable, id) != {} {
      assert e.TriedSlot(t.info[id].addr) in Slots(t.triedTable, id);
    }
    OwnersFit(TriedIds(t.info), t.triedTable);
    GridSize(t.triedTable.Keys, TRIED_BUCKETS);
  }

  // ----- the round trip -----

  lemma SoundOwns(e: Env, t: Tables)
    requires Sound(e, t)
    ensures OwnAddrs(t.info) && OwnSlots(e, t.info) && RefsExact(t.info, t.newTable) && NewPlaced(e, t.info, t.newTable)
  {
    hide RandomLinked, TimesOk, CountsExact, RefsExact, NewPlaced, Orphan, Env.TriedSlot;
  }

  /** The entries of a written file, loaded. */
  lemma EntriesLoaded(e: Env, t: Tables, order: seq<int>, checksum: int)
    requires Sound(e, t) && Enumerates(order, t.info) && forall id :: id in t.info ==> e.valid(t.info[id].addr)
    ensures var f, ids := Written(t, order, checksum), IdOrder(t.info, order);
      var u := LoadTried(e,
        LoadNew(f.news, |f.news|).(idCount := |f.news|, newCount := |f.news|, triedCount := |f.trieds|), f.trieds,
          |f.trieds|);
      PartLoaded(e, t.info, ids, u, |ids|) && u.idCount == |ids| && u.newCount == t.newCount
        && u.triedCount == t.triedCount
  {
    hide Sound, NewOrder, TriedOrder, Back, NamesBack, TriedBack, OwnAddrs, OwnSlots, Records, LoadTried, LoadNew;
    var m, news, trieds := t.info, NewOrder(t.info, order), TriedOrder(t.info, order);
    var ids := IdOrder(m, order);
    IdOrderComplete(e, t, order);
    SoundOwns(e, t);
    NewLoaded(e, m, news, ids, |news|);
    var u1 := LoadNew(Records(m, news), |news|).(idCount := |news|, newCount := |news|, triedCount := |trieds|);
    assert PartLoaded(e, m, ids, u1, |news|);
    assert ids[|news|..] == trieds;
    TriedLoaded(e, m, trieds, ids, u1, |news|, |trieds|);
  }

  lemma OwnersAreListed(e: Env, t: Tables, order: seq<int>)
    requires Sound(e, t) && Enumerates(order, t.info)
    ensures OwnersListed(t.newTable, NewOrder(t.info, order))
  {
    hide AddrsLinked, RandomLinked, TimesOk, CountsExact, TriedPlaced, RefsExact, Env.NewPos;
    forall s | s in t.newTable ensures t.newTable[s] in NewOrder(t.info, order) {
      var id := t.newTable[s];
      assert id in t.info && !t.info[id].inTried;
      NewIffReferenced(e, t, id);
    }
  }

  /** Entries without a slot yet. */
  lemma NoRefsYet(m: Infos, ids: seq<int>, info: Infos, random: seq<int>)
    requires Back(m, ids, info, random, |ids|)
    ensures InfosBack(m, ids, info) && RefsExact(info, map[])
  {
    forall id | id in info ensures info[id].refCount == |Slots(map[], id)| <= MAX_NEW_REFS {
      assert Slots(map[], id) == {};
    }
  }

  /** The bucket entries of a written file, placed again. */
  lemma BucketsLoaded(e: Env, t: Tables, order: seq<int>, checksum: int, u: Tables)
    requires Sound(e, t) && Enumerates(order, t.info) && forall id :: id in t.info ==> e.valid(t.info[id].addr)
    requires PartLoaded(e, t.info, IdOrder(t.info, order), u, |IdOrder(t.info, order)|)
    ensures var f := Written(t, order, checksum); var entries := Entries(f.buckets, |f.buckets|, |f.news|);
      && (forall i :: 0 <= i < |entries| ==> entries[i].1 in u.info)
      && var r := PlaceAll(e, u, entries, |entries|, true);
        && SameUnder(IdOrder(t.info, order), t.newTable, r.newTable) && RefsExact(r.info, r.newTable)
        && InfosBack(t.info, IdOrder(t.info, order), r.info)
  {
    hide Sound, NewOrder, TriedOrder, Back, NamesBack, TriedBack, Records, RefsExact, NewPlaced, InfosBack, PlaceAll,
      Entries, BucketList, Lists, Occupied, Tagged, OwnersListed;
    var m, news, ids := t.info, NewOrder(t.info, order), IdOrder(t.info, order);
    var f, w := Written(t, order, checksum), Occupied(t.newTable, NEW_BUCKETS);
    IdOrderComplete(e, t, order);
    SoundOwns(e, t);
    SoundShaped(e, t);
    OwnersAreListed(e, t, order);
    EntriesWritten(t.newTable, news, f.buckets, NEW_BUCKETS);
    OccupiedAll(t.newTable, NEW_BUCKETS);
    NoRefsYet(m, ids, u.info, u.random);
    ListsValid(e, m, ids);
    AllSlotsBack(e, m, t.newTable, news, ids, u, w, |w|);
    SlotsAllBack(t.newTable, ids, PlaceAll(e, u, Tagged(t.newTable, news, w), |w|, true).newTable, w);
  }

  lemma ListsValid(e: Env, m: Infos, ids: seq<int>)
    requires Lists(m, ids) && forall id :: id in m ==> e.valid(m[id].addr)
    ensures forall i :: 0 <= i < |ids| ==> ids[i] in m && e.valid(m[ids[i]].addr)
  {
    forall i | 0 <= i < |ids| ensures ids[i] in m && e.valid(m[ids[i]].addr) { var id := ids[i]; assert id in m; }
  }

  lemma SlotsAllBack(t: Table, ids: seq<int>, r: Table, w: seq<Slot>)
    requires SlotsBack(t, ids, r, w, |w|) && forall s :: s in t ==> s in w
    ensures SameUnder(ids, t, r)
  {
    assert w[..|w|] == w;
    assert t.Keys == r.Keys;
  }

  /** Tables with every entry and slot back are the original ones under new ids. */
  lemma AllBack(e: Env, t: Tables, ids: seq<int>, u: Tables, r: Tables)
    requires Sound(e, t) && PartLoaded(e, t.info, ids, u, |ids|) && r == u.(info := r.info, newTable := r.newTable)
    requires (forall id :: id in t.info ==> id in ids) && SameUnder(ids, t.newTable, r.newTable)
      && RefsExact(r.info, r.newTable)
    requires InfosBack(t.info, ids, r.info) && u.idCount == |ids| && u.newCount == t.newCount
      && u.triedCount == t.triedCount
    ensures Renamed(t, r, ids)
  {
    hide Sound, Back, TriedBack, NamesBack, RefsExact, SameUnder, SameNames, SameEntries, InfosBack, AddrsLinked,
      TriedPlaced;
    SoundParts(e, t);
    NamesAllBack(t.info, ids, t.idOf, u.idOf);
    TriedAllBack(e, t.info, ids, t.triedTable, u.triedTable);
    EntriesAllBack(t.info, ids, t.newTable, u.info, u.random, r.info, r.newTable);
  }

  lemma EntriesAllBack(m: Infos, ids: seq<int>, t: Table, was: Infos, random: seq<int>, n: Infos, u: Table)
    requires Back(m, ids, was, random, |ids|) && InfosBack(m, ids, n) && (forall id :: id in m ==> id in ids)
    requires RefsExact(m, t) && RefsExact(n, u) && SameUnder(ids, t, u)
    ensures SameEntries(ids, m, n, random)
  {
    hide RefsExact, SameUnder;
    forall i | 0 <= i < |ids| ensures n[i].refCount == m[ids[i]].refCount { RefsSame(m, t, n, u, ids, i); }
  }

  lemma SoundParts(e: Env, t: Tables)
    requires Sound(e, t)
    ensures AddrsLinked(t.info, t.idOf) && TriedPlaced(e, t.info, t.triedTable) && RefsExact(t.info, t.newTable)
  {
    hide AddrsLinked, TriedPlaced, RefsExact, RandomLinked, TimesOk, CountsExact, NewPlaced, Orphan;
  }

  lemma RefsSame(m: Infos, t: Table, n: Infos, u: Table, ids: seq<int>, i: nat)
    requires RefsExact(m, t) && RefsExact(n, u) && SameUnder(ids, t, u) && Lists(m, ids) && i < |ids| && i in n
    ensures n[i].refCount == m[ids[i]].refCount
  {
    hide SameUnder;
    SlotsRenamed(t, u, ids, i);
  }

  lemma NamesAllBack(m: Infos, ids: seq<int>, t: map<Service, int>, u: map<Service, int>)
    requires NamesBack(m, ids, u, |ids|) && AddrsLinked(m, t) && forall id :: id in m ==> id in ids
    ensures SameNames(ids, t, u)
  {
    forall a ensures a in t <==> a in u {
      if a in t {
        var id := t[a];
        assert id in m && id in ids;
        var i :| 0 <= i < |ids| && ids[i] == id;
        assert m[ids[i]].addr in u;
      }
    }
    assert t.Keys == u.Keys;
  }

  lemma TriedAllBack(e: Env, m: Infos, ids: seq<int>, t: Table, u: Table)
    requires TriedBack(e, m, ids, u, |ids|) && TriedPlaced(e, m, t) && forall id :: id in m ==> id in ids
    ensures SameUnder(ids, t, u)
  {
    hide Env.TriedSlot;
    forall s ensures s in t <==> s in u {
      if s in t {
        var id := t[s];
        assert id in m && id in ids;
        var i :| 0 <= i < |ids| && ids[i] == id;
        assert e.TriedSlot(m[ids[i]].addr) in u;
      }
    }
    assert t.Keys == u.Keys;
    forall s | s in u ensures ids[u[s]] == t[s] {
      var id := ids[u[s]];
      assert m[id].inTried && s == e.TriedSlot(m[id].addr);
    }
  }

  lemma CountsBack(ids: seq<int>, m: Infos, n: Infos, random: seq<int>, k: nat)
    requires SameEntries(ids, m, n, random) && k <= |ids|
    requires forall i :: 0 <= i < |ids| ==> (m[ids[i]].inTried <==> i >= k)
    ensures CountsExact(n, k, |ids| - k)
  {
    forall i ensures i in NewIds(n) <==> 0 <= i < k {}
    forall i ensures i in TriedIds(n) <==> k <= i < |ids| {}
    RangeSize(NewIds(n), 0, k);
    RangeSize(TriedIds(n), k, |ids|);
  }

  lemma NewThenTried(m: Infos, news: seq<int>, trieds: seq<int>)
    requires forall i :: 0 <= i < |news| ==> news[i] in m && !m[news[i]].inTried
    requires forall i :: 0 <= i < |trieds| ==> trieds[i] in m && m[trieds[i]].inTried
    ensures forall i :: 0 <= i < |news + trieds| ==>
      (news + trieds)[i] in m && (m[(news + trieds)[i]].inTried <==> i >= |news|)
  {}

  /**
   * Writing sound tables whose addresses are all valid, and loading them under
   * the same address-group map, gives back every entry and both tables, under
   * new ids, and the result passes the consistency check.
   */
  lemma RoundTrip(e: Env, t: Tables, order: seq<int>, checksum: int, visit: Visit)
    requires Sound(e, t) && Enumerates(order, t.info) && forall id :: id in t.info ==> e.valid(t.info[id].addr)
    ensures var r := Loaded(e, Written(t, order, checksum), checksum, visit);
      r.Some? && Renamed(t, r.value, IdOrder(t.info, order)) && Consistent(e, r.value)
  {
    hide Sound, NewOrder, TriedOrder, Records, PartLoaded, RefsExact, InfosBack, PlaceAll, Entries, SameUnder,
      BucketList, LoadNew, LoadTried, Lists, SameEntries, SameNames;
    var f, ids := Written(t, order, checksum), IdOrder(t.info, order);
    IdOrderComplete(e, t, order);
    EntriesLoaded(e, t, order, checksum);
    var u := LoadTried(e,
      LoadNew(f.news, |f.news|).(idCount := |f.news|, newCount := |f.news|, triedCount := |f.trieds|), f.trieds,
        |f.trieds|);
    BucketsLoaded(e, t, order, checksum, u);
    var r := Filled(e, f, checksum);
    AllBack(e, t, ids, u, r);
    NewThenTried(t.info, NewOrder(t.info, order), TriedOrder(t.info, order));
    CountsBack(ids, t.info, r.info, r.random, |NewOrder(t.info, order)|);
    RenamedSound(e, t, r, ids);
    SizesFit(e, t);
    NothingPruned(e, r, visit);
    SoundAccepted(e, r);
  }

  lemma NothingPruned(e: Env, u: Tables, visit: Visit)
    requires Sound(e, u) && RandomLinked(u.info, u.random)
    ensures Pruned(u, visit) == u
  {
    hide Linked, RandomLinked;
    forall id ensures id !in Orphans(u) { assert !Orphan(u, id); }
    assert Orphans(u) == {};
  }

  // ----- for the loops that write and read -----

  lemma {:induction false} OrderPrefix(m: Infos, order: seq<int>, k: nat)
    requires k <= |order| && forall i :: 0 <= i < |order| ==> order[i] in m
    ensures NewOrder(m, order[..k]) <= NewOrder(m, order) && TriedOrder(m, order[..k]) <= TriedOrder(m, order)
    decreases |order|
  {
    if k == |order| { assert order[..k] == order; } else {
      var before := order[..|order| - 1];
      OrderPrefix(m, before, k);
      assert before[..k] == order[..k];
    }
  }

  lemma OrderNext(m: Infos, order: seq<int>, k: nat)
    requires k < |order| && forall i :: 0 <= i < |order| ==> order[i] in m
    ensures NewOrder(m, order[..k + 1]) == NewOrder(m, order[..k])
      + (if m[order[k]].refCount != 0 then [order[k]] else [])
    ensures TriedOrder(m, order[..k + 1]) == TriedOrder(m, order[..k])
      + (if m[order[k]].inTried then [order[k]] else [])
  {
    assert order[..k + 1][..k] == order[..k];
  }

  lemma NothingWritten(m: Infos, order: seq<int>)
    requires forall i :: 0 <= i < |order| ==> order[i] in m
    ensures NewOrder(m, order[..0]) == [] && TriedOrder(m, order[..0]) == [] && Numbered(m, order, 0, map[])
  {}

  /** The numbering of the new entries met so far. */
  ghost predicate Numbered(m: Infos, order: seq<int>, k: nat, unk: map<int, int>)
    requires k <= |order| && forall i :: 0 <= i < |order| ==> order[i] in m
  {
    var news := NewOrder(m, order[..k]);
    forall i :: 0 <= i < |news| ==> news[i] in unk && unk[news[i]] == i
  }

  lemma NumberNext(m: Infos, order: seq<int>, k: nat, unk: map<int, int>)
    requires Lists(m, order) && k < |order| && Numbered(m, order, k, unk)
    ensures Numbered(m, order, k + 1, unk[order[k] := |NewOrder(m, order[..k])|])
  {
    hide NewOrder;
    OrderNext(m, order, k);
    var news := NewOrder(m, order[..k]);
    forall i | 0 <= i < |news| ensures news[i] != order[k] {
      var j :| 0 <= j < |order[..k]| && order[..k][j] == news[i];
      assert order[j] != order[k];
    }
  }

  /** Once every entry has been met, the numbers are places in the list. */
  lemma NumbersAreIndices(m: Infos, order: seq<int>, unk: map<int, int>, id: int)
    requires Lists(m, order) && Numbered(m, order, |order|, unk) && id in NewOrder(m, order)
    ensures id in unk && unk[id] == IndexIn(NewOrder(m, order), id)
  {
    hide NewOrder, IndexIn;
    assert order[..|order|] == order;
    var k := IndexIn(NewOrder(m, order), id);
  }

  lemma ShapedPlaced(e: Env, u: Tables, entry: (nat, int), restore: bool)
    requires Shaped(u) && entry.1 in u.info && (restore ==> entry.0 < NEW_BUCKETS)
    ensures Shaped(PlaceOne(e, u, entry, restore))
  {}

  lemma {:induction false} ShapedAllPlaced(e: Env, u: Tables, entries: seq<(nat, int)>, j: nat, restore: bool)
    requires Shaped(u) && j <= |entries| && forall i :: 0 <= i < |entries| ==>
      entries[i].1 in u.info && (restore ==> entries[i].0 < NEW_BUCKETS)
    ensures Shaped(PlaceAll(e, u, entries, j, restore))
  {
    hide Shaped, PlaceOne;
    if j > 0 {
      ShapedAllPlaced(e, u, entries, j - 1, restore);
      ShapedPlaced(e, PlaceAll(e, u, entries, j - 1, restore), entries[j - 1], restore);
    }
  }

  lemma {:induction false} ShapedTried(e: Env, u: Tables, trieds: seq<Record>, k: nat)
    requires Shaped(u) && k <= |trieds|
    ensures Shaped(LoadTried(e, u, trieds, k))
  {
    if k > 0 { ShapedTried(e, u, trieds, k - 1); }
  }

  lemma {:induction false} ShapedNew(news: seq<Record>, n: nat)
    requires n <= |news|
    ensures LoadNew(news, n).newTable == map[] && LoadNew(news, n).triedTable == map[]
    ensures LoadNew(news, n).idCount == 0 && LoadNew(news, n).newCount == 0 && LoadNew(news, n).triedCount == 0
  {
    if n > 0 { ShapedNew(news, n - 1); }
  }

  /** Whatever the file says, the tables stay within the fixed-size arrays. */
  lemma FilledShaped(e: Env, f: File, checksum: int)
    ensures Shaped(Filled(e, f, checksum))
  {
    hide LoadNew, LoadTried, PlaceAll, Entries;
    var u1 := LoadNew(f.news, |f.news|).(idCount := |f.news|, newCount := |f.news|, triedCount := |f.trieds|);
    ShapedNew(f.news, |f.news|);
    LoadNewIndexed(f.news, |f.news|);
    ShapedTried(e, u1, f.trieds, |f.trieds|);
    LoadTriedIndexed(e, u1, f.trieds, |f.trieds|);
    var entries := Entries(f.buckets, |f.buckets|, |f.news|);
    ShapedAllPlaced(e, LoadTried(e, u1, f.trieds, |f.trieds|), entries, |entries|, |f.buckets| == NEW_BUCKETS
      && f.checksum == checksum);
  }
}
