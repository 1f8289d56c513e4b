/**
 * One level of the coins cache (src/coins.h, src/coins.cpp) as a map of
 * flagged entries over the unspent outputs of the view below it: what the
 * level shows, when its flags are right, and what each operation does to it.
 */
module Coins {
  import opened Common

  datatype OutPoint = OutPoint(hash: nat, n: nat)
  type Script = seq<bv8>

  datatype Coin = Coin(value: int, script: Script, height: nat, coinBase: bool)
  {
    predicate IsSpent() { value == -1 }

    /** Heap memory of the script; short scripts are stored inline. */
    function DynamicUsage(): nat { if |script| <= 28 then 0 else |script| }
  }

  /** A cleared coin. */
  const SPENT := Coin(-1, [], 0, false)

  datatype Entry = Entry(coin: Coin, isDirty: bool, isFresh: bool)

  type Entries = map<OutPoint, Entry>
  type Utxos = map<OutPoint, Coin>

  /** Every coin in a view is unspent. */
  ghost predicate AllUnspent(u: Utxos) { forall o :: o in u ==> !u[o].IsSpent() }

  /** The five states an entry may be in. */
  predicate LegalState(e: Entry) {
    if e.coin.IsSpent() then e.isFresh != e.isDirty && e.coin == SPENT else e.isFresh ==> e.isDirty
  }

  /** An entry's flags tell the truth about the view below. */
  ghost predicate EntryOk(o: OutPoint, e: Entry, base: Utxos) {
    && LegalState(e)
    && (e.isFresh ==> o !in base)
    && (!e.isDirty && !e.coin.IsSpent() ==> o in base && base[o] == e.coin)
  }

  ghost predicate CacheOk(c: Entries, base: Utxos) {
    AllUnspent(base) && forall o :: o in c ==> EntryOk(o, c[o], base)
  }

  /** The unspent outputs a cache shows: its own entries first, the view below for the rest. */
  function View(c: Entries, base: Utxos): Utxos {
    map o | o in base.Keys + c.Keys && (o in c ==> !c[o].coin.IsSpent()) :: if o in c then c[o].coin else base[o]
  }

  /** A cache with no entries is right about any view and shows it as it is. */
  lemma EmptyCache(base: Utxos)
    requires AllUnspent(base)
    ensures CacheOk(map[], base) && View(map[], base) == base
  {}

  lemma ViewUnspent(c: Entries, base: Utxos)
    requires CacheOk(c, base)
    ensures AllUnspent(View(c, base))
  {}

  // ----- reading -----

  /** The entries after looking `o` up: an unspent coin found below is kept. */
  function Fetched(c: Entries, base: Utxos, o: OutPoint): Entries {
    if o in c || o !in base then c else c[o := Entry(base[o], false, base[o].IsSpent())]
  }

  lemma FetchKeepsView(c: Entries, base: Utxos, o: OutPoint)
    requires CacheOk(c, base)
    ensures CacheOk(Fetched(c, base, o), base) && View(Fetched(c, base, o), base) == View(c, base)
    ensures o in View(c, base) <==> o in Fetched(c, base, o) && !Fetched(c, base, o)[o].coin.IsSpent()
    ensures o in View(c, base) ==> View(c, base)[o] == Fetched(c, base, o)[o].coin
    ensures o in Fetched(c, base, o) <==> o in c || o in View(c, base)
    ensures o in Fetched(c, base, o) ==> o in c || Fetched(c, base, o)[o] == Entry(base[o], false, false)
  {}

  /** Dropping an unflagged entry. */
  function Uncached(c: Entries, o: OutPoint): Entries {
    if o in c && !c[o].isDirty && !c[o].isFresh then c - {o} else c
  }

  lemma UncacheKeepsView(c: Entries, base: Utxos, o: OutPoint)
    requires CacheOk(c, base)
    ensures CacheOk(Uncached(c, o), base) && View(Uncached(c, o), base) == View(c, base)
  {}

  // ----- adding and spending -----

  predicate AddThrows(c: Entries, o: OutPoint, overwrite: bool) {
    !overwrite && o in c && !c[o].coin.IsSpent()
  }

  function Added(c: Entries, o: OutPoint, coin: Coin, overwrite: bool): Entries {
    var was := if o in c then c[o] else Entry(SPENT, false, false);
    c[o := Entry(coin, true, was.isFresh || (!overwrite && !was.isDirty))]
  }

  /** A coin is added without `overwrite` although only the view below, not this cache, has it unspent. */
  predicate HiddenBelow(c: Entries, base: Utxos, o: OutPoint, overwrite: bool) { !overwrite && o !in c && o in base }

  lemma AddSetsCoin(c: Entries, base: Utxos, o: OutPoint, coin: Coin, overwrite: bool)
    requires CacheOk(c, base) && !coin.IsSpent() && !AddThrows(c, o, overwrite)
    ensures View(Added(c, o, coin, overwrite), base) == View(c, base)[o := coin]
    ensures CacheOk(Added(c, o, coin, overwrite), base) <==> !HiddenBelow(c, base, o, overwrite)
  {
    var d := Added(c, o, coin, overwrite);
    if HiddenBelow(c, base, o, overwrite) {
      assert d[o].isFresh && !EntryOk(o, d[o], base);
    } else {
      forall p | p in d ensures EntryOk(p, d[p], base) {
        if p == o && p in c { assert EntryOk(o, c[o], base); }
      }
    }
  }

  /** Spending a fetched entry: forgotten when the view below never had it, else kept as a spent mark. */
  function SpentEntry(c: Entries, o: OutPoint): Entries
    requires o in c
  {
    if c[o].isFresh then c - {o} else c[o := Entry(SPENT, true, c[o].isFresh)]
  }

  lemma SpendRemovesCoin(c: Entries, base: Utxos, o: OutPoint)
    requires CacheOk(c, base) && o in c
    ensures CacheOk(SpentEntry(c, o), base) && View(SpentEntry(c, o), base) == View(c, base) - {o}
  {
    assert EntryOk(o, c[o], base);
  }

  /** What was added can be spent again, unless the view below hid the coin: then that one comes back. */
  lemma SpendAdded(c: Entries, base: Utxos, o: OutPoint, coin: Coin, overwrite: bool)
    requires CacheOk(c, base) && !coin.IsSpent() && !AddThrows(c, o, overwrite)
    ensures var after := SpentEntry(Added(c, o, coin, overwrite), o);
      && (View(after, base) == View(c, base) - {o} <==> !HiddenBelow(c, base, o, overwrite))
      && (HiddenBelow(c, base, o, overwrite) ==> View(after, base) == View(c, base))
  {
    hide CacheOk, AllUnspent, LegalState;
    var d := Added(c, o, coin, overwrite);
    AddSetsCoin(c, base, o, coin, overwrite);
    if HiddenBelow(c, base, o, overwrite) {
      assert SpentEntry(d, o) == c;
      assert o in View(c, base);
    } else {
      SpendRemovesCoin(d, base, o);
      assert View(d, base) - {o} == View(c, base) - {o};
    }
  }

  /** An empty cache above one coin: adding and spending there leaves the coin unspent. */
  lemma HiddenCoinComesBack(o: OutPoint, below: Coin, coin: Coin)
    requires !below.IsSpent() && !coin.IsSpent()
    ensures var base := map[o := below];
      && CacheOk(map[], base) && HiddenBelow(map[], base, o, false) && !AddThrows(map[], o, false)
      && View(SpentEntry(Added(map[], o, coin, false), o), base) == base
  {
    var base := map[o := below];
    EmptyCache(base);
    SpendAdded(map[], base, o, coin, false);
  }

  // ----- writing a cache to the one below -----

  function At(c: Entries, o: OutPoint): Option<Entry> { if o in c then Some(c[o]) else None }

  /** A child entry that would land on an unspent parent entry although the child calls it fresh. */
  predicate FreshMisapplied(parent: Option<Entry>, child: Entry) {
    child.isDirty && parent.Some? && child.isFresh && !parent.value.coin.IsSpent()
  }

  /** What becomes of the parent's entry when the child's is written to it. */
  function MergedEntry(parent: Option<Entry>, child: Entry): Option<Entry> {
    if !child.isDirty then parent
    else if parent.None? then
      if child.isFresh && child.coin.IsSpent() then None else Some(Entry(child.coin, true, child.isFresh))
    else if parent.value.isFresh && child.coin.IsSpent() then None
    else Some(Entry(child.coin, true, parent.value.isFresh))
  }

  /** `merged` is `parent` with exactly the entries `done` of `child` written to it. */
  ghost predicate MergedOn(parent: Entries, child: Entries, done: set<OutPoint>, merged: Entries) {
    forall o :: At(merged, o) == if o in done && o in child then MergedEntry(At(parent, o), child[o]) else At(parent, o)
  }

  function Shown(u: Utxos, o: OutPoint): Option<Coin> { if o in u then Some(u[o]) else None }

  function EntryShows(e: Option<Entry>, base: Utxos, o: OutPoint): Option<Coin> {
    if e.None? then Shown(base, o) else if e.value.coin.IsSpent() then None else Some(e.value.coin)
  }

  lemma ViewAt(c: Entries, base: Utxos, o: OutPoint)
    ensures Shown(View(c, base), o) == EntryShows(At(c, o), base, o)
  {}

  /** Writing one entry keeps the parent's flags right and makes it show what the child shows. */
  lemma MergeOneEntry(o: OutPoint, parent: Option<Entry>, child: Entry, base: Utxos)
    requires AllUnspent(base) && LegalState(child) && (parent.Some? ==> EntryOk(o, parent.value, base))
    requires var below := EntryShows(parent, base, o);
      (child.isFresh ==> below == None) && (!child.isDirty && !child.coin.IsSpent() ==> below == Some(child.coin))
    ensures !FreshMisapplied(parent, child)
    ensures var m := MergedEntry(parent, child);
      && (m.Some? ==> EntryOk(o, m.value, base))
      && EntryShows(m, base, o) == EntryShows(Some(child), base, o)
  {}

  lemma FlushAt(parent: Entries, child: Entries, base: Utxos, merged: Entries, o: OutPoint)
    requires CacheOk(parent, base) && CacheOk(child, View(parent, base))
    requires MergedOn(parent, child, child.Keys, merged)
    ensures o in child ==> !FreshMisapplied(At(parent, o), child[o])
    ensures o in merged ==> EntryOk(o, merged[o], base)
    ensures Shown(View(merged, base), o) == Shown(View(child, View(parent, base)), o)
  {
    hide View, FreshMisapplied, MergedEntry;
    ViewAt(parent, base, o);
    ViewAt(merged, base, o);
    ViewAt(child, View(parent, base), o);
    if o in child {
      assert EntryOk(o, child[o], View(parent, base));
      MergeOneEntry(o, At(parent, o), child[o], base);
    } else {
      assert At(merged, o) == At(parent, o);
    }
  }

  lemma SameView(u: Utxos, v: Utxos)
    requires forall o :: Shown(u, o) == Shown(v, o)
    ensures u == v
  {
    forall o ensures o in u <==> o in v { assert Shown(u, o) == Shown(v, o); }
    forall o | o in u ensures u[o] == v[o] { assert Shown(u, o) == Shown(v, o); }
  }

  /** Flushing a cache into its parent never misapplies FRESH, keeps what is shown, and leaves the parent's
      flags right. */
  lemma FlushKeepsView(parent: Entries, child: Entries, base: Utxos, merged: Entries)
    requires CacheOk(parent, base) && CacheOk(child, View(parent, base))
    requires MergedOn(parent, child, child.Keys, merged)
    ensures forall o :: o in child ==> !FreshMisapplied(At(parent, o), child[o])
    ensures CacheOk(merged, base)
    ensures View(merged, base) == View(child, View(parent, base))
  {
    hide View, EntryOk, FreshMisapplied, MergedOn, Shown;
    forall o
      ensures o in child ==> !FreshMisapplied(At(parent, o), child[o])
      ensures o in merged ==> EntryOk(o, merged[o], base)
      ensures Shown(View(merged, base), o) == Shown(View(child, View(parent, base)), o)
    {
      FlushAt(parent, child, base, merged, o);
    }
    SameView(View(merged, base), View(child, View(parent, base)));
  }

  /**
   * What FRESH is for: a coin that a stack creates and spends before it gets
   * to the view below leaves no entry behind, whether it is spent in the cache
   * that created it, or in a cache above after one flush or two.
   */
  lemma CreatedAndSpentVanishes(parent: Entries, child: Entries, o: OutPoint, coin: Coin)
    requires o !in parent && o !in child && !coin.IsSpent()
    ensures var made := Added(child, o, coin, false);
      && o !in SpentEntry(made, o)
      && var flushed := MergedEntry(At(parent, o), made[o]);
         && flushed.Some? && o !in SpentEntry(parent[o := flushed.value], o)
         && var above := Fetched(map[], map[o := coin], o);
            o in above && MergedEntry(flushed, SpentEntry(above, o)[o]) == None
  {}

  /** A coin the view below has is kept as a spent mark until it is written there, in whichever cache it is spent. */
  lemma SpentMarkKept(parent: Entries, base: Utxos, o: OutPoint)
    requires CacheOk(parent, base) && o in base && o !in parent
    ensures var above := Fetched(map[], base, o);
      && o in above && SpentEntry(above, o)[o] == Entry(SPENT, true, false)
      && MergedEntry(At(parent, o), SpentEntry(above, o)[o]) == Some(Entry(SPENT, true, false))
  {}

  // ----- writing a cache to the database -----

  /** The database applies dirty entries and ignores the rest. */
  function Written(db: Utxos, c: Entries): Utxos {
    map o | o in db.Keys + c.Keys && (if o in c && c[o].isDirty then !c[o].coin.IsSpent() else o in db) ::
      if o in c && c[o].isDirty then c[o].coin else db[o]
  }

  /** `u` is `db` with exactly the entries `done` written to it. */
  ghost predicate WrittenOn(db: Utxos, c: Entries, done: set<OutPoint>, u: Utxos) {
    forall o :: Shown(u, o) ==
      if o in done && o in c && c[o].isDirty then EntryShows(Some(c[o]), db, o) else Shown(db, o)
  }

  lemma WrittenNone(db: Utxos, c: Entries)
    ensures WrittenOn(db, c, {}, db)
  {}

  lemma WriteOne(db: Utxos, c: Entries, done: set<OutPoint>, u: Utxos, o: OutPoint)
    requires WrittenOn(db, c, done, u) && o in c
    ensures WrittenOn(db, c, done + {o},
                      if !c[o].isDirty then u else if c[o].coin.IsSpent() then u - {o} else u[o := c[o].coin])
  {
    var v := if !c[o].isDirty then u else if c[o].coin.IsSpent() then u - {o} else u[o := c[o].coin];
    forall p ensures Shown(v, p) ==
      if p in done + {o} && p in c && c[p].isDirty then EntryShows(Some(c[p]), db, p) else Shown(db, p)
    {
      assert p != o ==> Shown(v, p) == Shown(u, p);
    }
  }

  lemma WrittenAll(db: Utxos, c: Entries, u: Utxos)
    requires WrittenOn(db, c, c.Keys, u)
    ensures u == Written(db, c)
  {
    forall o ensures Shown(u, o) == Shown(Written(db, c), o) {}
    SameView(u, Written(db, c));
  }

  lemma FlushToDatabase(c: Entries, db: Utxos)
    requires CacheOk(c, db)
    ensures Written(db, c) == View(c, db) && AllUnspent(Written(db, c))
  {
    forall o | o in c ensures EntryOk(o, c[o], db) {}
  }

  // ----- memory accounting -----

  /** Script memory over all entries. */
  ghost function TotalUsage(c: Entries): nat
    decreases |c|
  {
    if c == map[] then 0 else
    var o :| o in c;
    c[o].coin.DynamicUsage() + TotalUsage(c - {o})
  }

  lemma {:induction false} UsageWithout(c: Entries, o: OutPoint)
    requires o in c
    ensures TotalUsage(c) == c[o].coin.DynamicUsage() + TotalUsage(c - {o})
    decreases |c|
  {
    var p :| p in c && TotalUsage(c) == c[p].coin.DynamicUsage() + TotalUsage(c - {p});
    if p != o {
      UsageWithout(c - {p}, o);
      UsageWithout(c - {o}, p);
      assert c - {p} - {o} == c - {o} - {p};
    }
  }

  lemma UsageAfterUpdate(c: Entries, o: OutPoint, e: Entry)
    ensures TotalUsage(c[o := e]) == TotalUsage(c - {o}) + e.coin.DynamicUsage()
    ensures o !in c ==> c - {o} == c
  {
    UsageWithout(c[o := e], o);
    assert c[o := e] - {o} == c - {o};
    if o !in c { assert c - {o} == c; }
  }
}
