/**
 * The stack of coin views of src/coins.cpp: any number of write-back caches
 * over a database. Whatever the depth, a cache behaves like a plain map from
 * outpoints to unspent coins, which flushing hands down unchanged.
 */
module CoinsView {
  import opened Coins

  /** The database at the bottom; it holds unspent coins only. */
  class CoinsDatabase {
    var coins: Utxos
    var best: nat

    constructor ()
      ensures coins == map[] && best == 0
    {
      coins, best := map[], 0;
    }

    method BatchWrite(c: Entries, hashBlock: nat)
      requires hashBlock != 0
      modifies this
      ensures coins == Written(old(coins), c) && best == hashBlock
    {
      hide WrittenOn;
      WrittenNone(coins, c);
      var todo := c.Keys;
      assert c.Keys - todo == {};
      while todo != {}
        invariant todo <= c.Keys
        invariant WrittenOn(old(coins), c, c.Keys - todo, coins)
      {
        var o :| o in todo;
        WriteOne(old(coins), c, c.Keys - todo, coins, o);
        if c[o].isDirty {
          coins := if c[o].coin.IsSpent() then coins - {o} else coins[o := c[o].coin];
        }
        assert c.Keys - (todo - {o}) == (c.Keys - todo) + {o};
        todo := todo - {o};
      }
      assert c.Keys - todo == c.Keys;
      WrittenAll(old(coins), c, coins);
      best := hashBlock;
    }
  }

  /** Outputs that can never be spent are not tracked. */
  predicate IsUnspendable(s: Script) { (|s| > 0 && s[0] == 0x6a) || |s| > 10000 }

  class CoinsViewCache {
    const db: CoinsDatabase
    const base: CoinsViewCache?
    ghost const depth: nat
    ghost const repr: set<object>

    var entries: Entries
    var usage: int
    var hashBlock: nat

    /** The caches below form a chain down to the database. */
    ghost predicate Stacked()
      decreases depth
    {
      && this in repr && db in repr
      && (base != null ==>
            base.db == db && this !in base.repr && base.repr <= repr && base.depth < depth && base.Stacked())
    }

    /** The unspent outputs of the view below. */
    ghost function BaseUtxo(): Utxos
      requires Stacked()
      reads repr
      decreases depth, 0
    {
      if base == null then db.coins else base.Utxo()
    }

    /** The unspent outputs this view shows. */
    ghost function Utxo(): Utxos
      requires Stacked()
      reads repr
      decreases depth, 1
    {
      View(entries, BaseUtxo())
    }

    /** Flags are right at every level and script memory is accounted for. */
    ghost predicate Valid()
      reads repr
      decreases depth
    {
      && Stacked() && CacheOk(entries, BaseUtxo()) && usage == TotalUsage(entries)
      && (base != null ==> base.Valid())
    }

    constructor OnDatabase(db: CoinsDatabase)
      requires AllUnspent(db.coins)
      ensures Valid() && Utxo() == db.coins && this.db == db && base == null && fresh(repr - {db})
    {
      this.db, base, depth, repr := db, null, 0, {this, db};
      entries, usage, hashBlock := map[], 0, 0;
      new;
      EmptyCache(db.coins);
    }

    constructor OnCache(base: CoinsViewCache)
      requires base.Valid()
      ensures Valid() && Utxo() == base.Utxo() && this.base == base && fresh(repr - base.repr)
    {
      this.db, this.base, depth, repr := base.db, base, base.depth + 1, {this} + base.repr;
      entries, usage, hashBlock := map[], 0, 0;
      new;
      ViewUnspent(base.entries, base.BaseUtxo());
      EmptyCache(base.Utxo());
    }

    /** Look `o` up, keeping what is found below in this cache. */
    method FetchCoin(o: OutPoint)
      requires Valid()
      modifies repr
      ensures Valid() && db.coins == old(db.coins) && hashBlock == old(hashBlock)
      ensures Utxo() == old(Utxo()) && BaseUtxo() == old(BaseUtxo())
      ensures entries == Fetched(old(entries), old(BaseUtxo()), o)
      decreases depth, 0
    {
      hide View, CacheOk, AllUnspent, TotalUsage, LegalState;
      FetchKeepsView(entries, BaseUtxo(), o);
      if o in entries { return; }
      var tmp, found := SPENT, false;
      if base == null {
        found := o in db.coins;
        if found { tmp := db.coins[o]; }
      } else {
        tmp, found := base.GetCoin(o);
      }
      if !found { return; }
      UsageAfterUpdate(entries, o, Entry(tmp, false, tmp.IsSpent()));
      entries := entries[o := Entry(tmp, false, tmp.IsSpent())];
      usage := usage + tmp.DynamicUsage();
    }

    method GetCoin(o: OutPoint) returns (coin: Coin, found: bool)
      requires Valid()
      modifies repr
      ensures Valid() && db.coins == old(db.coins) && hashBlock == old(hashBlock)
      ensures Utxo() == old(Utxo()) && BaseUtxo() == old(BaseUtxo())
      ensures found <==> o in Utxo()
      ensures found ==> coin == Utxo()[o]
      decreases depth, 1
    {
      hide View, CacheOk, TotalUsage;
      FetchKeepsView(entries, BaseUtxo(), o);
      FetchCoin(o);
      coin := SPENT;
      if o in entries { coin := entries[o].coin; }
      found := !coin.IsSpent();
    }

    method HaveCoin(o: OutPoint) returns (have: bool)
      requires Valid()
      modifies repr
      ensures Valid() && db.coins == old(db.coins)
      ensures Utxo() == old(Utxo()) && BaseUtxo() == old(BaseUtxo())
      ensures have <==> o in Utxo()
    {
      hide View, CacheOk, TotalUsage;
      FetchKeepsView(entries, BaseUtxo(), o);
      FetchCoin(o);
      have := o in entries && !entries[o].coin.IsSpent();
    }

    /** Returns whether the call throws; a throw leaves the entries alone but not the accounting. */
    method AddCoin(o: OutPoint, coin: Coin, overwrite: bool) returns (threw: bool)
      requires Valid() && !coin.IsSpent()
      requires !IsUnspendable(coin.script) ==> !HiddenBelow(entries, BaseUtxo(), o, overwrite)
      modifies this`entries, this`usage
      ensures threw <==> !IsUnspendable(coin.script) && AddThrows(old(entries), o, overwrite)
      ensures threw ==> entries == old(entries) && usage == old(usage) - old(entries)[o].coin.DynamicUsage()
      ensures !threw ==> Valid() && BaseUtxo() == old(BaseUtxo())
      ensures !threw ==> Utxo() == if IsUnspendable(coin.script) then old(Utxo()) else old(Utxo())[o := coin]
    {
      hide View, CacheOk, AllUnspent, TotalUsage, LegalState;
      if IsUnspendable(coin.script) { return false; }
      ghost var was := entries;
      var e := if o in entries then entries[o] else Entry(SPENT, false, false);
      if o in entries { usage := usage - e.coin.DynamicUsage(); }
      var isFresh := false;
      if !overwrite {
        if !e.coin.IsSpent() { return true; }
        isFresh := !e.isDirty;
      }
      AddSetsCoin(entries, BaseUtxo(), o, coin, overwrite);
      if o in entries { UsageWithout(entries, o); }
      UsageAfterUpdate(entries, o, Entry(coin, true, e.isFresh || isFresh));
      entries := entries[o := Entry(coin, true, e.isFresh || isFresh)];
      usage := usage + coin.DynamicUsage();
      return false;
    }

    /** Spend a coin. The result also reports a cached mark of an earlier spend, with nothing left to spend. */
    method SpendCoin(o: OutPoint) returns (ok: bool, moved: Coin)
      requires Valid()
      modifies repr
      ensures Valid() && db.coins == old(db.coins) && BaseUtxo() == old(BaseUtxo())
      ensures Utxo() == old(Utxo()) - {o}
      ensures ok <==> o in old(Utxo()) || o in old(entries)
      ensures o in old(Utxo()) ==> moved == old(Utxo())[o]
      ensures ok && o !in old(Utxo()) ==> moved.IsSpent()
    {
      hide View, CacheOk, AllUnspent, TotalUsage, LegalState;
      FetchKeepsView(entries, BaseUtxo(), o);
      FetchCoin(o);
      if o !in entries { return false, SPENT; }
      SpendRemovesCoin(entries, BaseUtxo(), o);
      UsageWithout(entries, o);
      UsageAfterUpdate(entries, o, Entry(SPENT, true, false));
      usage := usage - entries[o].coin.DynamicUsage();
      moved := entries[o].coin;
      if entries[o].isFresh {
        entries := entries - {o};
      } else {
        entries := entries[o := Entry(SPENT, true, entries[o].isFresh)];
      }
      return true, moved;
    }

    method Uncache(o: OutPoint)
      requires Valid()
      modifies this`entries, this`usage
      ensures Valid() && Utxo() == old(Utxo()) && BaseUtxo() == old(BaseUtxo())
      ensures entries == Uncached(old(entries), o)
    {
      hide View, CacheOk, AllUnspent, TotalUsage, LegalState;
      UncacheKeepsView(entries, BaseUtxo(), o);
      if o in entries && !entries[o].isDirty && !entries[o].isFresh {
        UsageWithout(entries, o);
        usage := usage - entries[o].coin.DynamicUsage();
        entries := entries - {o};
      }
    }

    /** Write a child's entries into this cache. Returns whether the call throws. */
    method BatchWrite(child: Entries, hash: nat) returns (threw: bool)
      requires usage == TotalUsage(entries)
      modifies this`entries, this`usage, this`hashBlock
      ensures threw <==> exists o :: o in child && FreshMisapplied(At(old(entries), o), child[o])
      ensures !threw ==> MergedOn(old(entries), child, child.Keys, entries)
      ensures !threw ==> usage == TotalUsage(entries) && hashBlock == hash
    {
      var todo := child.Keys;
      while todo != {}
        invariant todo <= child.Keys
        invariant MergedOn(old(entries), child, child.Keys - todo, entries)
        invariant forall o :: o in child && o !in todo ==> !FreshMisapplied(At(old(entries), o), child[o])
        invariant usage == TotalUsage(entries)
      {
        var o :| o in todo;
        var e := child[o];
        todo := todo - {o};
        assert At(entries, o) == At(old(entries), o);
        if e.isDirty {
          if o !in entries {
            if !(e.isFresh && e.coin.IsSpent()) {
              UsageAfterUpdate(entries, o, Entry(e.coin, true, e.isFresh));
              entries := entries[o := Entry(e.coin, true, e.isFresh)];
              usage := usage + e.coin.DynamicUsage();
            }
          } else {
            var us := entries[o];
            if e.isFresh && !us.coin.IsSpent() { return true; }
            UsageWithout(entries, o);
            usage := usage - us.coin.DynamicUsage();
            if us.isFresh && e.coin.IsSpent() {
              entries := entries - {o};
            } else {
              UsageAfterUpdate(entries, o, Entry(e.coin, true, us.isFresh));
              entries := entries[o := Entry(e.coin, true, us.isFresh)];
              usage := usage + e.coin.DynamicUsage();
            }
          }
        }
      }
      hashBlock := hash;
      return false;
    }

    /** Hand all changes down to the view below. */
    method Flush() returns (threw: bool)
      requires Valid()
      requires base == null ==> hashBlock != 0
      modifies repr
      ensures !threw && Valid() && entries == map[]
      ensures Utxo() == old(Utxo()) && BaseUtxo() == old(Utxo())
      ensures hashBlock == old(hashBlock)
      ensures base != null ==> db.coins == old(db.coins) && db.best == old(db.best) && base.hashBlock == hashBlock
      ensures base == null ==> db.best == hashBlock
    {
      hide View, CacheOk, AllUnspent, MergedOn, FreshMisapplied;
      ghost var shown := Utxo();
      ViewUnspent(entries, BaseUtxo());
      EmptyCache(shown);
      threw := false;
      if base == null {
        FlushToDatabase(entries, db.coins);
        db.BatchWrite(entries, hashBlock);
      } else {
        ghost var parent := base.entries;
        ghost var below := base.BaseUtxo();
        assert base.Valid() && BaseUtxo() == View(parent, below);
        NeverMisapplied(parent, entries, below);
        threw := base.BatchWrite(entries, hashBlock);
        assert base.BaseUtxo() == below && (base.base != null ==> base.base.Valid());
        FlushKeepsView(parent, entries, below, base.entries);
      }
      assert BaseUtxo() == shown;
      entries := map[];
      usage := 0;
      assert BaseUtxo() == shown && (base != null ==> base.Valid());
    }
  }

  /** With right flags on both levels, no entry of the child misapplies FRESH. */
  lemma NeverMisapplied(parent: Entries, child: Entries, base: Utxos)
    requires CacheOk(parent, base) && CacheOk(child, View(parent, base))
    ensures forall o :: o in child ==> !FreshMisapplied(At(parent, o), child[o])
  {
    forall o | o in child ensures !FreshMisapplied(At(parent, o), child[o]) {
      ViewAt(parent, base, o);
      assert EntryOk(o, child[o], View(parent, base));
    }
  }
}
