/**
 * The cuckoo cache of src/cuckoocache.h on values: eight candidate slots per
 * element, displacement insertion, discardable slots and epochs.
 */
module Cuckoo {
  import opened Common
  import opened Arithmetic

  /** The 256-bit keys the node caches. */
  datatype Element = Element(key: nat)

  const TWO32: nat := 0x1_0000_0000

  /** Eight 32-bit hashes per element. */
  type Hasher = (Element, nat) -> nat

  /** Maps a 32-bit hash onto [0, size). */
  function FastRange(x: nat, size: nat): (r: nat)
    requires x < TWO32 && size > 0
    ensures r < size
  {
    ProductBelow(x, TWO32, size);
    DivBelow(x * size, TWO32, size);
    x * size / TWO32
  }

  datatype Cache = Cache(
    hasher: Hasher, table: seq<Element>, discard: seq<bool>, epoch: seq<bool>,
    counter: nat, epochSize: nat, depthLimit: nat)
  {
    function Size(): nat { |table| }

    ghost predicate Shaped() {
      Size() > 0 && |discard| == Size() && |epoch| == Size() && epochSize >= 1 && depthLimit >= 1
    }

    /** The candidate slots of an element. */
    function Locs(e: Element): (ls: seq<nat>)
      requires Size() > 0
      ensures |ls| == 8 && forall k :: 0 <= k < 8 ==> ls[k] < Size()
    {
      [Loc(e, 0), Loc(e, 1), Loc(e, 2), Loc(e, 3), Loc(e, 4), Loc(e, 5), Loc(e, 6), Loc(e, 7)]
    }

    function Loc(e: Element, k: nat): (l: nat)
      requires Size() > 0
      ensures l < Size()
    {
      FastRange(hasher(e, k) % TWO32, Size())
    }
  }

  // ----- counting over slots -----

  /** How many of the first `n` slots hold an element of the current epoch that is not discardable. */
  function LiveCount(epoch: seq<bool>, discard: seq<bool>, n: nat): nat
    requires n <= |epoch| && n <= |discard|
  {
    if n == 0 then 0 else LiveCount(epoch, discard, n - 1) + if epoch[n - 1] && !discard[n - 1] then 1 else 0
  }

  function Live(c: Cache): nat
    requires c.Shaped()
  {
    LiveCount(c.epoch, c.discard, c.Size())
  }

  lemma {:induction false} LiveAfterSet(epoch: seq<bool>, discard: seq<bool>, i: nat, ep: bool, d: bool, n: nat)
    requires i < |epoch| && i < |discard| && n <= |epoch| && n <= |discard|
    ensures LiveCount(epoch[i := ep], discard[i := d], n) ==
      LiveCount(epoch, discard, n) + if i >= n then 0
        else (if ep && !d then 1 else 0) - (if epoch[i] && !discard[i] then 1 else 0)
  {
    if n > 0 { LiveAfterSet(epoch, discard, i, ep, d, n - 1); }
  }

  /** The element of a slot that must be kept, if any. */
  function KeptAt(table: seq<Element>, discard: seq<bool>, i: nat): multiset<Element>
    requires i < |table| && i < |discard|
  {
    if discard[i] then multiset{} else multiset{table[i]}
  }

  function KeptUpTo(table: seq<Element>, discard: seq<bool>, n: nat): multiset<Element>
    requires n <= |table| && n <= |discard|
  {
    if n == 0 then multiset{} else KeptUpTo(table, discard, n - 1) + KeptAt(table, discard, n - 1)
  }

  /** The elements in slots not marked discardable. */
  function Kept(c: Cache): multiset<Element>
    requires c.Shaped()
  {
    KeptUpTo(c.table, c.discard, c.Size())
  }

  lemma {:induction false} KeptAfterSet(table: seq<Element>, discard: seq<bool>, i: nat, e: Element, n: nat)
    requires i < n <= |table| && n <= |discard|
    ensures KeptUpTo(table[i := e], discard[i := false], n) + KeptAt(table, discard, i) ==
      KeptUpTo(table, discard, n) + multiset{e}
  {
    var t, d := table[i := e], discard[i := false];
    if i == n - 1 {
      KeptFrame(table, discard, t, d, n - 1);
      Swap(KeptUpTo(table, discard, n - 1), multiset{e}, KeptAt(table, discard, i));
    } else {
      KeptAfterSet(table, discard, i, e, n - 1);
      assert KeptAt(t, d, n - 1) == KeptAt(table, discard, n - 1);
      SwapIn(KeptUpTo(t, d, n - 1), KeptUpTo(table, discard, n - 1), KeptAt(table, discard, i), multiset{e},
        KeptAt(table, discard, n - 1));
    }
  }

  lemma ContentsAfterSet(table: seq<Element>, i: nat, e: Element)
    requires i < |table|
    ensures multiset(table[i := e]) + multiset{table[i]} == multiset(table) + multiset{e}
  {}

  lemma Swap(a: multiset<Element>, x: multiset<Element>, y: multiset<Element>)
    ensures (a + x) + y == (a + y) + x
  {}

  lemma SwapIn(a: multiset<Element>, b: multiset<Element>, x: multiset<Element>, y: multiset<Element>,
      z: multiset<Element>)
    requires a + x == b + y
    ensures (a + z) + x == (b + z) + y
  {
    Swap(a, z, x);
    Swap(b, z, y);
  }

  lemma {:induction false} KeptFrame(table: seq<Element>, discard: seq<bool>, t: seq<Element>, d: seq<bool>, n: nat)
    requires n <= |table| && n <= |discard| && n <= |t| && n <= |d|
    requires forall i :: 0 <= i < n ==> t[i] == table[i] && d[i] == discard[i]
    ensures KeptUpTo(t, d, n) == KeptUpTo(table, discard, n)
  {
    if n > 0 { KeptFrame(table, discard, t, d, n - 1); }
  }

  // ----- the invariant -----

  /** Every slot to be kept holds an element that looks for itself there. */
  ghost predicate WellPlaced(c: Cache)
    requires c.Shaped()
  {
    forall i :: 0 <= i < c.Size() && !c.discard[i] ==> i in c.Locs(c.table[i])
  }

  /** Live elements of the current epoch and inserts before the next scan stay within one epoch and a sixteenth. */
  ghost predicate EpochBounded(c: Cache)
    requires c.Shaped()
  {
    Live(c) + c.counter <= c.epochSize + Max(1, c.epochSize / 16)
  }

  ghost predicate Inv(c: Cache) { c.Shaped() && WellPlaced(c) && EpochBounded(c) }

  // ----- insertion -----

  /** The first candidate from index `k` on whose slot satisfies the test, or 8. */
  function FirstDiscardable(c: Cache, locs: seq<nat>, k: nat): (r: nat)
    requires c.Shaped() && |locs| == 8 && k <= 8 && forall i :: 0 <= i < 8 ==> locs[i] < c.Size()
    ensures k <= r <= 8 && (r < 8 ==> c.discard[locs[r]])
    ensures forall i :: k <= i < r ==> !c.discard[locs[i]]
    decreases 8 - k
  {
    if k == 8 || c.discard[locs[k]] then k else FirstDiscardable(c, locs, k + 1)
  }

  function FirstHolding(c: Cache, e: Element, locs: seq<nat>, k: nat): (r: nat)
    requires c.Shaped() && |locs| == 8 && k <= 8 && forall i :: 0 <= i < 8 ==> locs[i] < c.Size()
    ensures k <= r <= 8 && (r < 8 ==> c.table[locs[r]] == e)
    ensures forall i :: k <= i < r ==> c.table[locs[i]] != e
    decreases 8 - k
  {
    if k == 8 || c.table[locs[k]] == e then k else FirstHolding(c, e, locs, k + 1)
  }

  /** The first position of `loc` among the candidates, or 8. */
  function IndexOf(locs: seq<nat>, loc: int, k: nat): (r: nat)
    requires |locs| == 8 && k <= 8
    ensures k <= r <= 8
    decreases 8 - k
  {
    if k == 8 || locs[k] == loc then k else IndexOf(locs, loc, k + 1)
  }

  /** Where the element is to be swapped in: at the candidate after the one just vacated, cyclically. */
  function NextLoc(locs: seq<nat>, lastLoc: int): (loc: nat)
    requires |locs| == 8
    ensures loc in locs
  {
    locs[(1 + IndexOf(locs, lastLoc, 0)) % 8]
  }

  lemma {:induction false} IndexFound(locs: seq<nat>, loc: int, k: nat)
    requires |locs| == 8 && k <= 8
    ensures IndexOf(locs, loc, k) < 8 ==> locs[IndexOf(locs, loc, k)] == loc
    ensures IndexOf(locs, loc, k) == 8 ==> forall i :: k <= i < 8 ==> locs[i] != loc
    decreases 8 - k
  {
    if k < 8 { IndexFound(locs, loc, k + 1); }
  }

  /** No element goes straight back to where the one before was taken from, if its candidates are different. */
  lemma NeverSwapsBack(locs: seq<nat>, lastLoc: int)
    requires |locs| == 8 && forall i, j :: 0 <= i < j < 8 ==> locs[i] != locs[j]
    ensures NextLoc(locs, lastLoc) != lastLoc
  {
    IndexFound(locs, lastLoc, 0);
  }

  /** Put an element into a slot and keep it. */
  function Put(c: Cache, loc: nat, e: Element, ep: bool): Cache
    requires c.Shaped() && loc < c.Size()
  {
    c.(table := c.table[loc := e], discard := c.discard[loc := false], epoch := c.epoch[loc := ep])
  }

  /** Mark a stored element as wanted in the current epoch. */
  function Renew(c: Cache, loc: nat): Cache
    requires c.Shaped() && loc < c.Size()
  {
    c.(discard := c.discard[loc := false], epoch := c.epoch[loc := true])
  }

  /** Where an insertion ended: which element is no longer stored, and whether it sat in a discardable slot. */
  datatype Outcome = Outcome(cache: Cache, dropped: Element, overwrote: bool)

  /** Carry element `e` of epoch flag `ep` to a free slot, displacing at most `depth` elements on the way. */
  function Carry(c: Cache, e: Element, ep: bool, lastLoc: int, depth: nat): Outcome
    requires c.Shaped()
    decreases depth
  {
    if depth == 0 then Outcome(c, e, false) else
    var locs := c.Locs(e);
    var k := FirstDiscardable(c, locs, 0);
    if k < 8 then Outcome(Put(c, locs[k], e, ep), c.table[locs[k]], true)
    else
      var loc := NextLoc(locs, lastLoc);
      Carry(Put(c, loc, e, ep), c.table[loc], c.epoch[loc], loc, depth - 1)
  }

  /** What carrying `e` promises: placement is kept, at most one live slot is added, the table trades exactly `dropped`
      for `e`, and `e` joins what is kept at the cost of a discardable slot or of the last element carried. */
  ghost predicate Carried(c: Cache, e: Element, ep: bool, r: Outcome) {
    && c.Shaped() && r.cache.Shaped() && WellPlaced(r.cache) && r.cache.Size() == c.Size()
    && r.cache == c.(table := r.cache.table, discard := r.cache.discard, epoch := r.cache.epoch)
    && Live(r.cache) <= Live(c) + B(ep)
    && multiset(r.cache.table) + multiset{r.dropped} == multiset(c.table) + multiset{e}
    && Kept(r.cache) + (if r.overwrote then multiset{} else multiset{r.dropped}) == Kept(c) + multiset{e}
    && (r.overwrote ==> DroppedFrom(c, r.dropped))
  }

  ghost predicate DroppedFrom(c: Cache, x: Element)
    requires c.Shaped()
  {
    exists loc :: 0 <= loc < c.Size() && c.discard[loc] && c.table[loc] == x
  }

  lemma {:induction false} CarryKeeps(c: Cache, e: Element, ep: bool, lastLoc: int, depth: nat)
    requires c.Shaped() && WellPlaced(c)
    ensures Carried(c, e, ep, Carry(c, e, ep, lastLoc, depth))
    decreases depth
  {
    hide WellPlaced, Carried, Put, FirstDiscardable, NextLoc, Cache.Locs;
    if depth == 0 {
      NothingCarried(c, e, ep);
    } else {
      var locs := c.Locs(e);
      var k := FirstDiscardable(c, locs, 0);
      if k < 8 {
        CarryEnds(c, locs[k], e, ep);
      } else {
        var loc := NextLoc(locs, lastLoc);
        assert loc in locs && !c.discard[loc];
        PutKeeps(c, loc, e, ep);
        CarryKeeps(Put(c, loc, e, ep), c.table[loc], c.epoch[loc], loc, depth - 1);
        CarryGoesOn(c, loc, e, ep, Carry(Put(c, loc, e, ep), c.table[loc], c.epoch[loc], loc, depth - 1));
      }
    }
  }

  lemma NothingCarried(c: Cache, e: Element, ep: bool)
    requires c.Shaped() && WellPlaced(c)
    ensures Carried(c, e, ep, Outcome(c, e, false))
  {}

  lemma CarryEnds(c: Cache, loc: nat, e: Element, ep: bool)
    requires c.Shaped() && WellPlaced(c) && loc < c.Size() && loc in c.Locs(e) && c.discard[loc]
    ensures Carried(c, e, ep, Outcome(Put(c, loc, e, ep), c.table[loc], true))
  {
    hide WellPlaced;
    PutKeeps(c, loc, e, ep);
  }

  lemma CarryGoesOn(c: Cache, loc: nat, e: Element, ep: bool, r: Outcome)
    requires c.Shaped() && WellPlaced(c) && loc < c.Size() && loc in c.Locs(e) && !c.discard[loc]
    requires Carried(Put(c, loc, e, ep), c.table[loc], c.epoch[loc], r)
    ensures Carried(c, e, ep, r)
  {
    hide WellPlaced;
    PutKeeps(c, loc, e, ep);
    var d := Put(c, loc, e, ep);
    if r.overwrote {
      var at :| 0 <= at < d.Size() && d.discard[at] && d.table[at] == r.dropped;
      assert c.discard[at] && c.table[at] == r.dropped;
    }
  }

  lemma PutKeeps(c: Cache, loc: nat, e: Element, ep: bool)
    requires c.Shaped() && WellPlaced(c) && loc < c.Size() && loc in c.Locs(e)
    ensures var d := Put(c, loc, e, ep);
      && d.Shaped() && WellPlaced(d)
      && Live(d) == Live(c) + B(ep) - B(c.epoch[loc] && !c.discard[loc])
      && Kept(d) + KeptAt(c.table, c.discard, loc) == Kept(c) + multiset{e}
      && multiset(d.table) + multiset{c.table[loc]} == multiset(c.table) + multiset{e}
  {
    hide LiveCount, KeptUpTo;
    ContentsAfterSet(c.table, loc, e);
    LiveAfterSet(c.epoch, c.discard, loc, ep, false, c.Size());
    KeptAfterSet(c.table, c.discard, loc, e, c.Size());
    var d := Put(c, loc, e, ep);
    forall x: Element ensures d.Locs(x) == c.Locs(x) {}
  }

  /** One displacement: `element` went to `loc`, none of its candidates being free. */
  datatype Link = Link(table: seq<Element>, discard: seq<bool>, element: Element, loc: nat)

  ghost predicate Forced(c: Cache, x: Link)
    requires c.Shaped()
  {
    && |x.table| == |x.discard| == c.Size() && x.loc in c.Locs(x.element)
    && forall l :: l in c.Locs(x.element) ==> !x.discard[l]
  }

  /** The displacements lead from `e` in the first table to `last` in the table `end`, with flags `flags`. */
  ghost predicate Chained(c: Cache, e: Element, chain: seq<Link>, end: seq<Element>, flags: seq<bool>, last: Element)
    requires c.Shaped()
    decreases |chain|
  {
    if chain == [] then end == c.table && flags == c.discard && last == e else
    var x := chain[|chain| - 1];
    && Forced(c, x) && Chained(c, e, chain[..|chain| - 1], x.table, x.discard, x.element)
    && last == x.table[x.loc] && end == x.table[x.loc := x.element] && flags == x.discard[x.loc := false]
  }

  /**
   * Every displacement on the way is forced, and an element is dropped without
   * having been in a discardable slot only after as many of them as allowed;
   * before that, the last element displaced takes a discardable slot.
   */
  lemma {:induction false} DropsLate(c: Cache, e: Element, ep: bool, lastLoc: int, depth: nat)
    returns (chain: seq<Link>, end: seq<Element>, flags: seq<bool>, last: Element)
    requires c.Shaped()
    ensures Chained(c, e, chain, end, flags, last) && |end| == |flags| == c.Size()
    ensures var r := Carry(c, e, ep, lastLoc, depth);
      && |r.cache.table| == c.Size() && (r.overwrote <==> |chain| < depth) && |chain| <= depth
      && (!r.overwrote ==> r.cache.table == end && r.dropped == last)
      && (r.overwrote ==> exists l :: l in c.Locs(last) && flags[l] && r.dropped == end[l]
                                      && r.cache.table == end[l := last])
    decreases depth
  {
    hide FirstDiscardable, NextLoc, Cache.Locs, Chained, Forced;
    if depth == 0 {
      chain, end, flags, last := [], c.table, c.discard, e;
      NothingChained(c, e);
    } else {
      var locs := c.Locs(e);
      var k := FirstDiscardable(c, locs, 0);
      if k < 8 {
        chain, end, flags, last := [], c.table, c.discard, e;
        NothingChained(c, e);
        assert locs[k] in c.Locs(last) && flags[locs[k]];
      } else {
        var loc := NextLoc(locs, lastLoc);
        var d := Put(c, loc, e, ep);
        chain, end, flags, last := DropsLate(d, c.table[loc], c.epoch[loc], loc, depth - 1);
        var x := Link(c.table, c.discard, e, loc);
        assert Forced(c, x) by { AllTaken(c, e, x); }
        ChainedBefore(c, x, ep, chain, end, flags, last);
        SameLocs(c, d, last);
        chain := [x] + chain;
      }
    }
  }

  lemma NothingChained(c: Cache, e: Element)
    requires c.Shaped()
    ensures Chained(c, e, [], c.table, c.discard, e)
  {}

  lemma AllTaken(c: Cache, e: Element, x: Link)
    requires c.Shaped() && FirstDiscardable(c, c.Locs(e), 0) == 8 && x.loc in c.Locs(e)
    requires x.table == c.table && x.discard == c.discard && x.element == e
    ensures Forced(c, x)
  {}

  lemma SameLocs(c: Cache, d: Cache, e: Element)
    requires c.Shaped() && d.Size() == c.Size() && d.hasher == c.hasher
    ensures d.Locs(e) == c.Locs(e)
  {}

  lemma {:induction false} ChainedBefore(c: Cache, x: Link, ep: bool, chain: seq<Link>, end: seq<Element>,
      flags: seq<bool>, last: Element)
    requires c.Shaped() && Forced(c, x) && x.table == c.table && x.discard == c.discard && x.loc < c.Size()
    requires Chained(Put(c, x.loc, x.element, ep), c.table[x.loc], chain, end, flags, last)
    ensures Chained(c, x.element, [x] + chain, end, flags, last)
    decreases |chain|
  {
    hide Cache.Locs;
    var d, whole := Put(c, x.loc, x.element, ep), [x] + chain;
    if chain == [] {
      assert whole[..0] == [] && whole[0] == x;
    } else {
      var n := |chain| - 1;
      var y := chain[n];
      ChainedBefore(c, x, ep, chain[..n], y.table, y.discard, y.element);
      assert whole[..n + 1] == [x] + chain[..n] && whole[n + 1] == y;
      SameLocs(c, d, y.element);
    }
  }

  // ----- epochs -----

  /** End the current epoch: older elements become discardable, current ones become old. */
  function TurnedOver(c: Cache): Cache
    requires c.Shaped()
  {
    c.(epoch := seq(c.Size(), _ => false),
       discard := seq(c.Size(), i requires 0 <= i < c.Size() => c.discard[i] || !c.epoch[i]),
       counter := c.epochSize)
  }

  /** The check before every insert: count down, and scan when the count runs out. */
  function EpochChecked(c: Cache): Cache
    requires c.Shaped()
  {
    if c.counter != 0 then c.(counter := c.counter - 1)
    else if Live(c) >= c.epochSize then TurnedOver(c)
    else c.(counter := Max(1, Max(c.epochSize / 16, c.epochSize - Live(c))))
  }

  lemma {:induction false} NoneLive(epoch: seq<bool>, discard: seq<bool>, n: nat)
    requires n <= |epoch| && n <= |discard| && forall i :: 0 <= i < n ==> !epoch[i]
    ensures LiveCount(epoch, discard, n) == 0
  {
    if n > 0 { NoneLive(epoch, discard, n - 1); }
  }

  /** After the check there is room for one more live element. A scan is followed by the next one no earlier than the
      epoch can be full, and no earlier than a sixteenth of it later. */
  lemma EpochCheckMakesRoom(c: Cache)
    requires Inv(c)
    ensures var d := EpochChecked(c);
      && d.Shaped() && WellPlaced(d) && d.table == c.table && d.hasher == c.hasher && d.epochSize == c.epochSize
      && Live(d) + 1 + d.counter <= d.epochSize + Max(1, d.epochSize / 16)
      && (c.counter > 0 ==> d == c.(counter := c.counter - 1))
      && (c.counter == 0 ==> d.counter >= Max(1, d.epochSize / 16) && Live(d) + d.counter >= d.epochSize)
  {
    var d := EpochChecked(c);
    forall x: Element ensures d.Locs(x) == c.Locs(x) {}
    if c.counter == 0 && Live(c) >= c.epochSize { NoneLive(d.epoch, d.discard, d.Size()); }
  }

  // ----- operations -----

  const INVALID: int := TWO32 - 1

  function Insert(c: Cache, e: Element): (r: Cache)
    requires Inv(c)
    ensures Inv(r) && r.Size() == c.Size() && r.epochSize == c.epochSize && r.hasher == c.hasher
  {
    hide EpochChecked, Inv, FirstHolding, Carry;
    InvShaped(c);
    EpochCheckMakesRoom(c);
    var d := EpochChecked(c);
    var k := FirstHolding(d, e, d.Locs(e), 0);
    if k < 8 then
      RenewKeeps(d, d.Locs(e)[k], e);
      Renew(d, d.Locs(e)[k])
    else
      CarryKeeps(d, e, true, INVALID, d.depthLimit);
      CarriedInv(d, e, Carry(d, e, true, INVALID, d.depthLimit));
      Carry(d, e, true, INVALID, d.depthLimit).cache
  }

  lemma InvShaped(c: Cache)
    requires Inv(c)
    ensures c.Shaped()
  {}

  /** There is room for one more live element before the bound is reached. */
  ghost predicate HasRoom(c: Cache)
    requires c.Shaped()
  {
    Live(c) + 1 + c.counter <= c.epochSize + Max(1, c.epochSize / 16)
  }

  lemma RenewKeeps(c: Cache, loc: nat, e: Element)
    requires c.Shaped() && WellPlaced(c) && HasRoom(c) && loc < c.Size() && loc in c.Locs(e) && c.table[loc] == e
    ensures Inv(Renew(c, loc))
  {
    hide LiveCount;
    LiveAfterSet(c.epoch, c.discard, loc, true, false, c.Size());
    var d := Renew(c, loc);
    forall x: Element ensures d.Locs(x) == c.Locs(x) {}
  }

  lemma CarriedInv(c: Cache, e: Element, r: Outcome)
    requires c.Shaped() && HasRoom(c) && Carried(c, e, true, r)
    ensures Inv(r.cache) && r.cache.Size() == c.Size() && r.cache.epochSize == c.epochSize && r.cache.hasher == c.hasher
  {
    hide WellPlaced, Live, Kept;
  }

  /** Whether the element is stored, and the cache after letting go of it if `erase`. */
  function Contains(c: Cache, e: Element, erase: bool): (r: (Cache, bool))
    requires Inv(c)
    ensures Inv(r.0) && r.0.table == c.table && r.0 == c.(discard := r.0.discard)
    ensures r.1 <==> exists loc :: loc in c.Locs(e) && c.table[loc] == e
    ensures !(erase && r.1) ==> r.0 == c
    ensures erase && r.1 ==>
      exists loc :: loc in c.Locs(e) && c.table[loc] == e && r.0.discard == c.discard[loc := true]
  {
    var k := FirstHolding(c, e, c.Locs(e), 0);
    if k == 8 then (c, false)
    else if !erase then (c, true)
    else
      EraseKeeps(c, c.Locs(e)[k]);
      (c.(discard := c.discard[c.Locs(e)[k] := true]), true)
  }

  lemma EraseKeeps(c: Cache, loc: nat)
    requires Inv(c) && loc < c.Size()
    ensures Inv(c.(discard := c.discard[loc := true]))
  {
    LiveAfterSet(c.epoch, c.discard, loc, c.epoch[loc], true, c.Size());
    var d := c.(discard := c.discard[loc := true]);
    assert c.epoch[loc := c.epoch[loc]] == c.epoch;
    forall x: Element ensures d.Locs(x) == c.Locs(x) {}
  }

  // ----- what callers rely on -----

  lemma {:induction false} KeptSomewhere(table: seq<Element>, discard: seq<bool>, n: nat, e: Element) returns (i: nat)
    requires n <= |table| && n <= |discard| && e in KeptUpTo(table, discard, n)
    ensures i < n && !discard[i] && table[i] == e
  {
    if e in KeptAt(table, discard, n - 1) { i := n - 1; } else { i := KeptSomewhere(table, discard, n - 1, e); }
  }

  /** Every kept element is found. */
  lemma KeptIsFound(c: Cache, e: Element)
    requires Inv(c) && e in Kept(c)
    ensures Contains(c, e, false).1 && Contains(c, e, true).1
  {
    var i := KeptSomewhere(c.table, c.discard, c.Size(), e);
    assert i in c.Locs(e);
    var k :| 0 <= k < 8 && c.Locs(e)[k] == i;
  }

  /** Erasing an element does not stop it from being found until its slot is reused. */
  lemma FoundAfterErase(c: Cache, e: Element)
    requires Inv(c)
    ensures Contains(c, e, true).1 ==> Contains(Contains(c, e, true).0, e, false).1
  {
    var d := Contains(c, e, true).0;
    assert d.Locs(e) == c.Locs(e);
    SameHolding(c, d, e, c.Locs(e), 0);
  }

  lemma {:induction false} SameHolding(c: Cache, d: Cache, e: Element, locs: seq<nat>, k: nat)
    requires c.Shaped() && d.Shaped() && d.table == c.table
    requires |locs| == 8 && k <= 8 && forall i :: 0 <= i < 8 ==> locs[i] < c.Size()
    ensures FirstHolding(d, e, locs, k) == FirstHolding(c, e, locs, k)
    decreases 8 - k
  {
    if k < 8 { SameHolding(c, d, e, locs, k + 1); }
  }

  /** An insert keeps everything the epoch check left to keep, plus the element, unless it ran out of depth and lost
      the one element it was carrying last; of the whole contents, discardable or not, exactly one element goes. */
  lemma InsertConserves(c: Cache, e: Element)
    requires Inv(c)
    ensures var d := EpochChecked(c);
      d.Shaped() && (FirstHolding(d, e, d.Locs(e), 0) < 8 ==>
        Insert(c, e).table == c.table && e in Kept(Insert(c, e)) && Kept(d) <= Kept(Insert(c, e)))
    ensures var d := EpochChecked(c);
      FirstHolding(d, e, d.Locs(e), 0) == 8 ==>
        var r := Carry(d, e, true, INVALID, d.depthLimit);
        && Insert(c, e) == r.cache && Carried(d, e, true, r)
        && multiset(Insert(c, e).table) + multiset{r.dropped} == multiset(c.table) + multiset{e}
  {
    hide FirstHolding, Carry, Live, Kept;
    EpochCheckMakesRoom(c);
    var d := EpochChecked(c);
    var k := FirstHolding(d, e, d.Locs(e), 0);
    if k < 8 {
      RenewConserves(d, d.Locs(e)[k]);
    } else {
      CarryKeeps(d, e, true, INVALID, d.depthLimit);
    }
  }

  lemma RenewConserves(c: Cache, loc: nat)
    requires c.Shaped() && loc < c.Size()
    ensures c.table[loc] in Kept(Renew(c, loc)) && Kept(c) <= Kept(Renew(c, loc))
  {
    hide KeptUpTo;
    KeptAfterSet(c.table, c.discard, loc, c.table[loc], c.Size());
    assert c.table[loc := c.table[loc]] == c.table;
    var d := Renew(c, loc);
    if c.discard[loc] {
      assert Kept(d) + multiset{} == Kept(d);
      assert Kept(d) == Kept(c) + multiset{c.table[loc]};
    } else {
      assert c.discard[loc := false] == c.discard;
      KeptMember(c.table, c.discard, c.Size(), loc);
    }
  }

  lemma {:induction false} KeptMember(table: seq<Element>, discard: seq<bool>, n: nat, i: nat)
    requires i < n <= |table| && n <= |discard| && !discard[i]
    ensures table[i] in KeptUpTo(table, discard, n)
  {
    if i < n - 1 { KeptMember(table, discard, n - 1, i); }
  }

  // ----- what ageing spares -----

  /** The element of a slot that belongs to the current epoch and must be kept, if any. */
  function CurrentAt(table: seq<Element>, epoch: seq<bool>, discard: seq<bool>, i: nat): multiset<Element>
    requires i < |table| && i < |epoch| && i < |discard|
  {
    if epoch[i] && !discard[i] then multiset{table[i]} else multiset{}
  }

  function CurrentUpTo(table: seq<Element>, epoch: seq<bool>, discard: seq<bool>, n: nat): multiset<Element>
    requires n <= |table| && n <= |epoch| && n <= |discard|
  {
    if n == 0 then multiset{}
    else CurrentUpTo(table, epoch, discard, n - 1) + CurrentAt(table, epoch, discard, n - 1)
  }

  /** The elements of the current epoch that are not discardable. */
  function Current(c: Cache): multiset<Element>
    requires c.Shaped()
  {
    CurrentUpTo(c.table, c.epoch, c.discard, c.Size())
  }

  lemma {:induction false} CurrentIsKept(table: seq<Element>, epoch: seq<bool>, discard: seq<bool>, n: nat)
    requires n <= |table| && n <= |epoch| && n <= |discard|
    ensures CurrentUpTo(table, epoch, discard, n) <= KeptUpTo(table, discard, n)
    ensures |CurrentUpTo(table, epoch, discard, n)| == LiveCount(epoch, discard, n)
  {
    hide CurrentAt, KeptAt;
    if n > 0 {
      CurrentIsKept(table, epoch, discard, n - 1);
      CurrentAtIsKept(table, epoch, discard, n - 1);
    }
  }

  lemma CurrentAtIsKept(table: seq<Element>, epoch: seq<bool>, discard: seq<bool>, i: nat)
    requires i < |table| && i < |epoch| && i < |discard|
    ensures CurrentAt(table, epoch, discard, i) <= KeptAt(table, discard, i)
    ensures |CurrentAt(table, epoch, discard, i)| == if epoch[i] && !discard[i] then 1 else 0
  {}

  lemma {:induction false} CurrentFrame(table: seq<Element>, epoch: seq<bool>, discard: seq<bool>,
      t: seq<Element>, ep: seq<bool>, d: seq<bool>, n: nat)
    requires n <= |table| && n <= |epoch| && n <= |discard| && n <= |t| && n <= |ep| && n <= |d|
    requires forall i :: 0 <= i < n ==> t[i] == table[i] && ep[i] == epoch[i] && d[i] == discard[i]
    ensures CurrentUpTo(t, ep, d, n) == CurrentUpTo(table, epoch, discard, n)
  {
    if n > 0 { CurrentFrame(table, epoch, discard, t, ep, d, n - 1); }
  }

  function If(p: bool, e: Element): multiset<Element> { if p then multiset{e} else multiset{} }

  lemma CurrentAtSet(table: seq<Element>, epoch: seq<bool>, discard: seq<bool>, i: nat, e: Element, b: bool, j: nat)
    requires i < |table| && i < |epoch| && i < |discard| && j < |table| && j < |epoch| && j < |discard|
    ensures CurrentAt(table[i := e], epoch[i := b], discard[i := false], j) ==
      if j == i then If(b, e) else CurrentAt(table, epoch, discard, j)
  {}

  lemma {:induction false} CurrentAfterSet(table: seq<Element>, epoch: seq<bool>, discard: seq<bool>, i: nat,
      e: Element, b: bool, n: nat)
    requires i < n <= |table| && n <= |epoch| && n <= |discard|
    ensures CurrentUpTo(table[i := e], epoch[i := b], discard[i := false], n) + CurrentAt(table, epoch, discard, i) ==
      CurrentUpTo(table, epoch, discard, n) + If(b, e)
  {
    hide CurrentAt, If;
    var t, ep, d := table[i := e], epoch[i := b], discard[i := false];
    var was, now := CurrentAt(table, epoch, discard, i), If(b, e);
    CurrentAtSet(table, epoch, discard, i, e, b, n - 1);
    if i == n - 1 {
      CurrentFrame(table, epoch, discard, t, ep, d, n - 1);
      Swap(CurrentUpTo(table, epoch, discard, n - 1), now, was);
    } else {
      CurrentAfterSet(table, epoch, discard, i, e, b, n - 1);
      var last := CurrentAt(table, epoch, discard, n - 1);
      SwapIn(CurrentUpTo(t, ep, d, n - 1), CurrentUpTo(table, epoch, discard, n - 1), was, now, last);
    }
  }

  /** Carrying an element keeps what is current, and it, but for the one dropped. */
  lemma {:induction false} CarryKeepsCurrent(c: Cache, e: Element, ep: bool, lastLoc: int, depth: nat)
    requires c.Shaped()
    ensures var r := Carry(c, e, ep, lastLoc, depth);
      && r.cache.Shaped() && Current(r.cache) <= Current(c) + If(ep, e)
      && Current(c) + If(ep, e) <= Current(r.cache) + If(!r.overwrote, r.dropped)
    decreases depth
  {
    hide CurrentUpTo, FirstDiscardable, NextLoc, Cache.Locs;
    if depth > 0 {
      var locs := c.Locs(e);
      var k := FirstDiscardable(c, locs, 0);
      var loc := if k < 8 then locs[k] else NextLoc(locs, lastLoc);
      CurrentAfterSet(c.table, c.epoch, c.discard, loc, e, ep, c.Size());
      var d := Put(c, loc, e, ep);
      if k < 8 {
        NoneSwapped(Current(d), Current(c) + If(ep, e));
      } else {
        assert loc in locs && !c.discard[loc];
        var x, b := c.table[loc], c.epoch[loc];
        CarryKeepsCurrent(d, x, b, loc, depth - 1);
      }
    }
  }

  lemma NoneSwapped(a: multiset<Element>, b: multiset<Element>)
    requires a + multiset{} == b
    ensures a == b
  {
    assert a + multiset{} == a;
  }

  /** Whether the check before an insert ends the epoch. */
  predicate EpochEnds(c: Cache)
    requires c.Shaped()
  {
    c.counter == 0 && Live(c) >= c.epochSize
  }

  lemma {:induction false} TurnedOverKeeps(table: seq<Element>, epoch: seq<bool>, discard: seq<bool>, d: seq<bool>,
      n: nat)
    requires n <= |table| && n <= |epoch| && n <= |discard| && n <= |d|
    requires forall i :: 0 <= i < n ==> d[i] == (discard[i] || !epoch[i])
    ensures KeptUpTo(table, d, n) == CurrentUpTo(table, epoch, discard, n)
  {
    if n > 0 { TurnedOverKeeps(table, epoch, discard, d, n - 1); }
  }

  lemma {:induction false} NoneCurrent(table: seq<Element>, epoch: seq<bool>, discard: seq<bool>, n: nat)
    requires n <= |table| && n <= |epoch| && n <= |discard| && forall i :: 0 <= i < n ==> !epoch[i]
    ensures CurrentUpTo(table, epoch, discard, n) == multiset{}
  {
    if n > 0 { NoneCurrent(table, epoch, discard, n - 1); }
  }

  /** What the check before an insert leaves to keep: everything, or the current epoch when that ends and
      becomes old. */
  lemma EpochCheckSpares(c: Cache)
    requires c.Shaped()
    ensures var d := EpochChecked(c);
      && d.Shaped() && d.table == c.table && d.depthLimit == c.depthLimit
      && Kept(d) == (if EpochEnds(c) then Current(c) else Kept(c))
      && Current(d) == (if EpochEnds(c) then multiset{} else Current(c))
  {
    hide KeptUpTo, CurrentUpTo, LiveCount;
    var d := EpochChecked(c);
    if EpochEnds(c) {
      TurnedOverKeeps(c.table, c.epoch, c.discard, d.discard, c.Size());
      NoneCurrent(d.table, d.epoch, d.discard, d.Size());
    }
  }

  /** What an insert starts from: all that is to be kept, or the current epoch if that ends with the insert. */
  function Spared(c: Cache): multiset<Element>
    requires c.Shaped()
  {
    if EpochEnds(c) then Current(c) else Kept(c)
  }

  function StillCurrent(c: Cache): multiset<Element>
    requires c.Shaped()
  {
    if EpochEnds(c) then multiset{} else Current(c)
  }

  /** Elements of the current epoch are always spared, and nothing is lost to age before the epoch is full and over. */
  lemma CurrentSpared(c: Cache)
    requires c.Shaped()
    ensures Current(c) <= Spared(c) <= Kept(c) && |Current(c)| == Live(c)
    ensures Spared(c) != Kept(c) ==> c.counter == 0 && Live(c) >= c.epochSize
  {
    hide KeptUpTo, CurrentUpTo, LiveCount;
    CurrentIsKept(c.table, c.epoch, c.discard, c.Size());
  }

  /** An element already stored is kept and of the current epoch after an insert, and nothing that was spared goes. */
  lemma InsertStoredSpares(c: Cache, e: Element)
    requires Inv(c) && Contains(c, e, false).1
    ensures var r := Insert(c, e);
      && r.table == c.table && e in Current(r) && Spared(c) <= Kept(r) <= Spared(c) + multiset{e}
      && StillCurrent(c) <= Current(r) <= StillCurrent(c) + multiset{e}
  {
    hide Kept, Current, Live, EpochEnds, EpochChecked;
    EpochCheckMakesRoom(c);
    EpochCheckSpares(c);
    var d := EpochChecked(c);
    assert d.Locs(e) == c.Locs(e);
    SameHolding(c, d, e, c.Locs(e), 0);
    var k := FirstHolding(d, e, d.Locs(e), 0);
    RenewSpares(d, d.Locs(e)[k]);
  }

  lemma RenewSpares(c: Cache, loc: nat)
    requires c.Shaped() && loc < c.Size()
    ensures var r, x := Renew(c, loc), c.table[loc];
      && r.Shaped() && x in Current(r) && Kept(c) <= Kept(r) <= Kept(c) + multiset{x}
      && Current(c) <= Current(r) <= Current(c) + multiset{x}
  {
    hide KeptUpTo, CurrentUpTo;
    var x, r := c.table[loc], Renew(c, loc);
    assert c.table[loc := x] == c.table;
    KeptAfterSet(c.table, c.discard, loc, x, c.Size());
    CurrentAfterSet(c.table, c.epoch, c.discard, loc, x, true, c.Size());
    Within(Kept(r), KeptAt(c.table, c.discard, loc), Kept(c), x);
    Within(Current(r), CurrentAt(c.table, c.epoch, c.discard, loc), Current(c), x);
    CurrentMember(r.table, r.epoch, r.discard, r.Size(), loc);
  }

  lemma Within(a: multiset<Element>, part: multiset<Element>, b: multiset<Element>, x: Element)
    requires a + part == b + multiset{x} && (part == multiset{} || part == multiset{x})
    ensures b <= a <= b + multiset{x}
  {
    if part == multiset{} {
      assert a + multiset{} == a;
    } else {
      assert (a + multiset{x}) - multiset{x} == a && (b + multiset{x}) - multiset{x} == b;
    }
  }

  lemma {:induction false} CurrentMember(table: seq<Element>, epoch: seq<bool>, discard: seq<bool>, n: nat, i: nat)
    requires i < n <= |table| && n <= |epoch| && n <= |discard| && epoch[i] && !discard[i]
    ensures table[i] in CurrentUpTo(table, epoch, discard, n)
  {
    if i < n - 1 { CurrentMember(table, epoch, discard, n - 1, i); }
  }

  /**
   * Otherwise the element joins what is spared, and what is current, but for
   * the one element that the displacement chain drops if it runs out of depth.
   */
  lemma InsertNewSpares(c: Cache, e: Element)
    requires Inv(c) && !Contains(c, e, false).1
    ensures EpochChecked(c).Shaped()
    ensures var r, x := Insert(c, e), Carry(EpochChecked(c), e, true, INVALID, c.depthLimit);
      && Spared(c) + multiset{e} == Kept(r) + If(!x.overwrote, x.dropped)
      && Current(r) <= StillCurrent(c) + multiset{e} <= Current(r) + If(!x.overwrote, x.dropped)
  {
    hide Kept, Current, Live, EpochEnds, EpochChecked, Carry;
    EpochCheckMakesRoom(c);
    EpochCheckSpares(c);
    var d := EpochChecked(c);
    assert d.Locs(e) == c.Locs(e) && d.depthLimit == c.depthLimit;
    SameHolding(c, d, e, c.Locs(e), 0);
    CarryKeeps(d, e, true, INVALID, d.depthLimit);
    CarryKeepsCurrent(d, e, true, INVALID, d.depthLimit);
  }

  // ----- runs -----

  /** A fresh cache; `depthLimit` stands for the binary logarithm of the size, at least 1. */
  function Setup(hasher: Hasher, newSize: nat, depthLimit: nat, blank: Element): (c: Cache)
    requires newSize < TWO32 && depthLimit >= 1
    ensures Inv(c) && c.Size() == Max(2, newSize)
  {
    var size := Max(2, newSize);
    var epochSize := Max(1, (45 * size) % TWO32 / 100);
    var c := Cache(hasher, seq(size, _ => blank), seq(size, _ => true), seq(size, _ => false), epochSize, epochSize,
      depthLimit);
    NoneLive(c.epoch, c.discard, size);
    c
  }

  datatype Op = Add(e: Element) | Lookup(e: Element, erase: bool)

  /** Any sequence of inserts, lookups and erasures. */
  function Run(c: Cache, ops: seq<Op>): (r: Cache)
    requires Inv(c)
    ensures Inv(r) && r.epochSize == c.epochSize
  {
    hide Inv, Insert, Contains;
    if ops == [] then c else
    var d := Run(c, ops[..|ops| - 1]);
    match ops[|ops| - 1]
    case Add(e) => Insert(d, e)
    case Lookup(e, erase) => Contains(d, e, erase).0
  }

  /** In every run, live current-epoch slots plus the countdown stay within an epoch and a sixteenth, and every kept
      element is found. */
  lemma RunsStayBounded(hasher: Hasher, size: nat, depthLimit: nat, blank: Element, ops: seq<Op>, e: Element)
    requires size < TWO32 && depthLimit >= 1
    ensures var c := Run(Setup(hasher, size, depthLimit, blank), ops);
      && c.Shaped() && Live(c) + c.counter <= c.epochSize + Max(1, c.epochSize / 16)
      && (e in Kept(c) ==> Contains(c, e, false).1)
  {
    hide Run, Setup, Contains, Kept;
    var c := Run(Setup(hasher, size, depthLimit, blank), ops);
    if e in Kept(c) { KeptIsFound(c, e); }
  }
}
