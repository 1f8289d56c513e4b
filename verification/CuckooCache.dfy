/**
 * The cache object of src/cuckoocache.h: its methods update the table and the
 * flags in place and end in the cache that the functions on values describe.
 */
module CuckooCache {
  import opened Common
  import opened Cuckoo

  class ElementCache {
    const hasher: Hasher
    const epochSize: nat
    const depthLimit: nat
    var table: seq<Element>
    var discard: seq<bool>
    var epoch: seq<bool>
    var counter: nat

    function Snapshot(): Cache
      reads this
    {
      Cache(hasher, table, discard, epoch, counter, epochSize, depthLimit)
    }

    constructor (hasher: Hasher, newSize: nat, depthLimit: nat, blank: Element)
      requires newSize < TWO32 && depthLimit >= 1
      ensures Snapshot() == Setup(hasher, newSize, depthLimit, blank)
    {
      var size := Max(2, newSize);
      this.hasher, this.depthLimit := hasher, depthLimit;
      table, discard, epoch := seq(size, _ => blank), seq(size, _ => true), seq(size, _ => false);
      epochSize := Max(1, (45 * size) % TWO32 / 100);
      counter := Max(1, (45 * size) % TWO32 / 100);
    }

    method EpochCheck()
      requires Snapshot().Shaped()
      modifies this`discard, this`epoch, this`counter
      ensures Snapshot() == EpochChecked(old(Snapshot()))
    {
      if counter != 0 {
        counter := counter - 1;
        return;
      }
      var unused := 0;
      for i := 0 to |table|
        invariant unused == LiveCount(epoch, discard, i)
      {
        unused := unused + if epoch[i] && !discard[i] then 1 else 0;
      }
      if unused >= epochSize {
        for i := 0 to |table|
          invariant |epoch| == |discard| == |table|
          invariant forall j :: i <= j < |table| ==> epoch[j] == old(epoch)[j] && discard[j] == old(discard)[j]
          invariant forall j :: 0 <= j < i ==> !epoch[j] && discard[j] == (old(discard)[j] || !old(epoch)[j])
        {
          if epoch[i] {
            epoch := epoch[i := false];
          } else {
            discard := discard[i := true];
          }
        }
        counter := epochSize;
      } else {
        counter := Max(1, Max(epochSize / 16, epochSize - unused));
      }
    }

    method Insert(x: Element)
      requires Inv(Snapshot())
      modifies this`table, this`discard, this`epoch, this`counter
      ensures Snapshot() == Cuckoo.Insert(old(Snapshot()), x)
    {
      hide EpochChecked, Cache.Locs, WellPlaced, Live, FirstHolding, Carry;
      EpochCheckMakesRoom(Snapshot());
      EpochCheck();
      var locs := Snapshot().Locs(x);
      var k := Holding(locs, x);
      if k < 8 {
        discard := discard[locs[k] := false];
        epoch := epoch[locs[k] := true];
        return;
      }
      Displace(x);
    }

    /** Carry the element, and then each element displaced by the one before, to a slot that may be overwritten. */
    method Displace(x: Element)
      requires Snapshot().Shaped()
      modifies this`table, this`discard, this`epoch
      ensures Snapshot() == Carry(old(Snapshot()), x, true, INVALID, depthLimit).cache
    {
      hide Cache.Locs, FirstDiscardable, IndexOf;
      var e, lastLoc, lastEpoch := x, INVALID, true;
      var locs := Snapshot().Locs(e);
      var depth := 0;
      while depth < depthLimit
        invariant 0 <= depth <= depthLimit && Snapshot().Shaped() && locs == Snapshot().Locs(e)
        invariant Carry(old(Snapshot()), x, true, INVALID, depthLimit) ==
          Carry(Snapshot(), e, lastEpoch, lastLoc, depthLimit - depth)
      {
        var free := Discardable(locs);
        if free < 8 {
          table := table[locs[free] := e];
          discard := discard[locs[free] := false];
          epoch := epoch[locs[free] := lastEpoch];
          return;
        }
        var j := PositionOf(locs, lastLoc);
        ghost var before := Snapshot();
        lastLoc := locs[(1 + j) % 8];
        assert discard[lastLoc := false] == discard;
        var displaced := table[lastLoc];
        table := table[lastLoc := e];
        var ep := lastEpoch;
        lastEpoch := epoch[lastLoc];
        epoch := epoch[lastLoc := ep];
        assert Snapshot() == Put(before, lastLoc, e, ep);
        e := displaced;
        locs := Snapshot().Locs(e);
        depth := depth + 1;
      }
    }

    method Contains(x: Element, erase: bool) returns (found: bool)
      requires Inv(Snapshot())
      modifies this`discard
      ensures (Snapshot(), found) == Cuckoo.Contains(old(Snapshot()), x, erase)
    {
      hide Cache.Locs, WellPlaced, Live;
      var locs := Snapshot().Locs(x);
      var k := Holding(locs, x);
      if k == 8 { return false; }
      if erase { discard := discard[locs[k] := true]; }
      return true;
    }

    /** The first candidate slot that holds the element, or 8. */
    method Holding(locs: seq<nat>, x: Element) returns (k: nat)
      requires Snapshot().Shaped() && |locs| == 8 && forall i :: 0 <= i < 8 ==> locs[i] < |table|
      ensures k == FirstHolding(Snapshot(), x, locs, 0)
    {
      k := 0;
      while k < 8 && table[locs[k]] != x
        invariant k <= 8 && FirstHolding(Snapshot(), x, locs, 0) == FirstHolding(Snapshot(), x, locs, k)
        decreases 8 - k
      {
        k := k + 1;
      }
    }

    /** The first candidate slot that may be overwritten, or 8. */
    method Discardable(locs: seq<nat>) returns (k: nat)
      requires Snapshot().Shaped() && |locs| == 8 && forall i :: 0 <= i < 8 ==> locs[i] < |table|
      ensures k == FirstDiscardable(Snapshot(), locs, 0)
    {
      k := 0;
      while k < 8 && !discard[locs[k]]
        invariant k <= 8 && FirstDiscardable(Snapshot(), locs, 0) == FirstDiscardable(Snapshot(), locs, k)
        decreases 8 - k
      {
        k := k + 1;
      }
    }

    method PositionOf(locs: seq<nat>, loc: int) returns (k: nat)
      requires |locs| == 8
      ensures k == IndexOf(locs, loc, 0)
    {
      k := 0;
      while k < 8 && locs[k] != loc
        invariant k <= 8 && IndexOf(locs, loc, 0) == IndexOf(locs, loc, k)
        decreases 8 - k
      {
        k := k + 1;
      }
    }
  }
}
