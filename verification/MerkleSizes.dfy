/**
 * How large partial Merkle trees get. src/merkleblock.h documents bounds on
 * the hashes, the flag bits and the serialized size; which of them hold, and
 * exactly when, is stated in terms of where in the block the matches are.
 */
module MerkleSizes {
  import opened Arithmetic
  import opened PartialMerkle

  // ----- the right edge of the tree -----

  /** The last node at a height has the last node below as its last child. */
  lemma LastChild(n: nat, h: nat)
    requires n > 0 && h > 0
    ensures Width(n, h) >= 1
    ensures Width(n, h - 1) == 2 * Width(n, h) || Width(n, h - 1) == 2 * Width(n, h) - 1
  {
    hide Width;
    NodeIffFirstLeaf(n, h, 0);
    FirstIsShift(h, 0);
    var w := Width(n, h);
    Children(n, h, w - 1);
    NodeIffFirstLeaf(n, h, w);
    NodeIffFirstLeaf(n, h - 1, 2 * w);
  }

  /** The leaves under the last node reach to the end. */
  lemma LastEnds(n: nat, h: nat)
    requires n > 0
    ensures Width(n, h) >= 1 && End(n, h, Width(n, h) - 1) == n
  {
    hide Width, First;
    NodeIffFirstLeaf(n, h, 0);
    FirstIsShift(h, 0);
    NodeIffFirstLeaf(n, h, Width(n, h));
  }

  /** A node that is not the last has all its descendants, so it never descends alone. */
  lemma {:induction false} InnerComplete(n: nat, mask: seq<bool>, h: nat, pos: nat)
    requires |mask| == n && pos + 1 < Width(n, h)
    ensures LoneDescents(n, mask, h, pos) == 0
    decreases h
  {
    hide Width, AnyMatch;
    if h > 0 {
      NodeIffFirstLeaf(n, h, pos + 1);
      NodeIffFirstLeaf(n, h - 1, 2 * pos + 2);
      assert First(h, pos + 1) == First(h - 1, 2 * pos + 2);
      InnerComplete(n, mask, h - 1, 2 * pos);
      InnerComplete(n, mask, h - 1, 2 * pos + 1);
    }
  }

  /** The last node at height `h` is an only child, and a match lies under it. */
  predicate LoneMatch(n: nat, mask: seq<bool>, h: nat)
    requires |mask| == n
  {
    Width(n, h) % 2 == 1 && AnyMatch(mask, First(h, Width(n, h) - 1), n)
  }

  /** At how many heights below `h` there is such a node. */
  function LoneMatches(n: nat, mask: seq<bool>, h: nat): nat
    requires |mask| == n
  {
    if h == 0 then 0 else LoneMatches(n, mask, h - 1) + if LoneMatch(n, mask, h - 1) then 1 else 0
  }

  /** The last node at a height starts no later than the last node below. */
  lemma EdgeMovesRight(n: nat, h: nat)
    requires n > 0 && h > 0
    ensures Width(n, h) >= 1 && Width(n, h - 1) >= 1
    ensures First(h, Width(n, h) - 1) <= First(h - 1, Width(n, h - 1) - 1)
  {
    hide Width;
    LastChild(n, h);
    var w := Width(n, h);
    if Width(n, h - 1) == 2 * w { FirstMono(h - 1, 2 * (w - 1), 2 * w - 1); }
  }

  lemma {:induction false} NoLoneMatches(n: nat, mask: seq<bool>, h: nat)
    requires n > 0 && |mask| == n && Width(n, h) >= 1 && !AnyMatch(mask, First(h, Width(n, h) - 1), n)
    ensures LoneMatches(n, mask, h) == 0
  {
    hide Width, First;
    if h > 0 {
      EdgeMovesRight(n, h);
      NoLoneMatches(n, mask, h - 1);
    }
  }

  /** Descents without a right child happen exactly at the matched only children along the right edge. */
  lemma {:induction false} LoneAtEdge(n: nat, mask: seq<bool>, h: nat)
    requires n > 0 && |mask| == n
    ensures Width(n, h) >= 1 && LoneDescents(n, mask, h, Width(n, h) - 1) == LoneMatches(n, mask, h)
  {
    hide Width, AnyMatch, First;
    LastEnds(n, h);
    var w := Width(n, h);
    if !AnyMatch(mask, First(h, w - 1), n) {
      NoLoneMatches(n, mask, h);
    } else if h > 0 {
      LastChild(n, h);
      Children(n, h, w - 1);
      LoneAtEdge(n, mask, h - 1);
      if Width(n, h - 1) == 2 * w { InnerComplete(n, mask, h - 1, 2 * w - 2); }
    }
  }

  lemma {:induction false} LoneMatchesIff(n: nat, mask: seq<bool>, h: nat)
    requires |mask| == n
    ensures LoneMatches(n, mask, h) == 0 <==> forall k :: 0 <= k < h ==> !LoneMatch(n, mask, k)
    ensures LoneMatches(n, mask, h) <= h
  {
    hide LoneMatch;
    if h > 0 { LoneMatchesIff(n, mask, h - 1); }
  }

  // ----- the documented bounds -----

  /** The bounds on hashes hold; the one of 2 * hashes - 1 bits holds exactly when no match lies under an only child. */
  lemma EncodedSizes(txids: seq<Hash>, mask: seq<bool>)
    requires txids != [] && |mask| == |txids|
    ensures var n, e := |txids|, Encode(txids, mask);
      && 1 <= |e.hashes| <= n
      && |e.hashes| <= 1 + |Matched(txids, mask, 0, n)| * Height(n)
      && |e.bits| == 2 * |e.hashes| - 1 + LoneMatches(n, mask, Height(n))
      && (|e.bits| <= 2 * |e.hashes| - 1 <==>
            forall h :: 0 <= h < Height(n) && Width(n, h) % 2 == 1 ==> !AnyMatch(mask, First(h, Width(n, h) - 1), n))
  {
    hide Build, Height, Width, LoneDescents, LoneMatches, AnyMatch, First;
    var n := |txids|;
    TopCoversAll(n);
    StoredSizes(txids, mask, Height(n), 0);
    LoneAtEdge(n, mask, Height(n));
    LoneMatchesIff(n, mask, Height(n));
    forall h: nat ensures LoneMatch(n, mask, h) <==>
      Width(n, h) % 2 == 1 && AnyMatch(mask, First(h, Width(n, h) - 1), n)
    {}
  }

  lemma WidthOfThree()
    ensures Width(3, 0) == 3 && Width(3, 1) == 2 && Width(3, 2) == 1 && Height(3) == 2
  {
    assert Pow2(0) == 1 && Pow2(1) == 2 && Pow2(2) == 4;
    assert HeightFrom(3, 2) == 2;
    assert HeightFrom(3, 1) == 2;
  }

  /** It fails for three transactions of which the last is matched: four bits for two hashes. */
  lemma BitBoundFails(txids: seq<Hash>)
    requires |txids| == 3
    ensures var e := Encode(txids, [false, false, true]); |e.bits| == 4 && |e.hashes| == 2
  {
    hide Height, Width, CalcHash, First;
    var mask := [false, false, true];
    WidthOfThree();
    assert mask[2];
    forall h, pos: nat ensures First(h, pos) == Pow2(h) * pos { FirstIsShift(h, pos); }
    assert Pow2(0) == 1 && Pow2(1) == 2 && Pow2(2) == 4;
    assert First(2, 0) == 0 && End(3, 2, 0) == 3 && AnyMatch(mask, 0, 3);
    assert First(1, 0) == 0 && End(3, 1, 0) == 2 && !AnyMatch(mask, 0, 2);
    assert First(1, 1) == 2 && End(3, 1, 1) == 3 && AnyMatch(mask, 2, 3);
    assert First(0, 2) == 2 && End(3, 0, 2) == 3;
    assert HasRight(3, 2, 0) && !HasRight(3, 1, 1);
    BuildStops(txids, mask, 0, 2);
    BuildStops(txids, mask, 1, 0);
    BuildDescends(txids, mask, 1, 1);
    BuildDescends(txids, mask, 2, 0);
  }

  // ----- the number of hashes -----

  /** A node with two children and a match under it: where the traversal forks. */
  predicate Fork(n: nat, mask: seq<bool>, h: nat, pos: nat)
    requires |mask| == n && h > 0
  {
    HasRight(n, h, pos) && AnyMatch(mask, First(h, pos), End(n, h, pos))
  }

  /** How many forks there are at a height among the positions from `lo` to `hi`. */
  function Forks(n: nat, mask: seq<bool>, h: nat, lo: nat, hi: nat): nat
    requires |mask| == n && h > 0
    decreases hi
  {
    if lo >= hi then 0 else Forks(n, mask, h, lo, hi - 1) + if Fork(n, mask, h, hi - 1) then 1 else 0
  }

  /** How many forks there are under a node at heights up to `k`. */
  function ForksUnder(n: nat, mask: seq<bool>, h: nat, pos: nat, k: nat): nat
    requires |mask| == n && k <= h
  {
    if k == 0 then 0
    else ForksUnder(n, mask, h, pos, k - 1) + Forks(n, mask, k, First(h - k, pos), First(h - k, pos + 1))
  }

  lemma {:induction false} ForksSplit(n: nat, mask: seq<bool>, h: nat, lo: nat, mid: nat, hi: nat)
    requires |mask| == n && h > 0 && lo <= mid <= hi
    ensures Forks(n, mask, h, lo, hi) == Forks(n, mask, h, lo, mid) + Forks(n, mask, h, mid, hi)
    decreases hi
  {
    hide Fork;
    if mid < hi { ForksSplit(n, mask, h, lo, mid, hi - 1); }
  }

  /** The forks under a node, itself aside, are those under its two children. */
  lemma {:induction false} ForksOfChildren(n: nat, mask: seq<bool>, h: nat, pos: nat, k: nat)
    requires |mask| == n && k < h
    ensures ForksUnder(n, mask, h, pos, k) ==
      ForksUnder(n, mask, h - 1, 2 * pos, k) + ForksUnder(n, mask, h - 1, 2 * pos + 1, k)
  {
    hide Forks;
    if k > 0 {
      ForksOfChildren(n, mask, h, pos, k - 1);
      var j := h - 1 - k;
      FirstMono(j, 2 * pos, 2 * pos + 1);
      FirstMono(j, 2 * pos + 1, 2 * pos + 2);
      ForksSplit(n, mask, k, First(j, 2 * pos), First(j, 2 * pos + 1), First(j, 2 * pos + 2));
    }
  }

  lemma FirstOfFirst(h: nat, k: nat, pos: nat)
    requires k <= h
    ensures First(k, First(h - k, pos)) == First(h, pos)
  {
    hide First, Pow2;
    FirstIsShift(k, First(h - k, pos));
    FirstIsShift(h - k, pos);
    FirstIsShift(h, pos);
    Pow2Add(k, h - k);
    Associate(Pow2(k), Pow2(h - k), pos);
  }

  lemma {:induction false} NoForksHere(n: nat, mask: seq<bool>, h: nat, lo: nat, hi: nat)
    requires |mask| == n && h > 0 && lo <= hi
      && !AnyMatch(mask, First(h, lo), if First(h, hi) < n then First(h, hi) else n)
    ensures Forks(n, mask, h, lo, hi) == 0
    decreases hi
  {
    hide First;
    if lo < hi {
      FirstMono(h, hi - 1, hi);
      if lo < hi - 1 { FirstMono(h, lo, hi - 1); }
      NoForksHere(n, mask, h, lo, hi - 1);
    }
  }

  /** Without a match under a node there is no fork under it. */
  lemma {:induction false} NoForksUnder(n: nat, mask: seq<bool>, h: nat, pos: nat, k: nat)
    requires |mask| == n && k <= h && !AnyMatch(mask, First(h, pos), End(n, h, pos))
    ensures ForksUnder(n, mask, h, pos, k) == 0
  {
    hide Forks, First, AnyMatch;
    if k > 0 {
      NoForksUnder(n, mask, h, pos, k - 1);
      FirstOfFirst(h, k, pos);
      FirstOfFirst(h, k, pos + 1);
      FirstMono(h - k, pos, pos + 1);
      NoForksHere(n, mask, k, First(h - k, pos), First(h - k, pos + 1));
    }
  }

  /** One hash, and one more for every fork. */
  lemma {:induction false} HashesCounted(txids: seq<Hash>, mask: seq<bool>, h: nat, pos: nat)
    requires |mask| == |txids| && pos < Width(|txids|, h)
    ensures |Build(txids, mask, h, pos).hashes| == 1 + ForksUnder(|txids|, mask, h, pos, h)
    decreases h
  {
    hide Build, Width, First, AnyMatch, CalcHash;
    var n := |txids|;
    if h == 0 || !AnyMatch(mask, First(h, pos), End(n, h, pos)) {
      BuildStops(txids, mask, h, pos);
      if h > 0 { NoForksUnder(n, mask, h, pos, h); }
    } else {
      Children(n, h, pos);
      BuildDescends(txids, mask, h, pos);
      ForksOfChildren(n, mask, h, pos, h - 1);
      HashesCounted(txids, mask, h - 1, 2 * pos);
      FirstIsShift(0, pos);
      FirstIsShift(0, pos + 1);
      assert Forks(n, mask, h, pos, pos + 1) == if Fork(n, mask, h, pos) then 1 else 0;
      if HasRight(n, h, pos) {
        HashesCounted(txids, mask, h - 1, 2 * pos + 1);
      } else {
        NothingRight(n, mask, h, pos);
      }
    }
  }

  lemma NothingRight(n: nat, mask: seq<bool>, h: nat, pos: nat)
    requires |mask| == n && h > 0 && !HasRight(n, h, pos)
    ensures ForksUnder(n, mask, h - 1, 2 * pos + 1, h - 1) == 0
  {
    hide Width, First, ForksUnder;
    NodeIffFirstLeaf(n, h - 1, 2 * pos + 1);
    NoForksUnder(n, mask, h - 1, 2 * pos + 1, h - 1);
  }

  // ----- the serialized size -----

  function CompactSizeLength(n: nat): nat {
    if n < 253 then 1 else if n < 0x1_0000 then 3 else if n < 0x1_0000_0000 then 5 else 9
  }

  /** The transaction count, the hashes and the bytes of flag bits, with their numbers. */
  function SerializedSize(e: Encoded): nat {
    var bytes := (|e.bits| + 7) / 8;
    4 + CompactSizeLength(|e.hashes|) + 32 * |e.hashes| + CompactSizeLength(bytes) + bytes
  }

  /** The documented bound, 10 + 32.25 bytes for each hash, rounded up. */
  function SizeBound(hashes: nat): nat { 10 + (129 * hashes + 3) / 4 }

  /** How many only children with a match the rounding of the bound leaves room for. */
  function Spare(hashes: nat): nat { if hashes % 4 == 0 then 1 else 9 - 2 * (hashes % 4) }

  lemma HeightInBlock(n: nat)
    requires n <= MAX_TRANSACTIONS
    ensures Height(n) <= 15
  {
    assert Pow2(5) == 32 && Pow2(10) == 32 * Pow2(5) && Pow2(15) == 32 * Pow2(10);
    assert Width(n, 15) <= 1;
  }

  lemma SizeArithmetic(hashes: nat, bits: nat, lone: nat)
    requires 1 <= hashes <= MAX_TRANSACTIONS && lone <= 15 && bits == 2 * hashes - 1 + lone
    ensures var bytes := (bits + 7) / 8;
      4 + CompactSizeLength(hashes) + 32 * hashes + CompactSizeLength(bytes) + bytes <= SizeBound(hashes)
      <==> 2 * hashes + lone < 2018 || lone <= Spare(hashes)
  {
    var q, r := hashes / 4, hashes % 4;
    assert hashes == 4 * q + r;
    assert SizeBound(hashes) == 10 + 32 * hashes + q + if r == 0 then 0 else 1;
  }

  /** The size is within the bound unless the flags need a three-byte count and too many only children have a match.
      Hashes and such children are counted from the mask alone. */
  lemma SizeBoundIff(txids: seq<Hash>, mask: seq<bool>)
    requires 0 < |txids| <= MAX_TRANSACTIONS && |mask| == |txids|
    ensures var n := |txids|;
      var e, h := Encode(txids, mask), Height(n);
      var hashes, lone := 1 + ForksUnder(n, mask, h, 0, h), LoneMatches(n, mask, h);
      && |e.hashes| == hashes && |e.bits| == 2 * hashes - 1 + lone
      && (SerializedSize(e) <= SizeBound(hashes) <==> 2 * hashes + lone < 2018 || lone <= Spare(hashes))
  {
    hide Build, Height, Width, LoneMatches, ForksUnder, SizeBound, Spare, CompactSizeLength, AnyMatch, First, Matched;
    var n := |txids|;
    TopCoversAll(n);
    EncodedSizes(txids, mask);
    HashesCounted(txids, mask, Height(n), 0);
    HeightInBlock(n);
    LoneMatchesIff(n, mask, Height(n));
    SizeArithmetic(|Encode(txids, mask).hashes|, |Encode(txids, mask).bits|, LoneMatches(n, mask, Height(n)));
  }

  /** With every transaction matched, every one of them is stored. */
  lemma {:induction false} AllStored(txids: seq<Hash>, mask: seq<bool>, h: nat, pos: nat)
    requires |mask| == |txids| && pos < Width(|txids|, h) && forall i :: 0 <= i < |mask| ==> mask[i]
    ensures |Build(txids, mask, h, pos).hashes| == End(|txids|, h, pos) - First(h, pos)
    decreases h
  {
    hide Build, Width, First, CalcHash;
    var n := |txids|;
    NodeIffFirstLeaf(n, h, pos);
    FirstMono(h, pos, pos + 1);
    if h == 0 {
      FirstIsShift(0, pos);
      FirstIsShift(0, pos + 1);
      BuildStops(txids, mask, h, pos);
    } else {
      assert mask[First(h, pos)] && AnyMatch(mask, First(h, pos), End(n, h, pos));
      Children(n, h, pos);
      BuildDescends(txids, mask, h, pos);
      AllStored(txids, mask, h - 1, 2 * pos);
      if HasRight(n, h, pos) { AllStored(txids, mask, h - 1, 2 * pos + 1); }
    }
  }

  lemma WidthHalves(n: nat, h: nat)
    ensures Width(n, h + 1) == (Width(n, h) + 1) / 2
  {
    hide Width;
    var w, v := Width(n, h), Width(n, h + 1);
    if n > 0 {
      LastChild(n, h + 1);
    } else {
      NodeIffFirstLeaf(0, h, 0);
      NodeIffFirstLeaf(0, h + 1, 0);
    }
  }

  lemma WidthsOf1012()
    ensures Height(1012) == 10
    ensures Width(1012, 2) == 253 && Width(1012, 3) == 127
    ensures forall h :: 0 <= h < 10 && h != 2 && h != 3 ==> Width(1012, h) % 2 == 0
  {
    hide Width;
    assert Width(1012, 0) == 1012 by {
      FirstIsShift(0, 1012);
      NodeIffFirstLeaf(1012, 0, 1012);
      NodeIffFirstLeaf(1012, 0, 1011);
    }
    for h := 0 to 10
      invariant h <= 10 && forall k :: 0 <= k <= h ==>
        Width(1012, k) == [1012, 506, 253, 127, 64, 32, 16, 8, 4, 2, 1][k]
    {
      WidthHalves(1012, h);
    }
  }

  /** The bound fails, by one byte, for a block of 1012 transactions that all match. */
  lemma SizeBoundFails(txids: seq<Hash>, mask: seq<bool>)
    requires |txids| == |mask| == 1012 && forall i :: 0 <= i < |mask| ==> mask[i]
    ensures var e := Encode(txids, mask); |e.hashes| == 1012 && SerializedSize(e) == SizeBound(1012) + 1
  {
    hide Build, Height, Width, ForksUnder, LoneMatches, LoneMatch, First;
    var n := 1012;
    TopCoversAll(n);
    EncodedSizes(txids, mask);
    AllStored(txids, mask, Height(n), 0);
    WidthsOf1012();
    assert LoneMatches(n, mask, 10) == 2 by { TwoLone(mask); }
  }

  lemma TwoLone(mask: seq<bool>)
    requires |mask| == 1012 && forall i :: 0 <= i < |mask| ==> mask[i]
    ensures LoneMatches(1012, mask, 10) == 2
  {
    hide Width, First;
    WidthsOf1012();
    forall h | 0 <= h < 10 ensures LoneMatch(1012, mask, h) <==> h == 2 || h == 3 {
      if h == 2 || h == 3 {
        NodeIffFirstLeaf(1012, h, Width(1012, h) - 1);
        assert mask[First(h, Width(1012, h) - 1)];
      }
    }
    for k := 0 to 10
      invariant k <= 10 && LoneMatches(1012, mask, k) == if k <= 2 then 0 else if k == 3 then 1 else 2
    {}
  }
}
