/**
 * The block index of src/chain.h and src/chain.cpp: a tree of linked blocks
 * with skip pointers, and the active chain as a vector over it. Searches that
 * jump or stop early are proved to find what the plain walk along parents
 * defines.
 */
module Chain {
  import opened Arithmetic
  import opened SkipSteps

  // ----- the tree -----

  class BlockIndex {
    var prev: BlockIndex?
    var skip: BlockIndex?
    var height: nat

    /** A block linked to its parent, before its skip pointer is built. */
    constructor (prev: BlockIndex?)
      ensures this.prev == prev && skip == null && height == if prev == null then 0 else prev.height + 1
    {
      this.prev, skip := prev, null;
      height := if prev == null then 0 else prev.height + 1;
    }

    /** The ancestor at a height, by skip pointers where they do not overshoot. */
    method GetAncestor(h: int, ghost tree: set<BlockIndex>) returns (r: BlockIndex?, ghost steps: nat)
      requires ValidTree(tree) && this in tree
      ensures r == if 0 <= h <= height then Ancestor(tree, this, h) else null
      ensures FullySkipped(tree) ==> steps <= SearchBound(height)
    {
      hide InvertLowestOne, SkipHeight, Steps, SearchBound;
      steps := 0;
      if h > height || h < 0 { return null, 0; }
      var walk, at := this, height;
      while at > h
        invariant walk in tree && walk.height == at >= h && Ancestor(tree, walk, h) == Ancestor(tree, this, h)
        invariant FullySkipped(tree) ==> steps + Steps(at, h) == Steps(height, h)
      {
        OneStep(at, h);
        var skipTo, skipPrev := SkipHeight(at), SkipHeight(at - 1);
        if walk.skip != null && (skipTo == h || (skipTo > h && !(skipPrev < skipTo - 2 && skipPrev >= h))) {
          AncestorOfAncestor(tree, walk, skipTo, h);
          walk := walk.skip;
          at := skipTo;
        } else {
          walk := walk.prev;
          at := at - 1;
        }
        steps := steps + 1;
      }
      FewSteps(height, h);
      r := walk;
    }

    method BuildSkip(ghost tree: set<BlockIndex>)
      requires ValidTree(tree) && this !in tree && (prev != null ==> prev in tree && height == prev.height + 1)
      modifies this`skip
      ensures prev != null ==> skip == Ancestor(tree, prev, SkipHeight(height))
      ensures prev == null ==> skip == old(skip)
    {
      if prev != null {
        ghost var steps: nat;
        skip, steps := prev.GetAncestor(SkipHeight(height), tree);
      }
    }
  }

  /** Parents are in the tree, one lower; only blocks at height 0 have none. */
  ghost predicate Linked(tree: set<BlockIndex>)
    reads tree
  {
    forall b :: b in tree ==>
      (if b.prev == null then b.height == 0 else b.prev in tree && b.height == b.prev.height + 1)
  }

  /** The plain walk along parents. */
  ghost function Ancestor(tree: set<BlockIndex>, b: BlockIndex, h: nat): (a: BlockIndex)
    requires Linked(tree) && b in tree && h <= b.height
    reads tree
    ensures a in tree && a.height == h
    decreases b.height
  {
    if b.height == h then b else Ancestor(tree, b.prev, h)
  }

  ghost predicate SkipsRight(tree: set<BlockIndex>)
    requires Linked(tree)
    reads tree
  {
    forall b :: b in tree && b.skip != null ==> b.skip == Ancestor(tree, b, SkipHeight(b.height))
  }

  ghost predicate ValidTree(tree: set<BlockIndex>)
    reads tree
  {
    Linked(tree) && SkipsRight(tree)
  }

  /** Every block but the first has had its skip pointer built. */
  ghost predicate FullySkipped(tree: set<BlockIndex>)
    reads tree
  {
    forall b :: b in tree && b.prev != null ==> b.skip != null
  }

  lemma {:induction false} AncestorOfAncestor(tree: set<BlockIndex>, b: BlockIndex, mid: nat, h: nat)
    requires Linked(tree) && b in tree && h <= mid <= b.height
    ensures Ancestor(tree, Ancestor(tree, b, mid), h) == Ancestor(tree, b, h)
    decreases b.height
  {
    if b.height > mid { AncestorOfAncestor(tree, b.prev, mid, h); }
  }

  lemma OwnAncestor(tree: set<BlockIndex>, b: BlockIndex)
    requires Linked(tree) && b in tree
    ensures Ancestor(tree, b, b.height) == b
  {}

  /** The parent of an ancestor is the ancestor one lower. */
  lemma ParentOfAncestor(tree: set<BlockIndex>, b: BlockIndex, h: nat)
    requires Linked(tree) && b in tree && h <= b.height
    ensures var a := Ancestor(tree, b, h);
      (a.prev == null <==> h == 0) && (h > 0 ==> a.prev == Ancestor(tree, b, h - 1))
  {
    if h > 0 { AncestorOfAncestor(tree, b, h, h - 1); }
  }

  /** New blocks do not change the ancestors of old ones. */
  lemma {:induction false} AncestorInLargerTree(tree: set<BlockIndex>, more: set<BlockIndex>, b: BlockIndex, h: nat)
    requires Linked(tree) && Linked(more) && tree <= more && b in tree && h <= b.height
    ensures Ancestor(more, b, h) == Ancestor(tree, b, h)
    decreases b.height
  {
    if b.height > h { AncestorInLargerTree(tree, more, b.prev, h); }
  }

  /** Growing the tree by a block on a known parent, or by a first block. */
  method AddBlock(prev: BlockIndex?, ghost tree: set<BlockIndex>) returns (b: BlockIndex)
    requires ValidTree(tree) && (prev != null ==> prev in tree)
    ensures fresh(b) && b.prev == prev && ValidTree(tree + {b}) && (FullySkipped(tree) ==> FullySkipped(tree + {b}))
  {
    b := new BlockIndex(prev);
    b.BuildSkip(tree);
    ghost var more := tree + {b};
    assert Linked(more);
    forall x | x in more && x.skip != null ensures x.skip == Ancestor(more, x, SkipHeight(x.height)) {
      if x in tree {
        AncestorInLargerTree(tree, more, x, SkipHeight(x.height));
      } else {
        AncestorInLargerTree(tree, more, prev, SkipHeight(x.height));
      }
    }
  }

  // ----- common ancestors -----

  /** `r` is the highest block that both `a` and `b` descend from, or null if there is none. */
  ghost predicate HighestCommon(tree: set<BlockIndex>, a: BlockIndex, b: BlockIndex, r: BlockIndex?)
    requires Linked(tree) && a in tree && b in tree
    reads tree
  {
    && (r != null ==> r in tree && r.height <= a.height && r.height <= b.height
                      && Ancestor(tree, a, r.height) == r == Ancestor(tree, b, r.height))
    && (forall h :: 0 <= h <= a.height && h <= b.height && (r == null || h > r.height) ==>
          Ancestor(tree, a, h) != Ancestor(tree, b, h))
  }

  method LastCommonAncestor(a: BlockIndex, b: BlockIndex, ghost tree: set<BlockIndex>) returns (r: BlockIndex?)
    requires ValidTree(tree) && a in tree && b in tree
    ensures HighestCommon(tree, a, b, r)
  {
    hide Ancestor, Linked, SkipsRight;
    OwnAncestor(tree, a);
    OwnAncestor(tree, b);
    var pa: BlockIndex?, pb: BlockIndex? := a, b;
    ghost var steps: nat;
    if a.height > b.height {
      pa, steps := a.GetAncestor(b.height, tree);
    } else if b.height > a.height {
      pb, steps := b.GetAncestor(a.height, tree);
    }
    ghost var top := pa.height;
    while pa != pb && pa != null && pb != null
      invariant (pa == null) == (pb == null)
      invariant pa != null ==> pa in tree && pb in tree && pa.height == pb.height <= top
      invariant pa != null ==> Ancestor(tree, a, pa.height) == pa && Ancestor(tree, b, pb.height) == pb
      invariant forall h :: 0 <= h <= top && (pa == null || h > pa.height) ==>
        Ancestor(tree, a, h) != Ancestor(tree, b, h)
      decreases if pa == null then 0 else pa.height + 1
    {
      ParentOfAncestor(tree, a, pa.height);
      ParentOfAncestor(tree, b, pb.height);
      pa := pa.prev;
      pb := pb.prev;
    }
    assert pa == pb;
    r := pa;
  }

  // ----- the active chain -----

  class ActiveChain {
    var blocks: seq<BlockIndex?>

    /** The vector is the path from the first block to the tip. */
    ghost predicate Valid(tree: set<BlockIndex>)
      requires Linked(tree)
      reads this, tree
    {
      blocks == [] || (blocks[|blocks| - 1] != null && IsPathTo(tree, blocks[|blocks| - 1], blocks))
    }

    constructor ()
      ensures blocks == []
    {
      blocks := [];
    }

    function Height(): int
      reads this
    {
      |blocks| - 1
    }

    function At(h: int): BlockIndex?
      reads this
    {
      if 0 <= h < |blocks| then blocks[h] else null
    }

    predicate Contains(b: BlockIndex)
      reads this, b
    {
      At(b.height) == b
    }

    /** Walk down from the new tip, stopping at the first block that is already in place. */
    method SetTip(tip: BlockIndex?, ghost tree: set<BlockIndex>)
      requires ValidTree(tree) && Valid(tree) && (tip != null ==> tip in tree)
      modifies this
      ensures Valid(tree)
      ensures tip == null ==> blocks == []
      ensures tip != null ==> IsPathTo(tree, tip, blocks)
    {
      hide Ancestor, Linked, SkipsRight;
      if tip == null {
        blocks := [];
        return;
      }
      OwnAncestor(tree, tip);
      var size := tip.height + 1;
      blocks := if size <= |blocks| then blocks[..size] else blocks + seq(size - |blocks|, _ => null);
      ghost var resized := blocks;
      var p: BlockIndex? := tip;
      while p != null && blocks[p.height] != p
        invariant |blocks| == size
        invariant p != null ==> p in tree && p.height < size && p == Ancestor(tree, tip, p.height)
        invariant forall h :: 0 <= h < size && (p == null || h > p.height) ==> blocks[h] == Ancestor(tree, tip, h)
        invariant p != null ==> forall h :: 0 <= h <= p.height ==> blocks[h] == resized[h]
        decreases if p == null then 0 else p.height + 1
      {
        ParentOfAncestor(tree, tip, p.height);
        blocks := blocks[p.height := p];
        p := p.prev;
      }
      if p != null { KeptBelow(tree, old(blocks), tip, p, blocks); }
    }

    /** The last block of this chain that `b` descends from. */
    method FindFork(b: BlockIndex?, ghost tree: set<BlockIndex>) returns (r: BlockIndex?)
      requires ValidTree(tree) && Valid(tree) && (b != null ==> b in tree)
      ensures b == null || blocks == [] ==> r == null
      ensures b != null && blocks != [] ==> HighestCommon(tree, b, blocks[|blocks| - 1], r)
    {
      hide Ancestor, Linked, SkipsRight;
      if b == null { return null; }
      OwnAncestor(tree, b);
      r := b;
      if b.height > Height() {
        ghost var steps: nat;
        r, steps := b.GetAncestor(Height(), tree);
      }
      if blocks == [] { return; }
      ghost var tip := blocks[|blocks| - 1];
      ghost var top := r.height;
      while r != null && !Contains(r)
        invariant r != null ==> r in tree && r.height <= top && r == Ancestor(tree, b, r.height)
        invariant forall h :: 0 <= h <= top && (r == null || h > r.height) ==>
          Ancestor(tree, b, h) != Ancestor(tree, tip, h)
        decreases if r == null then 0 else r.height + 1
      {
        ParentOfAncestor(tree, b, r.height);
        r := r.prev;
      }
    }

    /** A sparse list of ancestors of a block: dense near it, with doubling gaps further back, and the first
        block last. */
    method GetLocator(start: BlockIndex?, ghost tree: set<BlockIndex>) returns (have: seq<BlockIndex>)
      requires ValidTree(tree) && Valid(tree) && (start != null ==> start in tree)
      ensures start == null && blocks == [] ==> have == []
      ensures start != null || blocks != [] ==>
        var b := if start != null then start else blocks[|blocks| - 1]; LocatorFor(tree, b, have)
    {
      hide Back, Step, Log2, Listed, Ancestor, Linked, SkipsRight;
      have := [];
      var step := 1;
      var p: BlockIndex? := start;
      if p == null { p := At(Height()); }
      if p == null { return; }
      ghost var b := p;
      NothingListed(tree, b);
      OwnAncestor(tree, b);
      while true
        invariant p != null && p in tree && p.height <= b.height && p == Ancestor(tree, b, p.height)
        invariant p.height == Back(b.height, |have|) && step == Step(|have|) >= 1 && (have == [] ==> p == b)
        invariant have != [] ==> have[0] == b && have[|have| - 1].height > p.height
        invariant Listed(tree, b, have) && (|have| > 0 ==> Back(b.height, |have| - 1) > 0)
        decreases p.height
      {
        ListOneMore(tree, b, have, p);
        have := have + [p];
        if p.height == 0 {
          break;
        }
        var h := if p.height - step > 0 then p.height - step else 0;
        AncestorOfAncestor(tree, b, p.height, h);
        BackStep(b.height, |have| - 1);
        if Contains(p) {
          InChain(tree, blocks, p, h);
          p := At(h);
        } else {
          ghost var steps: nat;
          p, steps := p.GetAncestor(h, tree);
        }
        if |have| > 10 {
          step := step * 2;
        }
      }
      LocatorShort(b.height, |have|);
    }
  }

  ghost predicate IsPathTo(tree: set<BlockIndex>, tip: BlockIndex, blocks: seq<BlockIndex?>)
    requires Linked(tree)
    reads tree
  {
    tip in tree && |blocks| == tip.height + 1 && forall h :: 0 <= h <= tip.height ==>
      blocks[h] == Ancestor(tree, tip, h)
  }

  /** Below a block already in place, the old vector holds its ancestors. */
  lemma KeptBelow(tree: set<BlockIndex>, was: seq<BlockIndex?>, tip: BlockIndex, p: BlockIndex,
      blocks: seq<BlockIndex?>)
    requires Linked(tree) && tip in tree && p in tree && p.height <= tip.height && p == Ancestor(tree, tip, p.height)
    requires was == [] || (was[|was| - 1] != null && IsPathTo(tree, was[|was| - 1], was))
    requires |blocks| == tip.height + 1 && blocks[p.height] == p
    requires forall h :: 0 <= h <= p.height ==> blocks[h] == if h < |was| then was[h] else null
    ensures forall h :: 0 <= h <= p.height ==> blocks[h] == Ancestor(tree, tip, h)
  {
    var end := was[|was| - 1];
    forall h | 0 <= h <= p.height ensures blocks[h] == Ancestor(tree, tip, h) {
      AncestorOfAncestor(tree, end, p.height, h);
      AncestorOfAncestor(tree, tip, p.height, h);
    }
  }

  /** In a valid chain, the block below a contained one at a height is its ancestor. */
  lemma InChain(tree: set<BlockIndex>, blocks: seq<BlockIndex?>, p: BlockIndex, h: nat)
    requires Linked(tree) && p in tree && h <= p.height < |blocks| && blocks[p.height] == p
    requires blocks[|blocks| - 1] != null && IsPathTo(tree, blocks[|blocks| - 1], blocks)
    ensures blocks[h] == Ancestor(tree, p, h)
  {
    AncestorOfAncestor(tree, blocks[|blocks| - 1], p.height, h);
  }

  // ----- how long a locator gets -----

  /** The gap after the `k`-th entry. */
  function Step(k: nat): nat { if k <= 10 then 1 else Pow2(k - 10) }

  /** How far back entry `k` is, before the first block stops it. */
  function Distance(k: nat): nat { if k == 0 then 0 else Distance(k - 1) + Step(k - 1) }

  function Back(height: nat, k: nat): nat { if Distance(k) >= height then 0 else height - Distance(k) }

  ghost predicate Listed(tree: set<BlockIndex>, b: BlockIndex, have: seq<BlockIndex>)
    requires Linked(tree) && b in tree
    reads tree
  {
    && (forall k :: 0 <= k < |have| ==>
          have[k] in tree && have[k].height == Back(b.height, k) <= b.height
            && have[k] == Ancestor(tree, b, have[k].height))
    && (forall k :: 0 < k < |have| ==> have[k].height < have[k - 1].height)
  }

  /** Ancestors of `b` from itself down to the first block, strictly descending, and few. */
  ghost predicate LocatorFor(tree: set<BlockIndex>, b: BlockIndex, have: seq<BlockIndex>)
    requires Linked(tree) && b in tree
    reads tree
  {
    && have != [] && have[0] == b && Listed(tree, b, have) && have[|have| - 1].height == 0
    && (if b.height == 0 then |have| == 1 else |have| <= 12 + Log2(b.height))
  }

  lemma NothingListed(tree: set<BlockIndex>, b: BlockIndex)
    requires Linked(tree) && b in tree
    ensures Listed(tree, b, []) && Back(b.height, 0) == b.height && Step(0) == 1
  {}

  lemma ListOneMore(tree: set<BlockIndex>, b: BlockIndex, have: seq<BlockIndex>, p: BlockIndex)
    requires Linked(tree) && b in tree && Listed(tree, b, have)
    requires p in tree && p.height == Back(b.height, |have|) <= b.height && p == Ancestor(tree, b, p.height)
    requires have != [] ==> have[|have| - 1].height > p.height
    ensures Listed(tree, b, have + [p])
  {
    hide Back, Ancestor, Linked;
  }

  lemma BackStep(height: nat, k: nat)
    ensures Back(height, k + 1) == if Back(height, k) > Step(k) then Back(height, k) - Step(k) else 0
    ensures Step(k + 1) == (if k + 1 > 10 then 2 * Step(k) else Step(k)) && Step(k) >= 1
  {}

  lemma {:induction false} DistanceIs(k: nat)
    ensures k <= 11 ==> Distance(k) == k
    ensures k >= 11 ==> Distance(k) == 9 + Pow2(k - 10)
  {
    if k > 0 { DistanceIs(k - 1); }
  }

  lemma LocatorShort(height: nat, size: nat)
    requires size >= 1 && (size >= 2 ==> Back(height, size - 2) > 0) && (size == 1 ==> height == 0)
    ensures if height == 0 then size == 1 else size <= 12 + Log2(height)
  {
    if size >= 2 {
      DistanceIs(size - 2);
      if size > 12 {
        assert size == 13 ==> Pow2(1) == 2;
        LogBounds(height, size - 12);
      }
    }
  }
}
