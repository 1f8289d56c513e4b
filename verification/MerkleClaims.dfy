/**
 * What a partial Merkle tree can make a receiver believe when its transaction
 * count is a claim like the rest of it (src/merkleblock.cpp). Rejecting equal
 * left and right branches is what keeps a tree over a list padded with copies
 * from naming transactions that the block does not have.
 */
module MerkleClaims {
  import opened Arithmetic
  import opened PartialMerkle
  import opened MerkleBlock

  ghost predicate AllDistinct(txids: seq<Hash>) { forall i, j :: 0 <= i < j < |txids| ==> txids[i] != txids[j] }

  /** No transaction id is itself the hash of a pair. */
  ghost predicate NoneCombined(txids: seq<Hash>) { forall i :: 0 <= i < |txids| ==> !txids[i].Node? }

  /**
   * A subtree of height `h` in a stored tree with any count, `d` heights too
   * high for the list, that extracts without failure to the true hash claims
   * only transactions of the list.
   */
  lemma {:induction false} ExtractSoundAnyCount(txids: seq<Hash>, n: nat, bits: seq<bool>, hashes: seq<Hash>,
      h: nat, d: nat, pos: nat, b: nat, u: nat)
    requires AllDistinct(txids) && d <= h && pos < Width(|txids|, h - d) && (d > 0 ==> NoneCombined(txids))
    requires var x := Extract(n, bits, hashes, h, pos, b, u); !x.bad && x.hash == CalcHash(txids, h - d, pos)
    ensures ClaimsOnly(txids, Extract(n, bits, hashes, h, pos, b, u).found)
    decreases h
  {
    hide Width;
    if h == d {
      Leaf(|txids|, pos);
    } else if bits[b] {
      Children(|txids|, h - d, pos);
      var l := Extract(n, bits, hashes, h - 1, 2 * pos, b + 1, u);
      if HasRight(n, h, pos) && HasRight(|txids|, h - d, pos) {
        ExtractSoundAnyCount(txids, n, bits, hashes, h - 1, d, 2 * pos, b + 1, u);
        ExtractSoundAnyCount(txids, n, bits, hashes, h - 1, d, 2 * pos + 1, l.bitsUsed, l.hashUsed);
      } else {
        if HasRight(|txids|, h - d, pos) { HashesDistinct(txids, h - d - 1, 2 * pos, 2 * pos + 1); }
        ExtractSoundAnyCount(txids, n, bits, hashes, h - 1, d, 2 * pos, b + 1, u);
      }
    }
  }

  /** Whatever is stored under count `n`, if it yields the root of the list it claims only transactions of the list. */
  ghost predicate NoFalseClaimOf(txids: seq<Hash>, n: nat)
    requires txids != []
  {
    forall bits, hashes ::
      var (root, found) := ExtractAll(n, bits, hashes, false);
      root == Root(txids) ==> ClaimsOnly(txids, found)
  }

  lemma SoundAtCount(txids: seq<Hash>, n: nat, bits: seq<bool>, hashes: seq<Hash>)
    requires txids != [] && AllDistinct(txids) && Root(txids) != Zero
    requires Height(n) == Height(|txids|) || (Height(n) > Height(|txids|) && NoneCombined(txids))
    requires ExtractAll(n, bits, hashes, false).0 == Root(txids)
    ensures ClaimsOnly(txids, ExtractAll(n, bits, hashes, false).1)
  {
    hide Extract, Height, Width, CalcHash;
    TopCoversAll(|txids|);
    ExtractSoundAnyCount(txids, n, bits, hashes, Height(n), Height(n) - Height(|txids|), 0, 0, 0);
  }

  // ----- counts of too low a tree -----

  /** A stored tree that descends along the left edge for `h` heights and claims what it finds there, at height `g`. */
  function LeftPath(txids: seq<Hash>, g: nat, h: nat): Encoded
    requires txids != [] && g + h <= Height(|txids|)
  {
    EdgeExists(txids, g, h);
    if h == 0 then Encoded([true], [CalcHash(txids, g, 0)]) else
    var l := LeftPath(txids, g, h - 1);
    Encoded([true] + (l.bits + [false]), l.hashes + [CalcHash(txids, g + h - 1, 1)])
  }

  lemma EdgeExists(txids: seq<Hash>, g: nat, h: nat)
    requires txids != [] && g + h <= Height(|txids|)
    ensures Width(|txids|, g) > 0 && Width(|txids|, g + h) > 0 && (h > 0 ==> Width(|txids|, g + h - 1) > 1)
  {
    hide Width;
    forall k ensures Width(|txids|, k) > 0 {
      NodeIffFirstLeaf(|txids|, k, 0);
      FirstIsShift(k, 0);
    }
  }

  lemma {:induction false} LeftPathSize(txids: seq<Hash>, g: nat, h: nat)
    requires txids != [] && g + h <= Height(|txids|)
    ensures |LeftPath(txids, g, h).bits| == 2 * h + 1 && |LeftPath(txids, g, h).hashes| == h + 1
  {
    hide Height, CalcHash, Width;
    if h > 0 { LeftPathSize(txids, g, h - 1); }
  }

  lemma {:induction false} LeftPathExtracts(txids: seq<Hash>, n: nat, bits: seq<bool>, hashes: seq<Hash>,
      g: nat, h: nat, b: nat, u: nat)
    requires txids != [] && AllDistinct(txids) && g + h <= Height(|txids|) && h <= Height(n)
    requires var e := LeftPath(txids, g, h); StartsAt(bits, b, e.bits) && StartsAt(hashes, u, e.hashes)
    ensures Width(|txids|, g) > 0 && Width(|txids|, g + h) > 0
    ensures Extract(n, bits, hashes, h, 0, b, u) ==
      Extracted(CalcHash(txids, g + h, 0), b + 2 * h + 1, u + h + 1, [Match(CalcHash(txids, g, 0), 0)], false)
  {
    hide Width, StartsAt, CalcHash, LeftPath, Extract;
    EdgeExists(txids, g, h);
    LeftPathSize(txids, g, h);
    LeftPathIs(txids, g, h);
    var e := LeftPath(txids, g, h);
    StartsWith(bits, b, e.bits);
    if h == 0 {
      StartsWith(hashes, u, e.hashes);
      ExtractLeaf(n, bits, hashes, b, u);
    } else {
      var l, r := LeftPath(txids, g, h - 1), CalcHash(txids, g + h - 1, 1);
      LeftPathSize(txids, g, h - 1);
      StartsAtParts(bits, b, [true], l.bits + [false]);
      StartsAtParts(bits, b + 1, l.bits, [false]);
      StartsAtParts(hashes, u, l.hashes, [r]);
      StartsWith(bits, b + 2 * h, [false]);
      StartsWith(hashes, u + h, [r]);
      LeftPathExtracts(txids, n, bits, hashes, g, h - 1, b + 1, u);
      HashesDistinct(txids, g + h - 1, 0, 1);
      ExtractFork(txids, n, bits, hashes, g, h, b, u);
    }
  }

  lemma LeftPathIs(txids: seq<Hash>, g: nat, h: nat)
    requires txids != [] && g + h <= Height(|txids|) && Width(|txids|, g) > 0
    requires h > 0 ==> Width(|txids|, g + h - 1) > 1
    ensures LeftPath(txids, g, h) ==
      if h == 0 then Encoded([true], [CalcHash(txids, g, 0)]) else
      var l := LeftPath(txids, g, h - 1);
      Encoded([true] + (l.bits + [false]), l.hashes + [CalcHash(txids, g + h - 1, 1)])
  {
    hide Width, CalcHash, Height;
  }

  lemma ExtractLeaf(n: nat, bits: seq<bool>, hashes: seq<Hash>, b: nat, u: nat)
    requires b < |bits| && bits[b] && u < |hashes|
    ensures Extract(n, bits, hashes, 0, 0, b, u) == Extracted(hashes[u], b + 1, u + 1, [Match(hashes[u], 0)], false)
  {}

  lemma ExtractFork(txids: seq<Hash>, n: nat, bits: seq<bool>, hashes: seq<Hash>, g: nat, h: nat, b: nat, u: nat)
    requires 0 < h <= Height(n) && Width(|txids|, g) > 0 && Width(|txids|, g + h) > 0 && Width(|txids|, g + h - 1) > 1
    requires b + 2 * h < |bits| && bits[b] && !bits[b + 2 * h] && u + h < |hashes|
    requires hashes[u + h] == CalcHash(txids, g + h - 1, 1) != CalcHash(txids, g + h - 1, 0)
    requires Extract(n, bits, hashes, h - 1, 0, b + 1, u) ==
      Extracted(CalcHash(txids, g + h - 1, 0), b + 2 * h, u + h, [Match(CalcHash(txids, g, 0), 0)], false)
    ensures Extract(n, bits, hashes, h, 0, b, u) ==
      Extracted(CalcHash(txids, g + h, 0), b + 2 * h + 1, u + h + 1, [Match(CalcHash(txids, g, 0), 0)], false)
  {
    hide Width;
    assert HasRight(n, h, 0) && HasRight(|txids|, g + h, 0);
  }

  /** How often one can go left. */
  function LeftDepth(x: Hash): nat { if x.Node? then 1 + LeftDepth(x.left) else 0 }

  lemma {:induction false} InnerIsDeeper(txids: seq<Hash>, g: nat)
    requires txids != [] && Width(|txids|, g) > 0
    ensures LeftDepth(CalcHash(txids, g, 0)) == g + LeftDepth(txids[0])
  {
    hide Width;
    if g > 0 {
      Children(|txids|, g, 0);
      InnerIsDeeper(txids, g - 1);
    } else {
      Leaf(|txids|, 0);
    }
  }

  lemma {:induction false} BelowPow2(h: nat)
    ensures h + 1 <= Pow2(h)
  {
    if h > 0 { BelowPow2(h - 1); }
  }

  lemma HeightBelowCount(n: nat)
    requires n > 0
    ensures Height(n) + 1 <= n
  {
    var h := Height(n);
    if h > 0 {
      hide Width, First;
      assert 1 < Width(n, h - 1);
      NodeIffFirstLeaf(n, h - 1, 1);
      FirstIsShift(h - 1, 1);
      BelowPow2(h - 1);
    }
  }

  /** With a count whose tree is too low, an inner hash passes for a transaction. */
  lemma LowerCountUnsound(txids: seq<Hash>, n: nat)
    requires txids != [] && AllDistinct(txids) && 0 < n <= MAX_TRANSACTIONS && Height(n) < Height(|txids|)
    ensures !NoFalseClaimOf(txids, n)
  {
    hide Width, Extract, CalcHash, LeftPath, StartsAt, Height;
    var h := Height(n);
    var g := Height(|txids|) - h;
    var e := LeftPath(txids, g, h);
    LeftPathSize(txids, g, h);
    HeightBelowCount(n);
    WholeStarts(e.bits);
    WholeStarts(e.hashes);
    LeftPathExtracts(txids, n, e.bits, e.hashes, g, h, 0, 0);
    InnerIsDeeper(txids, g);
    var (root, found) := ExtractAll(n, e.bits, e.hashes, false);
    assert root == Root(txids);
    assert Match(CalcHash(txids, g, 0), 0) in found;
  }

  lemma WholeStarts<T>(s: seq<T>)
    ensures StartsAt(s, 0, s)
  {}

  /**
   * For a list of distinct ids, none of them a combined hash, trees stored
   * under a count can make no false claim if and only if the count is refused
   * or gives a tree at least as high as that of the list.
   */
  lemma SoundCountsIff(txids: seq<Hash>, n: nat)
    requires txids != [] && AllDistinct(txids) && NoneCombined(txids) && Root(txids) != Zero
    ensures NoFalseClaimOf(txids, n) <==> n == 0 || n > MAX_TRANSACTIONS || Height(n) >= Height(|txids|)
  {
    hide Root, Height, Extract;
    if 0 < n <= MAX_TRANSACTIONS && Height(n) < Height(|txids|) {
      LowerCountUnsound(txids, n);
    } else {
      forall bits, hashes ensures
        var (root, found) := ExtractAll(n, bits, hashes, false);
        root == Root(txids) ==> ClaimsOnly(txids, found)
      {
        if 0 < n <= MAX_TRANSACTIONS && ExtractAll(n, bits, hashes, false).0 == Root(txids) {
          SoundAtCount(txids, n, bits, hashes);
        }
      }
    }
  }

  // ----- nothing may be left over -----

  /** What a subtree extracts to does not depend on what is stored after it. */
  lemma {:induction false} RestIgnored(n: nat, bits: seq<bool>, hashes: seq<Hash>, h: nat, pos: nat, b: nat, u: nat,
      moreBits: seq<bool>, moreHashes: seq<Hash>)
    requires !Extract(n, bits, hashes, h, pos, b, u).bad
    ensures Extract(n, bits + moreBits, hashes + moreHashes, h, pos, b, u) == Extract(n, bits, hashes, h, pos, b, u)
    ensures Extract(n, bits, hashes, h, pos, b, u).bitsUsed <= |bits|
    decreases h
  {
    hide HasRight;
    if h > 0 && bits[b] {
      RestIgnored(n, bits, hashes, h - 1, 2 * pos, b + 1, u, moreBits, moreHashes);
      if HasRight(n, h, pos) {
        var l := Extract(n, bits, hashes, h - 1, 2 * pos, b + 1, u);
        RestIgnored(n, bits, hashes, h - 1, 2 * pos + 1, l.bitsUsed, l.hashUsed, moreBits, moreHashes);
      }
    }
  }

  /** An accepted tree with a hash more, or with a byte of bits more, is not accepted. */
  lemma TrailingRejected(n: nat, bits: seq<bool>, hashes: seq<Hash>, moreBits: seq<bool>, moreHashes: seq<Hash>)
    requires ExtractAll(n, bits, hashes, false).0 != Zero && (|moreBits| >= 8 || |moreHashes| >= 1)
    ensures ExtractAll(n, bits + moreBits, hashes + moreHashes, false).0 == Zero
  {
    hide Extract, Height;
    RestIgnored(n, bits, hashes, Height(n), 0, 0, 0, moreBits, moreHashes);
  }
}
