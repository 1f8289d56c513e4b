/**
 * Partial Merkle trees of src/merkleblock.h and src/merkleblock.cpp: the bits
 * and hashes a tree is built from, what extraction makes of arbitrary bits
 * and hashes, and how the two relate. Combining two hashes is a free
 * constructor, so equal combinations have equal parts.
 */
module PartialMerkle {
  import opened Common
  import opened Arithmetic

  datatype Hash = Zero | Txid(n: nat) | Node(left: Hash, right: Hash)

  /** MAX_BLOCK_WEIGHT / MIN_TRANSACTION_WEIGHT. */
  const MAX_TRANSACTIONS: nat := 4000000 / (4 * 60)

  /** A matched transaction id and its index in the block. */
  datatype Match = Match(txid: Hash, index: nat)

  // ----- the shape of the tree -----

  /** The number of nodes at a height above `n` leaves. */
  function Width(n: nat, h: nat): nat { (n + Pow2(h) - 1) / Pow2(h) }

  /** The first leaf under a node. */
  function First(h: nat, pos: nat): nat { if h == 0 then pos else First(h - 1, 2 * pos) }

  lemma {:induction false} FirstIsShift(h: nat, pos: nat)
    ensures First(h, pos) == Pow2(h) * pos
  {
    if h > 0 {
      FirstIsShift(h - 1, 2 * pos);
      assert Pow2(h - 1) * (2 * pos) == (2 * Pow2(h - 1)) * pos;
    }
  }

  lemma {:induction false} FirstMono(h: nat, p: nat, q: nat)
    requires p < q
    ensures First(h, p) < First(h, q)
  {
    if h > 0 { FirstMono(h - 1, 2 * p, 2 * q); }
  }

  /** The end of the leaves under a node, among `n` leaves. */
  function End(n: nat, h: nat, pos: nat): (i: nat)
    ensures i <= n
  {
    Min(First(h, pos + 1), n)
  }

  /** A node exists iff its first leaf does. */
  lemma NodeIffFirstLeaf(n: nat, h: nat, pos: nat)
    ensures pos < Width(n, h) <==> First(h, pos) < n
  {
    hide First;
    FirstIsShift(h, pos);
    CeilDiv(n, Pow2(h), pos);
  }

  predicate HasRight(n: nat, h: nat, pos: nat)
    requires h > 0
  {
    2 * pos + 1 < Width(n, h - 1)
  }

  /** Where a node's children are, and the leaves under them. */
  lemma Children(n: nat, h: nat, pos: nat)
    requires h > 0 && pos < Width(n, h)
    ensures 2 * pos < Width(n, h - 1)
    ensures First(h - 1, 2 * pos) == First(h, pos) < End(n, h, pos)
    ensures if HasRight(n, h, pos)
            then First(h, pos) < End(n, h - 1, 2 * pos) == First(h - 1, 2 * pos + 1) < End(n, h - 1, 2 * pos + 1) ==
              End(n, h, pos)
            else End(n, h - 1, 2 * pos) == End(n, h, pos)
  {
    hide Width;
    NodeIffFirstLeaf(n, h, pos);
    NodeIffFirstLeaf(n, h - 1, 2 * pos);
    NodeIffFirstLeaf(n, h - 1, 2 * pos + 1);
    FirstMono(h - 1, 2 * pos, 2 * pos + 1);
    FirstMono(h - 1, 2 * pos + 1, 2 * pos + 2);
  }

  lemma Leaf(n: nat, pos: nat)
    requires pos < Width(n, 0)
    ensures pos < n
  {
    NodeIffFirstLeaf(n, 0, pos);
  }

  // ----- the full tree -----

  function CalcHash(txids: seq<Hash>, h: nat, pos: nat): Hash
    requires pos < Width(|txids|, h)
  {
    if h == 0 then Leaf(|txids|, pos); txids[pos] else
    Children(|txids|, h, pos);
    var left := CalcHash(txids, h - 1, 2 * pos);
    Node(left, if HasRight(|txids|, h, pos) then CalcHash(txids, h - 1, 2 * pos + 1) else left)
  }

  /** Nodes at one height over distinct leaves have distinct hashes. */
  lemma {:induction false} HashesDistinct(txids: seq<Hash>, h: nat, p: nat, q: nat)
    requires p < q < Width(|txids|, h)
    requires forall i, j :: 0 <= i < j < |txids| ==> txids[i] != txids[j]
    ensures CalcHash(txids, h, p) != CalcHash(txids, h, q)
    decreases h
  {
    if h == 0 {
      Leaf(|txids|, q);
    } else {
      Children(|txids|, h, p);
      Children(|txids|, h, q);
      HashesDistinct(txids, h - 1, 2 * p, 2 * q);
    }
  }

  // ----- building -----

  predicate AnyMatch(mask: seq<bool>, lo: nat, hi: nat)
    requires hi <= |mask|
  {
    exists i :: lo <= i < hi && mask[i]
  }

  datatype Encoded = Encoded(bits: seq<bool>, hashes: seq<Hash>)

  /** The bits and hashes stored for a subtree, in depth-first order. */
  function Build(txids: seq<Hash>, mask: seq<bool>, h: nat, pos: nat): Encoded
    requires |mask| == |txids| && pos < Width(|txids|, h)
  {
    var any := AnyMatch(mask, First(h, pos), End(|txids|, h, pos));
    if h == 0 || !any then Encoded([any], [CalcHash(txids, h, pos)]) else
    Children(|txids|, h, pos);
    var l := Build(txids, mask, h - 1, 2 * pos);
    if !HasRight(|txids|, h, pos) then Encoded([true] + l.bits, l.hashes) else
    var r := Build(txids, mask, h - 1, 2 * pos + 1);
    Encoded([true] + l.bits + r.bits, l.hashes + r.hashes)
  }

  /** What is stored for a node the traversal stops at. */
  lemma BuildStops(txids: seq<Hash>, mask: seq<bool>, h: nat, pos: nat)
    requires |mask| == |txids| && pos < Width(|txids|, h)
    ensures var any := AnyMatch(mask, First(h, pos), End(|txids|, h, pos));
      h == 0 || !any ==> Build(txids, mask, h, pos) == Encoded([any], [CalcHash(txids, h, pos)])
  {}

  /** What is stored for a node the traversal descends from. */
  lemma BuildDescends(txids: seq<Hash>, mask: seq<bool>, h: nat, pos: nat)
    requires |mask| == |txids| && h > 0 && pos < Width(|txids|, h) && 2 * pos < Width(|txids|, h - 1)
    requires AnyMatch(mask, First(h, pos), End(|txids|, h, pos))
    ensures var l := Build(txids, mask, h - 1, 2 * pos);
      var r := if HasRight(|txids|, h, pos) then Build(txids, mask, h - 1, 2 * pos + 1) else Encoded([], []);
      Build(txids, mask, h, pos) == Encoded([true] + (l.bits + r.bits), l.hashes + r.hashes)
  {
    hide AnyMatch, First, End, CalcHash;
    var l := Build(txids, mask, h - 1, 2 * pos);
    assert l.bits + [] == l.bits && l.hashes + [] == l.hashes;
    if HasRight(|txids|, h, pos) {
      var r := Build(txids, mask, h - 1, 2 * pos + 1);
      assert [true] + l.bits + r.bits == [true] + (l.bits + r.bits);
    }
  }

  /** The matched transactions in an index range, in order. */
  function Matched(txids: seq<Hash>, mask: seq<bool>, lo: nat, hi: nat): seq<Match>
    requires |mask| == |txids| && hi <= |txids|
  {
    if lo >= hi then []
    else Matched(txids, mask, lo, hi - 1) + if mask[hi - 1] then [Match(txids[hi - 1], hi - 1)] else []
  }

  lemma {:induction false} MatchedSplit(txids: seq<Hash>, mask: seq<bool>, lo: nat, mid: nat, hi: nat)
    requires |mask| == |txids| && lo <= mid <= hi <= |txids|
    ensures Matched(txids, mask, lo, hi) == Matched(txids, mask, lo, mid) + Matched(txids, mask, mid, hi)
    decreases hi
  {
    if mid < hi { MatchedSplit(txids, mask, lo, mid, hi - 1); }
  }

  lemma {:induction false} MatchedNone(txids: seq<Hash>, mask: seq<bool>, lo: nat, hi: nat)
    requires |mask| == |txids| && hi <= |txids| && !AnyMatch(mask, lo, hi)
    ensures Matched(txids, mask, lo, hi) == []
    decreases hi
  {
    if lo < hi { MatchedNone(txids, mask, lo, hi - 1); }
  }

  /** The matches under a node are those under its children. */
  lemma MatchedChildren(txids: seq<Hash>, mask: seq<bool>, h: nat, pos: nat)
    requires |mask| == |txids| && h > 0 && pos < Width(|txids|, h)
    ensures var n := |txids|;
      Matched(txids, mask, First(h, pos), End(n, h, pos)) ==
      Matched(txids, mask, First(h - 1, 2 * pos), End(n, h - 1, 2 * pos))
      + if HasRight(n, h, pos) then Matched(txids, mask, First(h - 1, 2 * pos + 1), End(n, h - 1, 2 * pos + 1)) else []
  {
    hide First, End, Width, Matched;
    var n := |txids|;
    Children(n, h, pos);
    if HasRight(n, h, pos) {
      MatchedSplit(txids, mask, First(h, pos), First(h - 1, 2 * pos + 1), End(n, h, pos));
    }
  }

  // ----- extracting -----

  /** The state of a traversal after a subtree: its hash, how far bits and hashes are used, what matched, and
      failure. */
  datatype Extracted = Extracted(hash: Hash, bitsUsed: nat, hashUsed: nat, found: seq<Match>, bad: bool)

  function Extract(n: nat, bits: seq<bool>, hashes: seq<Hash>, h: nat, pos: nat, bitsUsed: nat,
      hashUsed: nat): Extracted {
    if bitsUsed >= |bits| then Extracted(Zero, bitsUsed, hashUsed, [], true) else
    var flag := bits[bitsUsed];
    if h == 0 || !flag then
      if hashUsed >= |hashes| then Extracted(Zero, bitsUsed + 1, hashUsed, [], true)
      else Extracted(hashes[hashUsed], bitsUsed + 1, hashUsed + 1,
                     if h == 0 && flag then [Match(hashes[hashUsed], pos)] else [], false)
    else
      var l := Extract(n, bits, hashes, h - 1, 2 * pos, bitsUsed + 1, hashUsed);
      if !HasRight(n, h, pos) then l.(hash := Node(l.hash, l.hash)) else
      var r := Extract(n, bits, hashes, h - 1, 2 * pos + 1, l.bitsUsed, l.hashUsed);
      Extracted(Node(l.hash, r.hash), r.bitsUsed, r.hashUsed, l.found + r.found, l.bad || r.bad || r.hash == l.hash)
  }

  /** Soundness: a subtree that extracts without failure to the true hash matched only transactions of the block. */
  lemma {:induction false} ExtractSound(txids: seq<Hash>, bits: seq<bool>, hashes: seq<Hash>, h: nat, pos: nat,
      bitsUsed: nat, hashUsed: nat)
    requires pos < Width(|txids|, h)
    requires var x := Extract(|txids|, bits, hashes, h, pos, bitsUsed, hashUsed);
      !x.bad && x.hash == CalcHash(txids, h, pos)
    ensures var x := Extract(|txids|, bits, hashes, h, pos, bitsUsed, hashUsed);
      forall k :: 0 <= k < |x.found| ==> x.found[k].index < |txids| && txids[x.found[k].index] == x.found[k].txid
    decreases h
  {
    var n := |txids|;
    if h == 0 {
      Leaf(n, pos);
    } else if bits[bitsUsed] {
      Children(n, h, pos);
      var l := Extract(n, bits, hashes, h - 1, 2 * pos, bitsUsed + 1, hashUsed);
      ExtractSound(txids, bits, hashes, h - 1, 2 * pos, bitsUsed + 1, hashUsed);
      if HasRight(n, h, pos) {
        ExtractSound(txids, bits, hashes, h - 1, 2 * pos + 1, l.bitsUsed, l.hashUsed);
      }
    }
  }

  ghost predicate StartsAt<T>(s: seq<T>, i: nat, part: seq<T>) { i + |part| <= |s| && s[i..i + |part|] == part }

  lemma StartsAtParts<T>(s: seq<T>, i: nat, x: seq<T>, y: seq<T>)
    requires StartsAt(s, i, x + y)
    ensures StartsAt(s, i, x) && StartsAt(s, i + |x|, y)
  {
    var part := s[i..i + |x + y|];
    assert s[i..i + |x|] == part[..|x|] && s[i + |x|..i + |x| + |y|] == part[|x|..];
  }

  lemma StartsWith<T>(s: seq<T>, i: nat, part: seq<T>)
    requires StartsAt(s, i, part) && part != []
    ensures i < |s| && s[i] == part[0]
  {
    assert s[i..i + |part|][0] == s[i];
  }

  /** Extracting a subtree from where its stored bits and hashes begin gives back its hash and its matches. */
  ghost predicate Undone(txids: seq<Hash>, mask: seq<bool>, bits: seq<bool>, hashes: seq<Hash>, h: nat, pos: nat,
      b: nat, u: nat)
    requires |mask| == |txids| && pos < Width(|txids|, h)
  {
    var e := Build(txids, mask, h, pos);
    Extract(|txids|, bits, hashes, h, pos, b, u) ==
      Extracted(CalcHash(txids, h, pos), b + |e.bits|, u + |e.hashes|,
                Matched(txids, mask, First(h, pos), End(|txids|, h, pos)), false)
  }

  /** Extraction undoes building, wherever in the stored vectors the subtree begins. */
  lemma {:induction false} ExtractBuilt(txids: seq<Hash>, mask: seq<bool>, bits: seq<bool>, hashes: seq<Hash>, h: nat,
      pos: nat, b: nat, u: nat)
    requires |mask| == |txids| && pos < Width(|txids|, h)
    requires forall i, j :: 0 <= i < j < |txids| ==> txids[i] != txids[j]
    requires var e := Build(txids, mask, h, pos); StartsAt(bits, b, e.bits) && StartsAt(hashes, u, e.hashes)
    ensures Undone(txids, mask, bits, hashes, h, pos, b, u)
    decreases h
  {
    hide Width, First, End, AnyMatch, StartsAt, Matched, Pow2, Extract, CalcHash, Build, Undone;
    var n, e := |txids|, Build(txids, mask, h, pos);
    if h == 0 || !AnyMatch(mask, First(h, pos), End(n, h, pos)) {
      StopUndone(txids, mask, bits, hashes, h, pos, b, u);
    } else {
      Children(n, h, pos);
      var l := Build(txids, mask, h - 1, 2 * pos);
      var r := if HasRight(n, h, pos) then Build(txids, mask, h - 1, 2 * pos + 1) else Encoded([], []);
      BuildDescends(txids, mask, h, pos);
      StartsWith(bits, b, e.bits);
      StartsAtParts(bits, b, [true], l.bits + r.bits);
      StartsAtParts(bits, b + 1, l.bits, r.bits);
      StartsAtParts(hashes, u, l.hashes, r.hashes);
      ExtractBuilt(txids, mask, bits, hashes, h - 1, 2 * pos, b + 1, u);
      if HasRight(n, h, pos) {
        ExtractBuilt(txids, mask, bits, hashes, h - 1, 2 * pos + 1, b + 1 + |l.bits|, u + |l.hashes|);
        HashesDistinct(txids, h - 1, 2 * pos, 2 * pos + 1);
      }
      InnerUndone(txids, mask, bits, hashes, h, pos, b, u);
    }
  }

  lemma InnerUndone(txids: seq<Hash>, mask: seq<bool>, bits: seq<bool>, hashes: seq<Hash>, h: nat, pos: nat, b: nat,
      u: nat)
    requires |mask| == |txids| && h > 0 && pos < Width(|txids|, h) && 2 * pos < Width(|txids|, h - 1)
    requires b < |bits| && bits[b] && AnyMatch(mask, First(h, pos), End(|txids|, h, pos))
    requires Undone(txids, mask, bits, hashes, h - 1, 2 * pos, b + 1, u)
    requires HasRight(|txids|, h, pos) ==>
      var l := Build(txids, mask, h - 1, 2 * pos);
      && Undone(txids, mask, bits, hashes, h - 1, 2 * pos + 1, b + 1 + |l.bits|, u + |l.hashes|)
      && CalcHash(txids, h - 1, 2 * pos) != CalcHash(txids, h - 1, 2 * pos + 1)
    ensures Undone(txids, mask, bits, hashes, h, pos, b, u)
  {
    hide Width, First, End, AnyMatch, Matched, Pow2;
    MatchedChildren(txids, mask, h, pos);
  }

  lemma StopUndone(txids: seq<Hash>, mask: seq<bool>, bits: seq<bool>, hashes: seq<Hash>, h: nat, pos: nat, b: nat,
      u: nat)
    requires |mask| == |txids| && pos < Width(|txids|, h)
    requires h == 0 || !AnyMatch(mask, First(h, pos), End(|txids|, h, pos))
    requires var e := Build(txids, mask, h, pos); StartsAt(bits, b, e.bits) && StartsAt(hashes, u, e.hashes)
    ensures Undone(txids, mask, bits, hashes, h, pos, b, u)
  {
    hide Width, First, End, AnyMatch, StartsAt, Matched, Pow2, CalcHash;
    var e := Build(txids, mask, h, pos);
    StartsWith(bits, b, e.bits);
    StartsWith(hashes, u, e.hashes);
    StopMatches(txids, mask, h, pos);
  }

  /** Where the traversal stops, the flag and the leaf say which transactions match. */
  lemma StopMatches(txids: seq<Hash>, mask: seq<bool>, h: nat, pos: nat)
    requires |mask| == |txids| && pos < Width(|txids|, h)
    requires h == 0 || !AnyMatch(mask, First(h, pos), End(|txids|, h, pos))
    ensures Matched(txids, mask, First(h, pos), End(|txids|, h, pos)) ==
      if h == 0 && AnyMatch(mask, First(h, pos), End(|txids|, h, pos)) then [Match(CalcHash(txids, h, pos), pos)]
        else []
  {
    if h == 0 {
      Leaf(|txids|, pos);
      assert First(h, pos) == pos && End(|txids|, h, pos) == pos + 1;
      assert Matched(txids, mask, pos, pos) == [];
    } else {
      MatchedNone(txids, mask, First(h, pos), End(|txids|, h, pos));
    }
  }

  // ----- the whole tree -----

  lemma WidthShrinks(n: nat, h: nat)
    requires Width(n, h) > 1
    ensures Width(n, h + 1) < Width(n, h)
  {
    var p := Pow2(h);
    assert Pow2(h + 1) == p * 2;
    DivUnique(n + 2 * p - 1, p, (n + p - 1) / p + 1, (n + p - 1) % p);
    DivTwice(n + 2 * p - 1, p, 2);
  }

  /** The least height at which one node is left, looking upwards from `h`. */
  function HeightFrom(n: nat, h: nat): (top: nat)
    ensures h <= top && Width(n, top) <= 1 && forall k :: h <= k < top ==> Width(n, k) > 1
    decreases Width(n, h)
  {
    if Width(n, h) > 1 then WidthShrinks(n, h); HeightFrom(n, h + 1) else h
  }

  function Height(n: nat): nat { HeightFrom(n, 0) }

  /** The one node at the top covers every leaf. */
  lemma TopCoversAll(n: nat)
    requires n > 0
    ensures Width(n, Height(n)) == 1 && First(Height(n), 0) == 0 && End(n, Height(n), 0) == n
  {
    hide Width, Pow2, First, HeightFrom;
    var h := Height(n);
    FirstIsShift(h, 0);
    NodeIffFirstLeaf(n, h, 0);
    NodeIffFirstLeaf(n, h, 1);
  }

  function Root(txids: seq<Hash>): Hash
    requires txids != []
  {
    TopCoversAll(|txids|);
    CalcHash(txids, Height(|txids|), 0)
  }

  /** The partial tree of a whole block. */
  function Encode(txids: seq<Hash>, mask: seq<bool>): Encoded
    requires txids != [] && |mask| == |txids|
  {
    TopCoversAll(|txids|);
    Build(txids, mask, Height(|txids|), 0)
  }

  // ----- how much is stored -----

  /** How many nodes the traversal descends from that have no right child. */
  function LoneDescents(n: nat, mask: seq<bool>, h: nat, pos: nat): nat
    requires |mask| == n && pos < Width(n, h)
  {
    if h == 0 || !AnyMatch(mask, First(h, pos), End(n, h, pos)) then 0 else
    Children(n, h, pos);
    LoneDescents(n, mask, h - 1, 2 * pos)
    + if HasRight(n, h, pos) then LoneDescents(n, mask, h - 1, 2 * pos + 1) else 1
  }

  lemma {:induction false} MatchedSome(txids: seq<Hash>, mask: seq<bool>, lo: nat, hi: nat)
    requires |mask| == |txids| && hi <= |txids| && AnyMatch(mask, lo, hi)
    ensures |Matched(txids, mask, lo, hi)| >= 1
    decreases hi
  {
    if !mask[hi - 1] { MatchedSome(txids, mask, lo, hi - 1); }
  }

  /** Hashes stored number at most the leaves and at most 1 + matches * height; bits number 2 * hashes - 1, plus one for
      every descent without a right child. */
  lemma {:induction false} StoredSizes(txids: seq<Hash>, mask: seq<bool>, h: nat, pos: nat)
    requires |mask| == |txids| && pos < Width(|txids|, h)
    ensures var n, e := |txids|, Build(txids, mask, h, pos);
      && 1 <= |e.hashes| <= End(n, h, pos) - First(h, pos)
      && |e.hashes| <= 1 + |Matched(txids, mask, First(h, pos), End(n, h, pos))| * h
      && |e.bits| == 2 * |e.hashes| - 1 + LoneDescents(n, mask, h, pos)
    decreases h
  {
    hide Width, AnyMatch, Matched, Pow2, CalcHash, First;
    var n, lo, hi := |txids|, First(h, pos), End(|txids|, h, pos);
    NodeIffFirstLeaf(n, h, pos);
    FirstMono(h, pos, pos + 1);
    if h == 0 || !AnyMatch(mask, lo, hi) {
    } else {
      Children(n, h, pos);
      MatchedSome(txids, mask, lo, hi);
      MatchedChildren(txids, mask, h, pos);
      StoredSizes(txids, mask, h - 1, 2 * pos);
      var m := |Matched(txids, mask, lo, hi)|;
      var m1 := |Matched(txids, mask, First(h - 1, 2 * pos), End(n, h - 1, 2 * pos))|;
      if HasRight(n, h, pos) {
        StoredSizes(txids, mask, h - 1, 2 * pos + 1);
        HashesFit(m1, m - m1, h);
      } else {
        HashesFit(m, 0, h);
      }
    }
  }

  lemma HashesFit(m1: nat, m2: nat, h: nat)
    requires h > 0 && m1 + m2 >= 1
    ensures (1 + m1 * (h - 1)) + (1 + m2 * (h - 1)) <= 1 + (m1 + m2) * h
    ensures 1 + m1 * (h - 1) <= 1 + m1 * h
  {
    assert (m1 + m2) * h == m1 * (h - 1) + m2 * (h - 1) + m1 + m2;
    assert m1 * h == m1 * (h - 1) + m1;
  }
}
