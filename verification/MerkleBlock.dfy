/**
 * The partial Merkle tree object of src/merkleblock.cpp with its bit packing:
 * building, sending as bytes and extracting gives back the root and exactly
 * the matched transactions, and no stored tree that yields the root of a
 * block can claim a transaction the block does not have.
 */
module MerkleBlock {
  import opened Common
  import opened Arithmetic
  import opened PartialMerkle

  // ----- flag bits as bytes -----

  predicate HasBit(x: bv8, i: nat)
    requires i < 8
  {
    x & ((1 as bv8) << i) != 0
  }

  function WithBit(x: bv8, i: nat): bv8
    requires i < 8
  {
    x | ((1 as bv8) << i)
  }

  lemma OneBitMore(x: bv8, i: nat, j: nat)
    requires i < 8 && j < 8
    ensures HasBit(WithBit(x, i), j) <==> i == j || HasBit(x, j)
    ensures !HasBit(0, j)
  {}

  /** Bit `p` of a byte string, least significant bit of each byte first. */
  predicate BitAt(bytes: seq<bv8>, p: nat)
    requires p / 8 < |bytes|
  {
    HasBit(bytes[p / 8], p % 8)
  }

  lemma SetBit(bytes: seq<bv8>, p: nat, q: nat)
    requires p < 8 * |bytes| && q < 8 * |bytes|
    ensures BitAt(bytes[p / 8 := WithBit(bytes[p / 8], p % 8)], q) <==> q == p || BitAt(bytes, q)
  {
    hide HasBit, WithBit;
    OneBitMore(bytes[p / 8], p % 8, q % 8);
  }

  lemma BlankBit(bytes: seq<bv8>, q: nat)
    requires q < 8 * |bytes| && bytes[q / 8] == 0
    ensures !BitAt(bytes, q)
  {
    hide HasBit;
    OneBitMore(0, 0, q % 8);
  }

  /** The bytes hold the first `n` bits and zeros after them. */
  ghost predicate Packed(bits: seq<bool>, n: nat, bytes: seq<bv8>)
    requires n <= |bits|
  {
    forall q :: 0 <= q < 8 * |bytes| ==> (BitAt(bytes, q) <==> q < n && bits[q])
  }

  lemma PackOne(bits: seq<bool>, p: nat, bytes: seq<bv8>)
    requires p < |bits| && p < 8 * |bytes| && Packed(bits, p, bytes)
    ensures Packed(bits, p + 1, if bits[p] then bytes[p / 8 := WithBit(bytes[p / 8], p % 8)] else bytes)
  {
    hide BitAt, WithBit;
    var after := if bits[p] then bytes[p / 8 := WithBit(bytes[p / 8], p % 8)] else bytes;
    forall q | 0 <= q < 8 * |bytes| ensures BitAt(after, q) <==> q < p + 1 && bits[q] {
      if bits[p] { SetBit(bytes, p, q); }
    }
  }

  method BitsToBytes(bits: seq<bool>) returns (bytes: seq<bv8>)
    ensures |bytes| == (|bits| + 7) / 8 && Packed(bits, |bits|, bytes)
  {
    hide BitAt, WithBit;
    bytes := seq((|bits| + 7) / 8, _ => 0);
    forall q | 0 <= q < 8 * |bytes| ensures !BitAt(bytes, q) { BlankBit(bytes, q); }
    for p := 0 to |bits|
      invariant |bytes| == (|bits| + 7) / 8 && Packed(bits, p, bytes)
    {
      PackOne(bits, p, bytes);
      if bits[p] {
        bytes := bytes[p / 8 := WithBit(bytes[p / 8], p % 8)];
      }
    }
  }

  method BytesToBits(bytes: seq<bv8>) returns (bits: seq<bool>)
    ensures |bits| == 8 * |bytes| && forall p :: 0 <= p < |bits| ==> (bits[p] <==> BitAt(bytes, p))
  {
    bits := [];
    for p := 0 to 8 * |bytes|
      invariant |bits| == p && forall q :: 0 <= q < p ==> (bits[q] <==> BitAt(bytes, q))
    {
      bits := bits + [BitAt(bytes, p)];
    }
  }

  /** `stored` is `bits` padded with zeros to whole bytes. */
  ghost predicate Padded(bits: seq<bool>, stored: seq<bool>) {
    && |stored| == 8 * ((|bits| + 7) / 8)
    && forall p :: 0 <= p < |stored| ==> (stored[p] <==> p < |bits| && bits[p])
  }

  /** What a receiver reads back. */
  method SendBits(bits: seq<bool>) returns (stored: seq<bool>)
    ensures Padded(bits, stored)
  {
    var bytes := BitsToBytes(bits);
    stored := BytesToBits(bytes);
  }

  // ----- the whole extraction -----

  /** What ExtractMatches returns for stored contents, given whether failure was recorded before. */
  function ExtractAll(n: nat, bits: seq<bool>, hashes: seq<Hash>, bad: bool): (Hash, seq<Match>) {
    if n == 0 || n > MAX_TRANSACTIONS || |hashes| > n || |bits| < |hashes| then (Zero, []) else
    var x := Extract(n, bits, hashes, Height(n), 0, 0, 0);
    if bad || x.bad || (x.bitsUsed + 7) / 8 != (|bits| + 7) / 8 || x.hashUsed != |hashes| then (Zero, x.found)
    else (x.hash, x.found)
  }

  /** Building, padding and extracting returns the root and exactly the matched transactions, in order. */
  lemma RoundTrip(txids: seq<Hash>, mask: seq<bool>, stored: seq<bool>)
    requires 0 < |txids| <= MAX_TRANSACTIONS && |mask| == |txids|
    requires forall i, j :: 0 <= i < j < |txids| ==> txids[i] != txids[j]
    requires Padded(Encode(txids, mask).bits, stored)
    ensures ExtractAll(|txids|, stored, Encode(txids, mask).hashes, false) ==
      (Root(txids), Matched(txids, mask, 0, |txids|))
  {
    hide Extract, Build, Height, Width, Matched, CalcHash, LoneDescents;
    var n := |txids|;
    TopCoversAll(n);
    var e := Build(txids, mask, Height(n), 0);
    StoredSizes(txids, mask, Height(n), 0);
    assert stored[0..0 + |e.bits|] == e.bits && e.hashes[0..0 + |e.hashes|] == e.hashes;
    ExtractBuilt(txids, mask, stored, e.hashes, Height(n), 0, 0, 0);
  }

  /** Every claimed match is a transaction of the block, at the claimed index. */
  ghost predicate ClaimsOnly(txids: seq<Hash>, found: seq<Match>) {
    forall m :: m in found ==> m.index < |txids| && txids[m.index] == m.txid
  }

  /** Whatever is stored, if it yields the root of the block it claims only transactions of the block. */
  ghost predicate NoFalseClaim(txids: seq<Hash>)
    requires txids != []
  {
    forall bits, hashes ::
      var (root, found) := ExtractAll(|txids|, bits, hashes, false);
      root == Root(txids) ==> ClaimsOnly(txids, found)
  }

  lemma Soundness(txids: seq<Hash>, bits: seq<bool>, hashes: seq<Hash>)
    requires txids != [] && Root(txids) != Zero
    requires ExtractAll(|txids|, bits, hashes, false).0 == Root(txids)
    ensures ClaimsOnly(txids, ExtractAll(|txids|, bits, hashes, false).1)
  {
    TopCoversAll(|txids|);
    ExtractSound(txids, bits, hashes, Height(|txids|), 0, 0, 0);
  }

  /** A zero root cannot be told from failure: a one-transaction block with the zero id lets any id through. */
  lemma ZeroRootUnsound(x: Hash)
    requires x != Zero
    ensures var bits := [true] + seq(8, _ => false);
      Root([Zero]) == Zero && ExtractAll(1, bits, [x], false) == (Zero, [Match(x, 0)])
  {
    assert Width(1, 0) == 1 && Height(1) == 0;
  }

  /** Only the lone zero id has a zero root: a combined hash never is zero. */
  lemma ZeroRootIff(txids: seq<Hash>)
    requires txids != []
    ensures Root(txids) == Zero <==> txids == [Zero]
  {
    TopCoversAll(|txids|);
    assert Width(|txids|, 0) == |txids|;
  }

  /** No tree can make a false claim about a block if and only if the root of the block is not zero. */
  lemma SoundIff(txids: seq<Hash>)
    requires txids != []
    ensures NoFalseClaim(txids) <==> Root(txids) != Zero
  {
    hide ExtractAll, Root;
    if Root(txids) != Zero {
      forall bits, hashes ensures
        var (root, found) := ExtractAll(|txids|, bits, hashes, false);
        root == Root(txids) ==> ClaimsOnly(txids, found)
      {
        if ExtractAll(|txids|, bits, hashes, false).0 == Root(txids) { Soundness(txids, bits, hashes); }
      }
    } else {
      ZeroRootIff(txids);
      var x := Txid(0);
      ZeroRootUnsound(x);
      var found := ExtractAll(1, [true] + seq(8, _ => false), [x], false).1;
      assert Match(x, 0) in found && !ClaimsOnly(txids, found);
    }
  }

  // ----- the object -----

  class PartialMerkleTree {
    var nTransactions: nat
    var bits: seq<bool>
    var hashes: seq<Hash>
    var bad: bool

    constructor Empty()
      ensures nTransactions == 0 && bits == [] && hashes == [] && bad
    {
      nTransactions, bits, hashes, bad := 0, [], [], true;
    }

    constructor (txids: seq<Hash>, mask: seq<bool>)
      requires txids != [] && |mask| == |txids|
      ensures nTransactions == |txids| && !bad && Encoded(bits, hashes) == Encode(txids, mask)
    {
      nTransactions, bits, hashes, bad := |txids|, [], [], false;
      new;
      TopCoversAll(|txids|);
      var h := TreeHeight(|txids|);
      TraverseAndBuild(h, 0, txids, mask);
    }

    /** What a receiver holds after the tree was sent. */
    constructor Received(n: nat, hashes: seq<Hash>, bytes: seq<bv8>)
      ensures nTransactions == n && this.hashes == hashes && !bad
      ensures |bits| == 8 * |bytes| && forall p :: 0 <= p < |bits| ==> (bits[p] <==> BitAt(bytes, p))
    {
      nTransactions, this.hashes, bad := n, hashes, false;
      var b := BytesToBits(bytes);
      bits := b;
    }

    method TraverseAndBuild(h: nat, pos: nat, txids: seq<Hash>, mask: seq<bool>)
      requires |mask| == |txids| == nTransactions && pos < Width(|txids|, h)
      modifies this`bits, this`hashes
      ensures var e := Build(txids, mask, h, pos); bits == old(bits) + e.bits && hashes == old(hashes) + e.hashes
      decreases h
    {
      hide Width, AnyMatch, CalcHash, First, Build;
      var any := ParentOfMatch(mask, First(h, pos), First(h, pos + 1));
      bits := bits + [any];
      if h == 0 || !any {
        hashes := hashes + [CalcHash(txids, h, pos)];
        BuildStops(txids, mask, h, pos);
      } else {
        Children(nTransactions, h, pos);
        BuildDescends(txids, mask, h, pos);
        TraverseAndBuild(h - 1, 2 * pos, txids, mask);
        if HasRight(nTransactions, h, pos) {
          TraverseAndBuild(h - 1, 2 * pos + 1, txids, mask);
        }
      }
    }

    method TraverseAndExtract(h: nat, pos: nat, bitsUsed: nat, hashUsed: nat)
      returns (hash: Hash, bitsNow: nat, hashNow: nat, found: seq<Match>)
      modifies this`bad
      ensures var x := Extract(nTransactions, bits, hashes, h, pos, bitsUsed, hashUsed);
        hash == x.hash && bitsNow == x.bitsUsed && hashNow == x.hashUsed && found == x.found
          && bad == (old(bad) || x.bad)
      decreases h
    {
      bitsNow, hashNow, found := bitsUsed, hashUsed, [];
      if bitsNow >= |bits| {
        bad := true;
        return Zero, bitsNow, hashNow, found;
      }
      var flag := bits[bitsNow];
      bitsNow := bitsNow + 1;
      if h == 0 || !flag {
        if hashNow >= |hashes| {
          bad := true;
          return Zero, bitsNow, hashNow, found;
        }
        hash := hashes[hashNow];
        hashNow := hashNow + 1;
        if h == 0 && flag {
          found := found + [Match(hash, pos)];
        }
      } else {
        var left, right, more;
        left, bitsNow, hashNow, found := TraverseAndExtract(h - 1, 2 * pos, bitsNow, hashNow);
        if HasRight(nTransactions, h, pos) {
          right, bitsNow, hashNow, more := TraverseAndExtract(h - 1, 2 * pos + 1, bitsNow, hashNow);
          found := found + more;
          if right == left {
            bad := true;
          }
        } else {
          right := left;
        }
        hash := Node(left, right);
      }
    }

    method ExtractMatches() returns (root: Hash, found: seq<Match>)
      modifies this`bad
      ensures (root, found) == ExtractAll(nTransactions, bits, hashes, old(bad))
    {
      if nTransactions == 0 { return Zero, []; }
      if nTransactions > MAX_TRANSACTIONS { return Zero, []; }
      if |hashes| > nTransactions { return Zero, []; }
      if |bits| < |hashes| { return Zero, []; }
      var h := TreeHeight(nTransactions);
      var bitsUsed, hashUsed;
      root, bitsUsed, hashUsed, found := TraverseAndExtract(h, 0, 0, 0);
      if bad { return Zero, found; }
      if (bitsUsed + 7) / 8 != (|bits| + 7) / 8 { return Zero, found; }
      if hashUsed != |hashes| { return Zero, found; }
    }
  }

  /** Whether any leaf from `first` up to `end` that exists is matched. */
  method ParentOfMatch(mask: seq<bool>, first: nat, end: nat) returns (any: bool)
    ensures any <==> AnyMatch(mask, first, Min(end, |mask|))
  {
    any := false;
    var p := first;
    while p < end && p < |mask|
      invariant first <= p && (p > first ==> p <= end && p <= |mask|)
      invariant any <==> exists i :: first <= i < p && i < |mask| && mask[i]
    {
      any := any || mask[p];
      p := p + 1;
    }
  }

  method TreeHeight(n: nat) returns (h: nat)
    ensures h == Height(n)
  {
    h := 0;
    while Width(n, h) > 1
      invariant HeightFrom(n, h) == Height(n)
      decreases Width(n, h)
    {
      WidthShrinks(n, h);
      h := h + 1;
    }
  }
}
