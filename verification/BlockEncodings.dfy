/**
 * Compact block reconstruction (src/blockencodings.cpp, src/blockencodings.h;
 * BIP 152 section "HeaderAndShortIDs"): prefilled transactions at differential
 * positions, short ids for the rest, and filling the gaps.
 */
module BlockEncodings {
  import opened BlockOffers

  datatype Prefilled = Prefilled(index: nat, tx: Tx)

  datatype CompactBlock = CompactBlock(headerIsNull: bool, shortIds: seq<nat>, prefilled: seq<Prefilled>)

  datatype Status = Ok | Invalid | Failed | CheckBlockFailed

  datatype BlockCheck = Passed | Mutated | Rejected

  const MAX_TRANSACTIONS := 4_000_000 / 40
  const MAX_UINT16 := 65535

  // ----- where things go -----

  /** The position of prefilled transaction `i`. */
  function Position(p: seq<Prefilled>, i: nat): int
    requires i < |p|
  {
    (if i == 0 then -1 else Position(p, i - 1)) + p[i].index + 1
  }

  /** Position `i` is in range of a block whose later transactions all have short ids. */
  predicate PrefilledOk(c: CompactBlock, i: nat)
    requires i < |c.prefilled|
  {
    !c.prefilled[i].tx.isNull && Position(c.prefilled, i) <= MAX_UINT16 && Position(c.prefilled, i) <= |c.shortIds| + i
  }

  predicate Acceptable(c: CompactBlock) {
    && !c.headerIsNull && |c.shortIds| + |c.prefilled| > 0 && |c.shortIds| + |c.prefilled| <= MAX_TRANSACTIONS
    && forall i :: 0 <= i < |c.prefilled| ==> PrefilledOk(c, i)
  }

  function CountAbsent(s: seq<Slot>): (n: nat)
    ensures n <= |s|
  {
    if s == [] then 0 else CountAbsent(s[..|s| - 1]) + (if s[|s| - 1].Absent? then 1 else 0)
  }

  lemma {:induction false} PositionsIncrease(p: seq<Prefilled>, i: nat, j: nat)
    requires i < j < |p|
    ensures 0 <= Position(p, i) < Position(p, j)
  {
    PositionAtLeast(p, i);
    if i < j - 1 { PositionsIncrease(p, i, j - 1); }
  }

  lemma {:induction false} PositionAtLeast(p: seq<Prefilled>, i: nat)
    requires i < |p|
    ensures Position(p, i) >= i
  {
    if i > 0 { PositionAtLeast(p, i - 1); }
  }

  lemma {:induction false} CountUpdate(s: seq<Slot>, k: nat, x: Slot)
    requires k < |s|
    ensures CountAbsent(s[k := x]) == CountAbsent(s) - (if s[k].Absent? then 1 else 0) + (if x.Absent? then 1 else 0)
  {
    var n := |s| - 1;
    var t := s[k := x];
    if k < n {
      CountUpdate(s[..n], k, x);
      assert t[..n] == s[..n][k := x];
    } else {
      assert t[..n] == s[..n];
    }
  }

  lemma {:induction false} CountPrefix(s: seq<Slot>, k: nat)
    requires k <= |s|
    ensures CountAbsent(s[..k]) <= CountAbsent(s)
    ensures CountAbsent(s[..k]) == CountAbsent(s) ==> forall i :: k <= i < |s| ==> s[i].Present?
  {
    if k == |s| { assert s[..k] == s; } else {
      var n := |s| - 1;
      CountPrefix(s[..n], k);
      assert s[..n][..k] == s[..k];
    }
  }

  lemma CountNext(s: seq<Slot>, k: nat)
    requires k < |s|
    ensures CountAbsent(s[..k + 1]) == CountAbsent(s[..k]) + (if s[k].Absent? then 1 else 0)
  {
    assert s[..k + 1][..k] == s[..k];
  }

  lemma {:induction false} CountAll(n: nat)
    ensures CountAbsent(seq(n, _ => Absent)) == n
  {
    if n > 0 {
      CountAll(n - 1);
      assert seq(n, _ => Absent)[..n - 1] == seq(n - 1, _ => Absent);
    }
  }

  // ----- prefilled transactions -----

  /** The slots after the first `k` prefilled transactions: each at its position, and nothing elsewhere. */
  ghost predicate Placed(c: CompactBlock, s: seq<Slot>, k: nat)
    requires k <= |c.prefilled|
  {
    && |s| == |c.shortIds| + |c.prefilled| && CountAbsent(s) == |s| - k
    && (forall i :: 0 <= i < k ==>
          0 <= Position(c.prefilled, i) < |s| && s[Position(c.prefilled, i)] == Present(c.prefilled[i].tx))
    && (forall q :: 0 <= q < |s| && s[q].Present? ==> exists i :: 0 <= i < k && Position(c.prefilled, i) == q)
  }

  lemma NothingPlaced(c: CompactBlock, s: seq<Slot>)
    requires s == seq(|c.shortIds| + |c.prefilled|, _ => Absent)
    ensures Placed(c, s, 0)
  {
    CountAll(|s|);
  }

  lemma NextPosition(p: seq<Prefilled>, i: nat)
    requires i < |p|
    ensures Position(p, i) == (if i == 0 then -1 else Position(p, i - 1)) + p[i].index + 1
  {}

  lemma PlaceNext(c: CompactBlock, s: seq<Slot>, k: nat)
    requires k < |c.prefilled| && Placed(c, s, k) && PrefilledOk(c, k)
    ensures var q := Position(c.prefilled, k); 0 <= q < |s| && Placed(c, s[q := Present(c.prefilled[k].tx)], k + 1)
  {
    hide Position, CountAbsent;
    var q := Position(c.prefilled, k);
    PositionAtLeast(c.prefilled, k);
    forall i | 0 <= i < k ensures Position(c.prefilled, i) < q { PositionsIncrease(c.prefilled, i, k); }
    assert s[q].Absent?;
    CountUpdate(s, q, Present(c.prefilled[k].tx));
    var t := s[q := Present(c.prefilled[k].tx)];
    forall r | 0 <= r < |t| && t[r].Present? ensures exists i :: 0 <= i < k + 1 && Position(c.prefilled, i) == r {
      if r == q { assert Position(c.prefilled, k) == r; }
    }
  }

  // ----- short ids -----

  /** Place `k` of the list is the slot that is empty and has `k` empty slots before it. */
  ghost predicate Ranked(s: seq<Slot>, pos: seq<nat>) {
    forall k :: 0 <= k < |pos| ==> pos[k] < |s| && s[pos[k]].Absent? && CountAbsent(s[..pos[k]]) == k
  }

  /** The ranked places are in order, and are all the empty slots there are. */
  lemma RankedInOrder(s: seq<Slot>, pos: seq<nat>)
    requires Ranked(s, pos) && |pos| == CountAbsent(s)
    ensures forall j, k :: 0 <= j < k < |pos| ==> pos[j] < pos[k]
    ensures forall q :: 0 <= q < |s| ==> (s[q].Absent? <==> q in pos)
  {
    hide CountAbsent;
    forall j, k | 0 <= j < k < |pos| ensures pos[j] < pos[k] { RankBelow(s, pos[j], pos[k]); }
    forall q | 0 <= q < |s| && s[q].Absent? ensures q in pos { EmptyIsRanked(s, pos, q); }
  }

  lemma EmptyIsRanked(s: seq<Slot>, pos: seq<nat>, q: nat)
    requires Ranked(s, pos) && |pos| == CountAbsent(s) && q < |s| && s[q].Absent?
    ensures q in pos
  {
    hide CountAbsent;
    CountNext(s, q);
    CountPrefix(s, q + 1);
    var k := CountAbsent(s[..q]);
    RankSame(s, q, pos[k]);
  }

  lemma RankBelow(s: seq<Slot>, p: nat, q: nat)
    requires p < |s| && q < |s| && CountAbsent(s[..p]) < CountAbsent(s[..q])
    ensures p < q
  {
    if q <= p { CountMono(s, q, p); }
  }

  lemma CountMono(s: seq<Slot>, q: nat, p: nat)
    requires q <= p <= |s|
    ensures CountAbsent(s[..q]) <= CountAbsent(s[..p])
  {
    CountPrefix(s[..p], q);
    assert s[..p][..q] == s[..q];
  }

  lemma RankSame(s: seq<Slot>, p: nat, q: nat)
    requires p < |s| && q < |s| && s[p].Absent? && s[q].Absent? && CountAbsent(s[..p]) == CountAbsent(s[..q])
    ensures p == q
  {
    if p < q { RankStep(s, p, q); }
    if q < p { RankStep(s, q, p); }
  }

  lemma RankStep(s: seq<Slot>, p: nat, q: nat)
    requires p < q <= |s| && s[p].Absent?
    ensures CountAbsent(s[..p]) < CountAbsent(s[..q])
  {
    CountNext(s, p);
    CountPrefix(s[..q], p + 1);
    assert s[..q][..p + 1] == s[..p + 1];
  }

  predicate Distinct(ids: seq<nat>) { forall i, j :: 0 <= i < j < |ids| ==> ids[i] != ids[j] }

  function IdSet(ids: seq<nat>): set<nat> { set i | 0 <= i < |ids| :: ids[i] }

  /** The map from short ids to places, when no two short ids are the same. */
  ghost predicate Mapped(ids: seq<nat>, pos: seq<nat>, m: map<nat, nat>) {
    && |ids| == |pos| && Distinct(ids) && m.Keys == IdSet(ids)
    && forall i :: 0 <= i < |ids| ==> ids[i] in m && m[ids[i]] == pos[i]
  }

  lemma {:induction false} SetSize(ids: seq<nat>)
    ensures |IdSet(ids)| <= |ids| && (|IdSet(ids)| == |ids| <==> Distinct(ids))
  {
    if ids != [] {
      var n := |ids| - 1;
      var before := ids[..n];
      SetSize(before);
      assert IdSet(ids) == IdSet(before) + {ids[n]};
      if ids[n] in IdSet(before) {
        var i :| 0 <= i < |before| && before[i] == ids[n];
        assert IdSet(ids) == IdSet(before) && ids[i] == ids[n];
      } else {
        assert forall i :: 0 <= i < n ==> before[i] in IdSet(before);
        assert Distinct(before) ==> Distinct(ids);
        assert Distinct(ids) ==> Distinct(before);
      }
    }
  }

  /** How many ids a bucket of the hash map may hold. */
  const MAX_BUCKET := 12

  function InBucket(ids: set<nat>, bucketOf: nat -> nat, b: nat): set<nat> { set k | k in ids && bucketOf(k) == b }

  /** Some bucket of the hash map holds more different short ids than that. */
  ghost predicate Crowded(ids: seq<nat>, bucketOf: nat -> nat) {
    exists i :: 0 <= i < |ids| && |InBucket(IdSet(ids), bucketOf, bucketOf(ids[i]))| > MAX_BUCKET
  }

  lemma {:induction false} SubsetSize(a: set<nat>, b: set<nat>)
    requires a <= b
    ensures |a| <= |b|
  {
    if a != {} {
      var x :| x in a;
      SubsetSize(a - {x}, b - {x});
    }
  }

  /** One more id: only its own bucket can become crowded, and it stays so. */
  lemma OneMoreInBucket(ids: seq<nat>, bucketOf: nat -> nat, i: nat)
    requires i < |ids| && !Crowded(ids[..i], bucketOf)
    ensures var full := |InBucket(IdSet(ids[..i + 1]), bucketOf, bucketOf(ids[i]))| > MAX_BUCKET;
      if full then Crowded(ids, bucketOf) else !Crowded(ids[..i + 1], bucketOf)
  {
    var before, after, all := IdSet(ids[..i]), IdSet(ids[..i + 1]), IdSet(ids);
    var now, b := ids[..i + 1], bucketOf(ids[i]);
    if |InBucket(after, bucketOf, b)| > MAX_BUCKET {
      assert forall k :: 0 <= k < i + 1 ==> now[k] == ids[k];
      assert InBucket(after, bucketOf, b) <= InBucket(all, bucketOf, b);
      SubsetSize(InBucket(after, bucketOf, b), InBucket(all, bucketOf, b));
    } else {
      forall j | 0 <= j < |now| ensures |InBucket(after, bucketOf, bucketOf(now[j]))| <= MAX_BUCKET {
        var c := bucketOf(ids[j]);
        if c != b {
          assert ids[..i][j] == ids[j];
          assert after == before + {ids[i]};
          assert InBucket(after, bucketOf, c) == InBucket(before, bucketOf, c);
        }
      }
    }
  }

  class PartiallyDownloadedBlock {
    var available: seq<Slot>
    var headerIsNull: bool
    var prefilledCount: nat
    var mempoolCount: nat

    constructor ()
      ensures available == [] && headerIsNull && prefilledCount == 0 && mempoolCount == 0
    {
      available, headerIsNull, prefilledCount, mempoolCount := [], true, 0, 0;
    }

    /** Puts every prefilled transaction at its place, or finds one that has none. */
    method Prefill(c: CompactBlock) returns (ok: bool)
      modifies this`available
      ensures ok <==> forall i :: 0 <= i < |c.prefilled| ==> PrefilledOk(c, i)
      ensures ok ==> Placed(c, available, |c.prefilled|)
    {
      hide CountAbsent, Placed, Position;
      available := seq(|c.shortIds| + |c.prefilled|, _ => Absent);
      NothingPlaced(c, available);
      var last := -1;
      for i := 0 to |c.prefilled|
        invariant Placed(c, available, i) && last == (if i == 0 then -1 else Position(c.prefilled, i - 1))
        invariant forall j :: 0 <= j < i ==> PrefilledOk(c, j)
      {
        if c.prefilled[i].tx.isNull {
          assert !PrefilledOk(c, i);
          return false;
        }
        NextPosition(c.prefilled, i);
        last := last + c.prefilled[i].index + 1;
        if last > MAX_UINT16 || last > |c.shortIds| + i {
          assert !PrefilledOk(c, i);
          return false;
        }
        PlaceNext(c, available, i);
        available := available[last := Present(c.prefilled[i].tx)];
      }
      ok := true;
    }

    /** Gives each short id, in order, the next empty slot, unless a bucket of the hash map gets crowded. */
    method MapShortIds(c: CompactBlock, bucketOf: nat -> nat)
      returns (crowded: bool, m: map<nat, nat>, ghost pos: seq<nat>)
      requires |c.shortIds| == CountAbsent(available)
      ensures crowded <==> Crowded(c.shortIds, bucketOf)
      ensures !crowded ==> (|m| == |c.shortIds| <==> Distinct(c.shortIds))
      ensures !crowded ==> |pos| == |c.shortIds| && Ranked(available, pos)
      ensures !crowded && Distinct(c.shortIds) ==> Mapped(c.shortIds, pos, m)
    {
      hide CountAbsent, Ranked, MapBuilt, Crowded, InBucket, IdSet;
      m, pos := map[], [];
      var offset := 0;
      var ids := c.shortIds;
      NothingMapped(available, ids);
      NoneCrowded(ids, bucketOf);
      for i := 0 to |ids|
        invariant 0 <= i + offset <= |available| && CountAbsent(available[..i + offset]) == i == |pos|
        invariant Ranked(available, pos) && MapBuilt(ids, pos, m, i) && !Crowded(ids[..i], bucketOf)
      {
        var p := NextEmpty(i + offset, i);
        OneMoreRanked(available, pos, p);
        OneMoreMapped(ids, pos, m, p);
        m := m[ids[i] := p];
        pos := pos + [p];
        OneMoreInBucket(ids, bucketOf, i);
        MappedKeys(ids, pos, m, i + 1);
        if |InBucket(m.Keys, bucketOf, bucketOf(ids[i]))| > MAX_BUCKET { return true, m, pos; }
        CountNext(available, p);
        offset := p - i;
      }
      AllMapped(ids, pos, m);
      assert ids[..|ids|] == ids;
      crowded := false;
    }

    /** The first empty slot from `from` on, `i` empty slots being before it. */
    method NextEmpty(from: nat, ghost i: nat) returns (p: nat)
      requires from <= |available| && CountAbsent(available[..from]) == i < CountAbsent(available)
      ensures from <= p < |available| && available[p].Absent? && CountAbsent(available[..p]) == i
    {
      hide CountAbsent;
      p := from;
      NotAtEnd(available, p);
      while available[p].Present?
        invariant from <= p < |available| && CountAbsent(available[..p]) == i
        decreases |available| - p
      {
        CountNext(available, p);
        p := p + 1;
        NotAtEnd(available, p);
      }
    }

    /**
     * Offers the slots of the short ids one transaction after the other: the
     * first match fills a slot, a second one empties it for good. Transactions
     * kept aside do not count as a second match of the same transaction.
     */
    method ScanOffers(c: CompactBlock, offers: seq<Offer>, shortId: int -> nat, m: map<nat, nat>,
                      have: seq<bool>, extra: bool,
                      ghost first: seq<Slot>, ghost pos: seq<nat>, ghost seen: seq<Offer>, ghost met: seq<Met>)
      returns (after: seq<bool>)
      requires Mapped(c.shortIds, pos, m) && Scanned(c, shortId, first, pos, available, have, mempoolCount, seen)
      requires Collected(c.shortIds, shortId, pos, available, have, met)
      modifies this`available, this`mempoolCount
      ensures Scanned(c, shortId, first, pos, available, after, mempoolCount, seen + offers)
      ensures Collected(c.shortIds, shortId, pos, available, after, Scan(c.shortIds, shortId, met, offers, extra))
    {
      hide Scanned, Mapped, Collected, Scan, Full, SlotOf;
      after := have;
      var i := 0;
      ghost var done, now := seen, met;
      ghost var last := Scan(c.shortIds, shortId, met, offers, extra);
      assert seen + offers[..0] == seen && offers[0..] == offers;
      NothingToScan(c.shortIds, shortId, met, offers, extra);
      while i < |offers|
        invariant 0 <= i <= |offers| && done == seen + offers[..i]
        invariant Scanned(c, shortId, first, pos, available, after, mempoolCount, done)
        invariant Collected(c.shortIds, shortId, pos, available, after, now)
        invariant last == Scan(c.shortIds, shortId, now, offers[i..], extra)
      {
        var o := offers[i];
        var id := shortId(o.hash);
        ghost var x := Met(o, extra);
        ScanNext(c.shortIds, shortId, now, offers, i, extra);
        if id in m {
          var p := m[id];
          ghost var k := PlaceOf(c.shortIds, pos, m, id);
          TakeOffer(c, shortId, first, pos, available, after, mempoolCount, done, o, k);
          CollectOne(c.shortIds, shortId, pos, m, available, after, now, x, k);
          if !after[p] {
            available, mempoolCount := available[p := Present(o.tx)], mempoolCount + 1;
            after := after[p := true];
          } else if available[p].Present? && (!extra || available[p].tx.witnessHash != o.tx.witnessHash) {
            available, mempoolCount := available[p := Absent], mempoolCount - 1;
          }
        } else {
          SeenMore(c, shortId, first, pos, available, after, mempoolCount, done, [o]);
          CollectNone(c.shortIds, shortId, pos, m, available, after, now, x);
        }
        assert offers[..i + 1] == offers[..i] + [o];
        done, now := done + [o], now + [x];
        i := i + 1;
        FullIffCounted(c, shortId, first, pos, m, available, after, mempoolCount, done, now);
        if mempoolCount == |m| {
          last := now;
          break;
        }
      }
      if i == |offers| && last != now { NothingToScan(c.shortIds, shortId, now, offers[i..], extra); }
      SeenMore(c, shortId, first, pos, available, after, mempoolCount, done, offers[i..]);
      assert done + offers[i..] == seen + offers;
    }

    method InitData(c: CompactBlock, pool: seq<Offer>, extra: seq<Offer>, shortId: int -> nat, bucketOf: nat -> nat)
      returns (status: Status, ghost pos: seq<nat>)
      requires headerIsNull && available == [] && mempoolCount == 0
      requires |c.shortIds| + |c.prefilled| <= MAX_UINT16
      modifies this
      ensures status.Invalid? <==> !Acceptable(c)
      ensures status.Failed? <==> Acceptable(c) && (Crowded(c.shortIds, bucketOf) || !Distinct(c.shortIds))
      ensures !status.CheckBlockFailed?
      ensures status.Ok? ==> !headerIsNull && prefilledCount == |c.prefilled| && Laid(c, pos)
      ensures status.Ok? ==> Sourced(c, shortId, pos, available, pool + extra)
      ensures status.Ok? ==> Gathered(c, shortId, pos, available, pool, extra)
      ensures status.Ok? ==> mempoolCount + CountAbsent(available) == |c.shortIds|
    {
      hide PrefilledOk, Placed, CountAbsent, Ranked, Mapped, Laid, Sourced, Scanned, Distinct, Crowded, Scan, SlotOf,
        AnyMatches;
      pos := [];
      if c.headerIsNull || (c.shortIds == [] && c.prefilled == []) { return Invalid, []; }
      if |c.shortIds| + |c.prefilled| > MAX_TRANSACTIONS { return Invalid, []; }
      headerIsNull := false;
      var ok := Prefill(c);
      if !ok { return Invalid, []; }
      prefilledCount := |c.prefilled|;
      ghost var first := available;
      PlacedCount(c, first);
      var crowded, m;
      crowded, m, pos := MapShortIds(c, bucketOf);
      if crowded { return Failed, []; }
      if |m| != |c.shortIds| { return Failed, []; }
      StartScan(c, shortId, first, pos);
      var have := seq(|available|, _ => false);
      NothingCollected(c, shortId, first, pos);
      have := ScanOffers(c, pool, shortId, m, have, false, first, pos, [], []);
      ghost var met := Scan(c.shortIds, shortId, [], pool, false);
      have := ScanOffers(c, extra, shortId, m, have, true, first, pos, [] + pool, met);
      assert [] + pool + extra == pool + extra;
      ScanDone(c, shortId, first, pos, available, have, mempoolCount, pool + extra);
      status := Ok;
    }

    method FillBlock(missing: seq<Tx>, check: seq<Tx> -> BlockCheck) returns (status: Status, vtx: seq<Tx>)
      requires !headerIsNull
      modifies this
      ensures |missing| < old(CountAbsent(available)) ==> status.Invalid?
      ensures |missing| > old(CountAbsent(available)) ==> status.Invalid? && headerIsNull && available == []
      ensures |missing| == old(CountAbsent(available)) ==>
        && headerIsNull && available == [] && vtx == Merged(old(available), missing)
        && status == match check(vtx) case Passed => Ok case Mutated => Failed case Rejected => CheckBlockFailed
    {
      hide CountAbsent, Merged;
      ghost var was := available;
      var offset := 0;
      vtx := [];
      NothingMerged(was, missing);
      for i := 0 to |available|
        invariant |available| == |was| && forall j :: i <= j < |was| ==> available[j] == was[j]
        invariant offset == CountAbsent(was[..i]) <= |missing| && vtx == Merged(was[..i], missing[..offset])
      {
        CountNext(was, i);
        MergeNext(was, missing, i);
        if available[i].Absent? {
          if |missing| <= offset {
            CountPrefix(was, i + 1);
            return Invalid, vtx;
          }
          vtx := vtx + [missing[offset]];
          offset := offset + 1;
        } else {
          vtx := vtx + [available[i].tx];
          available := available[i := Absent];
        }
      }
      assert was[..|was|] == was;
      headerIsNull, available := true, [];
      if |missing| != offset { return Invalid, vtx; }
      assert missing[..offset] == missing;
      status := match check(vtx) case Passed => Ok case Mutated => Failed case Rejected => CheckBlockFailed;
    }
  }

  lemma NotAtEnd(s: seq<Slot>, p: nat)
    requires p <= |s| && CountAbsent(s[..p]) < CountAbsent(s)
    ensures p < |s|
  {
    assert s[..|s|] == s;
  }

  /** The map and places after the first `i` short ids. */
  ghost predicate MapBuilt(ids: seq<nat>, pos: seq<nat>, m: map<nat, nat>, i: nat) {
    && i <= |ids| && |pos| == i && m.Keys == IdSet(ids[..i])
    && (Distinct(ids) ==> forall j :: 0 <= j < i ==> ids[j] in m && m[ids[j]] == pos[j])
  }

  lemma NothingMapped(s: seq<Slot>, ids: seq<nat>)
    ensures CountAbsent(s[..0]) == 0 && Ranked(s, []) && MapBuilt(ids, [], map[], 0)
  {}

  lemma NoneCrowded(ids: seq<nat>, bucketOf: nat -> nat)
    ensures !Crowded(ids[..0], bucketOf)
  {}

  lemma MappedKeys(ids: seq<nat>, pos: seq<nat>, m: map<nat, nat>, i: nat)
    requires MapBuilt(ids, pos, m, i)
    ensures i <= |ids| && m.Keys == IdSet(ids[..i])
  {}

  lemma OneMoreRanked(s: seq<Slot>, pos: seq<nat>, p: nat)
    requires Ranked(s, pos) && p < |s| && s[p].Absent? && CountAbsent(s[..p]) == |pos|
    ensures Ranked(s, pos + [p])
  {
    hide CountAbsent;
  }

  lemma OneMoreMapped(ids: seq<nat>, pos: seq<nat>, m: map<nat, nat>, p: nat)
    requires MapBuilt(ids, pos, m, |pos|) && |pos| < |ids|
    ensures MapBuilt(ids, pos + [p], m[ids[|pos|] := p], |pos| + 1)
  {
    var i := |pos|;
    assert ids[..i + 1] == ids[..i] + [ids[i]];
    assert IdSet(ids[..i + 1]) == IdSet(ids[..i]) + {ids[i]} by { IdSetSnoc(ids[..i], ids[i]); }
  }

  lemma IdSetSnoc(ids: seq<nat>, x: nat)
    ensures IdSet(ids + [x]) == IdSet(ids) + {x}
  {
    var t := ids + [x];
    forall y ensures y in IdSet(t) <==> y in IdSet(ids) + {x} {
      if y in IdSet(ids) { var i :| 0 <= i < |ids| && ids[i] == y; assert t[i] == y; }
      if y == x { assert t[|ids|] == y; }
    }
  }

  lemma AllMapped(ids: seq<nat>, pos: seq<nat>, m: map<nat, nat>)
    requires MapBuilt(ids, pos, m, |ids|)
    ensures |m| == |ids| <==> Distinct(ids)
    ensures Distinct(ids) ==> Mapped(ids, pos, m)
  {
    assert ids[..|ids|] == ids;
    SetSize(ids);
    assert |m| == |m.Keys|;
  }

  // ----- scanning -----

  lemma PlaceOf(ids: seq<nat>, pos: seq<nat>, m: map<nat, nat>, id: nat) returns (k: nat)
    requires Mapped(ids, pos, m) && id in m
    ensures k < |ids| == |pos| && ids[k] == id && m[id] == pos[k]
  {
    assert id in IdSet(ids);
    k :| 0 <= k < |ids| && ids[k] == id;
  }

  ghost predicate From(shortId: int -> nat, offers: seq<Offer>, tx: Tx, id: nat) {
    exists o :: o in offers && o.tx == tx && shortId(o.hash) == id
  }

  /** The slots part way through the offers: only slots of short ids change, each filled from an offer with
      its short id, and counted. */
  ghost predicate Scanned(c: CompactBlock, shortId: int -> nat, first: seq<Slot>, pos: seq<nat>,
                          s: seq<Slot>, have: seq<bool>, count: nat, offers: seq<Offer>)
  {
    && |s| == |first| == |have| && |pos| == |c.shortIds| == CountAbsent(first) && count + CountAbsent(s) == |pos|
    && (forall k :: 0 <= k < |pos| ==> pos[k] < |first| && first[pos[k]].Absent?)
    && (forall q :: 0 <= q < |s| && first[q].Absent? ==> q in pos)
    && (forall q :: 0 <= q < |s| && first[q].Present? ==> s[q] == first[q])
    && (forall q :: 0 <= q < |s| && first[q].Absent? && !have[q] ==> s[q].Absent?)
    && (forall j, k :: 0 <= j < k < |pos| ==> pos[j] != pos[k])
    && (forall k :: 0 <= k < |pos| && s[pos[k]].Present? ==> From(shortId, offers, s[pos[k]].tx, c.shortIds[k]))
  }

  /** The slots of the short ids hold what the offers met leave there, and those that had a match are marked. */
  ghost predicate Collected(ids: seq<nat>, shortId: int -> nat, pos: seq<nat>, s: seq<Slot>, have: seq<bool>,
      met: seq<Met>)
  {
    && |ids| == |pos| && |s| == |have|
    && forall k :: 0 <= k < |pos| ==>
         && pos[k] < |s| && s[pos[k]] == SlotOf(shortId, ids[k], met)
         && (have[pos[k]] <==> AnyMatches(shortId, ids[k], met))
  }

  /** Every slot of a short id holds what the scans of both lists leave there. */
  ghost predicate Gathered(c: CompactBlock, shortId: int -> nat, pos: seq<nat>, s: seq<Slot>, pool: seq<Offer>,
      extra: seq<Offer>)
  {
    && |pos| == |c.shortIds|
    && forall k :: 0 <= k < |pos| ==>
         pos[k] < |s| && s[pos[k]] == SlotOf(shortId, c.shortIds[k], AllMet(c.shortIds, shortId, pool, extra))
  }

  lemma NothingCollected(c: CompactBlock, shortId: int -> nat, first: seq<Slot>, pos: seq<nat>)
    requires Scanned(c, shortId, first, pos, first, seq(|first|, _ => false), 0, [])
    ensures Collected(c.shortIds, shortId, pos, first, seq(|first|, _ => false), [])
  {}

  lemma MetOneMore(shortId: int -> nat, id: nat, met: seq<Met>, x: Met)
    ensures AnyMatches(shortId, id, met + [x]) <==> AnyMatches(shortId, id, met) || Matches(shortId, id, x)
    ensures !Matches(shortId, id, x) ==> SlotOf(shortId, id, met + [x]) == SlotOf(shortId, id, met)
    ensures Matches(shortId, id, x) && !AnyMatches(shortId, id, met) ==>
      SlotOf(shortId, id, met + [x]) == Present(x.offer.tx)
    ensures Matches(shortId, id, x) && AnyMatches(shortId, id, met) ==>
      var was := SlotOf(shortId, id, met);
      SlotOf(shortId, id, met + [x]) == if was.Present? && Disagrees(was.tx, x) then Absent else was
  {
    hide Matches, Disagrees;
    var more, n := met + [x], |met|;
    assert more[..n] == met && more[n] == x;
    if AnyMatches(shortId, id, met) {
      var i :| 0 <= i < |met| && Matches(shortId, id, met[i]);
      assert more[i] == met[i];
    }
  }

  lemma CollectNone(ids: seq<nat>, shortId: int -> nat, pos: seq<nat>, m: map<nat, nat>, s: seq<Slot>,
      have: seq<bool>, met: seq<Met>, x: Met)
    requires Mapped(ids, pos, m) && shortId(x.offer.hash) !in m && Collected(ids, shortId, pos, s, have, met)
    ensures Collected(ids, shortId, pos, s, have, met + [x])
  {
    hide SlotOf, AnyMatches;
    forall k | 0 <= k < |pos| ensures
      && pos[k] < |s| && s[pos[k]] == SlotOf(shortId, ids[k], met + [x])
      && (have[pos[k]] <==> AnyMatches(shortId, ids[k], met + [x]))
    {
      assert ids[k] in m;
      MetOneMore(shortId, ids[k], met, x);
    }
  }

  /** One step of the scan on the slot of a short id. */
  lemma CollectOne(ids: seq<nat>, shortId: int -> nat, pos: seq<nat>, m: map<nat, nat>, s: seq<Slot>,
      have: seq<bool>, met: seq<Met>, x: Met, k: nat)
    requires Mapped(ids, pos, m) && k < |ids| && shortId(x.offer.hash) == ids[k]
    requires Collected(ids, shortId, pos, s, have, met) && forall i, j :: 0 <= i < j < |pos| ==> pos[i] != pos[j]
    ensures var p := pos[k];
      if !have[p] then Collected(ids, shortId, pos, s[p := Present(x.offer.tx)], have[p := true], met + [x])
      else if s[p].Present? && Disagrees(s[p].tx, x) then Collected(ids, shortId, pos, s[p := Absent], have, met + [x])
      else Collected(ids, shortId, pos, s, have, met + [x])
  {
    hide SlotOf, AnyMatches, Disagrees;
    forall i | 0 <= i < |ids| ensures Matches(shortId, ids[i], x) <==> i == k {}
    forall i | 0 <= i < |ids| && i != k ensures pos[i] != pos[k] {}
    forall i | 0 <= i < |ids| ensures
      && (AnyMatches(shortId, ids[i], met + [x]) <==> AnyMatches(shortId, ids[i], met) || i == k)
      && (i != k ==> SlotOf(shortId, ids[i], met + [x]) == SlotOf(shortId, ids[i], met))
    {
      MetOneMore(shortId, ids[i], met, x);
    }
    MetOneMore(shortId, ids[k], met, x);
  }

  lemma NothingToScan(ids: seq<nat>, shortId: int -> nat, met: seq<Met>, offers: seq<Offer>, extra: bool)
    ensures offers == [] ==> Scan(ids, shortId, met, offers, extra) == met
  {}

  lemma ScanNext(ids: seq<nat>, shortId: int -> nat, met: seq<Met>, offers: seq<Offer>, i: nat, extra: bool)
    requires i < |offers|
    ensures var more := met + [Met(offers[i], extra)];
      Scan(ids, shortId, met, offers[i..], extra) ==
      if Full(ids, shortId, more) then more else Scan(ids, shortId, more, offers[i + 1..], extra)
  {
    hide Full;
    assert offers[i..][1..] == offers[i + 1..];
  }

  lemma FullIffCounted(c: CompactBlock, shortId: int -> nat, first: seq<Slot>, pos: seq<nat>, m: map<nat, nat>,
      s: seq<Slot>, have: seq<bool>, count: nat, offers: seq<Offer>, met: seq<Met>)
    requires Mapped(c.shortIds, pos, m) && Scanned(c, shortId, first, pos, s, have, count, offers)
    requires Collected(c.shortIds, shortId, pos, s, have, met)
    ensures count == |m| <==> Full(c.shortIds, shortId, met)
  {
    hide SlotOf, From;
    SetSize(c.shortIds);
    assert |m| == |m.Keys| == |pos|;
    NoneAbsentIff(s);
    if Full(c.shortIds, shortId, met) {
      forall q | 0 <= q < |s| ensures s[q].Present? {
        if first[q].Absent? {
          var k :| 0 <= k < |pos| && pos[k] == q;
        }
      }
    }
  }

  lemma {:induction false} NoneAbsentIff(s: seq<Slot>)
    ensures CountAbsent(s) == 0 <==> forall q :: 0 <= q < |s| ==> s[q].Present?
  {
    if s != [] {
      var n := |s| - 1;
      NoneAbsentIff(s[..n]);
      if CountAbsent(s) == 0 {
        forall q | 0 <= q < |s| ensures s[q].Present? { if q < n { assert s[..n][q] == s[q]; } }
      }
    }
  }

  lemma StartScan(c: CompactBlock, shortId: int -> nat, first: seq<Slot>, pos: seq<nat>)
    requires Ranked(first, pos) && |pos| == |c.shortIds| == CountAbsent(first)
    ensures Scanned(c, shortId, first, pos, first, seq(|first|, _ => false), 0, [])
  {
    RankedInOrder(first, pos);
  }

  lemma SeenMore(c: CompactBlock, shortId: int -> nat, first: seq<Slot>, pos: seq<nat>,
                 s: seq<Slot>, have: seq<bool>, count: nat, offers: seq<Offer>, more: seq<Offer>)
    requires Scanned(c, shortId, first, pos, s, have, count, offers)
    ensures Scanned(c, shortId, first, pos, s, have, count, offers + more)
  {
    hide CountAbsent;
    forall k | 0 <= k < |pos| && s[pos[k]].Present? ensures From(shortId, offers + more, s[pos[k]].tx, c.shortIds[k]) {
      FromMore(shortId, offers, more, s[pos[k]].tx, c.shortIds[k]);
    }
  }

  lemma FromMore(shortId: int -> nat, offers: seq<Offer>, more: seq<Offer>, tx: Tx, id: nat)
    requires From(shortId, offers, tx, id)
    ensures From(shortId, offers + more, tx, id)
  {
    var o :| o in offers && o.tx == tx && shortId(o.hash) == id;
    assert o in offers + more;
  }

  /** Emptier slots, fewer of them empty. */
  lemma {:induction false} AbsentFewer(s: seq<Slot>, t: seq<Slot>)
    requires |s| == |t| && forall q :: 0 <= q < |s| && s[q].Absent? ==> t[q].Absent?
    ensures CountAbsent(s) <= CountAbsent(t)
  {
    if s != [] { AbsentFewer(s[..|s| - 1], t[..|t| - 1]); }
  }

  /** What the first and the second match of a short id do. */
  lemma TakeOffer(c: CompactBlock, shortId: int -> nat, first: seq<Slot>, pos: seq<nat>,
                  s: seq<Slot>, have: seq<bool>, count: nat, offers: seq<Offer>, o: Offer, k: nat)
    requires Scanned(c, shortId, first, pos, s, have, count, offers)
    requires k < |pos| && shortId(o.hash) == c.shortIds[k]
    ensures pos[k] < |s| == |have| && forall i, j :: 0 <= i < j < |pos| ==> pos[i] != pos[j]
    ensures !have[pos[k]] ==>
      Scanned(c, shortId, first, pos, s[pos[k] := Present(o.tx)], have[pos[k] := true], count + 1, offers + [o])
    ensures have[pos[k]] ==> Scanned(c, shortId, first, pos, s, have, count, offers + [o])
    ensures have[pos[k]] && s[pos[k]].Present? ==>
      count > 0 && Scanned(c, shortId, first, pos, s[pos[k] := Absent], have, count - 1, offers + [o])
  {
    hide CountAbsent, From;
    var p := pos[k];
    SeenMore(c, shortId, first, pos, s, have, count, offers, [o]);
    assert From(shortId, offers + [o], o.tx, c.shortIds[k]) by { FromLast(shortId, offers, o); }
    CountUpdate(s, p, Present(o.tx));
    CountUpdate(s, p, Absent);
    AbsentFewer(s[p := Absent], first);
  }

  lemma FromLast(shortId: int -> nat, offers: seq<Offer>, o: Offer)
    ensures From(shortId, offers + [o], o.tx, shortId(o.hash))
  {
    assert o in offers + [o];
  }

  // ----- what an accepted block looks like -----

  ghost predicate NotPrefilled(c: CompactBlock, q: nat) {
    forall i :: 0 <= i < |c.prefilled| ==> Position(c.prefilled, i) != q
  }

  /** The places of the short ids are, in order, the positions no prefilled transaction has. */
  ghost predicate Laid(c: CompactBlock, pos: seq<nat>) {
    && |pos| == |c.shortIds| && (forall j, k :: 0 <= j < k < |pos| ==> pos[j] < pos[k])
    && (forall i :: 0 <= i < |c.prefilled| ==> 0 <= Position(c.prefilled, i) < |c.shortIds| + |c.prefilled|)
    && (forall q :: 0 <= q < |c.shortIds| + |c.prefilled| ==>
          (q in pos <==> NotPrefilled(c, q)))
    && (forall k :: 0 <= k < |pos| ==> pos[k] < |c.shortIds| + |c.prefilled|)
  }

  /** Prefilled transactions are in place, and every other transaction there came from an offer with the short
      id of its place. */
  ghost predicate Sourced(c: CompactBlock, shortId: int -> nat, pos: seq<nat>, s: seq<Slot>, offers: seq<Offer>)
    requires Laid(c, pos)
  {
    && |s| == |c.shortIds| + |c.prefilled|
    && (forall i :: 0 <= i < |c.prefilled| ==> s[Position(c.prefilled, i)] == Present(c.prefilled[i].tx))
    && (forall k :: 0 <= k < |pos| && s[pos[k]].Present? ==> From(shortId, offers, s[pos[k]].tx, c.shortIds[k]))
  }

  lemma PlacedCount(c: CompactBlock, s: seq<Slot>)
    requires Placed(c, s, |c.prefilled|)
    ensures CountAbsent(s) == |c.shortIds|
  {}

  lemma LaidOut(c: CompactBlock, first: seq<Slot>, pos: seq<nat>)
    requires Placed(c, first, |c.prefilled|) && Ranked(first, pos) && |pos| == |c.shortIds|
    ensures Laid(c, pos)
  {
    hide Position;
    PlacedCount(c, first);
    RankedInOrder(first, pos);
    forall q: nat | q < |first| ensures q in pos <==> NotPrefilled(c, q) {
      EmptyIffNotPrefilled(c, first, q);
      assert q in pos <==> first[q].Absent?;
    }
  }

  lemma EmptyIffNotPrefilled(c: CompactBlock, first: seq<Slot>, q: nat)
    requires Placed(c, first, |c.prefilled|) && q < |first|
    ensures first[q].Absent? <==> NotPrefilled(c, q)
  {
    hide Position, CountAbsent;
  }

  lemma ScanDone(c: CompactBlock, shortId: int -> nat, first: seq<Slot>, pos: seq<nat>,
                 s: seq<Slot>, have: seq<bool>, count: nat, offers: seq<Offer>)
    requires Placed(c, first, |c.prefilled|) && Ranked(first, pos) && |pos| == |c.shortIds|
    requires Scanned(c, shortId, first, pos, s, have, count, offers)
    ensures Laid(c, pos) && Sourced(c, shortId, pos, s, offers) && count + CountAbsent(s) == |c.shortIds|
  {
    hide Position, CountAbsent, From, Laid;
    LaidOut(c, first, pos);
  }

  // ----- filling the gaps -----

  /** The transactions in the slots, the empty ones taken in order from `missing`. */
  function Merged(s: seq<Slot>, missing: seq<Tx>): (r: seq<Tx>)
    requires |missing| == CountAbsent(s)
    ensures |r| == |s|
  {
    if s == [] then []
    else
      var n, m := |s| - 1, |missing| - 1;
      if s[n].Absent? then Merged(s[..n], missing[..m]) + [missing[m]] else Merged(s[..n], missing) + [s[n].tx]
  }

  lemma NothingMerged(s: seq<Slot>, missing: seq<Tx>)
    ensures CountAbsent(s[..0]) == 0 && Merged(s[..0], missing[..0]) == []
  {}

  lemma MergeNext(s: seq<Slot>, missing: seq<Tx>, i: nat)
    requires i < |s| && CountAbsent(s[..i]) <= |missing|
    ensures CountAbsent(s[..i + 1]) == CountAbsent(s[..i]) + (if s[i].Absent? then 1 else 0)
    ensures var k := CountAbsent(s[..i]);
      && (s[i].Present? ==> Merged(s[..i + 1], missing[..k]) == Merged(s[..i], missing[..k]) + [s[i].tx])
      && (s[i].Absent? && k < |missing| ==>
            Merged(s[..i + 1], missing[..k + 1]) == Merged(s[..i], missing[..k]) + [missing[k]])
  {
    CountNext(s, i);
    var t, k := s[..i + 1], CountAbsent(s[..i]);
    assert t[..i] == s[..i];
    if k < |missing| { assert missing[..k + 1][..k] == missing[..k]; }
  }

  /** The transactions of a block that are not available, in order. */
  function Missing(s: seq<Slot>, block: seq<Tx>): (r: seq<Tx>)
    requires |s| == |block|
    ensures |r| == CountAbsent(s)
  {
    if s == [] then []
    else
      var n := |s| - 1;
      Missing(s[..n], block[..n]) + (if s[n].Absent? then [block[n]] else [])
  }

  /** Slots that agree with a block, filled with the rest of it, are the block. */
  lemma {:induction false} MergeMissing(s: seq<Slot>, block: seq<Tx>)
    requires |s| == |block| && forall q :: 0 <= q < |s| && s[q].Present? ==> s[q].tx == block[q]
    ensures Merged(s, Missing(s, block)) == block
  {
    if s != [] {
      var n := |s| - 1;
      MergeMissing(s[..n], block[..n]);
      assert block == block[..n] + [block[n]];
      var r := Missing(s[..n], block[..n]);
      if s[n].Absent? { assert Missing(s, block)[..|r|] == r; } else { assert Missing(s, block) == r; }
    }
  }

  /** The compact form of a block at the places of its short ids. */
  ghost predicate Describes(c: CompactBlock, pos: seq<nat>, block: seq<Tx>, hashOf: Tx -> int, shortId: int -> nat)
    requires Laid(c, pos)
  {
    && |block| == |c.shortIds| + |c.prefilled|
    && (forall i :: 0 <= i < |c.prefilled| ==> c.prefilled[i].tx == block[Position(c.prefilled, i)])
    && (forall k :: 0 <= k < |pos| ==> c.shortIds[k] == shortId(hashOf(block[pos[k]])))
  }

  /** No offered transaction has the short id of another one in the block. */
  ghost predicate NoCollision(c: CompactBlock, pos: seq<nat>, block: seq<Tx>, offers: seq<Offer>, shortId: int -> nat)
    requires Laid(c, pos) && |block| == |c.shortIds| + |c.prefilled|
  {
    forall o, k :: o in offers && 0 <= k < |pos| && shortId(o.hash) == c.shortIds[k] ==> o.tx == block[pos[k]]
  }

  /** Without collisions, filling an accepted block with what is missing gives the original block. */
  lemma BlockRebuilt(c: CompactBlock, pos: seq<nat>, s: seq<Slot>, offers: seq<Offer>,
                     block: seq<Tx>, hashOf: Tx -> int, shortId: int -> nat)
    requires Laid(c, pos) && Sourced(c, shortId, pos, s, offers) && Describes(c, pos, block, hashOf, shortId)
    requires NoCollision(c, pos, block, offers, shortId)
    ensures Merged(s, Missing(s, block)) == block
  {
    hide Merged, Missing, Position;
    forall q | 0 <= q < |s| && s[q].Present? ensures s[q].tx == block[q] {
      if q in pos {
        var k :| 0 <= k < |pos| && pos[k] == q;
        assert From(shortId, offers, s[pos[k]].tx, c.shortIds[k]);
      } else {
        assert !NotPrefilled(c, q);
        var i :| 0 <= i < |c.prefilled| && Position(c.prefilled, i) == q;
      }
    }
    MergeMissing(s, block);
  }

  // ----- making a compact block -----

  /** The first transaction in full, short ids for the rest. */
  method MakeCompact(block: seq<Tx>, hashOf: Tx -> int, shortId: int -> nat) returns (c: CompactBlock)
    requires block != []
    ensures |c.shortIds| == |block| - 1 && c.prefilled == [Prefilled(0, block[0])] && !c.headerIsNull
    ensures forall i :: 1 <= i < |block| ==> c.shortIds[i - 1] == shortId(hashOf(block[i]))
  {
    var ids := [];
    for i := 1 to |block|
      invariant |ids| == i - 1 && forall j :: 0 <= j < |ids| ==> ids[j] == shortId(hashOf(block[j + 1]))
    {
      ids := ids + [shortId(hashOf(block[i]))];
    }
    c := CompactBlock(false, ids, [Prefilled(0, block[0])]);
  }

  /** A compact block made from a block is accepted, and describes it wherever its short ids are placed. */
  lemma MadeDescribes(c: CompactBlock, pos: seq<nat>, block: seq<Tx>, hashOf: Tx -> int, shortId: int -> nat)
    requires 0 < |block| <= MAX_UINT16 && !block[0].isNull
    requires |c.shortIds| == |block| - 1 && c.prefilled == [Prefilled(0, block[0])] && !c.headerIsNull
    requires forall i :: 1 <= i < |block| ==> c.shortIds[i - 1] == shortId(hashOf(block[i]))
    ensures Acceptable(c)
    ensures Laid(c, pos) ==> Describes(c, pos, block, hashOf, shortId)
  {
    assert Position(c.prefilled, 0) == 0;
    if Laid(c, pos) {
      forall k | 0 <= k < |pos| ensures pos[k] == k + 1 { AfterFirst(c, pos, k); }
    }
  }

  lemma {:induction false} AfterFirst(c: CompactBlock, pos: seq<nat>, k: nat)
    requires |c.prefilled| == 1 && Position(c.prefilled, 0) == 0 && Laid(c, pos) && k < |pos|
    ensures pos[k] == k + 1
  {
    if k == 0 {
      assert 1 in pos && 0 !in pos;
      var j :| 0 <= j < |pos| && pos[j] == 1;
    } else {
      AfterFirst(c, pos, k - 1);
      assert k + 1 in pos;
      var j :| 0 <= j < |pos| && pos[j] == k + 1;
    }
  }

  /**
   * A block sent as a compact block, reconstructed from any offers without
   * collisions and the missing transactions in order, is the block itself,
   * unless its short ids crowd a bucket of the receiver's hash map.
   */
  method Relay(block: seq<Tx>, pool: seq<Offer>, extra: seq<Offer>, hashOf: Tx -> int, shortId: int -> nat,
               bucketOf: nat -> nat, check: seq<Tx> -> BlockCheck)
    returns (status: Status, vtx: seq<Tx>)
    requires 0 < |block| <= MAX_UINT16 && !block[0].isNull && check(block).Passed?
    requires forall i, j :: 1 <= i < j < |block| ==> shortId(hashOf(block[i])) != shortId(hashOf(block[j]))
    requires forall o, i :: o in pool + extra && 1 <= i < |block| && shortId(o.hash) == shortId(hashOf(block[i])) ==>
      o.tx == block[i]
    ensures if Crowded(seq(|block| - 1, i requires 0 <= i < |block| - 1 => shortId(hashOf(block[i + 1]))), bucketOf)
            then status.Failed? else status.Ok? && vtx == block
  {
    hide Acceptable, Merged, Missing, CountAbsent, Sourced, Describes, Laid, Crowded;
    var c := MakeCompact(block, hashOf, shortId);
    MadeDescribes(c, [], block, hashOf, shortId);
    assert Distinct(c.shortIds) by {
      assert forall i :: 0 <= i < |c.shortIds| ==> c.shortIds[i] == shortId(hashOf(block[i + 1]));
    }
    var partial := new PartiallyDownloadedBlock();
    ghost var pos;
    status, pos := partial.InitData(c, pool, extra, shortId, bucketOf);
    assert c.shortIds == seq(|block| - 1, i requires 0 <= i < |block| - 1 => shortId(hashOf(block[i + 1])));
    if status.Failed? { return status, []; }
    MadeDescribes(c, pos, block, hashOf, shortId);
    MadeApart(c, pos, block, pool + extra, hashOf, shortId);
    BlockRebuilt(c, pos, partial.available, pool + extra, block, hashOf, shortId);
    SlotsMatch(c, pos, partial.available, pool + extra, block, shortId);
    status, vtx := partial.FillBlock(Missing(partial.available, block), check);
  }

  lemma SlotsMatch(c: CompactBlock, pos: seq<nat>, s: seq<Slot>, offers: seq<Offer>, block: seq<Tx>,
      shortId: int -> nat)
    requires Laid(c, pos) && Sourced(c, shortId, pos, s, offers) && |block| == |c.shortIds| + |c.prefilled|
    ensures |s| == |block|
  {}

  lemma MadeApart(c: CompactBlock, pos: seq<nat>, block: seq<Tx>, offers: seq<Offer>, hashOf: Tx -> int,
      shortId: int -> nat)
    requires block != [] && |c.shortIds| == |block| - 1 && c.prefilled == [Prefilled(0, block[0])] && Laid(c, pos)
    requires forall i :: 1 <= i < |block| ==> c.shortIds[i - 1] == shortId(hashOf(block[i]))
    requires forall o, i :: o in offers && 1 <= i < |block| && shortId(o.hash) == shortId(hashOf(block[i])) ==>
      o.tx == block[i]
    ensures NoCollision(c, pos, block, offers, shortId)
  {
    assert Position(c.prefilled, 0) == 0;
    forall o, k | o in offers && 0 <= k < |pos| && shortId(o.hash) == c.shortIds[k] ensures o.tx == block[pos[k]] {
      AfterFirst(c, pos, k);
      assert c.shortIds[k + 1 - 1] == shortId(hashOf(block[k + 1]));
    }
  }
}
