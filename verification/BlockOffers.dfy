/**
 * What the memory pool and the transactions kept aside leave in the slots of a
 * compact block (src/blockencodings.cpp): the first transaction with a short id
 * fills its slot, a second one that disagrees empties it, and scanning stops
 * once every slot is filled.
 */
module BlockOffers {

  datatype Tx = Tx(id: int, witnessHash: int, isNull: bool)

  datatype Slot = Absent | Present(tx: Tx)

  /** A transaction offered by the memory pool or kept aside, under the hash its short id is taken from. */
  datatype Offer = Offer(hash: int, tx: Tx)

  // ----- what the offers leave in a slot -----

  /** An offer as the scan meets it: from the memory pool, or from the transactions kept aside. */
  datatype Met = Met(offer: Offer, extra: bool)

  predicate Matches(shortId: int -> nat, id: nat, x: Met) { shortId(x.offer.hash) == id }

  predicate AnyMatches(shortId: int -> nat, id: nat, met: seq<Met>) {
    exists i :: 0 <= i < |met| && Matches(shortId, id, met[i])
  }

  /** Whether another match of the short id of a slot holding `tx` speaks against keeping it. */
  predicate Disagrees(tx: Tx, x: Met) { !x.extra || tx.witnessHash != x.offer.tx.witnessHash }

  /** The slot of a short id after the offers met: the first match fills it, a match that disagrees empties it
      for good. */
  function SlotOf(shortId: int -> nat, id: nat, met: seq<Met>): Slot {
    if met == [] then Absent else
    var before, x := met[..|met| - 1], met[|met| - 1];
    var was := SlotOf(shortId, id, before);
    if !Matches(shortId, id, x) then was
    else if !AnyMatches(shortId, id, before) then Present(x.offer.tx)
    else if was.Present? && Disagrees(was.tx, x) then Absent
    else was
  }

  ghost predicate FirstMatch(shortId: int -> nat, id: nat, met: seq<Met>, f: nat) {
    f < |met| && Matches(shortId, id, met[f]) && forall i :: 0 <= i < f ==> !Matches(shortId, id, met[i])
  }

  /** No later match disagrees with the one at `f`. */
  ghost predicate Undisputed(shortId: int -> nat, id: nat, met: seq<Met>, f: nat)
    requires f < |met|
  {
    forall j :: f < j < |met| && Matches(shortId, id, met[j]) ==> !Disagrees(met[f].offer.tx, met[j])
  }

  lemma {:induction false} SlotEmpty(shortId: int -> nat, id: nat, met: seq<Met>)
    requires !AnyMatches(shortId, id, met)
    ensures SlotOf(shortId, id, met).Absent?
  {
    if met != [] {
      var n := |met| - 1;
      assert !Matches(shortId, id, met[n]);
      assert forall i :: 0 <= i < n ==> met[..n][i] == met[i];
      SlotEmpty(shortId, id, met[..n]);
    }
  }

  /** A slot holds the first match exactly if no later match disagrees with it, and is empty otherwise. */
  lemma {:induction false} SlotExact(shortId: int -> nat, id: nat, met: seq<Met>, f: nat)
    requires FirstMatch(shortId, id, met, f)
    ensures SlotOf(shortId, id, met) == if Undisputed(shortId, id, met, f) then Present(met[f].offer.tx) else Absent
  {
    hide Matches, Disagrees;
    var n := |met| - 1;
    var before := met[..n];
    assert forall i :: 0 <= i < n ==> before[i] == met[i];
    if f == n {
      assert !AnyMatches(shortId, id, before);
    } else {
      SlotExact(shortId, id, before, f);
      assert before[f] == met[f] && AnyMatches(shortId, id, before);
      LastDispute(shortId, id, met, f);
    }
  }

  lemma LastDispute(shortId: int -> nat, id: nat, met: seq<Met>, f: nat)
    requires f < |met| - 1
    ensures Undisputed(shortId, id, met, f) <==>
      && Undisputed(shortId, id, met[..|met| - 1], f)
      && (Matches(shortId, id, met[|met| - 1]) ==> !Disagrees(met[f].offer.tx, met[|met| - 1]))
  {
    hide Matches, Disagrees;
    var n := |met| - 1;
    assert forall i :: 0 <= i < n ==> met[..n][i] == met[i];
    if Undisputed(shortId, id, met[..n], f) {
      forall j | f < j < n && Matches(shortId, id, met[j]) ensures !Disagrees(met[f].offer.tx, met[j]) {
        assert Matches(shortId, id, met[..n][j]);
      }
    }
    if Undisputed(shortId, id, met, f) {
      forall j | f < j < n && Matches(shortId, id, met[..n][j]) ensures !Disagrees(met[f].offer.tx, met[..n][j]) {
        assert Matches(shortId, id, met[j]);
      }
    }
  }

  /** Every slot of a short id is filled. */
  predicate Full(ids: seq<nat>, shortId: int -> nat, met: seq<Met>) {
    forall k :: 0 <= k < |ids| ==> SlotOf(shortId, ids[k], met).Present?
  }

  /** The offers met when a further list is scanned, which stops once every slot is filled. */
  function Scan(ids: seq<nat>, shortId: int -> nat, met: seq<Met>, offers: seq<Offer>, extra: bool): seq<Met>
    decreases |offers|
  {
    if offers == [] then met else
    var more := met + [Met(offers[0], extra)];
    if Full(ids, shortId, more) then more else Scan(ids, shortId, more, offers[1..], extra)
  }

  /** The offers met in both scans. */
  function AllMet(ids: seq<nat>, shortId: int -> nat, pool: seq<Offer>, extra: seq<Offer>): seq<Met> {
    Scan(ids, shortId, Scan(ids, shortId, [], pool, false), extra, true)
  }

  function Marked(offers: seq<Offer>, extra: bool): (r: seq<Met>)
    ensures |r| == |offers| && forall i :: 0 <= i < |offers| ==> r[i] == Met(offers[i], extra)
  {
    seq(|offers|, i requires 0 <= i < |offers| => Met(offers[i], extra))
  }

  /** A scan meets a first part of the list, and all of it unless every slot got filled; it goes on until then. */
  lemma {:induction false} ScanStops(ids: seq<nat>, shortId: int -> nat, met: seq<Met>, offers: seq<Offer>, extra: bool)
    returns (n: nat)
    ensures n <= |offers| && (offers != [] ==> n > 0)
      && Scan(ids, shortId, met, offers, extra) == met + Marked(offers[..n], extra)
    ensures n < |offers| ==> Full(ids, shortId, Scan(ids, shortId, met, offers, extra))
    ensures forall i :: 0 < i < n ==> !Full(ids, shortId, met + Marked(offers[..i], extra))
    decreases |offers|
  {
    hide Full;
    if offers == [] {
      n := 0;
      assert met + Marked(offers[..0], extra) == met;
    } else {
      var one := [Met(offers[0], extra)];
      var more := met + one;
      assert Marked(offers[..1], extra) == one;
      if Full(ids, shortId, more) {
        n := 1;
      } else {
        var rest := offers[1..];
        n := ScanStops(ids, shortId, more, rest, extra);
        forall i | 0 <= i <= |rest| ensures more + Marked(rest[..i], extra) == met + Marked(offers[..i + 1], extra) {}
        forall i | 0 < i < n + 1 ensures !Full(ids, shortId, met + Marked(offers[..i], extra)) {
          if i > 1 { assert more + Marked(rest[..i - 1], extra) == met + Marked(offers[..i], extra); }
        }
        n := n + 1;
      }
    }
  }

  // ----- what the two scans together come to -----

  /** All offers, in the order of the scans. */
  function Everything(pool: seq<Offer>, extra: seq<Offer>): (r: seq<Met>)
    ensures |r| == |pool| + |extra|
    ensures forall i :: 0 <= i < |r| ==>
      r[i] == if i < |pool| then Met(pool[i], false) else Met(extra[i - |pool|], true)
  {
    Marked(pool, false) + Marked(extra, true)
  }

  /** How far the two scans get. */
  lemma BothScans(ids: seq<nat>, shortId: int -> nat, pool: seq<Offer>, extra: seq<Offer>) returns (n: nat, m: nat)
    ensures n <= |pool| && m <= |extra| && (pool != [] ==> n > 0) && (extra != [] ==> m > 0)
    ensures Scan(ids, shortId, [], pool, false) == Marked(pool[..n], false)
    ensures AllMet(ids, shortId, pool, extra) == Marked(pool[..n], false) + Marked(extra[..m], true)
    ensures n < |pool| ==> Full(ids, shortId, Marked(pool[..n], false))
    ensures m < |extra| ==> Full(ids, shortId, AllMet(ids, shortId, pool, extra))
  {
    hide Full;
    n := ScanStops(ids, shortId, [], pool, false);
    assert [] + Marked(pool[..n], false) == Marked(pool[..n], false);
    m := ScanStops(ids, shortId, Marked(pool[..n], false), extra, true);
  }

  /** Without an offer for it, a slot is empty. */
  lemma NothingOffered(ids: seq<nat>, shortId: int -> nat, pool: seq<Offer>, extra: seq<Offer>, id: nat)
    requires !AnyMatches(shortId, id, Everything(pool, extra))
    ensures SlotOf(shortId, id, AllMet(ids, shortId, pool, extra)).Absent?
  {
    hide Matches, Scan;
    var n, m := BothScans(ids, shortId, pool, extra);
    var all, met := Everything(pool, extra), AllMet(ids, shortId, pool, extra);
    forall i | 0 <= i < |met| ensures !Matches(shortId, id, met[i]) {
      assert met[i] == all[if i < n then i else i - n + |pool|];
    }
    SlotEmpty(shortId, id, met);
  }

  /** An offer that no later one disagrees with fills its slot, wherever the scans stop. */
  lemma UndisputedFills(ids: seq<nat>, shortId: int -> nat, pool: seq<Offer>, extra: seq<Offer>, k: nat, f: nat)
    requires k < |ids| && FirstMatch(shortId, ids[k], Everything(pool, extra), f)
    requires Undisputed(shortId, ids[k], Everything(pool, extra), f)
    ensures SlotOf(shortId, ids[k], AllMet(ids, shortId, pool, extra)) == Present(Everything(pool, extra)[f].offer.tx)
  {
    hide Matches, Disagrees, Scan, SlotOf;
    var n, m := BothScans(ids, shortId, pool, extra);
    var id, all, met := ids[k], Everything(pool, extra), AllMet(ids, shortId, pool, extra);
    assert forall i :: 0 <= i < |met| ==> met[i] == all[if i < n then i else i - n + |pool|];
    if f < |pool| && n <= f {
      var first := Marked(pool[..n], false);
      assert forall i :: 0 <= i < n ==> first[i] == all[i];
      SlotEmpty(shortId, id, first);
      assert false;
    }
    if f >= |pool| && m <= f - |pool| {
      SlotEmpty(shortId, id, met);
      assert false;
    }
    var g := if f < |pool| then f else f - |pool| + n;
    assert met[g] == all[f];
    assert FirstMatch(shortId, id, met, g) && Undisputed(shortId, id, met, g);
    SlotExact(shortId, id, met, g);
  }

  /** Exactly one offer for a short id fills its slot. */
  lemma OnlyOfferFills(ids: seq<nat>, shortId: int -> nat, pool: seq<Offer>, extra: seq<Offer>, k: nat, f: nat)
    requires k < |ids| && f < |pool + extra| && shortId((pool + extra)[f].hash) == ids[k]
    requires forall i :: 0 <= i < |pool + extra| && i != f ==> shortId((pool + extra)[i].hash) != ids[k]
    ensures SlotOf(shortId, ids[k], AllMet(ids, shortId, pool, extra)) == Present((pool + extra)[f].tx)
  {
    hide Scan, SlotOf;
    var all := Everything(pool, extra);
    assert forall i :: 0 <= i < |all| ==> all[i].offer == (pool + extra)[i];
    UndisputedFills(ids, shortId, pool, extra, k, f);
  }

  /** Two offers of the memory pool for a short id empty its slot, unless every slot was filled before the second. */
  lemma TwoInPoolEmpty(ids: seq<nat>, shortId: int -> nat, pool: seq<Offer>, extra: seq<Offer>, id: nat, i: nat, j: nat)
    requires i < j < |pool| && shortId(pool[i].hash) == id == shortId(pool[j].hash)
    requires forall l :: 0 < l <= j ==> !Full(ids, shortId, Marked(pool[..l], false))
    ensures SlotOf(shortId, id, AllMet(ids, shortId, pool, extra)).Absent?
  {
    hide Scan, SlotOf, Full;
    var n, m := BothScans(ids, shortId, pool, extra);
    var met := AllMet(ids, shortId, pool, extra);
    assert j < n;
    assert met[i] == Met(pool[i], false) && met[j] == Met(pool[j], false);
    DisputedEmpty(shortId, id, met, i, j);
  }

  /** So does one kept aside that differs in its witness hash from the only one met before, unless every slot was
      filled before it. */
  lemma DifferentExtraEmpty(ids: seq<nat>, shortId: int -> nat, pool: seq<Offer>, extra: seq<Offer>, id: nat, f: nat,
      j: nat)
    requires FirstMatch(shortId, id, Everything(pool, extra), f) && f < |pool| + j && j < |extra|
    requires shortId(extra[j].hash) == id && extra[j].tx.witnessHash != Everything(pool, extra)[f].offer.tx.witnessHash
    requires forall l :: 0 < l < |pool| ==> !Full(ids, shortId, Marked(pool[..l], false))
    requires forall l :: 0 < l <= j ==> !Full(ids, shortId, Marked(pool, false) + Marked(extra[..l], true))
    ensures SlotOf(shortId, id, AllMet(ids, shortId, pool, extra)).Absent?
  {
    hide Scan, SlotOf, Full;
    var n, m := BothScans(ids, shortId, pool, extra);
    var all, met := Everything(pool, extra), AllMet(ids, shortId, pool, extra);
    assert n == |pool| && pool[..n] == pool;
    assert j < m;
    assert forall i :: 0 <= i < |met| ==> met[i] == all[i];
    assert met[|pool| + j] == Met(extra[j], true);
    assert FirstMatch(shortId, id, met, f) && !Undisputed(shortId, id, met, f);
    SlotExact(shortId, id, met, f);
  }

  /** Two matches of which the later is from the memory pool leave a slot empty. */
  lemma DisputedEmpty(shortId: int -> nat, id: nat, met: seq<Met>, i: nat, j: nat)
    requires i < j < |met| && Matches(shortId, id, met[i]) && Matches(shortId, id, met[j]) && !met[j].extra
    ensures SlotOf(shortId, id, met).Absent?
  {
    hide Matches, SlotOf;
    var f := FirstOf(shortId, id, met, i);
    assert Disagrees(met[f].offer.tx, met[j]);
    SlotExact(shortId, id, met, f);
  }

  lemma {:induction false} FirstOf(shortId: int -> nat, id: nat, met: seq<Met>, i: nat) returns (f: nat)
    requires i < |met| && Matches(shortId, id, met[i])
    ensures f <= i && FirstMatch(shortId, id, met, f)
    decreases i
  {
    hide Matches;
    if j :| 0 <= j < i && Matches(shortId, id, met[j]) { f := FirstOf(shortId, id, met, j); } else { f := i; }
  }
}
