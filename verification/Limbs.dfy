/**
 * Little-endian sequences of 32-bit limbs and the numbers they stand for: what
 * storing one digit, carrying out of it, or splitting a sequence does to the
 * value.
 */
module Limbs {
  import opened Arithmetic

  const WIDTH := 8
  const BASE := 0x1_0000_0000

  type Limb = x: int | 0 <= x < BASE

  /** The weight of limb `i`. */
  function Weight(i: nat): (w: nat)
    ensures w >= 1
  {
    Pow2(32 * i)
  }

  function Val(s: seq<Limb>): (v: nat)
  {
    if s == [] then 0 else s[0] + BASE * Val(s[1..])
  }

  lemma Pow2Of32()
    ensures Pow2(8) == 256 && Pow2(16) == 0x1_0000 && Pow2(24) == 0x100_0000 && Pow2(32) == BASE
  {
    assert Pow2(4) == 16;
    Pow2Add(4, 4);
    Pow2Add(8, 8);
    Pow2Add(8, 16);
    Pow2Add(16, 16);
  }

  lemma WeightNext(i: nat)
    ensures Weight(i + 1) == BASE * Weight(i) && Weight(0) == 1
  {
    Pow2Of32();
    Pow2Add(32, 32 * i);
    assert 32 * (i + 1) == 32 + 32 * i;
  }

  lemma WeightAdd(i: nat, j: nat)
    ensures Weight(i + j) == Weight(i) * Weight(j)
  {
    Pow2Add(32 * i, 32 * j);
    assert 32 * (i + j) == 32 * i + 32 * j;
  }

  lemma {:induction false} ValSplit(s: seq<Limb>, k: nat)
    requires k <= |s|
    ensures Val(s) == Val(s[..k]) + Weight(k) * Val(s[k..])
  {
    hide Weight;
    WeightNext(0);
    if k == 0 {
      assert s[..0] == [] && s[0..] == s;
    } else {
      ValSplit(s[1..], k - 1);
      WeightNext(k - 1);
      assert s[..k][1..] == s[1..][..k - 1] && s[1..][k - 1..] == s[k..] && s[..k][0] == s[0];
      Distribute(BASE, Val(s[1..][..k - 1]), Weight(k - 1) * Val(s[k..]));
      Associate(BASE, Weight(k - 1), Val(s[k..]));
    }
  }

  lemma {:induction false} ValBound(s: seq<Limb>)
    ensures Val(s) < Weight(|s|)
  {
    hide Weight;
    WeightNext(0);
    if s != [] {
      ValBound(s[1..]);
      WeightNext(|s| - 1);
      MulMono(BASE, Val(s[1..]) + 1, Weight(|s| - 1));
    }
  }

  lemma ValOne(x: Limb)
    ensures Val([x]) == x
  {
    assert Val([x][1..]) == 0;
  }

  /** One more limb on top. */
  lemma ValTake(s: seq<Limb>, k: nat)
    requires k < |s|
    ensures Val(s[..k + 1]) == Val(s[..k]) + Weight(k) * s[k]
  {
    hide Weight, Val;
    var t := s[..k + 1];
    ValSplit(t, k);
    assert t[..k] == s[..k] && t[k..] == [s[k]];
    ValOne(s[k]);
  }

  /** Changing one limb. */
  lemma ValUpdate(s: seq<Limb>, k: nat, x: Limb)
    requires k < |s|
    ensures Val(s[k := x]) == Val(s) + Weight(k) * (x - s[k])
  {
    hide Weight, Val;
    var t := s[k := x];
    ValSplit(s, k + 1);
    ValSplit(t, k + 1);
    assert t[k + 1..] == s[k + 1..] && t[..k] == s[..k];
    ValTake(s, k);
    ValTake(t, k);
    Distribute(Weight(k), x - s[k], s[k]);
  }

  lemma {:induction false} ValZero(s: seq<Limb>)
    requires forall i :: 0 <= i < |s| ==> s[i] == 0
    ensures Val(s) == 0
  {
    if s != [] { ValZero(s[1..]); }
  }

  /** Storing the low part of `n` at limb `k` and carrying the rest adds `n` in place of the old digit. */
  lemma StoreDigit(s: seq<Limb>, k: nat, n: nat)
    requires k < |s|
    ensures Val(s[k := n % BASE]) + Weight(k + 1) * (n / BASE) == Val(s) + Weight(k) * (n - s[k])
  {
    hide Weight, Val;
    var w := Weight(k);
    ValUpdate(s, k, n % BASE);
    WeightNext(k);
    Associate(w, BASE, n / BASE);
    Distribute(w, n % BASE - s[k], BASE * (n / BASE));
  }

  /** The most significant limb that differs decides. */
  lemma FirstDifference(s: seq<Limb>, t: seq<Limb>, k: nat)
    requires |s| == |t| && k < |s| && s[k + 1..] == t[k + 1..] && s[k] < t[k]
    ensures Val(s) < Val(t)
  {
    hide Weight, Val;
    ValSplit(s, k + 1);
    ValSplit(t, k + 1);
    ValTake(s, k);
    ValTake(t, k);
    ValBound(s[..k]);
    MulMono(Weight(k), s[k] + 1, t[k]);
    MulSucc(Weight(k), s[k]);
  }

  // ----- bitwise or -----

  function Or(a: nat, b: nat): (r: nat)
    decreases a + b
  {
    if a == 0 then b else if b == 0 then a
    else (if a % 2 == 1 || b % 2 == 1 then 1 else 0) + 2 * Or(a / 2, b / 2)
  }

  lemma OrZero(x: nat)
    ensures Or(0, x) == x && Or(x, 0) == x
  {}

  /** Or adds when one operand lies below the other's lowest bit. */
  lemma {:induction false} OrDisjoint(a: nat, b: nat, k: nat)
    requires a < Pow2(k) && b % Pow2(k) == 0
    ensures Or(a, b) == a + b && Or(b, a) == a + b
  {
    if k > 0 && a > 0 && b > 0 {
      var p := Pow2(k - 1);
      var q := b / (2 * p);
      assert b == (2 * p) * q;
      Associate(2, p, q);
      assert b / 2 == p * q;
      DivUnique(b / 2, p, q, 0);
      OrDisjoint(a / 2, b / 2, k - 1);
    }
  }

  lemma OrStep(a: nat, b: nat)
    ensures Or(a, b) == (if a % 2 == 1 || b % 2 == 1 then 1 else 0) + 2 * Or(a / 2, b / 2)
  {}

  /** Bits above those of the other operand pass through. */
  lemma {:induction false} OrAbove(w: nat, h: nat, y: nat, k: nat)
    requires w < Pow2(k) && y < Pow2(k)
    ensures Or(w + Pow2(k) * h, y) == Or(w, y) + Pow2(k) * h
  {
    if k == 0 {
      OrZero(h);
    } else {
      var p := Pow2(k - 1);
      OrAbove(w / 2, h, y / 2, k - 1);
      Associate(2, p, h);
      var a := w + 2 * (p * h);
      assert a % 2 == w % 2 && a / 2 == w / 2 + p * h;
      OrStep(a, y);
      OrStep(w, y);
    }
  }

  // ----- shifted digits -----

  lemma ScaledDivision(x: nat, p: nat, r: nat)
    requires p >= 1 && r >= 1
    ensures p * r >= 1 && x * p / (p * r) == x / r && x * p % (p * r) == (x % r) * p
  {
    var q, m := x / r, x % r;
    assert x == r * q + m;
    Distribute(p, r * q, m);
    Associate(p, r, q);
    ProductBelow(m, r, p);
    MulMono(p, 1, r);
    DivUnique(x * p, p * r, q, m * p);
  }

  /** What stays in a limb shifted left by `t` bits. */
  function Low(x: Limb, t: nat): Limb { x * Pow2(t) % BASE }

  /** What leaves a limb shifted left by `t` bits. */
  function High(x: Limb, t: nat): nat
    requires t <= 32
  {
    DivNonNegative(x, Pow2(32 - t));
    x / Pow2(32 - t)
  }

  /** The two parts make up the shifted digit, and leave room for each other's neighbours. */
  lemma ShiftedDigit(x: Limb, t: nat)
    requires t <= 32
    ensures Low(x, t) + BASE * High(x, t) == x * Pow2(t)
    ensures Low(x, t) % Pow2(t) == 0 && High(x, t) < Pow2(t) <= BASE
  {
    hide Pow2;
    Pow2Of32();
    Pow2Add(t, 32 - t);
    var p, r := Pow2(t), Pow2(32 - t);
    ScaledDivision(x, p, r);
    DivUnique((x % r) * p, p, x % r, 0);
    assert r * p == BASE;
    DivBelow(x, r, p);
    MulMono(p, 1, r);
  }

  lemma RoomBelow(a: nat, p: nat, q: nat, r: nat)
    requires a < p && p * q < p * r
    ensures a + p * q < p * r
  {
    if q >= r { MulMono(p, r, q); }
    MulMono(p, q + 1, r);
    MulSucc(p, q);
  }

  /** A multiple of `2^t` in a limb leaves room for `t` bits. */
  lemma SumFits(a: nat, b: Limb, t: nat)
    requires t <= 32 && a < Pow2(t) && b % Pow2(t) == 0
    ensures a + b < BASE && Or(a, b) == a + b
  {
    hide Pow2, Or;
    OrDisjoint(a, b, t);
    Pow2Of32();
    Pow2Add(t, 32 - t);
    assert b == Pow2(t) * (b / Pow2(t));
    RoomBelow(a, Pow2(t), b / Pow2(t), Pow2(32 - t));
  }

  /** Or-ing a shifted digit into limb `at` and the one above, as the shifts do, adds it at that place. */
  lemma SpreadAdds(s: seq<Limb>, at: nat, x: Limb, t: nat)
    requires at + 1 < |s| && t <= 32 && s[at] < Pow2(t) && s[at + 1] == 0
    ensures Or(s[at], Low(x, t)) < BASE && High(x, t) < BASE && High(x, t) < Pow2(t)
    ensures Val(s[at := Or(s[at], Low(x, t))][at + 1 := High(x, t)]) == Val(s) + Weight(at) * (x * Pow2(t))
  {
    hide Weight, Val, Pow2, Low, High, Or;
    ShiftedDigit(x, t);
    SumFits(s[at], Low(x, t), t);
    var s1 := s[at := s[at] + Low(x, t)];
    ValUpdate(s, at, s[at] + Low(x, t));
    ValUpdate(s1, at + 1, High(x, t));
    WeightNext(at);
    Associate(Weight(at), BASE, High(x, t));
    Distribute(Weight(at), Low(x, t), BASE * High(x, t));
  }
}
