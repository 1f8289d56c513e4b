/**
 * GF(1024) as vectors of ten bits, with multiplication by a fixed element as a
 * linear map. The primitive element of src/bech32.cpp is proved to be one:
 * no power of it below 1023 fixes a nonzero vector.
 */
module Gf1024 {
  import opened Arithmetic

  // ----- GF(1024) as vectors of ten bits -----

  function Add(a: bv10, b: bv10): bv10 { a ^ b }

  lemma AddLaws(a: bv10, b: bv10, c: bv10)
    ensures Add(a, b) == Add(b, a) && Add(Add(a, b), c) == Add(a, Add(b, c))
    ensures Add(a, 0) == a && Add(0, a) == a && Add(a, a) == 0 && Add(a, Add(a, b)) == b && (Add(a, b) == 0 <==> a == b)
  {}

  lemma AddSwap(a: bv10, b: bv10, c: bv10, d: bv10)
    ensures Add(Add(a, b), Add(c, d)) == Add(Add(a, c), Add(b, d))
  {
    hide Add;
    AddLaws(a, b, Add(c, d));
    AddLaws(b, c, d);
    AddLaws(c, b, d);
    AddLaws(a, c, Add(b, d));
  }

  /** `k` if the bit is set in `w`. */
  function If(w: bv10, bit: bv10, k: bv10): bv10 { if w & bit != 0 then k else 0 }

  /** A linear map, given by the images of the ten basis vectors. */
  type Matrix = m: seq<bv10> | |m| == 10 witness [0, 0, 0, 0, 0, 0, 0, 0, 0, 0]

  function Bit(i: nat): bv10
    requires i < 10
  {
    1 << i
  }

  /** The sum of the columns that the first `n` bits of `w` select. */
  function Part(m: Matrix, w: bv10, n: nat): bv10
    requires n <= 10
  {
    if n == 0 then 0 else Add(Part(m, w, n - 1), If(w, Bit(n - 1), m[n - 1]))
  }

  function Apply(m: Matrix, w: bv10): bv10 { Part(m, w, 10) }

  lemma IfLinear(a: bv10, b: bv10, bit: bv10, k: bv10)
    requires (a & bit == 0 || a & bit == bit) && (b & bit == 0 || b & bit == bit)
    ensures If(Add(a, b), bit, k) == Add(If(a, bit, k), If(b, bit, k))
  {
    assert (a ^ b) & bit == (a & bit) ^ (b & bit);
    assert bit ^ bit == 0 && k ^ k == 0;
  }

  lemma OneBit(a: bv10, i: nat)
    requires i < 10
    ensures a & Bit(i) == 0 || a & Bit(i) == Bit(i)
  {
    if i < 5 {
      assert i == 0 || i == 1 || i == 2 || i == 3 || i == 4;
    } else {
      assert i == 5 || i == 6 || i == 7 || i == 8 || i == 9;
    }
  }

  lemma {:induction false} PartZero(m: Matrix, n: nat)
    requires n <= 10
    ensures Part(m, 0, n) == 0
  {
    hide Add, Bit, If;
    AddLaws(0, 0, 0);
    if n > 0 {
      PartZero(m, n - 1);
      NoBits(Bit(n - 1), m[n - 1]);
    }
  }

  lemma {:induction false} PartLinear(m: Matrix, a: bv10, b: bv10, n: nat)
    requires n <= 10
    ensures Part(m, Add(a, b), n) == Add(Part(m, a, n), Part(m, b, n))
  {
    hide Add, If, Bit;
    AddLaws(0, 0, 0);
    if n > 0 {
      PartLinear(m, a, b, n - 1);
      OneBit(a, n - 1);
      OneBit(b, n - 1);
      IfLinear(a, b, Bit(n - 1), m[n - 1]);
      AddSwap(Part(m, a, n - 1), Part(m, b, n - 1), If(a, Bit(n - 1), m[n - 1]), If(b, Bit(n - 1), m[n - 1]));
    }
  }

  lemma NoBits(bit: bv10, k: bv10)
    ensures If(0, bit, k) == 0
  {}

  lemma ApplyLinear(m: Matrix, a: bv10, b: bv10)
    ensures Apply(m, Add(a, b)) == Add(Apply(m, a), Apply(m, b)) && Apply(m, 0) == 0
  {
    hide Add, Part;
    PartLinear(m, a, b, 10);
    PartZero(m, 10);
  }

  // ----- products of matrices -----

  /** A product of matrices has the images of the columns as its columns. */
  ghost predicate IsProduct(c: Matrix, a: Matrix, b: Matrix) { forall i :: 0 <= i < 10 ==> c[i] == Apply(a, b[i]) }

  lemma {:induction false} PartComposed(c: Matrix, a: Matrix, b: Matrix, w: bv10, n: nat)
    requires IsProduct(c, a, b) && n <= 10
    ensures Apply(a, Part(b, w, n)) == Part(c, w, n)
  {
    hide Add, Apply, Bit;
    ApplyLinear(a, 0, 0);
    if n > 0 {
      PartComposed(c, a, b, w, n - 1);
      ApplyLinear(a, Part(b, w, n - 1), If(w, Bit(n - 1), b[n - 1]));
    }
  }

  lemma Composed(c: Matrix, a: Matrix, b: Matrix, w: bv10)
    requires IsProduct(c, a, b)
    ensures Apply(c, w) == Apply(a, Apply(b, w))
  {
    hide Part, IsProduct;
    PartComposed(c, a, b, w, 10);
  }

  /** Applying a matrix without recursion. */
  function Direct(m: Matrix, w: bv10): bv10 {
    Add(Add(Add(Add(Add(Add(Add(Add(Add(Add(0, If(w, 1, m[0])), If(w, 2, m[1])), If(w, 4, m[2])), If(w, 8, m[3])),
      If(w, 16, m[4])), If(w, 32, m[5])), If(w, 64, m[6])), If(w, 128, m[7])), If(w, 256, m[8])), If(w, 512, m[9]))
  }

  lemma DirectIs(m: Matrix, w: bv10)
    ensures Apply(m, w) == Direct(m, w)
  {
    hide If, Add;
    assert Bit(0) == 1 && Bit(1) == 2 && Bit(2) == 4 && Bit(3) == 8 && Bit(4) == 16;
    assert Bit(5) == 32 && Bit(6) == 64 && Bit(7) == 128 && Bit(8) == 256 && Bit(9) == 512;
    assert Part(m, w, 5) ==
      Add(Add(Add(Add(Add(0, If(w, 1, m[0])), If(w, 2, m[1])), If(w, 4, m[2])), If(w, 8, m[3])), If(w, 16, m[4])) by {
      assert Part(m, w, 3) == Add(Add(Add(0, If(w, 1, m[0])), If(w, 2, m[1])), If(w, 4, m[2])) by {
        assert Part(m, w, 1) == Add(0, If(w, 1, m[0]));
      }
    }
    assert Part(m, w, 8) == Add(Add(Add(Part(m, w, 5), If(w, 32, m[5])), If(w, 64, m[6])), If(w, 128, m[7])) by {
      assert Part(m, w, 6) == Add(Part(m, w, 5), If(w, 32, m[5]));
    }
    assert Part(m, w, 9) == Add(Part(m, w, 8), If(w, 256, m[8]));
  }

  // ----- powers of the primitive element -----

  /** Multiplication by a primitive element of GF(1024), one whose square is 9 times itself plus 23. */
  const E: Matrix := [0x20, 0x40, 0x80, 0x100, 0x200, 0x137, 0x247, 0x1ae, 0x35c, 0x3b1]
  const E2: Matrix := [0x137, 0x247, 0x1ae, 0x35c, 0x3b1, 0x8b, 0x116, 0x205, 0x12a, 0x254]
  const E3: Matrix := [0x8b, 0x116, 0x205, 0x12a, 0x254, 0xce, 0x19c, 0x311, 0x32b, 0x376]
  const E5: Matrix := [0x229, 0x172, 0x2cd, 0xba, 0x15d, 0x3a6, 0x26c, 0x1f8, 0x3d9, 0x2bb]
  const E10: Matrix := [0x38e, 0x23c, 0x171, 0x2cb, 0xb6, 0x83, 0x106, 0x20c, 0x138, 0x259]
  const E11: Matrix := [0x83, 0x106, 0x20c, 0x138, 0x259, 0x1ce, 0x39c, 0x231, 0x16b, 0x2d6]
  const E21: Matrix := [0x3be, 0x275, 0x1e3, 0x3c6, 0x2ac, 0x3b4, 0x261, 0x1e2, 0x3c4, 0x2a8]
  const E31: Matrix := [0xde, 0x195, 0x303, 0x326, 0x36c, 0x29, 0x52, 0x8d, 0x11a, 0x21d]
  const E33: Matrix := [0x17, 0x7, 0xe, 0x1c, 0x11, 0x2e0, 0xe0, 0x1c0, 0x380, 0x220]
  const E62: Matrix := [0x203, 0x126, 0x24c, 0x1b8, 0x359, 0x3d1, 0x2ab, 0x76, 0xc5, 0x18a]
  const E93: Matrix := [0x356, 0x3a5, 0x26a, 0x1f4, 0x3c1, 0x6a, 0xd4, 0x181, 0x302, 0x324]
  const E155: Matrix := [0x3d7, 0x2a7, 0x6e, 0xdc, 0x191, 0x1e4, 0x3c8, 0x2b0, 0x69, 0xd2]
  const E186: Matrix := [0x2fc, 0xf1, 0x1cb, 0x396, 0x225, 0x2ef, 0xfe, 0x1d5, 0x383, 0x226]
  const E310: Matrix := [0x14c, 0x298, 0x39, 0x5b, 0x9f, 0x9b, 0x11f, 0x217, 0x127, 0x24e]
  const E341: Matrix := [0x16d, 0x2da, 0xbd, 0x153, 0x28f, 0x18c, 0x318, 0x339, 0x37b, 0x3ff]
  const E682: Matrix := [0x16c, 0x2d8, 0xb9, 0x15b, 0x29f, 0x1ac, 0x358, 0x3b9, 0x27b, 0x1ff]
  const E992: Matrix := [0xc1, 0x182, 0x304, 0x328, 0x370, 0x3c9, 0x2b2, 0x6d, 0xda, 0x19d]
  const E1023: Matrix := [0x1, 0x2, 0x4, 0x8, 0x10, 0x20, 0x40, 0x80, 0x100, 0x200]

  /** Twice an element of GF(32), modulo x^5 + x^3 + 1. */
  function Twice(a: bv10): bv10 { if (a << 1) & 32 != 0 then (a << 1) ^ 41 else a << 1 }

  function Times9(a: bv10): bv10 { Twice(Twice(Twice(a))) ^ a }

  function Times23(a: bv10): bv10 { Twice(Twice(Twice(Twice(a)))) ^ Twice(Twice(a)) ^ Twice(a) ^ a }

  /** Multiplying a pair v1 || v0 by the primitive element gives 9 v1 + v0 || 23 v1. */
  lemma MultiplyIs(w: bv10)
    ensures Apply(E, w) == ((Times9(w >> 5) ^ (w & 31)) << 5) | Times23(w >> 5)
  {
    hide Apply;
    DirectIs(E, w);
  }

  /** The matrix applied `n` times. */
  function Iter(m: Matrix, n: nat, w: bv10): bv10 { if n == 0 then w else Apply(m, Iter(m, n - 1, w)) }

  lemma {:induction false} IterAdd(m: Matrix, a: nat, b: nat, w: bv10)
    ensures Iter(m, a + b, w) == Iter(m, a, Iter(m, b, w))
  {
    hide Apply;
    if a > 0 { IterAdd(m, a - 1, b, w); }
  }

  lemma {:induction false} IterLinear(m: Matrix, n: nat, a: bv10, b: bv10)
    ensures Iter(m, n, Add(a, b)) == Add(Iter(m, n, a), Iter(m, n, b)) && Iter(m, n, 0) == 0
  {
    hide Apply, Add;
    if n > 0 {
      IterLinear(m, n - 1, a, b);
      ApplyLinear(m, Iter(m, n - 1, a), Iter(m, n - 1, b));
    }
  }

  ghost predicate Injective(m: Matrix) { forall w :: Apply(m, w) == 0 ==> w == 0 }

  lemma {:induction false} IterInjective(m: Matrix, n: nat, w: bv10)
    requires Injective(m) && Iter(m, n, w) == 0
    ensures w == 0
  {
    hide Apply;
    if n > 0 { IterInjective(m, n - 1, w); }
  }

  /** If `a` commutes with `e` and `c` is their product, powers of `c` are products of powers. */
  lemma {:induction false} IterProduct(c: Matrix, e: Matrix, a: Matrix, n: nat, w: bv10)
    requires IsProduct(c, e, a) && IsProduct(c, a, e)
    ensures Iter(c, n, w) == Iter(e, n, Iter(a, n, w))
  {
    hide Apply, IsProduct;
    if n > 0 {
      IterProduct(c, e, a, n - 1, w);
      var u := Iter(a, n - 1, w);
      Composed(c, e, a, Iter(e, n - 1, u));
      IterCommutes(c, e, a, n - 1, u);
    }
  }

  lemma {:induction false} IterCommutes(c: Matrix, e: Matrix, a: Matrix, n: nat, w: bv10)
    requires IsProduct(c, e, a) && IsProduct(c, a, e)
    ensures Apply(a, Iter(e, n, w)) == Iter(e, n, Apply(a, w))
  {
    hide Apply, IsProduct;
    if n > 0 {
      IterCommutes(c, e, a, n - 1, w);
      Composed(c, e, a, Iter(e, n - 1, w));
      Composed(c, a, e, Iter(e, n - 1, w));
    }
  }

  ghost predicate IsPower(m: Matrix, n: nat) { forall w :: Iter(E, n, w) == Apply(m, w) }

  lemma PowerTimes(c: Matrix, a: Matrix, b: Matrix, m: nat, n: nat)
    requires IsPower(a, m) && IsPower(b, n) && IsProduct(c, a, b)
    ensures IsPower(c, m + n)
  {
    hide Iter, Apply, IsProduct;
    forall w ensures Iter(E, m + n, w) == Apply(c, w) {
      IterAdd(E, m, n, w);
      Composed(c, a, b, w);
    }
  }

  lemma PowerE()
    ensures IsPower(E, 1)
  {
    hide Apply;
    forall w ensures Iter(E, 1, w) == Apply(E, w) { assert Iter(E, 0, w) == w; }
  }

  lemma PowerE2()
    ensures IsPower(E2, 2)
  {
    hide Apply, Iter;
    PowerE();
    forall i | 0 <= i < 10 ensures E2[i] == Apply(E, E[i]) { DirectIs(E, E[i]); }
    PowerTimes(E2, E, E, 1, 1);
  }

  lemma PowerE3()
    ensures IsPower(E3, 3)
  {
    hide Apply, Iter;
    PowerE2();
    PowerE();
    forall i | 0 <= i < 10 ensures E3[i] == Apply(E2, E[i]) { DirectIs(E2, E[i]); }
    PowerTimes(E3, E2, E, 2, 1);
  }

  lemma PowerE5()
    ensures IsPower(E5, 5)
  {
    hide Apply, Iter;
    PowerE3();
    PowerE2();
    forall i | 0 <= i < 10 ensures E5[i] == Apply(E3, E2[i]) { DirectIs(E3, E2[i]); }
    PowerTimes(E5, E3, E2, 3, 2);
  }

  lemma PowerE10()
    ensures IsPower(E10, 10)
  {
    hide Apply, Iter;
    PowerE5();
    forall i | 0 <= i < 10 ensures E10[i] == Apply(E5, E5[i]) { DirectIs(E5, E5[i]); }
    PowerTimes(E10, E5, E5, 5, 5);
  }

  lemma PowerE11()
    ensures IsPower(E11, 11)
  {
    hide Apply, Iter;
    PowerE10();
    PowerE();
    forall i | 0 <= i < 10 ensures E11[i] == Apply(E10, E[i]) { DirectIs(E10, E[i]); }
    PowerTimes(E11, E10, E, 10, 1);
  }

  lemma PowerE21()
    ensures IsPower(E21, 21)
  {
    hide Apply, Iter;
    PowerE11();
    PowerE10();
    forall i | 0 <= i < 10 ensures E21[i] == Apply(E11, E10[i]) { DirectIs(E11, E10[i]); }
    PowerTimes(E21, E11, E10, 11, 10);
  }

  lemma PowerE31()
    ensures IsPower(E31, 31)
  {
    hide Apply, Iter;
    PowerE21();
    PowerE10();
    forall i | 0 <= i < 10 ensures E31[i] == Apply(E21, E10[i]) { DirectIs(E21, E10[i]); }
    PowerTimes(E31, E21, E10, 21, 10);
  }

  lemma PowerE33()
    ensures IsPower(E33, 33)
  {
    hide Apply, Iter;
    PowerE31();
    PowerE2();
    forall i | 0 <= i < 10 ensures E33[i] == Apply(E31, E2[i]) { DirectIs(E31, E2[i]); }
    PowerTimes(E33, E31, E2, 31, 2);
  }

  lemma PowerE62()
    ensures IsPower(E62, 62)
  {
    hide Apply, Iter;
    PowerE31();
    forall i | 0 <= i < 10 ensures E62[i] == Apply(E31, E31[i]) { DirectIs(E31, E31[i]); }
    PowerTimes(E62, E31, E31, 31, 31);
  }

  lemma PowerE93()
    ensures IsPower(E93, 93)
  {
    hide Apply, Iter;
    PowerE62();
    PowerE31();
    forall i | 0 <= i < 10 ensures E93[i] == Apply(E62, E31[i]) { DirectIs(E62, E31[i]); }
    PowerTimes(E93, E62, E31, 62, 31);
  }

  lemma PowerE155()
    ensures IsPower(E155, 155)
  {
    hide Apply, Iter;
    PowerE93();
    PowerE62();
    forall i | 0 <= i < 10 ensures E155[i] == Apply(E93, E62[i]) { DirectIs(E93, E62[i]); }
    PowerTimes(E155, E93, E62, 93, 62);
  }

  lemma PowerE186()
    ensures IsPower(E186, 186)
  {
    hide Apply, Iter;
    PowerE93();
    forall i | 0 <= i < 10 ensures E186[i] == Apply(E93, E93[i]) { DirectIs(E93, E93[i]); }
    PowerTimes(E186, E93, E93, 93, 93);
  }

  lemma PowerE310()
    ensures IsPower(E310, 310)
  {
    hide Apply, Iter;
    PowerE155();
    forall i | 0 <= i < 10 ensures E310[i] == Apply(E155, E155[i]) { DirectIs(E155, E155[i]); }
    PowerTimes(E310, E155, E155, 155, 155);
  }

  lemma PowerE341()
    ensures IsPower(E341, 341)
  {
    hide Apply, Iter;
    PowerE186();
    PowerE155();
    forall i | 0 <= i < 10 ensures E341[i] == Apply(E186, E155[i]) { DirectIs(E186, E155[i]); }
    PowerTimes(E341, E186, E155, 186, 155);
  }

  lemma PowerE682()
    ensures IsPower(E682, 682)
  {
    hide Apply, Iter;
    PowerE341();
    forall i | 0 <= i < 10 ensures E682[i] == Apply(E341, E341[i]) { DirectIs(E341, E341[i]); }
    PowerTimes(E682, E341, E341, 341, 341);
  }

  lemma PowerE992()
    ensures IsPower(E992, 992)
  {
    hide Apply, Iter;
    PowerE682();
    PowerE310();
    forall i | 0 <= i < 10 ensures E992[i] == Apply(E682, E310[i]) { DirectIs(E682, E310[i]); }
    PowerTimes(E992, E682, E310, 682, 310);
  }

  lemma PowerE1023()
    ensures IsPower(E1023, 1023)
  {
    hide Apply, Iter;
    PowerE682();
    PowerE341();
    forall i | 0 <= i < 10 ensures E1023[i] == Apply(E682, E341[i]) { DirectIs(E682, E341[i]); }
    PowerTimes(E1023, E682, E341, 682, 341);
  }

  // ----- its order -----

  lemma Moves341(w: bv10)
    requires Direct(E341, w) == w
    ensures w == 0
  {}

  lemma Moves93(w: bv10)
    requires Direct(E93, w) == w
    ensures w == 0
  {}

  lemma Moves33(w: bv10)
    requires Direct(E33, w) == w
    ensures w == 0
  {}

  lemma Identity(w: bv10)
    ensures Direct(E1023, w) == w
  {}

  lemma Fixed1023(w: bv10)
    ensures Iter(E, 1023, w) == w
  {
    hide Iter, Apply, Direct;
    PowerE1023();
    DirectIs(E1023, w);
    Identity(w);
  }

  lemma {:induction false} FixedTimes(a: nat, n: nat, w: bv10)
    requires Iter(E, a, w) == w
    ensures Iter(E, a * n, w) == w
  {
    hide Apply, Iter;
    if n == 0 {
      assert a * n == 0;
      IterNone(w);
    } else {
      FixedTimes(a, n - 1, w);
      assert a * n == a + a * (n - 1);
      IterAdd(E, a, a * (n - 1), w);
    }
  }

  lemma IterNone(w: bv10)
    ensures Iter(E, 0, w) == w
  {}

  /** If `k` is invertible modulo a prime factor of 1023, a vector fixed by power `k` is fixed by power 1023 / p. */
  lemma FixedCofactor(d: nat, p: nat, k: nat, s: nat, t: nat, w: bv10)
    requires d * p == 1023 && k * s == p * t + 1 && Iter(E, k, w) == w
    ensures Iter(E, d, w) == w
  {
    hide Iter;
    FixedTimes(k, s, w);
    FixedTimes(k * s, d, w);
    Fixed1023(w);
    FixedTimes(1023, t, w);
    assert (k * s) * d == d + 1023 * t by {
      assert (p * t + 1) * d == (d * p) * t + d;
    }
    IterAdd(E, d, 1023 * t, w);
  }

  lemma Inverse(k: nat, p: nat) returns (s: nat, t: nat)
    requires (p == 3 || p == 11 || p == 31) && k % p != 0
    ensures k * s == p * t + 1
  {
    var q, r := k / p, k % p;
    s := if p == 3 then r else if p == 11 then INVERSES_11[r] else INVERSES_31[r];
    var u := InverseTable(r, p, s);
    t := q * s + u;
    InverseLifts(k, p, q, r, s, u);
  }

  lemma InverseLifts(k: nat, p: nat, q: nat, r: nat, s: nat, u: nat)
    requires k == p * q + r && r * s == p * u + 1
    ensures k * s == p * (q * s + u) + 1
  {
    Distribute(s, p * q, r);
    Associate(p, q, s);
    Distribute(p, q * s, u);
    assert s * (p * q + r) == k * s && s * (p * q) == (p * q) * s && s * r == r * s;
  }

  const INVERSES_11: seq<nat> := [0, 1, 6, 4, 3, 9, 2, 8, 7, 5, 10]
  const INVERSES_31: seq<nat> := [0, 1, 16, 21, 8, 25, 26, 9, 4, 7, 28, 17, 13, 12, 20, 29, 2, 11, 19, 18, 14, 3, 24,
      27, 22, 5, 6, 23, 10, 15, 30]

  lemma InverseTable(r: nat, p: nat, s: nat) returns (u: nat)
    requires 1 <= r < p
    requires (p == 3 && s == r) || (p == 11 && s == INVERSES_11[r]) || (p == 31 && s == INVERSES_31[r])
    ensures r * s == p * u + 1
  {
    if p == 31 {
      InverseTable31(r);
      u := r * s / 31;
    } else if p == 11 {
      assert r == 1 || r == 2 || r == 3 || r == 4 || r == 5 || r == 6 || r == 7 || r == 8 || r == 9 || r == 10;
      u := r * s / 11;
    } else {
      assert r == 1 || r == 2;
      u := r * s / 3;
    }
  }

  lemma InverseTable31(r: nat)
    requires 1 <= r < 31
    ensures r * INVERSES_31[r] % 31 == 1
  {
    if r <= 10 {
      assert r == 1 || r == 2 || r == 3 || r == 4 || r == 5 || r == 6 || r == 7 || r == 8 || r == 9 || r == 10;
    } else if r <= 20 {
      assert r == 11 || r == 12 || r == 13 || r == 14 || r == 15 || r == 16 || r == 17 || r == 18 || r == 19 || r == 20;
    } else {
      assert r == 21 || r == 22 || r == 23 || r == 24 || r == 25 || r == 26 || r == 27 || r == 28 || r == 29 || r == 30;
    }
  }

  lemma NotAllDivide(k: nat)
    requires 0 < k < 1023 && k % 3 == 0 && k % 11 == 0
    ensures k % 31 != 0
  {
    var b := k / 11;
    assert k == 11 * b && b % 3 == 0;
    var c := b / 3;
    assert k == 33 * c && 0 < c < 31;
  }

  lemma Fixed341(w: bv10)
    requires Iter(E, 341, w) == w
    ensures w == 0
  {
    hide Iter, Apply, Direct;
    PowerE341();
    DirectIs(E341, w);
    Moves341(w);
  }

  lemma Fixed93(w: bv10)
    requires Iter(E, 93, w) == w
    ensures w == 0
  {
    hide Iter, Apply, Direct;
    PowerE93();
    DirectIs(E93, w);
    Moves93(w);
  }

  lemma Fixed33(w: bv10)
    requires Iter(E, 33, w) == w
    ensures w == 0
  {
    hide Iter, Apply, Direct;
    PowerE33();
    DirectIs(E33, w);
    Moves33(w);
  }

  /** No power of the primitive element below 1023 fixes a nonzero vector. */
  lemma OrderFull(k: nat, w: bv10)
    requires 0 < k < 1023 && Iter(E, k, w) == w
    ensures w == 0
  {
    hide Iter, Apply;
    if k % 3 != 0 {
      var s, t := Inverse(k, 3);
      FixedCofactor(341, 3, k, s, t, w);
      Fixed341(w);
    } else if k % 11 != 0 {
      var s, t := Inverse(k, 11);
      FixedCofactor(93, 11, k, s, t, w);
      Fixed93(w);
    } else {
      NotAllDivide(k);
      var s, t := Inverse(k, 31);
      FixedCofactor(33, 31, k, s, t, w);
      Fixed33(w);
    }
  }

  lemma EInjective()
    ensures Injective(E)
  {
    hide Apply;
    forall w | Apply(E, w) == 0 ensures w == 0 {
      DirectIs(E, w);
      DirectlyZero(w);
    }
  }

  lemma DirectlyZero(w: bv10)
    requires Direct(E, w) == 0
    ensures w == 0
  {}

  // ----- three equations in three unknowns -----

  lemma Eliminate(a: bv10, b: bv10, c: bv10, x: bv10, y: bv10)
    requires Add(a, Add(b, c)) == 0 && Add(x, Add(y, c)) == 0
    ensures Add(x, a) == Add(y, b)
  {}

  /** A Vandermonde system over different powers of the primitive element has only the zero solution. */
  lemma OnlyZeroSolves(u1: bv10, u2: bv10, u3: bv10, gap: nat, p: nat)
    requires gap > 0 && p > 0 && gap + p < 1023
    requires Add(u1, Add(u2, u3)) == 0
    requires Add(Iter(E, gap + p, u1), Add(Iter(E, p, u2), u3)) == 0
    requires Add(Iter(E, gap + p, Iter(E, gap + p, u1)), Add(Iter(E, p, Iter(E, p, u2)), u3)) == 0
    ensures u1 == 0 && u2 == 0 && u3 == 0
  {
    hide Iter, Add, Injective;
    var q := gap + p;
    var x1, x2 := Iter(E, q, u1), Iter(E, p, u2);
    var w1, w2 := Add(x1, u1), Add(x2, u2);
    Eliminate(u1, u2, u3, x1, x2);
    Eliminate(x1, x2, u3, Iter(E, q, x1), Iter(E, p, x2));
    IterLinear(E, q, x1, u1);
    IterLinear(E, p, x2, u2);
    assert Iter(E, q, w1) == Iter(E, p, w1);
    IterAdd(E, p, gap, w1);
    SamePower(p, Iter(E, gap, w1), w1);
    OrderFull(gap, w1);
    AddLaws(x1, u1, 0);
    OrderFull(q, u1);
    AddLaws(x2, u2, 0);
    OrderFull(p, u2);
    AddLaws(u2, u3, 0);
    AddLaws(u3, 0, 0);
    AddLaws(Add(u2, u3), 0, 0);
  }

  lemma SamePower(p: nat, a: bv10, b: bv10)
    requires Iter(E, p, a) == Iter(E, p, b)
    ensures a == b
  {
    hide Iter, Add, Injective;
    IterLinear(E, p, a, b);
    AddLaws(Iter(E, p, a), Iter(E, p, b), 0);
    EInjective();
    IterInjective(E, p, Add(a, b));
    AddLaws(a, b, 0);
  }
}
