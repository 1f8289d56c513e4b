/**
 * Bech32 and Bech32m (src/bech32.cpp; BIP 173 section "Bech32", BIP 350 section
 * "Bech32m"). The checksum is a remainder modulo a generator polynomial over
 * GF(32); its update step is linear and injective, from which round trips and
 * error detection follow.
 */
module Bech32 {

  /** A 5-bit symbol. */
  type Symbol = x: bv32 | x < 32

  // ----- the checksum polynomial -----

  /** The constant to fold in when a bit of the leading coefficient is set. */
  function Pick(c0: bv32, bit: bv32, k: bv32): bv32 { if c0 & bit != 0 then k else 0 }

  function Xor(a: bv32, b: bv32): bv32 { a ^ b }

  lemma XorSwap(a: bv32, b: bv32, c: bv32, d: bv32)
    ensures Xor(Xor(a, b), Xor(c, d)) == Xor(Xor(a, c), Xor(b, d))
  {
    hide Xor;
    XorAssoc(a, b, Xor(c, d));
    XorAssoc(b, c, d);
    XorComm(b, c);
    XorAssoc(c, b, d);
    XorAssoc(a, c, Xor(b, d));
  }

  lemma XorComm(a: bv32, b: bv32)
    ensures Xor(a, b) == Xor(b, a)
  {}

  lemma XorAssoc(a: bv32, b: bv32, c: bv32)
    ensures Xor(Xor(a, b), c) == Xor(a, Xor(b, c))
  {}

  lemma BitMask(a: bv32, b: bv32, m: bv32)
    ensures (a ^ b) & m == (a & m) ^ (b & m)
  {}

  function Fold(c0: bv32): bv32 {
    Xor(Xor(Xor(Xor(Pick(c0, 1, 0x3b6a_57b2), Pick(c0, 2, 0x2650_8e6d)), Pick(c0, 4, 0x1ea1_19fa)),
            Pick(c0, 8, 0x3d42_33dd)), Pick(c0, 16, 0x2a14_62b3))
  }

  /** One more coefficient: c(x) * x + v modulo the generator. */
  function Step(c: bv32, v: bv32): bv32 { Xor(Xor((c & 0x1ff_ffff) << 5, v), Fold(c >> 25)) }

  lemma StepBound(c: bv32, v: Symbol)
    requires c < 0x4000_0000
    ensures Step(c, v) < 0x4000_0000
  {}

  lemma PickLinear(a: bv32, b: bv32, bit: bv32, k: bv32)
    requires bit == 1 || bit == 2 || bit == 4 || bit == 8 || bit == 16
    ensures Pick(Xor(a, b), bit, k) == Xor(Pick(a, bit, k), Pick(b, bit, k))
  {
    BitMask(a, b, bit);
    assert (a & bit == 0 || a & bit == bit) && (b & bit == 0 || b & bit == bit);
    assert bit ^ bit == 0 && k ^ k == 0;
  }

  lemma FoldLinear(a: bv32, b: bv32)
    ensures Fold(Xor(a, b)) == Xor(Fold(a), Fold(b))
  {
    hide Pick, Xor;
    var a1, a2, a3 := Pick(a, 1, 0x3b6a_57b2), Pick(a, 2, 0x2650_8e6d), Pick(a, 4, 0x1ea1_19fa);
    var b1, b2, b3 := Pick(b, 1, 0x3b6a_57b2), Pick(b, 2, 0x2650_8e6d), Pick(b, 4, 0x1ea1_19fa);
    var a4, b4 := Pick(a, 8, 0x3d42_33dd), Pick(b, 8, 0x3d42_33dd);
    PickLinear(a, b, 1, 0x3b6a_57b2);
    PickLinear(a, b, 2, 0x2650_8e6d);
    PickLinear(a, b, 4, 0x1ea1_19fa);
    PickLinear(a, b, 8, 0x3d42_33dd);
    PickLinear(a, b, 16, 0x2a14_62b3);
    XorSwap(a1, b1, a2, b2);
    XorSwap(Xor(a1, a2), Xor(b1, b2), a3, b3);
    XorSwap(Xor(Xor(a1, a2), a3), Xor(Xor(b1, b2), b3), a4, b4);
    XorSwap(Xor(Xor(Xor(a1, a2), a3), a4), Xor(Xor(Xor(b1, b2), b3), b4), Pick(a, 16, 0x2a14_62b3),
      Pick(b, 16, 0x2a14_62b3));
  }

  lemma LeadLinear(c: bv32, d: bv32)
    ensures Xor(c, d) >> 25 == Xor(c >> 25, d >> 25)
  {}

  lemma RestLinear(c: bv32, d: bv32)
    ensures (Xor(c, d) & 0x1ff_ffff) << 5 == Xor((c & 0x1ff_ffff) << 5, (d & 0x1ff_ffff) << 5)
  {
    calc {
      (Xor(c, d) & 0x1ff_ffff) << 5;
      ((c ^ d) & 0x1ff_ffff) << 5;
      ((c & 0x1ff_ffff) ^ (d & 0x1ff_ffff)) << 5;
      ((c & 0x1ff_ffff) << 5) ^ ((d & 0x1ff_ffff) << 5);
      Xor((c & 0x1ff_ffff) << 5, (d & 0x1ff_ffff) << 5);
    }
  }

  lemma StepLinear(c: bv32, d: bv32, v: bv32, w: bv32)
    ensures Step(Xor(c, d), Xor(v, w)) == Xor(Step(c, v), Step(d, w))
  {
    hide Fold, Xor;
    FoldLinear(c >> 25, d >> 25);
    LeadLinear(c, d);
    RestLinear(c, d);
    var p, q := (c & 0x1ff_ffff) << 5, (d & 0x1ff_ffff) << 5;
    XorSwap(p, q, v, w);
    XorSwap(Xor(p, v), Xor(q, w), Fold(c >> 25), Fold(d >> 25));
  }

  lemma StepInjective(c: bv32)
    requires c < 0x4000_0000 && c != 0
    ensures Step(c, 0) != 0
  {}

  lemma XorZero(a: bv32)
    ensures Xor(a, 0) == a && Xor(0, a) == a && Xor(a, a) == 0
  {}

  lemma XorCancel(a: bv32, b: bv32)
    ensures Xor(a, Xor(a, b)) == b && (Xor(a, b) == 0 <==> a == b)
  {}

  lemma XorBound(v: Symbol, w: Symbol)
    ensures Xor(v, w) < 32
  {}

  // ----- remainders of whole messages -----

  const ONE := 0x4000_0000 as bv32

  /** The remainder after the coefficients `v`, starting from `c`. */
  function Run(c: bv32, v: seq<Symbol>): (r: bv32)
    ensures c < ONE ==> r < ONE
    decreases |v|
  {
    if v == [] then c else
      if c < ONE then StepBound(c, v[0]); Run(Step(c, v[0]), v[1..]) else Run(Step(c, v[0]), v[1..])
  }

  method PolyMod(v: seq<Symbol>) returns (c: bv32)
    ensures c == Run(1, v)
  {
    hide Xor, Pick, Fold;
    c := 1;
    for i := 0 to |v|
      invariant Run(c, v[i..]) == Run(1, v)
    {
      assert v[i..][1..] == v[i + 1..];
      var c0 := c >> 25;
      c := Xor((c & 0x1ff_ffff) << 5, v[i]);
      FoldInTurn(c, c0);
      c := Xor(c, Pick(c0, 1, 0x3b6a_57b2));
      c := Xor(c, Pick(c0, 2, 0x2650_8e6d));
      c := Xor(c, Pick(c0, 4, 0x1ea1_19fa));
      c := Xor(c, Pick(c0, 8, 0x3d42_33dd));
      c := Xor(c, Pick(c0, 16, 0x2a14_62b3));
    }
    assert v[|v|..] == [];
  }

  /** Folding the constants in one by one. */
  lemma FoldInTurn(x: bv32, c0: bv32)
    ensures Xor(Xor(Xor(Xor(Xor(x, Pick(c0, 1, 0x3b6a_57b2)), Pick(c0, 2, 0x2650_8e6d)), Pick(c0, 4, 0x1ea1_19fa)),
                    Pick(c0, 8, 0x3d42_33dd)), Pick(c0, 16, 0x2a14_62b3)) == Xor(x, Fold(c0))
  {
    hide Xor, Pick;
    var p1, p2, p3 := Pick(c0, 1, 0x3b6a_57b2), Pick(c0, 2, 0x2650_8e6d), Pick(c0, 4, 0x1ea1_19fa);
    var p4, p5 := Pick(c0, 8, 0x3d42_33dd), Pick(c0, 16, 0x2a14_62b3);
    XorAssoc(x, p1, p2);
    XorAssoc(x, Xor(p1, p2), p3);
    XorAssoc(x, Xor(Xor(p1, p2), p3), p4);
    XorAssoc(x, Xor(Xor(Xor(p1, p2), p3), p4), p5);
  }

  lemma {:induction false} RunAppend(c: bv32, v: seq<Symbol>, w: seq<Symbol>)
    ensures Run(c, v + w) == Run(Run(c, v), w)
    decreases |v|
  {
    hide Step;
    if v == [] { assert v + w == w; } else {
      assert (v + w)[1..] == v[1..] + w;
      RunAppend(Step(c, v[0]), v[1..], w);
    }
  }

  function XorAll(v: seq<Symbol>, w: seq<Symbol>): (r: seq<Symbol>)
    requires |v| == |w|
    ensures |r| == |v|
  {
    if v == [] then [] else XorBound(v[0], w[0]); [Xor(v[0], w[0])] + XorAll(v[1..], w[1..])
  }

  /** Remainders add up. */
  lemma {:induction false} RunLinear(c: bv32, d: bv32, v: seq<Symbol>, w: seq<Symbol>)
    requires |v| == |w|
    ensures Run(Xor(c, d), XorAll(v, w)) == Xor(Run(c, v), Run(d, w))
    decreases |v|
  {
    hide Step, Xor;
    if v != [] {
      StepLinear(c, d, v[0], w[0]);
      XorBound(v[0], w[0]);
      assert XorAll(v, w)[1..] == XorAll(v[1..], w[1..]);
      RunLinear(Step(c, v[0]), Step(d, w[0]), v[1..], w[1..]);
    }
  }

  /** Different remainders stay different. */
  lemma {:induction false} RunKeepsApart(c: bv32, d: bv32, v: seq<Symbol>)
    requires c != d && c < ONE && d < ONE
    ensures Run(c, v) != Run(d, v)
    decreases |v|
  {
    hide Step, Xor;
    if v != [] {
      StepBound(c, v[0]);
      StepBound(d, v[0]);
      StepKeepsApart(c, d, v[0]);
      RunKeepsApart(Step(c, v[0]), Step(d, v[0]), v[1..]);
    }
  }

  lemma StepKeepsApart(c: bv32, d: bv32, v: Symbol)
    requires c != d && c < ONE && d < ONE
    ensures Step(c, v) != Step(d, v)
  {
    hide Step, Xor;
    StepLinear(c, d, v, v);
    XorZero(v);
    XorCancel(c, d);
    XorBelow(c, d);
    StepInjective(Xor(c, d));
    XorCancel(Step(c, v), Step(d, v));
  }

  lemma XorBelow(c: bv32, d: bv32)
    requires c < ONE && d < ONE
    ensures Xor(c, d) < ONE
  {}

  /** Remainders this small have room for `n` more symbols before the generator matters. */
  function Room(n: nat): bv32
    requires n <= 6
  {
    if n == 6 then 1 else if n == 5 then 0x20 else if n == 4 then 0x400 else if n == 3 then 0x8000
    else if n == 2 then 0x10_0000 else if n == 1 then 0x200_0000 else ONE
  }

  /** One more symbol packed behind the others. */
  function Appended(c: bv32, v: bv32): bv32 { Xor(c << 5, v) }

  /** Without a leading coefficient the step only makes room. */
  lemma SmallStep(c: bv32, v: Symbol)
    requires c < 0x200_0000
    ensures Step(c, v) == Appended(c, v)
  {
    hide Fold, Xor;
    NoLead(c);
    FoldZero();
    XorZero(Xor(c << 5, v));
  }

  lemma NoLead(c: bv32)
    requires c < 0x200_0000
    ensures c >> 25 == 0 && c & 0x1ff_ffff == c
  {}

  lemma FoldZero()
    ensures Fold(0) == 0
  {}

  lemma UpBelow(c: bv32, v: Symbol)
    requires c < 0x200_0000
    ensures Appended(c, v) == 0 <==> c == 0 && v == 0
    ensures c < 1 ==> Appended(c, v) < 0x20
    ensures c < 0x20 ==> Appended(c, v) < 0x400
    ensures c < 0x400 ==> Appended(c, v) < 0x8000
    ensures c < 0x8000 ==> Appended(c, v) < 0x10_0000
    ensures c < 0x10_0000 ==> Appended(c, v) < 0x200_0000
    ensures Appended(c, v) < 0x4000_0000
  {}

  lemma PackStep(c: bv32, v: Symbol, n: nat)
    requires 1 <= n <= 6 && c < Room(n)
    ensures Step(c, v) < Room(n - 1) && (Step(c, v) == 0 <==> c == 0 && v == 0)
  {
    hide Step, Appended;
    SmallStep(c, v);
    UpBelow(c, v);
  }

  /** Up to six symbols are packed side by side: only zeros give zero. */
  lemma {:induction false} PackNonzero(c: bv32, v: seq<Symbol>)
    requires |v| <= 6 && c < Room(|v|) && (c != 0 || exists i :: 0 <= i < |v| && v[i] != 0)
    ensures Run(c, v) != 0
    decreases |v|
  {
    hide Step, Room;
    if v == [] {} else {
      PackStep(c, v[0], |v|);
      if c == 0 && v[0] == 0 {
        var i :| 0 <= i < |v| && v[i] != 0;
        assert v[1..][i - 1] != 0;
      }
      PackNonzero(Step(c, v[0]), v[1..]);
    }
  }

  lemma {:induction false} XorAllDiffers(v: seq<Symbol>, w: seq<Symbol>)
    requires |v| == |w| && v != w
    ensures exists i :: 0 <= i < |v| && XorAll(v, w)[i] != 0
  {
    hide Xor;
    var r := XorAll(v, w);
    XorCancel(v[0], w[0]);
    if v[0] != w[0] { assert r[0] != 0; } else {
      assert v == [v[0]] + v[1..] && w == [w[0]] + w[1..];
      XorAllDiffers(v[1..], w[1..]);
      var i :| 0 <= i < |v[1..]| && XorAll(v[1..], w[1..])[i] != 0;
      assert r[i + 1] != 0;
    }
  }

  /** Six consecutive symbols are determined by the remainder they lead to. */
  lemma SixDetermined(c: bv32, v: seq<Symbol>, w: seq<Symbol>)
    requires |v| == |w| <= 6 && v != w
    ensures Run(c, v) != Run(c, w)
  {
    hide Xor, Step, Run;
    RunLinear(c, c, v, w);
    XorZero(c);
    XorAllDiffers(v, w);
    PackNonzero(0, XorAll(v, w));
    XorCancel(Run(c, v), Run(c, w));
  }

  /** Any change confined to six consecutive symbols changes the remainder. */
  lemma BurstDetected(c: bv32, p: seq<Symbol>, v: seq<Symbol>, w: seq<Symbol>, z: seq<Symbol>)
    requires c < ONE && |v| == |w| <= 6 && v != w
    ensures Run(c, p + v + z) != Run(c, p + w + z)
  {
    hide Step;
    RunAppend(c, p + v, z);
    RunAppend(c, p + w, z);
    RunAppend(c, p, v);
    RunAppend(c, p, w);
    SixDetermined(Run(c, p), v, w);
    RunKeepsApart(Run(c, p + v), Run(c, p + w), z);
  }
}
