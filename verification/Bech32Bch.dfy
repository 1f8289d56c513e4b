/**
 * The Bech32 checksum as a BCH code. src/bech32.cpp promises that its
 * generator, having three consecutive powers of a primitive element of GF(1024)
 * as roots, guarantees detection of up to three errors within a window of 1023
 * characters; that is proved here of the checksum loop itself.
 */
module Bech32Bch {
  import opened Common
  import opened Bech32
  import opened Bech32Codec
  import opened Gf1024

  // ----- evaluating messages -----

  function Field(v: Symbol): bv10 { v as bv10 }

  lemma FieldLaws(v: Symbol, w: Symbol)
    ensures Xor(v, w) < 32 && Field(Xor(v, w)) == Add(Field(v), Field(w)) && (Field(v) == 0 <==> v == 0)
  {}

  /** The value of a message at the element that `m` multiplies by, starting from `s`. */
  function Value(m: Matrix, s: bv10, v: seq<Symbol>): bv10
    decreases |v|
  {
    if v == [] then s else Value(m, Add(Apply(m, s), Field(v[0])), v[1..])
  }

  lemma {:induction false} ValueAppend(m: Matrix, s: bv10, v: seq<Symbol>, w: seq<Symbol>)
    ensures Value(m, s, v + w) == Value(m, Value(m, s, v), w)
    decreases |v|
  {
    hide Apply, Add, Field;
    if v == [] { assert v + w == w; } else {
      assert (v + w)[1..] == v[1..] + w;
      ValueAppend(m, Add(Apply(m, s), Field(v[0])), v[1..], w);
    }
  }

  lemma {:induction false} ValueLinear(m: Matrix, s: bv10, t: bv10, v: seq<Symbol>, w: seq<Symbol>)
    requires |v| == |w|
    ensures Value(m, Add(s, t), XorAll(v, w)) == Add(Value(m, s, v), Value(m, t, w))
    decreases |v|
  {
    hide Apply, Add, Xor, Field;
    if v != [] {
      FieldLaws(v[0], w[0]);
      ApplyLinear(m, s, t);
      AddSwap(Apply(m, s), Apply(m, t), Field(v[0]), Field(w[0]));
      assert XorAll(v, w)[1..] == XorAll(v[1..], w[1..]);
      ValueLinear(m, Add(Apply(m, s), Field(v[0])), Add(Apply(m, t), Field(w[0])), v[1..], w[1..]);
    }
  }

  /** Values and remainders computed step by step. */
  lemma {:induction false} ValueTrace(m: Matrix, v: seq<Symbol>, t: seq<bv10>)
    requires |t| == |v| + 1 && forall i :: 0 <= i < |v| ==> t[i + 1] == Add(Direct(m, t[i]), Field(v[i]))
    ensures Value(m, t[0], v) == t[|v|]
    decreases |v|
  {
    hide Apply, Add, Direct, Field;
    if v != [] {
      DirectIs(m, t[0]);
      ValueTrace(m, v[1..], t[1..]);
    }
  }

  lemma {:induction false} RunTrace(v: seq<Symbol>, t: seq<bv32>)
    requires |t| == |v| + 1 && forall i :: 0 <= i < |v| ==> t[i + 1] == Step(t[i], v[i])
    ensures Run(t[0], v) == t[|v|]
    decreases |v|
  {
    hide Step;
    if v != [] { RunTrace(v[1..], t[1..]); }
  }

  // ----- the multiples of the generator of degree six -----

  /** The generator with leading coefficient 1, 2, 4, 8 and 16. */
  const G1: seq<Symbol> := [1, 29, 22, 20, 21, 29, 18]
  const G2: seq<Symbol> := [2, 19, 5, 1, 3, 19, 13]
  const G4: seq<Symbol> := [4, 15, 10, 2, 6, 15, 26]
  const G8: seq<Symbol> := [8, 30, 20, 4, 12, 30, 29]
  const G16: seq<Symbol> := [16, 21, 1, 8, 24, 21, 19]
  const NONE: seq<Symbol> := [0, 0, 0, 0, 0, 0, 0]

  lemma Remainder1()
    ensures Run(0, G1) == 0
  {
    RunTrace(G1, [0x0, 0x1, 0x3d, 0x7b6, 0xf6d4, 0x1eda95, 0x3db52bd, 0x0]);
  }

  lemma Remainder2()
    ensures Run(0, G2) == 0
  {
    RunTrace(G2, [0x0, 0x2, 0x53, 0xa65, 0x14ca1, 0x299423, 0x5328473, 0x0]);
  }

  lemma Remainder4()
    ensures Run(0, G4) == 0
  {
    RunTrace(G4, [0x0, 0x4, 0x8f, 0x11ea, 0x23d42, 0x47a846, 0x8f508cf, 0x0]);
  }

  lemma Remainder8()
    ensures Run(0, G8) == 0
  {
    RunTrace(G8, [0x0, 0x8, 0x11e, 0x23d4, 0x47a84, 0x8f508c, 0x11ea119e, 0x0]);
  }

  lemma Remainder16()
    ensures Run(0, G16) == 0
  {
    RunTrace(G16, [0x0, 0x10, 0x215, 0x42a1, 0x85428, 0x10a8518, 0x2150a315, 0x0]);
  }

  /** Multiplication by the powers 997, 998 and 999 of the primitive element. */
  const R997: Matrix := [0x1bd, 0x353, 0x3af, 0x27e, 0x1f5, 0x65, 0xca, 0x194, 0x301, 0x322]
  const R998: Matrix := [0x65, 0xca, 0x194, 0x301, 0x322, 0x3d0, 0x2a9, 0x72, 0xcd, 0x19a]
  const R999: Matrix := [0x3d0, 0x2a9, 0x72, 0xcd, 0x19a, 0x104, 0x208, 0x130, 0x249, 0x1b2]

  /** The element that `m` multiplies by is a root of the generator. */
  ghost predicate Root(m: Matrix) {
    && Value(m, 0, G1) == 0 && Value(m, 0, G2) == 0 && Value(m, 0, G4) == 0
    && Value(m, 0, G8) == 0 && Value(m, 0, G16) == 0
  }

  lemma Value997Of1()
    ensures Value(R997, 0, G1) == 0
  {
    hide Value;
    ValueTrace(R997, G1, [0x0, 0x1, 0x1a0, 0x2e6, 0x2f1, 0x244, 0x5a, 0x0]);
  }

  lemma Value997Of2()
    ensures Value(R997, 0, G2) == 0
  {
    hide Value;
    ValueTrace(R997, G2, [0x0, 0x2, 0x340, 0xec, 0xeb, 0x1a8, 0x9d, 0x0]);
  }

  lemma Value997Of4()
    ensures Value(R997, 0, G4) == 0
  {
    hide Value;
    ValueTrace(R997, G4, [0x0, 0x4, 0x3a0, 0x1d8, 0x1d6, 0x350, 0x113, 0x0]);
  }

  lemma Value997Of8()
    ensures Value(R997, 0, G8) == 0
  {
    hide Value;
    ValueTrace(R997, G8, [0x0, 0x8, 0x260, 0x399, 0x385, 0x3a9, 0x20f, 0x0]);
  }

  lemma Value997Of16()
    ensures Value(R997, 0, G16) == 0
  {
    hide Value;
    ValueTrace(R997, G16, [0x0, 0x10, 0x1e0, 0x23b, 0x22a, 0x272, 0x13e, 0x0]);
  }

  lemma Value998Of1()
    ensures Value(R998, 0, G1) == 0
  {
    hide Value;
    ValueTrace(R998, G1, [0x0, 0x1, 0x78, 0x14c, 0xe5, 0xef, 0x32c, 0x0]);
  }

  lemma Value998Of2()
    ensures Value(R998, 0, G2) == 0
  {
    hide Value;
    ValueTrace(R998, G2, [0x0, 0x2, 0xd9, 0x298, 0x1ca, 0x1de, 0x378, 0x0]);
  }

  lemma Value998Of4()
    ensures Value(R998, 0, G4) == 0
  {
    hide Value;
    ValueTrace(R998, G4, [0x0, 0x4, 0x19b, 0x39, 0x394, 0x395, 0x3f9, 0x0]);
  }

  lemma Value998Of8()
    ensures Value(R998, 0, G8) == 0
  {
    hide Value;
    ValueTrace(R998, G8, [0x0, 0x8, 0x31f, 0x5b, 0x221, 0x223, 0x2fb, 0x0]);
  }

  lemma Value998Of16()
    ensures Value(R998, 0, G16) == 0
  {
    hide Value;
    ValueTrace(R998, G16, [0x0, 0x10, 0x337, 0x9f, 0x162, 0x166, 0xff, 0x0]);
  }

  lemma Value999Of1()
    ensures Value(R999, 0, G1) == 0
  {
    hide Value;
    ValueTrace(R999, G1, [0x0, 0x1, 0x3cd, 0x3ba, 0x25, 0x2b3, 0x178, 0x0]);
  }

  lemma Value999Of2()
    ensures Value(R999, 0, G2) == 0
  {
    hide Value;
    ValueTrace(R999, G2, [0x0, 0x2, 0x2ba, 0x27d, 0x4a, 0x6f, 0x2d9, 0x0]);
  }

  lemma Value999Of4()
    ensures Value(R999, 0, G4) == 0
  {
    hide Value;
    ValueTrace(R999, G4, [0x0, 0x4, 0x7d, 0x1f3, 0x94, 0xde, 0xbb, 0x0]);
  }

  lemma Value999Of8()
    ensures Value(R999, 0, G8) == 0
  {
    hide Value;
    ValueTrace(R999, G8, [0x0, 0x8, 0xd3, 0x3cf, 0x101, 0x195, 0x15f, 0x0]);
  }

  lemma Value999Of16()
    ensures Value(R999, 0, G16) == 0
  {
    hide Value;
    ValueTrace(R999, G16, [0x0, 0x10, 0x18f, 0x2be, 0x202, 0x303, 0x297, 0x0]);
  }

  lemma Root997()
    ensures Root(R997)
  {
    hide Value;
    Value997Of1();
    Value997Of2();
    Value997Of4();
    Value997Of8();
    Value997Of16();
  }

  lemma Root998()
    ensures Root(R998)
  {
    hide Value;
    Value998Of1();
    Value998Of2();
    Value998Of4();
    Value998Of8();
    Value998Of16();
  }

  lemma Root999()
    ensures Root(R999)
  {
    hide Value;
    Value999Of1();
    Value999Of2();
    Value999Of4();
    Value999Of8();
    Value999Of16();
  }

  function Chosen(d: Symbol, bit: bv32, w: seq<Symbol>): (r: seq<Symbol>)
    requires |w| == 7
    ensures |r| == 7
  {
    if d & bit != 0 then w else NONE
  }

  /** The multiple of the generator with leading coefficient `d`. */
  function Multiple(d: Symbol): (r: seq<Symbol>)
    ensures |r| == 7
  {
    XorAll(XorAll(XorAll(XorAll(Chosen(d, 1, G1), Chosen(d, 2, G2)), Chosen(d, 4, G4)), Chosen(d, 8, G8)),
      Chosen(d, 16, G16))
  }

  lemma FirstOfXor(v: seq<Symbol>, w: seq<Symbol>)
    requires |v| == |w| == 7
    ensures XorAll(v, w)[0] == Xor(v[0], w[0])
  {}

  lemma SumOfBits(d: Symbol)
    ensures Xor(Xor(Xor(Xor(Pick(d, 1, 1), Pick(d, 2, 2)), Pick(d, 4, 4)), Pick(d, 8, 8)), Pick(d, 16, 16)) == d
  {}

  lemma MultipleLeads(d: Symbol)
    ensures Multiple(d)[0] == d
  {
    hide Xor, XorAll;
    var a1, a2, a4, a8, a16 := Chosen(d, 1, G1), Chosen(d, 2, G2), Chosen(d, 4, G4), Chosen(d, 8, G8),
      Chosen(d, 16, G16);
    FirstOfXor(a1, a2);
    FirstOfXor(XorAll(a1, a2), a4);
    FirstOfXor(XorAll(XorAll(a1, a2), a4), a8);
    FirstOfXor(XorAll(XorAll(XorAll(a1, a2), a4), a8), a16);
    SumOfBits(d);
  }

  /** Sums of messages with remainder zero have remainder zero, and the same for values. */
  ghost predicate Vanishes(m: Matrix, v: seq<Symbol>) { Run(0, v) == 0 && Value(m, 0, v) == 0 }

  lemma VanishingSum(m: Matrix, v: seq<Symbol>, w: seq<Symbol>)
    requires |v| == |w| && Vanishes(m, v) && Vanishes(m, w)
    ensures Vanishes(m, XorAll(v, w))
  {
    hide Xor, Add, Run, Value;
    RunLinear(0, 0, v, w);
    XorZero(0);
    ValueLinear(m, 0, 0, v, w);
    AddLaws(0, 0, 0);
  }

  lemma NoneVanishes(m: Matrix)
    ensures Vanishes(m, NONE)
  {
    hide Step, Apply, Add;
    StepOfNothing();
    RunTrace(NONE, [0, 0, 0, 0, 0, 0, 0, 0]);
    ApplyLinear(m, 0, 0);
    DirectIs(m, 0);
    AddLaws(0, 0, 0);
    ValueTrace(m, NONE, [0, 0, 0, 0, 0, 0, 0, 0]);
  }

  lemma StepOfNothing()
    ensures Step(0, 0) == 0 && Field(0) == 0
  {}

  lemma MultipleVanishes(m: Matrix, d: Symbol)
    requires Root(m)
    ensures Vanishes(m, Multiple(d))
  {
    hide Xor, XorAll, Run, Value;
    NoneVanishes(m);
    Remainder1();
    Remainder2();
    Remainder4();
    Remainder8();
    Remainder16();
    var a1, a2, a4, a8, a16 := Chosen(d, 1, G1), Chosen(d, 2, G2), Chosen(d, 4, G4), Chosen(d, 8, G8),
      Chosen(d, 16, G16);
    VanishingSum(m, a1, a2);
    VanishingSum(m, XorAll(a1, a2), a4);
    VanishingSum(m, XorAll(XorAll(a1, a2), a4), a8);
    VanishingSum(m, XorAll(XorAll(XorAll(a1, a2), a4), a8), a16);
  }

  /** Seven symbols with remainder zero are a multiple of the generator, so they have value zero at a root. */
  lemma SevenVanish(m: Matrix, y: seq<Symbol>)
    requires Root(m) && |y| == 7 && Run(0, y) == 0
    ensures Value(m, 0, y) == 0
  {
    hide Xor, XorAll, Value, Root, Multiple, Run;
    var g := Multiple(y[0]);
    MultipleLeads(y[0]);
    MultipleVanishes(m, y[0]);
    assert y == [y[0]] + y[1..] && g == [y[0]] + g[1..];
    RunAppend(0, [y[0]], y[1..]);
    RunAppend(0, [y[0]], g[1..]);
    if y[1..] != g[1..] { SixDetermined(Run(0, [y[0]]), y[1..], g[1..]); }
  }

  // ----- remainders determine values at the roots -----

  /** Two messages of seven symbols with the same remainder have the same value at a root. */
  lemma SameSeven(m: Matrix, x: seq<Symbol>, y: seq<Symbol>)
    requires Root(m) && |x| == |y| == 7 && Run(0, x) == Run(0, y)
    ensures Value(m, 0, x) == Value(m, 0, y)
  {
    hide Xor, XorAll, Value, Root, Run, Add;
    RunLinear(0, 0, x, y);
    XorZero(0);
    XorCancel(Run(0, x), Run(0, y));
    SevenVanish(m, XorAll(x, y));
    ValueLinear(m, 0, 0, x, y);
    AddLaws(0, 0, 0);
    AddLaws(Value(m, 0, x), Value(m, 0, y), 0);
  }

  lemma GroupsOfZero()
    ensures Groups(0) == [0, 0, 0, 0, 0, 0]
  {}

  lemma ValueOne(m: Matrix, s: bv10, x: Symbol)
    ensures Value(m, s, [x]) == Add(Apply(m, s), Field(x))
  {
    hide Apply, Add;
    assert [x][1..] == [];
  }

  lemma LeadingZero(m: Matrix, g: seq<Symbol>)
    ensures Value(m, 0, [0] + g) == Value(m, 0, g) && Run(0, [0] + g) == Run(0, g)
  {
    hide Apply, Add, Step;
    ApplyLinear(m, 0, 0);
    AddLaws(0, 0, 0);
    StepOfNothing();
    assert ([0] + g)[1..] == g;
  }

  /** The value of a message at a root is the value of its remainder. */
  lemma {:induction false} ValueOfRemainder(m: Matrix, v: seq<Symbol>)
    requires Root(m)
    ensures Value(m, 0, v) == Value(m, 0, Groups(Run(0, v)))
  {
    hide Xor, Value, Root, Run, Groups, Apply, Add, Step, Field;
    if v == [] {
      NothingValued(m);
    } else {
      var n := |v| - 1;
      var u, x := v[..n], v[n];
      assert v == u + [x];
      ValueOfRemainder(m, u);
      var c := Run(0, u);
      RunAppend(0, u, [x]);
      RunBelow(u);
      RunBelow(v);
      GroupsPack(c);
      GroupsPack(Run(0, v));
      GroupsSize(c);
      GroupsSize(Run(0, v));
      RunAppend(0, Groups(c), [x]);
      LeadingZero(m, Groups(Run(0, v)));
      SameSeven(m, Groups(c) + [x], [0] + Groups(Run(0, v)));
      ValueAppend(m, 0, Groups(c), [x]);
      ValueAppend(m, 0, u, [x]);
    }
  }

  lemma NothingValued(m: Matrix)
    ensures Value(m, 0, []) == Value(m, 0, Groups(Run(0, [])))
  {
    hide Apply, Add, Groups;
    GroupsOfZero();
    ApplyLinear(m, 0, 0);
    DirectIs(m, 0);
    StepOfNothing();
    AddLaws(0, 0, 0);
    ValueTrace(m, [0, 0, 0, 0, 0, 0], [0, 0, 0, 0, 0, 0, 0]);
  }

  lemma RunBelow(v: seq<Symbol>)
    ensures Run(0, v) < ONE
  {}

  /** A message with remainder zero has value zero at every root. */
  lemma ValueZero(m: Matrix, v: seq<Symbol>)
    requires Root(m) && Run(0, v) == 0
    ensures Value(m, 0, v) == 0
  {
    hide Value, Root, Run, Groups;
    ValueOfRemainder(m, v);
    NothingValued(m);
    RunValueEmpty(m);
  }

  lemma RunValueEmpty(m: Matrix)
    ensures Run(0, []) == 0 && Value(m, 0, []) == 0
  {}

  // ----- the three roots -----

  lemma Products()
    ensures IsProduct(R998, E, R997) && IsProduct(R998, R997, E)
    ensures IsProduct(R999, E, R998) && IsProduct(R999, R998, E)
  {
    hide Apply;
    ProductsOf998();
    ProductsOf999();
  }

  lemma ProductsOf998()
    ensures IsProduct(R998, E, R997) && IsProduct(R998, R997, E)
  {
    hide Apply;
    forall i | 0 <= i < 10 ensures R998[i] == Apply(E, R997[i]) { DirectIs(E, R997[i]); }
    Swapped998();
  }

  lemma Swapped998()
    ensures IsProduct(R998, R997, E)
  {
    hide Apply;
    forall i | 0 <= i < 10 ensures R998[i] == Apply(R997, E[i]) { DirectIs(R997, E[i]); }
  }

  lemma ProductsOf999()
    ensures IsProduct(R999, E, R998) && IsProduct(R999, R998, E)
  {
    hide Apply;
    forall i | 0 <= i < 10 ensures R999[i] == Apply(E, R998[i]) { DirectIs(E, R998[i]); }
    Swapped999();
  }

  lemma Swapped999()
    ensures IsProduct(R999, R998, E)
  {
    hide Apply;
    forall i | 0 <= i < 10 ensures R999[i] == Apply(R998, E[i]) { DirectIs(R998, E[i]); }
  }

  lemma PowerOf997()
    ensures IsPower(R997, 997)
  {
    hide Apply, Iter;
    PowerE992();
    PowerE5();
    forall i | 0 <= i < 10 ensures R997[i] == Apply(E992, E5[i]) { DirectIs(E992, E5[i]); }
    PowerTimes(R997, E992, E5, 992, 5);
  }

  /** They are what their names say. */
  lemma PowersOfRoots()
    ensures IsPower(R997, 997) && IsPower(R998, 998) && IsPower(R999, 999)
  {
    hide IsPower, IsProduct;
    PowerOf997();
    PowerE();
    Products();
    PowerTimes(R998, E, R997, 1, 997);
    PowerTimes(R999, E, R998, 1, 998);
  }

  lemma DirectlyZero997(w: bv10)
    requires Direct(R997, w) == 0
    ensures w == 0
  {}

  lemma Injective997()
    ensures Injective(R997)
  {
    hide Apply, Direct;
    forall w | Apply(R997, w) == 0 ensures w == 0 {
      DirectIs(R997, w);
      DirectlyZero997(w);
    }
  }

  /** A product of injective maps is injective. */
  lemma InjectiveProduct(c: Matrix, a: Matrix, b: Matrix)
    requires IsProduct(c, a, b) && Injective(a) && Injective(b)
    ensures Injective(c)
  {
    hide Apply, IsProduct;
    forall w | Apply(c, w) == 0 ensures w == 0 { Composed(c, a, b, w); }
  }

  // ----- messages with few symbols that are not zero -----

  ghost predicate Zeros(v: seq<Symbol>) { forall i :: 0 <= i < |v| ==> v[i] == 0 }

  lemma {:induction false} ValueOfZeros(m: Matrix, s: bv10, z: seq<Symbol>)
    requires Zeros(z)
    ensures Value(m, s, z) == Iter(m, |z|, s)
    decreases |z|
  {
    hide Apply, Add, Field;
    if z != [] {
      StepOfNothing();
      AddLaws(Apply(m, s), 0, 0);
      ValueOfZeros(m, Apply(m, s), z[1..]);
      IterAdd(m, |z| - 1, 1, s);
      assert Iter(m, 1, s) == Apply(m, Iter(m, 0, s)) == Apply(m, s);
    }
  }

  /** Zeros and then one symbol. */
  lemma ValueOfSegment(m: Matrix, s: bv10, z: seq<Symbol>, x: Symbol)
    requires Zeros(z)
    ensures Value(m, s, z + [x]) == Add(Iter(m, |z| + 1, s), Field(x))
  {
    hide Apply, Add, Field, Value;
    ValueAppend(m, s, z, [x]);
    ValueOfZeros(m, s, z);
    ValueOne(m, Iter(m, |z|, s), x);
  }

  /** All symbols other than those at three places are zero. */
  ghost predicate OnlyAt(d: seq<Symbol>, i: nat, j: nat, k: nat) {
    i < j < k < |d| && forall l :: 0 <= l < |d| && l != i && l != j && l != k ==> d[l] == 0
  }

  /** Zeros and a symbol, three times. */
  lemma ValueOfSegments(m: Matrix, a: seq<Symbol>, x: Symbol, b: seq<Symbol>, y: Symbol, c: seq<Symbol>, z: Symbol)
    requires Zeros(a) && Zeros(b) && Zeros(c)
    ensures Value(m, 0, ((a + [x]) + (b + [y])) + (c + [z])) ==
      Add(Iter(m, |c| + 1 + (|b| + 1), Field(x)), Add(Iter(m, |c| + 1, Field(y)), Field(z)))
  {
    hide Apply, Add, Field, Value, Iter, Zeros;
    ValueAppend(m, 0, (a + [x]) + (b + [y]), c + [z]);
    ValueAppend(m, 0, a + [x], b + [y]);
    var fx, fy, fz := Field(x), Field(y), Field(z);
    ValueOfSegment(m, 0, a, x);
    IterLinear(m, |a| + 1, 0, 0);
    AddLaws(fx, 0, 0);
    ValueOfSegment(m, fx, b, y);
    var s := Iter(m, |b| + 1, fx);
    ValueOfSegment(m, Add(s, fy), c, z);
    IterLinear(m, |c| + 1, s, fy);
    IterAdd(m, |c| + 1, |b| + 1, fx);
    AddLaws(Iter(m, |c| + 1, s), Iter(m, |c| + 1, fy), fz);
  }

  lemma SplitInFour(d: seq<Symbol>, i: nat, j: nat, k: nat)
    requires i < j < k < |d|
    ensures d == (((d[..i] + [d[i]]) + (d[i + 1..j] + [d[j]])) + (d[j + 1..k] + [d[k]])) + d[k + 1..]
  {
    assert d[..i] + [d[i]] == d[..i + 1];
    assert d[..i + 1] + (d[i + 1..j] + [d[j]]) == d[..j + 1];
    assert d[..j + 1] + (d[j + 1..k] + [d[k]]) == d[..k + 1];
  }

  /** The sum of the three terms. */
  function ThreeTerms(m: Matrix, d: seq<Symbol>, i: nat, j: nat, k: nat): bv10
    requires i < j < k < |d|
  {
    Add(Iter(m, k - i, Field(d[i])), Add(Iter(m, k - j, Field(d[j])), Field(d[k])))
  }

  /** Three terms, multiplied by what follows the last of them. */
  lemma ValueOfThree(m: Matrix, d: seq<Symbol>, i: nat, j: nat, k: nat)
    requires OnlyAt(d, i, j, k)
    ensures Value(m, 0, d) == Iter(m, |d| - 1 - k, ThreeTerms(m, d, i, j, k))
  {
    hide Apply, Add, Field, Value, Iter;
    var za, zb, zc, zd := d[..i], d[i + 1..j], d[j + 1..k], d[k + 1..];
    SplitInFour(d, i, j, k);
    ValueAppend(m, 0, ((za + [d[i]]) + (zb + [d[j]])) + (zc + [d[k]]), zd);
    ValueOfSegments(m, za, d[i], zb, d[j], zc, d[k]);
    ValueOfZeros(m, ThreeTerms(m, d, i, j, k), zd);
  }

  lemma TermsVanish(m: Matrix, d: seq<Symbol>, i: nat, j: nat, k: nat)
    requires OnlyAt(d, i, j, k) && Root(m) && Injective(m) && Run(0, d) == 0
    ensures ThreeTerms(m, d, i, j, k) == 0
  {
    hide Value, Root, Injective, Run, Iter, Add, OnlyAt;
    assert i < j < k < |d| by { OnlyAtOrdered(d, i, j, k); }
    ValueZero(m, d);
    ValueOfThree(m, d, i, j, k);
    IterInjective(m, |d| - 1 - k, ThreeTerms(m, d, i, j, k));
  }

  lemma OnlyAtOrdered(d: seq<Symbol>, i: nat, j: nat, k: nat)
    requires OnlyAt(d, i, j, k)
    ensures i < j < k < |d|
  {}

  /** A message with remainder zero is zero if all of it but three symbols is, in a window of 1023. */
  lemma ThreeVanish(d: seq<Symbol>, i: nat, j: nat, k: nat)
    requires |d| <= 1023 && OnlyAt(d, i, j, k) && Run(0, d) == 0
    ensures d[i] == 0 && d[j] == 0 && d[k] == 0
  {
    hide Root, Injective, Run, Iter, Add, OnlyAt, IsProduct, IsPower, Field;
    assert i < j < k < |d| by { OnlyAtOrdered(d, i, j, k); }
    AllRoots();
    TermsVanish(R997, d, i, j, k);
    TermsVanish(R998, d, i, j, k);
    TermsVanish(R999, d, i, j, k);
    var x, y := Field(d[i]), Field(d[j]);
    var p, q := k - i, k - j;
    var u1, u2 := Iter(R997, p, x), Iter(R997, q, y);
    Products();
    IterProduct(R998, E, R997, p, x);
    IterProduct(R998, E, R997, q, y);
    IterProduct(R999, E, R998, p, x);
    IterProduct(R999, E, R998, q, y);
    OnlyZeroSolves(u1, u2, Field(d[k]), j - i, q);
    IterInjective(R997, p, x);
    IterInjective(R997, q, y);
    FieldLaws(d[i], 0);
    FieldLaws(d[j], 0);
    FieldLaws(d[k], 0);
  }

  /** Three consecutive powers of the primitive element are roots of the generator. */
  lemma AllRoots()
    ensures Root(R997) && Root(R998) && Root(R999)
    ensures IsPower(R997, 997) && IsPower(R998, 998) && IsPower(R999, 999)
    ensures Injective(R997) && Injective(R998) && Injective(R999)
  {
    hide Root, Injective, IsProduct, IsPower;
    PowersOfRoots();
    Root997();
    Root998();
    Root999();
    EInjective();
    Injective997();
    Products();
    InjectiveProduct(R998, E, R997);
    InjectiveProduct(R999, E, R998);
  }

  // ----- detection -----

  /** Outside three places, the messages agree. */
  ghost predicate AgreeBut<T>(v: seq<T>, w: seq<T>, i: nat, j: nat, k: nat) {
    && |v| == |w| && i < j < k < |v|
    && forall l :: 0 <= l < |v| && l != i && l != j && l != k ==> v[l] == w[l]
  }

  lemma {:induction false} XorAllAt(v: seq<Symbol>, w: seq<Symbol>, l: nat)
    requires |v| == |w| && l < |v|
    ensures XorAll(v, w)[l] == Xor(v[l], w[l])
  {
    hide Xor;
    if l > 0 { XorAllAt(v[1..], w[1..], l - 1); }
  }

  lemma SameRemainder(c: bv32, v: seq<Symbol>, w: seq<Symbol>, i: nat, j: nat, k: nat)
    requires |v| <= 1023 && AgreeBut(v, w, i, j, k) && Run(c, v) == Run(c, w)
    ensures v == w
  {
    hide Xor, Run, XorAll;
    RunLinear(c, c, v, w);
    XorZero(c);
    XorZero(Run(c, v));
    var d := XorAll(v, w);
    forall l | 0 <= l < |v| ensures d[l] == 0 <==> v[l] == w[l] {
      XorAllAt(v, w, l);
      XorCancel(v[l], w[l]);
    }
    ThreeVanish(d, i, j, k);
  }

  /** Any change confined to three symbols of a window of 1023 changes the remainder. */
  lemma ThreeDetected(c: bv32, p: seq<Symbol>, v: seq<Symbol>, w: seq<Symbol>, z: seq<Symbol>, i: nat, j: nat, k: nat)
    requires c < ONE && |v| <= 1023 && AgreeBut(v, w, i, j, k) && v != w
    ensures Run(c, p + v + z) != Run(c, p + w + z)
  {
    hide Step;
    RunAppend(c, p + v, z);
    RunAppend(c, p + w, z);
    RunAppend(c, p, v);
    RunAppend(c, p, w);
    if Run(Run(c, p), v) == Run(Run(c, p), w) { SameRemainder(Run(c, p), v, w, i, j, k); }
    RunKeepsApart(Run(c, p + v), Run(c, p + w), z);
  }

  /** Characters that agree up to case stand for the same symbols. */
  lemma SymbolsAgree(v: seq<Byte>, w: seq<Byte>, i: nat, j: nat, k: nat)
    requires AllSymbols(v) && AllSymbols(w) && AgreeBut(Lower(v), Lower(w), i, j, k)
    ensures AgreeBut(Symbols(v), Symbols(w), i, j, k)
  {
    hide CharOf, SymbolOf, LowerCase;
    forall l | 0 <= l < |v| && l != i && l != j && l != k ensures Symbols(v)[l] == Symbols(w)[l] {
      SymbolThenChar(v[l]);
      SymbolThenChar(w[l]);
      assert Lower(v)[l] == Lower(w)[l];
      CharThenSymbol(Symbols(v)[l]);
      CharThenSymbol(Symbols(w)[l]);
    }
  }

  lemma ScatteredApart(hrp: seq<Byte>, q: seq<Symbol>, v: seq<Symbol>, w: seq<Symbol>, z: seq<Symbol>, i: nat, j: nat,
      k: nat)
    requires |v| <= 1023 && AgreeBut(v, w, i, j, k) && v != w
    ensures var e := Verified(hrp, q + v + z); e.Invalid? || e != Verified(hrp, q + w + z)
  {
    hide Expanded, Run, AgreeBut;
    var head := Expanded(hrp) + q;
    ThreeDetected(1, head, v, w, z, i, j, k);
    assert Expanded(hrp) + (q + v + z) == head + v + z;
    assert Expanded(hrp) + (q + w + z) == head + w + z;
  }

  /**
   * Changing up to three data characters of a valid string, wherever they are,
   * never gives a string valid under the same encoding.
   */
  lemma ScatteredErrorsDetected(p: seq<Byte>, v: seq<Byte>, w: seq<Byte>, z: seq<Byte>, i: nat, j: nat, k: nat)
    requires AgreeBut(Lower(v), Lower(w), i, j, k) && Lower(v) != Lower(w) && SEPARATOR !in w
    requires Decoded(p + v + z).Parsed? && LastSeparator(p + v + z) < |p|
    ensures Decoded(p + w + z).Rejected? || Decoded(p + w + z).encoding != Decoded(p + v + z).encoding
  {
    hide LastSeparator, Lower, AllSymbols, Symbols, Verified, Decoded;
    var s, t := p + v + z, p + w + z;
    DecodedParts(s);
    var pos := LastSeparator(s);
    SameSeparator(p, v, w, z);
    if Decoded(t).Parsed? && Decoded(t).encoding == Decoded(s).encoding {
      DecodedParts(t);
      var q := p[pos + 1..];
      SplitAt(p, v, z, pos);
      SplitAt(p, w, z, pos);
      ThreeSymbols(q, v, z);
      ThreeSymbols(q, w, z);
      SymbolsApart(v, w);
      SymbolsAgree(v, w, i, j, k);
      ScatteredApart(Lower(p[..pos]), Symbols(q), Symbols(v), Symbols(w), Symbols(z), i, j, k);
    }
  }
}
