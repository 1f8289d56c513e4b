/**
 * How many steps the skip-pointer search of src/chain.cpp takes. Only heights
 * matter: every step either removes a one bit of the current height below the
 * highest bit in which it differs from the target, or lowers that bit.
 */
module SkipSteps {
  import opened Arithmetic

  /** Clears the lowest one bit. */
  function InvertLowestOne(n: nat): (r: nat)
    ensures n > 0 ==> r < n
    ensures r <= n
  {
    if n == 0 then 0 else if n % 2 == 1 then n - 1 else 2 * InvertLowestOne(n / 2)
  }

  /** The height a skip pointer leads to. */
  function SkipHeight(height: nat): (r: nat)
    ensures r <= height && (height > 0 ==> r < height)
  {
    if height < 2 then 0
    else if height % 2 == 1 then InvertLowestOne(InvertLowestOne(height - 1)) + 1
    else InvertLowestOne(height)
  }

  /** The height the search goes to next: by the skip pointer, unless it overshoots or the one below leads further. */
  function Next(at: nat, h: nat): (r: nat)
    requires at > h
    ensures h <= r < at
  {
    var skip, below := SkipHeight(at), SkipHeight(at - 1);
    if skip == h || (skip > h && !(below < skip - 2 && below >= h)) then skip else at - 1
  }

  function Steps(at: nat, h: nat): nat
    requires at >= h
  {
    if at == h then 0 else 1 + Steps(Next(at, h), h)
  }

  lemma OneStep(at: nat, h: nat)
    requires at > h
    ensures Steps(at, h) == 1 + Steps(Next(at, h), h)
  {}

  // ----- one bits -----

  function Ones(n: nat): nat { if n == 0 then 0 else n % 2 + Ones(n / 2) }

  lemma Doubled(n: nat)
    ensures InvertLowestOne(2 * n) == 2 * InvertLowestOne(n) && InvertLowestOne(2 * n + 1) == 2 * n
    ensures Ones(2 * n) == Ones(n) && Ones(2 * n + 1) == Ones(n) + 1
  {}

  /** Exactly the lowest one bit goes. */
  lemma {:induction false} InvertClearsLowestOne(k: nat, m: nat)
    ensures InvertLowestOne(Pow2(k) * (2 * m + 1)) == Pow2(k) * (2 * m)
  {
    if k > 0 {
      var p := Pow2(k - 1);
      InvertClearsLowestOne(k - 1, m);
      Associate(2, p, 2 * m + 1);
      Associate(2, p, 2 * m);
      Doubled(p * (2 * m + 1));
    }
  }

  lemma {:induction false} OnesInvert(n: nat)
    requires n > 0
    ensures Ones(InvertLowestOne(n)) == Ones(n) - 1
  {
    hide InvertLowestOne, Ones;
    var m := n / 2;
    assert n == 2 * m || n == 2 * m + 1;
    Doubled(m);
    if n == 2 * m {
      OnesInvert(m);
      Doubled(InvertLowestOne(m));
    }
  }

  lemma {:induction false} OnesBound(a: nat, j: nat)
    requires a < Pow2(j)
    ensures Ones(a) <= j && (a > 0 ==> Ones(a) > 0)
  {
    if j > 0 { OnesBound(a / 2, j - 1); }
  }

  /** With another one bit below it, the top bit survives; without, it is all there is. */
  lemma {:induction false} TopStays(a: nat, j: nat)
    requires j > 0 && Pow2(j - 1) <= a < Pow2(j)
    ensures Ones(a) >= 2 ==> InvertLowestOne(a) >= Pow2(j - 1)
    ensures Ones(a) <= 1 ==> a == Pow2(j - 1) && InvertLowestOne(a) == 0
  {
    if j > 1 {
      TopStays(a / 2, j - 1);
      if a % 2 == 1 { OnesBound(a / 2, j - 1); }
    }
  }

  ghost predicate Aligned(top: nat, j: nat) { top % Pow2(j) == 0 }

  /** An aligned number is even, and its half is aligned. */
  lemma HalfAligned(top: nat, j: nat)
    requires j > 0 && Aligned(top, j)
    ensures top % 2 == 0 && Aligned(top / 2, j - 1)
  {
    var p, q := Pow2(j - 1), top / Pow2(j);
    assert top == (2 * p) * q;
    Associate(2, p, q);
    DivUnique(p * q, p, q, 0);
  }

  /** Both halves of an aligned block are aligned. */
  lemma SmallerAligned(top: nat, j: nat)
    requires j > 0 && Aligned(top, j)
    ensures Aligned(top, j - 1) && Aligned(top + Pow2(j - 1), j - 1)
  {
    var p, q := Pow2(j - 1), top / Pow2(j);
    assert top == (2 * p) * q;
    Associate(p, 2, q);
    DivUnique(top, p, 2 * q, 0);
    MulSucc(p, 2 * q);
    DivUnique(top + p, p, 2 * q + 1, 0);
  }

  /** Bits above stay out of it. */
  lemma {:induction false} InvertBelow(top: nat, a: nat, j: nat)
    requires Aligned(top, j) && 0 < a < Pow2(j)
    ensures InvertLowestOne(top + a) == top + InvertLowestOne(a)
  {
    hide Aligned, InvertLowestOne, Ones;
    if j > 0 {
      HalfAligned(top, j);
      var t, n := top / 2, a / 2;
      assert top == 2 * t && (a == 2 * n || a == 2 * n + 1);
      Doubled(t + n);
      Doubled(n);
      if a == 2 * n { InvertBelow(t, n, j - 1); }
    }
  }

  // ----- one step of the search -----

  /** Clearing two ones clears the top bit of the block or keeps it and leaves two fewer. */
  lemma TwoCleared(top: nat, j: nat, m: nat) returns (k: nat)
    requires j > 0 && Aligned(top, j) && Pow2(j - 1) <= m < Pow2(j)
    ensures var s := InvertLowestOne(InvertLowestOne(top + m));
      s <= top || (s == top + k && k == InvertLowestOne(InvertLowestOne(m)) && Ones(k) == Ones(m) - 2)
  {
    hide InvertLowestOne, Ones, Aligned, Pow2;
    k := 0;
    InvertBelow(top, m, j);
    var n := InvertLowestOne(m);
    OnesInvert(m);
    TopStays(m, j);
    if n > 0 {
      InvertBelow(top, n, j);
      k := InvertLowestOne(n);
      OnesInvert(n);
    }
  }

  /** From odd heights the pointer one below never leads further than the own one. */
  lemma OddTakesSkip(at: nat, h: nat)
    requires at > h && at % 2 == 1
    ensures Next(at, h) == if SkipHeight(at) >= h then SkipHeight(at) else at - 1
  {}

  lemma OnesOfOdd(n: nat)
    requires n % 2 == 0
    ensures Ones(n + 1) == Ones(n) + 1
  {}

  lemma InvertOfEven(n: nat)
    requires n % 2 == 0
    ensures InvertLowestOne(n) % 2 == 0
  {}

  lemma OddSkip(n: nat)
    requires n > 0 && n % 2 == 0
    ensures SkipHeight(n + 1) == InvertLowestOne(InvertLowestOne(n)) + 1
  {
    hide InvertLowestOne;
  }

  lemma EvenAligned(top: nat, j: nat, a: nat)
    requires j > 0 && Aligned(top, j)
    ensures (top + a) % 2 == a % 2
  {
    HalfAligned(top, j);
  }

  /** Where the skip pointer of an odd height `top + m + 1` leads, seen from the block. */
  lemma OddSkipBelow(top: nat, j: nat, m: nat, b: nat) returns (c: nat)
    requires j > 1 && Aligned(top, j) && b < Pow2(j - 1) <= m < Pow2(j) && m % 2 == 0
    requires SkipHeight(top + m + 1) >= top + b
    ensures SkipHeight(top + m + 1) == top + c && b <= c < m
    ensures c <= 1 || (c == InvertLowestOne(InvertLowestOne(m)) + 1 && Ones(c) == Ones(m) - 1)
  {
    hide InvertLowestOne, Ones, Aligned, SkipHeight;
    EvenAligned(top, j, m);
    OddSkip(top + m);
    c := SkipHeight(top + m + 1) - top;
    var k := TwoCleared(top, j, m);
    InvertOfEven(m);
    InvertOfEven(InvertLowestOne(m));
    OnesOfOdd(InvertLowestOne(InvertLowestOne(m)));
    assert InvertLowestOne(top + m) < top + m;
    if c > 1 { assert k == c - 1; }
  }

  /** Below a multiple of eight, the pointer one below leads less far. */
  lemma MultipleOfEight(q: nat)
    requires q > 0
    ensures InvertLowestOne(InvertLowestOne(8 * q - 2)) == 8 * q - 8 && InvertLowestOne(8 * q) <= 8 * q - 8
  {
    hide InvertLowestOne, Ones;
    Doubled(4 * q - 1);
    Doubled(2 * q - 1);
    Doubled(4 * q - 2);
    Doubled(q - 1);
    Doubled(2 * q - 2);
    Doubled(q);
    Doubled(2 * q);
    Doubled(4 * q);
    assert 2 * q - 1 == 2 * (q - 1) + 1 && 4 * q - 1 == 2 * (2 * q - 1) + 1 && 4 * q - 2 == 2 * (2 * q - 1);
  }

  /** Two less of any other even number has no more ones. */
  lemma OnesTwoLess(q: nat)
    ensures Ones(4 * q) <= Ones(4 * q + 2) && Ones(8 * q + 2) == Ones(8 * q + 4)
  {
    hide InvertLowestOne, Ones;
    Doubled(2 * q);
    Doubled(2 * q + 1);
    Doubled(4 * q + 1);
    Doubled(4 * q + 2);
    Doubled(q);
    assert 4 * q + 1 == 2 * (2 * q) + 1 && 4 * q + 2 == 2 * (2 * q + 1) && 8 * q + 2 == 2 * (4 * q + 1)
      && 8 * q + 4 == 2 * (4 * q + 2);
  }

  lemma EvenCases(a: nat) returns (q: nat, p: nat)
    requires a % 2 == 0
    ensures a == 8 * q || a == 8 * q + 4 || a == 4 * p + 2
  {
    var h := a / 2;
    p := h / 2;
    q := p / 2;
  }

  /** The pointer one below leads further only where that costs no one bits. */
  lemma FurtherBelow(a: nat)
    requires a >= 2 && a % 2 == 0 && InvertLowestOne(InvertLowestOne(a - 2)) + 1 < InvertLowestOne(a) - 2
    ensures Ones(a - 2) <= Ones(a)
  {
    hide InvertLowestOne, Ones;
    var q, p := EvenCases(a);
    if a == 8 * q {
      MultipleOfEight(q);
    } else if a == 8 * q + 4 {
      OnesTwoLess(q);
    } else {
      OnesTwoLess(p);
    }
  }

  // ----- progress -----

  lemma FromOdd(top: nat, j: nat, a: nat, b: nat) returns (c: nat)
    requires j > 1 && Aligned(top, j) && b < Pow2(j - 1) <= a < Pow2(j) && a % 2 == 1
    ensures b <= c < a && Next(top + a, top + b) == top + c && (c < Pow2(j - 1) || Ones(c) < Ones(a))
  {
    hide InvertLowestOne, Ones, Aligned, SkipHeight, Next;
    EvenAligned(top, j, a);
    OddTakesSkip(top + a, top + b);
    OnesOfOdd(a - 1);
    if SkipHeight(top + a) >= top + b {
      assert top + (a - 1) + 1 == top + a;
      c := OddSkipBelow(top, j, a - 1, b);
    } else {
      c := a - 1;
    }
  }

  /** The detour over the block below, when its pointer leads further. */
  lemma Detour(top: nat, j: nat, a: nat, b: nat) returns (c: nat)
    requires j > 1 && Aligned(top, j) && b < Pow2(j - 1) < a < Pow2(j) && a % 2 == 0
    requires top + b <= SkipHeight(top + a - 1) < top + InvertLowestOne(a) - 2
    ensures b <= c < a - 1 && Next(top + a - 1, top + b) == top + c && (c < Pow2(j - 1) || Ones(c) < Ones(a))
  {
    hide InvertLowestOne, Ones, Aligned, SkipHeight, Next;
    EvenAligned(top, j, a - 1);
    OddTakesSkip(top + a - 1, top + b);
    assert top + (a - 2) + 1 == top + a - 1;
    c := OddSkipBelow(top, j, a - 2, b);
    if c > 1 { FurtherBelow(a); }
  }

  lemma EvenSkip(top: nat, j: nat, a: nat)
    requires j > 0 && Aligned(top, j) && 0 < a < Pow2(j) && a % 2 == 0
    ensures SkipHeight(top + a) == top + InvertLowestOne(a)
  {
    hide InvertLowestOne, Aligned;
    EvenAligned(top, j, a);
    InvertBelow(top, a, j);
  }

  lemma FromEven(top: nat, j: nat, a: nat, b: nat) returns (c: nat)
    requires j > 1 && Aligned(top, j) && b < Pow2(j - 1) <= a < Pow2(j) && a % 2 == 0
    ensures b <= c < a && (c < Pow2(j - 1) || Ones(c) < Ones(a))
    ensures Next(top + a, top + b) == top + c
      || (b < a - 1 && Next(top + a, top + b) == top + a - 1 && Next(top + a - 1, top + b) == top + c)
  {
    hide InvertLowestOne, Ones, Aligned, SkipHeight;
    EvenSkip(top, j, a);
    TopStays(a, j);
    OnesInvert(a);
    var n := InvertLowestOne(a);
    if a == Pow2(j - 1) {
      c := if b == 0 then 0 else a - 1;
    } else if top + b <= SkipHeight(top + a - 1) < top + n - 2 {
      c := Detour(top, j, a, b);
    } else {
      c := n;
    }
  }

  /** One or two steps on, the current height has lost its top bit within the block or one of its ones. */
  lemma Progress(top: nat, j: nat, a: nat, b: nat) returns (c: nat)
    requires j > 0 && Aligned(top, j) && b < Pow2(j - 1) <= a < Pow2(j)
    ensures b <= c < a && (c < Pow2(j - 1) || Ones(c) < Ones(a))
    ensures Steps(top + a, top + b) <= 2 + Steps(top + c, top + b)
  {
    hide InvertLowestOne, Ones, Aligned, SkipHeight;
    if j == 1 {
      c := 0;
    } else if a % 2 == 1 {
      c := FromOdd(top, j, a, b);
    } else {
      c := FromEven(top, j, a, b);
    }
  }

  /** Two steps for each of `j` bits, then for each of `j - 1`, and so on. */
  function Twice(j: nat): nat { if j == 0 then 0 else 2 * j + Twice(j - 1) }

  lemma {:induction false} TwiceIs(j: nat)
    ensures Twice(j) == j * (j + 1)
  {
    if j > 0 { TwiceIs(j - 1); }
  }

  /** Heights that differ first in bit `j - 1`. */
  lemma {:induction false} StepsAcross(top: nat, j: nat, a: nat, b: nat)
    requires j > 0 && Aligned(top, j) && b < Pow2(j - 1) <= a < Pow2(j)
    ensures Steps(top + a, top + b) <= 2 * Ones(a) + Twice(j - 1)
    decreases top + a, 0
  {
    hide Ones, Aligned, Steps;
    var c := Progress(top, j, a, b);
    OnesBound(a, j);
    if c < Pow2(j - 1) {
      SmallerAligned(top, j);
      StepsWithin(top, j - 1, c, b);
    } else {
      StepsAcross(top, j, c, b);
    }
  }

  /** Heights in one block of `Pow2(j)`. */
  lemma {:induction false} StepsWithin(top: nat, j: nat, a: nat, b: nat)
    requires Aligned(top, j) && b <= a < Pow2(j)
    ensures Steps(top + a, top + b) <= Twice(j)
    decreases top + a, j + 1
  {
    hide Ones, Aligned, Next;
    if j > 0 {
      SmallerAligned(top, j);
      var p := Pow2(j - 1);
      if a < p {
        StepsWithin(top, j - 1, a, b);
      } else if b >= p {
        assert top + p + (a - p) == top + a && top + p + (b - p) == top + b;
        StepsWithin(top + p, j - 1, a - p, b - p);
      } else {
        StepsAcross(top, j, a, b);
        OnesBound(a, j);
      }
    }
  }

  /** From a height below `Pow2(j)`, any ancestor is reached in at most `j * (j + 1)` steps. */
  lemma SearchSteps(at: nat, h: nat, j: nat)
    requires h <= at < Pow2(j)
    ensures Steps(at, h) <= j * (j + 1)
  {
    DivUnique(0, Pow2(j), 0, 0);
    StepsWithin(0, j, at, h);
    TwiceIs(j);
  }

  function Log2(n: nat): nat
    requires n >= 1
  {
    if n == 1 then 0 else 1 + Log2(n / 2)
  }

  lemma {:induction false} LogBounds(n: nat, e: nat)
    requires n >= 1 && Pow2(e) <= n
    ensures e <= Log2(n)
    decreases n
  {
    if e > 0 { LogBounds(n / 2, e - 1); }
  }

  lemma {:induction false} BelowNextPower(n: nat)
    requires n >= 1
    ensures n < Pow2(Log2(n) + 1)
  {
    if n > 1 { BelowNextPower(n / 2); }
  }

  /** About the square of the number of binary digits. */
  function SearchBound(height: nat): nat
  {
    if height == 0 then 0 else (Log2(height) + 1) * (Log2(height) + 2)
  }

  /** The search is polylogarithmic from every height to every ancestor. */
  lemma FewSteps(at: nat, h: nat)
    requires h <= at
    ensures Steps(at, h) <= SearchBound(at)
  {
    hide Log2;
    if at > 0 {
      BelowNextPower(at);
      SearchSteps(at, h, Log2(at) + 1);
    }
  }
}
