/**
 * Numbers as digits in any base: the canonical big-endian digits of a number,
 * and the little-endian buffer, multiplied and added to in place, that
 * src/base58.cpp uses to convert between bases.
 */
module Radix {
  import opened Arithmetic

  predicate Base(b: nat) { b >= 2 }

  predicate DigitsBelow(b: nat, s: seq<int>) { forall i :: 0 <= i < |s| ==> 0 <= s[i] < b }

  /** The number whose digits are `s`, the most significant first. */
  function Num(b: nat, s: seq<int>): (n: nat)
    requires DigitsBelow(b, s)
  {
    if s == [] then 0 else b * Num(b, s[..|s| - 1]) + s[|s| - 1]
  }

  /** The digits of a number, the most significant first, without leading zeros. */
  function Digits(b: nat, n: nat): (s: seq<int>)
    requires Base(b)
    ensures DigitsBelow(b, s) && (s != [] ==> s[0] != 0)
    decreases n
  {
    if n == 0 then [] else
      DivSmaller(n, b);
      Digits(b, n / b) + [n % b]
  }

  lemma DivSmaller(n: nat, b: nat)
    requires n > 0 && Base(b)
    ensures 0 <= n / b < n && (n / b == 0 ==> n % b == n) && n == b * (n / b) + n % b
  {
    DivNonNegative(n, b);
    assert n == b * (n / b) + n % b;
    MulMono(n / b, 2, b);
  }

  lemma NumSnoc(b: nat, s: seq<int>, d: int)
    requires DigitsBelow(b, s) && 0 <= d < b
    ensures DigitsBelow(b, s + [d]) && Num(b, s + [d]) == b * Num(b, s) + d
  {
    assert (s + [d])[..|s|] == s;
  }

  lemma {:induction false} NumOfDigits(b: nat, n: nat)
    requires Base(b)
    ensures Num(b, Digits(b, n)) == n
    decreases n
  {
    if n > 0 {
      DivSmaller(n, b);
      NumOfDigits(b, n / b);
      NumSnoc(b, Digits(b, n / b), n % b);
    }
  }

  lemma DigitsSnoc(b: nat, v: nat, d: int)
    requires Base(b) && 0 <= d < b && (v > 0 || d > 0)
    ensures b * v + d > 0 && Digits(b, b * v + d) == Digits(b, v) + [d]
  {
    MulMono(v, 2, b);
    DivUnique(b * v + d, b, v, d);
  }

  lemma NothingIsZero(b: nat)
    requires Base(b)
    ensures Num(b, []) == 0 && Digits(b, 0) == []
  {}

  lemma {:induction false} DigitsOfNum(b: nat, s: seq<int>)
    requires Base(b) && DigitsBelow(b, s) && (s != [] ==> s[0] != 0)
    ensures Digits(b, Num(b, s)) == s && (s != [] ==> Num(b, s) > 0)
  {
    hide Num, Digits;
    if s == [] {
      NothingIsZero(b);
    } else {
      var n := |s| - 1;
      var t := s[..n];
      DigitsOfNum(b, t);
      assert s == t + [s[n]];
      NumSnoc(b, t, s[n]);
      DigitsSnoc(b, Num(b, t), s[n]);
    }
  }

  /** Leading zeros do not count. */
  lemma {:induction false} NumSkipsZeros(b: nat, z: nat, s: seq<int>)
    requires Base(b) && DigitsBelow(b, s)
    ensures DigitsBelow(b, Zeros(z) + s) && Num(b, Zeros(z) + s) == Num(b, s)
  {
    var t := Zeros(z) + s;
    if s == [] {
      NumOfZeros(b, z);
      assert t == Zeros(z);
    } else {
      assert t[..|t| - 1] == Zeros(z) + s[..|s| - 1];
      NumSkipsZeros(b, z, s[..|s| - 1]);
    }
  }

  function Zeros(z: nat): seq<int> { seq(z, _ => 0) }

  lemma {:induction false} NumOfZeros(b: nat, z: nat)
    requires Base(b)
    ensures DigitsBelow(b, Zeros(z)) && Num(b, Zeros(z)) == 0
  {
    if z > 0 {
      NumOfZeros(b, z - 1);
      assert Zeros(z)[..z - 1] == Zeros(z - 1);
    }
  }

  lemma NextPlace(b: nat, v: nat, d: int, p: nat)
    requires v < p && 0 <= d < b
    ensures b * v + d < b * p
  {
    MulMono(b, v + 1, p);
    MulSucc(b, v);
  }

  lemma {:induction false} NumBelow(b: nat, s: seq<int>)
    requires Base(b) && DigitsBelow(b, s)
    ensures Num(b, s) < Pow(b, |s|)
  {
    if s != [] {
      var n := |s| - 1;
      NumBelow(b, s[..n]);
      NextPlace(b, Num(b, s[..n]), s[n], Pow(b, n));
    }
  }

  lemma {:induction false} DigitsMono(b: nat, m: nat, n: nat)
    requires Base(b) && m <= n
    ensures |Digits(b, m)| <= |Digits(b, n)|
    decreases n
  {
    if m > 0 {
      DivSmaller(m, b);
      DivSmaller(n, b);
      if m / b > n / b { MulMono(b, n / b + 1, m / b); MulSucc(b, n / b); }
      DigitsMono(b, m / b, n / b);
    }
  }

  lemma {:induction false} NumPrefix(b: nat, s: seq<int>, k: nat)
    requires Base(b) && DigitsBelow(b, s) && k <= |s|
    ensures Num(b, s[..k]) <= Num(b, s)
    decreases |s|
  {
    if k == |s| { assert s[..k] == s; } else {
      var t := s[..|s| - 1];
      NumPrefix(b, t, k);
      assert t[..k] == s[..k];
      MulMono(Num(b, t), 1, b);
    }
  }

  // ----- little-endian buffers -----

  function Low(b: nat, s: seq<int>): nat
    requires DigitsBelow(b, s)
  {
    if s == [] then 0 else s[0] + b * Low(b, s[1..])
  }

  function Reversed(s: seq<int>): (r: seq<int>)
    ensures |r| == |s| && forall i :: 0 <= i < |s| ==> r[i] == s[|s| - 1 - i]
  {
    seq(|s|, i requires 0 <= i < |s| => s[|s| - 1 - i])
  }

  lemma {:induction false} LowSplit(b: nat, s: seq<int>, k: nat)
    requires DigitsBelow(b, s) && k <= |s|
    ensures Low(b, s) == Low(b, s[..k]) + Pow(b, k) * Low(b, s[k..])
  {
    if k == 0 {
      assert s[..0] == [] && s[0..] == s;
    } else {
      LowSplit(b, s[1..], k - 1);
      assert s[..k][1..] == s[1..][..k - 1] && s[1..][k - 1..] == s[k..] && s[..k][0] == s[0];
      Distribute(b, Low(b, s[1..][..k - 1]), Pow(b, k - 1) * Low(b, s[k..]));
      Associate(b, Pow(b, k - 1), Low(b, s[k..]));
    }
  }

  lemma LowTake(b: nat, s: seq<int>, k: nat)
    requires DigitsBelow(b, s) && k < |s|
    ensures Low(b, s[..k + 1]) == Low(b, s[..k]) + Pow(b, k) * s[k]
  {
    var t := s[..k + 1];
    LowSplit(b, t, k);
    assert t[..k] == s[..k] && t[k..] == [s[k]];
    assert Low(b, [s[k]]) == s[k] + b * Low(b, []);
  }

  lemma LowUpdate(b: nat, s: seq<int>, k: nat, x: int)
    requires DigitsBelow(b, s) && k < |s| && 0 <= x < b
    ensures DigitsBelow(b, s[k := x]) && Low(b, s[k := x]) == Low(b, s) + Pow(b, k) * (x - s[k])
  {
    hide Low, Pow;
    var t := s[k := x];
    LowSplit(b, s, k + 1);
    LowSplit(b, t, k + 1);
    assert t[k + 1..] == s[k + 1..] && t[..k] == s[..k];
    LowTake(b, s, k);
    LowTake(b, t, k);
    Distribute(Pow(b, k), x - s[k], s[k]);
  }

  lemma {:induction false} LowZero(b: nat, s: seq<int>)
    requires DigitsBelow(b, s) && forall i :: 0 <= i < |s| ==> s[i] == 0
    ensures Low(b, s) == 0
  {
    if s != [] { LowZero(b, s[1..]); }
  }

  lemma {:induction false} LowBelow(b: nat, s: seq<int>)
    requires DigitsBelow(b, s)
    ensures Low(b, s) < Pow(b, |s|)
  {
    if s != [] {
      LowBelow(b, s[1..]);
      NextPlace(b, Low(b, s[1..]), s[0], Pow(b, |s| - 1));
    }
  }

  /** Storing the low digit of `n` at place `k` and carrying the rest adds `n` in place of the old digit. */
  lemma StoreDigit(b: nat, s: seq<int>, k: nat, n: nat)
    requires Base(b) && DigitsBelow(b, s) && k < |s|
    ensures DigitsBelow(b, s[k := n % b])
    ensures Low(b, s[k := n % b]) + Pow(b, k + 1) * (n / b) == Low(b, s) + Pow(b, k) * (n - s[k])
  {
    hide Low;
    var w := Pow(b, k);
    LowUpdate(b, s, k, n % b);
    assert n == b * (n / b) + n % b;
    Associate(w, b, n / b);
    Distribute(w, n % b - s[k], b * (n / b));
  }

  /** Exactly `length` digits are in use: the places above are zero, and the top one is not. */
  predicate Uses(s: seq<int>, length: nat) {
    && length <= |s| && (forall i :: length <= i < |s| ==> s[i] == 0)
    && (length > 0 ==> s[length - 1] != 0)
  }

  lemma LowOfUsed(b: nat, s: seq<int>, length: nat)
    requires DigitsBelow(b, s) && length <= |s| && forall i :: length <= i < |s| ==> s[i] == 0
    ensures Low(b, s) == Low(b, s[..length]) < Pow(b, length)
  {
    hide Low, Pow;
    LowSplit(b, s, length);
    LowZero(b, s[length..]);
    LowBelow(b, s[..length]);
  }

  /** The top digit in use is nonzero exactly when the number reaches its weight. */
  lemma TopDigit(b: nat, s: seq<int>, length: nat)
    requires DigitsBelow(b, s) && 0 < length <= |s| && forall i :: length <= i < |s| ==> s[i] == 0
    ensures s[length - 1] != 0 <==> Low(b, s) >= Pow(b, length - 1)
  {
    hide Low, Pow;
    LowOfUsed(b, s, length);
    LowTake(b, s, length - 1);
    LowBelow(b, s[..length - 1]);
    if s[length - 1] != 0 { MulMono(Pow(b, length - 1), 1, s[length - 1]); }
  }

  /** The digits in use, read from the top, are the digits of the number. */
  lemma {:induction false} UsedDigits(b: nat, s: seq<int>)
    requires Base(b) && DigitsBelow(b, s) && (s != [] ==> s[|s| - 1] != 0)
    ensures Digits(b, Low(b, s)) == Reversed(s) && (s != [] ==> Low(b, s) > 0)
  {
    if s != [] {
      var rest := s[1..];
      UsedDigits(b, rest);
      DivUnique(Low(b, s), b, Low(b, rest), s[0]);
      MulMono(Low(b, rest), 1, b);
      assert rest == [] ==> Low(b, rest) == 0;
      assert Reversed(s) == Reversed(rest) + [s[0]];
    }
  }

  // ----- one step of a conversion -----

  /** The buffer part way through a step: `i` digits done, `carry` to go. */
  ghost predicate PartWay(b: nat, was: seq<int>, s: seq<int>, i: nat, factor: nat, add: nat, carry: nat) {
    && |s| == |was| && i <= |s| && DigitsBelow(b, s) && DigitsBelow(b, was)
    && Low(b, s) + Pow(b, i) * carry == Low(b, was) + (factor - 1) * Low(b, was[..i]) + add
    && forall j :: i <= j < |s| ==> s[j] == was[j]
  }

  lemma PartWayStart(b: nat, s: seq<int>, factor: nat, add: nat)
    requires DigitsBelow(b, s)
    ensures PartWay(b, s, s, 0, factor, add, add)
  {
    assert s[..0] == [];
  }

  lemma PartWayStep(b: nat, was: seq<int>, s: seq<int>, i: nat, factor: nat, add: nat, carry: nat)
    requires Base(b) && PartWay(b, was, s, i, factor, add, carry) && i < |s| && factor >= 1
    ensures var n := carry + factor * s[i];
      n >= 0 && n / b >= 0 && PartWay(b, was, s[i := n % b], i + 1, factor, add, n / b)
  {
    hide Low, Pow;
    var d := s[i];
    MulMono(factor, 0, d);
    var n := carry + factor * d;
    DivNonNegative(n, b);
    StoreDigit(b, s, i, n);
    LowTake(b, was, i);
    ScaledDigit(Pow(b, i), factor, d, Low(b, was[..i]), carry);
  }

  /** When every used digit is done, the buffer holds the product and sum, but for the carry; and a full
      buffer has no carry. */
  lemma PartWayDone(b: nat, was: seq<int>, s: seq<int>, i: nat, factor: nat, add: nat, carry: nat, length: nat)
    requires Base(b) && factor >= 1 && PartWay(b, was, s, i, factor, add, carry) && Uses(was, length) && length <= i
    requires carry == 0 || i == |s|
    requires factor * Low(b, was) + add < Pow(b, |s|)
    ensures carry == 0 && Low(b, s) == factor * Low(b, was) + add
  {
    hide Low, Pow;
    LowOfUsed(b, was, i);
    ScaledDigit(1, factor, 0, Low(b, was), 0);
    assert Low(b, was) + (factor - 1) * Low(b, was) == factor * Low(b, was);
    if carry > 0 { MulMono(Pow(b, i), 1, carry); }
  }

  /** The buffer holds `n` in exactly `length` digits. */
  ghost predicate Holds(b: nat, s: seq<int>, length: nat, n: nat) {
    DigitsBelow(b, s) && Uses(s, length) && Low(b, s) == n
  }

  lemma HoldsNothing(b: nat, s: seq<int>)
    requires Base(b) && forall i :: 0 <= i < |s| ==> s[i] == 0
    ensures Holds(b, s, 0, 0)
  {
    LowZero(b, s);
  }

  /** The digits in use, read from the top, are the digits of the number held. */
  lemma HeldDigits(b: nat, s: seq<int>, length: nat, n: nat)
    requires Base(b) && Holds(b, s, length, n)
    ensures length <= |s| && Digits(b, n) == Reversed(s[..length]) && (length > 0 ==> s[length - 1] != 0)
  {
    hide Low, Digits;
    LowOfUsed(b, s, length);
    UsedDigits(b, s[..length]);
  }

  /** Multiplies the number in the buffer and adds to it, in place. */
  method MulAdd(buf: array<int>, b: nat, factor: nat, add: nat, length: nat, ghost n: nat) returns (newLength: nat)
    requires Base(b) && factor >= 1 && Holds(b, buf[..], length, n) && factor * n + add < Pow(b, buf.Length)
    modifies buf
    ensures Holds(b, buf[..], newLength, factor * n + add) && newLength >= length
  {
    hide PartWay, Low, Pow;
    var carry: nat := add;
    var i := 0;
    ghost var was := buf[..];
    PartWayStart(b, was, factor, add);
    while (carry != 0 || i < length) && i < buf.Length
      invariant 0 <= i <= buf.Length && PartWay(b, was, buf[..], i, factor, add, carry)
      invariant forall j :: i <= j < buf.Length ==> buf[j] == was[j]
      invariant i > length ==> carry != 0 || buf[i - 1] != 0
    {
      ghost var s := buf[..];
      PartWayStep(b, was, s, i, factor, add, carry);
      var n := carry + factor * buf[i];
      if i >= length { DivSmaller(n, b); }
      buf[i] := n % b;
      assert buf[..] == s[i := n % b];
      carry := n / b;
      i := i + 1;
    }
    PartWayDone(b, was, buf[..], i, factor, add, carry, length);
    newLength := i;
    PartWayDigits(b, was, buf[..], i, factor, add, carry);
    StillUsed(b, was, buf[..], i, factor, add, length);
  }

  lemma PartWayDigits(b: nat, was: seq<int>, s: seq<int>, i: nat, factor: nat, add: nat, carry: nat)
    requires PartWay(b, was, s, i, factor, add, carry)
    ensures DigitsBelow(b, was) && DigitsBelow(b, s) && |s| == |was|
  {}

  lemma StillUsed(b: nat, was: seq<int>, s: seq<int>, i: nat, factor: nat, add: nat, length: nat)
    requires Base(b) && factor >= 1 && DigitsBelow(b, was) && DigitsBelow(b, s) && Uses(was, length) && |s| == |was|
      && length <= i <= |s|
    requires forall j :: i <= j < |s| ==> s[j] == was[j]
    requires Low(b, s) == factor * Low(b, was) + add && (i > length ==> s[i - 1] != 0)
    ensures Uses(s, i)
  {
    hide Low, Pow;
    if i == length && i > 0 {
      TopDigit(b, was, i);
      TopDigit(b, s, i);
      MulMono(Low(b, was), 1, factor);
    }
  }
}
