/** Facts about division and powers that several components share. */
module Arithmetic {

  function Pow(b: nat, e: nat): nat { if e == 0 then 1 else b * Pow(b, e - 1) }

  function Pow2(e: nat): (p: nat)
    ensures p >= 1
  {
    if e == 0 then 1 else 2 * Pow2(e - 1)
  }

  /** Quotients are determined by their remainder. */
  lemma DivUnique(a: int, d: int, q: int, r: int)
    requires d > 0 && a == d * q + r && 0 <= r < d
    ensures a / d == q && a % d == r
  {
    var k := a / d - q;
    assert a == d * (a / d) + a % d;
    assert d * k == r - a % d by { assert d * (a / d) - d * q == d * k; }
    assert k >= 1 ==> d * k >= d;
    assert k <= -1 ==> d * k <= -d;
  }

  lemma MulMono(p: nat, a: int, b: int)
    requires a <= b
    ensures p * a <= p * b
  {}

  lemma MulSucc(p: int, a: int)
    ensures p * (a + 1) == p * a + p
  {}

  lemma Distribute(p: int, a: int, b: int)
    ensures p * (a + b) == p * a + p * b
  {}

  lemma Associate(a: int, b: int, c: int)
    ensures a * (b * c) == (a * b) * c
  {}

  lemma ProductBelow(x: nat, y: nat, k: nat)
    requires x < y && k > 0
    ensures x * k < y * k
  {
    MulMono(k, x + 1, y);
    MulSucc(k, x);
  }

  lemma DivNonNegative(a: nat, d: nat)
    requires d >= 1
    ensures a / d >= 0
  {
    assert a == d * (a / d) + a % d;
    if a / d < 0 { MulMono(d, a / d, -1); }
  }

  lemma DivBelow(a: nat, d: nat, q: nat)
    requires d >= 1 && a < d * q
    ensures a / d < q
  {
    assert a == d * (a / d) + a % d;
    if a / d >= q { MulMono(d, q, a / d); }
  }

  /** Rounding up: `k` is below the rounded-up quotient iff `k` whole steps fit strictly below `n`. */
  lemma CeilDiv(n: nat, p: nat, k: nat)
    requires p >= 1
    ensures k < (n + p - 1) / p <==> p * k < n
  {
    var q := (n + p - 1) / p;
    assert n + p - 1 == p * q + (n + p - 1) % p;
    if k < q { MulMono(p, k + 1, q); MulSucc(p, k); } else { MulMono(p, q, k); }
  }

  lemma DivTwice(a: nat, p: nat, c: nat)
    requires p >= 1 && c >= 1
    ensures p * c >= 1 && a / (p * c) == a / p / c
  {
    var q := a / p / c;
    var r, b := a % p, (a / p) % c;
    assert a == p * (a / p) + r && a / p == c * q + b;
    Distribute(p, c * q, b);
    Associate(p, c, q);
    MulMono(p, 1, c);
    MulMono(p, b + 1, c);
    MulSucc(p, b);
    DivUnique(a, p * c, q, p * b + r);
  }

  lemma {:induction false} PowAdd(b: nat, x: nat, y: nat)
    ensures Pow(b, x + y) == Pow(b, x) * Pow(b, y)
  {
    if x > 0 {
      PowAdd(b, x - 1, y);
      assert b * (Pow(b, x - 1) * Pow(b, y)) == (b * Pow(b, x - 1)) * Pow(b, y);
    }
  }

  lemma {:induction false} PowPositive(b: nat, e: nat)
    requires b >= 1
    ensures Pow(b, e) >= 1
  {
    if e > 0 { PowPositive(b, e - 1); }
  }

  lemma {:induction false} PowIsPow2(e: nat)
    ensures Pow(2, e) == Pow2(e)
  {
    if e > 0 { PowIsPow2(e - 1); }
  }

  lemma Pow2Add(x: nat, y: nat)
    ensures Pow2(x + y) == Pow2(x) * Pow2(y)
  {
    PowAdd(2, x, y);
    PowIsPow2(x);
    PowIsPow2(y);
    PowIsPow2(x + y);
  }

  lemma ScaledDigit(w: nat, b: int, d: int, v: nat, carry: int)
    ensures w * (carry + b * d - d) == w * carry + (b - 1) * (w * d)
    ensures (b - 1) * (v + w * d) == (b - 1) * v + (b - 1) * (w * d)
  {
    Distribute(w, carry, (b - 1) * d);
    Associate(w, b - 1, d);
    Associate(b - 1, w, d);
    Distribute(b - 1, v, w * d);
  }

  lemma Pow2Mono(a: nat, b: nat)
    requires a <= b
    ensures Pow2(a) <= Pow2(b)
  {
    hide Pow2;
    Pow2Add(a, b - a);
    MulMono(Pow2(a), 1, Pow2(b - a));
  }

  lemma Pow2Next(b: nat)
    ensures Pow2(b + 1) == 2 * Pow2(b)
  {}

  lemma DivPlus(a: nat, p: nat, m: nat)
    requires p >= 1
    ensures (a + p * m) / p == a / p + m
  {
    assert a == p * (a / p) + a % p;
    Distribute(p, a / p, m);
    DivUnique(a + p * m, p, a / p + m, a % p);
  }

  lemma DivShrinks(a: nat, k: nat)
    requires k >= 1
    ensures 0 <= a / k <= a
  {
    DivNonNegative(a, k);
    assert a == k * (a / k) + a % k;
    MulMono(a / k, 1, k);
  }
}
