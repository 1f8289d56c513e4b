/**
 * The 256-bit unsigned integers of src/arith_uint256.h and src/arith_uint256.cpp:
 * eight 32-bit limbs updated in place by carry loops. Each operator is proved to
 * compute the natural-number operation modulo 2^256.
 */
module Arith256 {
  import opened Arithmetic
  import opened Limbs

  datatype Outcome = Done | DivisionByZero

  /** 2^256. */
  function Modulus(): (m: nat)
    ensures m >= 1
  {
    Weight(WIDTH)
  }

  /** A value below the modulus that differs from `x` by whole turns is `x` reduced. */
  lemma Reduced(v: nat, x: nat, turns: nat)
    requires v + Modulus() * turns == x && v < Modulus()
    ensures v == x % Modulus()
  {
    hide Modulus;
    DivUnique(x, Modulus(), turns, v);
  }

  lemma TwoLimbs(s: seq<Limb>)
    requires |s| >= 2 && forall i :: 2 <= i < |s| ==> s[i] == 0
    ensures Val(s) == s[0] + BASE * s[1]
  {
    ValSplit(s, 2);
    ValZero(s[2..]);
    assert s[..2] == [s[0], s[1]] && [s[0], s[1]][1..] == [s[1]];
    ValOne(s[1]);
  }

  lemma LowLimbs(s: seq<Limb>)
    requires |s| >= 2
    ensures Val(s) % (BASE * BASE) == s[0] + BASE * s[1]
  {
    hide Weight;
    ValSplit(s, 2);
    TwoLimbs(s[..2]);
    WeightNext(0);
    WeightNext(1);
    DivUnique(Val(s), BASE * BASE, Val(s[2..]), s[0] + BASE * s[1]);
  }

  class Uint256 {
    const pn: array<Limb>

    ghost predicate Valid() { pn.Length == WIDTH }

    ghost function Value(): (v: nat)
      requires Valid()
      reads pn
      ensures v < Modulus()
    {
      ValBound(pn[..]);
      Val(pn[..])
    }

    constructor (b: nat)
      requires b < BASE * BASE
      ensures Valid() && fresh(pn) && Value() == b
    {
      pn := new Limb[WIDTH](_ => 0);
      new;
      hide Val, Weight;
      Set(b);
    }

    constructor Copy(b: Uint256)
      requires b.Valid()
      ensures Valid() && fresh(pn) && pn[..] == b.pn[..] && Value() == b.Value()
    {
      pn := new Limb[WIDTH](i requires 0 <= i < WIDTH reads b.pn => b.pn[i]);
      new;
      assert pn[..] == b.pn[..];
    }

    method Set(b: nat)
      requires Valid() && b < BASE * BASE
      modifies pn
      ensures Value() == b
    {
      hide Val, Weight;
      pn[0] := b % BASE;
      pn[1] := b / BASE;
      for i := 2 to WIDTH
        invariant pn[0] == b % BASE && pn[1] == b / BASE
        invariant forall j :: 2 <= j < i ==> pn[j] == 0
      {
        pn[i] := 0;
      }
      TwoLimbs(pn[..]);
    }

    method GetLow64() returns (r: nat)
      requires Valid()
      ensures r == Value() % (BASE * BASE)
    {
      hide Val, Weight;
      r := pn[0] + BASE * pn[1];
      LowLimbs(pn[..]);
    }

    method Clear()
      requires Valid()
      modifies pn
      ensures Value() == 0 && forall i :: 0 <= i < WIDTH ==> pn[i] == 0
    {
      for i := 0 to WIDTH
        invariant forall j :: 0 <= j < i ==> pn[j] == 0
      {
        pn[i] := 0;
      }
      ValZero(pn[..]);
    }

    method AddAssign(b: Uint256)
      requires Valid() && b.Valid()
      modifies pn
      ensures Value() == (old(Value()) + old(b.Value())) % Modulus()
    {
      hide Val, Weight;
      ghost var a0, b0 := pn[..], b.pn[..];
      var carry := 0;
      assert b0[..0] == [];
      ValZero([]);
      for i := 0 to WIDTH
        invariant 0 <= carry <= 1
        invariant pn[i..] == a0[i..] && b.pn[i..] == b0[i..]
        invariant Val(pn[..]) + Weight(i) * carry == Val(a0) + Val(b0[..i])
      {
        ghost var s: seq<Limb> := pn[..];
        assert pn[i] == s[i] == a0[i..][0] && b.pn[i] == b0[i] == b0[i..][0];
        var n: nat := carry + pn[i] + b.pn[i];
        StoreDigit(s, i, n);
        ValTake(b0, i);
        Distribute(Weight(i), carry, b0[i]);
        pn[i] := n % BASE;
        assert pn[..] == s[i := n % BASE];
        assert pn[i + 1..] == s[i..][1..] && (b.pn[i + 1..] == b0[i..][1..]);
        carry := n / BASE;
      }
      assert b0[..WIDTH] == b0;
      ValBound(pn[..]);
      Reduced(Val(pn[..]), Val(a0) + Val(b0), carry);
    }

    method Complement() returns (r: Uint256)
      requires Valid()
      ensures r.Valid() && fresh(r) && fresh(r.pn) && r.Value() == Modulus() - 1 - Value()
    {
      hide Val, Weight;
      r := new Uint256(0);
      WeightNext(0);
      ValZero([]);
      for i := 0 to WIDTH
        invariant r.Valid() && fresh(r) && fresh(r.pn)
        invariant Val(r.pn[..i]) + Val(pn[..i]) == Weight(i) - 1
      {
        ghost var below := r.pn[..i];
        r.pn[i] := BASE - 1 - pn[i];
        assert r.pn[..][..i] == below && r.pn[..][..i + 1] == r.pn[..i + 1];
        assert pn[..][..i] == pn[..i] && pn[..][..i + 1] == pn[..i + 1];
        ValTake(r.pn[..], i);
        ValTake(pn[..], i);
        WeightNext(i);
        Distribute(Weight(i), r.pn[i], pn[i]);
        MulSucc(Weight(i), BASE - 1);
      }
      assert r.pn[..WIDTH] == r.pn[..] && pn[..WIDTH] == pn[..];
    }

    method Increment()
      requires Valid()
      modifies pn
      ensures Value() == (old(Value()) + 1) % Modulus()
    {
      hide Val, Weight;
      var i := 0;
      WeightNext(0);
      ghost var a0 := Val(pn[..]);
      ghost var pending := 1;
      while i < WIDTH
        invariant 0 <= i <= WIDTH && pending == 1
        invariant Val(pn[..]) + Weight(i) * pending == a0 + 1
      {
        ghost var s: seq<Limb> := pn[..];
        var n: nat := (pn[i] as nat) + 1;
        StoreDigit(s, i, n);
        pn[i] := n % BASE;
        assert pn[..] == s[i := n % BASE];
        if pn[i] != 0 {
          pending := 0;
          break;
        }
        i := i + 1;
      }
      ValBound(pn[..]);
      Reduced(Val(pn[..]), a0 + 1, pending);
    }

    method Decrement()
      requires Valid()
      modifies pn
      ensures Value() == (old(Value()) - 1) % Modulus()
    {
      hide Val, Weight;
      var i := 0;
      WeightNext(0);
      ghost var a0: int := Val(pn[..]);
      ghost var pending := 1;
      while i < WIDTH
        invariant 0 <= i <= WIDTH && pending == 1
        invariant Val(pn[..]) as int - Weight(i) * pending == a0 - 1
      {
        ghost var s: seq<Limb> := pn[..];
        var n := if pn[i] == 0 then BASE - 1 else pn[i] - 1;
        ValUpdate(s, i, n);
        WeightNext(i);
        MulSucc(Weight(i), BASE - 1);
        pn[i] := n;
        assert pn[..] == s[i := n];
        if pn[i] != BASE - 1 {
          pending := 0;
          break;
        }
        i := i + 1;
      }
      ValBound(pn[..]);
      DivUnique(a0 - 1, Modulus(), -pending, Val(pn[..]));
    }

    /** Two's complement: invert every limb and add one. */
    method Negate() returns (r: Uint256)
      requires Valid()
      ensures r.Valid() && fresh(r) && fresh(r.pn) && r.Value() == (Modulus() - Value()) % Modulus()
    {
      hide Weight;
      r := Complement();
      r.Increment();
    }

    method SubAssign(b: Uint256)
      requires Valid() && b.Valid()
      modifies pn
      ensures Value() == (old(Value()) - old(b.Value())) % Modulus()
    {
      hide Val, Weight;
      var n := b.Negate();
      AddAssign(n);
      SubByNegation(old(Value()), old(b.Value()), Modulus());
    }

    method MulSmall(b32: Limb)
      requires Valid()
      modifies pn
      ensures Value() == (old(Value()) * b32) % Modulus()
    {
      hide Val, Weight;
      ghost var a0 := pn[..];
      var carry := 0;
      assert a0[..0] == [];
      ValZero([]);
      for i := 0 to WIDTH
        invariant 0 <= carry < BASE && pn[i..] == a0[i..]
        invariant Val(pn[..]) + Weight(i) * carry == Val(a0) + (b32 - 1) * Val(a0[..i])
      {
        ghost var s: seq<Limb> := pn[..];
        assert pn[i] == s[i] == a0[i..][0];
        var n: nat := carry + b32 * pn[i];
        DigitProductFits(carry, 0, b32, pn[i]);
        StoreDigit(s, i, n);
        ValTake(a0, i);
        ScaledDigit(Weight(i), b32, a0[i], Val(a0[..i]), carry);
        pn[i] := n % BASE;
        assert pn[..] == s[i := n % BASE] && pn[i + 1..] == s[i..][1..];
        carry := n / BASE;
      }
      assert a0[..WIDTH] == a0;
      ValBound(pn[..]);
      assert Val(a0) + (b32 - 1) * Val(a0) == Val(a0) * b32;
      Reduced(Val(pn[..]), Val(a0) * b32, carry);
    }

    method MulAssign(b: Uint256)
      requires Valid() && b.Valid()
      modifies pn
      ensures Value() == (old(Value()) * old(b.Value())) % Modulus()
    {
      hide Val, Weight;
      var a := new Uint256(0);
      ghost var x, y := pn[..], b.pn[..];
      ghost var turns := 0;
      assert x[..0] == [];
      ValZero([]);
      for j := 0 to WIDTH
        invariant a.Valid() && fresh(a) && fresh(a.pn) && pn[..] == x && b.pn[..] == y && turns >= 0
        invariant a.Value() + Modulus() * turns == Val(x[..j]) * Val(y)
      {
        turns := AddRow(a, j, b, turns, x, y);
      }
      assert x[..WIDTH] == x;
      Reduced(a.Value(), Val(x) * Val(y), turns);
      Assign(a);
    }

    /** One row of the multiplication table: adds limb `j` times `b`, shifted by `j` limbs, into `a`. */
    method AddRow(a: Uint256, j: nat, b: Uint256, ghost turns: nat, ghost x: seq<Limb>, ghost y: seq<Limb>)
      returns (ghost after: nat)
      requires Valid() && b.Valid() && a.Valid() && a.pn != pn && a.pn != b.pn && j < WIDTH
      requires x == pn[..] && y == b.pn[..]
      requires a.Value() + Modulus() * turns == Val(x[..j]) * Val(y)
      modifies a.pn
      ensures a.Value() + Modulus() * after == Val(x[..j + 1]) * Val(y)
    {
      hide Val, Weight, RowSum, RowDigit;
      var carry: Limb := 0;
      ghost var start := a.Value();
      RowStart(a.pn[..], x[j], y, j);
      var i := 0;
      while i + j < WIDTH
        invariant 0 <= i <= WIDTH - j && RowSum(a.pn[..], x[j], y, i, j, start, carry)
      {
        ghost var s: seq<Limb> := a.pn[..];
        RowStep(s, x[j], y, i, j, start, carry);
        var n := RowDigit(carry, a.pn[i + j], pn[j], b.pn[i]);
        a.pn[i + j] := n % BASE;
        assert a.pn[..] == s[i + j := n % BASE];
        carry := n / BASE;
        i := i + 1;
      }
      after := RowDone(x, y, j, start, turns, a.pn[..], carry);
    }

    method CompareTo(b: Uint256) returns (c: int)
      requires Valid() && b.Valid()
      ensures c == if Value() < b.Value() then -1 else if Value() > b.Value() then 1 else 0
    {
      hide Val, Weight;
      var i := WIDTH;
      while i > 0
        invariant 0 <= i <= WIDTH && pn[i..] == b.pn[i..]
      {
        i := i - 1;
        if pn[i] < b.pn[i] {
          FirstDifference(pn[..], b.pn[..], i);
          return -1;
        }
        if pn[i] > b.pn[i] {
          FirstDifference(b.pn[..], pn[..], i);
          return 1;
        }
        assert pn[i..] == [pn[i]] + pn[i + 1..] && b.pn[i..] == [b.pn[i]] + b.pn[i + 1..];
      }
      assert pn[..] == pn[0..] && b.pn[..] == b.pn[0..];
      return 0;
    }

    /** The position of the highest one bit plus one, or zero. */
    method Bits() returns (n: nat)
      requires Valid()
      ensures n <= 256 && IsBitLength(Value(), n)
    {
      hide Val, Weight, Pow2;
      var pos := WIDTH;
      while pos > 0
        invariant 0 <= pos <= WIDTH && forall j :: pos <= j < WIDTH ==> pn[j] == 0
      {
        pos := pos - 1;
        if pn[pos] != 0 {
          var nbits := 31;
          Pow2Of32();
          while nbits > 0
            invariant 0 <= nbits <= 31 && pn[pos] < Pow2(nbits + 1)
          {
            TopBit(pn[pos], nbits);
            if pn[pos] / Pow2(nbits) % 2 == 1 {
              TopLimb(pn[..], pos, nbits);
              return 32 * pos + nbits + 1;
            }
            nbits := nbits - 1;
          }
          TopBit(pn[pos], 0);
          TopLimb(pn[..], pos, 0);
          return 32 * pos + 1;
        }
      }
      ValZero(pn[..]);
      TopBit(0, 0);
      return 0;
    }

    method ShiftLeft(shift: nat)
      requires Valid()
      modifies pn
      ensures Value() == (old(Value()) * Pow2(shift)) % Modulus()
    {
      hide Val, Weight, Pow2, Or, Low, High;
      var a := new Uint256.Copy(this);
      ghost var x: seq<Limb> := a.pn[..];
      Clear();
      var k, t := shift / 32, shift % 32;
      ghost var turns: nat := 0;
      assert x[..0] == [];
      ValZero([]);
      for i := 0 to WIDTH
        invariant a.pn[..] == x && ClearFrom(pn[..], i + k, t)
        invariant Value() + Modulus() * turns == Val(x[..i]) * Pow2(shift)
      {
        ghost var s: seq<Limb> := pn[..];
        ghost var dropped := ShiftedLeftStep(s, i + k, x[i], t);
        PutLeftFits(s, i + k, x[i], t);
        if i + k + 1 < WIDTH && t != 0 {
          pn[i + k + 1] := Or(pn[i + k + 1], High(a.pn[i], t));
        }
        if i + k < WIDTH {
          pn[i + k] := Or(pn[i + k], Low(a.pn[i], t));
        }
        assert pn[..] == PutLeft(s, i + k, x[i], t);
        ShiftedLeftSum(x, i, k, t, Val(s), turns, dropped, Val(pn[..]));
        turns := turns + dropped;
      }
      assert x[..WIDTH] == x;
      Reduced(Value(), Val(x) * Pow2(shift), turns);
    }

    method ShiftRight(shift: nat)
      requires Valid()
      modifies pn
      ensures Value() == old(Value()) / Pow2(shift)
    {
      hide Val, Weight, Pow2, Or, Low, High;
      var a := new Uint256.Copy(this);
      ghost var x: seq<Limb> := a.pn[..];
      Clear();
      var k, t := shift / 32, shift % 32;
      ShiftedRightStart(x, pn[..], k, t);
      for i := 0 to WIDTH
        invariant a.pn[..] == x && ShiftedRight(x, i, k, t, pn[..])
      {
        ghost var s: seq<Limb> := pn[..];
        ShiftedRightStep(x, i, k, t, s);
        PutRightFits(x, i, k, t, s);
        if i - k - 1 >= 0 && t != 0 {
          pn[i - k - 1] := Or(pn[i - k - 1], Low(a.pn[i], 32 - t));
        }
        if i - k >= 0 {
          pn[i - k] := Or(pn[i - k], High(a.pn[i], 32 - t));
        }
        assert pn[..] == PutRight(s, i - k, x[i], t);
      }
      assert x[..WIDTH] == x;
    }

    /** Shift-and-subtract division: align the divisor with the number, then try every bit of the quotient downwards. */
    method DivAssign(b: Uint256) returns (outcome: Outcome)
      requires Valid() && b.Valid()
      modifies pn
      ensures outcome.DivisionByZero? <==> old(b.Value()) == 0
      ensures outcome.Done? ==> old(b.Value()) > 0 && Value() == old(Value()) / old(b.Value())
    {
      hide Val, Weight, Pow2, IsBitLength, BitsFree;
      var div := new Uint256.Copy(b);
      var num := new Uint256.Copy(this);
      ghost var d, n := div.Value(), num.Value();
      Clear();
      var numBits := num.Bits();
      var divBits := div.Bits();
      BitLengths(d, divBits, n, numBits);
      if divBits == 0 {
        return DivisionByZero;
      }
      if divBits > numBits {
        DivUnique(n, d, 0, n);
        return Done;
      }
      var shift: int := numBits - divBits;
      div.ShiftLeft(shift);
      AlignedFits(d, divBits, n, numBits);
      DivUnique(d * Pow2(shift), Modulus(), 0, d * Pow2(shift));
      NothingSet(pn[..], shift / 32, shift % 32);
      DivideAligned(num, div, shift, d, n);
      return Done;
    }

    /** The quotient, bit by bit, of what is left in `num`. */
    method DivideAligned(num: Uint256, div: Uint256, from: nat, ghost d: nat, ghost n: nat)
      requires Valid() && num.Valid() && div.Valid() && pn != num.pn && pn != div.pn && num.pn != div.pn && from < 256
      requires Value() == 0 && BitsFree(pn[..], from / 32, from % 32)
      requires n == num.Value() < d * Pow2(from + 1) && div.Value() == d * Pow2(from) && d > 0
      modifies pn, num.pn, div.pn
      ensures Value() == n / d
    {
      hide Val, Weight, Pow2, BitsFree;
      var shift: int := from;
      while shift >= 0
        invariant -1 <= shift < 256
        invariant n == num.Value() + d * Value() && num.Value() < d * Pow2(shift + 1)
        invariant shift >= 0 ==> div.Value() == d * Pow2(shift) && BitsFree(pn[..], shift / 32, shift % 32)
      {
        ghost var left, q := num.Value(), Value();
        DivideBit(num, div, shift, d);
        DivisionStep(d, left, q, shift);
        div.ShiftRight(1);
        shift := shift - 1;
      }
      TopBit(0, 0);
      DivUnique(n, d, Value(), num.Value());
    }

    /** Decides bit `shift` of the quotient. */
    method DivideBit(num: Uint256, div: Uint256, shift: nat, ghost d: nat)
      requires Valid() && num.Valid() && div.Valid() && pn != num.pn && pn != div.pn && num.pn != div.pn && shift < 256
      requires div.Value() == d * Pow2(shift) && BitsFree(pn[..], shift / 32, shift % 32)
      modifies pn, num.pn
      ensures var fits := old(num.Value()) >= d * Pow2(shift);
        && num.Value() == old(num.Value()) - (if fits then d * Pow2(shift) else 0)
        && Value() == old(Value()) + (if fits then Pow2(shift) else 0)
      ensures shift > 0 ==> BitsFree(pn[..], (shift - 1) / 32, (shift - 1) % 32)
    {
      hide Val, Weight, Pow2, Or, BitsFree;
      var c := num.CompareTo(div);
      ghost var s: seq<Limb> := pn[..];
      var l, b := shift / 32, shift % 32;
      if c >= 0 {
        ghost var left := num.Value() - div.Value();
        num.SubAssign(div);
        DivUnique(left, Modulus(), 0, left);
        SetBit(s, l, b);
        pn[l] := Or(pn[l], Pow2(b));
        assert pn[..] == s[l := s[l] + Pow2(b)];
      }
      if shift > 0 { MoreBitsFree(s, pn[..], shift); }
    }

    method Assign(b: Uint256)
      requires Valid() && b.Valid()
      modifies pn
      ensures pn[..] == old(b.pn[..]) && Value() == old(b.Value())
    {
      ghost var y := b.pn[..];
      for i := 0 to WIDTH
        invariant forall k :: 0 <= k < i ==> pn[k] == y[k]
        invariant forall k :: i <= k < WIDTH ==> b.pn[k] == y[k]
      {
        pn[i] := b.pn[i];
      }
      assert pn[..] == y;
    }
  }

  lemma SubByNegation(a: nat, b: nat, m: nat)
    requires a < m && b < m
    ensures (a + (m - b) % m) % m == (a - b) % m
  {
    if b == 0 {
      DivUnique(m, m, 1, 0);
    } else {
      DivUnique(m - b, m, 0, m - b);
      if a >= b { DivUnique(a + m - b, m, 1, a - b); DivUnique(a - b, m, 0, a - b); }
      else { DivUnique(a + m - b, m, 0, a + m - b); DivUnique(a - b, m, -1, a + m - b); }
    }
  }

  /** A digit product plus two digits never exceeds two digits. */
  lemma DigitProductFits(carry: Limb, d: Limb, x: Limb, y: Limb)
    ensures 0 <= x * y && 0 <= (carry + d + x * y) / BASE < BASE
  {
    MulMono(x, 0, y);
    MulMono(x, y, BASE - 1);
    MulMono(BASE - 1, x, BASE - 1);
    DivBelow(carry + d + x * y, BASE, BASE);
  }

  lemma Regroup(a: nat, x: nat, b: nat, y: nat)
    ensures (a * x) * (b * y) == (a * b) * (x * y)
  {
    Associate(a * x, b, y);
    Associate(a * b, x, y);
    Associate(a, x, b);
    Associate(a, b, x);
  }

  lemma RowProduct(wi: nat, wj: nat, x: nat, y: nat, v: nat, carry: nat)
    ensures (wi * wj) * (carry + x * y) == (wi * wj) * carry + (wj * x) * (wi * y)
    ensures (wj * x) * (v + wi * y) == (wj * x) * v + (wj * x) * (wi * y)
  {
    Distribute(wi * wj, carry, x * y);
    Regroup(wj, x, wi, y);
    Distribute(wj * x, v, wi * y);
  }

  function RowDigit(carry: Limb, held: Limb, x: Limb, y: Limb): nat {
    DigitProductFits(carry, held, x, y);
    carry + held + x * y
  }

  /** A row of the table after `i` digits: digit `d` of weight `j` times the low `i` limbs of `y` is in, but
      for the carry. */
  ghost predicate RowSum(s: seq<Limb>, d: Limb, y: seq<Limb>, i: nat, j: nat, start: nat, carry: nat)
    requires i <= |y|
  {
    Val(s) + Weight(i + j) * carry == start + (Weight(j) * d) * Val(y[..i])
  }

  lemma RowStart(s: seq<Limb>, d: Limb, y: seq<Limb>, j: nat)
    ensures RowSum(s, d, y, 0, j, Val(s), 0)
  {
    assert y[..0] == [];
  }

  lemma RowStep(s: seq<Limb>, d: Limb, y: seq<Limb>, i: nat, j: nat, start: nat, carry: Limb)
    requires i + j < |s| && i < |y| && RowSum(s, d, y, i, j, start, carry)
    ensures var n := RowDigit(carry, s[i + j], d, y[i]);
      n / BASE < BASE && RowSum(s[i + j := n % BASE], d, y, i + 1, j, start, n / BASE)
  {
    hide Val, Weight;
    var p := d * y[i];
    DigitProductFits(carry, s[i + j], d, y[i]);
    StoreDigit(s, i + j, carry + s[i + j] + p);
    ValTake(y, i);
    WeightAdd(i, j);
    RowProduct(Weight(i), Weight(j), d, y[i], Val(y[..i]), carry);
  }

  lemma RowTotal(m: nat, d: nat, lo: nat, above: nat, extra: nat, start: nat, turns: nat, v: nat, carry: nat, vx: nat)
    requires start + m * turns == vx * (lo + above) && v + m * carry == start + d * lo && d * above == m * extra
    ensures v + m * (carry + turns + extra) == (vx + d) * (lo + above)
  {
    Distribute(m, carry + turns, extra);
    Distribute(m, carry, turns);
    Distribute(lo + above, vx, d);
    Distribute(d, lo, above);
  }

  /** What the row leaves out lies above the top limb. */
  lemma RowDone(x: seq<Limb>, y: seq<Limb>, j: nat, start: nat, turns: nat, s: seq<Limb>, carry: nat)
      returns (after: nat)
    requires |x| == |y| == WIDTH && j < WIDTH
    requires start + Modulus() * turns == Val(x[..j]) * Val(y)
    requires RowSum(s, x[j], y, WIDTH - j, j, start, carry)
    ensures Val(s) + Modulus() * after == Val(x[..j + 1]) * Val(y)
  {
    hide Val, Weight;
    var k := WIDTH - j;
    var d, lo, hi := Weight(j) * x[j], Val(y[..k]), Val(y[k..]);
    ValTake(x, j);
    ValSplit(y, k);
    WeightAdd(j, k);
    Regroup(Weight(j), x[j], Weight(k), hi);
    after := carry + turns + x[j] * hi;
    RowTotal(Modulus(), d, lo, Weight(k) * hi, x[j] * hi, start, turns, Val(s), carry, Val(x[..j]));
  }

  // ----- bit lengths -----

  ghost predicate IsBitLength(v: nat, n: nat) { v < Pow2(n) && (n > 0 ==> v >= Pow2(n - 1)) }

  lemma TopBit(x: nat, n: nat)
    requires x < Pow2(n + 1)
    ensures Pow2(0) == 1 && x / Pow2(n) % 2 == (if x < Pow2(n) then 0 else 1)
  {
    assert Pow2(n + 1) == 2 * Pow2(n);
    hide Pow2;
    if x < Pow2(n) { DivUnique(x, Pow2(n), 0, x); } else { DivUnique(x, Pow2(n), 1, x - Pow2(n)); }
  }

  /** The bit length of a number is set by its highest nonzero limb. */
  lemma TopLimb(s: seq<Limb>, pos: nat, n: nat)
    requires |s| == WIDTH && pos < WIDTH && (forall j :: pos < j < WIDTH ==> s[j] == 0)
    requires n < 32 && Pow2(n) <= s[pos] < Pow2(n + 1)
    ensures IsBitLength(Val(s), 32 * pos + n + 1)
  {
    hide Val, Pow2;
    ValSplit(s, pos + 1);
    ValZero(s[pos + 1..]);
    ValTake(s, pos);
    ValBound(s[..pos]);
    Pow2Add(32 * pos, n);
    Pow2Add(32 * pos, n + 1);
    assert 32 * pos + (n + 1) == 32 * pos + n + 1;
    var w := Weight(pos);
    MulMono(w, Pow2(n), s[pos]);
    MulMono(w, (s[pos] as nat) + 1, Pow2(n + 1));
    MulSucc(w, s[pos]);
  }

  // ----- shifting left -----

  /** Limbs above `at` are clear, and limb `at` holds at most `t` bits. */
  ghost predicate ClearFrom(s: seq<Limb>, at: nat, t: nat) {
    (at < |s| ==> s[at] < Pow2(t)) && forall j :: at < j < |s| ==> s[j] == 0
  }

  lemma PutLeftFits(s: seq<Limb>, at: nat, x: Limb, t: nat)
    requires |s| == WIDTH && t <= 32 && ClearFrom(s, at, t)
    ensures at < WIDTH ==> Or(s[at], Low(x, t)) == s[at] + Low(x, t) < BASE
    ensures High(x, t) < BASE && High(x, t) < Pow2(t) && Or(0, High(x, t)) == High(x, t) && (t == 0 ==> High(x, t) == 0)
  {
    hide Pow2, Low, High;
    ShiftedDigit(x, t);
    if at < WIDTH { SumFits(s[at], Low(x, t), t); }
    if t == 0 { assert Pow2(0) == 1 by { TopBit(0, 0); } }
  }

  /** What one step of the left shift does to the limbs. */
  ghost function PutLeft(s: seq<Limb>, at: nat, x: Limb, t: nat): (r: seq<Limb>)
    requires |s| == WIDTH && t <= 32 && ClearFrom(s, at, t)
  {
    hide Pow2, Or, Low, High;
    PutLeftFits(s, at, x, t);
    if at >= WIDTH then s
    else if at + 1 < WIDTH then s[at := Or(s[at], Low(x, t))][at + 1 := High(x, t)]
    else s[at := Or(s[at], Low(x, t))]
  }

  /** A step adds the digit at its new place, less what is pushed out at the top. */
  lemma ShiftedLeftStep(s: seq<Limb>, at: nat, x: Limb, t: nat) returns (dropped: nat)
    requires |s| == WIDTH && t <= 32 && ClearFrom(s, at, t)
    ensures Val(PutLeft(s, at, x, t)) + Modulus() * dropped == Val(s) + Weight(at) * (x * Pow2(t))
    ensures ClearFrom(PutLeft(s, at, x, t), at + 1, t) && (at + 1 < WIDTH ==> dropped == 0)
  {
    hide Val, Weight, Pow2, Or, Low, High;
    PutLeftFits(s, at, x, t);
    if at >= WIDTH {
      WeightAdd(WIDTH, at - WIDTH);
      dropped := Weight(at - WIDTH) * (x * Pow2(t));
      Associate(Weight(WIDTH), Weight(at - WIDTH), x * Pow2(t));
    } else if at + 1 < WIDTH {
      SpreadAdds(s, at, x, t);
      dropped := 0;
    } else {
      ShiftedDigit(x, t);
      ValUpdate(s, at, s[at] + Low(x, t));
      WeightNext(at);
      dropped := High(x, t);
      Associate(Weight(at), BASE, High(x, t));
      Distribute(Weight(at), Low(x, t), BASE * High(x, t));
    }
  }

  lemma ShiftWeight(k: nat, t: nat)
    ensures Pow2(32 * k + t) == Weight(k) * Pow2(t)
  {
    Pow2Add(32 * k, t);
  }

  lemma ShiftedLeftSum(x: seq<Limb>, i: nat, k: nat, t: nat, before: nat, turns: nat, dropped: nat, after: nat)
    requires i < |x|
    requires before + Modulus() * turns == Val(x[..i]) * Pow2(32 * k + t)
    requires after + Modulus() * dropped == before + Weight(i + k) * (x[i] * Pow2(t))
    ensures after + Modulus() * (turns + dropped) == Val(x[..i + 1]) * Pow2(32 * k + t)
  {
    hide Val, Weight, Pow2, Modulus;
    WeightAdd(i, k);
    ShiftWeight(k, t);
    ValTake(x, i);
    Regroup(Weight(i), x[i], Weight(k), Pow2(t));
    Distribute(Pow2(32 * k + t), Val(x[..i]), Weight(i) * x[i]);
    Distribute(Modulus(), turns, dropped);
  }

  // ----- shifting right -----

  /** What one step of the right shift does to the limbs; `at` may be below the lowest. */
  ghost function PutRight(s: seq<Limb>, at: int, x: Limb, t: nat): (r: seq<Limb>)
    requires |s| == WIDTH && t < 32 && at < WIDTH && (at >= 1 ==> ClearFrom(s, at - 1, 32 - t))
  {
    hide Pow2, Or, Low, High, ClearFrom;
    if at < 0 then s
    else if at == 0 then ShiftedDigit(x, 32 - t); s[0 := High(x, 32 - t)]
    else PutLeft(s, at - 1, x, 32 - t)
  }

  /** The limbs after `i` steps of a right shift by `32 * k + t`. */
  ghost predicate ShiftedRight(x: seq<Limb>, i: nat, k: nat, t: nat, s: seq<Limb>)
    requires i <= |x| && t <= 32
  {
    && |s| == WIDTH && Val(s) == Val(x[..i]) / Pow2(32 * k + t)
    && (i <= k ==> forall j :: 0 <= j < |s| ==> s[j] == 0)
    && (i > k ==> ClearFrom(s, i - k - 1, 32 - t))
  }

  lemma ShiftedRightStart(x: seq<Limb>, s: seq<Limb>, k: nat, t: nat)
    requires |s| == WIDTH && t <= 32 && forall j :: 0 <= j < |s| ==> s[j] == 0
    ensures ShiftedRight(x, 0, k, t, s)
  {
    hide Pow2;
    assert x[..0] == [];
    ValZero(s);
    DivUnique(0, Pow2(32 * k + t), 0, 0);
  }

  /** One more step keeps the limbs at the quotient. */
  lemma ShiftedRightStep(x: seq<Limb>, i: nat, k: nat, t: nat, s: seq<Limb>)
    requires |x| == WIDTH && i < WIDTH && t < 32 && ShiftedRight(x, i, k, t, s)
    ensures ShiftedRight(x, i + 1, k, t, PutRight(s, i - k, x[i], t))
  {
    hide Val, Pow2, Or, Low, High, Weight, PutLeft;
    if i < k {
      QuotientBelow(x, i, k, t);
      ValZero(s);
    } else if i == k {
      ShiftedDigit(x[i], 32 - t);
      QuotientAt(x, k, t);
      PutAtZero(s, High(x[k], 32 - t));
    } else {
      ShiftedRightAbove(x, i, k, t, s);
    }
  }

  lemma ShiftedRightAbove(x: seq<Limb>, i: nat, k: nat, t: nat, s: seq<Limb>)
    requires |x| == WIDTH && k < i < WIDTH && t < 32 && ShiftedRight(x, i, k, t, s)
    ensures ShiftedRight(x, i + 1, k, t, PutLeft(s, i - k - 1, x[i], 32 - t))
  {
    hide Val, Pow2, PutLeft, ClearFrom, Weight;
    QuotientAbove(x, i, k, t);
    var dropped := ShiftedLeftStep(s, i - k - 1, x[i], 32 - t);
    PutLeftSize(s, i - k - 1, x[i], 32 - t);
  }

  lemma PutLeftSize(s: seq<Limb>, at: nat, x: Limb, t: nat)
    requires |s| == WIDTH && t <= 32 && ClearFrom(s, at, t)
    ensures |PutLeft(s, at, x, t)| == WIDTH
  {
    hide Pow2, Low, High, Or;
  }

  /** The limbs a right shift touches take what it puts there. */
  lemma PutRightFits(x: seq<Limb>, i: nat, k: nat, t: nat, s: seq<Limb>)
    requires |x| == WIDTH && i < WIDTH && t < 32 && ShiftedRight(x, i, k, t, s)
    ensures i > k ==> Or(s[i - k - 1], Low(x[i], 32 - t)) < BASE
    ensures i > k && t == 0 ==> Or(s[i - k - 1], Low(x[i], 32 - t)) == s[i - k - 1]
    ensures i >= k ==> s[i - k] == 0 && Or(0, High(x[i], 32 - t)) == High(x[i], 32 - t) < BASE
  {
    hide Val, Pow2, Or, Low, High, Weight;
    OrZero(High(x[i], 32 - t));
    ShiftedDigit(x[i], 32 - t);
    if i > k {
      PutLeftFits(s, i - k - 1, x[i], 32 - t);
      LowOfWhole(x[i]);
    }
  }

  lemma LowOfWhole(x: Limb)
    ensures Low(x, 32) == 0
  {
    hide Pow2;
    Pow2Of32();
    DivUnique(x * BASE, BASE, x, 0);
  }

  lemma PutAtZero(s: seq<Limb>, x: Limb)
    requires |s| == WIDTH && forall j :: 0 <= j < |s| ==> s[j] == 0
    ensures Val(s[0 := x]) == x
  {
    hide Val, Weight;
    ValUpdate(s, 0, x);
    ValZero(s);
    WeightNext(0);
  }

  lemma QuotientBelow(x: seq<Limb>, i: nat, k: nat, t: nat)
    requires i < k && i < |x|
    ensures Val(x[..i + 1]) / Pow2(32 * k + t) == 0
  {
    hide Val, Pow2;
    ValBound(x[..i + 1]);
    Pow2Mono(32 * (i + 1), 32 * k + t);
    DivUnique(Val(x[..i + 1]), Pow2(32 * k + t), 0, Val(x[..i + 1]));
  }

  lemma QuotientAt(x: seq<Limb>, k: nat, t: nat)
    requires k < |x| && t < 32
    ensures Val(x[..k + 1]) / Pow2(32 * k + t) == High(x[k], 32 - t)
  {
    hide Val, Pow2, Weight;
    ValTake(x, k);
    ValBound(x[..k]);
    ShiftWeight(k, t);
    DivTwice(Val(x[..k + 1]), Weight(k), Pow2(t));
    DivUnique(Val(x[..k + 1]), Weight(k), x[k], Val(x[..k]));
  }

  lemma QuotientAbove(x: seq<Limb>, i: nat, k: nat, t: nat)
    requires k < i < |x| && t < 32
    ensures Val(x[..i + 1]) / Pow2(32 * k + t) == Val(x[..i]) / Pow2(32 * k + t)
      + Weight(i - k - 1) * (x[i] * Pow2(32 - t))
  {
    hide Val, Pow2;
    var p, above, rest := Pow2(32 * k + t), Weight(i - k - 1), Pow2(32 - t);
    ValTake(x, i);
    Pow2Add(32 * k + t, 32 * i - 32 * k - t);
    Pow2Add(32 * (i - k - 1), 32 - t);
    assert Weight(i) == p * (above * rest);
    Associate(p, above * rest, x[i]);
    Regroup(above, rest, 1, x[i]);
    Associate(above, rest, x[i]);
    DivPlus(Val(x[..i]), p, (above * rest) * x[i]);
  }

  // ----- division -----

  /** Limbs below `l` are zero, and so are the low bits of limb `l` up to bit `b`. */
  ghost predicate BitsFree(s: seq<Limb>, l: nat, b: nat) {
    l < |s| && b < 32 && s[l] % Pow2(b + 1) == 0 && forall i :: 0 <= i < l ==> s[i] == 0
  }

  lemma NothingSet(s: seq<Limb>, l: nat, b: nat)
    requires l < |s| && b < 32 && forall i :: 0 <= i < |s| ==> s[i] == 0
    ensures BitsFree(s, l, b)
  {
    hide Pow2;
    DivUnique(0, Pow2(b + 1), 0, 0);
  }

  lemma SetBit(s: seq<Limb>, l: nat, b: nat)
    requires |s| == WIDTH && BitsFree(s, l, b)
    ensures l < WIDTH && Or(s[l], Pow2(b)) == s[l] + Pow2(b) < BASE
    ensures Val(s[l := s[l] + Pow2(b)]) == Val(s) + Pow2(32 * l + b)
  {
    hide Val, Weight, Pow2, Or;
    Pow2Next(b);
    SumFits(Pow2(b), s[l], b + 1);
    OrDisjoint(Pow2(b), s[l], b + 1);
    ValUpdate(s, l, s[l] + Pow2(b));
    ShiftWeight(l, b);
  }

  lemma EvenMultiple(x: nat, p: nat)
    requires p >= 1 && x % (2 * p) == 0
    ensures x % p == 0 && (x + p) % p == 0
  {
    var q := x / (2 * p);
    assert x == (2 * p) * q;
    Associate(p, 2, q);
    DivUnique(x, p, 2 * q, 0);
    MulSucc(p, 2 * q);
    DivUnique(x + p, p, 2 * q + 1, 0);
  }

  /** After bit `shift` is decided, the bit below it is next. */
  lemma MoreBitsFree(s: seq<Limb>, r: seq<Limb>, shift: nat)
    requires 1 <= shift < 256 && |s| == WIDTH && BitsFree(s, shift / 32, shift % 32)
    requires r == s || (s[shift / 32] + Pow2(shift % 32) < BASE
      && r == s[shift / 32 := s[shift / 32] + Pow2(shift % 32)])
    ensures BitsFree(r, (shift - 1) / 32, (shift - 1) % 32)
  {
    hide Pow2;
    var l, b := shift / 32, shift % 32;
    if b == 0 {
      assert (shift - 1) / 32 == l - 1 && (shift - 1) % 32 == 31;
      DivUnique(0, Pow2(32), 0, 0);
    } else {
      assert (shift - 1) / 32 == l && (shift - 1) % 32 == b - 1;
      Pow2Next(b);
      EvenMultiple(s[l], Pow2(b));
    }
  }

  lemma BitLengths(d: nat, db: nat, n: nat, nb: nat)
    requires IsBitLength(d, db) && IsBitLength(n, nb)
    ensures (d == 0 <==> db == 0) && (db > nb ==> n < d)
  {
    assert Pow2(0) == 1;
    if db > nb { Pow2Mono(nb, db - 1); }
  }

  lemma AlignedFits(d: nat, db: nat, n: nat, nb: nat)
    requires IsBitLength(d, db) && IsBitLength(n, nb) && 0 < db <= nb <= 256
    ensures d * Pow2(nb - db) < Modulus() && n < d * Pow2(nb - db + 1)
  {
    hide Pow2;
    Pow2Add(db, nb - db);
    Pow2Add(db - 1, nb - db + 1);
    Pow2Mono(nb, 256);
    ProductBelow(d, Pow2(db), Pow2(nb - db));
    MulMono(Pow2(nb - db + 1), Pow2(db - 1), d);
  }

  lemma DivisionStep(d: nat, left: nat, q: nat, shift: nat)
    requires left < d * Pow2(shift + 1)
    ensures d * (q + Pow2(shift)) == d * q + d * Pow2(shift)
    ensures left >= d * Pow2(shift) ==> left - d * Pow2(shift) < d * Pow2(shift)
    ensures shift > 0 ==> d * Pow2(shift) / Pow2(1) == d * Pow2(shift - 1)
  {
    assert Pow2(shift + 1) == 2 * Pow2(shift) && Pow2(1) == 2 && (shift > 0 ==> Pow2(shift) == 2 * Pow2(shift - 1));
    hide Pow2;
    Distribute(d, q, Pow2(shift));
    Associate(d, 2, Pow2(shift));
    Associate(2, d, Pow2(shift));
    if shift > 0 {
      Associate(d, 2, Pow2(shift - 1));
      Associate(2, d, Pow2(shift - 1));
      DivUnique(d * Pow2(shift), 2, d * Pow2(shift - 1), 0);
    }
  }
}
