/**
 * The compact encoding of difficulty targets (src/arith_uint256.cpp) and the
 * work a block proves (src/chain.cpp).
 */
module Compact {
  import opened Arithmetic
  import opened Limbs
  import opened Arith256

  function Exponent(c: Limb): nat { c / 0x100_0000 }

  function Mantissa(c: Limb): nat { c % 0x80_0000 }

  predicate SignBit(c: Limb) { c / 0x80_0000 % 2 == 1 }

  /** The magnitude the format stands for, mantissa * 256^(exponent - 3), rounded down. */
  function Stated(c: Limb): nat {
    var e, m := Exponent(c), Mantissa(c);
    if e <= 3 then (DivNonNegative(m, Pow2(8 * (3 - e))); m / Pow2(8 * (3 - e)))
    else m * Pow2(8 * (e - 3))
  }

  method SetCompact(x: Uint256, c: Limb) returns (negative: bool, overflow: bool)
    requires x.Valid()
    modifies x.pn
    ensures x.Value() == Stated(c) % Modulus()
    ensures overflow <==> Stated(c) >= Modulus()
    ensures negative <==> SignBit(c) && Stated(c) != 0
  {
    hide Modulus, Val, Weight, Pow2, Stated;
    var size := Exponent(c);
    var word := Mantissa(c);
    StatedFacts(c);
    if size <= 3 {
      word := word / Pow2(8 * (3 - size));
      x.Set(word);
    } else {
      x.Set(word);
      x.ShiftLeft(8 * (size - 3));
    }
    negative := word != 0 && SignBit(c);
    overflow := OverflowTest(word, size);
  }

  lemma StatedFacts(c: Limb)
    ensures var e, m := Exponent(c), Mantissa(c);
      if e <= 3 then
        && Stated(c) == m / Pow2(8 * (3 - e)) == Stated(c) % Modulus() < 0x80_0000 && Stated(c) < Modulus()
      else
        && Stated(c) == m * Pow2(8 * (e - 3)) && (m != 0 <==> Stated(c) != 0)
        && (Stated(c) >= Modulus() <==> OverflowTest(m, e))
  {
    hide Modulus, Pow2, OverflowTest;
    var e, m := Exponent(c), Mantissa(c);
    if e <= 3 {
      QuotientFits(m, Pow2(8 * (3 - e)));
    } else {
      OverflowExact(m, e);
      ProductZero(m, Pow2(8 * (e - 3)));
    }
  }

  lemma ProductZero(m: nat, p: nat)
    requires p >= 1
    ensures m != 0 <==> m * p != 0
  {
    if m > 0 { MulMono(m, 1, p); }
  }

  lemma QuotientFits(m: nat, p: nat)
    requires p >= 1 && m < 0x80_0000
    ensures 0 <= m / p < 0x80_0000 && m / p == m / p % Modulus() < Modulus()
  {
    hide Modulus;
    ModulusIs();
    DivShrinks(m, p);
    DivUnique(m / p, Modulus(), 0, m / p);
  }

  predicate OverflowTest(m: nat, e: nat) {
    m != 0 && (e > 34 || (m > 0xff && e > 33) || (m > 0xffff && e > 32))
  }

  /** The three tests of the overflow flag together say exactly that the number does not fit. */
  lemma OverflowExact(m: nat, e: nat)
    requires m < 0x80_0000 && e > 3
    ensures m * Pow2(8 * (e - 3)) >= Modulus() <==> OverflowTest(m, e)
  {
    hide Modulus, Pow2;
    ModulusIs();
    var p := Pow2(8 * (e - 3));
    if m != 0 {
      MulMono(p, 1, m);
      if e > 34 {
        Pow2Mono(256, 8 * (e - 3));
      } else if e == 34 {
        Fits(m, 256, 248);
      } else if e == 33 {
        Fits(m, 65536, 240);
      } else {
        Fits(m, 0x100_0000, 232);
        Pow2Mono(8 * (e - 3), 232);
        MulMono(m, p, Pow2(232));
      }
    }
  }

  lemma ModulusIs()
    ensures Modulus() == Pow2(256) > 0x100_0000 && Modulus() % 256 == 0
    ensures Modulus() == 256 * Pow2(248) == 0x1_0000 * Pow2(240) == 0x100_0000 * Pow2(232)
  {
    hide Pow2;
    Pow2Of32();
    Pow2Add(8, 248);
    Pow2Add(16, 240);
    Pow2Add(24, 232);
    Pow2Mono(32, 256);
    DivUnique(Pow2(256), 256, Pow2(248), 0);
  }

  lemma Fits(m: nat, top: nat, bits: nat)
    requires top * Pow2(bits) == Modulus()
    ensures m * Pow2(bits) >= Modulus() <==> m >= top
  {
    hide Pow2, Modulus;
    if m >= top { MulMono(Pow2(bits), top, m); } else { ProductBelow(m, top, Pow2(bits)); }
  }

  // ----- encoding -----

  /** The mantissa holds the leading bytes of `v`: what it leaves out is less than its last place. */
  ghost predicate Leads(v: nat, m: nat, e: nat) {
    m * Pow2(8 * e) <= v * Pow2(24) < (m + 1) * Pow2(8 * e)
  }

  /** The shortest exponent that keeps the sign bit clear, and no more than the leading bytes. */
  ghost predicate Encodes(v: nat, negative: bool, c: Limb) {
    && Leads(v, Mantissa(c), Exponent(c)) && (SignBit(c) <==> negative && Mantissa(c) != 0)
    && if v == 0 then Exponent(c) == 0 else Mantissa(c) >= 0x8000
  }

  method GetCompact(x: Uint256, negative: bool) returns (c: Limb)
    requires x.Valid()
    ensures Encodes(x.Value(), negative, c)
  {
    hide Modulus, Val, Weight, Pow2, Or, Leads, Exponent, Mantissa, SignBit;
    var word, size := LeadingWord(x);
    if word / 0x80_0000 % 2 == 1 {
      NextByte(x.Value(), word, size);
      word := word / 256;
      size := size + 1;
    }
    assert word < 0x80_0000 && size < 256;
    var sign := negative && word % 0x80_0000 != 0;
    PackFields(word, size, sign);
    c := Or(Or(word, size * 0x100_0000), if sign then 0x80_0000 else 0);
  }

  /** The three leading bytes and the size in bytes. */
  method LeadingWord(x: Uint256) returns (word: nat, size: nat)
    requires x.Valid()
    ensures size <= 32 && (x.Value() == 0 <==> size == 0) && Word(x.Value(), word, size)
  {
    hide Modulus, Val, Weight, Pow2, IsBitLength, Word;
    var bits := x.Bits();
    size := (bits + 7) / 8;
    SizeBounds(x.Value(), bits);
    if size <= 3 {
      var low := x.GetLow64();
      ShortWord(x.Value(), size);
      word := low * Pow2(8 * (3 - size)) % BASE;
    } else {
      var bn := new Uint256.Copy(x);
      bn.ShiftRight(8 * (size - 3));
      LongWord(x.Value(), size);
      var low := bn.GetLow64();
      word := low % BASE;
    }
  }

  /** The size in bytes. */
  lemma SizeBounds(v: nat, bits: nat)
    requires IsBitLength(v, bits) && bits <= 256
    ensures var size := (bits + 7) / 8;
      size <= 32 && v < Pow2(8 * size) && (v == 0 <==> size == 0) && (size > 0 ==> v >= Pow2(8 * size - 8))
  {
    var size := (bits + 7) / 8;
    assert Pow2(0) == 1;
    Pow2Mono(bits, 8 * size);
    if bits > 0 { Pow2Mono(8 * size - 8, bits - 1); }
  }

  /** A leading word of three bytes. */
  ghost predicate Word(v: nat, w: nat, size: nat) {
    Leads(v, w, size) && w < 0x100_0000 && if size == 0 then w == 0 else w >= 0x1_0000
  }

  lemma ShortWord(v: nat, size: nat)
    requires size <= 3 && v < Pow2(8 * size) && (size == 0 ==> v == 0) && (size > 0 ==> v >= Pow2(8 * size - 8))
    ensures var low := v % (BASE * BASE);
      0 <= low * Pow2(8 * (3 - size)) % BASE && Word(v, low * Pow2(8 * (3 - size)) % BASE, size)
  {
    hide Pow2;
    Pow2Of32();
    var p := Pow2(8 * (3 - size));
    var w := v * p;
    Pow2Add(8 * (3 - size), 8 * size);
    Pow2Mono(8 * size, 24);
    ProductBelow(v, Pow2(8 * size), p);
    Associate(v, p, Pow2(8 * size));
    MulSucc(Pow2(8 * size), w);
    DivUnique(v, BASE * BASE, 0, v);
    MulMono(p, 0, v);
    DivUnique(w, BASE, 0, w);
    if size > 0 {
      Pow2Add(8 * (3 - size), 8 * size - 8);
      MulMono(p, Pow2(8 * size - 8), v);
    }
  }

  lemma LongWord(v: nat, size: nat)
    requires size > 3 && Pow2(8 * size - 8) <= v < Pow2(8 * size)
    ensures Word(v, v / Pow2(8 * (size - 3)) % (BASE * BASE) % BASE, size)
  {
    hide Pow2;
    Pow2Of32();
    var p := Pow2(8 * (size - 3));
    var w := v / p;
    DivNonNegative(v, p);
    assert v == p * w + v % p;
    Pow2Add(8 * (size - 3), 24);
    Pow2Add(8 * (size - 3), 16);
    DivBelow(v, p, 0x100_0000);
    if w < 0x1_0000 { MulMono(p, w + 1, 0x1_0000); MulSucc(p, w); }
    MulSucc(p, w);
    Rescale(v, w, p);
    DivUnique(w, BASE * BASE, 0, w);
    DivUnique(w, BASE, 0, w);
  }

  lemma Rescale(v: nat, w: nat, p: nat)
    requires p * w <= v < p * (w + 1)
    ensures w * (p * 0x100_0000) <= v * 0x100_0000 < (w + 1) * (p * 0x100_0000)
  {
    Associate(w, p, 0x100_0000);
    Associate(w + 1, p, 0x100_0000);
  }

  /** Moving one byte out of the mantissa clears the sign bit. */
  lemma NextByte(v: nat, w: nat, size: nat)
    requires Word(v, w, size) && w >= 0x80_0000
    ensures Leads(v, w / 256, size + 1) && 0x8000 <= w / 256 < 0x80_0000
  {
    hide Pow2;
    Pow2Of32();
    Pow2Add(8, 8 * size);
    assert 8 * (size + 1) == 8 + 8 * size;
    var p, q := Pow2(8 * size), w / 256;
    Associate(q, 256, p);
    Associate(q + 1, 256, p);
    MulMono(p, q * 256, w);
    MulMono(p, w + 1, (q + 1) * 256);
  }

  lemma PackFields(w: nat, size: nat, sign: bool)
    requires w < 0x80_0000 && size < 256
    ensures var c := Or(Or(w, size * 0x100_0000), if sign then 0x80_0000 else 0);
      && 0 <= Or(w, size * 0x100_0000) && c < BASE
      && Mantissa(c) == w && Exponent(c) == size && (SignBit(c) <==> sign)
  {
    var bit := if sign then 0x80_0000 else 0;
    PackedSum(w, size, bit);
    hide Or;
  }

  lemma PackedSum(w: nat, size: nat, bit: nat)
    requires w < 0x80_0000 && size < 256 && (bit == 0 || bit == 0x80_0000)
    ensures Or(w, size * 0x100_0000) == w + size * 0x100_0000
    ensures Or(Or(w, size * 0x100_0000), bit) == w + bit + size * 0x100_0000
  {
    hide Or, Pow2;
    Pow2Of32();
    DivUnique(size * 0x100_0000, 0x100_0000, size, 0);
    OrDisjoint(w, size * 0x100_0000, 24);
    OrAbove(w, size, bit, 24);
    OrZero(w);
    TopBits(w);
  }

  lemma TopBits(w: nat)
    requires w < 0x80_0000
    ensures Or(w, 0x80_0000) == w + 0x80_0000
  {
    hide Or, Pow2;
    Pow2Of32();
    Pow2Next(23);
    DivUnique(0x80_0000, 0x80_0000, 1, 0);
    OrDisjoint(w, 0x80_0000, 23);
  }

  /** A number and a sign have only one encoding. */
  lemma EncodingUnique(v: nat, negative: bool, c: Limb, d: Limb)
    requires Encodes(v, negative, c) && Encodes(v, negative, d)
    ensures c == d
  {
    hide Leads, Mantissa, Exponent, SignBit;
    Fields(c);
    Fields(d);
    SameFields(v, Mantissa(c), Exponent(c), Mantissa(d), Exponent(d));
  }

  lemma Fields(c: Limb)
    ensures c == Mantissa(c) + (if SignBit(c) then 0x80_0000 else 0) + 0x100_0000 * Exponent(c)
      && Mantissa(c) < 0x80_0000
  {}

  lemma SameFields(v: nat, m: nat, e: nat, n: nat, f: nat)
    requires Leads(v, m, e) && Leads(v, n, f) && m < 0x80_0000 && n < 0x80_0000
    requires if v == 0 then e == f == 0 else m >= 0x8000 && n >= 0x8000
    ensures m == n && e == f
  {
    hide Pow2, Leads;
    if e < f { NoSmallerExponent(v, m, e, n, f); }
    if f < e { NoSmallerExponent(v, n, f, m, e); }
    MantissaBelow(v, m, n, e);
    MantissaBelow(v, n, m, e);
  }

  lemma MantissaBelow(v: nat, m: nat, n: nat, e: nat)
    requires Leads(v, m, e) && Leads(v, n, e)
    ensures m <= n
  {
    hide Pow2;
    var p := Pow2(8 * e);
    if m > n { MulMono(p, n + 1, m); }
  }

  lemma NoSmallerExponent(v: nat, m: nat, e: nat, n: nat, f: nat)
    requires e < f && Leads(v, m, e) && m < 0x80_0000 && n >= 0x8000
    ensures !Leads(v, n, f)
  {
    hide Pow2;
    Pow2Of32();
    var p, q := Pow2(8 * e), Pow2(8 * f);
    Pow2Add(8, 8 * e);
    Pow2Mono(8 + 8 * e, 8 * f);
    MulMono(p, m + 1, 0x80_0000);
    MulMono(q, 0x8000, n);
  }

  function LastPlace(e: nat): nat { if e <= 3 then 1 else Pow2(8 * (e - 3)) }

  /** Decoding what was encoded gives the number back but for less than the last place. */
  lemma DecodedTruncates(v: nat, negative: bool, c: Limb)
    requires Encodes(v, negative, c)
    ensures Stated(c) <= v < Stated(c) + LastPlace(Exponent(c))
  {
    hide Pow2;
    Pow2Of32();
    var m, e := Mantissa(c), Exponent(c);
    if e <= 3 {
      Pow2Add(8 * e, 8 * (3 - e));
      ExactWhenShort(v, m, Pow2(8 * e), Pow2(8 * (3 - e)));
    } else {
      Pow2Add(24, 8 * (e - 3));
      TruncatedWhenLong(v, m, Pow2(8 * (e - 3)));
    }
  }

  lemma ExactWhenShort(v: nat, m: nat, a: nat, b: nat)
    requires a >= 1 && b >= 1 && m * a <= v * (a * b) < (m + 1) * a
    ensures m == v * b && m / b == v
  {
    Associate(v, b, a);
    if m > v * b { MulMono(a, v * b + 1, m); MulSucc(a, v * b); }
    if m < v * b { MulMono(a, m + 1, v * b); }
    DivUnique(m, b, v, 0);
  }

  lemma TruncatedWhenLong(v: nat, m: nat, p: nat)
    requires m * (0x100_0000 * p) <= v * 0x100_0000 < (m + 1) * (0x100_0000 * p)
    ensures m * p <= v < m * p + p
  {
    Associate(m, p, 0x100_0000);
    Associate(m + 1, p, 0x100_0000);
    MulSucc(p, m);
  }

  /** The decoded number encodes to the same word again. */
  lemma Reencoded(v: nat, negative: bool, c: Limb)
    requires Encodes(v, negative, c)
    ensures Encodes(Stated(c), negative, c)
  {
    hide Pow2;
    Pow2Of32();
    DecodedTruncates(v, negative, c);
    var m, e := Mantissa(c), Exponent(c);
    if e > 3 {
      var p := Pow2(8 * (e - 3));
      Pow2Add(24, 8 * (e - 3));
      Associate(m, p, 0x100_0000);
      MulSucc(Pow2(8 * e), m);
      ProductZero(m, p);
    }
  }

  // ----- block proof -----

  /** The expected number of hashes for a target: 2^256 / (target + 1), and none for a malformed target. */
  function Work(bits: Limb): nat {
    if SignBit(bits) || Stated(bits) == 0 || Stated(bits) >= Modulus() then 0
    else (DivNonNegative(Modulus(), Stated(bits) + 1); Modulus() / (Stated(bits) + 1))
  }

  method GetBlockProof(bits: Limb) returns (r: Uint256)
    ensures r.Valid() && r.Value() == Work(bits)
  {
    hide Val, Weight, Modulus, Stated;
    var target := new Uint256(0);
    var negative, overflow := SetCompact(target, bits);
    if !overflow { TargetFits(bits); }
    var zero := new Uint256(0);
    var c := target.CompareTo(zero);
    if negative || overflow || c == 0 {
      return zero;
    }
    r := target.Complement();
    target.Increment();
    var outcome := r.DivAssign(target);
    r.Increment();
    WorkIdentity(Stated(bits), Modulus());
  }

  /** A target that fits is never the largest number, so adding one to it does not wrap. */
  lemma TargetFits(bits: Limb)
    requires Stated(bits) < Modulus()
    ensures Stated(bits) + 1 < Modulus() && Stated(bits) % Modulus() == Stated(bits)
      && (Stated(bits) + 1) % Modulus() == Stated(bits) + 1
  {
    hide Modulus, Pow2, Stated, OverflowTest;
    var e, m, t := Exponent(bits), Mantissa(bits), Stated(bits);
    ModulusIs();
    StatedFacts(bits);
    if e > 3 { WholeBytes(m, e); }
    DivUnique(t, Modulus(), 0, t);
    DivUnique(t + 1, Modulus(), 0, t + 1);
  }

  lemma WholeBytes(m: nat, e: nat)
    requires e > 3
    ensures m * Pow2(8 * (e - 3)) % 256 == 0
  {
    hide Pow2;
    Pow2Of32();
    Pow2Add(8, 8 * (e - 4));
    assert 8 * (e - 3) == 8 + 8 * (e - 4);
    var p := Pow2(8 * (e - 4));
    Associate(m, p, 256);
    DivUnique(m * (256 * p), 256, m * p, 0);
  }

  lemma WorkIdentity(t: nat, m: nat)
    requires 1 <= t && t + 1 < m
    ensures (m - 1 - t) / (t + 1) + 1 == m / (t + 1) && (m / (t + 1)) % m == m / (t + 1)
  {
    var d := t + 1;
    var q := (m - d) / d;
    assert m - d == d * q + (m - d) % d;
    MulSucc(d, q);
    DivUnique(m, d, q + 1, (m - d) % d);
    DivNonNegative(m, d);
    MulMono(m, 1, d);
    DivBelow(m, d, m);
    DivUnique(m / d, m, 0, m / d);
  }
}
