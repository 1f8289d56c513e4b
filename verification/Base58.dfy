/**
 * Base58 (src/base58.cpp): byte strings as digits in base 58, each leading zero
 * byte as a leading '1'. The conversions run in place in fixed-size buffers,
 * whose sizes are proved to suffice.
 */
module Base58 {
  import opened Common
  import opened Arithmetic
  import opened Radix

  datatype Decoding = Failed | Bytes(bytes: seq<Byte>)

  const ONE: Byte := 49

  // ----- characters -----

  predicate IsSpace(c: Byte) { c == 32 || 9 <= c <= 13 }

  /** The value of a character, or -1: digits but 0, upper case but I and O, lower case but l. */
  function ValueOf(c: Byte): (v: int)
    ensures -1 <= v < 58 && (v == 0 <==> c == ONE) && (IsSpace(c) ==> v == -1)
  {
    if 49 <= c <= 57 then c - 49
    else if 65 <= c <= 72 then c - 65 + 9
    else if 74 <= c <= 78 then c - 74 + 17
    else if 80 <= c <= 90 then c - 80 + 22
    else if 97 <= c <= 107 then c - 97 + 33
    else if 109 <= c <= 122 then c - 109 + 44
    else -1
  }

  function CharOf(v: int): (c: Byte)
    requires 0 <= v < 58
    ensures ValueOf(c) == v
  {
    if v < 9 then v + 49
    else if v < 17 then v - 9 + 65
    else if v < 22 then v - 17 + 74
    else if v < 33 then v - 22 + 80
    else if v < 44 then v - 33 + 97
    else v - 44 + 109
  }

  lemma CharOfValue(c: Byte)
    requires ValueOf(c) >= 0
    ensures CharOf(ValueOf(c)) == c
  {}

  // ----- the buffers suffice -----

  lemma {:induction false} PowMono(b: nat, x: nat, y: nat)
    requires b >= 1 && x <= y
    ensures Pow(b, x) <= Pow(b, y)
  {
    hide Pow;
    PowAdd(b, x, y - x);
    PowPositive(b, y - x);
    MulMono(Pow(b, x), 1, Pow(b, y - x));
  }

  lemma ProductMono(a: nat, b: nat, c: nat, d: nat)
    requires a <= b && c <= d
    ensures a * c <= b * d
  {
    MulMono(c, a, b);
    MulMono(b, c, d);
  }

  lemma Powers58()
    ensures Pow(58, 0) == 1 && Pow(58, 1) == 58 && Pow(58, 2) == 3364 && Pow(58, 3) == 195112 && Pow(58, 4) == 11316496
    ensures Pow(58, 5) == 656356768 && Pow(58, 6) == 38068692544 && Pow(58, 7) == 2207984167552
    ensures Pow(58, 8) == 128063081718016 && Pow(58, 9) == 7427658739644928
    ensures Pow(58, 10) == 430804206899405824 && Pow(58, 11) == 24986644000165537792
    ensures Pow(58, 12) == 1449225352009601191936 && Pow(58, 13) == 84055070416556869132288
    ensures Pow(58, 14) == 4875194084160298409672704 && Pow(58, 15) == 282761256881297307761016832
  {}

  lemma Powers256()
    ensures Pow(256, 0) == 1 && Pow(256, 1) == 256 && Pow(256, 2) == 65536 && Pow(256, 3) == 16777216
      && Pow(256, 4) == 4294967296
    ensures Pow(256, 5) == 1099511627776 && Pow(256, 6) == 281474976710656 && Pow(256, 7) == 72057594037927936
    ensures Pow(256, 8) == 18446744073709551616 && Pow(256, 9) == 4722366482869645213696
    ensures Pow(256, 10) == 1208925819614629174706176 && Pow(256, 11) == 309485009821345068724781056
  {}

  /** 138/100 of the bytes, and one, are enough base-58 digits. */
  lemma {:induction false} EncodeFits(n: nat)
    ensures Pow(256, n) <= Pow(58, n * 138 / 100 + 1)
  {
    hide Pow;
    Powers58();
    Powers256();
    if n >= 8 {
      EncodeFits(n - 8);
      var e := (n - 8) * 138 / 100 + 1;
      PowAdd(256, 8, n - 8);
      PowAdd(58, 11, e);
      ProductMono(Pow(256, 8), Pow(58, 11), Pow(256, n - 8), Pow(58, e));
      PowMono(58, 11 + e, n * 138 / 100 + 1);
    }
  }

  lemma SeventyOneDigits()
    ensures Pow(58, 71) <= Pow(256, 52)
  {
    hide Pow;
    Powers58();
    Powers256();
    PowAdd(58, 15, 15);
    PowAdd(58, 30, 30);
    PowAdd(58, 60, 11);
    PowAdd(256, 11, 11);
    PowAdd(256, 22, 22);
    PowAdd(256, 44, 8);
  }

  /** Short words: three bytes for each four digits, but eleven for each fifteen. */
  lemma {:induction false} FewDigits(m: nat)
    ensures Pow(58, m) <= Pow(256, 11 * (m / 15) + (3 * (m % 15) + 3) / 4)
  {
    hide Pow;
    Powers58();
    Powers256();
    if m >= 15 {
      var e := 11 * ((m - 15) / 15) + (3 * ((m - 15) % 15) + 3) / 4;
      FewDigits(m - 15);
      PowAdd(58, 15, m - 15);
      PowAdd(256, 11, e);
      ProductMono(Pow(58, 15), Pow(256, 11), Pow(58, m - 15), Pow(256, e));
    }
  }

  /** 733/1000 of the digits, and one, are enough bytes. */
  lemma {:induction false} DecodeFits(m: nat)
    ensures Pow(58, m) <= Pow(256, m * 733 / 1000 + 1)
  {
    hide Pow;
    if m < 71 {
      FewDigits(m);
      PowMono(256, 11 * (m / 15) + (3 * (m % 15) + 3) / 4, m * 733 / 1000 + 1);
    } else {
      SeventyOneDigits();
      DecodeFits(m - 71);
      var e := (m - 71) * 733 / 1000 + 1;
      PowAdd(58, 71, m - 71);
      PowAdd(256, 52, e);
      ProductMono(Pow(58, 71), Pow(256, 52), Pow(58, m - 71), Pow(256, e));
      PowMono(256, 52 + e, m * 733 / 1000 + 1);
    }
  }

  // ----- what the strings mean -----

  /** How many leading elements equal `x`. */
  function Leading(s: seq<Byte>, x: Byte): (n: nat)
    ensures n <= |s| && (forall i :: 0 <= i < n ==> s[i] == x) && (n < |s| ==> s[n] != x)
  {
    if s == [] || s[0] != x then 0 else 1 + Leading(s[1..], x)
  }

  function Repeat(x: Byte, n: nat): (s: seq<Byte>)
    ensures |s| == n && forall i :: 0 <= i < n ==> s[i] == x
  {
    seq(n, _ => x)
  }

  function Chars(s: seq<int>): (r: seq<Byte>)
    requires DigitsBelow(58, s)
    ensures |r| == |s| && forall i :: 0 <= i < |s| ==> r[i] == CharOf(s[i])
  {
    seq(|s|, i requires 0 <= i < |s| => CharOf(s[i]))
  }

  predicate AllDigits(s: seq<Byte>) { forall i :: 0 <= i < |s| ==> ValueOf(s[i]) >= 0 }

  function Values(s: seq<Byte>): (r: seq<int>)
    requires AllDigits(s)
    ensures |r| == |s| && DigitsBelow(58, r) && forall i :: 0 <= i < |s| ==> r[i] == ValueOf(s[i])
  {
    seq(|s|, i requires 0 <= i < |s| => ValueOf(s[i]))
  }

  /** A leading one for each leading zero, and the base-58 digits of the whole as a number. */
  function Encoded(bytes: seq<Byte>): seq<Byte> {
    Repeat(ONE, Leading(bytes, 0)) + Chars(Digits(58, Num(256, bytes)))
  }

  function BytesOf(word: seq<Byte>): (r: seq<Byte>)
    requires AllDigits(word)
    ensures |r| == Leading(word, ONE) + |Digits(256, Num(58, Values(word)))|
  {
    Repeat(0, Leading(word, ONE)) + Digits(256, Num(58, Values(word)))
  }

  /** The first place from `p` on that is not a space. */
  function SkipSpaces(s: seq<Byte>, p: nat): (q: nat)
    requires p <= |s|
    ensures p <= q <= |s| && (q < |s| ==> !IsSpace(s[q])) && forall i :: p <= i < q ==> IsSpace(s[i])
    decreases |s| - p
  {
    if p == |s| || !IsSpace(s[p]) then p else SkipSpaces(s, p + 1)
  }

  /** The first place from `p` on that is a space. */
  function SkipWord(s: seq<Byte>, p: nat): (q: nat)
    requires p <= |s|
    ensures p <= q <= |s| && (q < |s| ==> IsSpace(s[q])) && forall i :: p <= i < q ==> !IsSpace(s[i])
    decreases |s| - p
  {
    if p == |s| || IsSpace(s[p]) then p else SkipWord(s, p + 1)
  }

  predicate Fits(bytes: seq<Byte>, max: int) { bytes == [] || |bytes| <= max }

  /** One word of base-58 digits, with spaces around it, whose bytes fit. */
  function Decoded(s: seq<Byte>, max: int): Decoding {
    var a := SkipSpaces(s, 0);
    var e := SkipWord(s, a);
    var word := s[a..e];
    if SkipSpaces(s, e) != |s| || !AllDigits(word) || !Fits(BytesOf(word), max) then Failed else Bytes(BytesOf(word))
  }

  // ----- mutually inverse -----

  lemma LeadingOf(s: seq<Byte>, x: Byte, n: nat, rest: seq<Byte>)
    requires s == Repeat(x, n) + rest && (rest != [] ==> rest[0] != x)
    ensures Leading(s, x) == n
  {
    assert rest != [] ==> s[n] == rest[0];
    assert forall i :: 0 <= i < n ==> s[i] == x;
  }

  lemma NumOfLeading(b: nat, s: seq<int>, z: nat)
    requires Base(b) && DigitsBelow(b, s) && z <= |s| && forall i :: 0 <= i < z ==> s[i] == 0
    ensures Num(b, s) == Num(b, s[z..])
  {
    NumSkipsZeros(b, z, s[z..]);
    assert Zeros(z) + s[z..] == s;
  }

  /** Numbers and leading zeros together determine the bytes. */
  lemma DigitsAfterZeros(b: nat, s: seq<int>, z: nat)
    requires Base(b) && DigitsBelow(b, s) && z <= |s| && (forall i :: 0 <= i < z ==> s[i] == 0)
      && (z < |s| ==> s[z] != 0)
    ensures Digits(b, Num(b, s)) == s[z..]
  {
    hide Num, Digits;
    NumOfLeading(b, s, z);
    DigitsOfNum(b, s[z..]);
  }

  lemma EncodedIsWord(bytes: seq<Byte>)
    ensures AllDigits(Encoded(bytes)) && forall i :: 0 <= i < |Encoded(bytes)| ==> !IsSpace(Encoded(bytes)[i])
  {
    hide Encoded, ValueOf, IsSpace;
    forall i | 0 <= i < |Encoded(bytes)| ensures ValueOf(Encoded(bytes)[i]) >= 0 && !IsSpace(Encoded(bytes)[i]) {
      EncodedIsDigit(bytes, i);
    }
  }

  lemma EncodedIsDigit(bytes: seq<Byte>, i: nat)
    requires i < |Encoded(bytes)|
    ensures var c := Encoded(bytes)[i]; ValueOf(c) >= 0 && !IsSpace(c)
  {
    hide Num, Digits;
    var z := Leading(bytes, 0);
    var digits := Digits(58, Num(256, bytes));
    if i >= z { assert Encoded(bytes)[i] == CharOf(digits[i - z]); }
  }

  lemma ValuesOfEncoded(bytes: seq<Byte>)
    requires AllDigits(Encoded(bytes))
    ensures Leading(Encoded(bytes), ONE) == Leading(bytes, 0) && Num(58, Values(Encoded(bytes))) == Num(256, bytes)
  {
    hide Num, Digits, CharOf, ValueOf, Leading;
    var z, n := Leading(bytes, 0), Num(256, bytes);
    var digits := Digits(58, n);
    var s := Encoded(bytes);
    LeadingOf(s, ONE, z, Chars(digits));
    assert Values(s) == Zeros(z) + digits;
    NumSkipsZeros(58, z, digits);
    NumOfDigits(58, n);
  }

  lemma BytesOfEncoded(bytes: seq<Byte>)
    ensures AllDigits(Encoded(bytes)) && BytesOf(Encoded(bytes)) == bytes
  {
    hide Num, Digits, Encoded, AllDigits, Values;
    EncodedIsWord(bytes);
    ValuesOfEncoded(bytes);
    var z := Leading(bytes, 0);
    DigitsAfterZeros(256, bytes, z);
    assert bytes == Repeat(0, z) + bytes[z..];
  }

  /** Decoding inverts encoding, for every byte string that fits. */
  lemma DecodeEncoded(bytes: seq<Byte>, max: int)
    ensures Decoded(Encoded(bytes), max) == if Fits(bytes, max) then Bytes(bytes) else Failed
  {
    hide Encoded, AllDigits, BytesOf, SkipSpaces, SkipWord, IsSpace;
    var s := Encoded(bytes);
    EncodedIsWord(bytes);
    BytesOfEncoded(bytes);
    assert SkipSpaces(s, 0) == 0 && SkipWord(s, 0) == |s| && SkipSpaces(s, |s|) == |s|;
    assert s[0..|s|] == s;
  }

  /** Encoding inverts decoding, for every word of base-58 digits. */
  lemma EncodeDecoded(word: seq<Byte>)
    requires AllDigits(word)
    ensures Encoded(BytesOf(word)) == word
  {
    hide Num, Digits, ValueOf, CharOf, Leading, AllDigits, Values;
    var z, n := Leading(word, ONE), Num(58, Values(word));
    var tail := Digits(256, n);
    LeadingOf(BytesOf(word), 0, z, tail);
    assert BytesOf(word) == Zeros(z) + tail;
    NumSkipsZeros(256, z, tail);
    NumOfDigits(256, n);
    LeadingValues(word);
    DigitsAfterZeros(58, Values(word), z);
    CharsOfValues(word, z);
    assert word == Repeat(ONE, z) + word[z..];
  }

  lemma LeadingValues(word: seq<Byte>)
    requires AllDigits(word)
    ensures var z := Leading(word, ONE);
      (forall i :: 0 <= i < z ==> Values(word)[i] == 0) && (z < |word| ==> Values(word)[z] != 0)
  {}

  lemma CharsOfValues(word: seq<Byte>, z: nat)
    requires AllDigits(word) && z <= |word|
    ensures Chars(Values(word)[z..]) == word[z..]
  {
    hide ValueOf, CharOf;
    var rest := Values(word)[z..];
    forall i | 0 <= i < |rest| ensures Chars(rest)[i] == word[z + i] { CharOfValue(word[z + i]); }
  }

  /** Any accepted string, less the spaces around it, is the encoding of what it decodes to. */
  lemma AcceptedIsEncoding(s: seq<Byte>, max: int)
    requires Decoded(s, max).Bytes?
    ensures Encoded(Decoded(s, max).bytes) == s[SkipSpaces(s, 0)..SkipWord(s, SkipSpaces(s, 0))]
  {
    hide Encoded, BytesOf, AllDigits;
    EncodeDecoded(s[SkipSpaces(s, 0)..SkipWord(s, SkipSpaces(s, 0))]);
  }

  // ----- the conversions -----

  lemma NumNext(b: nat, s: seq<int>, k: nat)
    requires Base(b) && DigitsBelow(b, s) && k < |s|
    ensures Num(b, s[..k + 1]) == b * Num(b, s[..k]) + s[k] < Pow(b, |s|)
  {
    hide Pow;
    assert s[..k + 1] == s[..k] + [s[k]];
    NumSnoc(b, s[..k], s[k]);
    NumBelow(b, s[..k + 1]);
    PowMono(b, k + 1, |s|);
  }

  method EncodeBase58(input: seq<Byte>) returns (str: seq<Byte>)
    ensures str == Encoded(input)
  {
    hide Num, Digits, Leading, CharOf, Chars;
    var rest := input;
    var zeroes := 0;
    while |rest| > 0 && rest[0] == 0
      invariant zeroes <= |input| && rest == input[zeroes..] && forall i :: 0 <= i < zeroes ==> input[i] == 0
    {
      rest := rest[1..];
      zeroes := zeroes + 1;
    }
    LeadingIs(input, 0, zeroes);
    NumOfLeading(256, input, zeroes);
    var b58, length := ConvertBytes(rest);
    HeldDigits(58, b58[..], length, Num(256, rest));
    var top := SkipZeros(b58, length);
    assert top == length;
    str := Translate(b58, top, Repeat(ONE, zeroes));
  }

  method SkipZeros(b58: array<int>, length: nat) returns (top: nat)
    requires length <= b58.Length
    ensures top <= length && (top > 0 ==> b58[top - 1] != 0) && forall j :: top <= j < length ==> b58[j] == 0
  {
    top := length;
    while top > 0 && b58[top - 1] == 0
      invariant top <= length && forall j :: top <= j < length ==> b58[j] == 0
    {
      top := top - 1;
    }
  }

  /** The bytes as a number in a buffer of 138/100 digits for each. */
  method ConvertBytes(rest: seq<Byte>) returns (b58: array<int>, length: nat)
    ensures Holds(58, b58[..], length, Num(256, rest))
  {
    hide Num, Pow, Holds;
    var size := |rest| * 138 / 100 + 1;
    EncodeFits(|rest|);
    b58 := new int[size](_ => 0);
    length := 0;
    HoldsNothing(58, b58[..]);
    NoBytes(rest[..0]);
    for k := 0 to |rest|
      invariant fresh(b58) && b58.Length == size && Holds(58, b58[..], length, Num(256, rest[..k]))
    {
      NumNext(256, rest, k);
      length := MulAdd(b58, 58, 256, rest[k], length, Num(256, rest[..k]));
    }
    assert rest[..|rest|] == rest;
  }

  lemma NoBytes(s: seq<Byte>)
    requires s == []
    ensures Num(256, s) == 0
  {}

  /** Appends the characters of the digits in use, from the top. */
  method Translate(b58: array<int>, length: nat, start: seq<Byte>) returns (str: seq<Byte>)
    requires length <= b58.Length && DigitsBelow(58, b58[..])
    ensures str == start + Chars(Reversed(b58[..length]))
  {
    hide CharOf;
    ghost var digits := Reversed(b58[..length]);
    str := start;
    var i := length;
    while i > 0
      invariant 0 <= i <= length && str == start + Chars(digits[..length - i])
    {
      i := i - 1;
      assert digits[..length - i] == digits[..length - i - 1] + [b58[i]];
      str := str + [CharOf(b58[i])];
    }
    assert digits[..length] == digits;
  }

  lemma LeadingIs(s: seq<Byte>, x: Byte, n: nat)
    requires n <= |s| && (forall i :: 0 <= i < n ==> s[i] == x) && (n < |s| ==> s[n] != x)
    ensures Leading(s, x) == n
  {
    assert s == Repeat(x, n) + s[n..];
    LeadingOf(s, x, n, s[n..]);
  }

  method DecodeBase58(s: seq<Byte>, max: int) returns (r: Decoding)
    ensures r == Decoded(s, max)
  {
    hide AllDigits, BytesOf, SkipSpaces, SkipWord;
    var p := SkipOver(s, 0);
    var ok, bytes, e := DecodeWord(s, p, max);
    if !ok { return Failed; }
    var q := SkipOver(s, e);
    if q != |s| { return Failed; }
    return Bytes(bytes);
  }

  method SkipOver(s: seq<Byte>, from: nat) returns (p: nat)
    requires from <= |s|
    ensures p == SkipSpaces(s, from)
  {
    hide IsSpace;
    p := from;
    while p < |s| && IsSpace(s[p])
      invariant from <= p <= |s| && SkipSpaces(s, p) == SkipSpaces(s, from)
    {
      p := p + 1;
    }
  }

  /** Converts the word that starts at `from`. */
  method DecodeWord(s: seq<Byte>, from: nat, max: int) returns (ok: bool, bytes: seq<Byte>, p: nat)
    requires from <= |s|
    ensures var word := s[from..SkipWord(s, from)]; ok <==> AllDigits(word) && Fits(BytesOf(word), max)
    ensures ok ==> p == SkipWord(s, from) && AllDigits(s[from..p]) && bytes == BytesOf(s[from..p])
  {
    hide BytesOf, AllDigits, SkipWord, Fits;
    ghost var end := SkipWord(s, from);
    p := from;
    var zeroes := 0;
    bytes := [];
    while p < |s| && s[p] == ONE
      invariant from <= p <= end && zeroes == p - from && forall i :: from <= i < p ==> s[i] == ONE
      invariant zeroes == 0 || zeroes <= max
    {
      NotPastWord(s, from, p);
      zeroes := zeroes + 1;
      if zeroes > max {
        if AllDigits(s[from..end]) { OnesTooMany(s[from..end], zeroes, max); }
        ok := false;
        return;
      }
      p := p + 1;
    }
    ok, bytes, p := ConvertRest(s, from, p, zeroes, max);
  }

  lemma NotPastWord(s: seq<Byte>, from: nat, p: nat)
    requires from <= p < |s| && p <= SkipWord(s, from) && !IsSpace(s[p])
    ensures p < SkipWord(s, from)
  {}

  /** The bytes of a word with `z` leading ones. */
  lemma WordBytes(word: seq<Byte>, z: nat)
    requires AllDigits(word) && z <= |word| && (forall i :: 0 <= i < z ==> word[i] == ONE)
      && (z < |word| ==> word[z] != ONE)
    ensures AllDigits(word[z..]) && BytesOf(word) == Repeat(0, z) + Digits(256, Num(58, Values(word[z..])))
  {
    hide Num, Digits, Leading;
    LeadingIs(word, ONE, z);
    NumOfLeading(58, Values(word), z);
    assert Values(word)[z..] == Values(word[z..]);
  }

  lemma OnesTooMany(word: seq<Byte>, z: nat, max: int)
    requires AllDigits(word) && 0 < z <= |word| && (forall i :: 0 <= i < z ==> word[i] == ONE) && z > max
    ensures !Fits(BytesOf(word), max)
  {
    hide Num, Digits, ValueOf;
  }

  /** A word whose prefix already has too many bytes has too many itself. */
  lemma PrefixTooLong(word: seq<Byte>, z: nat, k: nat, max: int)
    requires AllDigits(word) && z < k <= |word| && (forall i :: 0 <= i < z ==> word[i] == ONE) && word[z] != ONE
    requires AllDigits(word[z..k]) && z + |Digits(256, Num(58, Values(word[z..k])))| > max
    ensures !Fits(BytesOf(word), max)
  {
    hide Num, Digits;
    WordBytes(word, z);
    var rest := word[z..];
    NumPrefix(58, Values(rest), k - z);
    assert Values(rest)[..k - z] == Values(word[z..k]);
    DigitsMono(256, Num(58, Values(word[z..k])), Num(58, Values(rest)));
    NumPositive(word[z..k]);
    NumPositive(rest);
  }

  lemma NumPositive(rest: seq<Byte>)
    requires AllDigits(rest) && rest != [] && rest[0] != ONE
    ensures Digits(256, Num(58, Values(rest))) != []
  {
    hide Num;
    DigitsOfNum(58, Values(rest));
  }

  lemma NextValue(s: seq<Byte>, start: nat, p: nat)
    requires start <= p < |s| && AllDigits(s[start..p]) && ValueOf(s[p]) >= 0
    ensures AllDigits(s[start..p + 1])
    ensures 58 * Num(58, Values(s[start..p])) + ValueOf(s[p]) ==
      Num(58, Values(s[start..p + 1])) < Pow(256, (|s| - start) * 733 / 1000 + 1)
  {
    hide Pow, ValueOf, Num;
    var t := s[start..p + 1];
    assert t == s[start..p] + [s[p]];
    assert Values(t) == Values(s[start..p]) + [ValueOf(s[p])];
    NumSnoc(58, Values(s[start..p]), ValueOf(s[p]));
    NumBelow(58, Values(t));
    PowMono(58, |t|, |s| - start);
    DecodeFits(|s| - start);
  }

  /** Converts the rest of a word, from `start` on, in a buffer of 733/1000 bytes for each remaining character. */
  method ConvertRest(s: seq<Byte>, from: nat, start: nat, zeroes: nat, max: int)
      returns (ok: bool, bytes: seq<Byte>, p: nat)
    requires from <= start <= |s| && start <= SkipWord(s, from) && zeroes == start - from
    requires forall i :: from <= i < start ==> s[i] == ONE
    requires (start < |s| ==> s[start] != ONE) && (zeroes == 0 || zeroes <= max)
    ensures var word := s[from..SkipWord(s, from)]; ok <==> AllDigits(word) && Fits(BytesOf(word), max)
    ensures ok ==> p == SkipWord(s, from) && AllDigits(s[from..p]) && bytes == BytesOf(s[from..p])
  {
    hide BytesOf, SkipWord, Num, Pow, ValueOf, Values, Holds, AllDigits, Digits;
    ghost var end := SkipWord(s, from);
    var size := (|s| - start) * 733 / 1000 + 1;
    var b256 := new int[size](_ => 0);
    HoldsNothing(256, b256[..]);
    NoValues(s[start..start]);
    var length := 0;
    p := start;
    while p < |s| && !IsSpace(s[p])
      invariant start <= p <= end && AllDigits(s[start..p])
      invariant Holds(256, b256[..], length, Num(58, Values(s[start..p])))
      invariant if p == start then length == 0 else length + zeroes <= max
    {
      NotPastWord(s, from, p);
      var carry := ValueOf(s[p]);
      if carry == -1 {
        NotAllDigits(s, from, end, p);
        return false, [], p;
      }
      NextValue(s, start, p);
      length := MulAdd(b256, 256, 58, carry, length, Num(58, Values(s[start..p])));
      if length + zeroes > max {
        HeldDigits(256, b256[..], length, Num(58, Values(s[start..p + 1])));
        WordTooLong(s, from, start, end, p + 1, max);
        return false, [], p;
      }
      p := p + 1;
    }
    AtWordEnd(s, from, p);
    WordWhole(s, from, start, p);
    HeldDigits(256, b256[..], length, Num(58, Values(s[start..p])));
    bytes := Repeat(0, zeroes) + Reversed(b256[..length]);
    ok := true;
  }

  lemma NotAllDigits(s: seq<Byte>, from: nat, end: nat, p: nat)
    requires from <= p < end <= |s| && ValueOf(s[p]) == -1
    ensures !AllDigits(s[from..end])
  {
    assert s[from..end][p - from] == s[p];
  }

  lemma WordTooLong(s: seq<Byte>, from: nat, start: nat, end: nat, p: nat, max: int)
    requires from <= start < p <= end <= |s| && (forall i :: from <= i < start ==> s[i] == ONE) && s[start] != ONE
    requires AllDigits(s[start..p]) && start - from + |Digits(256, Num(58, Values(s[start..p])))| > max
    ensures AllDigits(s[from..end]) ==> !Fits(BytesOf(s[from..end]), max)
  {
    hide BytesOf, Num, Values, Fits, AllDigits, Digits;
    if AllDigits(s[from..end]) {
      var word, z := s[from..end], start - from;
      assert word[z..p - from] == s[start..p];
      PrefixTooLong(word, z, p - from, max);
    }
  }

  lemma NoValues(s: seq<Byte>)
    requires s == []
    ensures AllDigits(s) && Num(58, Values(s)) == 0
  {}

  lemma AtWordEnd(s: seq<Byte>, from: nat, p: nat)
    requires from <= p <= |s| && p <= SkipWord(s, from) && (p < |s| ==> IsSpace(s[p]))
    ensures p == SkipWord(s, from)
  {}

  lemma WordWhole(s: seq<Byte>, from: nat, start: nat, p: nat)
    requires from <= start <= p <= |s| && AllDigits(s[start..p])
    requires (forall i :: from <= i < start ==> s[i] == ONE) && (start < p ==> s[start] != ONE)
    ensures AllDigits(s[from..p])
    ensures BytesOf(s[from..p]) == Repeat(0, start - from) + Digits(256, Num(58, Values(s[start..p])))
  {
    hide BytesOf, Num, Digits, Values;
    var word := s[from..p];
    forall i | 0 <= i < |word| ensures ValueOf(word[i]) >= 0 {
      if from + i >= start { assert word[i] == s[start..p][from + i - start]; }
    }
    WordBytes(word, start - from);
    assert word[start - from..] == s[start..p];
  }
}
