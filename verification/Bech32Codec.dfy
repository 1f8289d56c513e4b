/**
 * Bech32 strings (src/bech32.cpp): a human-readable part, a separator, data
 * symbols and six checksum symbols, as sequences of character codes.
 */
module Bech32Codec {
  import opened Common
  import opened Bech32

  datatype Encoding = Invalid | Plain | Modified

  datatype Parsed = Rejected | Parsed(encoding: Encoding, hrp: seq<Byte>, data: seq<Symbol>)

  datatype Lookup = Missing | Found(value: Symbol)

  // ----- characters -----

  /** The character of a symbol, in the order qpzry9x8 gf2tvdw0 s3jn54kh ce6mua7l. */
  function CharOf(v: Symbol): Byte {
    if v < 8 then
      if v == 0 then 113 else if v == 1 then 112 else if v == 2 then 122 else if v == 3 then 114 else
      if v == 4 then 121 else if v == 5 then 57 else if v == 6 then 120 else 56
    else if v < 16 then
      if v == 8 then 103 else if v == 9 then 102 else if v == 10 then 50 else if v == 11 then 116 else
      if v == 12 then 118 else if v == 13 then 100 else if v == 14 then 119 else 48
    else if v < 24 then
      if v == 16 then 115 else if v == 17 then 51 else if v == 18 then 106 else if v == 19 then 110 else
      if v == 20 then 53 else if v == 21 then 52 else if v == 22 then 107 else 104
    else
      if v == 24 then 99 else if v == 25 then 101 else if v == 26 then 54 else if v == 27 then 109 else
      if v == 28 then 117 else if v == 29 then 97 else if v == 30 then 55 else 108
  }

  predicate IsUpper(c: Byte) { 65 <= c <= 90 }

  predicate IsLower(c: Byte) { 97 <= c <= 122 }

  function LowerCase(c: Byte): Byte { if IsUpper(c) then c + 32 else c }

  /** The symbol of a character, in either case. */
  function SymbolOf(c: Byte): Lookup {
    var l := LowerCase(c);
    if l <= 57 then
      if l == 48 then Found(15) else if l == 50 then Found(10) else if l == 51 then Found(17) else
      if l == 52 then Found(21) else
      if l == 53 then Found(20) else if l == 54 then Found(26) else if l == 55 then Found(30) else
      if l == 56 then Found(7) else
      if l == 57 then Found(5) else Missing
    else if l <= 108 then
      if l == 97 then Found(29) else if l == 99 then Found(24) else if l == 100 then Found(13) else
      if l == 101 then Found(25) else
      if l == 102 then Found(9) else if l == 103 then Found(8) else if l == 104 then Found(23) else
      if l == 106 then Found(18) else
      if l == 107 then Found(22) else if l == 108 then Found(31) else Missing
    else
      if l == 109 then Found(27) else if l == 110 then Found(19) else if l == 112 then Found(1) else
      if l == 113 then Found(0) else
      if l == 114 then Found(3) else if l == 115 then Found(16) else if l == 116 then Found(11) else
      if l == 117 then Found(28) else
      if l == 118 then Found(12) else if l == 119 then Found(14) else if l == 120 then Found(6) else
      if l == 121 then Found(4) else
      if l == 122 then Found(2) else Missing
  }

  lemma CharThenSymbol(v: Symbol)
    ensures SymbolOf(CharOf(v)) == Found(v)
  {
    hide CharOf, SymbolOf;
    if v < 8 {
      FirstQuarter(v);
    } else if v < 16 {
      SecondQuarter(v);
    } else if v < 24 {
      ThirdQuarter(v);
    } else {
      LastQuarter(v);
    }
  }

  lemma FirstQuarter(v: Symbol)
    requires v < 8
    ensures SymbolOf(CharOf(v)) == Found(v)
  {}

  lemma SecondQuarter(v: Symbol)
    requires 8 <= v < 16
    ensures SymbolOf(CharOf(v)) == Found(v)
  {}

  lemma ThirdQuarter(v: Symbol)
    requires 16 <= v < 24
    ensures SymbolOf(CharOf(v)) == Found(v)
  {}

  lemma LastQuarter(v: Symbol)
    requires 24 <= v
    ensures SymbolOf(CharOf(v)) == Found(v)
  {}

  lemma SymbolThenChar(c: Byte)
    requires SymbolOf(c).Found?
    ensures CharOf(SymbolOf(c).value) == LowerCase(c)
  {
    hide CharOf, SymbolOf;
    if LowerCase(c) <= 57 { DigitSymbol(c); } else if LowerCase(c) <= 108 { EarlyLetter(c); } else { LateLetter(c); }
  }

  lemma DigitSymbol(c: Byte)
    requires SymbolOf(c).Found? && LowerCase(c) <= 57
    ensures CharOf(SymbolOf(c).value) == LowerCase(c)
  {}

  lemma EarlyLetter(c: Byte)
    requires SymbolOf(c).Found? && 57 < LowerCase(c) <= 108
    ensures CharOf(SymbolOf(c).value) == LowerCase(c)
  {}

  lemma LateLetter(c: Byte)
    requires SymbolOf(c).Found? && 108 < LowerCase(c)
    ensures CharOf(SymbolOf(c).value) == LowerCase(c)
  {}

  lemma CharIsPlain(v: Symbol)
    ensures var c := CharOf(v); 33 <= c <= 126 && c != SEPARATOR && !IsUpper(c)
  {}

  const SEPARATOR: Byte := 49

  function Lower(s: seq<Byte>): (r: seq<Byte>)
    ensures |r| == |s| && forall i :: 0 <= i < |s| ==> r[i] == LowerCase(s[i])
  {
    seq(|s|, i requires 0 <= i < |s| => LowerCase(s[i]))
  }

  function Chars(v: seq<Symbol>): (r: seq<Byte>)
    ensures |r| == |v| && forall i :: 0 <= i < |v| ==> r[i] == CharOf(v[i])
  {
    seq(|v|, i requires 0 <= i < |v| => CharOf(v[i]))
  }

  predicate AllSymbols(s: seq<Byte>) { forall i :: 0 <= i < |s| ==> SymbolOf(s[i]).Found? }

  function Symbols(s: seq<Byte>): (r: seq<Symbol>)
    requires AllSymbols(s)
    ensures |r| == |s| && forall i :: 0 <= i < |s| ==> r[i] == SymbolOf(s[i]).value
  {
    seq(|s|, i requires 0 <= i < |s| => SymbolOf(s[i]).value)
  }

  // ----- the checksum -----

  function Constant(e: Encoding): (k: bv32)
    requires !e.Invalid?
    ensures k < ONE
  {
    if e.Plain? then 1 else 0x2bc8_30a3
  }

  function HighBits(c: Byte): Symbol { (c / 32) as bv32 }

  function LowBits(c: Byte): Symbol { (c % 32) as bv32 }

  /** The human-readable part as symbols: all high bits, a zero, all low bits. */
  function Expanded(hrp: seq<Byte>): seq<Symbol> {
    seq(|hrp|, i requires 0 <= i < |hrp| => HighBits(hrp[i])) + [0]
      + seq(|hrp|, i requires 0 <= i < |hrp| => LowBits(hrp[i]))
  }

  method ExpandHrp(hrp: seq<Byte>) returns (ret: seq<Symbol>)
    ensures ret == Expanded(hrp)
  {
    hide HighBits, LowBits;
    var n := |hrp|;
    ret := seq(2 * n + 1, _ => 0);
    for i := 0 to n
      invariant |ret| == 2 * n + 1 && ret[n] == 0
      invariant forall j :: 0 <= j < i ==> ret[j] == HighBits(hrp[j]) && ret[j + n + 1] == LowBits(hrp[j])
    {
      ret := ret[i := HighBits(hrp[i])];
      ret := ret[i + n + 1 := LowBits(hrp[i])];
    }
    assert forall k :: n < k < |ret| ==> ret[k] == ret[(k - n - 1) + n + 1];
  }

  /** What is left of a remainder above its last `6 - i` groups of five bits. */
  function Top(m: bv32, i: nat): bv32
    requires i <= 6
  {
    if i == 6 then m else if i == 5 then m >> 5 else if i == 4 then m >> 10 else if i == 3 then m >> 15
    else if i == 2 then m >> 20 else if i == 1 then m >> 25 else m >> 30
  }

  /** Group `i` of five bits, the highest first. */
  function Group(m: bv32, i: nat): Symbol
    requires i < 6
  {
    Top(m, i + 1) & 31
  }

  function Groups(m: bv32): seq<Symbol> { seq(6, i requires 0 <= i < 6 => Group(m, i)) }

  const ZEROS: seq<Symbol> := [0, 0, 0, 0, 0, 0]

  /** The six symbols that complete a message. */
  function Checksum(e: Encoding, hrp: seq<Byte>, values: seq<Symbol>): (r: seq<Symbol>)
    requires !e.Invalid?
    ensures |r| == 6
  {
    Groups(Xor(Run(1, Expanded(hrp) + values + ZEROS), Constant(e)))
  }

  method CreateChecksum(e: Encoding, hrp: seq<Byte>, values: seq<Symbol>) returns (ret: seq<Symbol>)
    requires !e.Invalid?
    ensures ret == Checksum(e, hrp, values)
  {
    hide Expanded, Run, Group, Constant, Xor;
    var enc := ExpandHrp(hrp);
    enc := enc + values + ZEROS;
    var mod := PolyMod(enc);
    mod := Xor(mod, Constant(e));
    ret := [];
    for i := 0 to 6
      invariant |ret| == i && forall j :: 0 <= j < i ==> ret[j] == Group(mod, j)
    {
      ret := ret + [Group(mod, i)];
    }
  }

  function Verified(hrp: seq<Byte>, values: seq<Symbol>): Encoding {
    var check := Run(1, Expanded(hrp) + values);
    if check == Constant(Plain) then Plain else if check == Constant(Modified) then Modified else Invalid
  }

  // ----- the checksum completes the message -----

  lemma Shifts(m: bv32)
    requires m < ONE
    ensures m >> 25 < 0x20 && m >> 20 < 0x400 && m >> 15 < 0x8000 && m >> 10 < 0x10_0000 && m >> 5 < 0x200_0000
    ensures m >> 30 == 0
  {}

  /** Taking five bits off and putting them back. */
  lemma Refill(x: bv32)
    ensures Appended(x >> 5, x & 31) == x
  {
    calc {
      Xor((x >> 5) << 5, x & 31);
      ((x >> 5) << 5) ^ (x & 31);
      x;
    }
  }

  /** Symbols packed one after the other, `t` being the remainders on the way. */
  lemma {:induction false} RunPacked(g: seq<Symbol>, t: seq<bv32>)
    requires |t| == |g| + 1 && forall i :: 0 <= i < |g| ==> t[i] < 0x200_0000 && Appended(t[i], g[i]) == t[i + 1]
    ensures Run(t[0], g) == t[|g|]
  {
    hide Step, Appended;
    if g != [] {
      SmallStep(t[0], g[0]);
      RunPacked(g[1..], t[1..]);
    }
  }

  lemma TopWhole(m: bv32)
    ensures Top(m, 6) == m
  {}

  lemma TopNext(m: bv32, i: nat)
    requires i < 6
    ensures Top(m, i + 1) >> 5 == Top(m, i)
  {
    if i == 5 {
      calc {
        Top(m, i + 1) >> 5;
        m >> 5;
        Top(m, i);
      }
    } else if i == 4 {
      calc {
        Top(m, i + 1) >> 5;
        (m >> 5) >> 5;
        m >> 10;
        Top(m, i);
      }
    } else if i == 3 {
      calc {
        Top(m, i + 1) >> 5;
        (m >> 10) >> 5;
        m >> 15;
        Top(m, i);
      }
    } else if i == 2 {
      calc {
        Top(m, i + 1) >> 5;
        (m >> 15) >> 5;
        m >> 20;
        Top(m, i);
      }
    } else if i == 1 {
      calc {
        Top(m, i + 1) >> 5;
        (m >> 20) >> 5;
        m >> 25;
        Top(m, i);
      }
    } else {
      calc {
        Top(m, i + 1) >> 5;
        (m >> 25) >> 5;
        m >> 30;
        Top(m, i);
      }
    }
  }

  lemma TopSmall(m: bv32, i: nat)
    requires m < ONE && i < 6
    ensures Top(m, i) < 0x200_0000 && Top(m, 0) == 0
  {
    Shifts(m);
  }

  /** Splitting a remainder into symbols and packing them again. */
  lemma GroupsPack(m: bv32)
    requires m < ONE
    ensures Run(0, Groups(m)) == m
  {
    hide Step, Appended, Run, Top;
    var t := seq(7, i requires 0 <= i <= 6 => Top(m, i));
    forall i | 0 <= i < 6 ensures t[i] < 0x200_0000 && Appended(t[i], Groups(m)[i]) == t[i + 1] {
      TopSmall(m, i);
      TopNext(m, i);
      Refill(Top(m, i + 1));
    }
    TopSmall(m, 0);
    TopWhole(m);
    RunPacked(Groups(m), t);
  }

  lemma {:induction false} XorWithZeros(z: seq<Symbol>, v: seq<Symbol>)
    requires |z| == |v| && forall i :: 0 <= i < |z| ==> z[i] == 0
    ensures XorAll(z, v) == v
  {
    hide Xor;
    if v != [] {
      XorZero(v[0]);
      XorWithZeros(z[1..], v[1..]);
      assert v == [v[0]] + v[1..];
    }
  }

  /** After any message, the groups of (remainder with zeros) xor `k` make the remainder `k`. */
  lemma CompletesTo(c: bv32, k: bv32)
    requires c < ONE && k < ONE
    ensures Run(c, Groups(Xor(Run(c, ZEROS), k))) == k
  {
    hide Step, Xor, Run, Groups;
    var r := Run(c, ZEROS);
    var m := Xor(r, k);
    XorBelow(r, k);
    GroupsPack(m);
    GroupsSize(m);
    RunLinear(c, 0, ZEROS, Groups(m));
    XorZero(c);
    XorWithZeros(ZEROS, Groups(m));
    XorCancel(r, k);
  }

  lemma GroupsSize(m: bv32)
    ensures |Groups(m)| == 6
  {}

  lemma ChecksumVerifies(e: Encoding, hrp: seq<Byte>, values: seq<Symbol>)
    requires !e.Invalid?
    ensures Verified(hrp, values + Checksum(e, hrp, values)) == e
  {
    hide Step, Xor, Run, Groups, Expanded;
    var body := Expanded(hrp) + values;
    var c := Run(1, body);
    RunAppend(1, body, ZEROS);
    RunAppend(1, body, Checksum(e, hrp, values));
    CompletesTo(c, Constant(e));
    assert Expanded(hrp) + (values + Checksum(e, hrp, values)) == body + Checksum(e, hrp, values);
  }

  /** Only one ending verifies. */
  lemma ChecksumUnique(e: Encoding, hrp: seq<Byte>, values: seq<Symbol>, ending: seq<Symbol>)
    requires !e.Invalid? && |ending| == 6 && Verified(hrp, values + ending) == e
    ensures ending == Checksum(e, hrp, values)
  {
    hide Step, Xor, Run, Groups, Expanded, Checksum;
    ChecksumVerifies(e, hrp, values);
    var sum := Checksum(e, hrp, values);
    var body := Expanded(hrp) + values;
    RunAppend(1, body, ending);
    RunAppend(1, body, sum);
    assert Expanded(hrp) + (values + ending) == body + ending;
    assert Expanded(hrp) + (values + sum) == body + sum;
    if ending != sum { SixDetermined(Run(1, body), ending, sum); }
  }

  // ----- strings -----

  predicate Upperless(s: seq<Byte>) { forall i :: 0 <= i < |s| ==> !IsUpper(s[i]) }

  predicate Printable(s: seq<Byte>) { forall i :: 0 <= i < |s| ==> 33 <= s[i] <= 126 }

  function Encoded(e: Encoding, hrp: seq<Byte>, values: seq<Symbol>): seq<Byte>
    requires !e.Invalid?
  {
    hrp + [SEPARATOR] + Chars(values + Checksum(e, hrp, values))
  }

  method Encode(e: Encoding, hrp: seq<Byte>, values: seq<Symbol>) returns (ret: seq<Byte>)
    requires !e.Invalid? && Upperless(hrp)
    ensures ret == Encoded(e, hrp, values)
  {
    hide Checksum, CharOf;
    var checksum := CreateChecksum(e, hrp, values);
    var combined := values + checksum;
    ret := hrp + [SEPARATOR];
    for i := 0 to |combined|
      invariant ret == hrp + [SEPARATOR] + Chars(combined)[..i]
    {
      ret := ret + [CharOf(combined[i])];
    }
  }

  datatype Case = NoLetter | LowerFirst | UpperFirst

  /** The case of the first letter. */
  function FirstCase(s: seq<Byte>): Case {
    if s == [] then NoLetter
    else
      var c, last := FirstCase(s[..|s| - 1]), s[|s| - 1];
      if c != NoLetter then c else if IsLower(last) then LowerFirst else if IsUpper(last) then UpperFirst else NoLetter
  }

  /** A letter is out of case when its case is not that of the first letter. */
  predicate OutOfCase(s: seq<Byte>, i: nat)
    requires i < |s|
  {
    (IsLower(s[i]) && FirstCase(s[..i]).UpperFirst?) || (IsUpper(s[i]) && FirstCase(s[..i]).LowerFirst?)
  }

  predicate HasUpper(s: seq<Byte>) { exists i :: 0 <= i < |s| && IsUpper(s[i]) }

  predicate HasLower(s: seq<Byte>) { exists i :: 0 <= i < |s| && IsLower(s[i]) }

  lemma LastLetter(s: seq<Byte>)
    requires s != []
    ensures HasUpper(s) <==> HasUpper(s[..|s| - 1]) || IsUpper(s[|s| - 1])
    ensures HasLower(s) <==> HasLower(s[..|s| - 1]) || IsLower(s[|s| - 1])
  {
    var n := |s| - 1;
    if i :| 0 <= i < |s| && IsUpper(s[i]) && i < n { assert IsUpper(s[..n][i]); }
    if i :| 0 <= i < |s| && IsLower(s[i]) && i < n { assert IsLower(s[..n][i]); }
  }

  ghost predicate InCase(s: seq<Byte>) { forall i :: 0 <= i < |s| ==> !OutOfCase(s, i) }

  lemma InCaseLast(s: seq<Byte>)
    requires s != []
    ensures InCase(s) <==> InCase(s[..|s| - 1]) && !OutOfCase(s, |s| - 1)
  {
    var n := |s| - 1;
    assert forall i :: 0 <= i < n ==> s[..n][..i] == s[..i];
    if InCase(s[..n]) && !OutOfCase(s, n) {
      forall i | 0 <= i < |s| ensures !OutOfCase(s, i) { if i < n { assert !OutOfCase(s[..n], i); } }
    }
    if InCase(s) {
      forall i | 0 <= i < n ensures !OutOfCase(s[..n], i) { assert !OutOfCase(s, i); }
    }
  }

  /** No letter is out of case exactly when the string does not mix cases. */
  lemma {:induction false} CasesMixed(s: seq<Byte>)
    ensures InCase(s) <==> !(HasUpper(s) && HasLower(s))
    ensures match FirstCase(s)
      case NoLetter => !HasUpper(s) && !HasLower(s)
      case LowerFirst => HasLower(s)
      case UpperFirst => HasUpper(s)
  {
    if s != [] {
      var n := |s| - 1;
      CasesMixed(s[..n]);
      LastLetter(s);
      InCaseLast(s);
      hide HasUpper, HasLower, InCase;
    }
  }

  predicate Misfit(s: seq<Byte>, i: nat)
    requires i < |s|
  {
    !(33 <= s[i] <= 126) || OutOfCase(s, i)
  }

  lemma NoMisfits(s: seq<Byte>)
    ensures (forall i :: 0 <= i < |s| ==> !Misfit(s, i)) <==> Printable(s) && !(HasUpper(s) && HasLower(s))
  {
    hide HasUpper, HasLower, OutOfCase;
    CasesMixed(s);
    if forall i :: 0 <= i < |s| ==> !Misfit(s, i) {
      forall i | 0 <= i < |s| ensures !OutOfCase(s, i) && 33 <= s[i] <= 126 { assert !Misfit(s, i); }
    }
  }

  /** The indices of characters that no valid string has there. */
  method CheckCharacters(s: seq<Byte>) returns (ok: bool, errors: seq<nat>)
    ensures ok <==> errors == []
    ensures ok <==> Printable(s) && !(HasUpper(s) && HasLower(s))
    ensures forall i :: i in errors <==> 0 <= i < |s| && Misfit(s, i)
  {
    var lower, upper := false, false;
    errors := [];
    for i := 0 to |s|
      invariant lower == FirstCase(s[..i]).LowerFirst? && upper == FirstCase(s[..i]).UpperFirst?
      invariant forall j :: j in errors ==> 0 <= j < i
      invariant forall j :: 0 <= j < i ==> (j in errors <==> Misfit(s, j))
    {
      assert s[..i + 1][..i] == s[..i];
      var c := s[i];
      if IsLower(c) {
        if upper { errors := errors + [i]; } else { lower := true; }
      } else if IsUpper(c) {
        if lower { errors := errors + [i]; } else { upper := true; }
      } else if c < 33 || c > 126 {
        errors := errors + [i];
      }
    }
    assert s[..|s|] == s;
    assert errors != [] ==> errors[0] in errors;
    ok := errors == [];
    NoMisfits(s);
    if !ok { assert Misfit(s, errors[0]); }
  }

  /** The last separator, or -1. */
  function LastSeparator(s: seq<Byte>): (pos: int)
    ensures -1 <= pos < |s| && (pos >= 0 ==> s[pos] == SEPARATOR)
    ensures forall i :: pos < i < |s| ==> s[i] != SEPARATOR
  {
    if s == [] then -1
    else if s[|s| - 1] == SEPARATOR then |s| - 1
    else LastSeparator(s[..|s| - 1])
  }

  lemma SeparatorAt(s: seq<Byte>, pos: nat)
    requires pos < |s| && s[pos] == SEPARATOR && forall i :: pos < i < |s| ==> s[i] != SEPARATOR
    ensures LastSeparator(s) == pos
  {
    var last := LastSeparator(s);
  }

  lemma NoSeparator(s: seq<Byte>)
    requires forall i :: 0 <= i < |s| ==> s[i] != SEPARATOR
    ensures LastSeparator(s) == -1
  {
    var last := LastSeparator(s);
  }

  predicate ShapedAt(s: seq<Byte>, pos: int)
    requires -1 <= pos < |s|
  {
    Printable(s) && !(HasUpper(s) && HasLower(s)) && |s| <= 90 && 0 < pos && pos + 7 <= |s| && AllSymbols(s[pos + 1..])
  }

  /** What a string stands for, given its last separator. */
  function DecodedAt(s: seq<Byte>, pos: int): (r: Parsed)
    requires -1 <= pos < |s|
    ensures r.Parsed? ==> !r.encoding.Invalid?
  {
    if !ShapedAt(s, pos) then Rejected
    else
      var hrp, values := Lower(s[..pos]), Symbols(s[pos + 1..]);
      var e := Verified(hrp, values);
      if e.Invalid? then Rejected else Parsed(e, hrp, values[..|values| - 6])
  }

  function Decoded(s: seq<Byte>): Parsed {
    if s == [] then Rejected else DecodedAt(s, LastSeparator(s))
  }

  method Decode(s: seq<Byte>) returns (r: Parsed)
    ensures r == Decoded(s)
  {
    hide Verified, Symbols, AllSymbols, Lower, HasUpper, HasLower, Printable, LastSeparator;
    var ok, errors := CheckCharacters(s);
    var pos := FindLastSeparator(s);
    if !ok || |s| > 90 || pos == -1 || pos == 0 || pos + 7 > |s| { return Rejected; }
    var values;
    ok, values := ReadSymbols(s[pos + 1..]);
    if !ok { return Rejected; }
    var hrp := LowerAll(s[..pos]);
    var e := VerifyChecksum(hrp, values);
    if e.Invalid? { return Rejected; }
    return Parsed(e, hrp, values[..|values| - 6]);
  }

  method FindLastSeparator(s: seq<Byte>) returns (pos: int)
    ensures pos == LastSeparator(s)
  {
    pos := |s| - 1;
    while pos >= 0 && s[pos] != SEPARATOR
      invariant -1 <= pos < |s| && forall i :: pos < i < |s| ==> s[i] != SEPARATOR
    {
      pos := pos - 1;
    }
    if pos >= 0 { SeparatorAt(s, pos); } else { NoSeparator(s); }
  }

  method ReadSymbols(s: seq<Byte>) returns (ok: bool, values: seq<Symbol>)
    ensures ok <==> AllSymbols(s)
    ensures ok ==> values == Symbols(s)
  {
    hide SymbolOf;
    values := [];
    for i := 0 to |s|
      invariant |values| == i && forall j :: 0 <= j < i ==> SymbolOf(s[j]) == Found(values[j])
    {
      var rev := SymbolOf(s[i]);
      if rev.Missing? { return false, []; }
      values := values + [rev.value];
    }
    ok := true;
  }

  method LowerAll(s: seq<Byte>) returns (r: seq<Byte>)
    ensures r == Lower(s)
  {
    hide LowerCase;
    r := [];
    for i := 0 to |s|
      invariant |r| == i && forall j :: 0 <= j < i ==> r[j] == LowerCase(s[j])
    {
      r := r + [LowerCase(s[i])];
    }
  }

  method VerifyChecksum(hrp: seq<Byte>, values: seq<Symbol>) returns (e: Encoding)
    ensures e == Verified(hrp, values)
  {
    hide Expanded, Run, Constant;
    var head := ExpandHrp(hrp);
    var check := PolyMod(head + values);
    e := if check == Constant(Plain) then Plain else if check == Constant(Modified) then Modified else Invalid;
  }

  // ----- round trips and error detection -----

  /** Decoding inverts encoding. */
  lemma DecodeEncoded(e: Encoding, hrp: seq<Byte>, values: seq<Symbol>)
    requires !e.Invalid? && hrp != [] && Printable(hrp) && Upperless(hrp) && |hrp| + |values| + 7 <= 90
    ensures Decoded(Encoded(e, hrp, values)) == Parsed(e, hrp, values)
  {
    hide Checksum, Verified, LastSeparator, ShapedAt;
    var all := values + Checksum(e, hrp, values);
    var chars, pos := Chars(all), |hrp|;
    var s := hrp + [SEPARATOR] + chars;
    CharsArePlain(all);
    forall i | pos < i < |s| ensures s[i] != SEPARATOR { assert s[i] == chars[i - pos - 1]; }
    SeparatorAt(s, pos);
    assert s[pos + 1..] == chars && s[..pos] == hrp;
    WholeShaped(hrp, chars);
    assert Lower(hrp) == hrp;
    ChecksumVerifies(e, hrp, values);
    assert all[..|all| - 6] == values;
  }

  lemma CharsArePlain(v: seq<Symbol>)
    ensures Printable(Chars(v)) && Upperless(Chars(v)) && AllSymbols(Chars(v)) && Symbols(Chars(v)) == v
    ensures forall i :: 0 <= i < |v| ==> Chars(v)[i] != SEPARATOR
  {
    hide CharOf, SymbolOf, IsUpper;
    var c := Chars(v);
    forall i | 0 <= i < |v|
      ensures 33 <= c[i] <= 126 && c[i] != SEPARATOR && !IsUpper(c[i]) && SymbolOf(c[i]) == Found(v[i])
    {
      CharIsPlain(v[i]);
      CharThenSymbol(v[i]);
    }
  }

  lemma WholeShaped(hrp: seq<Byte>, chars: seq<Byte>)
    requires hrp != [] && Printable(hrp) && Upperless(hrp) && Printable(chars) && Upperless(chars) && AllSymbols(chars)
    requires |chars| >= 6 && |hrp| + |chars| <= 89
    ensures ShapedAt(hrp + [SEPARATOR] + chars, |hrp|)
  {
    hide SymbolOf;
    var s := hrp + [SEPARATOR] + chars;
    forall i | 0 <= i < |s| ensures 33 <= s[i] <= 126 && !IsUpper(s[i]) {
      if i > |hrp| { assert s[i] == chars[i - |hrp| - 1]; }
    }
    assert s[|hrp| + 1..] == chars;
  }

  lemma DecodedParts(s: seq<Byte>)
    requires Decoded(s).Parsed?
    ensures var r, pos := Decoded(s), LastSeparator(s);
      && 0 < pos && pos + 7 <= |s| <= 90 && AllSymbols(s[pos + 1..]) && s[pos] == SEPARATOR
      && r.hrp == Lower(s[..pos]) && r.data == Symbols(s[pos + 1..])[..|s| - pos - 7]
      && Verified(r.hrp, Symbols(s[pos + 1..])) == r.encoding && !r.encoding.Invalid?
  {
    hide LastSeparator, Verified, AllSymbols, Symbols, Lower, Printable, HasUpper, HasLower;
  }

  /** Every accepted string is the encoding of what it decodes to, up to case. */
  lemma EncodeDecoded(s: seq<Byte>)
    requires Decoded(s).Parsed?
    ensures var r := Decoded(s); Encoded(r.encoding, r.hrp, r.data) == Lower(s)
  {
    hide Checksum, Verified, Chars, Symbols, Lower, LowerCase, Decoded, AllSymbols, LastSeparator;
    DecodedParts(s);
    var r := Decoded(s);
    var pos := LastSeparator(s);
    var tail := s[pos + 1..];
    var values := Symbols(tail);
    var n := |values| - 6;
    assert values == values[..n] + values[n..];
    ChecksumUnique(r.encoding, r.hrp, r.data, values[n..]);
    SymbolsBack(tail);
    assert s == s[..pos] + [SEPARATOR] + tail;
    LowerOfThree(s[..pos], tail);
  }

  lemma SymbolsBack(s: seq<Byte>)
    requires AllSymbols(s)
    ensures Chars(Symbols(s)) == Lower(s)
  {
    hide CharOf, SymbolOf, LowerCase;
    forall i | 0 <= i < |s| ensures Chars(Symbols(s))[i] == LowerCase(s[i]) { SymbolThenChar(s[i]); }
  }

  lemma LowerOfThree(a: seq<Byte>, b: seq<Byte>)
    ensures Lower(a + [SEPARATOR] + b) == Lower(a) + [SEPARATOR] + Lower(b)
  {
    assert LowerCase(SEPARATOR) == SEPARATOR;
    hide LowerCase;
  }

  /**
   * Changing some of up to six consecutive data characters of a valid string
   * never gives a string valid under the same encoding.
   */
  lemma ErrorsDetected(p: seq<Byte>, v: seq<Byte>, w: seq<Byte>, z: seq<Byte>)
    requires |v| == |w| <= 6 && Lower(v) != Lower(w) && SEPARATOR !in w
    requires Decoded(p + v + z).Parsed? && LastSeparator(p + v + z) < |p|
    ensures Decoded(p + w + z).Rejected? || Decoded(p + w + z).encoding != Decoded(p + v + z).encoding
  {
    hide LastSeparator, Lower, AllSymbols, Symbols, Verified, Decoded;
    var s, t := p + v + z, p + w + z;
    DecodedParts(s);
    var pos := LastSeparator(s);
    SameSeparator(p, v, w, z);
    if Decoded(t).Parsed? && Decoded(t).encoding == Decoded(s).encoding {
      DecodedParts(t);
      var q := p[pos + 1..];
      SplitAt(p, v, z, pos);
      SplitAt(p, w, z, pos);
      ThreeSymbols(q, v, z);
      ThreeSymbols(q, w, z);
      SymbolsApart(v, w);
      ChecksApart(Lower(p[..pos]), Symbols(q), Symbols(v), Symbols(w), Symbols(z));
    }
  }

  lemma SplitAt(p: seq<Byte>, v: seq<Byte>, z: seq<Byte>, pos: nat)
    requires pos < |p|
    ensures (p + v + z)[..pos] == p[..pos] && (p + v + z)[pos + 1..] == p[pos + 1..] + v + z
  {}

  lemma SameSeparator(p: seq<Byte>, v: seq<Byte>, w: seq<Byte>, z: seq<Byte>)
    requires |v| == |w| && SEPARATOR !in w && 0 <= LastSeparator(p + v + z) < |p|
    ensures LastSeparator(p + w + z) == LastSeparator(p + v + z)
  {
    hide LastSeparator;
    var s, t, pos := p + v + z, p + w + z, LastSeparator(p + v + z);
    forall i | pos < i < |t| ensures t[i] != SEPARATOR {
      assert i < |p| || i >= |p| + |v| ==> t[i] == s[i];
      assert |p| <= i < |p| + |w| ==> t[i] == w[i - |p|];
    }
    SeparatorAt(t, pos);
  }

  lemma ChecksApart(hrp: seq<Byte>, q: seq<Symbol>, v: seq<Symbol>, w: seq<Symbol>, z: seq<Symbol>)
    requires |v| == |w| <= 6 && v != w
    ensures var e := Verified(hrp, q + v + z); e.Invalid? || e != Verified(hrp, q + w + z)
  {
    hide Expanded, Run;
    var head := Expanded(hrp) + q;
    BurstDetected(1, head, v, w, z);
    assert Expanded(hrp) + (q + v + z) == head + v + z;
    assert Expanded(hrp) + (q + w + z) == head + w + z;
  }

  lemma ThreeSymbols(q: seq<Byte>, v: seq<Byte>, z: seq<Byte>)
    requires AllSymbols(q + v + z)
    ensures AllSymbols(q) && AllSymbols(v) && AllSymbols(z)
      && Symbols(q + v + z) == Symbols(q) + Symbols(v) + Symbols(z)
  {
    hide SymbolOf;
    var s := q + v + z;
    assert forall i :: 0 <= i < |q| ==> q[i] == s[i];
    assert forall i :: 0 <= i < |v| ==> v[i] == s[|q| + i];
    assert forall i :: 0 <= i < |z| ==> z[i] == s[|q| + |v| + i];
  }

  lemma SymbolsApart(v: seq<Byte>, w: seq<Byte>)
    requires |v| == |w| && AllSymbols(v) && AllSymbols(w) && Lower(v) != Lower(w)
    ensures Symbols(v) != Symbols(w)
  {
    hide Symbols, Lower, AllSymbols;
    SymbolsBack(v);
    SymbolsBack(w);
  }
}
