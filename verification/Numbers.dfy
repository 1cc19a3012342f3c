/**
 Printing and reading numbers: printnum (lib/printfmt.c:36-51) and strtol
 (lib/string.c:180-225), and their round trip.
 */
module Numbers {
  import opened Words

  const NUL: Byte := 0
  const SPACE: Byte := ' ' as int
  const ZERO: Byte := '0' as int
  const MINUS: Byte := '-' as int
  const PLUS: Byte := '+' as int
  const TAB: Byte := '\t' as int
  const LOWER_X: Byte := 'x' as int

  // "0123456789abcdef"[d]
  function Digit(d: nat): (c: Byte)
    requires d < 16
  {
    if d < 10 then ZERO + d else 'a' as int + (d - 10)
  }

  // The value of a character as a digit, if it is one.
  function DigitValue(c: Byte): (d: int)
    ensures -1 <= d < 36
  {
    if '0' as int <= c <= '9' as int then c - '0' as int
    else if 'a' as int <= c <= 'z' as int then c - 'a' as int + 10
    else if 'A' as int <= c <= 'Z' as int then c - 'A' as int + 10
    else -1
  }

  // ----- printing

  function Repeat(n: int, c: Byte): (s: seq<Byte>)
    ensures |s| == if n > 0 then n else 0
    ensures forall i :: 0 <= i < |s| ==> s[i] == c
  {
    if n > 0 then seq(n, _ => c) else []
  }

  // What printnum emits.
  function Num(n: nat, base: nat, width: int, padc: Byte): seq<Byte>
    requires 2 <= base <= 16
  {
    if n >= base then Num(n / base, base, width - 1, padc) + [Digit(n % base)]
    else Repeat(width - 1, padc) + [Digit(n)]
  }

  // The digits of n, most significant first.
  function Digits(n: nat, base: nat): (s: seq<Byte>)
    requires 2 <= base <= 16
    ensures |s| > 0
  {
    if n < base then [Digit(n)] else Digits(n / base, base) + [Digit(n % base)]
  }

  // printnum right-justifies the digits in the field, whatever the width.
  lemma {:induction false} NumIsPaddedDigits(n: nat, base: nat, width: int, padc: Byte)
    requires 2 <= base <= 16
    ensures Num(n, base, width, padc) == Repeat(width - |Digits(n, base)|, padc) + Digits(n, base)
  {
    if n >= base {
      NumIsPaddedDigits(n / base, base, width - 1, padc);
      var p, d := Repeat(width - |Digits(n, base)|, padc), Digits(n / base, base);
      assert Digits(n, base) == d + [Digit(n % base)];
      assert (p + d) + [Digit(n % base)] == p + (d + [Digit(n % base)]);
    } else {
      assert Digits(n, base) == [Digit(n)];
    }
  }

  // ----- reading

  // The value and the end of the digits of s from position i on, val being read already.
  function ReadDigits(s: seq<Byte>, i: nat, base: nat, val: Int32): (Int32, nat)
    requires i <= |s|
    decreases |s| - i
  {
    if i < |s| && 0 <= DigitValue(s[i]) < base then
      ReadDigits(s, i + 1, base, Wrap32(val * base + DigitValue(s[i])))
    else (val, i)
  }

  function SkipBlanks(s: seq<Byte>, i: nat): (j: nat)
    requires i <= |s|
    ensures i <= j <= |s|
    decreases |s| - i
  {
    if i < |s| && (s[i] == SPACE || s[i] == TAB) then SkipBlanks(s, i + 1) else i
  }

  predicate CharAt(s: seq<Byte>, i: nat, c: Byte) { i < |s| && s[i] == c }

  // Behind a hex or octal prefix at position j, if there is one, and the base of the digits.
  function Prefix(s: seq<Byte>, j: nat, base: nat): (r: (nat, nat))
    requires j <= |s|
    ensures j <= r.0 <= |s|
  {
    if (base == 0 || base == 16) && CharAt(s, j, ZERO) && CharAt(s, j + 1, LOWER_X) then (j + 2, 16)
    else if base == 0 && CharAt(s, j, ZERO) then (j + 1, 8)
    else (j, if base == 0 then 10 else base)
  }

  // strtol on the characters of a string before its NUL: the value and the end position.
  function Strtol(s: seq<Byte>, base: nat): (Int32, nat) {
    var i := SkipBlanks(s, 0);
    var neg := CharAt(s, i, MINUS);
    var j := if neg || CharAt(s, i, PLUS) then i + 1 else i;
    var (k, b) := Prefix(s, j, base);
    var (val, end) := ReadDigits(s, k, b, 0);
    (if neg then Wrap32(-(val as int)) else val, end)
  }

  // ----- the round trip

  // The number that a run of digits denotes, after the number v.
  ghost function ValueOf(s: seq<Byte>, base: nat, v: nat): nat {
    if s == [] then v else ValueOf(s[1..], base, v * base + (if DigitValue(s[0]) >= 0 then DigitValue(s[0]) else 0))
  }

  ghost predicate AllDigits(s: seq<Byte>, base: nat) {
    forall i :: 0 <= i < |s| ==> 0 <= DigitValue(s[i]) < base
  }

  lemma {:induction false} ReadsValue(s: seq<Byte>, i: nat, base: nat, v: nat)
    requires i <= |s| && AllDigits(s, base)
    ensures ReadDigits(s, i, base, Wrap32(v)) == (Wrap32(ValueOf(s[i..], base, v)), |s|)
    decreases |s| - i
  {
    if i < |s| {
      var d := DigitValue(s[i]);
      assert s[i..][1..] == s[i + 1..];
      WrapStep(v, base, d);
      ReadsValue(s, i + 1, base, v * base + d);
    }
  }

  // Reducing before or after the multiplication is the same.
  lemma WrapStep(v: nat, base: nat, d: nat)
    ensures Wrap32(Wrap32(v) * base + d) == Wrap32(v * base + d)
  {
    var q := (v + 0x8000_0000) / TWO32;
    assert Wrap32(v) == v - q * TWO32;
    WrapMultiple(v * base + d, q * base);
    assert Wrap32(v) * base + d == v * base + d - (q * base) * TWO32;
  }

  lemma WrapMultiple(x: int, k: int)
    ensures Wrap32(x - k * TWO32) == Wrap32(x)
  {
    ModMultiple(x + 0x8000_0000, k);
  }

  lemma ModMultiple(x: int, k: int)
    ensures (x - k * TWO32) % TWO32 == x % TWO32
  {
  }

  lemma {:induction false} ValueOfConcat(s: seq<Byte>, t: seq<Byte>, base: nat, v: nat)
    ensures ValueOf(s + t, base, v) == ValueOf(t, base, ValueOf(s, base, v))
  {
    if s == [] {
      assert s + t == t;
    } else {
      assert (s + t)[1..] == s[1..] + t;
      ValueOfConcat(s[1..], t, base, v * base + (if DigitValue(s[0]) >= 0 then DigitValue(s[0]) else 0));
    }
  }

  lemma {:induction false} DigitsAreDigits(n: nat, base: nat)
    requires 2 <= base <= 16
    ensures AllDigits(Digits(n, base), base)
  {
    DivMod(n, base);
    OneDigit(0, n % base, base);
    if n >= base {
      DigitsAreDigits(n / base, base);
      OneMoreDigit(Digits(n / base, base), Digit(n % base), base);
    } else {
      OneDigit(0, n, base);
    }
  }

  lemma OneMoreDigit(s: seq<Byte>, c: Byte, base: nat)
    requires AllDigits(s, base) && 0 <= DigitValue(c) < base
    ensures AllDigits(s + [c], base)
  {
  }

  lemma DivMod(n: nat, base: nat)
    requires base >= 2
    ensures n / base * base + n % base == n && n % base < base && (n >= base ==> n / base < n)
  {
  }

  lemma DivSmall(n: nat, base: nat)
    requires n < base
    ensures n % base == n
  {
  }

  // The digits of n denote n.
  lemma {:induction false} DigitsDenote(n: nat, base: nat)
    requires 2 <= base <= 16
    ensures ValueOf(Digits(n, base), base, 0) == n && AllDigits(Digits(n, base), base)
  {
    DigitsAreDigits(n, base);
    DivMod(n, base);
    if n >= base {
      DigitsDenote(n / base, base);
      ValueOfConcat(Digits(n / base, base), [Digit(n % base)], base, 0);
      OneDigit(n / base, n % base, base);
    } else {
      OneDigit(0, n, base);
    }
  }

  lemma OneDigit(v: nat, d: nat, base: nat)
    requires d < base <= 16
    ensures DigitValue(Digit(d)) == d && ValueOf([Digit(d)], base, v) == v * base + d
  {
    assert [Digit(d)][1..] == [];
  }

  lemma {:induction false} ZerosDenote(k: nat, base: nat)
    ensures ValueOf(Repeat(k, ZERO), base, 0) == 0
  {
    if k > 0 {
      assert Repeat(k, ZERO)[1..] == Repeat(k - 1, ZERO);
      ZerosDenote(k - 1, base);
    }
  }

  lemma AllDigitsConcat(s: seq<Byte>, t: seq<Byte>, base: nat)
    requires AllDigits(s, base) && AllDigits(t, base)
    ensures AllDigits(s + t, base)
  {
    forall i | 0 <= i < |s + t| ensures 0 <= DigitValue((s + t)[i]) < base {
      if i >= |s| { assert (s + t)[i] == t[i - |s|]; }
    }
  }

  lemma ReadsAll(s: seq<Byte>, base: nat)
    requires AllDigits(s, base)
    ensures ReadDigits(s, 0, base, 0) == (Wrap32(ValueOf(s, base, 0)), |s|)
  {
    ReadsValue(s, 0, base, 0);
    assert s[0..] == s;
  }

  lemma PaddedDenotes(n: nat, base: nat, k: nat)
    requires 2 <= base <= 16
    ensures var s := Repeat(k, ZERO) + Digits(n, base); AllDigits(s, base) && ValueOf(s, base, 0) == n
  {
    DigitsDenote(n, base);
    ZerosDenote(k, base);
    ValueOfConcat(Repeat(k, ZERO), Digits(n, base), base, 0);
    AllDigitsConcat(Repeat(k, ZERO), Digits(n, base), base);
  }

  // Leading zeros or not, the digits read back as the number.
  lemma ZeroPaddedReads(n: nat, base: nat, k: nat)
    requires 2 <= base <= 16
    ensures AllDigits(Repeat(k, ZERO) + Digits(n, base), base)
    ensures ReadDigits(Repeat(k, ZERO) + Digits(n, base), 0, base, 0) == (Wrap32(n), k + |Digits(n, base)|)
  {
    PaddedDenotes(n, base, k);
    ReadsAll(Repeat(k, ZERO) + Digits(n, base), base);
  }

  // ----- whole conversions

  lemma {:induction false} BlanksSkipped(s: seq<Byte>, i: nat, k: nat)
    requires i <= k < |s| && (forall j :: i <= j < k ==> s[j] == SPACE) && s[k] != SPACE && s[k] != TAB
    ensures SkipBlanks(s, i) == k
    decreases k - i
  {
    if i < k { BlanksSkipped(s, i + 1, k); }
  }

  // Reading digits depends on nothing before them.
  lemma {:induction false} ReadShift(p: seq<Byte>, s: seq<Byte>, i: nat, base: nat, v: Int32)
    requires i <= |s|
    ensures ReadDigits(p + s, |p| + i, base, v) == (ReadDigits(s, i, base, v).0, |p| + ReadDigits(s, i, base, v).1)
    decreases |s| - i
  {
    if i < |s| {
      assert (p + s)[|p| + i] == s[i];
      if 0 <= DigitValue(s[i]) < base { ReadShift(p, s, i + 1, base, Wrap32(v * base + DigitValue(s[i]))); }
    }
  }

  predicate IsPadding(c: Byte) { c == SPACE || c == ZERO }

  // An unsigned conversion in any base, padded with blanks or zeros to any
  // width, reads back in that base as the number modulo 2^32.
  lemma UnsignedRoundTrip(n: nat, base: nat, width: int, padc: Byte)
    requires 2 <= base <= 16 && IsPadding(padc)
    ensures |Num(n, base, width, padc)| == if width > |Digits(n, base)| then width else |Digits(n, base)|
    ensures Strtol(Num(n, base, width, padc), base) == (Wrap32(n), |Num(n, base, width, padc)|)
  {
    var d := Digits(n, base);
    var k := |Repeat(width - |d|, padc)|;
    NumIsPaddedDigits(n, base, width, padc);
    DigitsDenote(n, base);
    if padc == SPACE {
      PaddedByBlanks(n, base, k);
    } else {
      PaddedByZeros(n, base, k);
    }
  }

  lemma FirstDigit(n: nat, base: nat, s: seq<Byte>)
    requires 2 <= base <= 16 && AllDigits(s, base) && s != []
    ensures s[0] != SPACE && s[0] != TAB && s[0] != MINUS && s[0] != PLUS
    ensures !CharAt(s, 1, LOWER_X)
  {
    assert 0 <= DigitValue(s[0]) < base;
    if |s| > 1 { assert 0 <= DigitValue(s[1]) < base; }
  }

  lemma PaddedByBlanks(n: nat, base: nat, k: nat)
    requires 2 <= base <= 16
    ensures Strtol(Repeat(k, SPACE) + Digits(n, base), base) == (Wrap32(n), k + |Digits(n, base)|)
  {
    DigitsDenote(n, base);
    FirstDigit(n, base, Digits(n, base));
    BlanksBefore(Repeat(k, SPACE), Digits(n, base), base);
    DigitsRead(n, base);
    ReadsBehind(Repeat(k, SPACE), Digits(n, base), 0, base, 0, Wrap32(n));
  }

  lemma ReadsBehind(p: seq<Byte>, d: seq<Byte>, i: nat, base: nat, u: Int32, v: Int32)
    requires i == 0 && ReadDigits(d, i, base, u) == (v, |d|)
    ensures ReadDigits(p + d, |p|, base, u) == (v, |p| + |d|)
  {
    ReadShift(p, d, i, base, u);
  }

  lemma DigitsRead(n: nat, base: nat)
    requires 2 <= base <= 16
    ensures ReadDigits(Digits(n, base), 0, base, 0) == (Wrap32(n), |Digits(n, base)|)
  {
    DigitsDenote(n, base);
    ReadsAll(Digits(n, base), base);
  }

  // Blanks and no sign or prefix: the digits are read right behind the blanks.
  lemma BlanksBefore(p: seq<Byte>, d: seq<Byte>, base: nat)
    requires (forall i :: 0 <= i < |p| ==> p[i] == SPACE) && d != [] && base > 0
    requires d[0] != SPACE && d[0] != TAB && d[0] != MINUS && d[0] != PLUS && !CharAt(d, 1, LOWER_X)
    ensures Strtol(p + d, base) == ReadDigits(p + d, |p|, base, 0)
  {
    var s := p + d;
    assert s[|p|] == d[0] && (|d| > 1 ==> s[|p| + 1] == d[1]);
    BlanksSkipped(s, 0, |p|);
  }

  lemma PaddedByZeros(n: nat, base: nat, k: nat)
    requires 2 <= base <= 16
    ensures Strtol(Repeat(k, ZERO) + Digits(n, base), base) == (Wrap32(n), k + |Digits(n, base)|)
  {
    var s := Repeat(k, ZERO) + Digits(n, base);
    ZeroPaddedReads(n, base, k);
    FirstDigit(n, base, s);
    BlanksBefore([], s, base);
    assert [] + s == s;
  }

  // What %d emits: the sign comes before the padding.
  function Signed(v: int, width: int, padc: Byte): seq<Byte> {
    if v < 0 then [MINUS] + Num(-v, 10, width, padc) else Num(v, 10, width, padc)
  }

  // What %p emits: the prefix comes before the padding.
  function Pointer(p: nat, width: int, padc: Byte): seq<Byte> {
    [ZERO, LOWER_X] + Num(p, 16, width, padc)
  }

  // The padding leaves no blank between the prefix and the digits.
  predicate Joined(n: nat, base: nat, width: int, padc: Byte)
    requires 2 <= base <= 16
  {
    padc == ZERO || width <= |Digits(n, base)|
  }

  // Reading at the digits, or at the blanks in front of them.
  lemma ReadPadded(pre: seq<Byte>, n: nat, base: nat, width: int, padc: Byte)
    requires 2 <= base <= 16 && IsPadding(padc)
    ensures ReadDigits(pre + Num(n, base, width, padc), |pre|, base, 0) ==
      if Joined(n, base, width, padc) then (Wrap32(n), |pre + Num(n, base, width, padc)|) else (0, |pre|)
  {
    var d := Digits(n, base);
    var k := |Repeat(width - |d|, padc)|;
    var s := Num(n, base, width, padc);
    NumIsPaddedDigits(n, base, width, padc);
    ReadShift(pre, s, 0, base, 0);
    if Joined(n, base, width, padc) {
      assert s == Repeat(k, ZERO) + d;
      ZeroPaddedReads(n, base, k);
    } else {
      assert s[0] == SPACE;
    }
  }

  // %d reads back in base 10 exactly if no blank comes between sign and digits.
  lemma SignedRoundTrip(v: Int32, width: int, padc: Byte)
    requires IsPadding(padc)
    ensures Strtol(Signed(v, width, padc), 10).0 == v <==> (v >= 0 || Joined(-(v as int), 10, width, padc))
  {
    if v >= 0 {
      UnsignedRoundTrip(v, 10, width, padc);
    } else {
      NegativeReads(-(v as int), width, padc);
    }
  }

  lemma NegativeReads(n: nat, width: int, padc: Byte)
    requires IsPadding(padc) && 0 < n <= 0x8000_0000
    ensures Strtol([MINUS] + Num(n, 10, width, padc), 10).0 == -(n as int) <==> Joined(n, 10, width, padc)
  {
    SignRead(Num(n, 10, width, padc));
    ReadPadded([MINUS], n, 10, width, padc);
    WrapNegated(n);
  }

  lemma SignRead(s: seq<Byte>)
    ensures Strtol([MINUS] + s, 10).0 == Wrap32(-(ReadDigits([MINUS] + s, 1, 10, 0).0 as int))
  {
    assert ([MINUS] + s)[0] == MINUS;
    BlanksSkipped([MINUS] + s, 0, 0);
  }

  lemma WrapNegated(n: nat)
    requires n <= 0x8000_0000
    ensures Wrap32(-(Wrap32(n) as int)) == -(n as int) && Wrap32(0) == 0
  {
  }

  // %p reads back in base 16 exactly if no blank comes between prefix and digits,
  // or the pointer is null.
  lemma PointerRoundTrip(p: nat, width: int, padc: Byte)
    requires IsPadding(padc) && p < TWO32
    ensures Strtol(Pointer(p, width, padc), 16).0 == Wrap32(p) <==> (p == 0 || Joined(p, 16, width, padc))
  {
    var s := Pointer(p, width, padc);
    assert s[0] == ZERO && s[1] == LOWER_X;
    BlanksSkipped(s, 0, 0);
    ReadPadded([ZERO, LOWER_X], p, 16, width, padc);
  }

  // ----- strtol as it moves along the string

  // A C string: it ends at the NUL in its last cell, and nothing behind that can be read.
  ghost predicate IsString(s: array<Byte>)
    reads s
  {
    s.Length > 0 && s[s.Length - 1] == NUL && forall i :: 0 <= i < s.Length - 1 ==> s[i] != NUL
  }

  ghost function Text(s: array<Byte>): seq<Byte>
    requires s.Length > 0
    reads s
  {
    s[..s.Length - 1]
  }

  method ParseBlanks(s: array<Byte>) returns (i: nat)
    requires IsString(s)
    ensures i < s.Length && i == SkipBlanks(Text(s), 0)
  {
    i := 0;
    while s[i] == SPACE || s[i] == TAB
      invariant i < s.Length && SkipBlanks(Text(s), i) == SkipBlanks(Text(s), 0)
      decreases s.Length - i
    {
      i := i + 1;
    }
  }

  method ParseDigits(s: array<Byte>, from: nat, base: nat) returns (val: Int32, i: nat)
    requires IsString(s) && from < s.Length
    ensures (val, i) == ReadDigits(Text(s), from, base, 0)
  {
    i, val := from, 0;
    while true
      invariant i < s.Length && ReadDigits(Text(s), i, base, val) == ReadDigits(Text(s), from, base, 0)
      decreases s.Length - i
    {
      var dig := DigitValue(s[i]);
      if dig < 0 || dig >= base {
        break;
      }
      i, val := i + 1, Wrap32(val * base + dig);
    }
  }

  // Behind a prefix 0x or 0, with the base that it stands for.
  method ParsePrefix(s: array<Byte>, j: nat, radix: nat) returns (i: nat, base: nat)
    requires IsString(s) && j < s.Length
    ensures (i, base) == Prefix(Text(s), j, radix) && i < s.Length
  {
    i, base := j, radix;
    if (base == 0 || base == 16) && s[i] == ZERO && s[i + 1] == LOWER_X {
      i, base := i + 2, 16;
    } else if base == 0 && s[i] == ZERO {
      i, base := i + 1, 8;
    } else if base == 0 {
      base := 10;
    }
  }

  // strtol
  method ParseLong(s: array<Byte>, radix: nat) returns (val: Int32, end: nat)
    requires IsString(s)
    ensures (val, end) == Strtol(Text(s), radix)
  {
    var base, neg := radix, false;
    var i := ParseBlanks(s);
    // an optional sign
    if s[i] == PLUS {
      i := i + 1;
    } else if s[i] == MINUS {
      i, neg := i + 1, true;
    }
    i, base := ParsePrefix(s, i, radix);
    val, end := ParseDigits(s, i, base);
    if neg {
      val := Wrap32(-(val as int));
    }
  }
}
