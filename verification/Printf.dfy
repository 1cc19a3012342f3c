/**
 The format scanner (lib/printfmt.c:84-245) on values: what vprintfmt emits for a
 format and its arguments.
 */
module Formats {
  import opened Words
  import opened Numbers

  type Int64 = x: int | -0x8000_0000_0000_0000 <= x < 0x8000_0000_0000_0000

  // One variadic argument.  A string is its text, null for a null pointer.
  datatype Arg = Int(i: Int32) | Wide(w: Int64) | Str(s: Option<seq<Byte>>) | Ptr(p: nat)


  const PERCENT: Byte := '%' as int
  const QUESTION: Byte := '?' as int
  const STAR: Byte := '*' as int
  const MAXERROR: nat := 7
  const INT_MAX: int := 0x7FFF_FFFF

  datatype Flags = Flags(padc: Byte, width: int, precision: int, lflag: nat, alt: bool)

  const NO_FLAGS := Flags(SPACE, -1, -1, 0, false)

  // The character of a string at position i; its text is followed by NUL.
  function At(fmt: seq<Byte>, i: nat): Byte
    requires i <= |fmt|
  {
    if i < |fmt| then fmt[i] else NUL
  }

  function Chars(s: string): (b: seq<Byte>)
    requires forall i :: 0 <= i < |s| ==> s[i] as int < 256
    ensures |b| == |s| && forall i :: 0 <= i < |s| ==> b[i] == s[i] as int
  {
    seq(|s|, i requires 0 <= i < |s| => s[i] as int)
  }

  // error_string: the codes without an entry are printed as numbers.
  function ErrorText(err: nat): seq<Byte> {
    if err == 1 then Chars("unspecified error")
    else if err == 2 then Chars("bad environment")
    else if err == 3 then Chars("invalid parameter")
    else if err == 4 then Chars("out of memory")
    else if err == 5 then Chars("out of environments")
    else if err == 6 then Chars("segmentation fault")
    else Chars("error ") + Signed(err, -1, SPACE)
  }

  // ----- one conversion

  // The characters of a string that %s prints.
  function Shown(c: Byte, alt: bool): Byte {
    if alt && (c < ' ' as int || c > '~' as int) then QUESTION else c
  }

  function ShownText(s: seq<Byte>, alt: bool): (r: seq<Byte>)
    ensures |r| == |s|
  {
    seq(|s|, i requires 0 <= i < |s| => Shown(s[i], alt))
  }

  function Cut(s: seq<Byte>, precision: int): seq<Byte> {
    if precision < 0 || |s| <= precision then s else s[..precision]
  }

  // %s: padded on the left, or on the right with the '-' flag.
  function StringOut(s: seq<Byte>, f: Flags): seq<Byte> {
    var body := ShownText(Cut(s, f.precision), f.alt);
    if f.width > 0 && f.padc != MINUS then Repeat(f.width - |body|, f.padc) + body
    else body + Repeat(f.width - |body|, SPACE)
  }

  // What a conversion emits and the arguments it leaves.  Undefined: the
  // arguments do not fit the format.  Literal: no such conversion.
  datatype Conversion = Out(text: seq<Byte>, rest: seq<Arg>) | Undefined | Literal

  function IntArg(args: seq<Arg>, lflag: nat): Option<int> {
    if args == [] then None
    else if lflag >= 2 && args[0].Wide? then Some(args[0].w as int)
    else if lflag < 2 && args[0].Int? then Some(args[0].i as int)
    else None
  }

  // The unsigned number with the same bits.
  function Unsigned(v: int, lflag: nat): nat {
    v % (if lflag >= 2 then 0x1_0000_0000_0000_0000 else 0x1_0000_0000)
  }

  function Convert(ch: Byte, f: Flags, args: seq<Arg>): Conversion {
    if ch == 'c' as int then
      (if args != [] && args[0].Int? then Out([args[0].i % 256], args[1..]) else Undefined)
    else if ch == 'e' as int then
      (if args != [] && args[0].Int? && args[0].i != -0x8000_0000 then
         Out(ErrorText(if args[0].i < 0 then -(args[0].i as int) else args[0].i), args[1..])
       else Undefined)
    else if ch == 's' as int then
      (if args != [] && args[0].Str? then
         Out(StringOut(if args[0].s.None? then Chars("(null)") else args[0].s.value, f), args[1..])
       else Undefined)
    else if ch == 'd' as int then
      (match IntArg(args, f.lflag)
       case Some(v) => Out(Signed(v, f.width, f.padc), args[1..])
       case None => Undefined)
    else if ch == 'u' as int || ch == 'x' as int then
      (match IntArg(args, f.lflag)
       case Some(v) => Out(Num(Unsigned(v, f.lflag), if ch == 'u' as int then 10 else 16, f.width, f.padc), args[1..])
       case None => Undefined)
    else if ch == 'o' as int then Out(Chars("XXX"), args)  // not implemented there, and takes no argument
    else if ch == 'p' as int then
      (if args != [] && args[0].Ptr? then Out(Pointer(args[0].p % 0x1_0000_0000, f.width, f.padc), args[1..]) else Undefined)
    else if ch == PERCENT then Out([PERCENT], args)
    else Literal
  }

  // ----- flags

  predicate IsDigit(c: Byte) { '0' as int <= c <= '9' as int }

  // The number at position i, after value v, and the position behind it.
  function ReadNumber(fmt: seq<Byte>, i: nat, v: nat): (r: (nat, nat))
    requires i <= |fmt|
    ensures i <= r.1 <= |fmt| && forall j :: i <= j < r.1 ==> IsDigit(fmt[j])
    decreases |fmt| - i
  {
    if i < |fmt| && IsDigit(fmt[i]) then ReadNumber(fmt, i + 1, v * 10 + (fmt[i] - '0' as int)) else (v, i)
  }

  // process_precision
  function WithNumber(f: Flags, n: int): Flags {
    if f.width < 0 then f.(width := n, precision := -1) else f.(precision := n)
  }

  predicate IsPlainFlag(c: Byte) {
    c == MINUS || c == ZERO || c == '.' as int || c == '#' as int || c == 'l' as int
  }

  predicate IsFlag(c: Byte) { IsPlainFlag(c) || IsDigit(c) || c == STAR }

  // What a flag that is no number makes of the flags so far.
  function WithFlag(f: Flags, ch: Byte, args: seq<Arg>): Flags
    requires ch == STAR ==> args != [] && args[0].Int?
  {
    if ch == MINUS then f.(padc := MINUS)
    else if ch == ZERO then f.(padc := ZERO)
    else if ch == STAR then WithNumber(f, args[0].i)
    else if ch == '.' as int then (if f.width < 0 then f.(width := 0) else f)
    else if ch == '#' as int then f.(alt := true)
    else f.(lflag := f.lflag + 1)
  }

  // An escape: what it emits, where the scan goes on, and the arguments left.
  datatype Escape = Escape(text: seq<Byte>, next: nat, rest: seq<Arg>) | Broken

  // The escape whose '%' is just before position own, from position i on.
  // After an unknown conversion the scan goes back to own.
  function ScanEscape(fmt: seq<Byte>, own: nat, i: nat, f: Flags, args: seq<Arg>): (e: Escape)
    requires own <= i <= |fmt|
    ensures e.Escape? ==> own <= e.next <= |fmt|
    decreases |fmt| - i
  {
    var ch := At(fmt, i);
    if IsDigit(ch) && ch != ZERO then
      var (n, j) := ReadNumber(fmt, i + 1, ch - '0' as int);
      if n > INT_MAX then Broken else ScanEscape(fmt, own, j, WithNumber(f, n), args)
    else if ch == STAR && (args == [] || !args[0].Int?) then Broken
    else if IsFlag(ch) then
      ScanEscape(fmt, own, i + 1, WithFlag(f, ch, args), if ch == STAR then args[1..] else args)
    else
      match Convert(ch, f, args)
      case Out(text, rest) => Escape(text, i + 1, rest)
      case Undefined => Broken
      case Literal => Escape([PERCENT], own, args)
  }

  // No '%' from position lo up to hi.
  predicate NoPercent(s: seq<Byte>, lo: nat, hi: nat) {
    forall j :: lo <= j < hi && j < |s| ==> s[j] != PERCENT
  }

  lemma NumberNoPercent(fmt: seq<Byte>, own: nat, i: nat)
    requires own <= i < |fmt| && NoPercent(fmt, own, i) && IsDigit(fmt[i])
    ensures NoPercent(fmt, own, i + 1) && NoPercent(fmt, own, ReadNumber(fmt, i + 1, fmt[i] - '0' as int).1)
  {
  }

  lemma ScanNumber(fmt: seq<Byte>, own: nat, i: nat, f: Flags, args: seq<Arg>)
    requires own <= i < |fmt| && IsDigit(fmt[i]) && fmt[i] != ZERO
    ensures var (n, j) := ReadNumber(fmt, i + 1, fmt[i] - '0' as int);
      ScanEscape(fmt, own, i, f, args) == if n > INT_MAX then Broken else ScanEscape(fmt, own, j, WithNumber(f, n), args)
  {
  }

  lemma ScanFlag(fmt: seq<Byte>, own: nat, i: nat, f: Flags, args: seq<Arg>)
    requires own <= i < |fmt| && IsFlag(fmt[i]) && (IsDigit(fmt[i]) ==> fmt[i] == ZERO)
    ensures ScanEscape(fmt, own, i, f, args) ==
      if fmt[i] == STAR && (args == [] || !args[0].Int?) then Broken
      else ScanEscape(fmt, own, i + 1, WithFlag(f, fmt[i], args), if fmt[i] == STAR then args[1..] else args)
  {
  }

  // What vprintfmt emits from position i on; None if the arguments do not fit.
  function Emit(fmt: seq<Byte>, i: nat, args: seq<Arg>): Option<seq<Byte>>
    requires i <= |fmt|
    decreases |fmt| - i
  {
    if i == |fmt| then Some([])
    else if fmt[i] != PERCENT then
      match Emit(fmt, i + 1, args)
      case Some(out) => Some([fmt[i]] + out)
      case None => None
    else
      match ScanEscape(fmt, i + 1, i + 1, NO_FLAGS, args)
      case Broken => None
      case Escape(text, next, rest) =>
        match Emit(fmt, next, rest)
        case Some(out) => Some(text + out)
        case None => None
  }

  // ----- properties of formats

  // A text with every '%' doubled.
  function Quote(t: seq<Byte>): seq<Byte> {
    if t == [] then [] else (if t[0] == PERCENT then [PERCENT, PERCENT] else [t[0]]) + Quote(t[1..])
  }

  // Quoting protects any text: the format prints it as it is and takes no argument.
  lemma {:induction false} QuotePrintsText(p: seq<Byte>, t: seq<Byte>, args: seq<Arg>)
    ensures Emit(p + Quote(t), |p|, args) == Some(t)
    decreases |t|
  {
    var fmt := p + Quote(t);
    if t != [] {
      var piece := if t[0] == PERCENT then [PERCENT, PERCENT] else [t[0]];
      assert (p + piece) + Quote(t[1..]) == fmt;
      QuotePrintsText(p + piece, t[1..], args);
      assert fmt[|p|] == t[0];
      if t[0] == PERCENT {
        assert fmt[|p| + 1] == PERCENT;
        assert ScanEscape(fmt, |p| + 1, |p| + 1, NO_FLAGS, args) == Escape([PERCENT], |p| + 2, args);
      }
      assert t == [t[0]] + t[1..];
    }
  }

  // The arguments that the flags from i to k take.
  function Stars(fmt: seq<Byte>, i: nat, k: nat): nat
    requires k <= |fmt|
    decreases k - i
  {
    if i >= k then 0 else (if fmt[i] == STAR then 1 else 0) + Stars(fmt, i + 1, k)
  }

  // Each '*' among the flags has an int, and no number is too large for one.
  predicate FlagsFit(fmt: seq<Byte>, i: nat, k: nat, args: seq<Arg>)
    requires k <= |fmt|
    decreases k - i
  {
    if i >= k then true
    else if fmt[i] == STAR then args != [] && args[0].Int? && FlagsFit(fmt, i + 1, k, args[1..])
    else if IsDigit(fmt[i]) && fmt[i] != ZERO then
      var (n, j) := ReadNumber(fmt, i + 1, fmt[i] - '0' as int);
      n <= INT_MAX && FlagsFit(fmt, j, k, args)
    else FlagsFit(fmt, i + 1, k, args)
  }

  lemma {:induction false} DigitsTakeNothing(fmt: seq<Byte>, i: nat, j: nat, k: nat)
    requires i <= j <= k <= |fmt| && forall x :: i <= x < j ==> IsDigit(fmt[x])
    ensures Stars(fmt, i, k) == Stars(fmt, j, k)
    decreases j - i
  {
    if i < j { DigitsTakeNothing(fmt, i + 1, j, k); }
  }

  lemma {:induction false} FitTakesArguments(fmt: seq<Byte>, i: nat, k: nat, args: seq<Arg>)
    requires k <= |fmt| && !IsDigit(At(fmt, k)) && FlagsFit(fmt, i, k, args)
    ensures Stars(fmt, i, k) <= |args|
    decreases k - i
  {
    if i < k {
      if fmt[i] == STAR {
        FitTakesArguments(fmt, i + 1, k, args[1..]);
      } else if IsDigit(fmt[i]) && fmt[i] != ZERO {
        var j := ReadNumber(fmt, i + 1, fmt[i] - '0' as int).1;
        DigitsTakeNothing(fmt, i, if j <= k then j else k, k);
        FitTakesArguments(fmt, j, k, args);
      } else {
        FitTakesArguments(fmt, i + 1, k, args);
      }
    }
  }

  lemma {:induction false} FlagsBeforeUnknown(fmt: seq<Byte>, own: nat, i: nat, k: nat, f: Flags, args: seq<Arg>)
    requires own <= i <= k <= |fmt| && (forall j :: i <= j < k ==> IsFlag(fmt[j])) && IsUnknown(At(fmt, k))
    ensures FlagsFit(fmt, i, k, args) ==> Stars(fmt, i, k) <= |args|
    ensures ScanEscape(fmt, own, i, f, args) ==
      if FlagsFit(fmt, i, k, args) then Escape([PERCENT], own, args[Stars(fmt, i, k)..]) else Broken
    decreases k - i
  {
    if FlagsFit(fmt, i, k, args) { FitTakesArguments(fmt, i, k, args); }
    if i < k {
      var ch := fmt[i];
      if IsDigit(ch) && ch != ZERO {
        var (n, j) := ReadNumber(fmt, i + 1, ch - '0' as int);
        NumberEnds(fmt, i + 1, k, j);
        DigitsTakeNothing(fmt, i, j, k);
        FlagsBeforeUnknown(fmt, own, j, k, WithNumber(f, n), args);
      } else if ch != STAR || (args != [] && args[0].Int?) {
        FlagsBeforeUnknown(fmt, own, i + 1, k, WithFlag(f, ch, args), if ch == STAR then args[1..] else args);
      }
    }
  }

  // A number ends at the first character that is no digit.
  lemma NumberEnds(fmt: seq<Byte>, i: nat, k: nat, j: nat)
    requires i <= k <= |fmt| && i <= j <= |fmt| && !IsDigit(At(fmt, k)) && forall x :: i <= x < j ==> IsDigit(fmt[x])
    ensures j <= k
  {
  }

  // A character that no conversion knows, or the end of the format.
  predicate IsUnknown(c: Byte) {
    && !IsFlag(c) && c != PERCENT
    && c != 'c' as int && c != 'e' as int && c != 's' as int && c != 'd' as int
    && c != 'u' as int && c != 'x' as int && c != 'o' as int && c != 'p' as int
  }

  // An escape with an unknown conversion is printed literally, flags and all:
  // its '%' now, the rest as ordinary text.  The arguments of its '*' are gone.
  lemma UnknownEscapeIsLiteral(fmt: seq<Byte>, i: nat, k: nat, args: seq<Arg>)
    requires i < k <= |fmt| && fmt[i] == PERCENT
    requires (forall j :: i < j < k ==> IsFlag(fmt[j])) && IsUnknown(At(fmt, k))
    ensures FlagsFit(fmt, i + 1, k, args) ==> Stars(fmt, i + 1, k) <= |args|
    ensures Emit(fmt, i, args) ==
      if !FlagsFit(fmt, i + 1, k, args) then None
      else
        match Emit(fmt, i + 1, args[Stars(fmt, i + 1, k)..])
        case Some(out) => Some([PERCENT] + out)
        case None => None
  {
    FlagsBeforeUnknown(fmt, i + 1, i + 1, k, NO_FLAGS, args);
  }

  // fmt has the digits d at position i, and no digit behind them.
  predicate DigitsAt(fmt: seq<Byte>, i: nat, d: seq<Byte>) {
    && i + |d| <= |fmt| && (forall k :: 0 <= k < |d| ==> fmt[i + k] == d[k] && IsDigit(d[k]))
    && !IsDigit(At(fmt, i + |d|))
  }

  lemma {:induction false} ReadsDigits(fmt: seq<Byte>, i: nat, d: seq<Byte>, k: nat, v: nat)
    requires DigitsAt(fmt, i, d) && k <= |d|
    ensures ReadNumber(fmt, i + k, v) == (ValueOf(d[k..], 10, v), i + |d|)
    decreases |d| - k
  {
    if k < |d| {
      assert fmt[i + k] == d[k] && DigitValue(d[k]) == d[k] - '0' as int;
      assert d[k..][1..] == d[k + 1..];
      ReadsDigits(fmt, i, d, k + 1, v * 10 + DigitValue(d[k]));
    }
  }

  lemma {:induction false} LeadingDigit(n: nat)
    requires n > 0
    ensures Digits(n, 10)[0] != ZERO
  {
    if n >= 10 { LeadingDigit(n / 10); }
  }

  // A field width in decimal, with or without the flag '0', means what it says.
  lemma WidthIsRead(zero: bool, width: nat, ch: Byte, args: seq<Arg>)
    requires 0 < width <= INT_MAX && !IsFlag(ch)
    requires Convert(ch, NO_FLAGS.(padc := if zero then ZERO else SPACE, width := width), args).Out?
    ensures Emit((if zero then [PERCENT, ZERO] else [PERCENT]) + Digits(width, 10) + [ch], 0, args) ==
      Some(Convert(ch, NO_FLAGS.(padc := if zero then ZERO else SPACE, width := width), args).text)
  {
    var p := if zero then [PERCENT, ZERO] else [PERCENT];
    var fmt := p + Digits(width, 10) + [ch];
    DecimalDigits(width);
    assert DigitsAt(fmt, |p|, Digits(width, 10));
    WidthRead(fmt, |p|, zero, width, ch, args);
  }

  lemma WidthRead(fmt: seq<Byte>, i: nat, zero: bool, width: nat, ch: Byte, args: seq<Arg>)
    requires 0 < width <= INT_MAX && !IsFlag(ch) && i == (if zero then 2 else 1)
    requires DigitsAt(fmt, i, Digits(width, 10)) && |fmt| == i + |Digits(width, 10)| + 1 && fmt[|fmt| - 1] == ch
    requires fmt[0] == PERCENT && (zero ==> fmt[1] == ZERO)
    requires Convert(ch, NO_FLAGS.(padc := if zero then ZERO else SPACE, width := width), args).Out?
    ensures Emit(fmt, 0, args) == Some(Convert(ch, NO_FLAGS.(padc := if zero then ZERO else SPACE, width := width), args).text)
  {
    var f := NO_FLAGS.(padc := if zero then ZERO else SPACE);
    NumeralRead(fmt, i, width);
    ScanNumber(fmt, 1, i, f, args);
    if zero { ScanFlag(fmt, 1, 1, NO_FLAGS, args); }
    var c := Convert(ch, f.(width := width), args);
    assert ScanEscape(fmt, 1, |fmt| - 1, f.(width := width), args) == Escape(c.text, |fmt|, c.rest);
    assert Emit(fmt, |fmt|, c.rest) == Some([]);
    assert c.text + [] == c.text;
  }

  lemma DecimalDigits(n: nat)
    ensures forall k :: 0 <= k < |Digits(n, 10)| ==> IsDigit(Digits(n, 10)[k])
    ensures IsDigit(Digits(n, 10)[0]) && ValueOf(Digits(n, 10)[1..], 10, Digits(n, 10)[0] - '0' as int) == n
  {
    var d := Digits(n, 10);
    DigitsDenote(n, 10);
    forall k | 0 <= k < |d| ensures IsDigit(d[k]) {
      assert 0 <= DigitValue(d[k]) < 10;
    }
  }

  // The decimal numeral of n > 0 in a format is read as n.
  lemma NumeralRead(fmt: seq<Byte>, i: nat, n: nat)
    requires n > 0 && DigitsAt(fmt, i, Digits(n, 10))
    ensures IsDigit(fmt[i]) && fmt[i] != ZERO
    ensures ReadNumber(fmt, i + 1, fmt[i] - '0' as int) == (n, i + |Digits(n, 10)|)
  {
    var d := Digits(n, 10);
    DecimalDigits(n);
    LeadingDigit(n);
    assert fmt[i + 0] == d[0];
    ReadsDigits(fmt, i, d, 1, d[0] - '0' as int);
  }

  // Formatting a number with %<width>d or %0<width>d and parsing the text gives
  // the number back, unless blanks end up between the sign and the digits.
  lemma FormatParseRoundTrip(zero: bool, width: nat, v: Int32)
    requires 0 < width <= INT_MAX
    ensures var out := Emit((if zero then [PERCENT, ZERO] else [PERCENT]) + Digits(width, 10) + ['d' as int], 0, [Int(v)]);
      out.Some? && (Strtol(out.value, 10).0 == v <==>
        (v >= 0 || zero || width <= |Digits(-(v as int), 10)|))
  {
    WidthIsRead(zero, width, 'd' as int, [Int(v)]);
    SignedRoundTrip(v, width, if zero then ZERO else SPACE);
  }
}

/** vprintfmt and vsnprintf as they run (lib/printfmt.c:36-51, 84-286). */
module Printf {
  import opened Words
  import opened Numbers
  import opened Formats

  // struct sprintbuf with sprintputch: the callback that receives the characters.
  class Printer {
    const buf: array<Byte>
    const room: nat  // ebuf - buf
    var next: nat  // where the next character goes
    var cnt: nat  // all characters received
    ghost var emitted: seq<Byte>
    ghost const before: seq<Byte>  // the buffer at the start

    ghost predicate Valid()
      reads this, buf
    {
      && room < buf.Length
      && cnt == |emitted|
      && next == (if cnt <= room then cnt else room)
      && buf[..next] == emitted[..next]
      && |before| == buf.Length && buf[next..] == before[next..]
    }

    constructor (b: array<Byte>, n: nat)
      requires 0 < n <= b.Length
      ensures Valid() && emitted == [] && buf == b && room == n - 1 && before == b[..]
    {
      buf, room, next, cnt, emitted, before := b, n - 1, 0, 0, [], b[..];
    }

    method Putch(ch: Byte)
      requires Valid()
      modifies this, buf
      ensures Valid() && emitted == old(emitted) + [ch]
    {
      cnt := cnt + 1;
      if next < room {
        buf[next] := ch;
        next := next + 1;
      }
      emitted := emitted + [ch];
    }

    method Puts(s: seq<Byte>)
      requires Valid()
      modifies this, buf
      ensures Valid() && emitted == old(emitted) + s
    {
      for i := 0 to |s|
        invariant Valid() && emitted == old(emitted) + s[..i]
      {
        Putch(s[i]);
      }
    }

    method Pad(n: int, c: Byte)
      requires Valid()
      modifies this, buf
      ensures Valid() && emitted == old(emitted) + Repeat(n, c)
    {
      var width := n;
      while width > 0
        invariant Valid() && (n <= 0 || 0 <= width <= n)
        invariant emitted == old(emitted) + Repeat(if n > 0 then n - width else 0, c)
      {
        RepeatMore(n - width, c);
        Putch(c);
        width := width - 1;
      }
    }

    lemma RepeatMore(k: nat, c: Byte)
      ensures Repeat(k + 1, c) == Repeat(k, c) + [c]
    {
    }

    // printnum: the more significant digits first.
    method PrintNum(num: nat, base: nat, width: int, padc: Byte)
      requires Valid() && 2 <= base <= 16
      modifies this, buf
      ensures Valid() && emitted == old(emitted) + Num(num, base, width, padc)
      decreases num
    {
      NumStep(num, base, width, padc);
      if num >= base {
        PrintNum(num / base, base, width - 1, padc);
      } else {
        Pad(width - 1, padc);
      }
      Putch(Digit(num % base));
    }

    lemma NumStep(num: nat, base: nat, width: int, padc: Byte)
      requires 2 <= base <= 16
      ensures 0 <= num % base < 16 && (num >= base ==> 0 <= num / base < num)
      ensures Num(num, base, width, padc) ==
        (if num >= base then Num(num / base, base, width - 1, padc) else Repeat(width - 1, padc)) + [Digit(num % base)]
    {
      DivMod(num, base);
      if num < base { DivSmall(num, base); }
    }

    // The characters of a %s conversion.
    method PrintText(s: seq<Byte>, limit: int, alt: bool)
      requires Valid()
      modifies this, buf
      ensures Valid() && emitted == old(emitted) + ShownText(Cut(s, limit), alt)
    {
      var precision, i := limit, 0;
      ghost var text := ShownText(Cut(s, limit), alt);
      while i < |s| && (precision < 0 || precision - 1 >= 0)
        invariant Valid() && 0 <= i <= |text|
        invariant precision == if limit < 0 then limit else limit - i
        invariant emitted == old(emitted) + text[..i]
      {
        assert s[i] == Cut(s, limit)[i] && text[..i + 1] == text[..i] + [Shown(s[i], alt)];
        Putch(Shown(s[i], alt));
        i := i + 1;
        precision := if precision < 0 then precision else precision - 1;
      }
    }

    // %s
    method PrintString(s: seq<Byte>, f: Flags)
      requires Valid()
      modifies this, buf
      ensures Valid() && emitted == old(emitted) + StringOut(s, f)
    {
      var n := Strnlen(s, f.precision);
      var width := f.width;
      if width > 0 && f.padc != MINUS {
        width := width - n;
        Pad(width, f.padc);
        width := if width > 0 then 0 else width;
      }
      PrintText(s, f.precision, f.alt);
      Pad(width - n, SPACE);
    }
  }

  // One conversion, for arguments that fit it.
  method PrintConversion(p: Printer, ch: Byte, f: Flags, args: seq<Arg>) returns (rest: seq<Arg>)
    requires p.Valid() && Convert(ch, f, args).Out?
    modifies p, p.buf
    ensures p.Valid() && p.emitted == old(p.emitted) + Convert(ch, f, args).text && rest == Convert(ch, f, args).rest
  {
    rest := if ch == 'o' as int || ch == PERCENT then args else args[1..];
    if ch == 'c' as int {
      p.Putch(args[0].i % 256);
    } else if ch == 'e' as int {
      PrintError(p, args[0].i);
    } else if ch == 's' as int {
      p.PrintString(if args[0].s.None? then Chars("(null)") else args[0].s.value, f);
    } else if ch == 'd' as int {
      PrintSigned(p, IntArg(args, f.lflag).value, f.width, f.padc);
    } else if ch == 'u' as int || ch == 'x' as int {
      p.PrintNum(Unsigned(IntArg(args, f.lflag).value, f.lflag), if ch == 'u' as int then 10 else 16, f.width, f.padc);
    } else if ch == 'o' as int {
      p.Puts(Chars("XXX"));
    } else if ch == 'p' as int {
      p.Putch(ZERO);
      p.Putch(LOWER_X);
      p.PrintNum(args[0].p % 0x1_0000_0000, 16, f.width, f.padc);
    } else {
      p.Putch(PERCENT);
    }
  }

  method PrintSigned(p: Printer, v: int, width: int, padc: Byte)
    requires p.Valid()
    modifies p, p.buf
    ensures p.Valid() && p.emitted == old(p.emitted) + Signed(v, width, padc)
  {
    var num := v;
    if v < 0 {
      p.Putch(MINUS);
      num := -v;
    }
    p.PrintNum(num, 10, width, padc);
  }

  // What the nested printfmt calls for %e print.
  method PrintError(p: Printer, code: Int32)
    requires p.Valid() && code != -0x8000_0000
    modifies p, p.buf
    ensures p.Valid() && p.emitted == old(p.emitted) + ErrorText(if code < 0 then -(code as int) else code)
  {
    var err := if code < 0 then -(code as int) else code;
    if err > MAXERROR || err == 0 || err == MAXERROR {
      p.Puts(Chars("error "));
      PrintSigned(p, err, -1, SPACE);
    } else {
      p.Puts(ErrorText(err));
    }
  }

  // The digits of a width or precision, of which ch is the first.
  method ReadWidth(fmt: array<Byte>, from: nat, ch: Byte) returns (precision: nat, i: nat)
    requires IsString(fmt) && from < fmt.Length && IsDigit(ch)
    ensures (precision, i) == ReadNumber(Text(fmt), from, ch - '0' as int)
  {
    precision, i := ch - '0' as int, from;
    while IsDigit(fmt[i])
      invariant from <= i < fmt.Length
      invariant ReadNumber(Text(fmt), i, precision) == ReadNumber(Text(fmt), from, ch - '0' as int)
      decreases fmt.Length - i
    {
      precision := precision * 10 + (fmt[i] - '0' as int);
      i := i + 1;
    }
  }

  // The flags of an escape: the position of the conversion character, the flags
  // and the arguments left for it.
  method ScanFlags(fmt: array<Byte>, own: nat, args: seq<Arg>) returns (i: nat, f: Flags, rest: seq<Arg>)
    requires IsString(fmt) && own < fmt.Length && ScanEscape(Text(fmt), own, own, NO_FLAGS, args).Escape?
    ensures own <= i < fmt.Length && NoPercent(Text(fmt), own, i)
    ensures ScanEscape(Text(fmt), own, i, f, rest) == ScanEscape(Text(fmt), own, own, NO_FLAGS, args)
    ensures !IsFlag(fmt[i])
  {
    i, f, rest := own, NO_FLAGS, args;
    ghost var e := ScanEscape(Text(fmt), own, own, NO_FLAGS, args);
    while IsFlag(fmt[i])
      invariant own <= i < fmt.Length && NoPercent(Text(fmt), own, i)
      invariant ScanEscape(Text(fmt), own, i, f, rest) == e
      decreases fmt.Length - i
    {
      i, f, rest := NextFlag(fmt, own, i, f, rest);
    }
  }

  // One flag or one number.
  method NextFlag(fmt: array<Byte>, ghost own: nat, i: nat, f: Flags, args: seq<Arg>)
    returns (i': nat, f': Flags, rest: seq<Arg>)
    requires IsString(fmt) && own <= i < fmt.Length && IsFlag(fmt[i]) && NoPercent(Text(fmt), own, i)
    requires ScanEscape(Text(fmt), own, i, f, args).Escape?
    ensures i < i' < fmt.Length && NoPercent(Text(fmt), own, i')
    ensures ScanEscape(Text(fmt), own, i', f', rest) == ScanEscape(Text(fmt), own, i, f, args)
  {
    var ch := fmt[i];
    assert ch == Text(fmt)[i];
    if IsDigit(ch) && ch != ZERO {
      i', f' := NextNumber(fmt, own, i, f, args);
      rest := args;
    } else {
      ScanFlag(Text(fmt), own, i, f, args);
      f' := ApplyFlag(f, ch, args);
      i', rest := i + 1, if ch == STAR then args[1..] else args;
    }
  }

  method NextNumber(fmt: array<Byte>, ghost own: nat, i: nat, f: Flags, ghost args: seq<Arg>) returns (i': nat, f': Flags)
    requires IsString(fmt) && own <= i < fmt.Length && IsDigit(fmt[i]) && fmt[i] != ZERO && NoPercent(Text(fmt), own, i)
    requires ScanEscape(Text(fmt), own, i, f, args).Escape?
    ensures i < i' < fmt.Length && NoPercent(Text(fmt), own, i')
    ensures ScanEscape(Text(fmt), own, i', f', args) == ScanEscape(Text(fmt), own, i, f, args)
  {
    assert fmt[i] == Text(fmt)[i];
    ScanNumber(Text(fmt), own, i, f, args);
    NumberNoPercent(Text(fmt), own, i);
    var precision;
    precision, i' := ReadWidth(fmt, i + 1, fmt[i]);
    f' := WithNumber(f, precision);
  }

  // The cases of the switch for single characters.
  method ApplyFlag(f: Flags, ch: Byte, args: seq<Arg>) returns (f': Flags)
    requires IsFlag(ch) && (IsDigit(ch) ==> ch == ZERO) && (ch == STAR ==> args != [] && args[0].Int?)
    ensures f' == WithFlag(f, ch, args)
  {
    f' := f;
    if ch == MINUS {
      f' := f.(padc := MINUS);
    } else if ch == ZERO {
      f' := f.(padc := ZERO);
    } else if ch == STAR {
      f' := WithNumber(f, args[0].i);
    } else if ch == '.' as int {
      if f.width < 0 {
        f' := f.(width := 0);
      }
    } else if ch == '#' as int {
      f' := f.(alt := true);
    } else {
      f' := f.(lflag := f.lflag + 1);
    }
  }

  // One %-escape: the scan goes on at next.
  method PrintEscape(p: Printer, fmt: array<Byte>, own: nat, args: seq<Arg>) returns (next: nat, rest: seq<Arg>)
    requires p.Valid() && p.buf != fmt && IsString(fmt) && 0 < own < fmt.Length && fmt[own - 1] == PERCENT
    requires ScanEscape(Text(fmt), own, own, NO_FLAGS, args).Escape?
    modifies p, p.buf
    ensures p.Valid()
    ensures var e := ScanEscape(Text(fmt), own, own, NO_FLAGS, args);
      p.emitted == old(p.emitted) + e.text && next == e.next && rest == e.rest
  {
    var i, f;
    i, f, rest := ScanFlags(fmt, own, args);
    var ch := fmt[i];
    if Convert(ch, f, rest) == Literal {
      // Print the percent sign, and go back to just behind it.
      p.Putch(PERCENT);
      next := i;
      while fmt[next - 1] != PERCENT
        invariant own <= next <= i
        decreases next
      {
        next := next - 1;
      }
    } else {
      rest := PrintConversion(p, ch, f, rest);
      next := i + 1;
    }
  }

  // strnlen, with a negative size standing for a very large unsigned one
  method Strnlen(s: seq<Byte>, size: int) returns (n: nat)
    ensures n == |Cut(s, size)|
  {
    n := 0;
    var left := size;
    while left != 0 && n < |s|
      invariant n <= |s| && (size >= 0 ==> left == size - n >= 0) && (size < 0 ==> left < 0)
      decreases |s| - n
    {
      n := n + 1;
      left := left - 1;
    }
  }

  // vprintfmt, for arguments that fit the format.  It never looks behind the NUL.
  method Vprintfmt(p: Printer, fmt: array<Byte>, args: seq<Arg>)
    requires p.Valid() && p.buf != fmt && IsString(fmt) && Emit(Text(fmt), 0, args).Some?
    modifies p, p.buf
    ensures p.Valid() && p.emitted == old(p.emitted) + Emit(Text(fmt), 0, args).value
  {
    ghost var text, todo := Text(fmt), Emit(Text(fmt), 0, args).value;
    ghost var out := p.emitted + todo;
    var i, rest := 0, args;
    while fmt[i] != NUL
      invariant p.Valid() && i < fmt.Length && IsString(fmt) && Text(fmt) == text
      invariant Emit(text, i, rest) == Some(todo) && p.emitted + todo == out
      decreases fmt.Length - i
    {
      if fmt[i] != PERCENT {
        EmitChar(text, i, rest);
        Regroup(p.emitted, [fmt[i]], todo[1..]);
        todo := todo[1..];
        p.Putch(fmt[i]);
        i := i + 1;
      } else {
        EmitEscape(text, i, rest);
        ghost var e := ScanEscape(text, i + 1, i + 1, NO_FLAGS, rest);
        Regroup(p.emitted, e.text, todo[|e.text|..]);
        todo := todo[|e.text|..];
        i, rest := PrintEscape(p, fmt, i + 1, rest);
      }
    }
    assert todo == [];
  }

  lemma Regroup(a: seq<Byte>, b: seq<Byte>, c: seq<Byte>)
    ensures a + b + c == a + (b + c)
  {
  }

  lemma EmitChar(text: seq<Byte>, i: nat, args: seq<Arg>)
    requires i < |text| && text[i] != PERCENT && Emit(text, i, args).Some?
    ensures Emit(text, i, args).value != []
    ensures Emit(text, i + 1, args) == Some(Emit(text, i, args).value[1..])
    ensures Emit(text, i, args).value == [text[i]] + Emit(text, i, args).value[1..]
  {
  }

  lemma EmitEscape(text: seq<Byte>, i: nat, args: seq<Arg>)
    requires i < |text| && text[i] == PERCENT && Emit(text, i, args).Some?
    ensures var e := ScanEscape(text, i + 1, i + 1, NO_FLAGS, args);
      && e.Escape? && |e.text| <= |Emit(text, i, args).value|
      && Emit(text, e.next, e.rest) == Some(Emit(text, i, args).value[|e.text|..])
      && Emit(text, i, args).value == e.text + Emit(text, i, args).value[|e.text|..]
  {
  }

  // vsnprintf: the first n - 1 characters and a NUL are stored, all are counted.
  // Nothing is written without a buffer or without room for the NUL.
  method Vsnprintf(buf: array?<Byte>, n: int, fmt: array<Byte>, args: seq<Arg>) returns (r: Option<nat>)
    requires buf != fmt && IsString(fmt) && Emit(Text(fmt), 0, args).Some?
    requires buf != null ==> n <= buf.Length
    modifies if buf == null || n < 1 then {} else {buf}
    ensures buf == null || n < 1 ==> r == None
    ensures buf != null && n >= 1 ==>
      var out := old(Emit(Text(fmt), 0, args).value);
      var stored := if |out| < n then |out| else n - 1;
      r == Some(|out|) && buf[..stored] == out[..stored] && buf[stored] == NUL &&
      forall i :: stored < i < buf.Length ==> buf[i] == old(buf[i])
  {
    if buf == null || n < 1 {
      return None;
    }
    var b := new Printer(buf, n);
    Vprintfmt(b, fmt, args);
    buf[b.next] := NUL;
    return Some(b.cnt);
  }
}
