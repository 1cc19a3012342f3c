/**
 What each conversion of vprintfmt puts out, without reference to how it is
 computed (lib/printfmt.c:36-51, 157-236).
 */
module Conversions {
  import opened Words
  import opened Numbers
  import opened Formats

  // ----- digits

  // The numeral of n: digits that denote it, in lower case, without leading zeros.
  ghost predicate IsNumeral(d: seq<Byte>, base: nat, n: nat) {
    && d != [] && AllDigits(d, base) && ValueOf(d, base, 0) == n
    && (|d| > 1 ==> d[0] != ZERO)
    && forall i :: 0 <= i < |d| ==> !('A' as int <= d[i] <= 'Z' as int)
  }

  // The numeral of n right-justified in the field, behind padding.
  ghost predicate IsPadded(t: seq<Byte>, base: nat, n: nat, width: int, padc: Byte) {
    exists k: nat :: k <= |t| && IsNumeral(t[k..], base, n) && Pads(t, k, width, padc)
  }

  ghost predicate Pads(t: seq<Byte>, k: nat, width: int, padc: Byte)
    requires k <= |t|
  {
    && (forall i :: 0 <= i < k ==> t[i] == padc)
    && |t| >= width && (k > 0 ==> |t| == width)
  }

  lemma {:induction false} DigitsAreNumeral(n: nat, base: nat)
    requires 2 <= base <= 16
    ensures IsNumeral(Digits(n, base), base, n)
    ensures n > 0 ==> Digits(n, base)[0] != ZERO
  {
    DigitsDenote(n, base);
    DivMod(n, base);
    if n >= base {
      DigitsAreNumeral(n / base, base);
      assert Digits(n, base) == Digits(n / base, base) + [Digit(n % base)];
      assert n / base > 0;
    }
  }

  lemma NumIsPadded(n: nat, base: nat, width: int, padc: Byte)
    requires 2 <= base <= 16
    ensures IsPadded(Num(n, base, width, padc), base, n, width, padc)
  {
    NumIsPaddedDigits(n, base, width, padc);
    DigitsAreNumeral(n, base);
    var t, p, d := Num(n, base, width, padc), Repeat(width - |Digits(n, base)|, padc), Digits(n, base);
    assert t[|p|..] == d && t[..|p|] == p;
    assert forall i :: 0 <= i < |p| ==> t[i] == p[i];
    assert Pads(t, |p|, width, padc);
  }

  // ----- the conversions

  // %c: the low byte of the argument.
  lemma CharText(f: Flags, v: Int32, rest: seq<Arg>)
    ensures var c := Convert('c' as int, f, [Int(v)] + rest);
      c.Out? && c.rest == rest && |c.text| == 1 && (v - c.text[0]) % 256 == 0
  {
  }

  const MESSAGES: seq<string> := ["unspecified error", "bad environment", "invalid parameter",
                                  "out of memory", "out of environments", "segmentation fault"]

  // %e: the message of the code, whatever its sign; other codes by number.
  lemma ErrorMessage(f: Flags, v: Int32, rest: seq<Arg>)
    requires v != -0x8000_0000
    ensures var (c, err) := (Convert('e' as int, f, [Int(v)] + rest), if v < 0 then -(v as int) else v);
      && c.Out? && c.rest == rest
      && (1 <= err <= 6 ==> Spells(c.text, MESSAGES[err - 1]))
      && (err == 0 || err > 6 ==> |c.text| > 6 && Spells(c.text[..6], "error ") && IsNumeral(c.text[6..], 10, err))
  {
    var err := if v < 0 then -(v as int) else v;
    if err == 0 || err > 6 {
      ErrorNumber(err);
    }
  }

  ghost predicate Spells(b: seq<Byte>, s: string) {
    |b| == |s| && forall i :: 0 <= i < |s| ==> b[i] == s[i] as int
  }

  lemma ErrorNumber(err: nat)
    requires err == 0 || err > 6
    ensures var t := ErrorText(err); |t| > 6 && Spells(t[..6], "error ") && IsNumeral(t[6..], 10, err)
  {
    var t := ErrorText(err);
    NumIsPaddedDigits(err, 10, -1, SPACE);
    DigitsAreNumeral(err, 10);
    assert Repeat(-1 - |Digits(err, 10)|, SPACE) == [];
    assert Num(err, 10, -1, SPACE) == Digits(err, 10);
    assert t[..6] == Chars("error ") && t[6..] == Digits(err, 10);
  }

  // How many characters of a string %s shows, and how many blanks precede them.
  function ShownLength(s: seq<Byte>, precision: int): nat {
    if 0 <= precision < |s| then precision else |s|
  }

  function Indent(f: Flags, n: nat): nat {
    if f.padc != MINUS && f.width > n then f.width - n else 0
  }

  // %s: the first characters up to the precision, with the flag # the unprintable
  // ones masked, in a field of the width: on the right behind the padding, or with
  // the flag - on the left before blanks.
  lemma StringText(f: Flags, s: seq<Byte>, rest: seq<Arg>)
    ensures var c := Convert('s' as int, f, [Str(Some(s))] + rest);
      var (n, k) := (ShownLength(s, f.precision), Indent(f, ShownLength(s, f.precision)));
      && c.Out? && c.rest == rest
      && |c.text| == (if f.width > n then f.width else n)
      && (forall i :: 0 <= i < k ==> c.text[i] == f.padc)
      && (forall i :: 0 <= i < n ==> c.text[k + i] == if f.alt && !(0x20 <= s[i] <= 0x7E) then '?' as int else s[i])
      && (forall i :: k + n <= i < |c.text| ==> c.text[i] == ' ' as int)
  {
    var body := ShownText(Cut(s, f.precision), f.alt);
    var n := ShownLength(s, f.precision);
    assert |body| == n && forall i :: 0 <= i < n ==> body[i] == Shown(s[i], f.alt);
  }

  // A null pointer prints as this string.
  lemma NullText(f: Flags, rest: seq<Arg>)
    ensures Convert('s' as int, f, [Str(None)] + rest) == Convert('s' as int, f, [Str(Some(Chars("(null)")))] + rest)
  {
  }

  // The argument that the flag l, given lflag times, makes of v.
  predicate IsArgument(a: Arg, lflag: nat, v: int) {
    if lflag >= 2 then a.Wide? && a.w as int == v else a.Int? && a.i as int == v
  }

  // The number with the same bits, of 32 or, with ll, 64 bits.
  predicate SameBits(n: nat, v: int, lflag: nat) {
    if lflag >= 2 then n < 0x1_0000_0000_0000_0000 && (n == v || n == v + 0x1_0000_0000_0000_0000)
    else n < 0x1_0000_0000 && (n == v || n == v + 0x1_0000_0000)
  }

  lemma UnsignedBits(n: nat, v: int, lflag: nat)
    requires SameBits(n, v, lflag)
    ensures Unsigned(v, lflag) == n
  {
  }

  lemma TakesNumber(f: Flags, a: Arg, v: int, rest: seq<Arg>)
    requires IsArgument(a, f.lflag, v)
    ensures IntArg([a] + rest, f.lflag) == Some(v) && ([a] + rest)[1..] == rest
  {
  }

  lemma UnsignedIsNum(f: Flags, a: Arg, v: int, n: nat, rest: seq<Arg>)
    requires IsArgument(a, f.lflag, v) && SameBits(n, v, f.lflag)
    ensures Convert('u' as int, f, [a] + rest) == Out(Num(n, 10, f.width, f.padc), rest)
    ensures Convert('x' as int, f, [a] + rest) == Out(Num(n, 16, f.width, f.padc), rest)
  {
    UnsignedBits(n, v, f.lflag);
    TakesNumber(f, a, v, rest);
  }

  lemma SignedIsSigned(f: Flags, a: Arg, v: int, rest: seq<Arg>)
    requires IsArgument(a, f.lflag, v)
    ensures Convert('d' as int, f, [a] + rest) == Out(Signed(v, f.width, f.padc), rest)
  {
    TakesNumber(f, a, v, rest);
  }

  lemma PointerIsPointer(f: Flags, p: Word, rest: seq<Arg>)
    ensures Convert('p' as int, f, [Ptr(p)] + rest) == Out(Pointer(p, f.width, f.padc), rest)
  {
  }

  // %u: in decimal, the bits taken as an unsigned number.
  lemma UnsignedText(f: Flags, a: Arg, v: int, n: nat, rest: seq<Arg>)
    requires IsArgument(a, f.lflag, v) && SameBits(n, v, f.lflag)
    ensures var c := Convert('u' as int, f, [a] + rest); c.Out? && c.rest == rest && IsPadded(c.text, 10, n, f.width, f.padc)
  {
    UnsignedIsNum(f, a, v, n, rest);
    NumIsPadded(n, 10, f.width, f.padc);
  }

  // %x: the same in hexadecimal.
  lemma HexText(f: Flags, a: Arg, v: int, n: nat, rest: seq<Arg>)
    requires IsArgument(a, f.lflag, v) && SameBits(n, v, f.lflag)
    ensures var c := Convert('x' as int, f, [a] + rest); c.Out? && c.rest == rest && IsPadded(c.text, 16, n, f.width, f.padc)
  {
    UnsignedIsNum(f, a, v, n, rest);
    NumIsPadded(n, 16, f.width, f.padc);
  }

  // %d: in decimal, a negative number behind its sign, which is not part of the field.
  lemma SignedText(f: Flags, a: Arg, v: int, rest: seq<Arg>)
    requires IsArgument(a, f.lflag, v)
    ensures var c := Convert('d' as int, f, [a] + rest);
      && c.Out? && c.rest == rest && |c.text| > 0
      && (if v < 0 then c.text[0] == '-' as int && IsPadded(c.text[1..], 10, -v, f.width, f.padc)
          else IsPadded(c.text, 10, v, f.width, f.padc))
  {
    SignedIsSigned(f, a, v, rest);
    SignedIsPadded(v, f.width, f.padc);
  }

  lemma SignedIsPadded(v: int, width: int, padc: Byte)
    ensures var t := Signed(v, width, padc);
      |t| > 0 &&
      if v < 0 then t[0] == '-' as int && IsPadded(t[1..], 10, -v, width, padc) else IsPadded(t, 10, v, width, padc)
  {
    var n: nat := if v < 0 then -v else v;
    NumIsPadded(n, 10, width, padc);
    assert Num(n, 10, width, padc) != [] by { NumIsPaddedDigits(n, 10, width, padc); }
    if v < 0 { assert Signed(v, width, padc)[1..] == Num(n, 10, width, padc); }
  }

  // %p: in hexadecimal, behind 0x, which is not part of the field.
  lemma PointerText(f: Flags, p: Word, rest: seq<Arg>)
    ensures var c := Convert('p' as int, f, [Ptr(p)] + rest);
      && c.Out? && c.rest == rest
      && |c.text| >= 2 && c.text[0] == '0' as int && c.text[1] == 'x' as int
      && IsPadded(c.text[2..], 16, p, f.width, f.padc)
  {
    PointerIsPointer(f, p, rest);
    NumIsPadded(p, 16, f.width, f.padc);
    PointerSplits(p, f.width, f.padc);
  }

  lemma PointerSplits(p: Word, width: int, padc: Byte)
    ensures var t := Pointer(p, width, padc);
      |t| >= 2 && t[0] == '0' as int && t[1] == 'x' as int && t[2..] == Num(p, 16, width, padc)
  {
  }

  // %o is not written there: three letters, and the argument stays.
  lemma OctalText(f: Flags, args: seq<Arg>)
    ensures Convert('o' as int, f, args) == Out(['X' as int, 'X' as int, 'X' as int], args)
  {
  }
}

/**
 How an escape is read: every combination of flags, width and precision reaches
 its conversion with the meaning it has (lib/printfmt.c:98-163).
 */
module Directives {
  import opened Words
  import opened Numbers
  import opened Formats
  import opened Conversions

  // A width or a precision: not there, in decimal, or taken from the arguments.
  datatype Field = Unset | Fixed(n: nat) | Star

  // An escape behind its percent sign.
  datatype Directive = Directive(minus: bool, zero: bool, alt: bool, longs: nat, width: Field, precision: Option<Field>, ch: Byte)

  predicate FieldOk(x: Field) { x.Fixed? ==> 0 < x.n <= INT_MAX }

  predicate DirectiveOk(x: Directive) {
    FieldOk(x.width) && (x.precision.Some? ==> FieldOk(x.precision.value)) && !IsFlag(x.ch)
  }

  // The stars take ints from the front of the arguments.
  predicate Supplies(x: Field, args: seq<Arg>) { x.Star? ==> args != [] && args[0].Int? }

  function Rest(x: Field, args: seq<Arg>): seq<Arg>
    requires Supplies(x, args)
  {
    if x.Star? then args[1..] else args
  }

  function Value(x: Field, args: seq<Arg>): int
    requires Supplies(x, args)
  {
    match x
    case Unset => -1
    case Fixed(n) => n
    case Star => args[0].i
  }

  // The field of the precision, Unset without one.
  function Precision(x: Directive): Field { if x.precision.None? then Unset else x.precision.value }

  predicate AllSupplied(x: Directive, args: seq<Arg>) {
    Supplies(x.width, args) && Supplies(Precision(x), Rest(x.width, args))
  }

  // The arguments left for the conversion.
  function Left(x: Directive, args: seq<Arg>): seq<Arg>
    requires AllSupplied(x, args)
  {
    Rest(Precision(x), Rest(x.width, args))
  }

  // What the directive means: 0 wins over -, and a precision makes a negative width 0.
  function Meaning(x: Directive, args: seq<Arg>): Flags
    requires AllSupplied(x, args)
  {
    var width := Value(x.width, args);
    Flags(if x.zero then '0' as int else if x.minus then '-' as int else ' ' as int,
          if x.precision.Some? && width < 0 then 0 else width,
          Value(Precision(x), Rest(x.width, args)),
          x.longs, x.alt)
  }

  // ----- where a format has a directive

  function FieldLength(x: Field): nat {
    match x
    case Unset => 0
    case Fixed(n) => |Digits(n, 10)|
    case Star => 1
  }

  predicate FieldIs(fmt: seq<Byte>, i: nat, x: Field) {
    match x
    case Unset => true
    case Fixed(n) => i + |Digits(n, 10)| <= |fmt| && forall k :: 0 <= k < |Digits(n, 10)| ==> fmt[i + k] == Digits(n, 10)[k]
    case Star => i < |fmt| && fmt[i] == STAR
  }

  predicate MarkIs(fmt: seq<Byte>, i: nat, on: bool, c: Byte) { on ==> i < |fmt| && fmt[i] == c }

  function Behind(i: nat, on: bool): nat { if on then i + 1 else i }

  // The positions of the parts: - 0 # l... width . precision conversion.
  function LongsAt(x: Directive, i: nat): nat { Behind(Behind(Behind(i, x.minus), x.zero), x.alt) }

  function WidthAt(x: Directive, i: nat): nat { LongsAt(x, i) + x.longs }

  function DotAt(x: Directive, i: nat): nat { WidthAt(x, i) + FieldLength(x.width) }

  function PrecisionAt(x: Directive, i: nat): nat { Behind(DotAt(x, i), x.precision.Some?) }

  function ConversionAt(x: Directive, i: nat): nat { PrecisionAt(x, i) + FieldLength(Precision(x)) }

  predicate MarksAre(fmt: seq<Byte>, i: nat, x: Directive) {
    && MarkIs(fmt, i, x.minus, MINUS)
    && MarkIs(fmt, Behind(i, x.minus), x.zero, ZERO)
    && MarkIs(fmt, Behind(Behind(i, x.minus), x.zero), x.alt, '#' as int)
    && (forall k :: LongsAt(x, i) <= k < WidthAt(x, i) && k < |fmt| ==> fmt[k] == 'l' as int)
  }

  predicate PrecisionIs(fmt: seq<Byte>, i: nat, x: Directive) {
    MarkIs(fmt, i, x.precision.Some?, '.' as int) && FieldIs(fmt, Behind(i, x.precision.Some?), Precision(x))
  }

  // The format has directive x at position i, just behind its percent sign.
  predicate HasDirective(fmt: seq<Byte>, i: nat, x: Directive) {
    && MarksAre(fmt, i, x) && FieldIs(fmt, WidthAt(x, i), x.width) && PrecisionIs(fmt, DotAt(x, i), x)
    && ConversionAt(x, i) < |fmt| && fmt[ConversionAt(x, i)] == x.ch
  }

  // ----- the scan

  lemma MarkRead(fmt: seq<Byte>, own: nat, i: nat, on: bool, c: Byte, f: Flags, args: seq<Arg>)
    requires own <= i <= |fmt| && IsPlainFlag(c) && MarkIs(fmt, i, on, c)
    ensures Behind(i, on) <= |fmt|
    ensures ScanEscape(fmt, own, i, f, args) ==
      ScanEscape(fmt, own, Behind(i, on), if on then WithFlag(f, c, args) else f, args)
  {
    if on { ScanFlag(fmt, own, i, f, args); }
  }

  lemma {:induction false} LongsRead(fmt: seq<Byte>, own: nat, i: nat, k: nat, f: Flags, args: seq<Arg>)
    requires own <= i && i + k <= |fmt| && forall j :: i <= j < i + k ==> fmt[j] == 'l' as int
    ensures ScanEscape(fmt, own, i, f, args) == ScanEscape(fmt, own, i + k, f.(lflag := f.lflag + k), args)
    decreases k
  {
    if k > 0 {
      MarkRead(fmt, own, i, true, 'l' as int, f, args);
      LongsRead(fmt, own, i + 1, k - 1, f.(lflag := f.lflag + 1), args);
    }
  }

  lemma FieldRead(fmt: seq<Byte>, own: nat, i: nat, x: Field, f: Flags, args: seq<Arg>)
    requires own <= i && i + FieldLength(x) <= |fmt| && FieldOk(x) && Supplies(x, args) && FieldIs(fmt, i, x)
    requires !IsDigit(At(fmt, i + FieldLength(x)))
    ensures ScanEscape(fmt, own, i, f, args) ==
      ScanEscape(fmt, own, i + FieldLength(x), if x.Unset? then f else WithNumber(f, Value(x, args)), Rest(x, args))
  {
    match x
    case Unset =>
    case Fixed(n) =>
      DecimalDigits(n);
      NumeralRead(fmt, i, n);
      ScanNumber(fmt, own, i, f, args);
    case Star => ScanFlag(fmt, own, i, f, args);
  }

  lemma PaddingRead(fmt: seq<Byte>, own: nat, i: nat, x: Directive, f: Flags, args: seq<Arg>)
    requires own <= i && Behind(Behind(i, x.minus), x.zero) <= |fmt|
    requires MarkIs(fmt, i, x.minus, MINUS) && MarkIs(fmt, Behind(i, x.minus), x.zero, ZERO)
    ensures ScanEscape(fmt, own, i, f, args) ==
      ScanEscape(fmt, own, Behind(Behind(i, x.minus), x.zero),
                 f.(padc := if x.zero then ZERO else if x.minus then MINUS else f.padc), args)
  {
    MarkRead(fmt, own, i, x.minus, MINUS, f, args);
    MarkRead(fmt, own, Behind(i, x.minus), x.zero, ZERO, if x.minus then f.(padc := MINUS) else f, args);
  }

  lemma MarksRead(fmt: seq<Byte>, own: nat, x: Directive, args: seq<Arg>)
    requires WidthAt(x, own) <= |fmt| && MarksAre(fmt, own, x)
    ensures ScanEscape(fmt, own, own, NO_FLAGS, args) ==
      ScanEscape(fmt, own, WidthAt(x, own),
                 Flags(if x.zero then ZERO else if x.minus then MINUS else SPACE, -1, -1, x.longs, x.alt), args)
  {
    PaddingRead(fmt, own, own, x, NO_FLAGS, args);
    AltLongsRead(fmt, own, Behind(Behind(own, x.minus), x.zero), x,
                 NO_FLAGS.(padc := if x.zero then ZERO else if x.minus then MINUS else SPACE), args);
  }

  lemma AltLongsRead(fmt: seq<Byte>, own: nat, i: nat, x: Directive, f: Flags, args: seq<Arg>)
    requires own <= i && Behind(i, x.alt) + x.longs <= |fmt| && MarkIs(fmt, i, x.alt, '#' as int)
    requires forall k :: Behind(i, x.alt) <= k < Behind(i, x.alt) + x.longs ==> fmt[k] == 'l' as int
    requires !f.alt && f.lflag == 0
    ensures ScanEscape(fmt, own, i, f, args) ==
      ScanEscape(fmt, own, Behind(i, x.alt) + x.longs, f.(alt := x.alt, lflag := x.longs), args)
  {
    MarkRead(fmt, own, i, x.alt, '#' as int, f, args);
    LongsRead(fmt, own, Behind(i, x.alt), x.longs, f.(alt := x.alt), args);
  }

  lemma PrecisionRead(fmt: seq<Byte>, own: nat, i: nat, x: Directive, f: Flags, args: seq<Arg>)
    requires own <= i && DirectiveOk(x) && Supplies(Precision(x), args) && PrecisionIs(fmt, i, x) && f.precision == -1
    requires var k := Behind(i, x.precision.Some?) + FieldLength(Precision(x)); k < |fmt| && fmt[k] == x.ch
    ensures ScanEscape(fmt, own, i, f, args) ==
      ScanEscape(fmt, own, Behind(i, x.precision.Some?) + FieldLength(Precision(x)),
                 f.(width := if x.precision.Some? && f.width < 0 then 0 else f.width, precision := Value(Precision(x), args)),
                 Rest(Precision(x), args))
  {
    MarkRead(fmt, own, i, x.precision.Some?, '.' as int, f, args);
    var f' := f.(width := if x.precision.Some? && f.width < 0 then 0 else f.width);
    FieldRead(fmt, own, Behind(i, x.precision.Some?), Precision(x), f', args);
  }

  // What comes behind the width is no digit.
  lemma WidthEnds(fmt: seq<Byte>, own: nat, x: Directive)
    requires HasDirective(fmt, own, x) && DirectiveOk(x)
    ensures DotAt(x, own) < |fmt| && !IsDigit(fmt[DotAt(x, own)])
  {
  }

  lemma FieldsRead(fmt: seq<Byte>, own: nat, x: Directive, f: Flags, args: seq<Arg>)
    requires HasDirective(fmt, own, x) && DirectiveOk(x) && AllSupplied(x, args) && f.width == -1 && f.precision == -1
    ensures ScanEscape(fmt, own, WidthAt(x, own), f, args) ==
      ScanEscape(fmt, own, ConversionAt(x, own),
                 f.(width := Meaning(x, args).width, precision := Meaning(x, args).precision), Left(x, args))
  {
    WidthEnds(fmt, own, x);
    var f' := if x.width.Unset? then f else WithNumber(f, Value(x.width, args));
    FieldRead(fmt, own, WidthAt(x, own), x.width, f, args);
    PrecisionRead(fmt, own, DotAt(x, own), x, f', Rest(x.width, args));
  }

  // The scan reaches the conversion with the flags that the directive means.
  lemma DirectiveIsRead(fmt: seq<Byte>, own: nat, x: Directive, args: seq<Arg>)
    requires HasDirective(fmt, own, x) && DirectiveOk(x) && AllSupplied(x, args)
    ensures ScanEscape(fmt, own, own, NO_FLAGS, args) ==
      ScanEscape(fmt, own, ConversionAt(x, own), Meaning(x, args), Left(x, args))
  {
    MarksRead(fmt, own, x, args);
    FieldsRead(fmt, own, x, Flags(Meaning(x, args).padc, -1, -1, x.longs, x.alt), args);
  }

  lemma ConversionScanned(fmt: seq<Byte>, own: nat, k: nat, f: Flags, args: seq<Arg>, text: seq<Byte>, rest: seq<Arg>)
    requires own <= k < |fmt| && !IsFlag(fmt[k]) && Convert(fmt[k], f, args) == Out(text, rest)
    ensures ScanEscape(fmt, own, k, f, args) == Escape(text, k + 1, rest)
  {
  }

  // Anywhere in a format, a directive that its conversion accepts emits the text of
  // the conversion, and the rest of the format follows with the arguments left.
  lemma DirectiveEmits(fmt: seq<Byte>, i: nat, x: Directive, args: seq<Arg>, text: seq<Byte>, rest: seq<Arg>)
    requires i < |fmt| && fmt[i] == PERCENT && HasDirective(fmt, i + 1, x) && DirectiveOk(x) && AllSupplied(x, args)
    requires Convert(x.ch, Meaning(x, args), Left(x, args)) == Out(text, rest)
    ensures Emit(fmt, i, args) ==
      match Emit(fmt, ConversionAt(x, i + 1) + 1, rest)
      case Some(out) => Some(text + out)
      case None => None
  {
    DirectiveEscapes(fmt, i + 1, x, args, text, rest);
    EmitStep(fmt, i, args, text, ConversionAt(x, i + 1) + 1, rest);
  }

  lemma DirectiveEscapes(fmt: seq<Byte>, own: nat, x: Directive, args: seq<Arg>, text: seq<Byte>, rest: seq<Arg>)
    requires HasDirective(fmt, own, x) && DirectiveOk(x) && AllSupplied(x, args)
    requires Convert(x.ch, Meaning(x, args), Left(x, args)) == Out(text, rest)
    ensures ScanEscape(fmt, own, own, NO_FLAGS, args) == Escape(text, ConversionAt(x, own) + 1, rest)
  {
    DirectiveIsRead(fmt, own, x, args);
    ConversionScanned(fmt, own, ConversionAt(x, own), Meaning(x, args), Left(x, args), text, rest);
  }

  lemma EmitStep(fmt: seq<Byte>, i: nat, args: seq<Arg>, text: seq<Byte>, next: nat, rest: seq<Arg>)
    requires i < |fmt| && fmt[i] == PERCENT && next <= |fmt|
    requires ScanEscape(fmt, i + 1, i + 1, NO_FLAGS, args) == Escape(text, next, rest)
    ensures Emit(fmt, i, args) ==
      match Emit(fmt, next, rest)
      case Some(out) => Some(text + out)
      case None => None
  {
  }

  // The format is this directive and nothing else.
  predicate IsDirective(fmt: seq<Byte>, x: Directive) {
    |fmt| > 0 && fmt[0] == PERCENT && HasDirective(fmt, 1, x) && ConversionAt(x, 1) + 1 == |fmt|
  }

  lemma OneDirective(fmt: seq<Byte>, x: Directive, args: seq<Arg>, text: seq<Byte>, rest: seq<Arg>)
    requires IsDirective(fmt, x) && DirectiveOk(x) && AllSupplied(x, args)
    requires Convert(x.ch, Meaning(x, args), Left(x, args)) == Out(text, rest)
    ensures Emit(fmt, 0, args) == Some(text)
  {
    DirectiveEmits(fmt, 0, x, args, text, rest);
    assert Emit(fmt, |fmt|, rest) == Some([]) && text + [] == text;
  }

  // ----- round trips

  function Base(hex: bool): nat { if hex then 16 else 10 }

  predicate IsUnsigned(ch: Byte, hex: bool) { ch == if hex then 'x' as int else 'u' as int }

  lemma EmitsNumber(fmt: seq<Byte>, x: Directive, args: seq<Arg>, a: Arg, v: int, n: nat, hex: bool)
    requires IsDirective(fmt, x) && DirectiveOk(x) && AllSupplied(x, args) && Left(x, args) == [a] && IsUnsigned(x.ch, hex)
    requires IsArgument(a, x.longs, v) && SameBits(n, v, x.longs)
    ensures Emit(fmt, 0, args) == Some(Num(n, Base(hex), Meaning(x, args).width, Meaning(x, args).padc))
  {
    var f := Meaning(x, args);
    UnsignedIsNum(f, a, v, n, []);
    assert [a] + [] == [a];
    OneDirective(fmt, x, args, Num(n, Base(hex), f.width, f.padc), []);
  }

  lemma WrapBits(n: nat, v: Int32)
    requires SameBits(n, v, 0)
    ensures Wrap32(n) == v
  {
  }

  // A number printed with %u or %x, or their l forms, in a field padded with blanks
  // or zeros, is read back by strtol in the same base, whole and sign included.
  lemma UnsignedFormatRoundTrip(fmt: seq<Byte>, x: Directive, args: seq<Arg>, v: Int32, hex: bool)
    requires IsDirective(fmt, x) && DirectiveOk(x) && AllSupplied(x, args) && Left(x, args) == [Int(v)] && IsUnsigned(x.ch, hex)
    requires x.longs < 2 && (x.minus ==> x.zero)
    ensures var out := Emit(fmt, 0, args); out.Some? && Strtol(out.value, if hex then 16 else 10) == (v, |out.value|)
  {
    var f, n := Meaning(x, args), if v < 0 then v + 0x1_0000_0000 else v;
    EmitsNumber(fmt, x, args, Int(v), v, n, hex);
    UnsignedRoundTrip(n, Base(hex), f.width, f.padc);
    WrapBits(n, v);
  }

  // The ll forms print the numeral of the 64 bits.
  lemma LongLongFormat(fmt: seq<Byte>, x: Directive, args: seq<Arg>, v: Int64, n: nat, hex: bool)
    requires IsDirective(fmt, x) && DirectiveOk(x) && AllSupplied(x, args) && Left(x, args) == [Wide(v)] && IsUnsigned(x.ch, hex)
    requires x.longs >= 2 && SameBits(n, v, 2)
    ensures var (out, f) := (Emit(fmt, 0, args), Meaning(x, args));
      out.Some? && IsPadded(out.value, if hex then 16 else 10, n, f.width, f.padc)
  {
    EmitsNumber(fmt, x, args, Wide(v), v, n, hex);
    NumIsPadded(n, Base(hex), Meaning(x, args).width, Meaning(x, args).padc);
  }

  // %d is read back exactly if no blank comes between sign and digits.
  lemma SignedFormatRoundTrip(fmt: seq<Byte>, x: Directive, args: seq<Arg>, v: Int32)
    requires IsDirective(fmt, x) && DirectiveOk(x) && AllSupplied(x, args) && Left(x, args) == [Int(v)] && x.longs < 2 && (x.minus ==> x.zero)
    requires x.ch == 'd' as int
    ensures var out := Emit(fmt, 0, args);
      out.Some? && (Strtol(out.value, 10).0 == v <==>
        (v >= 0 || x.zero || Meaning(x, args).width <= |Digits(-(v as int), 10)|))
  {
    var f := Meaning(x, args);
    SignedIsSigned(f, Int(v), v, []);
    assert [Int(v)] + [] == [Int(v)];
    OneDirective(fmt, x, args, Signed(v, f.width, f.padc), []);
    SignedRoundTrip(v, f.width, f.padc);
  }

  // %p is read back exactly if no blank comes between prefix and digits, or it is null.
  lemma PointerFormatRoundTrip(fmt: seq<Byte>, x: Directive, args: seq<Arg>, p: Word)
    requires IsDirective(fmt, x) && DirectiveOk(x) && AllSupplied(x, args) && Left(x, args) == [Ptr(p)] && (x.minus ==> x.zero) && x.ch == 'p' as int
    ensures var out := Emit(fmt, 0, args);
      out.Some? && (Strtol(out.value, 16).0 == Wrap32(p) <==>
        (p == 0 || x.zero || Meaning(x, args).width <= |Digits(p, 16)|))
  {
    var f := Meaning(x, args);
    PointerIsPointer(f, p, []);
    assert [Ptr(p)] + [] == [Ptr(p)];
    OneDirective(fmt, x, args, Pointer(p, f.width, f.padc), []);
    PointerRoundTrip(p, f.width, f.padc);
  }
}
