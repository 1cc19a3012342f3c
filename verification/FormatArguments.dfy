/**
 Which arguments fit a format (lib/printfmt.c:84-245): what vprintfmt takes with
 va_arg is decided by the format alone, and so is where each escape ends.
 */
module FormatArguments {
  import opened Words
  import opened Numbers
  import opened Formats

  // What va_arg is asked for; an error code must have an absolute value.
  datatype Kind = AnInt | AnError | ALongLong | AString | APointer

  predicate Is(a: Arg, k: Kind) {
    match k
    case AnInt => a.Int?
    case AnError => a.Int? && a.i != -0x8000_0000
    case ALongLong => a.Wide?
    case AString => a.Str?
    case APointer => a.Ptr?
  }

  predicate Match(args: seq<Arg>, kinds: seq<Kind>) {
    |kinds| <= |args| && forall j :: 0 <= j < |kinds| ==> Is(args[j], kinds[j])
  }

  function KindsOfConversion(ch: Byte, lflag: nat): seq<Kind> {
    if ch == 'c' as int then [AnInt]
    else if ch == 'e' as int then [AnError]
    else if ch == 's' as int then [AString]
    else if ch == 'd' as int || ch == 'u' as int || ch == 'x' as int then [if lflag >= 2 then ALongLong else AnInt]
    else if ch == 'p' as int then [APointer]
    else []
  }

  // The position behind the flag or number at i.
  function Skip(fmt: seq<Byte>, i: nat): (j: nat)
    requires i < |fmt|
    ensures i < j <= |fmt|
  {
    if IsDigit(fmt[i]) && fmt[i] != ZERO then ReadNumber(fmt, i + 1, fmt[i] - '0' as int).1 else i + 1
  }

  // The conversion character of an escape that is scanned from i on.
  function ConversionAt(fmt: seq<Byte>, i: nat): (k: nat)
    requires i <= |fmt|
    ensures i <= k <= |fmt| && !IsFlag(At(fmt, k))
    decreases |fmt| - i
  {
    if IsFlag(At(fmt, i)) then ConversionAt(fmt, Skip(fmt, i)) else i
  }

  function EscapeKinds(fmt: seq<Byte>, i: nat, lflag: nat): seq<Kind>
    requires i <= |fmt|
    decreases |fmt| - i
  {
    var ch := At(fmt, i);
    if !IsFlag(ch) then KindsOfConversion(ch, lflag)
    else (if ch == STAR then [AnInt] else []) + EscapeKinds(fmt, Skip(fmt, i), if ch == 'l' as int then lflag + 1 else lflag)
  }

  // Every number among the flags is an int.
  predicate NumbersFit(fmt: seq<Byte>, i: nat)
    requires i <= |fmt|
    decreases |fmt| - i
  {
    if !IsFlag(At(fmt, i)) then true
    else
      && (IsDigit(fmt[i]) && fmt[i] != ZERO ==> ReadNumber(fmt, i + 1, fmt[i] - '0' as int).0 <= INT_MAX)
      && NumbersFit(fmt, Skip(fmt, i))
  }

  // Where the scan goes on after the escape whose '%' is just before own.
  function After(fmt: seq<Byte>, own: nat): (next: nat)
    requires own <= |fmt|
    ensures own <= next <= |fmt|
  {
    var k := ConversionAt(fmt, own);
    if IsUnknown(At(fmt, k)) then own else k + 1
  }

  // What a format takes from position i on.
  function FormatKinds(fmt: seq<Byte>, i: nat): seq<Kind>
    requires i <= |fmt|
    decreases |fmt| - i
  {
    if i == |fmt| then []
    else if fmt[i] != PERCENT then FormatKinds(fmt, i + 1)
    else EscapeKinds(fmt, i + 1, 0) + FormatKinds(fmt, After(fmt, i + 1))
  }

  predicate FormatFits(fmt: seq<Byte>, i: nat)
    requires i <= |fmt|
    decreases |fmt| - i
  {
    if i == |fmt| then true
    else if fmt[i] != PERCENT then FormatFits(fmt, i + 1)
    else NumbersFit(fmt, i + 1) && FormatFits(fmt, After(fmt, i + 1))
  }

  lemma MatchSplits(args: seq<Arg>, k1: seq<Kind>, k2: seq<Kind>)
    ensures Match(args, k1 + k2) <==> Match(args, k1) && Match(args[|k1|..], k2)
  {
    if Match(args, k1 + k2) {
      forall j | 0 <= j < |k1| ensures Is(args[j], k1[j]) { assert (k1 + k2)[j] == k1[j]; }
      forall j | 0 <= j < |k2| ensures Is(args[|k1|..][j], k2[j]) { assert (k1 + k2)[|k1| + j] == k2[j]; }
    }
    if Match(args, k1) && Match(args[|k1|..], k2) {
      forall j | 0 <= j < |k1 + k2| ensures Is(args[j], (k1 + k2)[j]) {
        if j >= |k1| { assert args[j] == args[|k1|..][j - |k1|]; }
      }
    }
  }

  lemma ConvertFits(ch: Byte, f: Flags, args: seq<Arg>)
    requires !IsFlag(ch)
    ensures var (c, kinds) := (Convert(ch, f, args), KindsOfConversion(ch, f.lflag));
      && (c != Undefined <==> Match(args, kinds))
      && (c == Literal <==> IsUnknown(ch))
      && (c == Literal ==> kinds == [])
      && (c.Out? ==> c.rest == args[|kinds|..])
  {
  }

  // The escape that is scanned from i on takes what its flags and its conversion
  // say, or is undefined, and ends where they say.
  ghost predicate Agrees(fmt: seq<Byte>, own: nat, i: nat, lflag: nat, args: seq<Arg>, e: Escape)
    requires i <= |fmt|
  {
    var kinds, k := EscapeKinds(fmt, i, lflag), ConversionAt(fmt, i);
    && (e.Escape? <==> NumbersFit(fmt, i) && Match(args, kinds))
    && (e.Escape? ==> e.rest == args[|kinds|..] && e.next == if IsUnknown(At(fmt, k)) then own else k + 1)
  }

  lemma NumberAgrees(fmt: seq<Byte>, own: nat, i: nat, lflag: nat, args: seq<Arg>, e: Escape)
    requires i < |fmt| && IsDigit(fmt[i]) && fmt[i] != ZERO
    requires Agrees(fmt, own, Skip(fmt, i), lflag, args, e)
    ensures Agrees(fmt, own, i, lflag, args,
      if ReadNumber(fmt, i + 1, fmt[i] - '0' as int).0 > INT_MAX then Broken else e)
  {
    assert EscapeKinds(fmt, i, lflag) == EscapeKinds(fmt, Skip(fmt, i), lflag);
    assert ConversionAt(fmt, i) == ConversionAt(fmt, Skip(fmt, i));
  }

  lemma FlagAgrees(fmt: seq<Byte>, own: nat, i: nat, lflag: nat, args: seq<Arg>, e: Escape)
    requires i < |fmt| && IsFlag(fmt[i]) && fmt[i] != STAR && (IsDigit(fmt[i]) ==> fmt[i] == ZERO)
    requires Agrees(fmt, own, i + 1, if fmt[i] == 'l' as int then lflag + 1 else lflag, args, e)
    ensures Agrees(fmt, own, i, lflag, args, e)
  {
    assert EscapeKinds(fmt, i, lflag) == EscapeKinds(fmt, i + 1, if fmt[i] == 'l' as int then lflag + 1 else lflag);
    assert ConversionAt(fmt, i) == ConversionAt(fmt, i + 1) && (NumbersFit(fmt, i) <==> NumbersFit(fmt, i + 1));
  }

  lemma StarAgrees(fmt: seq<Byte>, own: nat, i: nat, lflag: nat, args: seq<Arg>, e: Escape)
    requires i < |fmt| && fmt[i] == STAR
    requires args != [] && args[0].Int? ==> Agrees(fmt, own, i + 1, lflag, args[1..], e)
    ensures Agrees(fmt, own, i, lflag, args, if args != [] && args[0].Int? then e else Broken)
  {
    MatchSplits(args, [AnInt], EscapeKinds(fmt, i + 1, lflag));
    assert EscapeKinds(fmt, i, lflag) == [AnInt] + EscapeKinds(fmt, i + 1, lflag);
    assert ConversionAt(fmt, i) == ConversionAt(fmt, i + 1) && (NumbersFit(fmt, i) <==> NumbersFit(fmt, i + 1));
  }

  lemma EndAgrees(fmt: seq<Byte>, own: nat, i: nat, f: Flags, args: seq<Arg>)
    requires own <= i <= |fmt| && !IsFlag(At(fmt, i))
    ensures Agrees(fmt, own, i, f.lflag, args, ScanEscape(fmt, own, i, f, args))
  {
    ConvertFits(At(fmt, i), f, args);
  }

  lemma LongFlags(f: Flags, ch: Byte, args: seq<Arg>)
    requires IsFlag(ch) && (IsDigit(ch) ==> ch == ZERO) && (ch == STAR ==> args != [] && args[0].Int?)
    ensures WithFlag(f, ch, args).lflag == if ch == 'l' as int then f.lflag + 1 else f.lflag
  {
  }

  lemma {:induction false} EscapeFits(fmt: seq<Byte>, own: nat, i: nat, f: Flags, args: seq<Arg>)
    requires own <= i <= |fmt|
    ensures Agrees(fmt, own, i, f.lflag, args, ScanEscape(fmt, own, i, f, args))
    decreases |fmt| - i, 1
  {
    if i == |fmt| || !IsFlag(fmt[i]) {
      EndAgrees(fmt, own, i, f, args);
    } else if IsDigit(fmt[i]) && fmt[i] != ZERO {
      var (n, j) := ReadNumber(fmt, i + 1, fmt[i] - '0' as int);
      ScanNumber(fmt, own, i, f, args);
      EscapeFits(fmt, own, j, WithNumber(f, n), args);
      NumberAgrees(fmt, own, i, f.lflag, args, ScanEscape(fmt, own, j, WithNumber(f, n), args));
    } else {
      ScanFlag(fmt, own, i, f, args);
      if fmt[i] == STAR && (args == [] || !args[0].Int?) {
        StarAgrees(fmt, own, i, f.lflag, args, Broken);
      } else {
        FlagFits(fmt, own, i, f, args);
      }
    }
  }

  // One flag that is no number and lacks no argument.
  lemma {:induction false} FlagFits(fmt: seq<Byte>, own: nat, i: nat, f: Flags, args: seq<Arg>)
    requires own <= i < |fmt| && IsFlag(fmt[i]) && (IsDigit(fmt[i]) ==> fmt[i] == ZERO)
    requires fmt[i] == STAR ==> args != [] && args[0].Int?
    ensures Agrees(fmt, own, i, f.lflag, args,
      ScanEscape(fmt, own, i + 1, WithFlag(f, fmt[i], args), if fmt[i] == STAR then args[1..] else args))
    decreases |fmt| - i, 0
  {
    var f', rest := WithFlag(f, fmt[i], args), if fmt[i] == STAR then args[1..] else args;
    var e := ScanEscape(fmt, own, i + 1, f', rest);
    LongFlags(f, fmt[i], args);
    EscapeFits(fmt, own, i + 1, f', rest);
    if fmt[i] == STAR {
      StarAgrees(fmt, own, i, f.lflag, args, e);
    } else {
      FlagAgrees(fmt, own, i, f.lflag, args, e);
    }
  }

  lemma {:induction false} EmitFits(fmt: seq<Byte>, i: nat, args: seq<Arg>)
    requires i <= |fmt|
    ensures Emit(fmt, i, args).Some? <==> FormatFits(fmt, i) && Match(args, FormatKinds(fmt, i))
    decreases |fmt| - i
  {
    if i < |fmt| {
      if fmt[i] != PERCENT {
        EmitFits(fmt, i + 1, args);
      } else {
        var kinds, next := EscapeKinds(fmt, i + 1, 0), After(fmt, i + 1);
        EscapeFits(fmt, i + 1, i + 1, NO_FLAGS, args);
        MatchSplits(args, kinds, FormatKinds(fmt, next));
        if Match(args, kinds) { EmitFits(fmt, next, args[|kinds|..]); }
      }
    }
  }

  function Sample(k: Kind): (a: Arg)
    ensures Is(a, k)
  {
    match k
    case AnInt => Int(0)
    case AnError => Int(0)
    case ALongLong => Wide(0)
    case AString => Str(None)
    case APointer => Ptr(0)
  }

  // A format has arguments that fit it exactly if its numbers fit an int.
  lemma SomeArgumentsFitIff(fmt: seq<Byte>)
    ensures (exists args :: Emit(fmt, 0, args).Some?) <==> FormatFits(fmt, 0)
  {
    if FormatFits(fmt, 0) {
      var kinds := FormatKinds(fmt, 0);
      var args := seq(|kinds|, j requires 0 <= j < |kinds| => Sample(kinds[j]));
      EmitFits(fmt, 0, args);
    }
    if args :| Emit(fmt, 0, args).Some? {
      EmitFits(fmt, 0, args);
    }
  }
}
