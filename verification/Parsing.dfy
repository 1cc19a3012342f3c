/**
 What strtol makes of any string: blanks and tabs, a sign, a prefix and digits
 (lib/string.c:180-225).
 */
module Parsing {
  import opened Words
  import opened Numbers

  // The digit characters, upper case meaning the same as lower case.
  lemma DigitValues(c: Byte)
    ensures DigitValue(c) ==
      if '0' as int <= c <= '9' as int then c - '0' as int
      else if 'a' as int <= c <= 'z' as int then c - 'a' as int + 10
      else if 'A' as int <= c <= 'Z' as int then DigitValue(c + ('a' as int - 'A' as int))
      else -1
  {
  }

  // ----- the parts of a string

  // Blanks and tabs up to position i, and no more behind.
  predicate BlanksEnd(s: seq<Byte>, i: nat) {
    && i <= |s| && (forall q :: 0 <= q < i ==> s[q] == ' ' as int || s[q] == '\t' as int)
    && (i < |s| ==> s[i] != ' ' as int && s[i] != '\t' as int)
  }

  // A sign from i to j, or none.
  predicate SignEnds(s: seq<Byte>, i: nat, j: nat) {
    if CharAt(s, i, '+' as int) || CharAt(s, i, '-' as int) then j == i + 1 else j == i
  }

  // A prefix from j to k, or none, and the base b that it makes of the one given:
  // 0x is allowed in base 16 and asks for it in base 0, where a leading 0 means octal.
  predicate PrefixEnds(s: seq<Byte>, j: nat, base: nat, k: nat, b: nat) {
    var hex := CharAt(s, j, '0' as int) && CharAt(s, j + 1, 'x' as int);
    if base == 0 then
      (if hex then k == j + 2 && b == 16 else if CharAt(s, j, '0' as int) then k == j + 1 && b == 8 else k == j && b == 10)
    else if base == 16 && hex then k == j + 2 && b == 16
    else k == j && b == base
  }

  // Digits of base b from k to e, and none behind.
  predicate DigitsEnd(s: seq<Byte>, k: nat, b: nat, e: nat) {
    && k <= e <= |s| && (forall q :: k <= q < e ==> 0 <= DigitValue(s[q]) < b)
    && (e < |s| ==> !(0 <= DigitValue(s[e]) < b))
  }

  // ----- the value

  lemma {:induction false} SkipsBlanks(s: seq<Byte>, q: nat, i: nat)
    requires BlanksEnd(s, i) && q <= i
    ensures SkipBlanks(s, q) == i
    decreases i - q
  {
    if q < i { SkipsBlanks(s, q + 1, i); }
  }

  lemma {:induction false} ReadsRun(s: seq<Byte>, k: nat, b: nat, e: nat, q: nat, v: nat)
    requires DigitsEnd(s, k, b, e) && k <= q <= e
    ensures ReadDigits(s, q, b, Wrap32(v)) == (Wrap32(ValueOf(s[q..e], b, v)), e)
    decreases e - q
  {
    if q < e {
      var d := DigitValue(s[q]);
      assert s[q..e][0] == s[q] && s[q..e][1..] == s[q + 1..e];
      WrapStep(v, b, d);
      ReadsRun(s, k, b, e, q + 1, v * b + d);
    }
  }

  lemma WrapNegative(v: nat)
    ensures Wrap32(-(Wrap32(v) as int)) == Wrap32(-(v as int))
  {
    var q := (v + 0x8000_0000) / TWO32;
    assert Wrap32(v) == v - q * TWO32;
    WrapMultiple(-(v as int), -q);
  }

  // Every string splits into these parts in one way; the value is that of the
  // digits, negated behind a -, modulo 2^32, and the end is behind the digits.
  lemma StrtolMeans(s: seq<Byte>, base: nat, i: nat, j: nat, k: nat, b: nat, e: nat)
    requires BlanksEnd(s, i) && SignEnds(s, i, j) && PrefixEnds(s, j, base, k, b) && DigitsEnd(s, k, b, e)
    ensures var v := ValueOf(s[k..e], b, 0);
      Strtol(s, base) == (Wrap32(if CharAt(s, i, '-' as int) then -(v as int) else v), e)
  {
    SkipsBlanks(s, 0, i);
    ReadsRun(s, k, b, e, k, 0);
    assert Wrap32(0) == 0;
    WrapNegative(ValueOf(s[k..e], b, 0));
  }

  // The parts are there for every string.
  lemma StrtolSplits(s: seq<Byte>, base: nat)
    ensures exists i, j, k, b, e :: BlanksEnd(s, i) && SignEnds(s, i, j) && PrefixEnds(s, j, base, k, b) && DigitsEnd(s, k, b, e)
  {
    var i := BlanksLength(s, 0);
    var j := if CharAt(s, i, '+' as int) || CharAt(s, i, '-' as int) then i + 1 else i;
    var (k, b) := Prefix(s, j, base);
    var e := RunEnd(s, k, b);
    assert BlanksEnd(s, i) && SignEnds(s, i, j) && PrefixEnds(s, j, base, k, b) && DigitsEnd(s, k, b, e);
  }

  function BlanksLength(s: seq<Byte>, q: nat): (i: nat)
    requires q <= |s| && forall p :: 0 <= p < q ==> s[p] == ' ' as int || s[p] == '\t' as int
    ensures BlanksEnd(s, i)
    decreases |s| - q
  {
    if q < |s| && (s[q] == ' ' as int || s[q] == '\t' as int) then BlanksLength(s, q + 1) else q
  }

  function RunEnd(s: seq<Byte>, k: nat, b: nat): (e: nat)
    requires k <= |s|
    ensures DigitsEnd(s, k, b, e)
    decreases |s| - k
  {
    if k < |s| && 0 <= DigitValue(s[k]) < b then RunEnd(s, k + 1, b) else k
  }
}
