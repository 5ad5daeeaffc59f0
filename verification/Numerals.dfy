/**
  Digit strings to Chinese numerals. The text is read back by an independent
  left-to-right evaluator, and comes out as the number it was made from.
 */
module Numerals {
  import opened Options

  // ---------------------------------------------------------------------
  // Decimal digit strings
  // ---------------------------------------------------------------------

  const INT_MAX := 2147483647

  predicate IsDigit(c: char) { '0' <= c <= '9' }
  predicate AllDigits(s: string) { forall i :: 0 <= i < |s| ==> IsDigit(s[i]) }

  function DigitValue(c: char): (d: nat)
    requires IsDigit(c)
    ensures d < 10
  {
    c as int - '0' as int
  }

  function DigitChar(d: nat): (c: char)
    requires d < 10
    ensures IsDigit(c) && DigitValue(c) == d
  {
    ('0' as int + d) as char
  }

  function Value(s: string): nat
    requires AllDigits(s)
  {
    if s == "" then 0 else Value(s[..|s| - 1]) * 10 + DigitValue(s[|s| - 1])
  }

  /** a * 10^k. */
  function Scaled(a: nat, k: nat): (r: nat)
    ensures r >= a
  {
    if k == 0 then a else 10 * Scaled(a, k - 1)
  }

  function Pow10(k: nat): nat { Scaled(1, k) }

  /** The decimal form without leading zeros. */
  function ToString(n: nat): (s: string)
    ensures s != "" && AllDigits(s)
  {
    if n < 10 then [DigitChar(n)] else ToString(n / 10) + [DigitChar(n % 10)]
  }

  lemma {:induction false} DigitCount(n: nat, k: nat)
    requires k >= 1
    ensures |ToString(n)| <= k <==> n < Pow10(k)
    decreases k
  {
    if n >= 10 {
      if k == 1 {
        assert Pow10(1) == 10;
      } else {
        DigitCount(n / 10, k - 1);
      }
    } else {
      assert Pow10(k) == 10 * Pow10(k - 1);
    }
  }

  /** The last `u` digits and the rest, as numbers. */
  lemma {:induction false} ValueSplit(s: string, u: nat)
    requires AllDigits(s) && u <= |s|
    ensures Value(s[|s| - u..]) < Pow10(u)
    ensures Value(s) == Scaled(Value(s[..|s| - u]), u) + Value(s[|s| - u..])
    decreases u
  {
    if u == 0 {
      assert s[..|s|] == s;
    } else {
      var t, n := s[..|s| - 1], |s| - u;
      ValueSplit(t, u - 1);
      assert |t| - (u - 1) == n && t[..n] == s[..n];
      assert s[n..][..u - 1] == s[n..|s| - 1] == t[n..];
    }
  }

  lemma ValueBound(s: string)
    requires AllDigits(s)
    ensures Value(s) < Pow10(|s|)
  {
    ValueSplit(s, |s|);
    assert s[0..] == s && s[..0] == "";
  }

  // ---------------------------------------------------------------------
  // The integer parser
  // ---------------------------------------------------------------------

  const INT_MIN := -2147483648

  predicate IsSpace(c: char) { c == ' ' || '\t' <= c <= '\r' }

  function SkipSpace(s: string, i: nat): (k: nat)
    requires i <= |s|
    ensures i <= k <= |s|
    decreases |s| - i
  {
    if i < |s| && IsSpace(s[i]) then SkipSpace(s, i + 1) else i
  }

  function DigitsEnd(s: string, i: nat): (k: nat)
    requires i <= |s|
    ensures i <= k <= |s| && AllDigits(s[i..k])
    decreases |s| - i
  {
    if i < |s| && IsDigit(s[i]) then
      var k := DigitsEnd(s, i + 1);
      assert s[i..k] == [s[i]] + s[i + 1..k];
      k
    else i
  }

  /** Space, a sign, and the digits that follow; what comes after them is ignored. None is the exception. */
  function Stoi(s: string): Option<int> {
    var i := SkipSpace(s, 0);
    var signed := i < |s| && (s[i] == '-' || s[i] == '+');
    var j := if signed then i + 1 else i;
    var k := DigitsEnd(s, j);
    var n: int := if signed && s[i] == '-' then 0 - Value(s[j..k]) else Value(s[j..k]);
    if j == k || n < INT_MIN || n > INT_MAX then None else Some(n)
  }

  function ToDecimal(n: int): string { if n < 0 then "-" + ToString(-n) else ToString(n) }

  lemma {:induction false} DigitsAll(s: string, i: nat)
    requires AllDigits(s) && i <= |s|
    ensures DigitsEnd(s, i) == |s|
    decreases |s| - i
  {
    if i < |s| {
      DigitsAll(s, i + 1);
    }
  }

  /** On digits it fails only for the empty string and beyond the machine range. */
  lemma StoiOfDigits(s: string)
    requires AllDigits(s)
    ensures Stoi(s) == if s == "" || Value(s) > INT_MAX then None else Some(Value(s))
  {
    DigitsAll(s, 0);
    assert s[0..|s|] == s;
  }

  /** The number is never written longer than the text it was read from. */
  lemma StoiShortens(s: string)
    requires Stoi(s).Some?
    ensures |ToDecimal(Stoi(s).value)| <= |s|
  {
    var i := SkipSpace(s, 0);
    var j := if s[i] == '-' || s[i] == '+' then i + 1 else i;
    var d := s[j..DigitsEnd(s, j)];
    ValueBound(d);
    DigitCount(Value(d), |d|);
  }

  // ---------------------------------------------------------------------
  // Writing the numeral
  // ---------------------------------------------------------------------

  type Digits = map<string, string>

  /** A digit or unit character; the alternative form of one is used in phone numbers. */
  function ReadDigit(c: char): Option<nat> {
    if c == '零' then Some(0) else if c == '一' || c == '幺' then Some(1) else if c == '二' then Some(2)
    else if c == '三' then Some(3) else if c == '四' then Some(4) else if c == '五' then Some(5)
    else if c == '六' then Some(6) else if c == '七' then Some(7) else if c == '八' then Some(8)
    else if c == '九' then Some(9) else None
  }

  /** Every digit has a one-character text that reads as that digit. */
  predicate Faithful(dm: Digits) {
    forall d :: 0 <= d < 10 ==> ReadsAs(dm, d)
  }

  predicate ReadsAs(dm: Digits, d: nat)
    requires d < 10
  {
    [DigitChar(d)] in dm && |dm[[DigitChar(d)]]| == 1 && ReadDigit(dm[[DigitChar(d)]][0]) == Some(d)
  }

  function UnitText(u: nat): string {
    if u == 1 then "十" else if u == 2 then "百" else if u == 3 then "千" else if u == 4 then "万"
    else if u == 8 then "亿" else ""
  }

  /** The largest unit for a number of `len` digits. */
  function LargestUnit(len: nat): nat {
    if len <= 1 then 0 else if len == 2 then 1 else if len == 3 then 2 else if len == 4 then 3
    else if len <= 8 then 4 else 8
  }

  function Around(first: Option<string>, unit: string, second: Option<string>): Option<string> {
    if first.Some? && second.Some? then Some(first.value + unit + second.value) else None
  }

  /** The numeral text; None stands for the exception thrown by the integer parser. */
  function CreateTextValue(dm: Digits, numStr: string, useZero: bool): Option<string>
    requires Faithful(dm)
    decreases |numStr|, 1
  {
    if Stoi(numStr).None? then None
    else
      StoiShortens(numStr);
      TextOfNumber(dm, numStr, useZero, ToDecimal(Stoi(numStr).value))
  }

  /** The text of a string once it is parsed; `numLstrip` is the number without leading zeros. */
  function TextOfNumber(dm: Digits, numStr: string, useZero: bool, numLstrip: string): Option<string>
    requires Faithful(dm) && |numLstrip| <= |numStr|
    decreases |numStr|, 0
  {
    var len := |numLstrip|;
    if len == 0 then Some("")
    else if len == 1 then
      if useZero && len < |numStr| then Some(Text(dm, "0") + Text(dm, numLstrip)) else Some(Text(dm, numLstrip))
    else
      var unit := LargestUnit(len);
      var first := CreateTextValue(dm, numStr[..|numStr| - unit], useZero);
      var second := CreateTextValue(dm, numStr[|numStr| - unit..], useZero);
      Around(first, UnitText(unit), second)
  }

  /** The same on digit strings, where parsing is taking the value. */
  function DigitText(dm: Digits, s: string, useZero: bool): Option<string>
    requires Faithful(dm) && AllDigits(s)
    decreases |s|
  {
    if s == "" || Value(s) > INT_MAX then None
    else
      var stripped := ToString(Value(s));
      ValueBound(s);
      DigitCount(Value(s), |s|);
      if |stripped| == 1 then
        assert ReadsAs(dm, 0) && ReadsAs(dm, Value(s));
        if useZero && 1 < |s| then Some(dm["0"] + dm[stripped]) else Some(dm[stripped])
      else
        var unit := LargestUnit(|stripped|);
        var first, second := DigitText(dm, s[..|s| - unit], useZero), DigitText(dm, s[|s| - unit..], useZero);
        Around(first, UnitText(unit), second)
  }

  lemma TextOfParsed(dm: Digits, s: string, useZero: bool)
    requires Faithful(dm) && AllDigits(s) && s != "" && Value(s) <= INT_MAX
    ensures |ToString(Value(s))| <= |s|
    ensures CreateTextValue(dm, s, useZero) == TextOfNumber(dm, s, useZero, ToString(Value(s)))
  {
    StoiOfDigits(s);
    StoiShortens(s);
  }

  lemma TextOfFailed(dm: Digits, s: string, useZero: bool)
    requires Faithful(dm) && AllDigits(s) && (s == "" || Value(s) > INT_MAX)
    ensures CreateTextValue(dm, s, useZero) == None
  {
    StoiOfDigits(s);
  }

  lemma TextOfOneDigit(dm: Digits, s: string, useZero: bool)
    requires Faithful(dm) && AllDigits(s) && s != "" && Value(s) < 10
    ensures CreateTextValue(dm, s, useZero) == DigitText(dm, s, useZero)
  {
    TextOfParsed(dm, s, useZero);
    UnitOf(Value(s));
    assert ReadsAs(dm, 0) && ReadsAs(dm, Value(s));
  }

  lemma TextOfTwoPieces(dm: Digits, s: string, useZero: bool, first: string, second: string)
    requires Faithful(dm) && AllDigits(s) && 10 <= Value(s) <= INT_MAX
    requires var u := UnitFor(Value(s)); |s| >= u && first == s[..|s| - u] && second == s[|s| - u..]
    requires CreateTextValue(dm, first, useZero) == DigitText(dm, first, useZero)
    requires CreateTextValue(dm, second, useZero) == DigitText(dm, second, useZero)
    ensures CreateTextValue(dm, s, useZero) == DigitText(dm, s, useZero)
  {
    TextOfParsed(dm, s, useZero);
    UnitOf(Value(s));
  }

  lemma {:induction false} TextOfDigits(dm: Digits, s: string, useZero: bool)
    requires Faithful(dm) && AllDigits(s)
    ensures CreateTextValue(dm, s, useZero) == DigitText(dm, s, useZero)
    decreases |s|
  {
    if s == "" || Value(s) > INT_MAX {
      TextOfFailed(dm, s, useZero);
    } else if Value(s) < 10 {
      TextOfOneDigit(dm, s, useZero);
    } else {
      var first, second := Pieces(s);
      TextOfDigits(dm, first, useZero);
      TextOfDigits(dm, second, useZero);
      TextOfTwoPieces(dm, s, useZero, first, second);
    }
  }

  // ---------------------------------------------------------------------
  // Reading it back
  // ---------------------------------------------------------------------

  /** Finished sections, the section being read, and the digit just read. */
  datatype Reading = Reading(total: nat, section: nat, digit: nat)

  /** A flat evaluator: one character at a time, no nesting. */
  function Read(r: Reading, c: char): Reading {
    if ReadDigit(c).Some? then r.(digit := ReadDigit(c).value)
    else if c == '十' then Reading(r.total, r.section + r.digit * 10, 0)
    else if c == '百' then Reading(r.total, r.section + r.digit * 100, 0)
    else if c == '千' then Reading(r.total, r.section + r.digit * 1000, 0)
    else if c == '万' then Reading(r.total + (r.section + r.digit) * 10000, 0, 0)
    else if c == '亿' then Reading((r.total + r.section + r.digit) * 100000000, 0, 0)
    else r
  }

  function ReadAll(r: Reading, text: string): Reading
    decreases |text|
  {
    if text == "" then r else ReadAll(Read(r, text[0]), text[1..])
  }

  function Sum(r: Reading): nat { r.total + r.section + r.digit }

  /** The number a numeral denotes; a leading bare ten counts as one ten. */
  function Evaluate(text: string): nat {
    Sum(ReadAll(Reading(0, 0, if text != "" && text[0] == '十' then 1 else 0), text))
  }

  lemma {:induction false} ReadConcat(r: Reading, a: string, b: string)
    ensures ReadAll(r, a + b) == ReadAll(ReadAll(r, a), b)
    decreases |a|
  {
    if a == "" {
      assert a + b == b;
    } else {
      assert (a + b)[1..] == a[1..] + b;
      ReadConcat(Read(r, a[0]), a[1..], b);
    }
  }

  /** Reading "first unit second" in three parts. */
  lemma ReadParts(r: Reading, first: string, unit: char, second: string)
    ensures ReadAll(r, first + [unit] + second) == ReadAll(Read(ReadAll(r, first), unit), second)
  {
    ReadConcat(r, first + [unit], second);
    ReadConcat(r, first, [unit]);
    assert [unit][1..] == "";
  }

  /** The unit of a number of at least two digits. */
  function UnitFor(n: nat): nat {
    if n < 100 then 1 else if n < 1000 then 2 else if n < 10000 then 3 else if n < 100000000 then 4 else 8
  }

  lemma UnitOf(n: nat)
    ensures |ToString(n)| == 1 <==> n < 10
    ensures n >= 10 ==> LargestUnit(|ToString(n)|) == UnitFor(n)
  {
    assert Pow10(1) == 10 && Pow10(2) == 100 && Pow10(3) == 1000 && Pow10(4) == 10000;
    assert Pow10(5) == 100000 && Pow10(6) == 1000000 && Pow10(7) == 10000000 && Pow10(8) == 100000000;
    DigitCount(n, 1);
    DigitCount(n, 2);
    DigitCount(n, 3);
    DigitCount(n, 4);
    DigitCount(n, 8);
  }

  /** Both pieces are non-empty and shorter, and carry the quotient and the remainder. */
  lemma Pieces(s: string) returns (first: string, second: string)
    requires AllDigits(s) && 10 <= Value(s) <= INT_MAX
    ensures var u := UnitFor(Value(s));
            && 0 < |first| < |s| && 0 < |second| < |s| && first + second == s
            && |s| >= u && first == s[..|s| - u] && second == s[|s| - u..]
            && Value(s) == Scaled(Value(first), u) + Value(second) && Value(second) < Pow10(u)
  {
    var u := UnitFor(Value(s));
    ValueBound(s);
    UnitOf(Value(s));
    DigitCount(Value(s), |s|);
    first, second := s[..|s| - u], s[|s| - u..];
    ValueSplit(s, u);
  }

  /** The text of a larger number is that of its pieces around the unit. */
  lemma TextOfPieces(dm: Digits, s: string, useZero: bool, first: string, second: string, f: string, g: string)
    requires Faithful(dm) && AllDigits(s) && 10 <= Value(s) <= INT_MAX
    requires var u := UnitFor(Value(s)); |s| >= u && first == s[..|s| - u] && second == s[|s| - u..]
    requires DigitText(dm, first, useZero) == Some(f) && DigitText(dm, second, useZero) == Some(g)
    ensures DigitText(dm, s, useZero) == Some(f + UnitText(UnitFor(Value(s))) + g)
  {
    UnitOf(Value(s));
  }

  /** The text `t` of `s`; it always begins with a digit. */
  ghost predicate Writes(dm: Digits, s: string, useZero: bool, t: string)
    requires Faithful(dm) && AllDigits(s)
  {
    DigitText(dm, s, useZero) == Some(t) && t != "" && ReadDigit(t[0]).Some?
  }

  /** Reading the text of a larger number is reading its first piece, the unit, and its second piece. */
  lemma ReadWhole(dm: Digits, s: string, useZero: bool, r: Reading, first: string, second: string, f: string, g: string)
    returns (t: string)
    requires Faithful(dm) && AllDigits(s) && 10 <= Value(s) <= INT_MAX
    requires var u := UnitFor(Value(s)); |s| >= u && first == s[..|s| - u] && second == s[|s| - u..]
    requires Writes(dm, first, useZero, f) && Writes(dm, second, useZero, g)
    ensures Writes(dm, s, useZero, t)
    ensures ReadAll(r, t) == ReadAll(Read(ReadAll(r, f), UnitText(UnitFor(Value(s)))[0]), g)
  {
    var unit := UnitText(UnitFor(Value(s)));
    t := f + unit + g;
    TextOfPieces(dm, s, useZero, first, second, f, g);
    ReadParts(r, f, unit[0], g);
  }

  /** A one-digit number sets the digit, whatever zeros precede it. */
  lemma ReadDigitText(dm: Digits, s: string, useZero: bool, r: Reading) returns (t: string)
    requires Faithful(dm) && AllDigits(s) && s != "" && Value(s) < 10
    ensures Writes(dm, s, useZero, t) && ReadAll(r, t) == r.(digit := Value(s))
  {
    UnitOf(Value(s));
    assert ReadsAs(dm, 0) && ReadsAs(dm, Value(s));
    var zero, digit := dm["0"], dm[ToString(Value(s))];
    assert digit[1..] == "" && zero[1..] == "";
    ReadConcat(r, zero, digit);
    t := DigitText(dm, s, useZero).value;
  }

  lemma ScaledSmall(a: nat, u: nat)
    ensures u == 1 ==> Scaled(a, u) == a * 10 && Pow10(u) == 10
    ensures u == 2 ==> Scaled(a, u) == a * 100 && Pow10(u) == 100
    ensures u == 3 ==> Scaled(a, u) == a * 1000 && Pow10(u) == 1000
    ensures u == 4 ==> Scaled(a, u) == a * 10000 && Pow10(u) == 10000
    ensures u == 8 ==> Scaled(a, u) == a * 100000000 && Pow10(u) == 100000000
  {
    assert Scaled(a, 1) == 10 * a && Scaled(a, 2) == 100 * a && Scaled(a, 3) == 1000 * a && Scaled(a, 4) == 10000 * a;
    assert Scaled(a, 5) == 100000 * a && Scaled(a, 6) == 1000000 * a && Scaled(a, 7) == 10000000 * a;
    assert Pow10(1) == 10 && Pow10(2) == 100 && Pow10(3) == 1000 && Pow10(4) == 10000;
    assert Pow10(5) == 100000 && Pow10(6) == 1000000 && Pow10(7) == 10000000 && Pow10(8) == 100000000;
  }

  /** A number below 10^4 adds to the current section. */
  lemma {:induction false} ReadSection(dm: Digits, s: string, useZero: bool, r: Reading) returns (t: string)
    requires Faithful(dm) && AllDigits(s) && s != "" && Value(s) < 10000
    ensures Writes(dm, s, useZero, t)
    ensures ReadAll(r, t).total == r.total
    ensures ReadAll(r, t).section + ReadAll(r, t).digit == r.section + Value(s)
    decreases |s|
  {
    if Value(s) < 10 {
      t := ReadDigitText(dm, s, useZero, r);
    } else {
      var first, second := Pieces(s);
      var u := UnitFor(Value(s));
      ScaledSmall(Value(first), u);
      var f := ReadDigitText(dm, first, useZero, r);
      var g := ReadSection(dm, second, useZero, Read(r.(digit := Value(first)), UnitText(u)[0]));
      t := ReadWhole(dm, s, useZero, r, first, second, f, g);
    }
  }

  /** A number below 10^8, read from a fresh section, adds to the total. */
  lemma ReadBelowYi(dm: Digits, s: string, useZero: bool, r: Reading) returns (t: string)
    requires Faithful(dm) && AllDigits(s) && s != "" && Value(s) < 100000000 && r.section == 0
    ensures Writes(dm, s, useZero, t) && Sum(ReadAll(r, t)) == r.total + Value(s)
  {
    if Value(s) < 10000 {
      t := ReadSection(dm, s, useZero, r);
    } else {
      var first, second := Pieces(s);
      ScaledSmall(Value(first), 4);
      var f := ReadSection(dm, first, useZero, r);
      var g := ReadSection(dm, second, useZero, Read(ReadAll(r, f), '万'));
      t := ReadWhole(dm, s, useZero, r, first, second, f, g);
    }
  }

  /** The full text of any number the parser accepts reads back as that number. */
  lemma TextKeepsValue(dm: Digits, s: string, useZero: bool, digit: nat) returns (t: string)
    requires Faithful(dm) && AllDigits(s) && s != "" && Value(s) <= INT_MAX
    ensures Writes(dm, s, useZero, t) && Sum(ReadAll(Reading(0, 0, digit), t)) == Value(s)
  {
    var r := Reading(0, 0, digit);
    if Value(s) < 100000000 {
      t := ReadBelowYi(dm, s, useZero, r);
    } else {
      var first, second := Pieces(s);
      ScaledSmall(Value(first), 8);
      var f := ReadSection(dm, first, useZero, r);
      var g := ReadBelowYi(dm, second, useZero, Read(ReadAll(r, f), '亿'));
      t := ReadWhole(dm, s, useZero, r, first, second, f, g);
    }
  }

  // ---------------------------------------------------------------------
  // Where two zeros are written
  // ---------------------------------------------------------------------

  predicate HasDoubleZero(t: string) { exists i :: 0 <= i < |t| - 1 && ZerosAt(t, i) }

  predicate ZerosAt(t: string, i: nat)
    requires i + 1 < |t|
  {
    t[i] == '零' && t[i + 1] == '零'
  }

  /** A unit in between keeps the zeros of the two parts apart. */
  lemma ZerosOfParts(f: string, unit: char, g: string)
    requires unit != '零'
    ensures HasDoubleZero(f + [unit] + g) <==> HasDoubleZero(f) || HasDoubleZero(g)
  {
    var t := f + [unit] + g;
    if i :| 0 <= i < |f| - 1 && ZerosAt(f, i) {
      assert ZerosAt(t, i);
    }
    if i :| 0 <= i < |g| - 1 && ZerosAt(g, i) {
      assert ZerosAt(t, i + |f| + 1);
    }
    if i :| 0 <= i < |t| - 1 && ZerosAt(t, i) {
      if i < |f| {
        assert ZerosAt(f, i);
      } else {
        assert ZerosAt(g, i - |f| - 1);
      }
    }
  }

  /** The text of a larger number doubles a zero exactly where one of its pieces does. */
  lemma ZerosOfPieces(dm: Digits, s: string, useZero: bool, first: string, second: string, f: string, g: string)
    returns (t: string)
    requires Faithful(dm) && AllDigits(s) && 10 <= Value(s) <= INT_MAX
    requires var u := UnitFor(Value(s)); |s| >= u && first == s[..|s| - u] && second == s[|s| - u..]
    requires WritesZeros(dm, first, useZero, f, HasDoubleZero(f))
    requires WritesZeros(dm, second, useZero, g, HasDoubleZero(g))
    ensures WritesZeros(dm, s, useZero, t, HasDoubleZero(f) || HasDoubleZero(g))
  {
    var unit := UnitText(UnitFor(Value(s)));
    t := f + unit + g;
    TextOfPieces(dm, s, useZero, first, second, f, g);
    ZerosOfParts(f, unit[0], g);
  }

  /** A one-digit number doubles a zero exactly if it is zero written with leading zeros. */
  lemma ZerosOfDigit(dm: Digits, s: string, useZero: bool) returns (t: string)
    requires Faithful(dm) && AllDigits(s) && s != "" && Value(s) < 10
    ensures WritesZeros(dm, s, useZero, t, useZero && Value(s) == 0 && |s| > 1)
  {
    UnitOf(Value(s));
    assert ReadsAs(dm, 0) && ReadsAs(dm, Value(s));
    t := DigitText(dm, s, useZero).value;
    if useZero && Value(s) == 0 && |s| > 1 {
      assert ZerosAt(t, 0);
    }
  }

  /** What a section of `len` digits with value `n` doubles. */
  predicate SectionDoubles(n: nat, len: nat) { if n < 10 then n == 0 && len > 1 else n % 100 == 0 }

  /** The number is a round hundred, or the ten-thousands of its last eight digits are. */
  predicate DoublesZero(n: nat, len: nat) {
    if n < 10 then n == 0 && len > 1
    else
      var wan := n % 100000000 / 10000;
      n % 100 == 0 || (wan > 0 && wan % 100 == 0)
  }

  /** A section begins with a digit other than zero, so only what follows it matters. */
  lemma SectionSplit(n: nat, a: nat, u: nat, r: nat)
    requires 10 <= n < 10000 && u == UnitFor(n) && n == Scaled(a, u) + r && r < Pow10(u)
    ensures 0 < a < 10 && (SectionDoubles(r, u) <==> n % 100 == 0)
  {
    ScaledSmall(a, u);
  }

  lemma WanSplit(n: nat, a: nat, r: nat, len: nat)
    requires 10000 <= n < 100000000 && n == Scaled(a, 4) + r && r < Pow10(4)
    ensures 0 < a < 10000 && (DoublesZero(n, len) <==> SectionDoubles(a, 1) || SectionDoubles(r, 4))
    ensures forall k: nat {:trigger SectionDoubles(a, k)} :: SectionDoubles(a, k) == SectionDoubles(a, 1)
  {
    ScaledSmall(a, 4);
    assert n % 100000000 / 10000 == a;
    assert n % 100 == r % 100;
  }

  lemma YiSplit(n: nat, a: nat, r: nat, len: nat)
    requires 100000000 <= n <= INT_MAX && n == Scaled(a, 8) + r && r < Pow10(8)
    ensures 0 < a < 100 && (DoublesZero(n, len) <==> DoublesZero(r, 8))
    ensures forall k: nat {:trigger SectionDoubles(a, k)} :: !SectionDoubles(a, k)
  {
    ScaledSmall(a, 8);
    assert n % 100000000 == r;
    assert n % 100 == r % 100;
  }

  /** `t` is the text of `s`, and doubles a zero exactly if `z`. */
  ghost predicate WritesZeros(dm: Digits, s: string, useZero: bool, t: string, z: bool)
    requires Faithful(dm) && AllDigits(s)
  {
    DigitText(dm, s, useZero) == Some(t) && HasDoubleZero(t) == z
  }

  /** Below 10^4: if asked for, two zeros are written for every multiple of 100. */
  lemma {:induction false} ZerosOfSection(dm: Digits, s: string, useZero: bool) returns (t: string)
    requires Faithful(dm) && AllDigits(s) && s != "" && Value(s) < 10000
    ensures WritesZeros(dm, s, useZero, t, useZero && SectionDoubles(Value(s), |s|))
    decreases |s|
  {
    if Value(s) < 10 {
      t := ZerosOfDigit(dm, s, useZero);
    } else {
      var first, second := Pieces(s);
      SectionSplit(Value(s), Value(first), UnitFor(Value(s)), Value(second));
      var f := ZerosOfDigit(dm, first, useZero);
      var g := ZerosOfSection(dm, second, useZero);
      t := ZerosOfPieces(dm, s, useZero, first, second, f, g);
    }
  }

  /** Below 10^8: for the last four digits, or for those before them. */
  lemma ZerosBelowYi(dm: Digits, s: string, useZero: bool) returns (t: string)
    requires Faithful(dm) && AllDigits(s) && s != "" && Value(s) < 100000000
    ensures WritesZeros(dm, s, useZero, t, useZero && DoublesZero(Value(s), |s|))
  {
    if Value(s) < 10000 {
      t := ZerosOfSection(dm, s, useZero);
    } else {
      var first, second := Pieces(s);
      WanSplit(Value(s), Value(first), Value(second), |s|);
      var f := ZerosOfSection(dm, first, useZero);
      var g := ZerosOfSection(dm, second, useZero);
      t := ZerosOfPieces(dm, s, useZero, first, second, f, g);
    }
  }

  lemma ZerosOfAll(dm: Digits, s: string, useZero: bool) returns (t: string)
    requires Faithful(dm) && AllDigits(s) && s != "" && Value(s) <= INT_MAX
    ensures WritesZeros(dm, s, useZero, t, useZero && DoublesZero(Value(s), |s|))
  {
    if Value(s) < 100000000 {
      t := ZerosBelowYi(dm, s, useZero);
    } else {
      var first, second := Pieces(s);
      YiSplit(Value(s), Value(first), Value(second), |s|);
      var f := ZerosOfSection(dm, first, useZero);
      var g := ZerosBelowYi(dm, second, useZero);
      t := ZerosOfPieces(dm, s, useZero, first, second, f, g);
    }
  }

  /**
    With zeros asked for, which is the default, the text has 零零 exactly for
    these numbers; without, never.
   */
  lemma DoubleZeroExactly(dm: Digits, s: string, useZero: bool)
    requires Faithful(dm) && AllDigits(s) && s != "" && Value(s) <= INT_MAX
    ensures var t := CreateTextValue(dm, s, useZero);
            t.Some? && (HasDoubleZero(t.value) <==> useZero && DoublesZero(Value(s), |s|))
  {
    TextOfDigits(dm, s, useZero);
    var t := ZerosOfAll(dm, s, useZero);
  }

  /** So 10200, the example the code gives, is not written 一万零二百. */
  lemma ExampleHasDoubleZero(dm: Digits, s: string)
    requires Faithful(dm) && AllDigits(s) && Value(s) == 10200
    ensures CreateTextValue(dm, s, true) != Some("一万零二百")
  {
    DoubleZeroExactly(dm, s, true);
    ExampleText();
  }

  lemma ExampleText()
    ensures !HasDoubleZero("一万零二百") && DoublesZero(10200, 5)
  {
    var u := "一万零二百";
    assert u[0] == '一' && u[1] == '万' && u[2] == '零' && u[3] == '二' && u[4] == '百';
  }

  // ---------------------------------------------------------------------
  // Where a zero has no digit after it
  // ---------------------------------------------------------------------

  predicate EndsInZero(t: string) { t != "" && t[|t| - 1] == '零' }

  /** A zero right before the unit `c`. */
  predicate ZeroBefore(t: string, c: char) { exists i :: 0 <= i < |t| - 1 && ZeroUnitAt(t, c, i) }

  predicate ZeroUnitAt(t: string, c: char, i: nat)
    requires i + 1 < |t|
  {
    t[i] == '零' && t[i + 1] == c
  }

  lemma IdleOfParts(f: string, unit: char, g: string, c: char)
    requires unit != '零' && g != ""
    ensures var t := f + [unit] + g;
            && (EndsInZero(t) <==> EndsInZero(g))
            && (ZeroBefore(t, c) <==> ZeroBefore(f, c) || ZeroBefore(g, c) || (c == unit && EndsInZero(f)))
  {
    var t := f + [unit] + g;
    if i :| 0 <= i < |f| - 1 && ZeroUnitAt(f, c, i) {
      assert ZeroUnitAt(t, c, i);
    }
    if i :| 0 <= i < |g| - 1 && ZeroUnitAt(g, c, i) {
      assert ZeroUnitAt(t, c, i + |f| + 1);
    }
    if c == unit && EndsInZero(f) {
      assert ZeroUnitAt(t, c, |f| - 1);
    }
    if i :| 0 <= i < |t| - 1 && ZeroUnitAt(t, c, i) {
      if i < |f| - 1 {
        assert ZeroUnitAt(f, c, i);
      } else if i > |f| {
        assert ZeroUnitAt(g, c, i - |f| - 1);
      }
    }
  }

  /** Whether a zero stands at the end, before 万, before 亿, or before one of the smaller units. */
  datatype Idle = Idle(last: bool, wan: bool, yi: bool, small: bool)

  ghost function IdleIn(t: string): Idle {
    Idle(EndsInZero(t), ZeroBefore(t, '万'), ZeroBefore(t, '亿'),
         ZeroBefore(t, '十') || ZeroBefore(t, '百') || ZeroBefore(t, '千'))
  }

  function IdleAround(f: Idle, unit: nat, g: Idle): Idle {
    Idle(g.last, f.wan || g.wan || (unit == 4 && f.last), f.yi || g.yi || (unit == 8 && f.last),
         f.small || g.small || (1 <= unit <= 3 && f.last))
  }

  /** The text `t` of `s`, and where zeros stand idle in it; from ten on it is longer than one character. */
  ghost predicate WritesIdle(dm: Digits, s: string, useZero: bool, t: string, z: Idle)
    requires Faithful(dm) && AllDigits(s)
  {
    DigitText(dm, s, useZero) == Some(t) && t != "" && IdleIn(t) == z && (Value(s) >= 10 ==> |t| > 1)
  }

  lemma IdleOfUnit(f: string, u: nat, g: string)
    requires u in {1, 2, 3, 4, 8} && g != ""
    ensures IdleIn(f + UnitText(u) + g) == IdleAround(IdleIn(f), u, IdleIn(g))
  {
    var unit := UnitText(u);
    assert unit == [unit[0]];
    IdleOfParts(f, unit[0], g, '万');
    IdleOfParts(f, unit[0], g, '亿');
    IdleOfParts(f, unit[0], g, '十');
    IdleOfParts(f, unit[0], g, '百');
    IdleOfParts(f, unit[0], g, '千');
  }

  lemma IdleOfPieces(dm: Digits, s: string, useZero: bool, first: string, second: string, f: string, g: string)
    returns (t: string)
    requires Faithful(dm) && AllDigits(s) && 10 <= Value(s) <= INT_MAX
    requires var u := UnitFor(Value(s)); |s| >= u && first == s[..|s| - u] && second == s[|s| - u..]
    requires WritesIdle(dm, first, useZero, f, IdleIn(f)) && WritesIdle(dm, second, useZero, g, IdleIn(g))
    ensures WritesIdle(dm, s, useZero, t, IdleAround(IdleIn(f), UnitFor(Value(s)), IdleIn(g)))
  {
    t := f + UnitText(UnitFor(Value(s))) + g;
    TextOfPieces(dm, s, useZero, first, second, f, g);
    IdleOfUnit(f, UnitFor(Value(s)), g);
  }

  lemma IdleOfDigit(dm: Digits, s: string, useZero: bool) returns (t: string)
    requires Faithful(dm) && AllDigits(s) && s != "" && Value(s) < 10
    ensures WritesIdle(dm, s, useZero, t, Idle(Value(s) == 0, false, false, false))
  {
    UnitOf(Value(s));
    assert ReadsAs(dm, 0) && ReadsAs(dm, Value(s));
    t := DigitText(dm, s, useZero).value;
  }

  /** Below 10^4: a zero stands at the end of every multiple of ten, and before no unit. */
  lemma {:induction false} IdleOfSection(dm: Digits, s: string, useZero: bool) returns (t: string)
    requires Faithful(dm) && AllDigits(s) && s != "" && Value(s) < 10000
    ensures WritesIdle(dm, s, useZero, t, Idle(Value(s) % 10 == 0, false, false, false))
    decreases |s|
  {
    if Value(s) < 10 {
      t := IdleOfDigit(dm, s, useZero);
    } else {
      var first, second := Pieces(s);
      SectionEnds(Value(s), Value(first), UnitFor(Value(s)), Value(second));
      var f := IdleOfDigit(dm, first, useZero);
      var g := IdleOfSection(dm, second, useZero);
      t := IdleOfPieces(dm, s, useZero, first, second, f, g);
    }
  }

  lemma SectionEnds(n: nat, a: nat, u: nat, r: nat)
    requires 10 <= n < 10000 && u == UnitFor(n) && n == Scaled(a, u) + r && r < Pow10(u)
    ensures 0 < a < 10 && r % 10 == n % 10
  {
    ScaledSmall(a, u);
  }

  /** The ten-thousands among the last eight digits, and the hundred millions. */
  function Wan(n: nat): nat { n % 100000000 / 10000 }
  function Yi(n: nat): nat { n / 100000000 }

  /** Where the text of `n` has an idle zero. */
  function IdleOf(n: nat): Idle {
    Idle(n % 10 == 0, Wan(n) > 0 && Wan(n) % 10 == 0, Yi(n) > 0 && Yi(n) % 10 == 0, false)
  }

  lemma WanEnds(n: nat, a: nat, r: nat)
    requires 10000 <= n < 100000000 && n == Scaled(a, 4) + r && r < Pow10(4)
    ensures 0 < a < 10000 && r < 10000 && IdleOf(n) == Idle(r % 10 == 0, a % 10 == 0, false, false)
  {
    ScaledSmall(a, 4);
    assert Wan(n) == a && n % 10 == r % 10;
  }

  lemma YiEnds(n: nat, a: nat, r: nat)
    requires 100000000 <= n <= INT_MAX && n == Scaled(a, 8) + r && r < Pow10(8)
    ensures 0 < a < 100 && r < 100000000 && IdleOf(n) == IdleOf(r).(yi := a % 10 == 0)
  {
    ScaledSmall(a, 8);
    assert Yi(n) == a && n % 100000000 == r && n % 10 == r % 10;
  }

  lemma IdleBelowYi(dm: Digits, s: string, useZero: bool) returns (t: string)
    requires Faithful(dm) && AllDigits(s) && s != "" && Value(s) < 100000000
    ensures WritesIdle(dm, s, useZero, t, IdleOf(Value(s)))
  {
    if Value(s) < 10000 {
      t := IdleOfSection(dm, s, useZero);
    } else {
      var first, second := Pieces(s);
      WanEnds(Value(s), Value(first), Value(second));
      var f := IdleOfSection(dm, first, useZero);
      var g := IdleOfSection(dm, second, useZero);
      t := IdleOfPieces(dm, s, useZero, first, second, f, g);
    }
  }

  lemma IdleOfAll(dm: Digits, s: string, useZero: bool) returns (t: string)
    requires Faithful(dm) && AllDigits(s) && s != "" && Value(s) <= INT_MAX
    ensures WritesIdle(dm, s, useZero, t, IdleOf(Value(s)))
  {
    if Value(s) < 100000000 {
      t := IdleBelowYi(dm, s, useZero);
    } else {
      var first, second := Pieces(s);
      YiEnds(Value(s), Value(first), Value(second));
      var f := IdleOfSection(dm, first, useZero);
      var g := IdleBelowYi(dm, second, useZero);
      t := IdleOfPieces(dm, s, useZero, first, second, f, g);
    }
  }

  /**
    Whether zeros are asked for or not, the text ends in 零 exactly for the
    multiples of ten, has 零 before 万 or 亿 exactly if the digits in front of it
    are one, and before no other unit.
   */
  lemma IdleZeroExactly(dm: Digits, s: string, useZero: bool)
    requires Faithful(dm) && AllDigits(s) && s != "" && Value(s) <= INT_MAX
    ensures var t, n := CreateTextValue(dm, s, useZero), Value(s);
            && t.Some?
            && (EndsInZero(t.value) <==> n % 10 == 0)
            && (ZeroBefore(t.value, '万') <==> Wan(n) > 0 && Wan(n) % 10 == 0)
            && (ZeroBefore(t.value, '亿') <==> Yi(n) > 0 && Yi(n) % 10 == 0)
            && !ZeroBefore(t.value, '十') && !ZeroBefore(t.value, '百') && !ZeroBefore(t.value, '千')
  {
    TextOfDigits(dm, s, useZero);
    var t := IdleOfAll(dm, s, useZero);
    assert IdleIn(t) == IdleOf(Value(s));
  }

  /** Zeros as in the example 一万零二百: one at a time and only before a digit, or the number zero by itself. */
  ghost predicate ZerosInPlace(t: string) {
    || t == "零"
    || (!HasDoubleZero(t) && IdleIn(t) == Idle(false, false, false, false))
  }

  /** Exactly the numbers no part of which ends in a zero digit are written that way, and zero itself. */
  lemma ZerosInPlaceExactly(dm: Digits, s: string, useZero: bool)
    requires Faithful(dm) && AllDigits(s) && s != "" && Value(s) <= INT_MAX
    ensures var t, n := CreateTextValue(dm, s, useZero), Value(s);
            && t.Some?
            && (ZerosInPlace(t.value) <==>
                  if n == 0 then |s| == 1 || !useZero
                  else n % 10 != 0 && (Wan(n) > 0 ==> Wan(n) % 10 != 0) && (Yi(n) > 0 ==> Yi(n) % 10 != 0))
  {
    TextOfDigits(dm, s, useZero);
    if Value(s) == 0 {
      ZeroText(dm, s, useZero);
      ZerosAlone();
    } else {
      DoubleZeroExactly(dm, s, useZero);
      var t := IdleOfAll(dm, s, useZero);
      InPlaceUnlessIdle(t, Value(s), |s|, useZero);
    }
  }

  lemma InPlaceUnlessIdle(t: string, n: nat, len: nat, useZero: bool)
    requires n > 0 && IdleIn(t) == IdleOf(n) && (n >= 10 ==> |t| > 1)
    requires HasDoubleZero(t) <==> useZero && DoublesZero(n, len)
    ensures ZerosInPlace(t) <==>
              n % 10 != 0 && (Wan(n) > 0 ==> Wan(n) % 10 != 0) && (Yi(n) > 0 ==> Yi(n) % 10 != 0)
  {
    if DoublesZero(n, len) {
      RoundHundredsAreRoundTens(n, len);
    }
    assert t == "零" ==> EndsInZero(t);
  }

  lemma ZeroText(dm: Digits, s: string, useZero: bool)
    requires Faithful(dm) && AllDigits(s) && s != "" && Value(s) == 0
    ensures DigitText(dm, s, useZero) == Some(if useZero && |s| > 1 then "零零" else "零")
  {
    assert ReadsAs(dm, 0) && ToString(0) == "0";
    assert dm["0"] == "零" && "零" + "零" == "零零";
  }

  lemma ZerosAlone()
    ensures ZerosInPlace("零") && !ZerosInPlace("零零")
  {
    assert ZerosAt("零零", 0);
  }

  lemma RoundHundredsAreRoundTens(n: nat, len: nat)
    requires n > 0 && DoublesZero(n, len)
    ensures IdleOf(n) != Idle(false, false, false, false)
  {
  }

  // ---------------------------------------------------------------------
  // Where a zero stands in front of a digit
  // ---------------------------------------------------------------------

  /** A digit other than zero, and whether a zero stands right before it. */
  datatype Mark = Mark(digit: nat, zeroBefore: bool)

  /** The digits other than zero in a numeral text, in order. */
  function Marks(t: string): seq<Mark> {
    if t == "" then []
    else
      var n := |t| - 1;
      var d := ReadDigit(t[n]);
      Marks(t[..n]) + if d.Some? && d.value > 0 then [Mark(d.value, n > 0 && t[n - 1] == '零')] else []
  }

  /** Those of a digit string; a zero right before index `wan` or `yi` is passed over. */
  function DigitMarks(s: string, useZero: bool, wan: int, yi: int): seq<Mark>
    requires AllDigits(s)
  {
    if s == "" then []
    else
      var n := |s| - 1;
      DigitMarks(s[..n], useZero, wan, yi)
      + if s[n] == '0' then [] else [Mark(DigitValue(s[n]), useZero && ZeroCounts(s, n, wan, yi))]
  }

  predicate ZeroCounts(s: string, n: nat, wan: int, yi: int)
    requires n < |s|
  {
    n > 0 && s[n - 1] == '0' && n != wan && n != yi
  }

  lemma {:induction false} MarksOfParts(f: string, unit: char, g: string)
    requires ReadDigit(unit).None?
    ensures Marks(f + [unit] + g) == Marks(f) + Marks(g)
  {
    var t := f + [unit] + g;
    var n := |t| - 1;
    if g == "" {
      assert t[..n] == f;
    } else {
      MarksOfParts(f, unit, g[..|g| - 1]);
      assert t[..n] == f + [unit] + g[..|g| - 1];
      assert t[n] == g[|g| - 1];
    }
  }

  lemma SameMark(a: string, b: string, s: string, wan: int, yi: int)
    requires s == a + b && b != "" && (a == "" || a[|a| - 1] != '0' || |a| == wan || |a| == yi)
    ensures var n, m := |s| - 1, |b| - 1;
            s[n] == b[m] && ZeroCounts(s, n, wan, yi) == ZeroCounts(b, m, wan - |a|, yi - |a|)
  {
    var n, m := |s| - 1, |b| - 1;
    assert m > 0 ==> s[n - 1] == b[m - 1];
    assert m == 0 && n > 0 ==> s[n - 1] == a[|a| - 1];
  }

  /** The string falls apart where no zero precedes, or where one is passed over. */
  lemma {:induction false} DigitMarksSplit(a: string, b: string, s: string, useZero: bool, wan: int, yi: int)
    requires AllDigits(a) && AllDigits(b) && s == a + b
    requires a == "" || a[|a| - 1] != '0' || |a| == wan || |a| == yi
    ensures AllDigits(s)
    ensures DigitMarks(s, useZero, wan, yi)
         == DigitMarks(a, useZero, wan, yi) + DigitMarks(b, useZero, wan - |a|, yi - |a|)
    decreases |b|
  {
    if b == "" {
      assert s == a;
    } else {
      var n, m := |s| - 1, |b| - 1;
      DigitMarksSplit(a, b[..m], s[..n], useZero, wan, yi);
      SameMark(a, b, s, wan, yi);
    }
  }

  lemma {:induction false} BreaksOutside(s: string, useZero: bool, wan: int, yi: int)
    requires AllDigits(s) && !(0 < wan < |s|) && !(0 < yi < |s|)
    ensures DigitMarks(s, useZero, wan, yi) == DigitMarks(s, useZero, 0, 0)
  {
    if s != "" {
      BreaksOutside(s[..|s| - 1], useZero, wan, yi);
    }
  }

  lemma {:induction false} ZerosHaveNoMarks(s: string, useZero: bool)
    requires AllDigits(s) && Value(s) == 0
    ensures DigitMarks(s, useZero, 0, 0) == []
    ensures forall i :: 0 <= i < |s| ==> s[i] == '0'
  {
    if s != "" {
      ZerosHaveNoMarks(s[..|s| - 1], useZero);
      assert DigitValue(s[|s| - 1]) == 0;
    }
  }

  /** `t` is the text of `s`, and its digits are marked so. */
  ghost predicate WritesMarks(dm: Digits, s: string, useZero: bool, t: string, ms: seq<Mark>)
    requires Faithful(dm) && AllDigits(s)
  {
    DigitText(dm, s, useZero) == Some(t) && Marks(t) == ms
  }

  lemma MarksOfUnit(f: string, u: nat, g: string)
    requires u in {1, 2, 3, 4, 8}
    ensures Marks(f + UnitText(u) + g) == Marks(f) + Marks(g)
  {
    var unit := UnitText(u);
    assert unit == [unit[0]];
    MarksOfParts(f, unit[0], g);
  }

  lemma MarksOfPieces(dm: Digits, s: string, useZero: bool, first: string, second: string, f: string, g: string,
                      ms: seq<Mark>, ns: seq<Mark>)
    returns (t: string)
    requires Faithful(dm) && AllDigits(s) && 10 <= Value(s) <= INT_MAX
    requires var u := UnitFor(Value(s)); |s| >= u && first == s[..|s| - u] && second == s[|s| - u..]
    requires WritesMarks(dm, first, useZero, f, ms) && WritesMarks(dm, second, useZero, g, ns)
    ensures WritesMarks(dm, s, useZero, t, ms + ns)
  {
    t := f + UnitText(UnitFor(Value(s))) + g;
    TextOfPieces(dm, s, useZero, first, second, f, g);
    MarksOfUnit(f, UnitFor(Value(s)), g);
  }

  lemma MarksOfDigit(dm: Digits, s: string, useZero: bool) returns (t: string)
    requires Faithful(dm) && AllDigits(s) && s != "" && Value(s) < 10
    ensures WritesMarks(dm, s, useZero, t, DigitMarks(s, useZero, 0, 0))
  {
    UnitOf(Value(s));
    assert ReadsAs(dm, 0) && ReadsAs(dm, Value(s));
    t := DigitText(dm, s, useZero).value;
    ZerosHaveNoMarks(s[..|s| - 1], useZero);
    assert DigitValue(s[|s| - 1]) == Value(s);
    var digit := dm[ToString(Value(s))];
    assert t == digit || t == dm["0"] + digit;
    assert digit[..0] == "" && (dm["0"] + digit)[..1] == dm["0"] && dm["0"][..0] == "";
    assert Marks(dm["0"]) == [];
  }

  lemma LastDigit(s: string)
    requires AllDigits(s) && 0 < Value(s) < 10
    ensures s != "" && s[|s| - 1] != '0'
  {
  }

  lemma SectionMarks(s: string, first: string, second: string, useZero: bool)
    requires AllDigits(first) && AllDigits(second) && s == first + second && 0 < Value(first) < 10
    ensures AllDigits(s)
    ensures DigitMarks(s, useZero, 0, 0) == DigitMarks(first, useZero, 0, 0) + DigitMarks(second, useZero, 0, 0)
  {
    LastDigit(first);
    DigitMarksSplit(first, second, s, useZero, 0, 0);
    BreaksOutside(second, useZero, 0 - |first|, 0 - |first|);
  }

  /** Below 10^4 every zero in front of a digit is written. */
  lemma {:induction false} MarksOfSection(dm: Digits, s: string, useZero: bool) returns (t: string)
    requires Faithful(dm) && AllDigits(s) && s != "" && Value(s) < 10000
    ensures WritesMarks(dm, s, useZero, t, DigitMarks(s, useZero, 0, 0))
    decreases |s|
  {
    if Value(s) < 10 {
      t := MarksOfDigit(dm, s, useZero);
    } else {
      var first, second := Pieces(s);
      SectionEnds(Value(s), Value(first), UnitFor(Value(s)), Value(second));
      var f := MarksOfDigit(dm, first, useZero);
      var g := MarksOfSection(dm, second, useZero);
      SectionMarks(s, first, second, useZero);
      t := MarksOfPieces(dm, s, useZero, first, second, f, g,
                         DigitMarks(first, useZero, 0, 0), DigitMarks(second, useZero, 0, 0));
    }
  }

  /** Where the last four digits begin, if the ones before them are written with 万. */
  function WanBreak(s: string): int
    requires AllDigits(s)
  {
    if Wan(Value(s)) > 0 then |s| - 4 else 0
  }

  /** Where the last eight digits begin, if the ones before them are written with 亿. */
  function YiBreak(s: string): int
    requires AllDigits(s)
  {
    if Yi(Value(s)) > 0 then |s| - 8 else 0
  }

  lemma WanMarks(s: string, first: string, second: string, useZero: bool)
    requires AllDigits(first) && AllDigits(second) && s == first + second
    ensures AllDigits(s)
    ensures DigitMarks(s, useZero, |first|, 0) == DigitMarks(first, useZero, 0, 0) + DigitMarks(second, useZero, 0, 0)
  {
    DigitMarksSplit(first, second, s, useZero, |first|, 0);
    BreaksOutside(first, useZero, |first|, 0);
    BreaksOutside(second, useZero, 0, 0 - |first|);
  }

  lemma WanBreakAt(s: string)
    requires AllDigits(s) && Value(s) < 100000000
    ensures WanBreak(s) == if Value(s) < 10000 then 0 else |s| - 4
  {
  }

  lemma MarksBelowYi(dm: Digits, s: string, useZero: bool) returns (t: string)
    requires Faithful(dm) && AllDigits(s) && s != "" && Value(s) < 100000000
    ensures WritesMarks(dm, s, useZero, t, DigitMarks(s, useZero, WanBreak(s), 0))
  {
    WanBreakAt(s);
    if Value(s) < 10000 {
      t := MarksOfSection(dm, s, useZero);
    } else {
      var first, second := Pieces(s);
      ScaledSmall(Value(first), 4);
      var f := MarksOfSection(dm, first, useZero);
      var g := MarksOfSection(dm, second, useZero);
      WanMarks(s, first, second, useZero);
      t := MarksOfPieces(dm, s, useZero, first, second, f, g,
                         DigitMarks(first, useZero, 0, 0), DigitMarks(second, useZero, 0, 0));
    }
  }

  lemma YiMarks(s: string, first: string, second: string, useZero: bool, wan: int)
    requires AllDigits(first) && AllDigits(second) && s == first + second && (wan > 0 ==> wan >= |first|)
    ensures AllDigits(s)
    ensures DigitMarks(s, useZero, wan, |first|)
         == DigitMarks(first, useZero, 0, 0) + DigitMarks(second, useZero, if wan > 0 then wan - |first| else 0, 0)
  {
    DigitMarksSplit(first, second, s, useZero, wan, |first|);
    BreaksOutside(first, useZero, wan, |first|);
    if wan <= 0 {
      BreaksOutside(second, useZero, wan - |first|, 0);
    }
  }

  lemma MarksOfAll(dm: Digits, s: string, useZero: bool) returns (t: string)
    requires Faithful(dm) && AllDigits(s) && s != "" && Value(s) <= INT_MAX
    ensures WritesMarks(dm, s, useZero, t, DigitMarks(s, useZero, WanBreak(s), YiBreak(s)))
  {
    if Value(s) < 100000000 {
      t := MarksBelowYi(dm, s, useZero);
    } else {
      var first, second := Pieces(s);
      YiBreaks(Value(s), Value(first), Value(second));
      var f := MarksOfSection(dm, first, useZero);
      var g := MarksBelowYi(dm, second, useZero);
      YiMarks(s, first, second, useZero, WanBreak(s));
      t := MarksOfPieces(dm, s, useZero, first, second, f, g,
                         DigitMarks(first, useZero, 0, 0), DigitMarks(second, useZero, WanBreak(second), 0));
    }
  }

  lemma YiBreaks(n: nat, a: nat, r: nat)
    requires 100000000 <= n <= INT_MAX && n == Scaled(a, 8) + r && r < Pow10(8)
    ensures 0 < a < 100 && r < 100000000 && Wan(n) == Wan(r) && Yi(n) > 0
  {
    ScaledSmall(a, 8);
    assert n % 100000000 == r;
  }

  /**
    With zeros asked for, a digit other than zero stands right behind 零 exactly
    if a zero precedes it in the digit string, unless 万 or 亿 comes between the
    two; without, never. And these digits come in the order of the string.
   */
  lemma ZeroBeforeDigitExactly(dm: Digits, s: string, useZero: bool)
    requires Faithful(dm) && AllDigits(s) && s != "" && Value(s) <= INT_MAX
    ensures var t := CreateTextValue(dm, s, useZero);
            t.Some? && Marks(t.value) == DigitMarks(s, useZero, WanBreak(s), YiBreak(s))
  {
    TextOfDigits(dm, s, useZero);
    var t := MarksOfAll(dm, s, useZero);
  }

  /** The digits to the left of `b` end in a zero and those from `b` on do not begin with one. */
  predicate PassedOver(s: string, b: int) { 0 < b < |s| && s[b - 1] == '0' && s[b] != '0' }

  lemma {:induction false} NothingPassedOver(s: string, wan: int, yi: int)
    requires AllDigits(s)
    ensures |DigitMarks(s, true, wan, yi)| == |DigitMarks(s, true, 0, 0)|
    ensures DigitMarks(s, true, wan, yi) == DigitMarks(s, true, 0, 0) <==> !PassedOver(s, wan) && !PassedOver(s, yi)
  {
    if s != "" {
      var n := |s| - 1;
      NothingPassedOver(s[..n], wan, yi);
      LastMark(s, n, wan, yi);
      LastMark(s, n, 0, 0);
      assert PassedOver(s, wan) == (PassedOver(s[..n], wan) || (wan == n && PassedOver(s, n)));
      assert PassedOver(s, yi) == (PassedOver(s[..n], yi) || (yi == n && PassedOver(s, n)));
    }
  }

  lemma LastMark(s: string, n: nat, wan: int, yi: int)
    requires AllDigits(s) && |s| == n + 1
    ensures var ms, front := DigitMarks(s, true, wan, yi), DigitMarks(s[..n], true, wan, yi);
            if s[n] == '0' then ms == front
            else |ms| == |front| + 1 && ms[..|front|] == front
                 && ms[|front|] == Mark(DigitValue(s[n]), ZeroCounts(s, n, wan, yi))
  {
  }

  /** Every zero in front of a digit is written, exactly if none is passed over at 万 or 亿. */
  lemma EveryZeroWrittenExactly(dm: Digits, s: string)
    requires Faithful(dm) && AllDigits(s) && s != "" && Value(s) <= INT_MAX
    ensures var t := CreateTextValue(dm, s, true);
            && t.Some?
            && (Marks(t.value) == DigitMarks(s, true, 0, 0) <==>
                  !PassedOver(s, WanBreak(s)) && !PassedOver(s, YiBreak(s)))
  {
    ZeroBeforeDigitExactly(dm, s, true);
    NothingPassedOver(s, WanBreak(s), YiBreak(s));
  }

  /** 105000 is such a number: no zero stands before the five. */
  lemma ZeroPassedOverAtWan(dm: Digits)
    requires Faithful(dm)
    ensures var t := CreateTextValue(dm, "105000", true);
            t.Some? && AllDigits("105000") && Marks(t.value) != DigitMarks("105000", true, 0, 0)
  {
    HundredFiveThousand();
    EveryZeroWrittenExactly(dm, "105000");
  }

  lemma HundredFiveThousand()
    ensures AllDigits("105000") && Value("105000") == 105000 && PassedOver("105000", 2) && WanBreak("105000") == 2
  {
    var s := "105000";
    ValueSplit(s, 3);
    assert s[..3] == "105" && s[3..] == "000";
    assert "105"[..2] == "10" && "000"[..2] == "00" && "00"[..1] == "0";
    TenInPieces();
    assert Value("00") == 0;
    ScaledSmall(105, 3);
  }

  /** Ten itself is written 十零, with or without zeros. */
  lemma TenIsTenZero(dm: Digits, useZero: bool)
    requires Faithful(dm) && "1" in dm
    ensures CreateTextValue(dm, "10", useZero) == Some(dm["1"] + "十" + "零")
    ensures Shortened(dm, dm["1"] + "十" + "零") == "十零"
  {
    TenInPieces();
    TextOfDigits(dm, "10", useZero);
    RoundTenText(dm, "10", useZero, "1", "0");
    ShortenedTen(dm);
  }

  lemma RoundTenText(dm: Digits, s: string, useZero: bool, first: string, second: string)
    requires Faithful(dm) && AllDigits(s) && Value(s) == 10 && |s| == 2 && first == s[..1] && second == s[1..]
    requires AllDigits(first) && Value(first) == 1 && AllDigits(second) && Value(second) == 0 && "1" in dm
    ensures DigitText(dm, s, useZero) == Some(dm["1"] + "十" + "零")
  {
    assert ToString(1) == "1";
    ZeroText(dm, second, useZero);
    TextOfPieces(dm, s, useZero, first, second, dm["1"], "零");
  }

  lemma ShortenedTen(dm: Digits)
    requires Faithful(dm) && "1" in dm
    ensures Shortened(dm, dm["1"] + "十" + "零") == "十零"
  {
    assert ReadsAs(dm, 1);
    var t := dm["1"] + "十" + "零";
    assert t[1..] == "十零";
  }

  lemma TenInPieces()
    ensures AllDigits("10") && Value("10") == 10 && "10"[..1] == "1" && "10"[1..] == "0"
    ensures AllDigits("1") && Value("1") == 1 && AllDigits("0") && Value("0") == 0
  {
    assert "1"[..0] == "" && "0"[..0] == "" && Value("") == 0;
    assert Value("1") == 1 && "10"[..1] == "1";
  }

  // ---------------------------------------------------------------------
  // The normalizer object
  // ---------------------------------------------------------------------

  /** A missing key reads as the empty string (and the lookup leaves it in the map). */
  function Text(dm: Digits, key: string): string { if key in dm then dm[key] else "" }

  function Touched(dm: Digits, key: string): Digits { if key in dm then dm else dm[key := ""] }

  /** Digit by digit, left to right. */
  function Spelled(dm: Digits, s: string): string {
    if s == "" then "" else Spelled(dm, s[..|s| - 1]) + Text(dm, [s[|s| - 1]])
  }

  function AllTouched(dm: Digits, s: string): Digits {
    if s == "" then dm else Touched(AllTouched(dm, s[..|s| - 1]), [s[|s| - 1]])
  }

  /** Looking keys up never changes what any key reads as. */
  lemma {:induction false} TouchingKeepsText(dm: Digits, s: string, key: string)
    ensures Text(AllTouched(dm, s), key) == Text(dm, key)
  {
    if s != "" {
      TouchingKeepsText(dm, s[..|s| - 1], key);
    }
  }

  /** Spelled digits can be read back one by one. */
  lemma {:induction false} SpelledReadsBack(dm: Digits, s: string, i: nat)
    requires Faithful(dm) && AllDigits(s) && i < |s|
    ensures |Spelled(dm, s)| == |s| && ReadDigit(Spelled(dm, s)[i]) == Some(DigitValue(s[i]))
    ensures AllTouched(dm, s) == dm
  {
    var t, d := s[..|s| - 1], DigitValue(s[|s| - 1]);
    assert ReadsAs(dm, d) && DigitChar(d) == s[|s| - 1];
    if t != "" {
      SpelledReadsBack(dm, t, if i < |t| then i else 0);
    }
  }

  /** A leading "one ten" is shortened to "ten". */
  function Shortened(dm: Digits, text: string): string
    requires Faithful(dm)
  {
    assert ReadsAs(dm, 1);
    if |text| >= 2 && [text[0]] == dm["1"] && text[1] == '十' then text[1..] else text
  }

  lemma ShorteningKeepsValue(dm: Digits, text: string)
    requires Faithful(dm) && text != "" && ReadDigit(text[0]).Some?
    ensures Evaluate(Shortened(dm, text)) == Sum(ReadAll(Reading(0, 0, 0), text))
  {
    assert ReadsAs(dm, 1);
  }

  const ONE: string := "1"

  /** `text`, or what follows its first character if that is a one before a ten; `r` itself does not begin so. */
  predicate WithoutLeadingOne(dm: Digits, text: string, r: string)
    requires ONE in dm
  {
    if r != "" && r[0] == '十' then text == r || text == dm[ONE] + r
    else text == r && !(|r| >= 2 && r[..1] == dm[ONE] && r[1] == '十')
  }

  lemma ShortenedIsWithout(dm: Digits, text: string)
    requires Faithful(dm) && ONE in dm
    ensures WithoutLeadingOne(dm, text, Shortened(dm, text))
  {
    assert ReadsAs(dm, 1);
    if |text| >= 2 {
      assert text == text[..1] + text[1..] && text[..1] == [text[0]];
    }
  }

  class TextNormalizer {
    var digitsMap: Digits

    ghost predicate Valid()
      reads this
    {
      Faithful(digitsMap)
    }

    constructor ()
      ensures Valid()
    {
      digitsMap := map["0" := "零", "1" := "一", "2" := "二", "3" := "三", "4" := "四",
                       "5" := "五", "6" := "六", "7" := "七", "8" := "八", "9" := "九"];
    }

    /** The text for one is overwritten by every conversion. */
    method ChooseOne(altOne: bool)
      requires Valid()
      modifies this
      ensures Valid() && digitsMap == old(digitsMap)[ONE := if altOne then "幺" else "一"]
    {
      ghost var before := digitsMap;
      digitsMap := digitsMap[ONE := if altOne then "幺" else "一"];
      forall d | 0 <= d < 10 ensures ReadsAs(digitsMap, d) {
        assert ReadsAs(before, d);
        assert d != 1 ==> [DigitChar(d)] != ONE;
      }
    }

    /** Digit by digit, for years and phone numbers. */
    method SingleDigit2Text(numStr: string, altOne: bool) returns (text: string)
      requires Valid()
      modifies this
      ensures Valid()
      ensures var dm := old(digitsMap)[ONE := if altOne then "幺" else "一"];
              text == Spelled(dm, numStr) && digitsMap == AllTouched(dm, numStr)
      ensures AllDigits(numStr) ==>
                |text| == |numStr| && forall i :: 0 <= i < |text| ==> ReadDigit(text[i]) == Some(DigitValue(numStr[i]))
    {
      ChooseOne(altOne);
      ghost var dm := digitsMap;
      text := "";
      for i := 0 to |numStr|
        invariant text == Spelled(dm, numStr[..i]) && digitsMap == AllTouched(dm, numStr[..i])
      {
        var numInt := [numStr[i]];
        TouchingKeepsText(dm, numStr[..i], numInt);
        assert numStr[..i + 1][..i] == numStr[..i];
        text := text + Text(digitsMap, numInt);
        digitsMap := Touched(digitsMap, numInt);
      }
      assert numStr[..|numStr|] == numStr;
      StillFaithful(dm, numStr);
      if AllDigits(numStr) {
        forall i | 0 <= i < |numStr|
          ensures |text| == |numStr| && ReadDigit(text[i]) == Some(DigitValue(numStr[i]))
        {
          SpelledReadsBack(dm, numStr, i);
        }
      }
    }

    /**
      As a whole number: for every digit string, with any leading zeros, the
      text denotes the number; of these only the empty string and numbers beyond
      the machine range fail.
     */
    method MultiDigit2Text(numStr: string, altOne: bool, useZero: bool) returns (r: Option<string>)
      requires Valid()
      modifies this
      ensures Valid() && digitsMap == old(digitsMap)[ONE := if altOne then "幺" else "一"]
      ensures AllDigits(numStr) ==> (r.Some? <==> numStr != "" && Value(numStr) <= INT_MAX)
      ensures AllDigits(numStr) && r.Some? ==> Evaluate(r.value) == Value(numStr)
      ensures var t := CreateTextValue(digitsMap, numStr, useZero);
              && r == (if t.Some? then Some(Shortened(digitsMap, t.value)) else None)
              && (r.Some? ==> WithoutLeadingOne(digitsMap, t.value, r.value))
              && (AllDigits(numStr) && r.Some? ==>
                    Marks(t.value) == DigitMarks(numStr, useZero, WanBreak(numStr), YiBreak(numStr)))
    {
      ChooseOne(altOne);
      var result := CreateTextValue(digitsMap, numStr, useZero);
      if AllDigits(numStr) {
        TextOfDigits(digitsMap, numStr, useZero);
        if numStr != "" && Value(numStr) <= INT_MAX {
          ghost var t := TextKeepsValue(digitsMap, numStr, useZero, 0);
          ShorteningKeepsValue(digitsMap, t);
          ZeroBeforeDigitExactly(digitsMap, numStr, useZero);
        }
      }
      if result.None? {
        return None;
      }
      ShortenedIsWithout(digitsMap, result.value);
      return Some(Shortened(digitsMap, result.value));
    }
  }

  lemma StillFaithful(dm: Digits, s: string)
    requires Faithful(dm)
    ensures Faithful(AllTouched(dm, s))
  {
    forall d | 0 <= d < 10 ensures ReadsAs(AllTouched(dm, s), d) {
      assert ReadsAs(dm, d);
      TouchingKeepsText(dm, s, [DigitChar(d)]);
    }
  }
}
