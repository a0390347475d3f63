/** Decimal integers as Python reads and writes them: `int(text)` for the parts of a
    time marker, and `f"{n}"` for the seconds of a break. */
module Numerals {
  import opened Wrappers
  import opened Strings

  predicate IsDigit(c: char) {
    '0' <= c <= '9'
  }

  function DigitValue(c: char): nat {
    if IsDigit(c) then (c as int) - ('0' as int) else 0
  }

  function DigitChar(d: nat): (c: char)
    requires d < 10
    ensures IsDigit(c) && DigitValue(c) == d
  {
    (('0' as int) + d) as char
  }

  /** Python's `str(n)` for a non-negative integer: decimal digits, no leading zero. */
  function NatToString(n: nat): (r: string)
    ensures |r| >= 1
    ensures forall i :: 0 <= i < |r| ==> IsDigit(r[i])
    ensures |r| > 1 ==> r[0] != '0'
  {
    if n < 10 then [DigitChar(n)] else NatToString(n / 10) + [DigitChar(n % 10)]
  }

  /** The digit string Python's `int()` accepts after the sign: ASCII digits, where a
      single underscore may stand between two digits. */
  predicate Grouped(d: string) {
    |d| >= 1 && IsDigit(d[0]) && IsDigit(d[|d| - 1])
    && (forall i :: 0 <= i < |d| ==> IsDigit(d[i]) || d[i] == '_')
    && (forall i :: 0 <= i < |d| - 1 && d[i] == '_' ==> d[i + 1] != '_')
  }

  /** The number a grouped digit string denotes; underscores carry no value. */
  function DigitsValue(d: string): nat {
    if d == [] then 0
    else if d[|d| - 1] == '_' then DigitsValue(d[..|d| - 1])
    else 10 * DigitsValue(d[..|d| - 1]) + DigitValue(d[|d| - 1])
  }

  /** The whitespace `int()` skips around its digits: ASCII tab to carriage return and
      space, and the non-ASCII characters `str.isspace()` accepts. The separators
      U+001C to U+001F, which `str.strip()` removes, are not skipped. */
  predicate IntSpace(c: char) {
    IsSpace(c) && !('\U{1C}' <= c <= '\U{1F}')
  }

  /** Leading `int()` whitespace removed. */
  function IntStripLeft(s: string): (r: string)
    ensures |r| <= |s| && r == s[|s| - |r|..]
    ensures forall i :: 0 <= i < |s| - |r| ==> IntSpace(s[i])
    ensures r == [] || !IntSpace(r[0])
  {
    if s != [] && IntSpace(s[0]) then IntStripLeft(s[1..]) else s
  }

  /** Trailing `int()` whitespace removed. */
  function IntStripRight(s: string): (r: string)
    ensures |r| <= |s| && r == s[..|r|]
    ensures forall i :: |r| <= i < |s| ==> IntSpace(s[i])
    ensures r == [] || !IntSpace(r[|r| - 1])
  {
    if s != [] && IntSpace(s[|s| - 1]) then IntStripRight(s[..|s| - 1]) else s
  }

  /** The text `int()` reads once the whitespace around it is skipped. */
  function IntStrip(s: string): (r: string)
    ensures |r| <= |s|
    ensures r == [] || (!IntSpace(r[0]) && !IntSpace(r[|r| - 1]))
    ensures (s == [] || (!IntSpace(s[0]) && !IntSpace(s[|s| - 1]))) ==> r == s
  {
    IntStripRight(IntStripLeft(s))
  }

  /** Python's `int(text)` in base 10: surrounding whitespace is ignored, then an
      optional `+` or `-` sign and grouped digits; anything else is a `ValueError`, here
      `None`. */
  function ParseInt(text: string): Option<int> {
    ParseStripped(IntStrip(text))
  }

  /** `int()` on text whose surrounding whitespace is already removed. */
  function ParseStripped(t: string): Option<int> {
    if |t| >= 1 && (t[0] == '-' || t[0] == '+') then
      var magnitude: int := DigitsValue(t[1..]);
      if Grouped(t[1..]) then Some(if t[0] == '-' then -magnitude else magnitude)
      else None
    else if Grouped(t) then Some(DigitsValue(t))
    else None
  }

  lemma {:induction false} NatToStringValue(n: nat)
    ensures Grouped(NatToString(n)) && DigitsValue(NatToString(n)) == n
  {
    var r := NatToString(n);
    if n >= 10 {
      NatToStringValue(n / 10);
      var p := NatToString(n / 10);
      assert r[..|r| - 1] == p;
    }
  }

  lemma DigitNotSpace(c: char)
    requires IsDigit(c)
    ensures !IsSpace(c) && !IntSpace(c)
  {
  }

  /** Grouped digits have no surrounding whitespace, with or without a sign. */
  lemma StripGrouped(digits: string)
    requires Grouped(digits)
    ensures IntStrip(digits) == digits
    ensures IntStrip("-" + digits) == "-" + digits
    ensures IntStrip("+" + digits) == "+" + digits
  {
    DigitNotSpace(digits[0]);
    DigitNotSpace(digits[|digits| - 1]);
    var minus, plus := "-" + digits, "+" + digits;
    assert minus[|minus| - 1] == digits[|digits| - 1] && !IntSpace(minus[0]);
    assert plus[|plus| - 1] == digits[|digits| - 1] && !IntSpace(plus[0]);
  }

  /** The information separators U+001C to U+001F are not skipped: `int("\x1c1")` is a
      `ValueError`, although `str.strip()` would remove the separator. */
  lemma ParseIntKeepsSeparator(digits: string)
    requires Grouped(digits)
    ensures ParseInt("\U{1C}" + digits) == None
    ensures Strip("\U{1C}" + digits) == digits
  {
    SeparatorNotSkipped(digits);
    SeparatorStripped(digits);
  }

  lemma SeparatorNotSkipped(digits: string)
    requires Grouped(digits)
    ensures ParseInt("\U{1C}" + digits) == None
  {
    var t := "\U{1C}" + digits;
    DigitNotSpace(digits[|digits| - 1]);
    assert t[|t| - 1] == digits[|digits| - 1];
    assert !IntSpace(t[0]);
    assert IntStrip(t) == t;
    assert !Grouped(t);
  }

  lemma SeparatorStripped(digits: string)
    requires Grouped(digits)
    ensures Strip("\U{1C}" + digits) == digits
  {
    var t := "\U{1C}" + digits;
    DigitNotSpace(digits[0]);
    DigitNotSpace(digits[|digits| - 1]);
    assert IsSpace(t[0]) && t[1..] == digits;
    assert StripLeft(t) == StripLeft(digits) == digits;
  }

  /** `int()` reads grouped digits as their value. */
  lemma ParseIntGrouped(digits: string)
    requires Grouped(digits)
    ensures ParseInt(digits) == Some(DigitsValue(digits))
  {
    StripGrouped(digits);
    ParseStrippedGrouped(digits);
  }

  /** `int()` reads a minus sign and grouped digits as the negated value. */
  lemma ParseIntNegated(digits: string)
    requires Grouped(digits)
    ensures ParseInt("-" + digits) == Some(-(DigitsValue(digits) as int))
  {
    StripGrouped(digits);
    ParseStrippedGrouped(digits);
  }

  /** Once whitespace is removed: the same three readings. */
  lemma ParseStrippedGrouped(digits: string)
    requires Grouped(digits)
    ensures ParseStripped(digits) == Some(DigitsValue(digits))
    ensures ParseStripped("+" + digits) == Some(DigitsValue(digits))
    ensures ParseStripped("-" + digits) == Some(-(DigitsValue(digits) as int))
  {
    assert ("-" + digits)[1..] == digits && ("+" + digits)[1..] == digits;
  }

  /** `int()` reads back what `str()` writes for a non-negative number. */
  lemma ParseIntToString(n: nat)
    ensures ParseInt(NatToString(n)) == Some(n)
  {
    NatToStringValue(n);
    ParseIntGrouped(NatToString(n));
  }
}
