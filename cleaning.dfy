/** The small text helpers of the transcript service: `clean_text`, which drops
    bracketed placeholders such as `[PH 0:01:06]`; `convert_timestamp_to_seconds`, which
    reads a `M:SS` time marker; and the cleaning of the requested locale with the
    locale code taken from it. */
module Cleaning {
  import opened Wrappers
  import opened Strings
  import opened Numerals

  // ---------------------------------------------------------------------------
  // clean_text: re.sub(r'\[.*?\]', '', text)
  // ---------------------------------------------------------------------------

  /** Where the shortest `.*?\]` match starting at `t[0]` ends: the offset of the first
      `]` in `t`, provided no newline comes before it (`.` does not match a newline).
      `None` when a newline or the end of `t` comes first. */
  function CloseAt(t: string): (r: Option<nat>)
    ensures r.Some? ==> r.value < |t| && t[r.value] == ']'
    ensures r.Some? ==> forall k :: 0 <= k < r.value ==> t[k] != ']' && t[k] != '\n'
    ensures r.None? ==> forall k :: 0 <= k < |t| && t[k] == ']' ==> '\n' in t[..k]
  {
    if t == [] then None
    else if t[0] == ']' then Some(0)
    else if t[0] == '\n' then
      assert forall k :: 0 < k <= |t| ==> t[..k][0] == '\n';
      None
    else
      match CloseAt(t[1..])
      case Some(k) => Some(k + 1)
      case None =>
        assert forall k :: 1 <= k <= |t| ==> t[..k] == [t[0]] + t[1..][..k - 1];
        None
  }

  /** Python's `clean_text(text)`: every `[`, the shortest run of non-newline characters
      after it, and the `]` that ends that run are deleted, scanning left to right. A `[`
      whose line has no later `]` stays. */
  function CleanText(s: string): (r: string)
    ensures |r| <= |s|
  {
    if s == [] then []
    else if s[0] == '[' then
      match CloseAt(s[1..])
      case Some(k) => CleanText(s[k + 2..])
      case None => ['['] + CleanText(s[1..])
    else [s[0]] + CleanText(s[1..])
  }

  /** No `[` has a `]` after it on the same line: nothing left for `clean_text` to remove. */
  ghost predicate NoPlaceholder(s: string) {
    forall i :: 0 <= i < |s| && s[i] == '[' ==> CloseAt(s[i + 1..]).None?
  }

  /** Text without `[` passes through `clean_text` unchanged. */
  lemma {:induction false} CleanTextWithoutBracket(s: string)
    requires '[' !in s
    ensures CleanText(s) == s
  {
    if s != [] {
      CleanTextWithoutBracket(s[1..]);
      assert s == [s[0]] + s[1..];
    }
  }

  /** Cleaning adds no `]` to a line: if the text has no `]` before its first newline,
      neither has the cleaned text, so a kept `[` is still unmatched in the result. */
  lemma {:induction false} CleanTextKeepsUnmatched(t: string)
    requires CloseAt(t).None?
    ensures CloseAt(CleanText(t)).None?
  {
    if t != [] && t[0] != '\n' {
      assert t[0] != ']';
      assert CloseAt(t[1..]).None?;
      CleanTextKeepsUnmatched(t[1..]);
      var rest := CleanText(t[1..]);
      assert CleanText(t) == [t[0]] + rest;
      assert ([t[0]] + rest)[1..] == rest;
    }
  }

  /** A `[` with no `]` after it on its line is kept, together with the text before it
      (which has no `[`), and cleaning goes on after it. */
  lemma {:induction false} CleanTextKeepsBracket(a: string, t: string)
    requires '[' !in a
    requires CloseAt(t).None?
    ensures CleanText(a + ['['] + t) == a + ['['] + CleanText(t)
  {
    var s := a + ['['] + t;
    if a == [] {
      assert s[0] == '[' && s[1..] == t;
    } else {
      assert s[0] == a[0] && s[1..] == a[1..] + ['['] + t;
      CleanTextKeepsBracket(a[1..], t);
      assert a == [a[0]] + a[1..];
    }
  }

  /** The cleaned text contains no placeholder: every `[` … `]` span on one line is gone. */
  lemma {:induction false} CleanTextRemovesAll(s: string)
    ensures NoPlaceholder(CleanText(s))
  {
    if s != [] {
      if s[0] == '[' && CloseAt(s[1..]).Some? {
        var k := CloseAt(s[1..]).value;
        CleanTextRemovesAll(s[k + 2..]);
      } else {
        CleanTextRemovesAll(s[1..]);
        if s[0] == '[' {
          CleanTextKeepsUnmatched(s[1..]);
        }
        KeptCharNoPlaceholder(s[0], CleanText(s[1..]));
      }
    }
  }

  /** A character kept in front of placeholder-free text adds no placeholder, unless it
      is a `[` that the text closes on the same line. */
  lemma KeptCharNoPlaceholder(c: char, rest: string)
    requires NoPlaceholder(rest)
    requires c == '[' ==> CloseAt(rest).None?
    ensures NoPlaceholder([c] + rest)
  {
    var r := [c] + rest;
    assert r[1..] == rest;
    forall i | 1 <= i < |r| && r[i] == '['
      ensures CloseAt(r[i + 1..]).None?
    {
      assert r[i + 1..] == rest[i..];
      assert rest[i - 1] == '[';
    }
  }

  /** Text without placeholders is left unchanged by `clean_text`. */
  lemma {:induction false} CleanTextKeepsClean(s: string)
    requires NoPlaceholder(s)
    ensures CleanText(s) == s
  {
    if s != [] {
      assert NoPlaceholder(s[1..]) by {
        forall i | 0 <= i < |s[1..]| && s[1..][i] == '['
          ensures CloseAt(s[1..][i + 1..]).None?
        {
          assert s[1..][i + 1..] == s[i + 2..];
        }
      }
      CleanTextKeepsClean(s[1..]);
      assert s == [s[0]] + s[1..];
    }
  }

  /** Cleaning twice is cleaning once. */
  lemma CleanTextIdempotent(s: string)
    ensures CleanText(CleanText(s)) == CleanText(s)
  {
    CleanTextRemovesAll(s);
    CleanTextKeepsClean(CleanText(s));
  }

  /** A span `[b]` whose inside has no `]` and no newline is deleted whole, when the text
      before it has no `[`. */
  lemma {:induction false} CleanTextDropsSpan(a: string, b: string, c: string)
    requires '[' !in a
    requires ']' !in b && '\n' !in b
    ensures CleanText(a + ['['] + b + [']'] + c) == a + CleanText(c)
  {
    var s := a + ['['] + b + [']'] + c;
    if a == [] {
      assert s[0] == '[' && s[1..] == b + [']'] + c;
      CloseAtAfter(b, c);
      assert s[|b| + 2..] == c;
      assert CleanText(s) == CleanText(s[|b| + 2..]);
    } else {
      assert s[0] == a[0] && a[0] != '[';
      assert s[1..] == a[1..] + ['['] + b + [']'] + c;
      CleanTextDropsSpan(a[1..], b, c);
      assert CleanText(s) == [a[0]] + CleanText(s[1..]);
      assert a + CleanText(c) == [a[0]] + (a[1..] + CleanText(c));
    }
  }

  lemma {:induction false} CloseAtAfter(b: string, c: string)
    requires ']' !in b && '\n' !in b
    ensures CloseAt(b + [']'] + c) == Some(|b|)
  {
    if b != [] {
      assert (b + [']'] + c)[1..] == b[1..] + [']'] + c;
      CloseAtAfter(b[1..], c);
    }
  }

  /** The worked example: `clean_text("Hello [PH 0:01] world") == "Hello  world"`, with the
      input given as the text before, inside and after the placeholder. */
  lemma CleanTextExample(before: string, inside: string, after: string)
    requires before == "Hello " && inside == "PH 0:01" && after == " world"
    ensures CleanText(before + "[" + inside + "]" + after) == "Hello  world"
  {
    assert '[' !in before && '[' !in after;
    assert ']' !in inside && '\n' !in inside;
    CleanTextDropsSpan(before, inside, after);
    CleanTextWithoutBracket(after);
  }

  // ---------------------------------------------------------------------------
  // convert_timestamp_to_seconds
  // ---------------------------------------------------------------------------

  /** Python's `convert_timestamp_to_seconds(ts)`: `ts.split(':')` must give exactly two
      parts, both readable by `int()`; the result is `minutes * 60 + seconds`. Every
      `ValueError` on the way (wrong number of parts, a part `int()` refuses) gives 0. */
  function TimestampSeconds(ts: string): int {
    var parts := Split(ts, ':');
    if |parts| != 2 then 0
    else
      match (ParseInt(parts[0]), ParseInt(parts[1]))
      case (Some(minutes), Some(seconds)) => minutes * 60 + seconds
      case _ => 0
  }

  /** A marker of two grouped digit strings, zero-padded ones such as `"01:05"` included,
      reads as sixty times the minutes plus the seconds. */
  lemma TimestampOfDigits(a: string, b: string)
    requires Grouped(a) && Grouped(b)
    ensures TimestampSeconds(a + ":" + b) == 60 * DigitsValue(a) + DigitsValue(b)
  {
    ParseIntGrouped(a);
    ParseIntGrouped(b);
    GroupedNoColon(a);
    GroupedNoColon(b);
    TimestampOfParts(a, b, DigitsValue(a), DigitsValue(b));
  }

  lemma GroupedNoColon(d: string)
    requires Grouped(d)
    ensures ':' !in d
  {
    forall k | 0 <= k < |d|
      ensures d[k] != ':'
    {
      assert IsDigit(d[k]) || d[k] == '_';
    }
  }

  /** A marker written as `f"{m}:{s}"` reads as `60 * m + s`. */
  lemma TimestampOfMinutesSeconds(m: nat, s: nat)
    ensures TimestampSeconds(NatToString(m) + ":" + NatToString(s)) == 60 * m + s
  {
    NatToStringValue(m);
    NatToStringValue(s);
    TimestampOfDigits(NatToString(m), NatToString(s));
  }

  /** Two colon-free parts that `int()` reads as `m` and `s` give `60 * m + s`. */
  lemma TimestampOfParts(a: string, b: string, m: int, s: int)
    requires ':' !in a && ':' !in b
    requires ParseInt(a) == Some(m) && ParseInt(b) == Some(s)
    ensures TimestampSeconds(a + ":" + b) == 60 * m + s
  {
    SplitTwo(a, b, ':');
  }

  /** A marker with no colon or more than one reads as 0. */
  lemma TimestampNeedsOneColon(ts: string)
    requires multiset(ts)[':'] != 1
    ensures TimestampSeconds(ts) == 0
  {
    SplitCount(ts, ':');
  }

  /** A marker with one colon reads as 0 when `int()` refuses either side. */
  lemma TimestampMalformedPart(a: string, b: string)
    requires ':' !in a && ':' !in b
    requires ParseInt(a).None? || ParseInt(b).None?
    ensures TimestampSeconds(a + ":" + b) == 0
  {
    SplitTwo(a, b, ':');
  }

  /** The documented example: "1:30" is 90 seconds. */
  lemma TimestampExample(ts: string)
    requires ts == "1:30"
    ensures TimestampSeconds(ts) == 90
  {
    var thirty: nat := 30;
    assert thirty / 10 == 3 && thirty % 10 == 0;
    assert NatToString(thirty) == "30";
    assert ts == NatToString(1) + ":" + NatToString(30);
    TimestampOfMinutesSeconds(1, 30);
  }

  /** The documented fallbacks: "bad", "" and "1:2:3" all read as 0. */
  lemma TimestampFallbackExamples()
    ensures TimestampSeconds("bad") == 0
    ensures TimestampSeconds("") == 0
    ensures TimestampSeconds("1:2:3") == 0
  {
    assert multiset("bad")[':'] == 0;
    TimestampNeedsOneColon("bad");
    TimestampNeedsOneColon("");
    assert multiset("1:2:3")[':'] == 2;
    TimestampNeedsOneColon("1:2:3");
  }

  // ---------------------------------------------------------------------------
  // The requested locale
  // ---------------------------------------------------------------------------

  /** The characters the cleaning of the locale removes. */
  predicate Unwanted(c: char) {
    c == '\\' || c == '\n' || c == '\t'
  }

  /** The characters of `s` that are not unwanted, in their order. */
  function Wanted(s: string): string {
    if s == [] then [] else (if Unwanted(s[0]) then [] else [s[0]]) + Wanted(s[1..])
  }

  /** `source.strip().replace("\\", "").replace("\n", "").replace("\t", "")`: the
      stripped locale with every backslash, newline and tab removed and every other
      character kept, in order. */
  function CleanSource(source: string): (r: string)
    ensures r == Wanted(Strip(source))
    ensures '\\' !in r && '\n' !in r && '\t' !in r
    ensures forall c :: c in r ==> c in source
  {
    ReplacesKeepWanted(Strip(source));
    Without(Without(Without(Strip(source), '\\'), '\n'), '\t')
  }

  /** The three `replace` calls, one after the other, keep exactly the wanted characters. */
  lemma {:induction false} ReplacesKeepWanted(s: string)
    ensures Without(Without(Without(s, '\\'), '\n'), '\t') == Wanted(s)
  {
    if s != [] {
      var x, rest := s[0], s[1..];
      assert s == [x] + rest;
      WithoutAppend([x], rest, '\\');
      WithoutOne(x, '\\');
      var a := Without([x], '\\');
      WithoutAppend(a, Without(rest, '\\'), '\n');
      var b := Without(a, '\n');
      WithoutAppend(b, Without(Without(rest, '\\'), '\n'), '\t');
      if a != [] {
        WithoutOne(x, '\n');
        WithoutOne(x, '\t');
      }
      ReplacesKeepWanted(rest);
    }
  }

  /** A locale that is already clean (no backslash, newline or tab, nothing to strip)
      is kept as it is. */
  lemma CleanSourceKeepsPlainLocale(source: string)
    requires '\\' !in source && '\n' !in source && '\t' !in source
    requires source == [] || (!IsSpace(source[0]) && !IsSpace(source[|source| - 1]))
    ensures CleanSource(source) == source
  {
  }

  /** `source_cleaned.split('-')[-1]`: the segment after the last hyphen, or the whole
      locale when it has none (e.g. "US" for "en-US"). */
  function LocaleCode(locale: string): (code: string)
    ensures |code| <= |locale| && locale[|locale| - |code|..] == code
    ensures '-' !in code
    ensures '-' in locale ==> |code| < |locale| && locale[|locale| - |code| - 1] == '-'
    ensures '-' !in locale ==> code == locale
  {
    LastPart(locale, '-')
  }
}
