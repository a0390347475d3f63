/** Choosing the two synthesis voices for the requested locale from the provider's
    voice catalog: the locale filter and the first male and first female short name. */
module Voices {
  import opened Wrappers
  import opened Strings

  /** One catalog entry, with the three fields the service reads. */
  datatype Voice = Voice(locale: string, shortName: string, gender: string)

  /** Voice selection fails in one of two ways. */
  datatype VoiceError = UnsupportedLocale | IncompleteVoiceCoverage

  datatype VoicePair = VoicePair(male: string, female: string)

  /** `[v for v in catalog if locale == v['Locale']]`: the entries of that locale, in
      catalog order. */
  function LocaleVoices(catalog: seq<Voice>, locale: string): (r: seq<Voice>)
    ensures forall v :: v in r ==> v in catalog && v.locale == locale
    ensures forall v :: v in catalog && v.locale == locale ==> v in r
  {
    if catalog == [] then []
    else
      var rest := LocaleVoices(catalog[1..], locale);
      assert forall v :: v in catalog ==> v == catalog[0] || v in catalog[1..];
      if catalog[0].locale == locale then [catalog[0]] + rest else rest
  }

  /** `next((v['ShortName'] for v in voices if tag in v['Gender']), None)`. */
  function FirstOfGender(voices: seq<Voice>, tag: string): (r: Option<string>)
  {
    if voices == [] then None
    else if Contains(voices[0].gender, tag) then Some(voices[0].shortName)
    else FirstOfGender(voices[1..], tag)
  }

  /** The reference reading over the whole catalog: the short name of the first entry
      in catalog order that has the locale and whose gender contains the tag. */
  ghost predicate IsFirstVoice(catalog: seq<Voice>, locale: string, tag: string, i: int) {
    0 <= i < |catalog| && catalog[i].locale == locale && Contains(catalog[i].gender, tag)
    && forall j :: 0 <= j < i ==> !(catalog[j].locale == locale && Contains(catalog[j].gender, tag))
  }

  /** Filtering by locale and then taking the first entry with the gender tag finds the
      first entry of the whole catalog that has both, and finds nothing exactly when no
      entry has both. */
  lemma {:induction false} FirstOfGenderInLocale(catalog: seq<Voice>, locale: string, tag: string)
    ensures FirstOfGender(LocaleVoices(catalog, locale), tag).None? <==>
      forall j :: 0 <= j < |catalog| ==> !(catalog[j].locale == locale && Contains(catalog[j].gender, tag))
    ensures FirstOfGender(LocaleVoices(catalog, locale), tag).Some? ==>
      exists i :: IsFirstVoice(catalog, locale, tag, i)
        && catalog[i].shortName == FirstOfGender(LocaleVoices(catalog, locale), tag).value
  {
    if catalog != [] {
      FirstOfGenderInLocale(catalog[1..], locale, tag);
      var r := FirstOfGender(LocaleVoices(catalog, locale), tag);
      if catalog[0].locale == locale && Contains(catalog[0].gender, tag) {
        assert IsFirstVoice(catalog, locale, tag, 0);
      } else {
        assert r == FirstOfGender(LocaleVoices(catalog[1..], locale), tag);
        if r.Some? {
          var i :| IsFirstVoice(catalog[1..], locale, tag, i)
            && catalog[1..][i].shortName == r.value;
          assert IsFirstVoice(catalog, locale, tag, i + 1);
        } else {
          forall j | 0 <= j < |catalog|
            ensures !(catalog[j].locale == locale && Contains(catalog[j].gender, tag))
          {
            if j > 0 { assert catalog[j] == catalog[1..][j - 1]; }
          }
        }
      }
    }
  }

  /** The voice resolution of the upload endpoint: no entry of the locale is an
      unsupported locale; a missing first male or female voice, or one whose short
      name is empty (Python's `not ''`), is incomplete coverage. */
  function SelectVoices(catalog: seq<Voice>, locale: string): Result<VoicePair, VoiceError> {
    var voices := LocaleVoices(catalog, locale);
    if voices == [] then Err(UnsupportedLocale)
    else
      match (FirstOfGender(voices, "Male"), FirstOfGender(voices, "Female"))
      case (Some(m), Some(f)) =>
        if m == [] || f == [] then Err(IncompleteVoiceCoverage) else Ok(VoicePair(m, f))
      case _ => Err(IncompleteVoiceCoverage)
  }

  /** The locale is refused exactly when no catalog entry has it. */
  lemma SelectVoicesUnsupported(catalog: seq<Voice>, locale: string)
    ensures SelectVoices(catalog, locale) == Err(UnsupportedLocale) <==>
      forall i :: 0 <= i < |catalog| ==> catalog[i].locale != locale
  {
    var voices := LocaleVoices(catalog, locale);
    if voices != [] {
      assert voices[0] in voices;
    }
  }

  /** A successful selection names the first male and the first female entry of the
      locale, in catalog order; both short names are non-empty. */
  lemma SelectVoicesPicksFirst(catalog: seq<Voice>, locale: string)
    requires SelectVoices(catalog, locale).Ok?
    ensures var pair := SelectVoices(catalog, locale).value;
      pair.male != [] && pair.female != []
      && (exists i :: IsFirstVoice(catalog, locale, "Male", i) && catalog[i].shortName == pair.male)
      && (exists i :: IsFirstVoice(catalog, locale, "Female", i) && catalog[i].shortName == pair.female)
  {
    FirstOfGenderInLocale(catalog, locale, "Male");
    FirstOfGenderInLocale(catalog, locale, "Female");
  }

  /** Conversely, when the locale's first male and first female entries have non-empty
      short names, the selection succeeds with exactly those two names. */
  lemma SelectVoicesFound(catalog: seq<Voice>, locale: string, i: int, j: int)
    requires IsFirstVoice(catalog, locale, "Male", i) && IsFirstVoice(catalog, locale, "Female", j)
    requires catalog[i].shortName != [] && catalog[j].shortName != []
    ensures SelectVoices(catalog, locale) == Ok(VoicePair(catalog[i].shortName, catalog[j].shortName))
  {
    FirstOfGenderInLocale(catalog, locale, "Male");
    FirstOfGenderInLocale(catalog, locale, "Female");
    assert catalog[i] in LocaleVoices(catalog, locale);
    var m :| IsFirstVoice(catalog, locale, "Male", m)
      && catalog[m].shortName == FirstOfGender(LocaleVoices(catalog, locale), "Male").value;
    var f :| IsFirstVoice(catalog, locale, "Female", f)
      && catalog[f].shortName == FirstOfGender(LocaleVoices(catalog, locale), "Female").value;
    FirstVoiceUnique(catalog, locale, "Male", i, m);
    FirstVoiceUnique(catalog, locale, "Female", j, f);
  }

  /** There is only one first entry of a gender in a locale. */
  lemma FirstVoiceUnique(catalog: seq<Voice>, locale: string, tag: string, i: int, k: int)
    requires IsFirstVoice(catalog, locale, tag, i) && IsFirstVoice(catalog, locale, tag, k)
    ensures i == k
  {
  }

  /** A locale that is present but lacks a male or a female entry is incomplete coverage. */
  lemma SelectVoicesIncomplete(catalog: seq<Voice>, locale: string, tag: string)
    requires exists i :: 0 <= i < |catalog| && catalog[i].locale == locale
    requires tag == "Male" || tag == "Female"
    requires forall j :: 0 <= j < |catalog| ==> !(catalog[j].locale == locale && Contains(catalog[j].gender, tag))
    ensures SelectVoices(catalog, locale) == Err(IncompleteVoiceCoverage)
  {
    FirstOfGenderInLocale(catalog, locale, tag);
    var i :| 0 <= i < |catalog| && catalog[i].locale == locale;
    assert catalog[i] in LocaleVoices(catalog, locale);
  }

  /** The documented example: an `en-US` catalog with a male `A` and a female `B`
      resolves to `(A, B)`. */
  lemma SelectVoicesExample(catalog: seq<Voice>)
    requires catalog == [Voice("en-US", "A", "Male"), Voice("en-US", "B", "Female")]
    ensures SelectVoices(catalog, "en-US") == Ok(VoicePair("A", "B"))
  {
    assert Contains("Male", "Male");
    assert !Contains("Male", "Female") by {
      assert !("Female" <= "Male");
      assert !("Female" <= "ale") && !("Female" <= "le") && !("Female" <= "e") && !("Female" <= "");
    }
    assert Contains("Female", "Female");
    assert catalog[1..] == [Voice("en-US", "B", "Female")];
    assert LocaleVoices(catalog[1..], "en-US") == catalog[1..];
    assert LocaleVoices(catalog, "en-US") == catalog;
    assert FirstOfGender(catalog, "Male") == Some("A");
    assert FirstOfGender(catalog[1..], "Female") == Some("B");
    assert FirstOfGender(catalog, "Female") == Some("B");
  }
}
