# Transcript to speech markup, in Dafny

This project models the core of a small web service, `main.py` of tts-rep-Cloud9. The
service takes an uploaded CSV of transcript rows and a requested locale such as `fr-FR`.
It turns the rows into two speech-markup documents (W3C SSML 1.0), one in English and one
in the requested language, and has both synthesized to audio.

The model covers:

- **Text helpers.** `clean_text` deletes `[...]` placeholders. `convert_timestamp_to_seconds`
  reads `M:SS` markers, with Python's `str.split` and `int()` written out (`Strings`,
  `Numerals`, `Cleaning`).
- **Locale and voice resolution.** The requested locale is cleaned and its code taken from
  after the last hyphen. The voice catalog is filtered by locale, and the first male and
  first female voice are picked (`Cleaning`, `Voices`).
- **Column resolver.** `find_transcription_column` is an imperative search, proved equal to
  a recursive specification (`Tables`).
- **Document builder.** The loop of `generate_ssml` is an imperative method that appends to
  the document and keeps `last_timestamp`. It is proved equal to a functional
  specification (`Ssml`). The lemmas give the document's structure:
  - one `<voice>` per spoken row, in row order, with the voice chosen by speaker;
  - every `<break>` is positive and followed by a voice;
  - the breaks add up to the timeline the markers describe.
- **The `/upload-csv/` endpoint.** An imperative method is proved equal to a functional
  specification (`Pipeline`). Object storage, the voice list and speech synthesis are
  inputs: the outcomes those services return, a value or an exception. An exception
  carries its kind (`ValueError`, `IndexError` or another) and its message, and the
  handlers answer by kind. The model also records the calls made to the services. The
  lemmas give:
  - the order of the checks, and each error exactly when its condition holds;
  - the order of the outside calls;
  - what a successful request sends and answers.

Cells of the table are text or missing (pandas' NaN). A missing cell that reaches
`clean_text` or `.split` makes Python raise a non-`ValueError` exception. The model carries
that as the generic `Error processing file. ...` response, as the code's handlers produce it:
the loop stops at the first such row (`EmitFailsAtFirstFault`, `BuildSsmlMissingText`).

## Model

| member | source | states |
|---|---|---|
| Strings.IsSpace | main.py:203 | definition of `str.isspace()` for one character: the whitespace `str.strip()` removes |
| Strings.StripLeft | main.py:203 | the result is a suffix of the input, everything cut off is whitespace, and it does not start with whitespace |
| Strings.StripRight | main.py:203 | the result is a prefix of the input, everything cut off is whitespace, and it does not end with whitespace |
| Strings.Strip | main.py:203 | `str.strip()`: never longer than the input; neither end is whitespace; an input with non-space ends is returned unchanged |
| Strings.Without | main.py:203 | `replace(c, "")`: `c` no longer occurs; every remaining character was in the input; the length drops by the number of occurrences of `c`; an input without `c` is unchanged |
| Strings.WithoutAppend | main.py:203 | `replace(c, "")` of a concatenation is the concatenation of the two results, so the kept characters keep their order |
| Strings.WithoutOne | main.py:203 | a single character is removed exactly when it is `c`; with WithoutAppend this fixes the result for every input |
| Strings.Split | main.py:60 | `str.split(sep)`: at least one part; no part holds `sep`; joining the parts with `sep` gives the input back |
| Strings.SplitCount | main.py:60 | there is one part more than the input has separators |
| Strings.SplitUnique | main.py:60 | splitting undoes joining: any separator-free parts joined with `sep` split back into exactly those parts |
| Strings.SplitTwo | main.py:60 | `a:b` with colon-free `a` and `b` splits into exactly `[a, b]` |
| Strings.JoinEndsWithLast | main.py:238 | the last part is a suffix of the joined text and, when there are several parts, has a separator right before it |
| Strings.LastPart | main.py:238 | `split(sep)[-1]`: a separator-free suffix, preceded by `sep` when the text has one, and the whole text when it has none |
| Strings.Contains | main.py:195 | definition of Python's `sub in s`: `sub` is a prefix of some suffix of `s`; used by FirstTranscriptionColumn and FirstOfGenderInLocale |
| Strings.EndsWith | main.py:195 | definition of `s.endswith(suffix)`: the last `\|suffix\|` characters are `suffix`; used by FirstTranscriptionColumn |
| Numerals.NatToString | main.py:143 | `str(n)` for the seconds of a break: at least one decimal digit, no leading zero |
| Numerals.NatToStringValue | main.py:143 | the digits written for `n` form a digit string of value `n` |
| Numerals.IntSpace | main.py:60 | definition of the whitespace `int()` skips: `str.isspace()` without U+001C to U+001F; ParseIntKeepsSeparator states the difference |
| Numerals.IntStripLeft | main.py:60 | the leading whitespace `int()` skips: a suffix of the input, everything cut off is `int()` whitespace, and it does not start with any |
| Numerals.IntStripRight | main.py:60 | the trailing whitespace `int()` skips: a prefix of the input, everything cut off is `int()` whitespace, and it does not end with any |
| Numerals.IntStrip | main.py:60 | the text `int()` reads: never longer than the input, neither end is `int()` whitespace, and an input without such ends is kept |
| Numerals.ParseInt | main.py:60 | definition of `int(text)` in base 10: skip `int()` whitespace, then an optional sign and grouped digits, else `ValueError` (`None`); its readings are stated by ParseIntGrouped, ParseIntNegated, ParseIntToString and ParseIntKeepsSeparator |
| Numerals.ParseStripped | main.py:60 | definition of `int()` after the whitespace: optional sign, then grouped digits; ParseStrippedGrouped states its readings |
| Numerals.ParseIntGrouped | main.py:60 | `int()` reads a digit string, with leading zeros or single underscores between digits, as its decimal value |
| Numerals.ParseIntNegated | main.py:60 | `int()` reads a minus sign followed by such digits as the negated value |
| Numerals.ParseStrippedGrouped | main.py:60 | once surrounding whitespace is removed, digits, `+` digits and `-` digits read as their value, their value and its negation |
| Numerals.ParseIntToString | main.py:60 | `int()` reads back what `str()` writes for a non-negative integer |
| Numerals.ParseIntKeepsSeparator | main.py:60-63 | `int()` refuses digits preceded by U+001C, although `str.strip()` removes that character |
| Cleaning.CloseAt | main.py:55 | where the shortest `.*?\]` match ends: at the first `]`, with no `]` or newline before it; no match when a newline comes before every `]` |
| Cleaning.CleanText | main.py:54-55 | `clean_text` never lengthens the text |
| Cleaning.CleanTextWithoutBracket | main.py:54-55 | a text without `[` is returned unchanged |
| Cleaning.CleanTextKeepsUnmatched | main.py:55 | cleaning adds no `]` before the first newline: a text with no `]` on its first line cleans to one with none, so a kept `[` is still unmatched |
| Cleaning.CleanTextKeepsBracket | main.py:55 | a `[` with no `]` after it on its line is kept, with the `[`-free text before it, and the text after it is cleaned in turn; with CleanTextDropsSpan and CleanTextWithoutBracket this fixes the result on every input |
| Cleaning.CleanTextRemovesAll | main.py:55 | the cleaned text has no `[` followed by a `]` on the same line |
| Cleaning.CleanTextKeepsClean | main.py:55 | a text with no such placeholder is returned unchanged |
| Cleaning.CleanTextIdempotent | main.py:54-55 | cleaning twice is cleaning once |
| Cleaning.CleanTextDropsSpan | main.py:55 | when the text before it has no `[`, a `[...]` span whose inside has no `]` and no newline is deleted whole, together with its brackets, and the rest is cleaned in turn |
| Cleaning.CleanTextExample | main.py:53-55 | `"Hello [PH 0:01] world"` cleans to `"Hello  world"` |
| Cleaning.TimestampSeconds | main.py:58-63 | definition of `convert_timestamp_to_seconds`: split at `:`, two parts read by `int()`, `60*m + s`, and 0 on every `ValueError`; its readings are stated by the Timestamp lemmas below |
| Cleaning.TimestampOfDigits | main.py:58-61 | a marker of two digit strings, zero-padded ones such as `01:05` included, reads as sixty times the minutes plus the seconds |
| Cleaning.TimestampOfMinutesSeconds | main.py:58-61 | a marker written `f"{m}:{s}"` for non-negative `m` and `s` reads as `60*m + s` |
| Cleaning.TimestampOfParts | main.py:60-61 | two colon-free parts that `int()` reads as `m` and `s` give `60*m + s`, negative values included |
| Cleaning.TimestampNeedsOneColon | main.py:60-63 | a marker with no colon or with more than one reads as 0 |
| Cleaning.TimestampMalformedPart | main.py:60-63 | a marker with one colon reads as 0 when `int()` refuses either side |
| Cleaning.TimestampExample | main.py:58-61 | `"1:30"` is 90 seconds |
| Cleaning.TimestampFallbackExamples | main.py:62-63 | `"bad"`, `""` and `"1:2:3"` read as 0 |
| Cleaning.Wanted | main.py:203 | reference definition: the characters of a text other than backslash, newline and tab, in their order |
| Cleaning.ReplacesKeepWanted | main.py:203 | the three chained `replace` calls keep exactly the wanted characters, in order |
| Cleaning.CleanSource | main.py:203 | the cleaned locale is the stripped input with every backslash, newline and tab removed and every other character kept in order; so none of the three is left, and every character comes from the input |
| Cleaning.CleanSourceKeepsPlainLocale | main.py:203 | a locale with nothing to strip or remove is kept as it is |
| Cleaning.LocaleCode | main.py:238 | the locale code is the hyphen-free suffix after the last `-`, or the whole locale when it has no hyphen |
| Voices.LocaleVoices | main.py:226 | the filtered list holds exactly the catalog entries whose locale equals the requested one |
| Voices.FirstOfGender | main.py:231-232 | definition of `next((v['ShortName'] for v in voices if tag in v['Gender']), None)`; FirstOfGenderInLocale states what it finds |
| Voices.FirstOfGenderInLocale | main.py:226-232 | filtering by locale and taking the first entry whose gender contains the tag finds the first catalog entry with both, and finds nothing exactly when no entry has both |
| Voices.SelectVoices | main.py:226-235 | definition of the voice resolution; SelectVoicesUnsupported, SelectVoicesPicksFirst, SelectVoicesFound and SelectVoicesIncomplete state its outcome in terms of the catalog |
| Voices.SelectVoicesUnsupported | main.py:226-229 | the locale is refused exactly when no catalog entry has that locale |
| Voices.SelectVoicesPicksFirst | main.py:231-233 | a successful selection names the first male and the first female entry of the locale, in catalog order, and both names are non-empty |
| Voices.SelectVoicesFound | main.py:226-233 | conversely, when the locale's first male and first female entries have non-empty names, the selection succeeds with exactly those two names |
| Voices.SelectVoicesIncomplete | main.py:231-235 | a locale that has entries but no male or no female entry is reported as a missing voice |
| Voices.SelectVoicesExample | main.py:226-233 | an `en-US` catalog with male `A` and female `B` gives the pair `(A, B)` |
| Tables.IsTranscriptionColumnFor | main.py:195 | definition of the column test: the code occurs in the name and the name ends with `--Transcription` |
| Tables.FirstTranscriptionColumn | main.py:193-197 | none is found exactly when no column qualifies; otherwise the result is the first qualifying column in column order |
| Tables.FindTranscriptionColumn | main.py:193-197 | the loop with early return returns exactly the first qualifying column |
| Tables.FirstTranscriptionColumnExample | main.py:193-197 | among `Speaker`, `Time Markers`, `EN--Transcription`, `FR--Transcription`, code `FR` finds `FR--Transcription` |
| Tables.NoTranscriptionColumnExample | main.py:193-197 | the same columns give no column for code `DE` |
| Tables.NotContainsMissingChar | main.py:195 | a column that lacks the first character of the code does not contain the code |
| Tables.IsEmpty | main.py:214 | definition of `df.empty`: no rows or no columns; HandleEmptyCsv states its use |
| Tables.Get | main.py:133-138 | definition of `row.get(column, default)`: the cell when the row has the column, else the default as text |
| Tables.HasText | main.py:245-246 | definition of `not df[column].dropna().empty`: some row holds text in the column; HandleEmptyColumn states its use |
| Ssml.Header | main.py:129 | definition of the `<speak>` start tag with `xml:lang`; BuildSsmlDocument and BuildExample state its place |
| Ssml.Render | main.py:143-146 | definition of one emitted line, a `<break time='Ns' />` or a `<voice name='...'>` element; BuildExample states a rendering |
| Ssml.VoiceFor | main.py:145 | definition of `male_voice if speaker == 'spk_0' else female_voice`; Voiced and EmitUtterances state its use |
| Ssml.Classify | main.py:133-138 | definition of how the loop body reads one row; ClassifySpoken states when a row is spoken or skipped |
| Ssml.Classified | main.py:132-138 | the loop reads one entry per row, in row order, each the reading of that row |
| Ssml.Step | main.py:138-146 | definition of one iteration; StepShape states its effect |
| Ssml.Emit | main.py:132-146 | definition of the loop from a state; EmitUtterances, EmitPaced, EmitTiming, EmitNoFault and EmitFailsAtFirstFault state what it produces |
| Ssml.BuildSsml | main.py:123-148 | definition of the document `generate_ssml` uploads, or its error; GenerateSsml is proved equal to it and the lemmas below state its shape |
| Ssml.ReadRow | main.py:133-138 | reading a row cleans its text, skips an empty result, reads the time marker and converts it, raising on a missing text or marker |
| Ssml.EmitRow | main.py:139-146 | a spoken row appends a break when the delay is positive, then its voice, and moves `last_timestamp`; the text stays the rendering of the pieces |
| Ssml.GenerateSsml | main.py:123-148 | the loop over the rows builds exactly the document of the functional specification, or raises its error |
| Ssml.RenderAllAppend | main.py:143-146 | appending one piece's rendering extends the rendered document by that piece |
| Ssml.SpokenRows | main.py:134-136 | the spoken rows, in row order |
| Ssml.Voiced | main.py:145-146 | one voice per spoken row: the male voice exactly when the speaker is `spk_0`, with the row's cleaned text |
| Ssml.UtterancesAppend | main.py:146 | the voices of two runs of pieces are the voices of each, in order |
| Ssml.SilenceAppend | main.py:143 | the silence of two runs of pieces adds up |
| Ssml.SpokenSeconds | main.py:138 | one marker per spoken row |
| Ssml.StepShape | main.py:138-146 | one row: a break of `seconds - last` exactly when that is positive, then the voice, and `last_timestamp` becomes the row's marker; a skipped row changes nothing |
| Ssml.Layout | main.py:138-146 | reference layout independent of the loop: per spoken row, a break of the seconds since the previous spoken row's marker when its marker is later, then its voice |
| Ssml.EmitLayout | main.py:129-148 | the loop appends exactly the layout of its spoken rows from its `last_timestamp`, so every break sits right before the voice of its row and is `max(0, ts - last_ts)` with `last_ts` the previous spoken row's marker |
| Ssml.EmitUtterances | main.py:132-146 | the loop emits exactly one voice per spoken row, in row order, with the voice chosen by speaker |
| Ssml.EmitPaced | main.py:139-146 | every break lasts at least a second and is followed at once by a voice |
| Ssml.EmitTiming | main.py:138-143 | `last_timestamp` ends at the last spoken row's marker, since skipped rows do not move it; the breaks add up to at least the distance covered, and exactly to it when the markers never go back |
| Ssml.EmitFromStart | main.py:129-148 | from the start: exactly the layout of the spoken rows from marker 0; a paced run with one voice per spoken row; the breaks add up to at least the last spoken marker, and exactly to it for non-negative markers that never go back |
| Ssml.EmitNoFault | main.py:132-138 | the loop finishes exactly when no row raises |
| Ssml.EmitFailsAtFirstFault | main.py:132-138 | the loop stops at the first row that raises, with that row's fault |
| Ssml.BuildSsmlMissingText | main.py:132-134 | a missing text cell makes `generate_ssml` raise, when the column exists and no earlier row raised |
| Ssml.BuildSsmlDocument | main.py:124-148 | a built document is the `<speak ... xml:lang>` start tag, the emitted pieces and `</speak>`, and no row raised |
| Ssml.ClassifySpoken | main.py:133-138 | a row is spoken exactly when its text cell holds text that cleans to something non-empty and its marker is present; a row is skipped exactly when its text cleans to nothing |
| Ssml.BuildSsmlColumnCheck | main.py:124-125 | `generate_ssml` raises its column error exactly when the column is not in the table |
| Ssml.EmitExample | main.py:138-146 | the loop on two read rows, spoken at 0 and 5 seconds by `spk_0` and `spk_1`, emits the male voice, a 5-second break, then the female voice |
| Ssml.ExampleRow | main.py:133-138 | a row whose `Speaker`, `Time Markers` and text cells hold a speaker, `0:` and two digits, and a text without `[` is read as spoken by that speaker, at the value of the two digits, with that text; as used for `(spk_0, "0:00", "Hi")` and `(spk_1, "0:05", "Bye")` |
| Ssml.ExampleRendered | main.py:143-146 | those pieces render as `<voice name='male'>Hi</voice>`, `<break time='5s' />`, `<voice name='female'>Bye</voice>`, one per line |
| Ssml.ExampleBuilt | main.py:123-148 | a table with the column whose two rows read as the example's gives the example's document |
| Ssml.BuildExample | main.py:123-148 | a table with columns `Speaker`, `Time Markers`, `EN--Transcription` and rows `(spk_0, "0:00", "Hi")`, `(spk_1, "0:05", "Bye")` gives exactly the document: start tag, male voice saying Hi, a 5-second break, female voice saying Bye, `</speak>` |
| Pipeline.FaultText | main.py:133-138 | definition of the messages Python gives when a missing cell reaches `re.sub` or `.split` |
| Pipeline.HandlerText | main.py:264-272 | definition of the three handlers: a `ValueError` as its message, an `IndexError` as the fixed missing-data text, anything else prefixed with `Error processing file. `; HandleStoreInputRaises states it end to end |
| Pipeline.ErrorText | main.py:207-272 | definition of the error text of each failure, the column error and row faults going through the handlers by their exception kind |
| Pipeline.Narration | main.py:151-181 | definition of one pass: build, store, synthesize; NarrationCalls states its calls and results |
| Pipeline.BothPasses | main.py:250-262 | definition of the English pass then the target pass; BothPassesGenerated, BothPassesInOrder and BothPassesFailures state its outcome |
| Pipeline.Validated | main.py:226-262 | definition of the endpoint after the catalog arrived; ValidatedPasses, ValidatedGenerated and ValidatedInOrder state its outcome |
| Pipeline.Handle | main.py:200-272 | definition of the endpoint's answer and calls; the Handle lemmas below state each outcome exactly |
| Pipeline.Reply | main.py:258-272 | the body has an `error` entry exactly when the request failed, holding the error text; on success it has the message and the two URLs |
| Pipeline.NarrationCalls | main.py:251-252 | one pass stores the document it built, then asks for the audio of the stored URL, and stops at its first failure |
| Pipeline.SetupThenPasses | main.py:218-255 | storing the upload, fetching the catalog, then two passes of store-then-synthesize keeps the call order |
| Pipeline.BothPassesInOrder | main.py:250-255 | the English pass and the target pass keep the call order |
| Pipeline.ValidatedInOrder | main.py:226-255 | after the catalog has arrived, the calls start with the upload store and the catalog fetch and keep the call order |
| Pipeline.HandleCallOrder | main.py:218-255 | every request calls the services in the source's order, at most six calls, and each synthesis asks for the URL its store returned |
| Pipeline.HandleChecksUploadFirst | main.py:207-220 | nothing is sent out exactly when the upload is not decodable, not parsable, or an empty table |
| Pipeline.BothPassesFailures | main.py:250-255 | once both passes have started, a failure comes from a document or a service, never from a check |
| Pipeline.HandleEmptyCsv | main.py:213-216 | the upload is refused as empty exactly when it parsed into a table with no rows or no columns; nothing is called |
| Pipeline.HandleStoreInputRaises | main.py:220-272 | an exception from storing the upload ends the request after that one call; a `ValueError` is answered with its message, an `IndexError` with the missing-data text, anything else with `Error processing file. ` and its message |
| Pipeline.ValidatedFailures | main.py:226-262 | once the catalog arrived, no failure is an upload failure |
| Pipeline.HandleCases | main.py:201-223 | before the catalog arrives a request can fail only on the upload or a service; otherwise the checks decide |
| Pipeline.HandleInvalidLocale | main.py:226-229 | the locale is refused exactly when no catalog entry has the cleaned locale; nothing more is called |
| Pipeline.HandleNoVoicePair | main.py:231-235 | the voice error comes exactly when the locale has entries but no usable male or female voice; it names the cleaned locale, and nothing more is called |
| Pipeline.HandleMissingColumn | main.py:237-242 | the column error comes exactly when the voices were found and no column qualifies for the locale code; it names the code, and nothing after the upload store and catalog fetch is called |
| Pipeline.ValidatedPasses | main.py:237-255 | with the voices found: no column is the column error, a column without text is the empty-column error, otherwise the two passes decide |
| Pipeline.HandleEmptyColumn | main.py:244-248 | the empty-column error comes exactly when the first qualifying column has no text in any row; a cell that cleans to nothing still counts as text; it names that column, and nothing after the upload store and catalog fetch is called |
| Pipeline.BothPassesGenerated | main.py:250-262 | the two passes succeed exactly when both documents build and every service answers; they then make the four calls with the built documents and the returned URLs |
| Pipeline.ValidatedGenerated | main.py:226-262 | once the catalog has arrived, the request succeeds exactly when every check passes, both documents build and every service answers; it answers with the two audio URLs after the six calls |
| Pipeline.HandleGenerated | main.py:201-262 | a request succeeds exactly when every check passes, both documents build and every service answers; it answers with the two audio URLs after exactly the six calls of the source |
| Pipeline.BothPassesNeedEnglishColumn | main.py:124-125 | without `EN--Transcription`, the English pass fails with the column error before storing anything |
| Pipeline.HandleNeedsEnglishColumn | main.py:250-251 | once every check has passed, a table without `EN--Transcription` fails with the column error, whatever language was requested |
| Pipeline.Narrate | main.py:251-252 | `generate_ssml` with its upload, then synthesis, behaves as one pass of the specification |
| Pipeline.UploadCsv | main.py:200-272 | the endpoint's early-return code answers exactly as the specification does and makes exactly its calls |
| Pipeline.Validate | main.py:226-248 | the checks on locale, voices and column behave as the specification |
| Pipeline.Speak | main.py:250-262 | the English pass, then the target pass, behave as the specification |

## Left out

- FastAPI routing, CORS, the template homepage, logging and `async`/`await` are left out. They are transport; the endpoint runs its steps one after another.
- Object storage (`upload_file_to_s3_and_get_url`), the secret lookup (`get_azure_secrets`, which parses the secret with `eval`), the voice list request and the synthesis request (`get_supported_voices`, `convert_ssml_to_audio`) are left out. They are outside calls. Each is an input outcome: a value, or an exception with its kind and message.
- Uploading the input CSV is one call whose outcome is an input. The bytes sent and the fresh `uuid` file names are not modelled.
- `detect_language` is left out. It wraps a library and nothing calls it.
- UTF-8 decoding and `pd.read_csv` are left out. The model starts from their outcome: a parsed table, a decode error, or a parser `ValueError` with its message.
- Tables hold only text cells or missing cells. pandas would read an all-numeric column as numbers; a number cell in the text column or the marker column raises a non-`ValueError` as a missing cell does. Duplicate column names are not modelled either.
- A voice catalog entry without a `Locale`, `ShortName` or `Gender` key is not modelled. Python would raise `KeyError`, which falls into the generic handler.
- Within the modelled code nothing raises `IndexError` (`split('-')[-1]` always has a last part); an outside call whose outcome is an `IndexError` takes that handler.
- Pipeline.FaultText: the wording of Python's `TypeError` and `AttributeError` messages differs between Python versions; the model fixes one wording.
- Numerals.ParseIntToString: the `str()`/`int()` round trip is stated for non-negative integers; a negative number is covered by ParseIntNegated on its digits.
- Cleaning.TimestampOfMinutesSeconds: stated for non-negative minutes and seconds; a negative marker such as `-1:30` follows from TimestampOfParts with ParseIntNegated.
- Numerals.ParseInt: Python's `int()` also accepts non-ASCII Unicode decimal digits; the model reads ASCII digits only. Python 3.11 and later also refuse more than 4300 digits by default (`sys.set_int_max_str_digits`); the model reads numbers of any length.
- Strings.IsSpace: the whitespace `str.strip()` removes is written out as a fixed list of code points, as Python's Unicode tables define it; no Unicode database is consulted. Numerals.IntSpace, the whitespace `int()` skips, is the same list without U+001C to U+001F.
- Tables are taken as pandas builds them. A row lacking one of the table's columns, which `read_csv` never produces, is not excluded; for such a row `Get` gives the default and `HasText` sees no text.
- The document text is not XML-escaped, as in the source. The model proves the document's structure as a run of pieces, not that it is well-formed XML.
