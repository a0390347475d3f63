/** `generate_ssml`: the speech-markup document (W3C SSML 1.0) built from the rows of
    the transcript table. The document is a `<speak>` root carrying the language, then
    per spoken row an optional `<break>` for the silence since the previous spoken row
    and a `<voice>` element holding the cleaned text, then `</speak>`. */
module Ssml {
  import opened Wrappers
  import opened Numerals
  import opened Cleaning
  import opened Tables

  /** What the builder emits between the header and the footer. */
  datatype Piece = Break(seconds: nat) | Utterance(voice: string, text: string)

  /** A row the loop cannot process: Python raises on a missing (NaN) cell, inside
      `clean_text` for the text and at `.split` for the time marker. */
  datatype Fault = TextNotString | MarkerNotString

  datatype SsmlError = ColumnNotFound(column: string) | RowFailed(fault: Fault)

  const SpeakerColumn := "Speaker"
  const TimeColumn := "Time Markers"
  /** The speaker given the male voice, and the speaker assumed when the table has no
      `Speaker` column. */
  const PrimarySpeaker := "spk_0"
  /** The time marker assumed when the table has no `Time Markers` column. */
  const DefaultMarker := "0:00"

  /** The root element's start tag (section 3.1.1 of SSML 1.0), with the language. */
  function Header(lang: string): string {
    "<speak version='1.0' xmlns='http://www.w3.org/2001/10/synthesis' xml:lang='" + lang + "'>\n"
  }

  const Footer := "</speak>"

  /** One emitted line: a `<break>` (section 3.2.3) or a `<voice>` element (section
      3.2.1). The text goes in unescaped, as the source writes it. */
  function Render(p: Piece): string {
    match p
    case Break(seconds) => "<break time='" + NatToString(seconds) + "s' />\n"
    case Utterance(voice, text) => "<voice name='" + voice + "'>" + text + "</voice>\n"
  }

  function RenderAll(ps: seq<Piece>): string {
    if ps == [] then "" else RenderAll(ps[..|ps| - 1]) + Render(ps[|ps| - 1])
  }

  /** Appending a piece to a text that ends with the rendering of `ps`. */
  lemma RenderAllAppend(head: string, ps: seq<Piece>, x: Piece)
    ensures head + RenderAll(ps) + Render(x) == head + RenderAll(ps + [x])
  {
    assert (ps + [x])[..|ps|] == ps;
  }

  function Document(lang: string, ps: seq<Piece>): string {
    Header(lang) + RenderAll(ps) + Footer
  }

  /** `male_voice if speaker == 'spk_0' else female_voice`; a missing speaker cell is not
      `spk_0`. */
  function VoiceFor(speaker: Cell, male: string, female: string): string {
    if speaker == Text(PrimarySpeaker) then male else female
  }

  /** What one row contributes, read the way the loop body reads it: the text cell is
      cleaned first (a missing cell raises), a row whose cleaned text is empty is skipped,
      then the time marker is read (a missing cell raises) and converted to seconds. */
  datatype RowKind = Raises(fault: Fault) | Silent | Spoken(speaker: Cell, text: string, seconds: int)

  function Classify(row: Row, column: string): RowKind {
    match Get(row, column, "")
    case Missing => Raises(TextNotString)
    case Text(raw) =>
      if CleanText(raw) == [] then Silent
      else
        match Get(row, TimeColumn, DefaultMarker)
        case Missing => Raises(MarkerNotString)
        case Text(marker) => Spoken(Get(row, SpeakerColumn, PrimarySpeaker), CleanText(raw), TimestampSeconds(marker))
  }

  /** The rows as the loop reads them, one entry per row, in row order. */
  function Classified(rows: seq<Row>, column: string): (kinds: seq<RowKind>)
    ensures |kinds| == |rows|
    ensures forall j :: 0 <= j < |rows| ==> kinds[j] == Classify(rows[j], column)
  {
    if rows == [] then [] else [Classify(rows[0], column)] + Classified(rows[1..], column)
  }

  /** The loop's state: the pieces emitted so far and `last_timestamp`. */
  datatype Progress = Progress(pieces: seq<Piece>, last: int)

  /** One iteration of the loop over `df.iterrows()`: a spoken row gets a break of
      `max(0, seconds - last_timestamp)` seconds when that is positive, then its voice,
      and becomes the new `last_timestamp`; a skipped row changes nothing. */
  function Step(p: Progress, kind: RowKind, male: string, female: string): Result<Progress, Fault> {
    match kind
    case Raises(f) => Err(f)
    case Silent => Ok(p)
    case Spoken(speaker, text, seconds) =>
      var delay: nat := if seconds - p.last > 0 then seconds - p.last else 0;
      var gap := if delay > 0 then [Break(delay)] else [];
      Ok(Progress(p.pieces + gap + [Utterance(VoiceFor(speaker, male, female), text)], seconds))
  }

  /** The loop from state `p` over the rows; the first row that raises ends it. */
  function Emit(p: Progress, kinds: seq<RowKind>, male: string, female: string): Result<Progress, Fault>
    decreases |kinds|
  {
    if kinds == [] then Ok(p)
    else
      var next := Step(p, kinds[0], male, female);
      if next.Err? then Err(next.error) else Emit(next.value, kinds[1..], male, female)
  }

  const Start := Progress([], 0)

  /** The document `generate_ssml` uploads, or the error it raises. */
  function BuildSsml(t: Table, column: string, male: string, female: string, lang: string): Result<string, SsmlError> {
    if column !in t.columns then Err(ColumnNotFound(column))
    else
      match Emit(Start, Classified(t.rows, column), male, female)
      case Err(f) => Err(RowFailed(f))
      case Ok(p) => Ok(Document(lang, p.pieces))
  }

  /** The first half of the loop body: read and clean the text cell, skip an empty
      result, read the time marker and convert it. */
  method ReadRow(row: Row, column: string) returns (kind: RowKind)
    ensures kind == Classify(row, column)
  {
    var speaker := Get(row, SpeakerColumn, PrimarySpeaker);
    var cell := Get(row, column, "");
    if cell.Missing? {
      return Raises(TextNotString);
    }
    var text := CleanText(cell.text);
    if text == [] {
      return Silent;
    }
    var marker := Get(row, TimeColumn, DefaultMarker);
    if marker.Missing? {
      return Raises(MarkerNotString);
    }
    var seconds := TimestampSeconds(marker.text);
    return Spoken(speaker, text, seconds);
  }

  /** The second half of the loop body, for a row that did not raise: a spoken row
      appends its break (when the delay is positive) and its voice to the document and
      moves `last_timestamp`; a skipped row changes nothing. */
  method EmitRow(content: string, last: int, kind: RowKind, male: string, female: string,
                 ghost head: string, ghost pieces: seq<Piece>)
    returns (content': string, last': int, ghost pieces': seq<Piece>)
    requires !kind.Raises?
    requires content == head + RenderAll(pieces)
    ensures Step(Progress(pieces, last), kind, male, female) == Ok(Progress(pieces', last'))
    ensures content' == head + RenderAll(pieces')
  {
    StepShape(Progress(pieces, last), kind, male, female);
    content', last', pieces' := content, last, pieces;
    if kind.Spoken? {
      var delay: nat := if kind.seconds - last > 0 then kind.seconds - last else 0;
      last' := kind.seconds;
      if delay > 0 {
        RenderAllAppend(head, pieces', Break(delay));
        content' := content' + Render(Break(delay));
        pieces' := pieces' + [Break(delay)];
      }
      var voice := if kind.speaker == Text(PrimarySpeaker) then male else female;
      RenderAllAppend(head, pieces', Utterance(voice, kind.text));
      content' := content' + Render(Utterance(voice, kind.text));
      pieces' := pieces' + [Utterance(voice, kind.text)];
    }
  }

  /** `generate_ssml(df, lang_column, male_voice, female_voice, xml_lang)` up to the upload
      of the document: appends to the document row by row, keeping `last_timestamp`. */
  method GenerateSsml(t: Table, column: string, male: string, female: string, lang: string)
    returns (r: Result<string, SsmlError>)
    ensures r == BuildSsml(t, column, male, female, lang)
  {
    if column !in t.columns {
      return Err(ColumnNotFound(column));
    }
    var content := Header(lang);
    var last := 0;
    ghost var pieces: seq<Piece> := [];
    var i := 0;
    while i < |t.rows|
      invariant 0 <= i <= |t.rows|
      invariant content == Header(lang) + RenderAll(pieces)
      invariant Emit(Progress(pieces, last), Classified(t.rows[i..], column), male, female)
             == Emit(Start, Classified(t.rows, column), male, female)
    {
      ghost var before := Progress(pieces, last);
      ghost var rest := Classified(t.rows[i..], column);
      assert t.rows[i..][1..] == t.rows[i + 1..];
      var kind := ReadRow(t.rows[i], column);
      assert rest == [kind] + Classified(t.rows[i + 1..], column);
      if kind.Raises? {
        return Err(RowFailed(kind.fault));
      }
      content, last, pieces := EmitRow(content, last, kind, male, female, Header(lang), pieces);
      i := i + 1;
    }
    content := content + Footer;
    return Ok(content);
  }

  // ---------------------------------------------------------------------------
  // What the document is made of
  // ---------------------------------------------------------------------------

  /** The spoken rows, in row order. */
  function SpokenRows(kinds: seq<RowKind>): (r: seq<RowKind>)
    ensures forall k :: 0 <= k < |r| ==> r[k].Spoken?
  {
    if kinds == [] then []
    else (if kinds[0].Spoken? then [kinds[0]] else []) + SpokenRows(kinds[1..])
  }

  /** The `<voice>` elements the spoken rows call for: male voice for `spk_0`, female
      voice otherwise, each with the row's cleaned text. */
  function Voiced(spoken: seq<RowKind>, male: string, female: string): (r: seq<Piece>)
    requires forall k :: 0 <= k < |spoken| ==> spoken[k].Spoken?
    ensures |r| == |spoken|
    ensures forall k :: 0 <= k < |spoken| ==>
      r[k] == Utterance(if spoken[k].speaker == Text(PrimarySpeaker) then male else female, spoken[k].text)
  {
    if spoken == [] then []
    else [Utterance(VoiceFor(spoken[0].speaker, male, female), spoken[0].text)] + Voiced(spoken[1..], male, female)
  }

  /** The `<voice>` pieces, in order. */
  function Utterances(ps: seq<Piece>): seq<Piece> {
    if ps == [] then []
    else (if ps[0].Utterance? then [ps[0]] else []) + Utterances(ps[1..])
  }

  lemma {:induction false} UtterancesAppend(a: seq<Piece>, b: seq<Piece>)
    ensures Utterances(a + b) == Utterances(a) + Utterances(b)
  {
    if a != [] {
      assert (a + b)[1..] == a[1..] + b;
      UtterancesAppend(a[1..], b);
    } else {
      assert a + b == b;
    }
  }

  /** Total silence asked for by the `<break>` pieces, in seconds. */
  function Silence(ps: seq<Piece>): nat {
    if ps == [] then 0
    else (if ps[0].Break? then ps[0].seconds else 0) + Silence(ps[1..])
  }

  lemma {:induction false} SilenceAppend(a: seq<Piece>, b: seq<Piece>)
    ensures Silence(a + b) == Silence(a) + Silence(b)
  {
    if a != [] {
      assert (a + b)[1..] == a[1..] + b;
      SilenceAppend(a[1..], b);
    } else {
      assert a + b == b;
    }
  }

  /** Every `<break>` lasts at least a second and is followed at once by a `<voice>`:
      the document is a run of (optional break, voice) pairs. */
  ghost predicate Paced(ps: seq<Piece>) {
    forall i :: 0 <= i < |ps| && ps[i].Break? ==> ps[i].seconds > 0 && i + 1 < |ps| && ps[i + 1].Utterance?
  }

  /** The time markers of the spoken rows, in seconds. */
  function SpokenSeconds(spoken: seq<RowKind>): (r: seq<int>)
    requires forall k :: 0 <= k < |spoken| ==> spoken[k].Spoken?
    ensures |r| == |spoken|
  {
    if spoken == [] then [] else [spoken[0].seconds] + SpokenSeconds(spoken[1..])
  }

  /** `times` never goes back, starting from `from`. */
  predicate NonDecreasingFrom(from: int, times: seq<int>)
    decreases |times|
  {
    times == [] || (from <= times[0] && NonDecreasingFrom(times[0], times[1..]))
  }

  /** The one-row step, spelled out: a spoken row appends its break (if any) and its
      voice; any other row that does not raise leaves the state as it was. */
  lemma StepShape(p: Progress, kind: RowKind, male: string, female: string)
    requires Step(p, kind, male, female).Ok?
    ensures var q := Step(p, kind, male, female).value;
      if kind.Spoken? then
        var u := Utterance(VoiceFor(kind.speaker, male, female), kind.text);
        q.last == kind.seconds
        && (if kind.seconds > p.last then q.pieces == p.pieces + [Break(kind.seconds - p.last)] + [u]
            else q.pieces == p.pieces + [u])
      else q == p
  {
  }

  /** The document laid out directly from the spoken rows, independently of the loop:
      each spoken row gets a `<break>` of the seconds since the previous spoken row's
      marker (`prev` for the first) when its marker is later, then its `<voice>`. */
  function Layout(spoken: seq<RowKind>, prev: int, male: string, female: string): seq<Piece>
    requires forall k :: 0 <= k < |spoken| ==> spoken[k].Spoken?
  {
    if spoken == [] then []
    else
      var s := spoken[0].seconds;
      (if s > prev then [Break(s - prev)] else [])
      + [Utterance(VoiceFor(spoken[0].speaker, male, female), spoken[0].text)]
      + Layout(spoken[1..], s, male, female)
  }

  /** The loop appends exactly the layout of its spoken rows, starting from its
      `last_timestamp`: every break sits right before the voice of the row it precedes
      and lasts the time since the previous spoken row. */
  lemma {:induction false} EmitLayout(p: Progress, kinds: seq<RowKind>, male: string, female: string)
    requires Emit(p, kinds, male, female).Ok?
    ensures Emit(p, kinds, male, female).value.pieces == p.pieces + Layout(SpokenRows(kinds), p.last, male, female)
    decreases |kinds|
  {
    if kinds == [] {
      assert p.pieces + [] == p.pieces;
    } else {
      var q1 := Step(p, kinds[0], male, female).value;
      StepShape(p, kinds[0], male, female);
      EmitLayout(q1, kinds[1..], male, female);
      var rest := Layout(SpokenRows(kinds[1..]), q1.last, male, female);
      if kinds[0].Spoken? {
        var u := Utterance(VoiceFor(kinds[0].speaker, male, female), kinds[0].text);
        var gap := if kinds[0].seconds > p.last then [Break(kinds[0].seconds - p.last)] else [];
        assert q1.pieces == p.pieces + gap + [u];
        assert SpokenRows(kinds) == [kinds[0]] + SpokenRows(kinds[1..]);
        assert Layout(SpokenRows(kinds), p.last, male, female) == gap + [u] + rest;
        assert p.pieces + gap + [u] + rest == p.pieces + (gap + [u] + rest);
      } else {
        assert SpokenRows(kinds) == SpokenRows(kinds[1..]);
      }
    }
  }

  /** The loop emits, after what it had, one `<voice>` per spoken row in row order, with
      the voice chosen by speaker. */
  lemma {:induction false} EmitUtterances(p: Progress, kinds: seq<RowKind>, male: string, female: string)
    requires Emit(p, kinds, male, female).Ok?
    ensures var q := Emit(p, kinds, male, female).value;
      Utterances(q.pieces) == Utterances(p.pieces) + Voiced(SpokenRows(kinds), male, female)
    decreases |kinds|
  {
    if kinds != [] {
      var q1 := Step(p, kinds[0], male, female).value;
      EmitUtterances(q1, kinds[1..], male, female);
      StepShape(p, kinds[0], male, female);
      if kinds[0].Spoken? {
        var u := Utterance(VoiceFor(kinds[0].speaker, male, female), kinds[0].text);
        var gap := if kinds[0].seconds > p.last then [Break(kinds[0].seconds - p.last)] else [];
        assert q1.pieces == p.pieces + gap + [u];
        UtterancesAppend(p.pieces + gap, [u]);
        UtterancesAppend(p.pieces, gap);
        assert Utterances(gap) == [];
        assert Utterances([u]) == [u];
        assert SpokenRows(kinds) == [kinds[0]] + SpokenRows(kinds[1..]);
      } else {
        assert SpokenRows(kinds) == SpokenRows(kinds[1..]);
      }
    }
  }

  /** The loop keeps the document paced: breaks are positive and each precedes a voice. */
  lemma {:induction false} EmitPaced(p: Progress, kinds: seq<RowKind>, male: string, female: string)
    requires Paced(p.pieces)
    requires Emit(p, kinds, male, female).Ok?
    ensures Paced(Emit(p, kinds, male, female).value.pieces)
    decreases |kinds|
  {
    if kinds != [] {
      var q1 := Step(p, kinds[0], male, female).value;
      StepShape(p, kinds[0], male, female);
      if kinds[0].Spoken? {
        var ps, n := q1.pieces, |p.pieces|;
        assert ps[..n] == p.pieces;
        forall i | 0 <= i < |ps| && ps[i].Break?
          ensures ps[i].seconds > 0 && i + 1 < |ps| && ps[i + 1].Utterance?
        {
          if i < n {
            assert p.pieces[i] == ps[i];
          }
        }
      }
      EmitPaced(q1, kinds[1..], male, female);
    }
  }

  /** Timing: the loop ends with `last_timestamp` at the marker of the last spoken row
      (skipped rows do not move it); the breaks add up to at least the distance covered,
      and exactly to it when the markers never go back. */
  lemma {:induction false} EmitTiming(p: Progress, kinds: seq<RowKind>, male: string, female: string)
    requires Emit(p, kinds, male, female).Ok?
    ensures var q, times := Emit(p, kinds, male, female).value, SpokenSeconds(SpokenRows(kinds));
      && q.last == (if times == [] then p.last else times[|times| - 1])
      && Silence(q.pieces) - Silence(p.pieces) >= q.last - p.last
      && (NonDecreasingFrom(p.last, times) ==> Silence(q.pieces) - Silence(p.pieces) == q.last - p.last)
    decreases |kinds|
  {
    if kinds != [] {
      var q1 := Step(p, kinds[0], male, female).value;
      StepShape(p, kinds[0], male, female);
      EmitTiming(q1, kinds[1..], male, female);
      if kinds[0].Spoken? {
        var u := Utterance(VoiceFor(kinds[0].speaker, male, female), kinds[0].text);
        var gap := if kinds[0].seconds > p.last then [Break(kinds[0].seconds - p.last)] else [];
        assert q1.pieces == p.pieces + gap + [u];
        SilenceAppend(p.pieces + gap, [u]);
        SilenceAppend(p.pieces, gap);
        assert Silence([u]) == 0;
        var spoken := SpokenRows(kinds);
        assert spoken == [kinds[0]] + SpokenRows(kinds[1..]);
        assert SpokenSeconds(spoken) == [kinds[0].seconds] + SpokenSeconds(SpokenRows(kinds[1..]));
      } else {
        assert SpokenRows(kinds) == SpokenRows(kinds[1..]);
      }
    }
  }

  /** What the loop emits from its initial state: the layout of the spoken rows from
      marker 0, a paced run of breaks and voices with exactly one `<voice>` per spoken
      row in row order (male for `spk_0`, female otherwise); its breaks add up to at
      least the last spoken row's marker, and exactly to it when the markers are
      non-negative and never go back. */
  lemma EmitFromStart(kinds: seq<RowKind>, male: string, female: string)
    requires Emit(Start, kinds, male, female).Ok?
    ensures var ps, spoken := Emit(Start, kinds, male, female).value.pieces, SpokenRows(kinds);
      var times := SpokenSeconds(spoken);
      var last := if times == [] then 0 else times[|times| - 1];
      && ps == Layout(spoken, 0, male, female)
      && Paced(ps)
      && Utterances(ps) == Voiced(spoken, male, female)
      && Silence(ps) >= last
      && (NonDecreasingFrom(0, times) ==> Silence(ps) == last)
  {
    EmitUtterances(Start, kinds, male, female);
    EmitPaced(Start, kinds, male, female);
    EmitTiming(Start, kinds, male, female);
    EmitLayout(Start, kinds, male, female);
    assert Utterances(Start.pieces) == [] && Silence(Start.pieces) == 0;
  }

  /** The loop finishes exactly when no row raises: every row was spoken or skipped. */
  lemma {:induction false} EmitNoFault(p: Progress, kinds: seq<RowKind>, male: string, female: string)
    ensures Emit(p, kinds, male, female).Ok? <==> forall i :: 0 <= i < |kinds| ==> !kinds[i].Raises?
    decreases |kinds|
  {
    if kinds != [] {
      var next := Step(p, kinds[0], male, female);
      if next.Ok? {
        EmitNoFault(next.value, kinds[1..], male, female);
        assert forall i :: 1 <= i < |kinds| ==> kinds[i] == kinds[1..][i - 1];
      }
    }
  }

  /** The loop stops at the first row that raises, with that row's fault: the rows before
      it are processed and nothing after it is read. */
  lemma {:induction false} EmitFailsAtFirstFault(p: Progress, kinds: seq<RowKind>, male: string, female: string, i: int)
    requires 0 <= i < |kinds| && kinds[i].Raises?
    requires forall j :: 0 <= j < i ==> !kinds[j].Raises?
    ensures Emit(p, kinds, male, female) == Err(kinds[i].fault)
    decreases |kinds|
  {
    if i > 0 {
      var next := Step(p, kinds[0], male, female);
      assert next.Ok?;
      assert forall j :: 0 <= j < i - 1 ==> kinds[1..][j] == kinds[j + 1];
      EmitFailsAtFirstFault(next.value, kinds[1..], male, female, i - 1);
    }
  }

  /** A document `generate_ssml` builds is the `<speak>` start tag with the language, the
      rendered pieces the loop emitted from its initial state, and `</speak>`; no row
      raised on the way. */
  lemma BuildSsmlDocument(t: Table, column: string, male: string, female: string, lang: string)
    requires BuildSsml(t, column, male, female, lang).Ok?
    ensures var kinds := Classified(t.rows, column);
      && Emit(Start, kinds, male, female).Ok?
      && BuildSsml(t, column, male, female, lang).value
         == Header(lang) + RenderAll(Emit(Start, kinds, male, female).value.pieces) + Footer
      && forall i :: 0 <= i < |kinds| ==> !kinds[i].Raises?
  {
    var kinds := Classified(t.rows, column);
    EmitNoFault(Start, kinds, male, female);
    assert BuildSsml(t, column, male, female, lang) == Ok(Document(lang, Emit(Start, kinds, male, female).value.pieces));
  }

  /** A row counts as spoken exactly when its text cell holds text that is not empty once
      cleaned and its time marker is not missing; rows with empty cleaned text are skipped. */
  lemma ClassifySpoken(row: Row, column: string)
    ensures Classify(row, column).Spoken? <==>
      Get(row, column, "").Text? && CleanText(Get(row, column, "").text) != []
      && Get(row, TimeColumn, DefaultMarker).Text?
    ensures Classify(row, column) == Silent <==>
      Get(row, column, "").Text? && CleanText(Get(row, column, "").text) == []
  {
  }

  /** `generate_ssml` raises its `ValueError` exactly when the column is not in the table. */
  lemma BuildSsmlColumnCheck(t: Table, column: string, male: string, female: string, lang: string)
    ensures BuildSsml(t, column, male, female, lang) == Err(ColumnNotFound(column)) <==> column !in t.columns
  {
  }

  /** The loop on the two rows of the documented example, once read: the male voice
      saying "Hi", a five-second break, then the female voice saying "Bye". */
  lemma EmitExample(kinds: seq<RowKind>, male: string, female: string)
    requires kinds == [Spoken(Text("spk_0"), "Hi", 0), Spoken(Text("spk_1"), "Bye", 5)]
    ensures Emit(Start, kinds, male, female)
         == Ok(Progress([Utterance(male, "Hi"), Break(5), Utterance(female, "Bye")], 5))
  {
    var first := Progress([Utterance(male, "Hi")], 0);
    assert kinds[0].speaker == Text(PrimarySpeaker);
    StepShape(Start, kinds[0], male, female);
    assert [] + [Utterance(male, "Hi")] == first.pieces;
    assert Step(Start, kinds[0], male, female) == Ok(first);
    assert kinds[1].speaker != Text(PrimarySpeaker) by {
      assert kinds[1].speaker.text[4] != PrimarySpeaker[4];
    }
    StepShape(first, kinds[1], male, female);
    assert first.pieces + [Break(5)] + [Utterance(female, "Bye")]
        == [Utterance(male, "Hi"), Break(5), Utterance(female, "Bye")];
    assert Step(first, kinds[1], male, female)
        == Ok(Progress([Utterance(male, "Hi"), Break(5), Utterance(female, "Bye")], 5));
    var done := Progress([Utterance(male, "Hi"), Break(5), Utterance(female, "Bye")], 5);
    assert kinds[1..][1..] == [];
    assert Emit(done, kinds[1..][1..], male, female) == Ok(done);
    assert Emit(first, kinds[1..], male, female) == Ok(done);
  }

  /** A row whose text cell is missing makes `generate_ssml` raise, provided the column
      exists and no earlier row raised. */
  lemma BuildSsmlMissingText(t: Table, column: string, male: string, female: string, lang: string, i: int)
    requires column in t.columns && 0 <= i < |t.rows|
    requires Get(t.rows[i], column, "") == Missing
    requires forall j :: 0 <= j < i ==> !Classify(t.rows[j], column).Raises?
    ensures BuildSsml(t, column, male, female, lang) == Err(RowFailed(TextNotString))
  {
    var kinds := Classified(t.rows, column);
    EmitFailsAtFirstFault(Start, kinds, male, female, i);
  }

  /** The documented example, from the table to the text: rows `(spk_0, "0:00", "Hi")` and
      `(spk_1, "0:05", "Bye")` give the `<speak>` start tag, the male voice saying "Hi",
      a five-second `<break>`, the female voice saying "Bye", and `</speak>`. */
  lemma BuildExample(t: Table, column: string, male: string, female: string, lang: string)
    requires column == "EN--Transcription"
    requires t == Table([SpeakerColumn, TimeColumn, column],
      [map[SpeakerColumn := Text("spk_0"), TimeColumn := Text("0:00"), column := Text("Hi")],
       map[SpeakerColumn := Text("spk_1"), TimeColumn := Text("0:05"), column := Text("Bye")]])
    ensures BuildSsml(t, column, male, female, lang) == Ok(Header(lang)
      + ("<voice name='" + male + "'>" + "Hi" + "</voice>\n" + "<break time='5s' />\n"
         + "<voice name='" + female + "'>" + "Bye" + "</voice>\n")
      + "</speak>")
  {
    ExampleRow(t.rows[0], column, "spk_0", "0:00", "Hi", "00", 0);
    ExampleRow(t.rows[1], column, "spk_1", "0:05", "Bye", "05", 5);
    ExampleBuilt(t, column, male, female, lang);
  }

  /** A table whose two rows read as the example's gives the example's document. */
  lemma ExampleBuilt(t: Table, column: string, male: string, female: string, lang: string)
    requires column in t.columns && |t.rows| == 2
    requires Classify(t.rows[0], column) == Spoken(Text("spk_0"), "Hi", 0)
    requires Classify(t.rows[1], column) == Spoken(Text("spk_1"), "Bye", 5)
    ensures BuildSsml(t, column, male, female, lang) == Ok(Header(lang)
      + ("<voice name='" + male + "'>" + "Hi" + "</voice>\n" + "<break time='5s' />\n"
         + "<voice name='" + female + "'>" + "Bye" + "</voice>\n")
      + "</speak>")
  {
    var k0, k1 := Spoken(Text("spk_0"), "Hi", 0), Spoken(Text("spk_1"), "Bye", 5);
    ExampleRead(t.rows, column, k0, k1);
    EmitExample(Classified(t.rows, column), male, female);
    ExampleRendered(male, female);
  }

  /** Two rows read as `k0` and `k1`, in that order. */
  lemma ExampleRead(rows: seq<Row>, column: string, k0: RowKind, k1: RowKind)
    requires |rows| == 2 && Classify(rows[0], column) == k0 && Classify(rows[1], column) == k1
    ensures Classified(rows, column) == [k0, k1]
  {
  }

  /** The cells of one row of the example. */
  lemma ExampleCells(row: Row, column: string, speaker: string, marker: string, text: string)
    requires column == "EN--Transcription"
    requires row == map[SpeakerColumn := Text(speaker), TimeColumn := Text(marker), column := Text(text)]
    ensures Get(row, column, "") == Text(text) && Get(row, TimeColumn, DefaultMarker) == Text(marker)
    ensures Get(row, SpeakerColumn, PrimarySpeaker) == Text(speaker)
  {
    assert |SpeakerColumn| != |TimeColumn| && |SpeakerColumn| != |column| && |TimeColumn| != |column|;
  }

  /** The example's pieces, rendered. */
  lemma ExampleRendered(male: string, female: string)
    ensures RenderAll([Utterance(male, "Hi"), Break(5), Utterance(female, "Bye")])
      == "<voice name='" + male + "'>" + "Hi" + "</voice>\n" + "<break time='5s' />\n"
       + "<voice name='" + female + "'>" + "Bye" + "</voice>\n"
  {
    var u0, b, u1 := Utterance(male, "Hi"), Break(5), Utterance(female, "Bye");
    calc {
      RenderAll([u0, b, u1]);
      { assert [u0, b, u1][..2] == [u0, b]; }
      RenderAll([u0, b]) + Render(u1);
      { assert [u0, b][..1] == [u0]; }
      RenderAll([u0]) + Render(b) + Render(u1);
      { assert [u0][..0] == []; assert RenderAll([u0]) == "" + Render(u0); assert "" + Render(u0) == Render(u0); }
      Render(u0) + Render(b) + Render(u1);
      { BreakRendered(); }
      Render(u0) + "<break time='5s' />\n" + Render(u1);
    }
  }

  lemma BreakRendered()
    ensures Render(Break(5)) == "<break time='5s' />\n"
  {
    assert NatToString(5) == "5";
  }

  /** One row of the example: its text has no placeholder and its marker is `0:` and two
      digits, so it is read as spoken at the value of those digits. */
  lemma ExampleRow(row: Row, column: string, speaker: string, marker: string, text: string, secs: string, value: nat)
    requires column == "EN--Transcription"
    requires row == map[SpeakerColumn := Text(speaker), TimeColumn := Text(marker), column := Text(text)]
    requires text != [] && '[' !in text
    requires |secs| == 2 && IsDigit(secs[0]) && IsDigit(secs[1])
    requires marker == "0:" + secs && value == 10 * DigitValue(secs[0]) + DigitValue(secs[1])
    ensures Classify(row, column) == Spoken(Text(speaker), text, value)
  {
    ExampleCells(row, column, speaker, marker, text);
    CleanTextWithoutBracket(text);
    ExampleMarker(marker, secs, value);
  }

  /** A marker `0:` followed by two digits reads as the two digits' value. */
  lemma ExampleMarker(marker: string, secs: string, value: nat)
    requires |secs| == 2 && IsDigit(secs[0]) && IsDigit(secs[1])
    requires marker == "0:" + secs && value == 10 * DigitValue(secs[0]) + DigitValue(secs[1])
    ensures TimestampSeconds(marker) == value
  {
    TwoDigits(secs);
    assert Grouped("0") && DigitsValue("0") == 0 by { assert "0"[..0] == []; }
    TimestampOfDigits("0", secs);
    assert "0" + ":" + secs == marker;
  }

  /** Two digits are grouped and denote ten times the first plus the second. */
  lemma TwoDigits(secs: string)
    requires |secs| == 2 && IsDigit(secs[0]) && IsDigit(secs[1])
    ensures Grouped(secs) && DigitsValue(secs) == 10 * DigitValue(secs[0]) + DigitValue(secs[1])
  {
    var first := secs[..1];
    assert first[..0] == [] && first[0] == secs[0];
    assert DigitsValue(first) == DigitValue(secs[0]);
  }
}
