/** The uploaded transcript table as the service sees it after parsing, and the search
    for the transcription column of the requested locale. */
module Tables {
  import opened Wrappers
  import opened Strings

  /** A table cell: text, or missing (pandas' NaN for an empty CSV field). */
  datatype Cell = Text(text: string) | Missing

  /** A row maps column names to cells; in a parsed table every row has every column. */
  type Row = map<string, Cell>

  datatype Table = Table(columns: seq<string>, rows: seq<Row>)

  /** The suffix that marks a transcription column, as in `FR--Transcription`. */
  const TranscriptionSuffix := "--Transcription"

  /** pandas' `df.empty`: no rows or no columns. */
  predicate IsEmpty(t: Table) {
    t.rows == [] || t.columns == []
  }

  /** pandas' `row.get(column, default)`: the cell when the row has the column, else the
      default as text. */
  function Get(row: Row, column: string, default: string): Cell {
    if column in row then row[column] else Text(default)
  }

  /** `not df[column].dropna().empty`: some row holds text in the column. A cell whose
      text is empty or cleans to nothing still counts. */
  predicate HasText(t: Table, column: string) {
    exists i :: 0 <= i < |t.rows| && column in t.rows[i] && t.rows[i][column].Text?
  }

  /** The test of `find_transcription_column`: the locale code occurs in the column name
      and the name ends with `--Transcription`. */
  predicate IsTranscriptionColumnFor(column: string, code: string) {
    Contains(column, code) && EndsWith(column, TranscriptionSuffix)
  }

  /** The first qualifying column in column order, `None` when no column qualifies. */
  function FirstTranscriptionColumn(columns: seq<string>, code: string): (r: Option<string>)
    ensures r.None? <==> forall i :: 0 <= i < |columns| ==> !IsTranscriptionColumnFor(columns[i], code)
    ensures r.Some? ==> exists i :: (0 <= i < |columns| && columns[i] == r.value
      && IsTranscriptionColumnFor(columns[i], code)
      && forall j :: 0 <= j < i ==> !IsTranscriptionColumnFor(columns[j], code))
  {
    if columns == [] then None
    else if IsTranscriptionColumnFor(columns[0], code) then Some(columns[0])
    else
      var r := FirstTranscriptionColumn(columns[1..], code);
      assert forall i :: 1 <= i < |columns| ==> columns[i] == columns[1..][i - 1];
      if r.Some? then
        var i :| 0 <= i < |columns[1..]| && columns[1..][i] == r.value
          && IsTranscriptionColumnFor(columns[1..][i], code)
          && forall j :: 0 <= j < i ==> !IsTranscriptionColumnFor(columns[1..][j], code);
        assert columns[i + 1] == r.value;
        r
      else r
  }

  /** `find_transcription_column(df, locale_code)`: scan the columns in order and return
      the first one that qualifies. */
  method FindTranscriptionColumn(columns: seq<string>, code: string) returns (r: Option<string>)
    ensures r == FirstTranscriptionColumn(columns, code)
  {
    var i := 0;
    while i < |columns|
      invariant 0 <= i <= |columns|
      invariant FirstTranscriptionColumn(columns[i..], code) == FirstTranscriptionColumn(columns, code)
    {
      if IsTranscriptionColumnFor(columns[i], code) {
        return Some(columns[i]);
      }
      assert columns[i..][1..] == columns[i + 1..];
      i := i + 1;
    }
    return None;
  }

  /** The documented example: among `Speaker`, `Time Markers`, `EN--Transcription` and
      `FR--Transcription`, code `FR` finds `FR--Transcription`. */
  lemma FirstTranscriptionColumnExample(speaker: string, time: string, en: string, fr: string)
    requires speaker == "Speaker" && time == "Time Markers"
    requires en == "EN--Transcription" && fr == "FR--Transcription"
    ensures FirstTranscriptionColumn([speaker, time, en, fr], "FR") == Some(fr)
  {
    assert !EndsWith(speaker, TranscriptionSuffix) && !EndsWith(time, TranscriptionSuffix);
    assert 'F' !in en;
    NotContainsMissingChar(en, "FR");
    assert "FR" <= fr;
    assert FirstTranscriptionColumn([fr], "FR") == Some(fr);
    assert [en, fr][1..] == [fr];
    assert FirstTranscriptionColumn([en, fr], "FR") == Some(fr);
    assert [time, en, fr][1..] == [en, fr];
    assert FirstTranscriptionColumn([time, en, fr], "FR") == Some(fr);
    assert [speaker, time, en, fr][1..] == [time, en, fr];
  }

  /** The same columns have no transcription column for code `DE`. */
  lemma NoTranscriptionColumnExample(speaker: string, time: string, en: string, fr: string)
    requires speaker == "Speaker" && time == "Time Markers"
    requires en == "EN--Transcription" && fr == "FR--Transcription"
    ensures FirstTranscriptionColumn([speaker, time, en, fr], "DE") == None
  {
    assert 'D' !in speaker && 'D' !in time && 'D' !in en && 'D' !in fr;
    NotContainsMissingChar(fr, "DE");
    assert FirstTranscriptionColumn([fr], "DE") == None;
    NotContainsMissingChar(en, "DE");
    assert [en, fr][1..] == [fr];
    assert FirstTranscriptionColumn([en, fr], "DE") == None;
    NotContainsMissingChar(time, "DE");
    assert [time, en, fr][1..] == [en, fr];
    assert FirstTranscriptionColumn([time, en, fr], "DE") == None;
    NotContainsMissingChar(speaker, "DE");
    assert [speaker, time, en, fr][1..] == [time, en, fr];
  }

  /** A text lacking the first character of `sub` does not contain `sub`. */
  lemma {:induction false} NotContainsMissingChar(s: string, sub: string)
    requires sub != [] && sub[0] !in s
    ensures !Contains(s, sub)
  {
    if s != [] {
      NotContainsMissingChar(s[1..], sub);
    }
  }
}
