/** The `/upload-csv/` endpoint: it cleans the requested locale, reads the uploaded
    table, stores the upload, fetches the voice catalog, picks the two voices and the
    transcription column, then builds, stores and synthesizes an English document and
    one in the requested language. Every failure becomes an `{"error": ...}` response;
    the first one met ends the request. The outside services (object storage, the
    voice list, speech synthesis) are given as the outcomes they return, and the model
    records the calls made to them in order. */
module Pipeline {
  import opened Wrappers
  import opened Cleaning
  import opened Voices
  import opened Tables
  import opened Ssml

  /** How reading the upload went: `contents.decode("utf-8")` and `pd.read_csv`. A
      parser error from pandas is a `ValueError` and carries its own message. */
  datatype ReadOutcome = Parsed(table: Table) | NotUtf8 | ParseFailed(reason: string)

  /** The kinds of exception the endpoint's handlers tell apart: `ValueError` and its
      subclasses (among them `JSONDecodeError` from `response.json()` and the `InvalidURL`
      and `MissingSchema` errors of `requests`), `IndexError`, and every other exception. */
  datatype ExceptionKind = ValueError | IndexError | OtherError

  /** A raised exception: its kind and `str(e)`. */
  datatype PyException = PyException(kind: ExceptionKind, message: string)

  /** What a call to an outside service gave: a value, or the exception it raised. */
  datatype Outcome<T> = Done(value: T) | Raised(exception: PyException)

  /** The outcomes of the outside calls of one request, in the order they are made:
      storing the upload, the voice catalog, then per language the upload of the
      document (its URL) and the synthesis of the uploaded document (the audio's URL). */
  datatype Services = Services(
    storeInput: Outcome<string>,
    voices: Outcome<seq<Voice>>,
    storeEnglishSsml: Outcome<string>,
    englishAudio: Outcome<string>,
    storeTargetSsml: Outcome<string>,
    targetAudio: Outcome<string>)

  /** An outside call, with what it is sent. */
  datatype Call = StoreInput | FetchVoices | StoreSsml(document: string) | Synthesize(ssmlUrl: string)

  /** Why a request failed. */
  datatype Failure =
    | BadEncoding
    | Unparsable(reason: string)
    | EmptyCsv
    | InvalidLocale
    | NoVoicePair(locale: string)
    | MissingColumn(code: string)
    | EmptyColumn(column: string)
    | SsmlFailed(error: SsmlError)
    | ServiceFailed(exception: PyException)

  datatype Response = Generated(englishAudioUrl: string, languageAudioUrl: string) | Failed(failure: Failure)

  /** The response together with the outside calls made to produce it. */
  datatype Exchange = Exchange(response: Response, calls: seq<Call>)

  /** The English pass always reads this column with these voices and this language. */
  const EnglishColumn := "EN--Transcription"
  const EnglishMale := "en-US-GuyNeural"
  const EnglishFemale := "en-US-JennyNeural"
  const EnglishLocale := "en-US"

  const SuccessMessage := "Audio files generated successfully"

  /** The message of the exception a row raises inside `generate_ssml`: `re.sub` on a
      float, and `.split` on a float. */
  function FaultText(f: Fault): string {
    match f
    case TextNotString => "expected string or bytes-like object, got 'float'"
    case MarkerNotString => "'float' object has no attribute 'split'"
  }

  /** The fixed text of the `IndexError` handler. */
  const MissingDataText := "The CSV file might be missing some data. Please check the file content."

  /** The text the three exception handlers make of an exception: a `ValueError` is
      returned as its message, an `IndexError` as a fixed text, any other exception as
      `Error processing file. ` and its message. */
  function HandlerText(e: PyException): string {
    match e.kind
    case ValueError => e.message
    case IndexError => MissingDataText
    case OtherError => "Error processing file. " + e.message
  }

  /** The `"error"` text of the response. The checks return their own texts; a pandas
      parser error and the column error of `generate_ssml` are `ValueError`s; a row that
      raises inside `generate_ssml` raises a `TypeError` or an `AttributeError`. */
  function ErrorText(f: Failure): string {
    match f
    case BadEncoding => "File encoding is not supported. Please ensure the file is UTF-8 encoded."
    case Unparsable(reason) => reason
    case EmptyCsv => "The uploaded CSV is empty."
    case InvalidLocale => "Invalid locale specified or locale not supported."
    case NoVoicePair(locale) => "Male or female voice not found for " + locale + "."
    case MissingColumn(code) =>
      "CSV must contain a column with '" + code + TranscriptionSuffix + "' for the specified language."
    case EmptyColumn(column) => "The transcription column '" + column + "' is empty."
    case SsmlFailed(ColumnNotFound(column)) =>
      HandlerText(PyException(ValueError, "Column '" + column + "' not found in the CSV file."))
    case SsmlFailed(RowFailed(fault)) => HandlerText(PyException(OtherError, FaultText(fault)))
    case ServiceFailed(e) => HandlerText(e)
  }

  /** The JSON body of the response: the success message and the two audio URLs, or
      the single `"error"` entry. */
  function Reply(r: Response): (body: map<string, string>)
    ensures "error" in body <==> r.Failed?
    ensures r.Failed? ==> body == map["error" := ErrorText(r.failure)]
    ensures r.Generated? ==> (body.Keys == {"message", "english_audio_url", "language_audio_url"}
      && body["message"] == SuccessMessage
      && body["english_audio_url"] == r.englishAudioUrl && body["language_audio_url"] == r.languageAudioUrl)
  {
    match r
    case Failed(f) => map["error" := ErrorText(f)]
    case Generated(english, language) =>
      map["message" := SuccessMessage, "english_audio_url" := english, "language_audio_url" := language]
  }

  /** One language's pass, `generate_ssml` then `convert_ssml_to_audio`: the outcome (the
      audio's URL or the failure) and the outside calls made. */
  datatype Pass = Pass(result: Result<string, Failure>, calls: seq<Call>)

  function Narration(t: Table, column: string, male: string, female: string, lang: string,
                     stored: Outcome<string>, audio: Outcome<string>): Pass
  {
    match BuildSsml(t, column, male, female, lang)
    case Err(e) => Pass(Err(SsmlFailed(e)), [])
    case Ok(document) =>
      match stored
      case Raised(e) => Pass(Err(ServiceFailed(e)), [StoreSsml(document)])
      case Done(url) =>
        match audio
        case Raised(e) => Pass(Err(ServiceFailed(e)), [StoreSsml(document), Synthesize(url)])
        case Done(audioUrl) => Pass(Ok(audioUrl), [StoreSsml(document), Synthesize(url)])
  }

  /** The calls made once the upload is stored and the catalog fetched. */
  const Setup := [StoreInput, FetchVoices]

  /** The endpoint after the catalog has arrived: voices, column, column contents, then
      the English pass and the pass in the requested language. */
  function Validated(t: Table, locale: string, catalog: seq<Voice>, env: Services): Exchange {
    match SelectVoices(catalog, locale)
    case Err(UnsupportedLocale) => Exchange(Failed(InvalidLocale), Setup)
    case Err(IncompleteVoiceCoverage) => Exchange(Failed(NoVoicePair(locale)), Setup)
    case Ok(pair) =>
      var code := LocaleCode(locale);
      match FirstTranscriptionColumn(t.columns, code)
      case None => Exchange(Failed(MissingColumn(code)), Setup)
      case Some(column) =>
        if !HasText(t, column) then Exchange(Failed(EmptyColumn(column)), Setup)
        else BothPasses(t, column, pair, locale, env)
  }

  /** The English pass, then, if it succeeded, the pass in the requested language. */
  function BothPasses(t: Table, column: string, pair: VoicePair, locale: string, env: Services): Exchange {
    var en := Narration(t, EnglishColumn, EnglishMale, EnglishFemale, EnglishLocale,
                        env.storeEnglishSsml, env.englishAudio);
    if en.result.Err? then Exchange(Failed(en.result.error), Setup + en.calls)
    else
      var target := Narration(t, column, pair.male, pair.female, locale, env.storeTargetSsml, env.targetAudio);
      var calls := Setup + en.calls + target.calls;
      if target.result.Err? then Exchange(Failed(target.result.error), calls)
      else Exchange(Generated(en.result.value, target.result.value), calls)
  }

  /** What `upload_csv(file, source)` answers, and the outside calls it makes. */
  function Handle(read: ReadOutcome, source: string, env: Services): Exchange {
    match read
    case NotUtf8 => Exchange(Failed(BadEncoding), [])
    case ParseFailed(reason) => Exchange(Failed(Unparsable(reason)), [])
    case Parsed(t) =>
      if IsEmpty(t) then Exchange(Failed(EmptyCsv), [])
      else if env.storeInput.Raised? then Exchange(Failed(ServiceFailed(env.storeInput.exception)), [StoreInput])
      else if env.voices.Raised? then Exchange(Failed(ServiceFailed(env.voices.exception)), Setup)
      else Validated(t, CleanSource(source), env.voices.value, env)
  }

  // ---------------------------------------------------------------------------
  // What the endpoint promises
  // ---------------------------------------------------------------------------

  /** The upload was read into a non-empty table, stored, and the catalog arrived. */
  predicate Ready(read: ReadOutcome, env: Services) {
    read.Parsed? && !IsEmpty(read.table) && env.storeInput.Done? && env.voices.Done?
  }

  /** Which outside service a call goes to. */
  function Stage(c: Call): nat {
    match c
    case StoreInput => 0
    case FetchVoices => 1
    case StoreSsml(_) => 2
    case Synthesize(_) => 3
  }

  /** The calls of one pass: at most a store and then a synthesis of the URL the store
      returned. */
  predicate PassShape(calls: seq<Call>, stored: Outcome<string>) {
    && |calls| <= 2
    && (|calls| >= 1 ==> calls[0].StoreSsml?)
    && (|calls| == 2 ==> stored.Done? && calls[1] == Synthesize(stored.value))
  }

  /** The outside calls come in the order of the source: store the upload, fetch the
      catalog, then per language store the document and synthesize it; at most six
      calls, and each synthesis asks for the URL the store just before it returned. */
  predicate InOrder(calls: seq<Call>, env: Services) {
    && |calls| <= 6
    && (forall i :: 0 <= i < |calls| ==> Stage(calls[i]) == [0, 1, 2, 3, 2, 3][i])
    && (|calls| > 3 ==> env.storeEnglishSsml == Done(calls[3].ssmlUrl))
    && (|calls| > 5 ==> env.storeTargetSsml == Done(calls[5].ssmlUrl))
  }

  /** One pass stores the document it built and then asks for the audio of the stored
      URL, and calls nothing more; it stops at its first failure. */
  lemma NarrationCalls(t: Table, column: string, male: string, female: string, lang: string,
                       stored: Outcome<string>, audio: Outcome<string>)
    ensures var p := Narration(t, column, male, female, lang, stored, audio);
      && PassShape(p.calls, stored)
      && (p.calls != [] <==> BuildSsml(t, column, male, female, lang).Ok?)
      && (p.calls != [] ==> p.calls[0] == StoreSsml(BuildSsml(t, column, male, female, lang).value))
      && (p.result.Ok? <==> |p.calls| == 2 && audio.Done?)
      && (p.result.Ok? ==> p.result.value == audio.value)
      && (p.result.Err? ==> p.result.error.SsmlFailed? || p.result.error.ServiceFailed?)
  {
  }

  lemma {:induction false} SetupThenPasses(en: seq<Call>, target: seq<Call>, env: Services)
    requires PassShape(en, env.storeEnglishSsml) && PassShape(target, env.storeTargetSsml)
    requires target != [] ==> |en| == 2
    ensures InOrder(Setup + en + target, env)
  {
    var calls := Setup + en + target;
    forall i | 0 <= i < |calls|
      ensures Stage(calls[i]) == [0, 1, 2, 3, 2, 3][i]
    {
      if i >= 2 + |en| {
        assert calls[i] == target[i - 2 - |en|];
      } else if i >= 2 {
        assert calls[i] == en[i - 2];
      }
    }
    if |calls| > 3 {
      assert calls[3] == en[1];
    }
    if |calls| > 5 {
      assert calls[5] == target[1];
    }
  }

  lemma BothPassesInOrder(t: Table, column: string, pair: VoicePair, locale: string, env: Services)
    ensures InOrder(BothPasses(t, column, pair, locale, env).calls, env)
    ensures |BothPasses(t, column, pair, locale, env).calls| >= 2
    ensures BothPasses(t, column, pair, locale, env).calls[..2] == Setup
  {
    var en := Narration(t, EnglishColumn, EnglishMale, EnglishFemale, EnglishLocale,
                        env.storeEnglishSsml, env.englishAudio);
    var target := Narration(t, column, pair.male, pair.female, locale, env.storeTargetSsml, env.targetAudio);
    NarrationCalls(t, EnglishColumn, EnglishMale, EnglishFemale, EnglishLocale,
                   env.storeEnglishSsml, env.englishAudio);
    NarrationCalls(t, column, pair.male, pair.female, locale, env.storeTargetSsml, env.targetAudio);
    if en.result.Err? {
      SetupThenPasses(en.calls, [], env);
      assert Setup + en.calls + [] == Setup + en.calls;
    } else {
      SetupThenPasses(en.calls, target.calls, env);
    }
  }

  lemma ValidatedInOrder(t: Table, locale: string, catalog: seq<Voice>, env: Services)
    ensures InOrder(Validated(t, locale, catalog, env).calls, env)
    ensures |Validated(t, locale, catalog, env).calls| >= 2
    ensures Validated(t, locale, catalog, env).calls[..2] == Setup
  {
    SetupThenPasses([], [], env);
    assert Setup + [] + [] == Setup;
    match SelectVoices(catalog, locale)
    case Err(_) =>
    case Ok(pair) =>
      match FirstTranscriptionColumn(t.columns, LocaleCode(locale))
      case None =>
      case Some(column) =>
        if HasText(t, column) {
          BothPassesInOrder(t, column, pair, locale, env);
        }
  }

  /** Every request keeps the source's call order. */
  lemma HandleCallOrder(read: ReadOutcome, source: string, env: Services)
    ensures InOrder(Handle(read, source, env).calls, env)
  {
    if Ready(read, env) {
      ValidatedInOrder(read.table, CleanSource(source), env.voices.value, env);
    }
  }

  /** Nothing leaves the process before the upload has been read into a non-empty table. */
  lemma HandleChecksUploadFirst(read: ReadOutcome, source: string, env: Services)
    ensures Handle(read, source, env).calls == [] <==> !read.Parsed? || IsEmpty(read.table)
  {
    if read.Parsed? && !IsEmpty(read.table) {
      var calls := Handle(read, source, env).calls;
      if Ready(read, env) {
        ValidatedInOrder(read.table, CleanSource(source), env.voices.value, env);
        assert |calls| >= 2;
      } else {
        assert calls == [StoreInput] || calls == Setup;
      }
    }
  }

  /** After the checks on the locale and the table, the request ends in a pass: its
      failures are document or service failures, never a check's. */
  lemma BothPassesFailures(t: Table, column: string, pair: VoicePair, locale: string, env: Services)
    ensures var r := BothPasses(t, column, pair, locale, env).response;
      r.Failed? ==> r.failure.SsmlFailed? || r.failure.ServiceFailed?
  {
    NarrationCalls(t, EnglishColumn, EnglishMale, EnglishFemale, EnglishLocale,
                   env.storeEnglishSsml, env.englishAudio);
    NarrationCalls(t, column, pair.male, pair.female, locale, env.storeTargetSsml, env.targetAudio);
  }

  /** The requested locale is refused exactly when, the upload being stored and the
      catalog fetched, no catalog entry has the cleaned locale; nothing more is called. */
  lemma HandleInvalidLocale(read: ReadOutcome, source: string, env: Services)
    ensures Handle(read, source, env).response == Failed(InvalidLocale) <==>
      Ready(read, env)
      && forall i :: 0 <= i < |env.voices.value| ==> env.voices.value[i].locale != CleanSource(source)
    ensures Handle(read, source, env).response == Failed(InvalidLocale) ==> Handle(read, source, env).calls == Setup
  {
    HandleCases(read, source, env);
    if Ready(read, env) {
      var t, locale, catalog := read.table, CleanSource(source), env.voices.value;
      SelectVoicesUnsupported(catalog, locale);
      if SelectVoices(catalog, locale).Ok? {
        ValidatedPasses(t, locale, catalog, env);
      }
    }
  }

  /** The request fails for want of a voice exactly when the locale has catalog entries
      but no usable first male or first female voice; the message names the cleaned
      locale, and nothing more is called. */
  lemma HandleNoVoicePair(read: ReadOutcome, source: string, env: Services)
    ensures var r := Handle(read, source, env).response;
      r.Failed? && r.failure.NoVoicePair? <==>
      Ready(read, env) && SelectVoices(env.voices.value, CleanSource(source)) == Err(IncompleteVoiceCoverage)
    ensures var x := Handle(read, source, env);
      x.response.Failed? && x.response.failure.NoVoicePair? ==>
      x.response.failure.locale == CleanSource(source) && x.calls == Setup
  {
    HandleCases(read, source, env);
    if Ready(read, env) && SelectVoices(env.voices.value, CleanSource(source)).Ok? {
      ValidatedPasses(read.table, CleanSource(source), env.voices.value, env);
    }
  }

  /** The request fails for want of a transcription column exactly when the voices were
      found and no column qualifies for the locale code; the message names the code. */
  lemma HandleMissingColumn(read: ReadOutcome, source: string, env: Services)
    ensures var r, code := Handle(read, source, env).response, LocaleCode(CleanSource(source));
      r == Failed(MissingColumn(code)) <==>
      Ready(read, env) && SelectVoices(env.voices.value, CleanSource(source)).Ok?
      && forall i :: 0 <= i < |read.table.columns| ==> !IsTranscriptionColumnFor(read.table.columns[i], code)
    ensures var x := Handle(read, source, env);
      x.response.Failed? && x.response.failure.MissingColumn? ==>
      x.response.failure.code == LocaleCode(CleanSource(source)) && x.calls == Setup
  {
    HandleCases(read, source, env);
    if Ready(read, env) && SelectVoices(env.voices.value, CleanSource(source)).Ok? {
      ValidatedPasses(read.table, CleanSource(source), env.voices.value, env);
    }
  }

  /** The request fails on an empty transcription column exactly when the first
      qualifying column holds no text in any row (`dropna()` leaves nothing). */
  lemma HandleEmptyColumn(read: ReadOutcome, source: string, env: Services)
    ensures var r, code := Handle(read, source, env).response, LocaleCode(CleanSource(source));
      r.Failed? && r.failure.EmptyColumn? <==>
      Ready(read, env) && SelectVoices(env.voices.value, CleanSource(source)).Ok?
      && FirstTranscriptionColumn(read.table.columns, code).Some?
      && !HasText(read.table, FirstTranscriptionColumn(read.table.columns, code).value)
    ensures var x := Handle(read, source, env);
      x.response.Failed? && x.response.failure.EmptyColumn? ==>
      Some(x.response.failure.column) == FirstTranscriptionColumn(read.table.columns, LocaleCode(CleanSource(source)))
      && x.calls == Setup
  {
    HandleCases(read, source, env);
    if Ready(read, env) && SelectVoices(env.voices.value, CleanSource(source)).Ok? {
      ValidatedPasses(read.table, CleanSource(source), env.voices.value, env);
    }
  }

  /** The upload is refused as empty exactly when it parsed into a table with no rows or
      no columns; nothing is called. */
  lemma HandleEmptyCsv(read: ReadOutcome, source: string, env: Services)
    ensures Handle(read, source, env).response == Failed(EmptyCsv) <==> read.Parsed? && IsEmpty(read.table)
    ensures Handle(read, source, env).response == Failed(EmptyCsv) ==> Handle(read, source, env).calls == []
  {
    HandleCases(read, source, env);
    if Ready(read, env) {
      ValidatedFailures(read.table, CleanSource(source), env.voices.value, env);
    }
  }

  /** A service that raises before the catalog has arrived ends the request at once, and
      the handlers turn its exception into the answer by its kind. */
  lemma HandleStoreInputRaises(read: ReadOutcome, source: string, env: Services, e: PyException)
    requires read.Parsed? && !IsEmpty(read.table) && env.storeInput == Raised(e)
    ensures Handle(read, source, env) == Exchange(Failed(ServiceFailed(e)), [StoreInput])
    ensures e.kind == ValueError ==> Reply(Handle(read, source, env).response) == map["error" := e.message]
    ensures e.kind == IndexError ==> Reply(Handle(read, source, env).response) == map["error" := MissingDataText]
    ensures e.kind == OtherError ==>
      Reply(Handle(read, source, env).response) == map["error" := "Error processing file. " + e.message]
  {
  }

  /** Once the catalog has arrived, a failure is a check's or a pass's, never an upload's. */
  lemma ValidatedFailures(t: Table, locale: string, catalog: seq<Voice>, env: Services)
    ensures var r := Validated(t, locale, catalog, env).response;
      r.Failed? ==> !(r.failure.BadEncoding? || r.failure.Unparsable? || r.failure.EmptyCsv?)
  {
    if SelectVoices(catalog, locale).Ok? {
      ValidatedPasses(t, locale, catalog, env);
    }
  }

  /** Before the catalog has arrived a request can only fail on the upload or a service. */
  lemma HandleCases(read: ReadOutcome, source: string, env: Services)
    ensures var r := Handle(read, source, env).response;
      !Ready(read, env) ==> r.Failed? && (r.failure.BadEncoding? || r.failure.Unparsable? || r.failure.EmptyCsv? || r.failure.ServiceFailed?)
    ensures Ready(read, env) ==> Handle(read, source, env) == Validated(read.table, CleanSource(source), env.voices.value, env)
  {
    match read
    case NotUtf8 =>
    case ParseFailed(_) =>
    case Parsed(t) =>
  }

  lemma ValidatedPasses(t: Table, locale: string, catalog: seq<Voice>, env: Services)
    requires SelectVoices(catalog, locale).Ok?
    ensures var r, code := Validated(t, locale, catalog, env).response, LocaleCode(locale);
      match FirstTranscriptionColumn(t.columns, code)
      case None => r == Failed(MissingColumn(code))
      case Some(column) =>
        if HasText(t, column) then r == BothPasses(t, column, SelectVoices(catalog, locale).value, locale, env).response
          && (r.Failed? ==> r.failure.SsmlFailed? || r.failure.ServiceFailed?)
        else r == Failed(EmptyColumn(column))
  {
    var code := LocaleCode(locale);
    if FirstTranscriptionColumn(t.columns, code).Some? {
      BothPassesFailures(t, FirstTranscriptionColumn(t.columns, code).value, SelectVoices(catalog, locale).value, locale, env);
    }
  }

  /** Every check passes, both documents build and every later service answers. */
  ghost predicate Succeeds(t: Table, locale: string, catalog: seq<Voice>, env: Services) {
    && SelectVoices(catalog, locale).Ok?
    && FirstTranscriptionColumn(t.columns, LocaleCode(locale)).Some?
    && var pair, column := SelectVoices(catalog, locale).value, FirstTranscriptionColumn(t.columns, LocaleCode(locale)).value;
    && HasText(t, column)
    && BuildSsml(t, EnglishColumn, EnglishMale, EnglishFemale, EnglishLocale).Ok?
    && BuildSsml(t, column, pair.male, pair.female, locale).Ok?
    && env.storeEnglishSsml.Done? && env.englishAudio.Done?
    && env.storeTargetSsml.Done? && env.targetAudio.Done?
  }

  /** The six calls of a successful request: the two documents are the ones
      `generate_ssml` builds, and each synthesis asks for the URL of its document. */
  ghost function FullTrace(t: Table, locale: string, catalog: seq<Voice>, env: Services): seq<Call>
    requires Succeeds(t, locale, catalog, env)
  {
    var pair, column := SelectVoices(catalog, locale).value, FirstTranscriptionColumn(t.columns, LocaleCode(locale)).value;
    [StoreInput, FetchVoices,
     StoreSsml(BuildSsml(t, EnglishColumn, EnglishMale, EnglishFemale, EnglishLocale).value),
     Synthesize(env.storeEnglishSsml.value),
     StoreSsml(BuildSsml(t, column, pair.male, pair.female, locale).value),
     Synthesize(env.storeTargetSsml.value)]
  }

  /** The two passes succeed exactly when both documents build and every service
      answers; they then make the four calls of the source. */
  lemma BothPassesGenerated(t: Table, column: string, pair: VoicePair, locale: string, env: Services)
    ensures var x := BothPasses(t, column, pair, locale, env);
      var en, target := BuildSsml(t, EnglishColumn, EnglishMale, EnglishFemale, EnglishLocale),
                        BuildSsml(t, column, pair.male, pair.female, locale);
      && (x.response.Generated? <==>
           en.Ok? && target.Ok? && env.storeEnglishSsml.Done? && env.englishAudio.Done?
           && env.storeTargetSsml.Done? && env.targetAudio.Done?)
      && (x.response.Generated? ==>
           x.response == Generated(env.englishAudio.value, env.targetAudio.value)
           && x.calls == [StoreInput, FetchVoices, StoreSsml(en.value), Synthesize(env.storeEnglishSsml.value),
                          StoreSsml(target.value), Synthesize(env.storeTargetSsml.value)])
  {
    NarrationCalls(t, EnglishColumn, EnglishMale, EnglishFemale, EnglishLocale,
                   env.storeEnglishSsml, env.englishAudio);
    NarrationCalls(t, column, pair.male, pair.female, locale, env.storeTargetSsml, env.targetAudio);
    var en := Narration(t, EnglishColumn, EnglishMale, EnglishFemale, EnglishLocale,
                        env.storeEnglishSsml, env.englishAudio);
    var target := Narration(t, column, pair.male, pair.female, locale, env.storeTargetSsml, env.targetAudio);
    if en.result.Ok? && target.result.Ok? {
      assert Setup + [en.calls[0], en.calls[1]] + [target.calls[0], target.calls[1]]
          == [StoreInput, FetchVoices, en.calls[0], en.calls[1], target.calls[0], target.calls[1]];
      assert en.calls == [en.calls[0], en.calls[1]] && target.calls == [target.calls[0], target.calls[1]];
    }
  }

  /** Once the catalog has arrived, the request succeeds exactly when every check
      passes, both documents build and every service answers, after the six calls. */
  lemma ValidatedGenerated(t: Table, locale: string, catalog: seq<Voice>, env: Services)
    ensures Validated(t, locale, catalog, env).response.Generated? <==> Succeeds(t, locale, catalog, env)
    ensures Succeeds(t, locale, catalog, env) ==>
      Validated(t, locale, catalog, env) == Exchange(Generated(env.englishAudio.value, env.targetAudio.value),
                                                     FullTrace(t, locale, catalog, env))
  {
    if SelectVoices(catalog, locale).Ok? && FirstTranscriptionColumn(t.columns, LocaleCode(locale)).Some? {
      var pair, column := SelectVoices(catalog, locale).value, FirstTranscriptionColumn(t.columns, LocaleCode(locale)).value;
      ValidatedPasses(t, locale, catalog, env);
      if HasText(t, column) {
        assert Validated(t, locale, catalog, env) == BothPasses(t, column, pair, locale, env);
        BothPassesGenerated(t, column, pair, locale, env);
      }
    }
  }

  /** A request succeeds exactly when every check passes, both documents build and every
      service answers; it then answers with the two audio URLs, after exactly the six
      calls of the source. */
  lemma HandleGenerated(read: ReadOutcome, source: string, env: Services)
    ensures Handle(read, source, env).response.Generated? <==>
      Ready(read, env) && Succeeds(read.table, CleanSource(source), env.voices.value, env)
    ensures Ready(read, env) && Succeeds(read.table, CleanSource(source), env.voices.value, env) ==>
      Handle(read, source, env) == Exchange(Generated(env.englishAudio.value, env.targetAudio.value),
                                            FullTrace(read.table, CleanSource(source), env.voices.value, env))
  {
    HandleCases(read, source, env);
    if Ready(read, env) {
      ValidatedGenerated(read.table, CleanSource(source), env.voices.value, env);
    }
  }

  /** Without an `EN--Transcription` column the English pass fails with the `ValueError`
      of `generate_ssml` before storing anything. */
  lemma BothPassesNeedEnglishColumn(t: Table, column: string, pair: VoicePair, locale: string, env: Services)
    requires EnglishColumn !in t.columns
    ensures BothPasses(t, column, pair, locale, env) == Exchange(Failed(SsmlFailed(ColumnNotFound(EnglishColumn))), Setup)
  {
    assert Setup + [] == Setup;
  }

  /** The English pass runs first and always reads `EN--Transcription`: once every check
      has passed, a table without that column fails with the `ValueError` of
      `generate_ssml`, whatever language was requested, and no document is stored. */
  lemma HandleNeedsEnglishColumn(read: ReadOutcome, source: string, env: Services)
    requires Ready(read, env) && EnglishColumn !in read.table.columns
    requires SelectVoices(env.voices.value, CleanSource(source)).Ok?
    requires FirstTranscriptionColumn(read.table.columns, LocaleCode(CleanSource(source))).Some?
    requires HasText(read.table, FirstTranscriptionColumn(read.table.columns, LocaleCode(CleanSource(source))).value)
    ensures Handle(read, source, env) == Exchange(Failed(SsmlFailed(ColumnNotFound(EnglishColumn))), Setup)
  {
    HandleCases(read, source, env);
    var t, locale, catalog := read.table, CleanSource(source), env.voices.value;
    var pair, column := SelectVoices(catalog, locale).value, FirstTranscriptionColumn(t.columns, LocaleCode(locale)).value;
    assert Validated(t, locale, catalog, env) == BothPasses(t, column, pair, locale, env);
    BothPassesNeedEnglishColumn(t, column, pair, locale, env);
  }

  // ---------------------------------------------------------------------------
  // The endpoint, step by step
  // ---------------------------------------------------------------------------

  /** `generate_ssml(...)` with its upload, then `await convert_ssml_to_audio(url)`. */
  method Narrate(t: Table, column: string, male: string, female: string, lang: string,
                 stored: Outcome<string>, audio: Outcome<string>)
    returns (result: Result<string, Failure>, calls: seq<Call>)
    ensures Pass(result, calls) == Narration(t, column, male, female, lang, stored, audio)
  {
    var document := GenerateSsml(t, column, male, female, lang);
    if document.Err? {
      return Err(SsmlFailed(document.error)), [];
    }
    if stored.Raised? {
      return Err(ServiceFailed(stored.exception)), [StoreSsml(document.value)];
    }
    calls := [StoreSsml(document.value), Synthesize(stored.value)];
    if audio.Raised? {
      return Err(ServiceFailed(audio.exception)), calls;
    }
    return Ok(audio.value), calls;
  }

  /** `upload_csv(file, source)`: each check returns its error at once; an exception from
      a service or from `generate_ssml` ends the request through the handlers. */
  method UploadCsv(read: ReadOutcome, source: string, env: Services)
    returns (response: Response, calls: seq<Call>)
    ensures Exchange(response, calls) == Handle(read, source, env)
  {
    var locale := CleanSource(source);
    if read.NotUtf8? {
      return Failed(BadEncoding), [];
    }
    if read.ParseFailed? {
      return Failed(Unparsable(read.reason)), [];
    }
    var t := read.table;
    if IsEmpty(t) {
      return Failed(EmptyCsv), [];
    }
    if env.storeInput.Raised? {
      return Failed(ServiceFailed(env.storeInput.exception)), [StoreInput];
    }
    if env.voices.Raised? {
      return Failed(ServiceFailed(env.voices.exception)), Setup;
    }
    response, calls := Validate(t, locale, env.voices.value, env);
  }

  /** The checks on the locale and the table once the catalog has arrived, then the two
      passes. */
  method Validate(t: Table, locale: string, catalog: seq<Voice>, env: Services)
    returns (response: Response, calls: seq<Call>)
    ensures Exchange(response, calls) == Validated(t, locale, catalog, env)
  {
    calls := Setup;
    var selection := SelectVoices(catalog, locale);
    if selection.Err? {
      if selection.error == UnsupportedLocale {
        return Failed(InvalidLocale), calls;
      }
      return Failed(NoVoicePair(locale)), calls;
    }
    var code := LocaleCode(locale);
    var column := FindTranscriptionColumn(t.columns, code);
    if column.None? {
      return Failed(MissingColumn(code)), calls;
    }
    if !HasText(t, column.value) {
      return Failed(EmptyColumn(column.value)), calls;
    }
    response, calls := Speak(t, column.value, selection.value, locale, env);
  }

  /** The English document and audio, then the document and audio in the requested
      language with the selected voices. */
  method Speak(t: Table, column: string, pair: VoicePair, locale: string, env: Services)
    returns (response: Response, calls: seq<Call>)
    ensures Exchange(response, calls) == BothPasses(t, column, pair, locale, env)
  {
    calls := Setup;
    var english, enCalls := Narrate(t, EnglishColumn, EnglishMale, EnglishFemale, EnglishLocale,
                                    env.storeEnglishSsml, env.englishAudio);
    calls := calls + enCalls;
    if english.Err? {
      return Failed(english.error), calls;
    }
    var target, targetCalls := Narrate(t, column, pair.male, pair.female, locale,
                                       env.storeTargetSsml, env.targetAudio);
    calls := calls + targetCalls;
    if target.Err? {
      return Failed(target.error), calls;
    }
    return Generated(english.value, target.value), calls;
  }
}
