/** `SubtitleTranslationService`: one batch of translations. The eligible
    entries are fetched, the Gemini settings are read once, and each entry
    goes through `ProcessEntryAsync`: the rate limit, the choice of an
    embedded subtitle stream, its extraction to the work directory, the
    ASS/SSA conversion, the size check, the translation and the write of the
    translated file beside the video. An entry ends translated, skipped for
    good (no subtitles) or failed (kept for the next batch, with its error
    recorded).

    ffprobe, ffmpeg, the file system and the Gemini client are the oracles of
    `Tools`; one instant `now` stands for every reading of the clock in a
    batch. */
module Translation {
  import opened Wrappers
  import opened Text
  import opened Lists
  import opened Paths
  import opened Entries
  import opened Settings
  import opened Usage
  import opened Streams
  import Scanner

  const WorkDir: string := "/tmp/translarr"

  /** The longest subtitle text sent to the translator, in characters. */
  const MaxContentLength: int := 100 * 2048

  const NoSubtitlesMessage: string := "No suitable embedded subtitles found - skipped"
  const RateLimitMessage: string := "API rate limit exceeded"
  const ExtractFailedMessage: string := "Failed to extract subtitles from video file"
  const ConvertFailedMessage: string := "Failed to convert cleaned ASS to SRT"

  function TooLargeMessage(length: int): string {
    "Subtitle file too large after cleaning: " + IntToString(length) + " bytes (max: "
      + IntToString(MaxContentLength) + " bytes). "
      + "This file cannot be processed with the current Gemini API limits."
  }

  function CriticalMessage(msg: string): string {
    "Critical error during translation: " + msg
  }

  function EntryErrorMessage(e: Entry, msg: string): string {
    "Error processing " + e.fileName + ": " + msg
  }

  /** The parts of `GeminiSettingsDto` the orchestrator itself reads; the
      key, prompt and temperature only reach the translator. */
  datatype GeminiSettings = GeminiSettings(model: string, preferredSubsLang: string)

  /** The collaborators. Each answers for its inputs; `Err` (or `Some` for
      `write`) carries the message of the exception it throws.
      - `probe`: ffprobe's subtitle streams of a video;
      - `extract`: ffmpeg's extraction of a stream to a file, true when the
        file exists afterwards;
      - `convert`: the cleaning of an ASS/SSA file and its conversion to
        SRT at the second path, true on success;
      - `read`: the text of a file;
      - `translate`: Gemini's translation of a subtitle text;
      - `write`: the writing of a text file. */
  datatype Tools = Tools(
    probe: string -> Result<seq<Stream>, string>,
    extract: (string, int, string) -> bool,
    convert: (string, string) -> Result<bool, string>,
    read: string -> Result<string, string>,
    translate: string -> Result<string, string>,
    write: (string, string) -> Option<string>)

  /** What the batch reads and changes: the entry table, the settings, the
      usage log, the subtitle files written beside the videos (path to
      text) and the files present in the work directory. */
  datatype World = World(
    table: EntryTable,
    settings: seq<AppSetting>,
    log: seq<UsageRecord>,
    subtitles: map<string, string>,
    workFiles: set<string>)

  /** How `ProcessEntryAsync` ended for an entry. */
  datatype Outcome = Translated | Skipped | Threw(message: string)

  predicate IsTranslated(o: Outcome) { o.Translated? }
  predicate IsSkipped(o: Outcome) { o.Skipped? }
  predicate IsThrew(o: Outcome) { o.Threw? }

  /** The end of `ProcessEntryAsync`: the world, the entry object as the
      method last changed it, and the outcome. */
  datatype Step = Step(world: World, dto: Entry, outcome: Outcome)

  /** `TranslationResultDto` without the duration. */
  datatype TranslationResult = TranslationResult(
    successCount: nat, skippedNoSubtitles: nat, errorCount: nat, errors: seq<string>)

  /** The work file a stream is extracted to:
      `/tmp/translarr/<base>.<language>.<codec>` with the codec lower-cased. */
  function ExtractedPath(e: Entry, info: StreamInfo): string {
    Combine(WorkDir, FileNameWithoutExtension(e.fileName) + "." + info.language + "." + Lower(info.codecName))
  }

  /** The translated file: `<base>.<lang>.srt` beside the video. */
  function OutputPath(e: Entry, lang: string): string {
    Combine(DirectoryName(e.filePath), FileNameWithoutExtension(e.fileName) + "." + lang + ".srt")
  }

  /** The translated file is the one the library scan looks for when it
      decides whether a video already has subtitles in that language. */
  lemma OutputPathIsScannedPath(e: Entry, lang: string)
    ensures OutputPath(e, lang) == Scanner.SubtitlePath(Scanner.VideoFile(e.filePath, e.fileName, e.series, e.season), lang)
  {
  }

  predicate IsAssOrSsa(codec: string) {
    EqualsIgnoreCase(codec, "ass") || EqualsIgnoreCase(codec, "ssa")
  }

  /** The file that is read and translated: the SRT conversion for ASS/SSA
      streams, else the extracted file itself. */
  function SourcePath(extracted: string, codec: string): string {
    if IsAssOrSsa(codec) then ChangeExtension(extracted, ".srt") else extracted
  }

  function MarkProcessed(e: Entry, now: int, msg: Option<string>): Entry {
    e.(isProcessed := true, processedAt := Some(now), errorMessage := msg)
  }

  /** The row an entry of the batch ends as: processed with no error when
      translated, processed with the skip note when it has no subtitles,
      and otherwise unprocessed with the exception's message, so that the
      next batch picks it up again. */
  function Expected(e: Entry, o: Outcome, now: int): (x: Entry)
    ensures x.id == e.id && x.filePath == e.filePath && x.forceProcess == e.forceProcess
    ensures o.Threw? ==> (Eligible(x) <==> Eligible(e)) && x.isProcessed == e.isProcessed
    ensures !o.Threw? ==> x.isProcessed && x.processedAt == Some(now) && (Eligible(x) <==> e.forceProcess)
    ensures x.errorMessage.None? <==> o.Translated?
  {
    match o
    case Translated => MarkProcessed(e, now, None)
    case Skipped => MarkProcessed(e, now, Some(NoSubtitlesMessage))
    case Threw(m) => e.(errorMessage := Some(m))
  }

  /** Saves the changed entry object; a failed save is the exception the
      step ends with. */
  function Save(w: World, dto: Entry, success: Outcome): (s: Step)
    requires !success.Threw?
    ensures s.dto == dto
    ensures s.outcome == success <==> Update(w.table, dto).Ok?
    ensures Update(w.table, dto).Ok? ==> s.world == w.(table := Update(w.table, dto).value)
    ensures Update(w.table, dto).Err? ==> s.world == w && s.outcome == Threw(Update(w.table, dto).error)
  {
    match Update(w.table, dto)
    case Ok(t) => Step(w.(table := t), dto, success)
    case Err(m) => Step(w, dto, Threw(m))
  }

  /** The subtitle files of `after` are those of `before`, except perhaps
      the one at `out`. */
  predicate OnlyWritten(before: map<string, string>, after: map<string, string>, out: string) {
    && (forall p :: p in before ==> p in after)
    && (forall p :: p in after && p != out ==> p in before && after[p] == before[p])
  }

  /** The conversion of an ASS/SSA file to SRT beside the extracted file,
      which then lies in the work directory; other codecs need none. A
      conversion that fails or reports no success throws. */
  function Convert(w: World, tools: Tools, extracted: string, codec: string): (r: Result<World, string>)
    ensures r.Ok? <==> !IsAssOrSsa(codec) || tools.convert(extracted, SourcePath(extracted, codec)) == Ok(true)
    ensures r.Ok? ==> r.value == w.(workFiles := w.workFiles
      + (if IsAssOrSsa(codec) then {SourcePath(extracted, codec)} else {}))
  {
    if IsAssOrSsa(codec) then
      var srt := ChangeExtension(extracted, ".srt");
      match tools.convert(extracted, srt)
      case Err(m) => Err(m)
      case Ok(converted) => if converted then Ok(w.(workFiles := w.workFiles + {srt})) else Err(ConvertFailedMessage)
    else Ok(w)
  }

  /** Writing the translation beside the video, saving the entry as
      processed, and recording one use of the model once the save
      succeeded. */
  function WriteAndSave(w: World, tools: Tools, gs: GeminiSettings, now: int, e: Entry, translated: string): (s: Step)
    ensures s.world.settings == w.settings && s.world.workFiles == w.workFiles
    ensures s.outcome.Translated? ==> s.world.log == AddUsage(w.log, UsageRecord(gs.model, now))
    ensures !s.outcome.Translated? ==> s.world.log == w.log
    ensures !s.outcome.Skipped?
    ensures s.outcome.Threw? ==> s.world.table == w.table
    ensures s.outcome.Threw? && s.dto != e ==>
      s.dto == MarkProcessed(e, now, None) && Update(w.table, s.dto).Err?
    ensures s.outcome.Translated? ==>
      Update(w.table, MarkProcessed(e, now, None)).Ok? && s.world.table == Update(w.table, MarkProcessed(e, now, None)).value
    ensures OnlyWritten(w.subtitles, s.world.subtitles, OutputPath(e, gs.preferredSubsLang))
    ensures s.outcome.Translated? ==>
      var out := OutputPath(e, gs.preferredSubsLang);
      out in s.world.subtitles && s.world.subtitles[out] == translated && tools.write(out, translated).None?
  {
    var out := OutputPath(e, gs.preferredSubsLang);
    match tools.write(out, translated)
    case Some(m) => Step(w, e, Threw(m))
    case None =>
      var w2 := w.(subtitles := w.subtitles[out := translated]);
      var s := Save(w2, MarkProcessed(e, now, None), Translated);
      if s.outcome.Translated? then s.(world := s.world.(log := AddUsage(s.world.log, UsageRecord(gs.model, now))))
      else s
  }

  /** Reading the file at `path`, refusing one over `MaxContentLength`
      characters, translating it, then `WriteAndSave`. */
  function Deliver(w: World, tools: Tools, gs: GeminiSettings, now: int, e: Entry, path: string): (s: Step)
    ensures s.world.settings == w.settings && s.world.workFiles == w.workFiles
    ensures s.outcome.Translated? ==> s.world.log == AddUsage(w.log, UsageRecord(gs.model, now))
    ensures !s.outcome.Translated? ==> s.world.log == w.log
    ensures !s.outcome.Skipped?
    ensures s.outcome.Threw? ==> s.world.table == w.table
    ensures s.outcome.Threw? && s.dto != e ==>
      s.dto == MarkProcessed(e, now, None) && Update(w.table, s.dto).Err?
    ensures s.outcome.Translated? ==>
      Update(w.table, MarkProcessed(e, now, None)).Ok? && s.world.table == Update(w.table, MarkProcessed(e, now, None)).value
    ensures OnlyWritten(w.subtitles, s.world.subtitles, OutputPath(e, gs.preferredSubsLang))
    ensures s.outcome.Translated? ==>
      var out := OutputPath(e, gs.preferredSubsLang);
      && tools.read(path).Ok? && |tools.read(path).value| <= MaxContentLength
      && out in s.world.subtitles
      && tools.translate(tools.read(path).value) == Ok(s.world.subtitles[out])
      && tools.write(out, s.world.subtitles[out]).None?
    ensures tools.read(path).Ok? && |tools.read(path).value| > MaxContentLength ==>
      s == Step(w, e, Threw(TooLargeMessage(|tools.read(path).value|)))
  {
    match tools.read(path)
    case Err(m) => Step(w, e, Threw(m))
    case Ok(content) =>
      if |content| > MaxContentLength then Step(w, e, Threw(TooLargeMessage(|content|)))
      else
        match tools.translate(content)
        case Err(m) => Step(w, e, Threw(m))
        case Ok(translated) => WriteAndSave(w, tools, gs, now, e, translated)
  }

  /** Steps 5 to 9, run once the stream is extracted: ASS/SSA files are
      cleaned and converted to SRT, the text is read and its size checked,
      translated, written beside the video, the entry is marked processed
      and one use of the model is logged. */
  function Work(w: World, tools: Tools, gs: GeminiSettings, now: int, e: Entry, extracted: string, codec: string): (s: Step)
    ensures s.world.settings == w.settings
    ensures s.outcome.Translated? ==> s.world.log == AddUsage(w.log, UsageRecord(gs.model, now))
    ensures !s.outcome.Translated? ==> s.world.log == w.log
    ensures !s.outcome.Skipped?
    ensures s.outcome.Threw? ==> s.world.table == w.table
    ensures s.outcome.Threw? && s.dto != e ==>
      s.dto == MarkProcessed(e, now, None) && Update(w.table, s.dto).Err?
    ensures s.outcome.Translated? ==>
      Update(w.table, MarkProcessed(e, now, None)).Ok? && s.world.table == Update(w.table, MarkProcessed(e, now, None)).value
    ensures OnlyWritten(w.subtitles, s.world.subtitles, OutputPath(e, gs.preferredSubsLang))
    ensures s.outcome.Translated? ==>
      var src := SourcePath(extracted, codec);
      var out := OutputPath(e, gs.preferredSubsLang);
      && (IsAssOrSsa(codec) ==> tools.convert(extracted, src) == Ok(true))
      && tools.read(src).Ok? && |tools.read(src).value| <= MaxContentLength
      && out in s.world.subtitles
      && tools.translate(tools.read(src).value) == Ok(s.world.subtitles[out])
      && tools.write(out, s.world.subtitles[out]).None?
    ensures
      var src := SourcePath(extracted, codec);
      (!IsAssOrSsa(codec) || tools.convert(extracted, src) == Ok(true))
      && tools.read(src).Ok? && |tools.read(src).value| > MaxContentLength
      ==> s == Step(s.world, e, Threw(TooLargeMessage(|tools.read(src).value|))) && s.world.subtitles == w.subtitles
    ensures s.world.workFiles == w.workFiles
      + (if IsAssOrSsa(codec) && tools.convert(extracted, SourcePath(extracted, codec)) == Ok(true)
         then {SourcePath(extracted, codec)} else {})
  {
    match Convert(w, tools, extracted, codec)
    case Err(m) => Step(w, e, Threw(m))
    case Ok(w1) => Deliver(w1, tools, gs, now, e, SourcePath(extracted, codec))
  }


  /** The stream the entry's probe leads to, if the probe succeeds and finds
      one. */
  function Chosen(tools: Tools, e: Entry): Option<StreamInfo> {
    match tools.probe(e.filePath)
    case Err(_) => None
    case Ok(ss) => FindBestSubtitleStream(ss)
  }

  /** Step 4 and the `finally` around steps 5 to 9: the chosen stream is
      extracted to the work directory, worked on, and the extracted file is
      deleted whatever happens; a failed extraction throws before anything
      else. */
  function Extract(w: World, tools: Tools, gs: GeminiSettings, now: int, e: Entry, info: StreamInfo): (s: Step)
    ensures s.world.settings == w.settings
    ensures s.outcome.Translated? ==> s.world.log == AddUsage(w.log, UsageRecord(gs.model, now))
    ensures !s.outcome.Translated? ==> s.world.log == w.log
    ensures !s.outcome.Skipped?
    ensures s.outcome.Threw? ==> s.world.table == w.table
    ensures s.outcome.Threw? && s.dto != e ==>
      s.dto == MarkProcessed(e, now, None) && Update(w.table, s.dto).Err?
    ensures s.outcome.Translated? ==>
      Update(w.table, MarkProcessed(e, now, None)).Ok? && s.world.table == Update(w.table, MarkProcessed(e, now, None)).value
    ensures s.outcome.Translated? ==>
      tools.extract(e.filePath, info.streamIndex, ExtractedPath(e, info))
      && OutputPath(e, gs.preferredSubsLang) in s.world.subtitles
    ensures OnlyWritten(w.subtitles, s.world.subtitles, OutputPath(e, gs.preferredSubsLang))
    ensures s.world.workFiles - w.workFiles <= {ChangeExtension(ExtractedPath(e, info), ".srt")}
    ensures tools.extract(e.filePath, info.streamIndex, ExtractedPath(e, info)) ==> ExtractedPath(e, info) !in s.world.workFiles
    ensures !tools.extract(e.filePath, info.streamIndex, ExtractedPath(e, info)) ==>
      s == Step(w, e, Threw(ExtractFailedMessage))
  {
    var extracted := ExtractedPath(e, info);
    if !tools.extract(e.filePath, info.streamIndex, extracted) then Step(w, e, Threw(ExtractFailedMessage))
    else
      var s := Work(w.(workFiles := w.workFiles + {extracted}), tools, gs, now, e, extracted, Lower(info.codecName));
      s.(world := s.world.(workFiles := s.world.workFiles - {extracted}))
  }

  /** Step 3 and what follows: the probe, the choice of a stream, and the
      permanent skip of a video without subtitle streams. */
  function Probe(w: World, tools: Tools, gs: GeminiSettings, now: int, e: Entry): (s: Step)
    ensures s.world.settings == w.settings
    ensures s.outcome.Translated? ==> s.world.log == AddUsage(w.log, UsageRecord(gs.model, now))
    ensures !s.outcome.Translated? ==> s.world.log == w.log
    ensures s.outcome.Threw? ==> s.world.table == w.table
    ensures s.outcome.Threw? && s.dto != e ==>
      s.dto.id == e.id && s.dto.filePath == e.filePath && s.dto.forceProcess == e.forceProcess
      && Update(w.table, s.dto).Err?
    ensures !s.outcome.Threw? ==>
      Update(w.table, Expected(e, s.outcome, now)).Ok?
      && s.world.table == Update(w.table, Expected(e, s.outcome, now)).value
    ensures s.outcome.Skipped? <==>
      (tools.probe(e.filePath).Ok? && |tools.probe(e.filePath).value| == 0
       && Update(w.table, Expected(e, Skipped, now)).Ok?)
    ensures s.outcome.Translated? ==>
      && Chosen(tools, e).Some?
      && tools.extract(e.filePath, Chosen(tools, e).value.streamIndex, ExtractedPath(e, Chosen(tools, e).value))
      && OutputPath(e, gs.preferredSubsLang) in s.world.subtitles
    ensures OnlyWritten(w.subtitles, s.world.subtitles, OutputPath(e, gs.preferredSubsLang))
    ensures Chosen(tools, e).None? ==> s.world.workFiles == w.workFiles
    ensures Chosen(tools, e).Some? ==>
      var extracted := ExtractedPath(e, Chosen(tools, e).value);
      && s.world.workFiles - w.workFiles <= {ChangeExtension(extracted, ".srt")}
      && (tools.extract(e.filePath, Chosen(tools, e).value.streamIndex, extracted) ==> extracted !in s.world.workFiles)
  {
    match tools.probe(e.filePath)
    case Err(m) => Step(w, e, Threw(m))
    case Ok(streams) =>
      match FindBestSubtitleStream(streams)
      case None => Save(w, MarkProcessed(e, now, Some(NoSubtitlesMessage)), Skipped)
      case Some(info) => Extract(w, tools, gs, now, e, info)
  }

  /** `ProcessEntryAsync` for one entry: the rate limit is checked first
      (an unreadable ceiling or an exhausted budget throws), then the probe
      and the rest. */
  function ProcessEntry(w: World, tools: Tools, gs: GeminiSettings, now: int, e: Entry): (s: Step)
    ensures s.world.settings == w.settings
    ensures s.outcome.Translated? ==> s.world.log == AddUsage(w.log, UsageRecord(gs.model, now))
    ensures !s.outcome.Translated? ==> s.world.log == w.log
    ensures !s.outcome.Threw? ==> CanMakeRequest(w.settings, w.log, now, gs.model) == Ok(true)
    ensures CanMakeRequest(w.settings, w.log, now, gs.model).Err? ==>
      s == Step(w, e, Threw(CanMakeRequest(w.settings, w.log, now, gs.model).error))
    ensures CanMakeRequest(w.settings, w.log, now, gs.model) == Ok(false) ==> s == Step(w, e, Threw(RateLimitMessage))
    ensures CanMakeRequest(w.settings, w.log, now, gs.model) == Ok(true) ==> s == Probe(w, tools, gs, now, e)
  {
    match CanMakeRequest(w.settings, w.log, now, gs.model)
    case Err(m) => Step(w, e, Threw(m))
    case Ok(allowed) =>
      if !allowed then Step(w, e, Threw(RateLimitMessage)) else Probe(w, tools, gs, now, e)
  }

  /** `ProcessEntryAsync` together with the `catch` around it in the batch
      loop: a failed entry gets the exception's message as its error and is
      saved again; when that save throws too, the exception escapes the loop
      (`critical`). */
  datatype Handled = Handled(world: World, outcome: Outcome, critical: Option<string>)

  function HandleEntry(w: World, tools: Tools, gs: GeminiSettings, now: int, e: Entry): (h: Handled)
    ensures h.outcome == ProcessEntry(w, tools, gs, now, e).outcome
    ensures h.world == ProcessEntry(w, tools, gs, now, e).world.(table := h.world.table)
    ensures h.critical.Some? ==> h.outcome.Threw?
    ensures h.outcome.Threw? && h.critical.None? ==>
      Update(w.table, ProcessEntry(w, tools, gs, now, e).dto.(errorMessage := Some(h.outcome.message))).Ok?
      && h.world.table == Update(w.table, ProcessEntry(w, tools, gs, now, e).dto.(errorMessage := Some(h.outcome.message))).value
  {
    var s := ProcessEntry(w, tools, gs, now, e);
    match s.outcome
    case Threw(m) =>
      (match Update(s.world.table, s.dto.(errorMessage := Some(m)))
       case Ok(t) => Handled(s.world.(table := t), s.outcome, None)
       case Err(m2) => Handled(s.world, s.outcome, Some(m2)))
    case _ => Handled(s.world, s.outcome, None)
  }

  /** On a row of a valid table nothing escapes: the row ends as `Expected`
      and no other row changes. */
  lemma HandleOnValidTable(w: World, tools: Tools, gs: GeminiSettings, now: int, e: Entry, k: int)
    requires Valid(w.table) && 0 <= k < |w.table.rows| && w.table.rows[k] == e
    ensures var h := HandleEntry(w, tools, gs, now, e);
      h.critical.None? && h.world.table == EntryTable(w.table.rows[k := Expected(e, h.outcome, now)], w.table.nextId)
  {
    var s := ProcessEntry(w, tools, gs, now, e);
    var h := HandleEntry(w, tools, gs, now, e);
    if s.outcome.Threw? {
      if s.dto != e {
        UpdateOwnRow(w.table, k, s.dto);
        assert false;
      }
      UpdateOwnRow(w.table, k, e.(errorMessage := Some(s.outcome.message)));
    } else {
      UpdateOwnRow(w.table, k, Expected(e, s.outcome, now));
    }
  }

  // ---------------------------------------------------------------------
  // The batch

  /** The per-entry lines of the result's error list, in batch order. */
  function ErrorLines(batch: seq<Entry>, outcomes: seq<Outcome>): (r: seq<string>)
    requires |batch| == |outcomes|
    ensures |r| == CountWhere(outcomes, IsThrew)
  {
    if |outcomes| == 0 then []
    else
      var n := |outcomes| - 1;
      CountWhereAppend(outcomes[..n], [outcomes[n]], IsThrew);
      assert outcomes[..n] + [outcomes[n]] == outcomes;
      ErrorLines(batch[..n], outcomes[..n])
        + (if outcomes[n].Threw? then [EntryErrorMessage(batch[n], outcomes[n].message)] else [])
  }

  /** `n` uses of `model`, all recorded at `now`. */
  function Uses(model: string, now: int, n: nat): (r: seq<UsageRecord>)
    ensures |r| == n && forall u :: u in r ==> u == UsageRecord(model, now)
  {
    seq(n, _ => UsageRecord(model, now))
  }

  /** One more use extends the list by one record. */
  lemma UsesAppend(log: seq<UsageRecord>, model: string, now: int, n: nat)
    ensures log + Uses(model, now, n) + [UsageRecord(model, now)] == log + Uses(model, now, n + 1)
  {
    var a := Uses(model, now, n) + [UsageRecord(model, now)];
    assert a == Uses(model, now, n + 1);
  }

  /** Uses recorded at `now` count against both of today's and the last
      minute's budget of their model. */
  lemma UsesCount(log: seq<UsageRecord>, model: string, now: int, n: nat)
    ensures TodayCount(log + Uses(model, now, n), now, model) == TodayCount(log, now, model) + n
    ensures LastMinuteCount(log + Uses(model, now, n), now, model) == LastMinuteCount(log, now, model) + n
  {
    CountWhereAppend(log, Uses(model, now, n), IsToday(now, model));
    CountWhereAppend(log, Uses(model, now, n), IsLastMinute(now, model));
    CountAll(Uses(model, now, n), IsToday(now, model));
    CountAll(Uses(model, now, n), IsLastMinute(now, model));
  }

  /** The rows of `b` have the ids, paths and force flags of those of `a`. */
  predicate SameShape(a: seq<Entry>, b: seq<Entry>) {
    |a| == |b| && forall x :: 0 <= x < |a| ==>
      a[x].id == b[x].id && a[x].filePath == b[x].filePath && a[x].forceProcess == b[x].forceProcess
  }

  /** Rows with the same ids, paths and force flags keep a table valid. */
  lemma SameShapeValid(t0: EntryTable, t: EntryTable)
    requires Valid(t0) && SameShape(t0.rows, t.rows) && t.nextId == t0.nextId
    ensures Valid(t)
  {
  }

  /** The next entry's row is still as the batch found it. */
  lemma NextRowUntouched(t0: EntryTable, cur: EntryTable, batch: seq<Entry>, i: nat, k: int)
    requires Valid(t0) && IdsIncreasing(batch) && i < |batch|
    requires 0 <= k < |t0.rows| && t0.rows[k] == batch[i]
    requires SameShape(t0.rows, cur.rows) && cur.nextId == t0.nextId
    requires forall x :: 0 <= x < |t0.rows| && t0.rows[x] !in batch[..i] ==> cur.rows[x] == t0.rows[x]
    ensures Valid(cur) && cur.rows[k] == batch[i]
  {
    SameShapeValid(t0, cur);
    assert batch[i] !in batch[..i] by {
      forall j | 0 <= j < i ensures batch[j] != batch[i] {
        assert batch[j].id < batch[i].id;
      }
    }
  }

  /** One turn of the batch loop on a valid table: the entry's row, which
      no earlier turn touched, is replaced by `Expected`; the rows of
      earlier entries keep theirs and the rows outside the batch stay as
      they were. */
  lemma StepKeepsTable(t0: EntryTable, cur: EntryTable, batch: seq<Entry>, outcomes: seq<Outcome>,
                       o: Outcome, now: int, k: int)
    requires Valid(t0) && IdsIncreasing(batch) && |outcomes| < |batch|
    requires 0 <= k < |t0.rows| && k == IndexOfId(t0.rows, batch[|outcomes|].id) && t0.rows[k] == batch[|outcomes|]
    requires SameShape(t0.rows, cur.rows) && cur.nextId == t0.nextId
    requires forall j :: 0 <= j < |outcomes| ==>
      0 <= IndexOfId(t0.rows, batch[j].id)
      && cur.rows[IndexOfId(t0.rows, batch[j].id)] == Expected(batch[j], outcomes[j], now)
    requires forall x :: 0 <= x < |t0.rows| && t0.rows[x] !in batch[..|outcomes|] ==> cur.rows[x] == t0.rows[x]
    ensures var next := cur.rows[k := Expected(batch[|outcomes|], o, now)];
      var done := outcomes + [o];
      && SameShape(t0.rows, next)
      && (forall j :: 0 <= j < |done| ==>
            0 <= IndexOfId(t0.rows, batch[j].id)
            && next[IndexOfId(t0.rows, batch[j].id)] == Expected(batch[j], done[j], now))
      && (forall x :: 0 <= x < |t0.rows| && t0.rows[x] !in batch[..|done|] ==> next[x] == t0.rows[x])
  {
    var i := |outcomes|;
    var e := batch[i];
    assert e !in batch[..i] by {
      forall j | 0 <= j < i ensures batch[j] != e {
        assert batch[j].id < e.id;
      }
    }
    var next := cur.rows[k := Expected(e, o, now)];
    DoneRowsStep(t0, cur.rows, batch, outcomes, o, now, k);
    OtherRowsStep(t0, cur.rows, batch, |outcomes|, next, k);
  }

  /** The rows of the entries done, with the new one written at `k`. */
  lemma DoneRowsStep(t0: EntryTable, cur: seq<Entry>, batch: seq<Entry>, outcomes: seq<Outcome>,
                     o: Outcome, now: int, k: int)
    requires Valid(t0) && IdsIncreasing(batch) && |outcomes| < |batch| && |cur| == |t0.rows|
    requires 0 <= k < |t0.rows| && k == IndexOfId(t0.rows, batch[|outcomes|].id)
    requires forall j :: 0 <= j < |outcomes| ==>
      0 <= IndexOfId(t0.rows, batch[j].id)
      && cur[IndexOfId(t0.rows, batch[j].id)] == Expected(batch[j], outcomes[j], now)
    ensures var next := cur[k := Expected(batch[|outcomes|], o, now)];
      var done := outcomes + [o];
      forall j :: 0 <= j < |done| ==>
        0 <= IndexOfId(t0.rows, batch[j].id)
        && next[IndexOfId(t0.rows, batch[j].id)] == Expected(batch[j], done[j], now)
  {
    var i := |outcomes|;
    var next := cur[k := Expected(batch[i], o, now)];
    var done := outcomes + [o];
    forall j | 0 <= j < |done|
      ensures 0 <= IndexOfId(t0.rows, batch[j].id)
      ensures next[IndexOfId(t0.rows, batch[j].id)] == Expected(batch[j], done[j], now)
    {
      if j < i {
        assert batch[j].id < batch[i].id;
        assert done[j] == outcomes[j];
      }
    }
  }

  /** Rows of no entry done so far, the new one included, stay as they were. */
  lemma OtherRowsStep(t0: EntryTable, cur: seq<Entry>, batch: seq<Entry>, i: nat, next: seq<Entry>, k: int)
    requires i < |batch| && 0 <= k < |t0.rows| && t0.rows[k] == batch[i]
    requires |cur| == |t0.rows| && |next| == |cur|
    requires forall x :: 0 <= x < |cur| && x != k ==> next[x] == cur[x]
    requires forall x :: 0 <= x < |t0.rows| && t0.rows[x] !in batch[..i] ==> cur[x] == t0.rows[x]
    ensures forall x :: 0 <= x < |t0.rows| && t0.rows[x] !in batch[..i + 1] ==> next[x] == t0.rows[x]
  {
    assert batch[..i + 1] == batch[..i] + [batch[i]];
    forall x | 0 <= x < |t0.rows| && t0.rows[x] !in batch[..i + 1]
      ensures next[x] == t0.rows[x]
    {
      assert t0.rows[x] !in batch[..i] && x != k;
    }
  }


  /** The budget a batch can use: `used` uses at `now` stay within both
      ceilings, read as they were when the batch started. */
  predicate WithinBudget(settings: seq<AppSetting>, log: seq<UsageRecord>, now: int, model: string, used: nat) {
    used > 0 ==>
      && GetIntSetting(settings, "RateLimitPerDay").Ok?
      && GetIntSetting(settings, "RateLimitPerMinute").Ok?
      && TodayCount(log, now, model) + used <= GetIntSetting(settings, "RateLimitPerDay").value
      && LastMinuteCount(log, now, model) + used <= GetIntSetting(settings, "RateLimitPerMinute").value
  }

  /** One turn of the batch loop, with what the loop needs to know of it. */
  method HandleOne(w: World, tools: Tools, gs: GeminiSettings, now: int, e: Entry, ghost k: int) returns (h: Handled)
    ensures h == HandleEntry(w, tools, gs, now, e)
    ensures h.world.settings == w.settings
    ensures h.outcome.Translated? ==>
      && h.world.log == w.log + [UsageRecord(gs.model, now)]
      && CanMakeRequest(w.settings, w.log, now, gs.model) == Ok(true)
      && OutputPath(e, gs.preferredSubsLang) in h.world.subtitles
    ensures !h.outcome.Translated? ==> h.world.log == w.log
    ensures forall p :: p in w.subtitles ==> p in h.world.subtitles
    ensures h.critical.Some? ==> h.outcome.Threw?
    ensures Valid(w.table) && 0 <= k < |w.table.rows| && w.table.rows[k] == e ==>
      h.critical.None? && h.world.table == EntryTable(w.table.rows[k := Expected(e, h.outcome, now)], w.table.nextId)
  {
    h := HandleEntry(w, tools, gs, now, e);
    if CanMakeRequest(w.settings, w.log, now, gs.model) == Ok(true) {
      assert ProcessEntry(w, tools, gs, now, e) == Probe(w, tools, gs, now, e);
    }
    if Valid(w.table) && 0 <= k < |w.table.rows| && w.table.rows[k] == e {
      HandleOnValidTable(w, tools, gs, now, e, k);
    }
  }

  /** The counters and the error list follow the outcomes so far; an
      escaped exception ends the list with its critical line. */
  predicate CountsInv(batch: seq<Entry>, r: TranslationResult, outcomes: seq<Outcome>, critical: Option<string>) {
    && |outcomes| <= |batch|
    && (critical.Some? ==> |outcomes| > 0 && outcomes[|outcomes| - 1].Threw?)
    && r.successCount == CountWhere(outcomes, IsTranslated)
    && r.skippedNoSubtitles == CountWhere(outcomes, IsSkipped)
    && r.errorCount == CountWhere(outcomes, IsThrew)
    && r.errors == ErrorLines(batch[..|outcomes|], outcomes)
         + (if critical.Some? then [CriticalMessage(critical.value)] else [])
  }

  /** The settings are untouched, every translation so far logged one use,
      and the uses stay within the budget of the start of the batch. */
  predicate UsageInv(w: World, gs: GeminiSettings, now: int, cur: World, successes: nat) {
    && cur.settings == w.settings
    && cur.log == w.log + Uses(gs.model, now, successes)
    && WithinBudget(w.settings, w.log, now, gs.model, successes)
  }

  /** No subtitle file disappears, and every translated entry's file is
      there. */
  predicate FilesInv(w: World, out: Entry -> string, batch: seq<Entry>, cur: World, outcomes: seq<Outcome>)
    requires |outcomes| <= |batch|
  {
    && (forall p :: p in w.subtitles ==> p in cur.subtitles)
    && (forall k :: 0 <= k < |outcomes| && outcomes[k].Translated? ==> out(batch[k]) in cur.subtitles)
  }

  /** Where each entry's translation is written, for one target language. */
  function OutputFor(lang: string): Entry -> string {
    e => OutputPath(e, lang)
  }

  /** On a valid table: nothing escaped, the rows keep their shape, the rows
      of the entries done are `Expected` and the others are untouched. */
  predicate TableInv(t0: EntryTable, now: int, batch: seq<Entry>, cur: EntryTable, outcomes: seq<Outcome>, critical: Option<string>)
    requires |outcomes| <= |batch|
  {
    Valid(t0) ==>
      && critical.None?
      && IdsIncreasing(batch) && (forall e :: e in batch ==> e in t0.rows)
      && SameShape(t0.rows, cur.rows) && cur.nextId == t0.nextId
      && (forall k :: 0 <= k < |outcomes| ==>
            0 <= IndexOfId(t0.rows, batch[k].id)
            && cur.rows[IndexOfId(t0.rows, batch[k].id)] == Expected(batch[k], outcomes[k], now))
      && (forall x :: 0 <= x < |t0.rows| && t0.rows[x] !in batch[..|outcomes|] ==> cur.rows[x] == t0.rows[x])
  }

  /** What holds after the first `|outcomes|` entries of a batch of `w`,
      run with settings `gs`, leave the world `cur`, the result `r` and
      perhaps an escaped exception. */
  predicate BatchInv(w: World, gs: GeminiSettings, now: int, batch: seq<Entry>,
                     cur: World, r: TranslationResult, outcomes: seq<Outcome>, critical: Option<string>) {
    && CountsInv(batch, r, outcomes, critical)
    && UsageInv(w, gs, now, cur, r.successCount)
    && FilesInv(w, OutputFor(gs.preferredSubsLang), batch, cur, outcomes)
    && TableInv(w.table, now, batch, cur.table, outcomes, critical)
  }

  /** The counters and error lines after one more outcome, and the critical
      line when its exception escaped. */
  function Tally(r: TranslationResult, e: Entry, o: Outcome, critical: Option<string>): TranslationResult {
    var r1 :=
      match o
      case Translated => r.(successCount := r.successCount + 1)
      case Skipped => r.(skippedNoSubtitles := r.skippedNoSubtitles + 1)
      case Threw(m) => r.(errorCount := r.errorCount + 1, errors := r.errors + [EntryErrorMessage(e, m)]);
    if critical.Some? then r1.(errors := r1.errors + [CriticalMessage(critical.value)]) else r1
  }

  lemma CountsStep(batch: seq<Entry>, r: TranslationResult, outcomes: seq<Outcome>, o: Outcome, critical: Option<string>)
    requires |outcomes| < |batch| && CountsInv(batch, r, outcomes, None)
    requires critical.Some? ==> o.Threw?
    ensures CountsInv(batch, Tally(r, batch[|outcomes|], o, critical), outcomes + [o], critical)
  {
    var i := |outcomes|;
    CountWhereAppend(outcomes, [o], IsTranslated);
    CountWhereAppend(outcomes, [o], IsSkipped);
    CountWhereAppend(outcomes, [o], IsThrew);
    assert batch[..i + 1][..i] == batch[..i];
    assert (outcomes + [o])[..i] == outcomes;
  }

  lemma UsageStep(w: World, gs: GeminiSettings, now: int, cur: World, next: World, successes: nat, o: Outcome)
    requires UsageInv(w, gs, now, cur, successes)
    requires next.settings == cur.settings
    requires o.Translated? ==>
      next.log == cur.log + [UsageRecord(gs.model, now)] && CanMakeRequest(cur.settings, cur.log, now, gs.model) == Ok(true)
    requires !o.Translated? ==> next.log == cur.log
    ensures UsageInv(w, gs, now, next, if o.Translated? then successes + 1 else successes)
  {
    if o.Translated? {
      UsesCount(w.log, gs.model, now, successes);
      UsesAppend(w.log, gs.model, now, successes);
    }
  }

  lemma FilesStep(w: World, out: Entry -> string, batch: seq<Entry>, cur: World, next: World, outcomes: seq<Outcome>, o: Outcome)
    requires |outcomes| < |batch| && FilesInv(w, out, batch, cur, outcomes)
    requires forall p :: p in cur.subtitles ==> p in next.subtitles
    requires o.Translated? ==> out(batch[|outcomes|]) in next.subtitles
    ensures FilesInv(w, out, batch, next, outcomes + [o])
  {
    var os := outcomes + [o];
    assert forall k :: 0 <= k < |outcomes| ==> os[k] == outcomes[k];
  }

  lemma TableStep(t0: EntryTable, now: int, batch: seq<Entry>, cur: EntryTable, next: EntryTable,
                  outcomes: seq<Outcome>, o: Outcome, critical: Option<string>, k: int)
    requires |outcomes| < |batch| && TableInv(t0, now, batch, cur, outcomes, None)
    requires Valid(t0) ==>
      && 0 <= k < |t0.rows| && k == IndexOfId(t0.rows, batch[|outcomes|].id) && t0.rows[k] == batch[|outcomes|]
      && critical.None? && next == EntryTable(cur.rows[k := Expected(batch[|outcomes|], o, now)], cur.nextId)
    ensures TableInv(t0, now, batch, next, outcomes + [o], critical)
  {
    if Valid(t0) {
      StepKeepsTable(t0, cur, batch, outcomes, o, now, k);
    }
  }

  /** The batch invariant after one more entry, from what handling it did. */
  lemma TurnStep(w: World, gs: GeminiSettings, now: int, batch: seq<Entry>,
                 cur: World, r: TranslationResult, outcomes: seq<Outcome>, h: Handled, k: int)
    requires |outcomes| < |batch| && BatchInv(w, gs, now, batch, cur, r, outcomes, None)
    requires h.world.settings == cur.settings
    requires h.outcome.Translated? ==>
      && h.world.log == cur.log + [UsageRecord(gs.model, now)]
      && CanMakeRequest(cur.settings, cur.log, now, gs.model) == Ok(true)
      && OutputPath(batch[|outcomes|], gs.preferredSubsLang) in h.world.subtitles
    requires !h.outcome.Translated? ==> h.world.log == cur.log
    requires forall p :: p in cur.subtitles ==> p in h.world.subtitles
    requires h.critical.Some? ==> h.outcome.Threw?
    requires Valid(w.table) ==>
      && 0 <= k < |w.table.rows| && k == IndexOfId(w.table.rows, batch[|outcomes|].id)
      && w.table.rows[k] == batch[|outcomes|] && h.critical.None?
      && h.world.table == EntryTable(cur.table.rows[k := Expected(batch[|outcomes|], h.outcome, now)], cur.table.nextId)
    ensures BatchInv(w, gs, now, batch, h.world, Tally(r, batch[|outcomes|], h.outcome, h.critical),
                     outcomes + [h.outcome], h.critical)
  {
    CountsStep(batch, r, outcomes, h.outcome, h.critical);
    UsageStep(w, gs, now, cur, h.world, r.successCount, h.outcome);
    FilesStep(w, OutputFor(gs.preferredSubsLang), batch, cur, h.world, outcomes, h.outcome);
    TableStep(w.table, now, batch, cur.table, h.world.table, outcomes, h.outcome, h.critical, k);
  }

  /** One turn of the loop of `TranslateNextBatchAsync`: the next entry is
      handled and counted, and an escaping exception adds its critical
      line. */
  method Turn(w: World, tools: Tools, gs: GeminiSettings, now: int, batch: seq<Entry>,
              cur: World, r: TranslationResult, outcomes: seq<Outcome>)
    returns (cur': World, r': TranslationResult, outcomes': seq<Outcome>, critical': Option<string>)
    requires |outcomes| < |batch| && BatchInv(w, gs, now, batch, cur, r, outcomes, None)
    ensures |outcomes'| == |outcomes| + 1 && outcomes'[..|outcomes|] == outcomes
    ensures BatchInv(w, gs, now, batch, cur', r', outcomes', critical')
  {
    var i := |outcomes|;
    var e := batch[i];
    ghost var k := -1;
    if Valid(w.table) {
      k := RowPosition(w.table, e);
      NextRowUntouched(w.table, cur.table, batch, i, k);
    }
    var h := HandleOne(cur, tools, gs, now, e, k);
    TurnStep(w, gs, now, batch, cur, r, outcomes, h, k);
    outcomes' := outcomes + [h.outcome];
    cur' := h.world;
    critical' := h.critical;
    r' := Tally(r, e, h.outcome, h.critical);
  }

  /** `TranslateNextBatchAsync(batchSize)`. `settingsRead` is what
      `GetGeminiSettingsAsync` answers (its message when it throws). Returns
      the world afterwards, the result, the batch, the outcome of each entry
      processed, and the message of an exception that escaped the loop.

      An empty batch changes nothing and reads no settings. Otherwise each
      entry is handled in turn; the counters and the error lines follow the
      outcomes; each translation records one use and the limiter keeps the
      number of translations within both ceilings. On a valid table nothing
      escapes: every entry of the batch is processed, its row ends as
      `Expected`, and no other row changes. */
  method TranslateNextBatch(w: World, tools: Tools, settingsRead: Result<GeminiSettings, string>, now: int, batchSize: int)
    returns (w': World, r: TranslationResult, batch: seq<Entry>, outcomes: seq<Outcome>, critical: Option<string>)
    ensures batch == GetUnprocessedWanted(w.table, batchSize)
    ensures |batch| == 0 ==> w' == w && r == TranslationResult(0, 0, 0, []) && outcomes == [] && critical.None?
    ensures |batch| > 0 && settingsRead.Err? ==>
      w' == w && outcomes == [] && r == TranslationResult(0, 0, 0, [CriticalMessage(settingsRead.error)])
    ensures critical.None? && settingsRead.Ok? ==> |outcomes| == |batch|
    ensures settingsRead.Ok? ==> BatchInv(w, settingsRead.value, now, batch, w', r, outcomes, critical)
    ensures Valid(w.table) ==> Valid(w'.table) && critical.None?
    ensures Valid(w.table) && settingsRead.Ok? ==>
      forall x :: 0 <= x < |w.table.rows| && w.table.rows[x] !in batch ==> w'.table.rows[x] == w.table.rows[x]
  {
    batch := GetUnprocessedWanted(w.table, batchSize);
    w' := w;
    outcomes := [];
    critical := None;
    if |batch| == 0 {
      return w', TranslationResult(0, 0, 0, []), batch, outcomes, critical;
    }
    if settingsRead.Err? {
      return w', TranslationResult(0, 0, 0, [CriticalMessage(settingsRead.error)]), batch, outcomes, critical;
    }
    if Valid(w.table) {
      BatchOrdered(w.table, batchSize);
    }
    w', r, outcomes, critical := RunBatch(w, tools, settingsRead.value, now, batch);
  }

  /** The loop of `TranslateNextBatchAsync` over a non-empty batch: each
      entry in turn until all are handled or an exception escapes. */
  method RunBatch(w: World, tools: Tools, gs: GeminiSettings, now: int, batch: seq<Entry>)
    returns (w': World, r: TranslationResult, outcomes: seq<Outcome>, critical: Option<string>)
    requires Valid(w.table) ==> IdsIncreasing(batch) && forall e :: e in batch ==> e in w.table.rows
    ensures critical.None? ==> |outcomes| == |batch|
    ensures BatchInv(w, gs, now, batch, w', r, outcomes, critical)
    ensures Valid(w.table) ==> Valid(w'.table) && critical.None?
    ensures Valid(w.table) ==>
      forall x :: 0 <= x < |w.table.rows| && w.table.rows[x] !in batch ==> w'.table.rows[x] == w.table.rows[x]
  {
    w' := w;
    outcomes := [];
    critical := None;
    r := TranslationResult(0, 0, 0, []);
    BatchStart(w, gs, now, batch);
    while |outcomes| < |batch| && critical.None?
      invariant BatchInv(w, gs, now, batch, w', r, outcomes, critical)
      decreases |batch| - |outcomes|
    {
      w', r, outcomes, critical := Turn(w, tools, gs, now, batch, w', r, outcomes);
    }
    BatchEnd(w, gs, now, batch, w', r, outcomes, critical);
  }

  /** Before the first entry the invariant holds with nothing done. */
  lemma BatchStart(w: World, gs: GeminiSettings, now: int, batch: seq<Entry>)
    requires Valid(w.table) ==> IdsIncreasing(batch) && forall e :: e in batch ==> e in w.table.rows
    ensures BatchInv(w, gs, now, batch, w, TranslationResult(0, 0, 0, []), [], None)
  {
    assert w.log + Uses(gs.model, now, 0) == w.log;
  }

  /** Once every entry is handled, a valid table is still valid and only
      the rows of the batch changed. */
  lemma BatchEnd(w: World, gs: GeminiSettings, now: int, batch: seq<Entry>,
                 cur: World, r: TranslationResult, outcomes: seq<Outcome>, critical: Option<string>)
    requires BatchInv(w, gs, now, batch, cur, r, outcomes, critical)
    requires critical.None? ==> |outcomes| == |batch|
    ensures Valid(w.table) ==> Valid(cur.table) && critical.None?
    ensures Valid(w.table) ==>
      forall x :: 0 <= x < |w.table.rows| && w.table.rows[x] !in batch ==> cur.table.rows[x] == w.table.rows[x]
  {
    if Valid(w.table) {
      assert batch[..|outcomes|] == batch;
      SameShapeValid(w.table, cur.table);
    }
  }
}
