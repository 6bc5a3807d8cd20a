/** The translation job endpoints (`TranslationEndpoints`): one status slot
    shared by the start request, the background job and the status request.
    A start is refused while a job runs; the job's progress updates, its
    completion and its failure each replace the slot's contents. Each locked
    block is one atomic transition of the slot; the background task is
    modelled by the events it produces. */
module JobStatus {
  import opened Wrappers
  import opened Text
  import opened Paths
  import Translation

  /** `TranslationStep`. A C# enum variable can hold any integer, so the
      values outside the nine named ones are `Undefined`. */
  datatype TranslationStep =
    | Starting
    | CheckingRateLimit
    | FindingSubtitles
    | ExtractingSubtitles
    | CleaningSubtitles
    | ValidatingSize
    | TranslatingWithGemini
    | SavingSubtitles
    | Completed
    | Undefined(value: int)

  /** `TranslationProgressUpdate`. */
  datatype ProgressUpdate = ProgressUpdate(
    totalFiles: int, processedFiles: int, currentFileName: string, currentStep: TranslationStep)

  /** `TranslationStatus`; instants are integer seconds. */
  datatype Status = Status(
    isRunning: bool,
    startedAt: Option<int>,
    completedAt: Option<int>,
    progress: string,
    result: Option<Translation.TranslationResult>,
    error: Option<string>,
    totalFiles: int,
    processedFiles: int,
    currentFileName: Option<string>,
    currentStep: TranslationStep)

  /** A status with every property at its default value. */
  const Blank: Status := Status(false, None, None, "", None, None, 0, 0, None, Starting)

  const StatusUrl: string := "/api/translation/status"

  /** The message of the `NullReferenceException` .NET throws. */
  const NullReferenceMessage: string := "Object reference not set to an instance of an object."

  /** The answer to a start request: 409 with its problem details, or 202
      with the status location. */
  datatype StartResponse =
    | Conflict(status: int, title: string, detail: string)
    | Accepted(location: string, message: string)

  /** The static slot: no status until the first start request. */
  type Slot = Option<Status>

  predicate Running(slot: Slot) {
    slot.Some? && slot.value.isRunning
  }

  /** The step names of `FormatProgress`; a value outside the enum reads as
      "Processing", and only such a value does. */
  function StepText(step: TranslationStep): (r: string)
    ensures r == "Processing" <==> step.Undefined?
    ensures step == Completed ==> r == "Completed"
  {
    match step
    case Starting => "Starting"
    case CheckingRateLimit => "Checking rate limit"
    case FindingSubtitles => "Finding subtitles"
    case ExtractingSubtitles => "Extracting subtitles"
    case CleaningSubtitles => "Cleaning subtitles"
    case ValidatingSize => "Validating size"
    case TranslatingWithGemini => "Translating with Gemini"
    case SavingSubtitles => "Saving subtitles"
    case Completed => "Completed"
    case Undefined(_) => "Processing"
  }

  /** The one-based number of the file being worked on: `ProcessedFiles + 1`
      in unchecked 32-bit arithmetic. */
  function FileNumber(u: ProgressUpdate): int {
    Int32Wrap(u.processedFiles + 1)
  }

  /** "[a/b]" followed by `rest`. */
  function Counters(a: int, b: int, rest: string): string {
    "[" + (IntToString(a) + ("/" + (IntToString(b) + ("]" + rest))))
  }

  /** The part of the progress text after the counters: " step: file". */
  function StepAndFile(u: ProgressUpdate): string {
    " " + StepText(u.currentStep) + ": " + u.currentFileName
  }

  /** `FormatProgress`: "[n/total] step: file". */
  function FormatProgress(u: ProgressUpdate): string {
    Counters(FileNumber(u), u.totalFiles, StepAndFile(u))
  }

  /** A rendered integer holds only a sign and digits. */
  lemma IntToStringChars(i: int, c: char)
    requires c != '-' && !IsDigit(c)
    ensures c !in IntToString(i)
  {
    var d := NatToString(if i < 0 then -i else i);
    assert c !in d by {
      forall k | 0 <= k < |d| ensures d[k] != c {
        assert IsDigit(d[k]);
      }
    }
    if i < 0 {
      assert IntToString(i) == "-" + d;
    }
  }

  /** A 32-bit integer rendered in front of a separator is read back from
      the text before the first separator. */
  lemma FieldReadBack(x: int, c: char, rest: string)
    requires Int32Min <= x <= Int32Max && c != '-' && !IsDigit(c)
    ensures var s := IntToString(x) + [c] + rest;
      IndexOf(s, c) == |IntToString(x)| && TryParseInt32(Some(s[..IndexOf(s, c)])) == Some(x)
  {
    var n := IntToString(x);
    IntToStringChars(x, c);
    FirstAfterPrefix(n, c, rest);
    assert (n + [c] + rest)[..|n|] == n;
    IntToStringRoundTrip(x);
  }

  /** Reads the two counters back from a progress text: the integer between
      '[' and the first '/', and the one between that '/' and the first ']'
      after it. */
  function ReadCounters(r: string): Option<(int, int)> {
    if |r| == 0 || r[0] != '[' then None
    else
      var slash := IndexOf(r, '/');
      if slash < 1 then None
      else
        var tail := r[slash + 1..];
        var close := IndexOf(tail, ']');
        if close < 0 then None
        else
          match (TryParseInt32(Some(r[1..slash])), TryParseInt32(Some(tail[..close])))
          case (Some(a), Some(b)) => Some((a, b))
          case _ => None
  }

  /** Where the pieces of a counters text lie. */
  lemma CountersShape(a: int, b: int, rest: string)
    ensures var r := Counters(a, b, rest);
      var n := IntToString(a);
      && |r| > 0 && r[0] == '['
      && IndexOf(r, '/') == |n| + 1
      && r[1..|n| + 1] == n
      && r[|n| + 2..] == IntToString(b) + [']'] + rest
  {
    var n := IntToString(a);
    var after := IntToString(b) + ("]" + rest);
    var s1 := n + ("/" + after);
    var r := "[" + s1;
    assert Counters(a, b, rest) == r;
    assert r[1..] == s1;
    assert s1 == n + ['/'] + after;
    IntToStringChars(a, '/');
    FirstAfterPrefix(n, '/', after);
    assert r[1..|n| + 1] == n;
    assert r[|n| + 2..] == s1[|n| + 1..];
    assert s1[|n| + 1..] == after;
    assert after == IntToString(b) + [']'] + rest;
  }

  /** The first ']' of a counters text is the one closing the counters, so
      the text after it is `rest`. */
  lemma CountersTail(a: int, b: int, rest: string)
    ensures var r := Counters(a, b, rest);
      var k := IndexOf(r, ']');
      && |r| > 0 && r[0] == '['
      && k == |IntToString(a)| + |IntToString(b)| + 2 && r[k + 1..] == rest
  {
    var n, m := IntToString(a), IntToString(b);
    var r := Counters(a, b, rest);
    assert r == "[" + n + "/" + m + "]" + rest;
    IntToStringChars(a, ']');
    IntToStringChars(b, ']');
    var p := |n| + |m| + 2;
    assert r[p] == ']';
    forall j | 0 <= j < p
      ensures r[j] != ']'
    {
      if 1 <= j <= |n| {
        assert r[j] == n[j - 1];
      } else if |n| + 2 <= j {
        assert r[j] == m[j - |n| - 2];
      }
    }
    assert r[p + 1..] == rest;
  }

  /** Both counters of a progress text read back as written. */
  lemma CountersReadBack(a: int, b: int, rest: string)
    requires Int32Min <= a <= Int32Max && Int32Min <= b <= Int32Max
    ensures ReadCounters(Counters(a, b, rest)) == Some((a, b))
  {
    var n := IntToString(a);
    CountersShape(a, b, rest);
    IntToStringRoundTrip(a);
    FieldReadBack(b, ']', rest);
  }

  /** The counters of the progress text read back as the one-based file
      number and the total. */
  lemma ProgressCountersReadBack(u: ProgressUpdate)
    requires Int32Min <= u.totalFiles <= Int32Max
    ensures ReadCounters(FormatProgress(u)) == Some((FileNumber(u), u.totalFiles))
  {
    CountersReadBack(FileNumber(u), u.totalFiles, StepAndFile(u));
  }

  // ---------------------------------------------------------------------
  // Transitions of the slot

  /** `StartTranslation`: refused with 409 while a job runs, leaving the
      slot alone; otherwise the slot is replaced by a fresh running status
      and the request is accepted. */
  function Start(slot: Slot, now: int): (r: (Slot, StartResponse))
    ensures Running(slot) ==> r.0 == slot && r.1.Conflict? && r.1.status == 409
    ensures !Running(slot) ==>
      && r.1 == Accepted(StatusUrl, "Translation started")
      && Running(r.0) && r.0.value.startedAt == Some(now)
      && r.0.value.progress == "Starting translation..."
      && r.0.value.result.None? && r.0.value.error.None?
  {
    if Running(slot) then
      (slot, Conflict(409, "Translation already in progress",
                      "A translation job is already running. Please wait for it to complete."))
    else
      (Some(Blank.(isRunning := true, startedAt := Some(now), progress := "Starting translation...")),
       Accepted(StatusUrl, "Translation started"))
  }

  /** `OnProgressUpdate`: copies the update into the status, when there is
      one; nothing else about the run changes. */
  function Progress(slot: Slot, u: ProgressUpdate): (r: Slot)
    ensures r.Some? <==> slot.Some?
    ensures r.Some? ==>
      && r.value.(totalFiles := slot.value.totalFiles, processedFiles := slot.value.processedFiles,
                  currentFileName := slot.value.currentFileName, currentStep := slot.value.currentStep,
                  progress := slot.value.progress) == slot.value
      && r.value.totalFiles == u.totalFiles && r.value.processedFiles == u.processedFiles
      && r.value.currentFileName == Some(u.currentFileName) && r.value.currentStep == u.currentStep
  {
    match slot
    case None => None
    case Some(s) =>
      Some(s.(totalFiles := u.totalFiles, processedFiles := u.processedFiles,
              currentFileName := Some(u.currentFileName), currentStep := u.currentStep,
              progress := FormatProgress(u)))
  }

  /** The `catch` of the background job: the run ends with the exception's
      message as its error and a result with no counts and one critical
      line; the start time is kept when known. */
  function Fail(slot: Slot, message: string, now: int): (r: Slot)
    ensures r.Some? && !r.value.isRunning && r.value.error == Some(message)
    ensures r.value.result == Some(Translation.TranslationResult(0, 0, 0, [Translation.CriticalMessage(message)]))
    ensures r.value.startedAt == (if slot.Some? && slot.value.startedAt.Some? then slot.value.startedAt else Some(now))
    ensures r.value.completedAt == Some(now)
  {
    var started := if slot.Some? && slot.value.startedAt.Some? then slot.value.startedAt.value else now;
    Some(Blank.(startedAt := Some(started), completedAt := Some(now), progress := "Failed: " + message,
                error := Some(message),
                result := Some(Translation.TranslationResult(0, 0, 0, [Translation.CriticalMessage(message)]))))
  }

  /** The end of a normal run: not running, completed at `now`, every file
      counted as processed, the start time kept. An empty slot would make
      the job dereference null, and that exception ends the run through
      the `catch`. */
  function Complete(slot: Slot, result: Translation.TranslationResult, now: int): (r: Slot)
    ensures r.Some? && !r.value.isRunning && r.value.completedAt == Some(now)
    ensures slot.Some? ==>
      && r.value.startedAt == slot.value.startedAt
      && r.value.currentStep == Completed && r.value.progress == "Completed"
      && r.value.totalFiles == slot.value.totalFiles
      && r.value.processedFiles == r.value.totalFiles
      && r.value.result == Some(result) && r.value.error.None?
    ensures slot.None? ==> r == Fail(None, NullReferenceMessage, now)
  {
    match slot
    case None => Fail(None, NullReferenceMessage, now)
    case Some(s) =>
      Some(Blank.(startedAt := s.startedAt, completedAt := Some(now), progress := "Completed",
                  currentStep := Completed, totalFiles := s.totalFiles, processedFiles := s.totalFiles,
                  result := Some(result)))
  }

  /** `GetTranslationStatus`: the slot's status, or a not-running status
      saying so when no job was ever started. */
  function GetStatus(slot: Slot): (r: Status)
    ensures slot.Some? ==> r == slot.value
    ensures slot.None? ==> !r.isRunning && r.progress == "No translation running" && r.result.None?
  {
    match slot
    case None => Blank.(progress := "No translation running")
    case Some(s) => s
  }

  // ---------------------------------------------------------------------
  // Runs

  /** What can happen to the slot: a start request, or the background job
      of a started run reporting progress, finishing or failing. */
  datatype Event =
    | StartRequest(now: int)
    | Progressed(update: ProgressUpdate)
    | Finished(result: Translation.TranslationResult, at: int)
    | Crashed(message: string, at: int)

  function Apply(slot: Slot, ev: Event): Slot {
    match ev
    case StartRequest(now) => Start(slot, now).0
    case Progressed(u) => Progress(slot, u)
    case Finished(res, at) => Complete(slot, res, at)
    case Crashed(m, at) => Fail(slot, m, at)
  }

  function Replay(slot: Slot, evs: seq<Event>): Slot
    decreases |evs|
  {
    if |evs| == 0 then slot else Replay(Apply(slot, evs[0]), evs[1..])
  }

  /** The start requests of `evs` that are accepted, replayed from `slot`. */
  function AcceptedStarts(slot: Slot, evs: seq<Event>): nat
    decreases |evs|
  {
    if |evs| == 0 then 0
    else
      (if evs[0].StartRequest? && !Running(slot) then 1 else 0) + AcceptedStarts(Apply(slot, evs[0]), evs[1..])
  }

  function Endings(evs: seq<Event>): nat {
    if |evs| == 0 then 0
    else (if evs[0].Finished? || evs[0].Crashed? then 1 else 0) + Endings(evs[1..])
  }

  /** Runs never overlap: between two endings at most one start request is
      accepted, whatever the order of the events. */
  lemma {:induction false} SingleFlight(slot: Slot, evs: seq<Event>)
    ensures AcceptedStarts(slot, evs) <= Endings(evs) + (if Running(slot) then 0 else 1)
    ensures Running(Replay(slot, evs)) ==> AcceptedStarts(slot, evs) <= Endings(evs) + (if Running(slot) then 1 else 0) + 1
    decreases |evs|
  {
    if |evs| > 0 {
      SingleFlight(Apply(slot, evs[0]), evs[1..]);
    }
  }

  /** The progress text opens the counters with '[', and since the counters
      hold no ']', everything after the first ']' is a space, the step name,
      ": " and the file name. */
  lemma ProgressText(u: ProgressUpdate)
    ensures var r := FormatProgress(u);
      var k := IndexOf(r, ']');
      && |r| > 0 && r[0] == '[' && 0 <= k
      && r[k + 1..] == StepAndFile(u)
  {
    var a, b, rest := FileNumber(u), u.totalFiles, StepAndFile(u);
    CountersTail(a, b, rest);
    assert FormatProgress(u) == Counters(a, b, rest);
  }

  /** Progress updates keep a run's status running with its start time and
      leave the counters of the last update. */
  lemma {:induction false} ProgressKeepsRun(s: Status, us: seq<ProgressUpdate>)
    ensures var r := Replay(Some(s), seq(|us|, i requires 0 <= i < |us| => Progressed(us[i])));
      && r.Some? && r.value.isRunning == s.isRunning && r.value.startedAt == s.startedAt
      && r.value.totalFiles == (if |us| == 0 then s.totalFiles else us[|us| - 1].totalFiles)
    decreases |us|
  {
    var evs := seq(|us|, i requires 0 <= i < |us| => Progressed(us[i]));
    if |us| > 0 {
      var s1 := Progress(Some(s), us[0]).value;
      ProgressKeepsRun(s1, us[1..]);
      assert evs[1..] == seq(|us[1..]|, i requires 0 <= i < |us[1..]| => Progressed(us[1..][i]));
    }
  }

  /** The life of one run: a start request when none runs, any number of
      progress updates, then the job's result. The status afterwards is not
      running, keeps the start time, reports the result and counts every
      file of the last update as processed. */
  lemma RunLifecycle(slot: Slot, now: int, us: seq<ProgressUpdate>, result: Translation.TranslationResult, done: int)
    requires !Running(slot)
    ensures var evs := [StartRequest(now)] + seq(|us|, i requires 0 <= i < |us| => Progressed(us[i])) + [Finished(result, done)];
      var st := GetStatus(Replay(slot, evs));
      && !st.isRunning && st.startedAt == Some(now) && st.completedAt == Some(done)
      && st.result == Some(result) && st.error.None? && st.progress == "Completed"
      && st.totalFiles == (if |us| == 0 then 0 else us[|us| - 1].totalFiles)
      && st.processedFiles == st.totalFiles
  {
    var ps := seq(|us|, i requires 0 <= i < |us| => Progressed(us[i]));
    var s0 := Start(slot, now).0.value;
    ProgressKeepsRun(s0, us);
    ReplayAppend(Some(s0), ps, [Finished(result, done)]);
    assert ([StartRequest(now)] + ps + [Finished(result, done)])[1..] == ps + [Finished(result, done)];
  }

  lemma {:induction false} ReplayAppend(slot: Slot, a: seq<Event>, b: seq<Event>)
    ensures Replay(slot, a + b) == Replay(Replay(slot, a), b)
    decreases |a|
  {
    if |a| > 0 {
      assert (a + b)[1..] == a[1..] + b;
      ReplayAppend(Apply(slot, a[0]), a[1..], b);
    } else {
      assert a + b == b;
    }
  }
}
