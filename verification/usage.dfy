/** The `api_usage` log (`ApiUsageRepository`) and the rate limiter built on
    it (`ApiUsageService`): every request to a model is appended to the log,
    and a request may be made while today's count and the last minute's
    count of that model stay below the two ceilings in the settings. */
module Usage {
  import opened Wrappers
  import opened Text
  import opened Lists
  import opened Settings

  /** `ApiUsageDto`: one request to a model at an instant, in integer
      seconds (UTC). The database id is not modelled. */
  datatype UsageRecord = UsageRecord(model: string, date: int)

  const SecondsPerMinute: int := 60
  const SecondsPerDay: int := 86400

  /** `DateTime.UtcNow.Date`: the UTC midnight that starts the day of
      `now`. */
  function StartOfDay(now: int): (d: int)
    ensures d <= now < d + SecondsPerDay
    ensures d % SecondsPerDay == 0
  {
    now - now % SecondsPerDay
  }

  /** `AddAsync`: the record is appended; nothing stored changes. */
  function AddUsage(log: seq<UsageRecord>, u: UsageRecord): (r: seq<UsageRecord>)
    ensures |r| == |log| + 1 && r[..|log|] == log && r[|log|] == u
  {
    log + [u]
  }

  /** The model filter of `GetByDateRangeAsync`: a null or empty model
      selects every model. */
  predicate ModelMatches(model: Option<string>, u: UsageRecord) {
    model.None? || model.value == "" || u.model == model.value
  }

  function InRange(from: int, to: int, model: Option<string>): UsageRecord -> bool {
    (u: UsageRecord) => from <= u.date <= to && ModelMatches(model, u)
  }

  /** `GetByDateRangeAsync`: the records dated from `from` to `to`, both
      included, of the model when one is given. */
  function GetByDateRange(log: seq<UsageRecord>, from: int, to: int, model: Option<string>): (r: seq<UsageRecord>)
    ensures forall u :: u in r <==> u in log && from <= u.date <= to && ModelMatches(model, u)
    ensures |r| <= |log|
  {
    Filter(log, InRange(from, to, model))
  }

  /** `GetTodayAsync`: the inclusive range from today's midnight to the
      next one. */
  function GetToday(log: seq<UsageRecord>, now: int, model: Option<string>): (r: seq<UsageRecord>)
    ensures forall u :: u in r <==>
      (u in log && ModelMatches(model, u) && StartOfDay(now) <= u.date <= StartOfDay(now) + SecondsPerDay)
  {
    GetByDateRange(log, StartOfDay(now), StartOfDay(now) + SecondsPerDay, model)
  }

  function IsToday(now: int, model: string): UsageRecord -> bool {
    (u: UsageRecord) => u.model == model && StartOfDay(now) <= u.date < StartOfDay(now) + SecondsPerDay
  }

  function IsLastMinute(now: int, model: string): UsageRecord -> bool {
    (u: UsageRecord) => u.model == model && u.date >= now - SecondsPerMinute
  }

  /** `GetTodayCountForModelAsync`: the model's records in the half-open
      day from midnight to the next midnight. */
  function TodayCount(log: seq<UsageRecord>, now: int, model: string): (n: nat)
    ensures n <= |log|
  {
    CountWhere(log, IsToday(now, model))
  }

  /** `GetLastMinuteCountForModelAsync`: the model's records dated a minute
      ago or later, with no upper bound. */
  function LastMinuteCount(log: seq<UsageRecord>, now: int, model: string): (n: nat)
    ensures n <= |log|
  {
    CountWhere(log, IsLastMinute(now, model))
  }

  /** The message `GetIntSettingAsync` throws with; a null value
      interpolates as empty text. */
  function InvalidSettingMessage(key: string, value: Option<string>): string {
    "Invalid value for setting " + key + ", value: " + value.GetOr("")
  }

  /** `GetIntSettingAsync`: the setting parsed as a 32-bit integer; a
      missing or malformed value is an error, never a default. */
  function GetIntSetting(settings: seq<AppSetting>, key: string): (r: Result<int, string>)
    ensures r.Ok? <==> TryParseInt32(GetSetting(settings, key)).Some?
    ensures r.Ok? ==> Int32Min <= r.value <= Int32Max && HasKey(settings, key)
    ensures r.Err? ==> r.error == InvalidSettingMessage(key, GetSetting(settings, key))
    ensures !HasKey(settings, key) ==> r.Err?
  {
    var value := GetSetting(settings, key);
    match TryParseInt32(value)
    case Some(v) => Ok(v)
    case None => Err(InvalidSettingMessage(key, value))
  }

  /** `CanMakeRequestAsync`: both ceilings are read from the settings on
      every call (the per-minute one first, so its error wins); the request
      is allowed when today's count is below the daily ceiling and the last
      minute's count below the per-minute one. */
  function CanMakeRequest(settings: seq<AppSetting>, log: seq<UsageRecord>, now: int, model: string): (r: Result<bool, string>)
    ensures r.Ok? <==> GetIntSetting(settings, "RateLimitPerMinute").Ok? && GetIntSetting(settings, "RateLimitPerDay").Ok?
    ensures r.Ok? ==> (r.value <==>
      TodayCount(log, now, model) < GetIntSetting(settings, "RateLimitPerDay").value
      && LastMinuteCount(log, now, model) < GetIntSetting(settings, "RateLimitPerMinute").value)
    ensures GetIntSetting(settings, "RateLimitPerMinute").Err? ==> r == Err(GetIntSetting(settings, "RateLimitPerMinute").error)
    ensures GetIntSetting(settings, "RateLimitPerMinute").Ok? && GetIntSetting(settings, "RateLimitPerDay").Err? ==>
      r == Err(GetIntSetting(settings, "RateLimitPerDay").error)
    ensures (r.Ok? && (GetIntSetting(settings, "RateLimitPerDay").value <= 0
      || GetIntSetting(settings, "RateLimitPerMinute").value <= 0)) ==> r == Ok(false)
  {
    match GetIntSetting(settings, "RateLimitPerMinute")
    case Err(e) => Err(e)
    case Ok(perMinute) =>
      match GetIntSetting(settings, "RateLimitPerDay")
      case Err(e) => Err(e)
      case Ok(perDay) =>
        Ok(TodayCount(log, now, model) < perDay && LastMinuteCount(log, now, model) < perMinute)
  }

  // ---------------------------------------------------------------------
  // Properties of the limiter

  /** At a fixed instant, recording a request can turn an allowance into a
      refusal but never a refusal into an allowance; a request of another
      model changes nothing. */
  lemma RecordingNeverAllows(settings: seq<AppSetting>, log: seq<UsageRecord>, now: int, model: string, u: UsageRecord)
    ensures CanMakeRequest(settings, AddUsage(log, u), now, model) == Ok(true) ==>
      CanMakeRequest(settings, log, now, model) == Ok(true)
    ensures u.model != model ==>
      CanMakeRequest(settings, AddUsage(log, u), now, model) == CanMakeRequest(settings, log, now, model)
  {
    CountAfterAdd(log, u, IsToday(now, model));
    CountAfterAdd(log, u, IsLastMinute(now, model));
  }

  /** Appending a record adds one to every count that selects it and
      nothing to the others. */
  lemma CountAfterAdd(log: seq<UsageRecord>, u: UsageRecord, p: UsageRecord -> bool)
    ensures CountWhere(AddUsage(log, u), p) == CountWhere(log, p) + (if p(u) then 1 else 0)
  {
    CountWhereAppend(log, [u], p);
  }

  /** A request recorded with a date after `now` still counts against the
      last minute: the window has no upper end. */
  lemma FutureRecordCountsThisMinute(log: seq<UsageRecord>, now: int, model: string, later: int)
    requires later > now
    ensures LastMinuteCount(AddUsage(log, UsageRecord(model, later)), now, model) == LastMinuteCount(log, now, model) + 1
  {
    CountAfterAdd(log, UsageRecord(model, later), IsLastMinute(now, model));
  }

  /** `GetTodayAsync` returns, besides the records the daily count sees,
      exactly the model's records dated at the next midnight. */
  lemma TodayListVsCount(log: seq<UsageRecord>, now: int, model: string)
    requires model != ""
    ensures |GetToday(log, now, Some(model))| ==
      TodayCount(log, now, model)
      + CountWhere(log, (u: UsageRecord) => u.model == model && u.date == StartOfDay(now) + SecondsPerDay)
  {
    var d := StartOfDay(now);
    CountWhereSplit(log, InRange(d, d + SecondsPerDay, Some(model)), IsToday(now, model),
      (u: UsageRecord) => u.model == model && u.date == d + SecondsPerDay);
  }

  /** A ceiling written with `UpdateSettingAsync(key, n.ToString())` reads
      back as `n`. */
  lemma CeilingRoundTrip(settings: seq<AppSetting>, key: string, n: int, now: int)
    requires Int32Min <= n <= Int32Max
    ensures GetIntSetting(UpdateSetting(settings, key, IntToString(n), now), key) == Ok(n)
  {
    GetAfterUpdate(settings, key, IntToString(n), now, key);
    IntToStringRoundTrip(n);
  }
}
