/** `TranslarrDatabaseInitializer`: the connection check with retries and
    back-off, and the seeding of the default settings. */
module DatabaseInit {
  import opened Wrappers
  import opened Text
  import opened Settings

  datatype DefaultSetting = DefaultSetting(key: string, value: string, description: string)

  /** The nine settings every installation starts with. */
  const Defaults: seq<DefaultSetting> := [
    DefaultSetting("GeminiApiKey", "",
      "Google Gemini API key \U{2013} required for subtitle translation"),
    DefaultSetting("GeminiModel", "gemini-2.5-pro",
      "Name of the Google Gemini model to use"),
    DefaultSetting("Temperature", "0.55",
      "AI model temperature (0.0 - 1.0). Lower value = more deterministic translation"),
    DefaultSetting("SystemPrompt",
      "You are an advanced subtitle translator to polish. "
      + "Translate the provided subtitles. "
      + "Preserve the original formatting, tags, and most importantly, do not change timestamps.",
      "System prompt for the AI specifying how it should translate subtitles"),
    DefaultSetting("PreferredSubsLang", "pl",
      "Target subtitle language code (e.g. 'pl', 'pr', 'uk')"),
    DefaultSetting("RateLimitPerMinute", "5",
      "Maximum number of API requests per minute"),
    DefaultSetting("RateLimitPerDay", "100",
      "Maximum number of API requests per day"),
    DefaultSetting("AutoLibraryScan", "false",
      "Whether to automatically scan the library (requires Worker Service \U{2013} not yet available)"),
    DefaultSetting("AutoTranslate", "false",
      "Whether to automatically translate new subtitles (requires Worker Service \U{2013} not yet available)")
  ]

  predicate DistinctKeys(ds: seq<DefaultSetting>) {
    forall i, j :: 0 <= i < j < |ds| ==> ds[i].key != ds[j].key
  }

  /** The default set has nine distinct keys, among them the language and
      the two rate limits the services read. */
  lemma DefaultsFacts()
    ensures |Defaults| == 9 && DistinctKeys(Defaults)
    ensures Defaults[4] == DefaultSetting("PreferredSubsLang", "pl", Defaults[4].description)
    ensures Defaults[5].key == "RateLimitPerMinute" && Defaults[5].value == "5"
    ensures Defaults[6].key == "RateLimitPerDay" && Defaults[6].value == "100"
  {
  }

  /** The setting seeding writes for a default. */
  function Seeded(d: DefaultSetting, now: int): AppSetting {
    AppSetting(d.key, d.value, Some(d.description), now)
  }

  /** The new settings for the defaults whose key the table lacks, in the
      order of the defaults. Each key is looked up in the stored table (the
      additions are not saved until the end). */
  function Missing(s: seq<AppSetting>, ds: seq<DefaultSetting>, now: int): (m: seq<AppSetting>)
    ensures |m| <= |ds|
    ensures forall x :: x in m ==> exists j :: 0 <= j < |ds| && x == Seeded(ds[j], now) && !HasKey(s, ds[j].key)
    ensures forall j :: 0 <= j < |ds| && !HasKey(s, ds[j].key) ==> Seeded(ds[j], now) in m
    ensures forall x :: x in m ==> !HasKey(s, x.key)
  {
    if |ds| == 0 then []
    else
      var rest := Missing(s, ds[1..], now);
      if HasKey(s, ds[0].key) then rest else [Seeded(ds[0], now)] + rest
  }

  /** Seeding with a list of defaults: adds a setting for every default key
      that is missing and saves only when something was added. Returns the
      table and the number added. */
  function SeedWith(s: seq<AppSetting>, ds: seq<DefaultSetting>, now: int): (r: (seq<AppSetting>, nat))
    ensures |r.0| == |s| + r.1 && r.0[..|s|] == s
    ensures r.1 <= |ds|
    ensures forall j :: 0 <= j < |ds| ==> HasKey(r.0, ds[j].key)
    ensures forall i :: |s| <= i < |r.0| ==>
      exists j :: 0 <= j < |ds| && r.0[i] == Seeded(ds[j], now) && !HasKey(s, ds[j].key)
    ensures r.1 == 0 <==> forall j :: 0 <= j < |ds| ==> HasKey(s, ds[j].key)
  {
    var m := Missing(s, ds, now);
    var r := if |m| > 0 then s + m else s;
    SeedCoversDefaults(s, m, ds, now);
    assert |m| > 0 ==> m[0] in m;
    assert forall i :: |s| <= i < |r| ==> r[i] == m[i - |s|] && r[i] in m;
    (r, |m|)
  }

  /** `SeedDefaultSettingsAsync`: seeding with the nine defaults. */
  function SeedDefaultSettings(s: seq<AppSetting>, now: int): (r: (seq<AppSetting>, nat))
  {
    SeedWith(s, Defaults, now)
  }

  lemma SeedCoversDefaults(s: seq<AppSetting>, m: seq<AppSetting>, ds: seq<DefaultSetting>, now: int)
    requires m == Missing(s, ds, now)
    ensures forall j :: 0 <= j < |ds| ==> HasKey(s + m, ds[j].key)
  {
    forall j | 0 <= j < |ds| ensures HasKey(s + m, ds[j].key) {
      if !HasKey(s, ds[j].key) {
        var x := Seeded(ds[j], now);
        var k :| 0 <= k < |m| && m[k] == x;
        assert (s + m)[|s| + k] == x;
      } else {
        var i :| 0 <= i < |s| && s[i].key == ds[j].key;
        assert (s + m)[i] == s[i];
      }
    }
  }

  /** Seeding only ever adds keys the table lacked, each once, so it keeps
      the keys unique. */
  lemma {:induction false} MissingKeysDistinct(s: seq<AppSetting>, ds: seq<DefaultSetting>, now: int)
    requires DistinctKeys(ds)
    ensures UniqueKeys(Missing(s, ds, now))
  {
    if |ds| > 0 {
      var rest := Missing(s, ds[1..], now);
      MissingKeysDistinct(s, ds[1..], now);
      if !HasKey(s, ds[0].key) {
        forall y | y in rest ensures y.key != ds[0].key {
          var j :| 0 <= j < |ds[1..]| && y == Seeded(ds[1..][j], now) && !HasKey(s, ds[1..][j].key);
          assert ds[j + 1].key == y.key;
        }
        ConsUniqueKeys(Seeded(ds[0], now), rest);
      }
    }
  }

  lemma ConsUniqueKeys(x: AppSetting, rest: seq<AppSetting>)
    requires UniqueKeys(rest) && forall y :: y in rest ==> y.key != x.key
    ensures UniqueKeys([x] + rest)
  {
    var m := [x] + rest;
    forall i, j | 0 <= i < j < |m| ensures m[i].key != m[j].key {
      assert m[j] == rest[j - 1] && rest[j - 1] in rest;
      if i > 0 {
        assert m[i] == rest[i - 1];
      }
    }
  }

  lemma SeedKeepsUniqueKeys(s: seq<AppSetting>, now: int)
    requires UniqueKeys(s)
    ensures UniqueKeys(SeedDefaultSettings(s, now).0)
  {
    DefaultsFacts();
    SeedWithKeepsUniqueKeys(s, Defaults, now);
  }

  lemma SeedWithKeepsUniqueKeys(s: seq<AppSetting>, ds: seq<DefaultSetting>, now: int)
    requires UniqueKeys(s) && DistinctKeys(ds)
    ensures UniqueKeys(SeedWith(s, ds, now).0)
  {
    var m := Missing(s, ds, now);
    MissingKeysDistinct(s, ds, now);
    var r := s + m;
    forall i, j | 0 <= i < j < |r| ensures r[i].key != r[j].key {
      if j >= |s| {
        assert r[j] == m[j - |s|];
        if i < |s| {
          assert r[j] in m;
        }
      }
    }
  }

  /** A second seeding run finds every default key and adds nothing. */
  lemma SeedTwiceAddsNothing(s: seq<AppSetting>, now: int, later: int)
    ensures var first := SeedDefaultSettings(s, now).0;
      SeedDefaultSettings(first, later) == (first, 0)
  {
    var first := SeedWith(s, Defaults, now).0;
    var second := SeedWith(first, Defaults, later);
    assert second.1 == 0;
    assert second.0 == second.0[..|first|];
  }

  /** Seeding never changes a setting that was already stored. */
  lemma SeedKeepsStoredValues(s: seq<AppSetting>, now: int, key: string)
    requires HasKey(s, key)
    ensures GetSetting(SeedDefaultSettings(s, now).0, key) == GetSetting(s, key)
  {
    var r := SeedDefaultSettings(s, now).0;
    var k := IndexOfKey(s, key);
    assert forall i :: 0 <= i < |s| ==> r[i] == s[i];
    assert IndexOfKey(r, key) == k by {
      IndexOfKeyPrefix(s, r[|s|..], key);
      assert s + r[|s|..] == r;
    }
  }

  lemma {:induction false} IndexOfKeyPrefix(s: seq<AppSetting>, t: seq<AppSetting>, key: string)
    requires HasKey(s, key)
    ensures IndexOfKey(s + t, key) == IndexOfKey(s, key)
  {
    if s[0].key != key {
      assert (s + t)[1..] == s[1..] + t;
      var i :| 0 <= i < |s| && s[i].key == key;
      assert s[1..][i - 1].key == key;
      IndexOfKeyPrefix(s[1..], t, key);
    }
  }

  // ---------------------------------------------------------------------
  // Connection check

  /** `CheckConnectionAsync`: up to `maxRetries` attempts, returning on the
      first that connects; a failed attempt `a` other than the last is
      followed by a pause of `delayMs * a` milliseconds. `canConnect(a)` is
      the outcome of attempt `a`: `Some(b)` for the answer `b` of
      `CanConnectAsync`, `None` when it threw (treated like `false`). Returns
      the connecting attempt and the pauses taken. */
  method CheckConnection(canConnect: int -> Option<bool>, maxRetries: int, delayMs: int)
    returns (r: Result<int, string>, delays: seq<int>)
    ensures r.Ok? ==>
      && 1 <= r.value <= maxRetries && canConnect(r.value) == Some(true)
      && (forall a :: 1 <= a < r.value ==> canConnect(a) != Some(true))
      && |delays| == r.value - 1
    ensures r.Err? ==>
      && (forall a :: 1 <= a <= maxRetries ==> canConnect(a) != Some(true))
      && r.error == "Unable to connect to database after " + IntToString(maxRetries) + " attempts"
      && |delays| == (if maxRetries >= 1 then maxRetries - 1 else 0)
    ensures forall k :: 0 <= k < |delays| ==> delays[k] == delayMs * (k + 1)
  {
    delays := [];
    var attempt := 1;
    while attempt <= maxRetries
      invariant 1 <= attempt
      invariant maxRetries >= 1 ==> attempt <= maxRetries + 1
      invariant forall a :: 1 <= a < attempt ==> canConnect(a) != Some(true)
      invariant |delays| == if attempt <= maxRetries then attempt - 1 else if maxRetries >= 1 then maxRetries - 1 else 0
      invariant forall k :: 0 <= k < |delays| ==> delays[k] == delayMs * (k + 1)
    {
      if canConnect(attempt) == Some(true) {
        return Ok(attempt), delays;
      }
      if attempt < maxRetries {
        delays := delays + [delayMs * attempt];
      }
      attempt := attempt + 1;
    }
    r := Err("Unable to connect to database after " + IntToString(maxRetries) + " attempts");
  }

  /** `InitializeAsync`: the connection check with its defaults (three
      attempts, one second apart times the attempt), then the migrations
      (not modelled), then the seeding. A failed check fails the start-up and
      leaves the settings alone. */
  method Initialize(canConnect: int -> Option<bool>, s: seq<AppSetting>, now: int)
    returns (r: Result<seq<AppSetting>, string>)
    ensures r.Ok? <==> exists a :: 1 <= a <= 3 && canConnect(a) == Some(true)
    ensures r.Ok? ==> r.value == SeedDefaultSettings(s, now).0
    ensures r.Err? ==> r.error == "Unable to connect to database after 3 attempts"
  {
    var check, _ := CheckConnection(canConnect, 3, 1000);
    if check.Err? {
      assert IntToString(3) == "3";
      return Err(check.error);
    }
    r := Ok(SeedDefaultSettings(s, now).0);
  }
}
