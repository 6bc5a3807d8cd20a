/** The `app_settings` table and `SettingsService`: string values under
    unique string keys, read by key, updated or inserted by key, and listed. */
module Settings {
  import opened Wrappers

  /** One setting. Timestamps are integer seconds (UTC); the database id is
      not modelled, settings are addressed by key. */
  datatype AppSetting = AppSetting(
    key: string,
    value: string,
    description: Option<string>,
    updatedAt: int)

  /** No two settings share a key (the unique index on Key). */
  predicate UniqueKeys(s: seq<AppSetting>) {
    forall i, j :: 0 <= i < j < |s| ==> s[i].key != s[j].key
  }

  predicate HasKey(s: seq<AppSetting>, key: string) {
    exists i :: 0 <= i < |s| && s[i].key == key
  }

  /** The position of the first setting with the key (ordinal comparison),
      or -1. */
  function IndexOfKey(s: seq<AppSetting>, key: string): (k: int)
    ensures -1 <= k < |s|
    ensures k >= 0 ==> s[k].key == key
    ensures forall j :: 0 <= j < |s| && (k < 0 || j < k) ==> s[j].key != key
  {
    if |s| == 0 then -1
    else if s[0].key == key then 0
    else
      var k := IndexOfKey(s[1..], key);
      if k < 0 then -1 else k + 1
  }

  /** `AppSettingsRepository.GetByKeyAsync`: the first setting with exactly
      this key, or null. */
  function GetByKey(s: seq<AppSetting>, key: string): (r: Option<AppSetting>)
    ensures r.Some? <==> HasKey(s, key)
    ensures r.Some? ==> r.value in s && r.value.key == key
  {
    var k := IndexOfKey(s, key);
    if k < 0 then None else Some(s[k])
  }

  /** `GetSettingAsync`: the value stored under the key, or null when the key
      is absent; with unique keys it is the value of the one setting that
      has the key. */
  function GetSetting(s: seq<AppSetting>, key: string): (r: Option<string>)
    ensures r.None? <==> !HasKey(s, key)
    ensures r.Some? ==> exists i :: 0 <= i < |s| && s[i].key == key && s[i].value == r.value
    ensures UniqueKeys(s) && r.Some? ==>
      forall i :: 0 <= i < |s| && s[i].key == key ==> s[i].value == r.value
  {
    match GetByKey(s, key)
    case Some(setting) => Some(setting.value)
    case None => None
  }

  /** `UpdateSettingAsync`: an existing key gets the new value and update
      time and keeps its description; a missing key is added as a new
      setting without a description. */
  function UpdateSetting(s: seq<AppSetting>, key: string, value: string, now: int): (r: seq<AppSetting>)
    ensures HasKey(s, key) ==>
      && |r| == |s|
      && (forall i :: 0 <= i < |s| && s[i].key != key ==> r[i] == s[i])
      && (forall i :: 0 <= i < |s| && s[i].key == key && (forall j :: 0 <= j < i ==> s[j].key != key) ==>
            r[i] == s[i].(value := value, updatedAt := now))
    ensures !HasKey(s, key) ==> r == s + [AppSetting(key, value, None, now)]
    ensures UniqueKeys(s) ==> UniqueKeys(r)
  {
    var k := IndexOfKey(s, key);
    if k >= 0 then s[k := s[k].(value := value, updatedAt := now)]
    else s + [AppSetting(key, value, None, now)]
  }

  /** Reading a key back after updating it yields the new value, and every
      other key keeps its value. */
  lemma GetAfterUpdate(s: seq<AppSetting>, key: string, value: string, now: int, other: string)
    ensures GetSetting(UpdateSetting(s, key, value, now), key) == Some(value)
    ensures other != key ==>
      GetSetting(UpdateSetting(s, key, value, now), other) == GetSetting(s, other)
  {
    var r := UpdateSetting(s, key, value, now);
    var k := IndexOfKey(s, key);
    if k >= 0 {
      assert IndexOfKey(r, key) == k;
      if other != key {
        var j := IndexOfKey(s, other);
        assert IndexOfKey(r, other) == j;
      }
    } else {
      assert r[|s|].key == key;
      assert IndexOfKey(r, key) == |s|;
      if other != key {
        var j := IndexOfKey(s, other);
        assert forall i :: 0 <= i < |s| ==> r[i] == s[i];
        if j < 0 {
          assert IndexOfKey(r, other) == -1;
        } else {
          assert IndexOfKey(r, other) == j;
        }
      }
    }
  }

  /** Writing the same value twice is the same as writing it once. */
  lemma UpdateIdempotent(s: seq<AppSetting>, key: string, value: string, now: int)
    ensures UpdateSetting(UpdateSetting(s, key, value, now), key, value, now) == UpdateSetting(s, key, value, now)
  {
    var r := UpdateSetting(s, key, value, now);
    var k := IndexOfKey(s, key);
    if k >= 0 {
      assert IndexOfKey(r, key) == k;
    } else {
      assert r[|s|].key == key;
      assert IndexOfKey(r, key) == |s|;
    }
  }

  /** `GetAllSettingsAsync`: one copy of every stored setting, field for
      field, in table order. */
  function GetAllSettings(s: seq<AppSetting>): (r: seq<AppSetting>)
    ensures |r| == |s|
    ensures forall i :: 0 <= i < |s| ==>
      r[i].key == s[i].key && r[i].value == s[i].value
      && r[i].description == s[i].description && r[i].updatedAt == s[i].updatedAt
  {
    seq(|s|, i requires 0 <= i < |s| => AppSetting(s[i].key, s[i].value, s[i].description, s[i].updatedAt))
  }
}
