/** `MediaScannerService`: a library scan classifies the video files under the
    media root by series and season, removes the entries whose file is gone,
    and then inserts an entry for every new file or refreshes the entry of a
    known one. */
module Scanner {
  import opened Wrappers
  import opened Text
  import opened Paths
  import opened Lists
  import opened Entries
  import opened Settings
  import W = WatchConfigs

  // ---------------------------------------------------------------------
  // Classification

  /** The extensions (lower case) of the files the scanner picks up. */
  const VideoExtensions: seq<string> := [".mkv", ".mp4", ".avi", ".mov", ".m4v", ".webm", ".flv"]

  /** The series and season of a file with too few folders above it. */
  const Unknown: string := "Unknown"

  predicate IsVideo(path: string) {
    Lower(Extension(path)) in VideoExtensions
  }

  /** Series and season from the segments of a path relative to the root.
      With three or more segments the folder holding the file is the season
      and the one above it the series; with two the single folder is both;
      a file directly in the root is "Unknown" for both. */
  function Classify(parts: seq<string>): (r: (string, string))
    requires |parts| >= 1
    ensures |parts| >= 3 ==> r == (parts[|parts| - 3], parts[|parts| - 2])
    ensures |parts| == 2 ==> r == (parts[0], parts[0])
    ensures |parts| == 1 ==> r == (Unknown, Unknown)
  {
    if |parts| < 3 then
      var series := if |parts| >= 2 then parts[0] else Unknown;
      var season := if |parts| >= 2 then parts[|parts| - 2] else Unknown;
      (series, season)
    else
      (parts[|parts| - 3], parts[|parts| - 2])
  }

  function ClassifyPath(relative: string): (string, string) {
    Classify(Split(relative, Separator))
  }

  /** Folders above the series folder (a category such as "Anime") do not
      change the classification. */
  lemma ClassifyIgnoresLeadingFolders(prefix: seq<string>, parts: seq<string>)
    requires |parts| >= 3
    ensures Classify(prefix + parts) == Classify(parts)
  {
    var all := prefix + parts;
    assert all[|all| - 3] == parts[|parts| - 3] && all[|all| - 2] == parts[|parts| - 2];
  }

  /** A file stored as `series/season/name` is classified under that series
      and season. */
  lemma ClassifySeriesSeasonFile(series: string, season: string, name: string)
    requires Separator !in series && Separator !in season && Separator !in name
    ensures ClassifyPath(Join([series, season, name], [Separator])) == (series, season)
  {
    SplitJoin([series, season, name], Separator);
  }

  // ---------------------------------------------------------------------
  // Walking the file system

  /** A video file found under the media root: its full path, its file name
      and its classification. */
  datatype VideoFile = VideoFile(filePath: string, fileName: string, series: string, season: string)

  function MakeVideoFile(root: string, relative: string): (v: VideoFile)
    ensures v.filePath == Combine(root, relative) && v.fileName == FileName(v.filePath)
    ensures (v.series, v.season) == ClassifyPath(relative)
  {
    var path := Combine(root, relative);
    var (series, season) := ClassifyPath(relative);
    VideoFile(path, FileName(path), series, season)
  }

  /** The video files among the listed paths (relative to the root), in
      listing order. */
  function VideoFiles(root: string, listing: seq<string>): (r: seq<VideoFile>)
    ensures |r| <= |listing|
  {
    FilterMap(listing, KeepVideo(root), BuildVideo(root))
  }

  /** Whether a listed path names a video file. */
  function KeepVideo(root: string): string -> bool {
    p => IsVideo(Combine(root, p))
  }

  /** The video file of a listed path. */
  function BuildVideo(root: string): string -> VideoFile {
    p => MakeVideoFile(root, p)
  }

  /** The scanned files are exactly the files built from the listed paths
      that have a video extension. */
  lemma VideoFilesMembers(root: string, listing: seq<string>)
    ensures forall v :: v in VideoFiles(root, listing) <==>
      exists p :: p in listing && IsVideo(Combine(root, p)) && v == MakeVideoFile(root, p)
  {
    forall v ensures v in VideoFiles(root, listing) <==>
      exists p :: p in listing && IsVideo(Combine(root, p)) && v == MakeVideoFile(root, p)
    {
      VideoFileMember(root, listing, v);
    }
  }

  /** One file at a time: `v` is scanned exactly when some listed path with
      a video extension builds it. */
  lemma VideoFileMember(root: string, listing: seq<string>, v: VideoFile)
    ensures v in VideoFiles(root, listing) <==>
      exists p :: p in listing && IsVideo(Combine(root, p)) && v == MakeVideoFile(root, p)
  {
    if v in VideoFiles(root, listing) {
      ScannedFromListing(root, listing, v);
    }
    if exists p :: p in listing && IsVideo(Combine(root, p)) && v == MakeVideoFile(root, p) {
      var p :| p in listing && IsVideo(Combine(root, p)) && v == MakeVideoFile(root, p);
      ListedVideoScanned(root, listing, p);
    }
  }

  /** Every scanned file was built from a listed path with a video extension. */
  lemma ScannedFromListing(root: string, listing: seq<string>, v: VideoFile)
    requires v in VideoFiles(root, listing)
    ensures exists p :: p in listing && IsVideo(Combine(root, p)) && v == MakeVideoFile(root, p)
  {
    FilterMapMembers(listing, KeepVideo(root), BuildVideo(root), v);
    var p :| p in listing && KeepVideo(root)(p) && v == BuildVideo(root)(p);
    assert IsVideo(Combine(root, p)) && v == MakeVideoFile(root, p);
  }

  /** Every listed path with a video extension is scanned. */
  lemma ListedVideoScanned(root: string, listing: seq<string>, p: string)
    requires p in listing && IsVideo(Combine(root, p))
    ensures MakeVideoFile(root, p) in VideoFiles(root, listing)
  {
    var v := MakeVideoFile(root, p);
    FilterMapMembers(listing, KeepVideo(root), BuildVideo(root), v);
    assert KeepVideo(root)(p) && v == BuildVideo(root)(p);
  }

  /** `ScanFilesystemAsync`: every file under an existing root whose
      extension, lower-cased, is a video extension. `listing` is the
      recursive directory listing, relative to the root. */
  function ScanFilesystem(root: string, rootExists: bool, listing: seq<string>): (r: Result<seq<VideoFile>, string>)
    ensures r.Err? <==> !rootExists
    ensures r.Err? ==> r.error == "Media root path does not exist: " + root
  {
    if !rootExists then Err("Media root path does not exist: " + root)
    else Ok(VideoFiles(root, listing))
  }

  /** Under an existing root the scan finds exactly the listed paths whose
      extension, lower-cased, is a video extension, each built into its
      video file. */
  lemma ScanFilesystemFinds(root: string, listing: seq<string>)
    ensures ScanFilesystem(root, true, listing).Ok?
    ensures forall v :: v in ScanFilesystem(root, true, listing).value <==>
      exists p :: p in listing && IsVideo(Combine(root, p)) && v == MakeVideoFile(root, p)
  {
    VideoFilesMembers(root, listing);
  }

  /** Two files with the same path are the same file. */
  predicate Consistent(files: seq<VideoFile>) {
    forall i, j :: 0 <= i < |files| && 0 <= j < |files| && files[i].filePath == files[j].filePath ==>
      files[i] == files[j]
  }

  /** A path determines the relative path it was built from, so the scanned
      files are consistent. */
  lemma VideoFilesConsistent(root: string, listing: seq<string>)
    ensures Consistent(VideoFiles(root, listing))
  {
    var r := VideoFiles(root, listing);
    forall i, j | 0 <= i < |r| && 0 <= j < |r| && r[i].filePath == r[j].filePath
      ensures r[i] == r[j]
    {
      FilterMapMembers(listing, KeepVideo(root), BuildVideo(root), r[i]);
      FilterMapMembers(listing, KeepVideo(root), BuildVideo(root), r[j]);
      var a :| a in listing && r[i] == BuildVideo(root)(a);
      var b :| b in listing && r[j] == BuildVideo(root)(b);
      SamePathSameFile(root, a, b);
    }
  }

  lemma SamePathSameFile(root: string, a: string, b: string)
    requires MakeVideoFile(root, a).filePath == MakeVideoFile(root, b).filePath
    ensures MakeVideoFile(root, a) == MakeVideoFile(root, b)
  {
    CombineInjective(root, a, b);
  }

  lemma CombineInjective(dir: string, a: string, b: string)
    requires Combine(dir, a) == Combine(dir, b)
    ensures a == b
  {
    var n := |Combine(dir, a)| - |a|;
    assert Combine(dir, a)[n..] == a;
    assert Combine(dir, b)[n..] == b;
  }

  // ---------------------------------------------------------------------
  // Removal pass

  /** Some scanned file has this path, ignoring case. */
  predicate Listed(files: seq<VideoFile>, path: string) {
    exists i :: 0 <= i < |files| && EqualsIgnoreCase(files[i].filePath, path)
  }

  /** The entries the removal pass targets. */
  function Stale(files: seq<VideoFile>): Entry -> bool {
    (e: Entry) => !Listed(files, e.filePath)
  }

  const CleanupWarning: string := "Some database entries could not be removed during cleanup."

  datatype Removal = Removal(table: EntryTable, removed: nat, errors: seq<string>)

  /** `RemoveMissingEntriesAsync`: deletes the entries whose path matches no
      scanned file, ignoring case, and adds their number to the removed
      count; warns when fewer rows went than were targeted. `fault` is the
      message of an exception from the repository, which is reported and
      removes nothing. */
  function RemoveMissingEntries(t: EntryTable, files: seq<VideoFile>, fault: Option<string>): (r: Removal)
    ensures fault.Some? ==> r == Removal(t, 0, ["Failed to remove stale entries: " + fault.value])
    ensures fault.None? ==>
      && r.table.nextId == t.nextId
      && r.removed == |t.rows| - |r.table.rows|
      && r.errors == if r.removed < CountWhere(t.rows, Stale(files)) then [CleanupWarning] else []
    ensures fault.None? && CountWhere(t.rows, Stale(files)) == 0 ==> r == Removal(t, 0, [])
    ensures fault.None? && Valid(t) ==>
      && (forall e :: e in r.table.rows <==> e in t.rows && Listed(files, e.filePath))
      && r.removed == CountWhere(t.rows, Stale(files))
      && r.errors == []
    ensures Valid(t) ==> Valid(r.table)
  {
    match fault
    case Some(msg) => Removal(t, 0, ["Failed to remove stale entries: " + msg])
    case None =>
      var targets := Filter(t.rows, Stale(files));
      if |t.rows| == 0 || |targets| == 0 then
        assert |t.rows| == 0 ==> CountWhere(t.rows, Stale(files)) == 0;
        Removal(t, 0, [])
      else
        var ids := seq(|targets|, i requires 0 <= i < |targets| => targets[i].id);
        var (t', n) := DeleteByIds(t, ids);
        assert Valid(t) ==> Valid(t') by {
          if Valid(t) {
            DeleteByIdsKeepsValid(t, ids);
          }
        }
        StaleIds(t, files, targets, ids);
        Removal(t', n, if n < |targets| then [CleanupWarning] else [])
  }

  /** In a valid table the ids handed to the delete are exactly the ids of
      the stale rows, so the delete removes the stale rows and nothing
      else. */
  lemma StaleIds(t: EntryTable, files: seq<VideoFile>, targets: seq<Entry>, ids: seq<int>)
    requires targets == Filter(t.rows, Stale(files))
    requires ids == seq(|targets|, i requires 0 <= i < |targets| => targets[i].id)
    ensures Valid(t) ==> forall e :: e in t.rows ==> (e.id in PositiveIds(ids) <==> Stale(files)(e))
    ensures Valid(t) ==>
      CountWhere(t.rows, (e: Entry) => e.id in PositiveIds(ids)) == CountWhere(t.rows, Stale(files))
  {
    if Valid(t) {
      forall e | e in t.rows ensures e.id in PositiveIds(ids) <==> Stale(files)(e) {
        if Stale(files)(e) {
          var k :| 0 <= k < |targets| && targets[k] == e;
          assert ids[k] == e.id;
        }
        if e.id in PositiveIds(ids) {
          var k :| 0 <= k < |ids| && ids[k] == e.id;
          assert targets[k] in t.rows;
          SameIdSameRow(t, e, targets[k]);
        }
      }
      CountWhereSame(t.rows, (e: Entry) => e.id in PositiveIds(ids), Stale(files));
    }
  }

  lemma SameIdSameRow(t: EntryTable, a: Entry, b: Entry)
    requires Valid(t) && a in t.rows && b in t.rows && a.id == b.id
    ensures a == b
  {
    var i :| 0 <= i < |t.rows| && t.rows[i] == a;
    var j :| 0 <= j < |t.rows| && t.rows[j] == b;
  }

  // ---------------------------------------------------------------------
  // Analysis pass

  /** What the analysis consults besides the table: the watch
      configurations, the file system (does a file exist), the repository's
      failures (the message of the exception a file's lookup or save throws,
      if any) and the clock. */
  datatype Env = Env(
    configs: seq<W.WatchConfig>,
    fileExists: string -> bool,
    fault: string -> Option<string>,
    now: int)

  /** Where a video's subtitle in language `lang` lives: beside the video,
      named `<base>.<lang>.srt`. */
  function SubtitlePath(v: VideoFile, lang: string): string {
    Combine(DirectoryName(v.filePath), FileNameWithoutExtension(v.fileName) + "." + lang + ".srt")
  }

  /** The entry inserted for a new file (its id is assigned on insert). */
  function NewEntry(v: VideoFile, wanted: bool, has: bool, now: int): (e: Entry)
    ensures e.filePath == v.filePath && e.fileName == v.fileName
    ensures e.series == v.series && e.season == v.season
    ensures !e.isProcessed && !e.forceProcess && e.isWanted == wanted && e.alreadyHad == has
    ensures e.lastScanned == now && e.processedAt.None? && e.errorMessage.None?
  {
    Entry(0, v.series, v.season, v.fileName, v.filePath, false, wanted, has, false, now, None, None)
  }

  /** The refresh of a known entry: the subtitle flag and the scan time are
      set; an entry whose subtitle vanished is reset to unprocessed with its
      error cleared; nothing else changes. */
  function Refresh(e: Entry, has: bool, now: int): (r: Entry)
    ensures r.alreadyHad == has && r.lastScanned == now
    ensures e.alreadyHad && !has ==> !r.isProcessed && r.errorMessage.None?
    ensures !(e.alreadyHad && !has) ==> r.isProcessed == e.isProcessed && r.errorMessage == e.errorMessage
    ensures r.(alreadyHad := e.alreadyHad, lastScanned := e.lastScanned,
               isProcessed := e.isProcessed, errorMessage := e.errorMessage) == e
  {
    var lost := e.alreadyHad && !has;
    e.(alreadyHad := has, lastScanned := now,
       isProcessed := if lost then false else e.isProcessed,
       errorMessage := if lost then None else e.errorMessage)
  }

  /** Refreshing twice with the same observation is refreshing once. */
  lemma RefreshIdempotent(e: Entry, has: bool, now: int)
    ensures Refresh(Refresh(e, has, now), has, now) == Refresh(e, has, now)
  {
  }

  /** The state of the analysis: the table and the counters and error
      messages so far. */
  datatype Pass = Pass(table: EntryTable, newFiles: nat, updatedFiles: nat, errorFiles: nat, errors: seq<string>)

  function Failed(p: Pass, v: VideoFile, msg: string): Pass {
    p.(errorFiles := p.errorFiles + 1, errors := p.errors + ["Error processing " + v.fileName + ": " + msg])
  }

  /** One iteration of `AnalyzeVideoFilesAsync`: look the path up exactly;
      insert a new entry (wanted when the scope is watched) or refresh the
      stored one; an exception is recorded against the file and the scan
      goes on. */
  function AnalyzeFile(p: Pass, env: Env, lang: string, v: VideoFile): (r: Pass)
    ensures r.newFiles + r.updatedFiles + r.errorFiles == p.newFiles + p.updatedFiles + p.errorFiles + 1
    ensures r.newFiles >= p.newFiles && r.updatedFiles >= p.updatedFiles && r.errorFiles >= p.errorFiles
    ensures |r.errors| - |p.errors| == r.errorFiles - p.errorFiles && r.errors[..|p.errors|] == p.errors
    ensures env.fault(v.filePath).Some? ==> r == Failed(p, v, env.fault(v.filePath).value)
    ensures r.errorFiles > p.errorFiles ==> r.table == p.table
    ensures r.newFiles > p.newFiles ==> !HasPath(p.table, v.filePath)
    ensures r.updatedFiles > p.updatedFiles ==> HasPath(p.table, v.filePath)
  {
    match env.fault(v.filePath)
    case Some(msg) => Failed(p, v, msg)
    case None =>
      var has := env.fileExists(SubtitlePath(v, lang));
      match GetByFilePath(p.table, v.filePath)
      case None =>
        var e := NewEntry(v, W.IsWatched(env.configs, v.series, v.season), has, env.now);
        (match Add(p.table, e)
         case Ok(t) => p.(table := t, newFiles := p.newFiles + 1)
         case Err(msg) => Failed(p, v, msg))
      case Some(stored) =>
        match Update(p.table, Refresh(stored, has, env.now))
        case Ok(t) => p.(table := t, updatedFiles := p.updatedFiles + 1)
        case Err(msg) => Failed(p, v, msg)
  }

  /** `AnalyzeVideoFilesAsync`: the files in order, starting from `t`. Every
      file is counted exactly once and every failure leaves one message. */
  function AnalyzeVideoFiles(t: EntryTable, env: Env, lang: string, files: seq<VideoFile>): (p: Pass)
    ensures p.newFiles + p.updatedFiles + p.errorFiles == |files|
    ensures |p.errors| == p.errorFiles
    decreases |files|
  {
    if |files| == 0 then Pass(t, 0, 0, 0, [])
    else AnalyzeFile(AnalyzeVideoFiles(t, env, lang, files[..|files| - 1]), env, lang, files[|files| - 1])
  }

  // ---------------------------------------------------------------------
  // What one step does to the table

  /** In a valid table, the row holding a path is the one the exact lookup
      finds. */
  lemma LookupUnique(t: EntryTable, path: string, e: Entry)
    requires Valid(t) && e in t.rows && e.filePath == path
    ensures GetByFilePath(t, path) == Some(e)
  {
    var i :| 0 <= i < |t.rows| && t.rows[i] == e;
  }

  /** Two valid tables holding the same rows under a path agree on its
      lookup. */
  lemma LookupSameRows(a: EntryTable, b: EntryTable, path: string)
    requires Valid(a) && Valid(b)
    requires forall e: Entry :: e.filePath == path ==> (e in a.rows <==> e in b.rows)
    ensures GetByFilePath(a, path) == GetByFilePath(b, path)
  {
    match GetByFilePath(a, path)
    case Some(e) => LookupUnique(b, path, e);
    case None =>
      if GetByFilePath(b, path).Some? {
        var e := GetByFilePath(b, path).value;
        LookupUnique(a, path, e);
      }
  }

  /** Inserting a row under a new path keeps the table valid; the new path
      finds the row and every other path finds what it found before. */
  lemma AddView(t: EntryTable, e: Entry, path: string)
    requires Valid(t) && t.nextId > 0 && !HasPath(t, e.filePath)
    ensures Add(t, e).Ok? && Valid(Add(t, e).value) && Add(t, e).value.nextId > 0
    ensures GetByFilePath(Add(t, e).value, e.filePath) == Some(e.(id := t.nextId))
    ensures path != e.filePath ==> GetByFilePath(Add(t, e).value, path) == GetByFilePath(t, path)
  {
    var u := Add(t, e).value;
    var n := e.(id := t.nextId);
    assert u.rows == t.rows + [n];
    assert n in u.rows;
    LookupUnique(u, e.filePath, n);
    if path != e.filePath {
      LookupSameRows(u, t, path);
    }
  }

  /** Writing a row back over the row it came from, keeping its id, path
      and force flag, keeps the table valid; its path finds the new row and
      every other path finds what it found before. */
  lemma UpdateView(t: EntryTable, k: int, x: Entry, path: string)
    requires Valid(t) && 0 <= k < |t.rows|
    requires x.id == t.rows[k].id && x.filePath == t.rows[k].filePath
    requires x.forceProcess == t.rows[k].forceProcess
    ensures Update(t, x).Ok? && Valid(Update(t, x).value) && Update(t, x).value.nextId == t.nextId
    ensures GetByFilePath(Update(t, x).value, x.filePath) == Some(x)
    ensures path != x.filePath ==> GetByFilePath(Update(t, x).value, path) == GetByFilePath(t, path)
  {
    IndexOfOwnId(t, k);
    UpdateKeepingPathSucceeds(t, x);
    var u := Update(t, x).value;
    assert u.rows[k] == x;
    LookupUnique(u, x.filePath, x);
    if path != x.filePath {
      forall e: Entry | e.filePath == path ensures e in u.rows <==> e in t.rows {
        if e in u.rows {
          var i :| 0 <= i < |u.rows| && u.rows[i] == e;
          assert i != k;
        }
        if e in t.rows {
          var i :| 0 <= i < |t.rows| && t.rows[i] == e;
          assert i != k && u.rows[i] == e;
        }
      }
      LookupSameRows(u, t, path);
    }
  }

  /** The entry the analysis leaves for a file, given what the table held
      under its path before (`prior`): a fresh entry for a new path, the
      refreshed entry for a known one. */
  predicate Analyzed(e: Entry, prior: Option<Entry>, v: VideoFile, env: Env, lang: string) {
    var has := env.fileExists(SubtitlePath(v, lang));
    match prior
    case None => e == NewEntry(v, W.IsWatched(env.configs, v.series, v.season), has, env.now).(id := e.id)
    case Some(o) => e == Refresh(o, has, env.now)
  }

  /** On a valid table a step fails only on a repository fault, keeps the
      table valid, changes no lookup but that of its own path, and leaves
      the analysed entry there. */
  lemma StepView(p: Pass, env: Env, lang: string, v: VideoFile, path: string)
    requires Valid(p.table) && p.table.nextId > 0
    ensures var r := AnalyzeFile(p, env, lang, v);
      && Valid(r.table) && r.table.nextId > 0
      && (r.errorFiles > p.errorFiles <==> env.fault(v.filePath).Some?)
      && (path != v.filePath || env.fault(v.filePath).Some? ==>
            GetByFilePath(r.table, path) == GetByFilePath(p.table, path))
      && (env.fault(v.filePath).None? ==>
            && GetByFilePath(r.table, v.filePath).Some?
            && Analyzed(GetByFilePath(r.table, v.filePath).value, GetByFilePath(p.table, v.filePath), v, env, lang))
  {
    var t := p.table;
    if env.fault(v.filePath).None? {
      var has := env.fileExists(SubtitlePath(v, lang));
      match GetByFilePath(t, v.filePath)
      case None =>
        AddView(t, NewEntry(v, W.IsWatched(env.configs, v.series, v.season), has, env.now), path);
      case Some(stored) =>
        var k := IndexOfPath(t.rows, v.filePath);
        UpdateView(t, k, Refresh(stored, has, env.now), path);
    }
  }

  lemma {:induction false} AnalyzeValid(t: EntryTable, env: Env, lang: string, files: seq<VideoFile>)
    requires Valid(t) && t.nextId > 0
    ensures Valid(AnalyzeVideoFiles(t, env, lang, files).table)
    ensures AnalyzeVideoFiles(t, env, lang, files).table.nextId > 0
    decreases |files|
  {
    if |files| > 0 {
      var init := files[..|files| - 1];
      AnalyzeValid(t, env, lang, init);
      StepView(AnalyzeVideoFiles(t, env, lang, init), env, lang, files[|files| - 1], "");
    }
  }

  /** A path no analysed file has (or whose file faults) finds after the
      analysis what it found before. */
  lemma {:induction false} AnalyzeViewOther(t: EntryTable, env: Env, lang: string, files: seq<VideoFile>, path: string)
    requires Valid(t) && t.nextId > 0
    requires (forall j :: 0 <= j < |files| ==> files[j].filePath != path) || env.fault(path).Some?
    ensures GetByFilePath(AnalyzeVideoFiles(t, env, lang, files).table, path) == GetByFilePath(t, path)
    decreases |files|
  {
    if |files| > 0 {
      var init := files[..|files| - 1];
      AnalyzeViewOther(t, env, lang, init, path);
      AnalyzeValid(t, env, lang, init);
      StepView(AnalyzeVideoFiles(t, env, lang, init), env, lang, files[|files| - 1], path);
    }
  }

  /** After the analysis, the path of every file that did not fault holds
      the analysed entry: fresh when the path was new, refreshed when it was
      known. */
  lemma {:induction false} AnalyzeViewFile(t: EntryTable, env: Env, lang: string, files: seq<VideoFile>, j: int)
    requires Valid(t) && t.nextId > 0 && Consistent(files)
    requires 0 <= j < |files| && env.fault(files[j].filePath).None?
    ensures var path := files[j].filePath;
      var view := GetByFilePath(AnalyzeVideoFiles(t, env, lang, files).table, path);
      view.Some? && Analyzed(view.value, GetByFilePath(t, path), files[j], env, lang)
    decreases |files|, 1
  {
    var init := files[..|files| - 1];
    var v := files[|files| - 1];
    var path := files[j].filePath;
    if path != v.filePath {
      ViewFileEarlier(t, env, lang, files, j);
    } else if exists i :: 0 <= i < |init| && init[i].filePath == path {
      var i :| 0 <= i < |init| && init[i].filePath == path;
      ViewFileRepeated(t, env, lang, files, j, i);
    } else {
      ViewFileFirst(t, env, lang, files, j);
    }
  }

  /** The last file has another path: its step leaves the view of `files[j]`
      as the earlier files left it. */
  lemma ViewFileEarlier(t: EntryTable, env: Env, lang: string, files: seq<VideoFile>, j: int)
    requires Valid(t) && t.nextId > 0 && Consistent(files)
    requires 0 <= j < |files| && env.fault(files[j].filePath).None?
    requires files[j].filePath != files[|files| - 1].filePath
    ensures var path := files[j].filePath;
      var view := GetByFilePath(AnalyzeVideoFiles(t, env, lang, files).table, path);
      view.Some? && Analyzed(view.value, GetByFilePath(t, path), files[j], env, lang)
    decreases |files|, 0
  {
    var init := files[..|files| - 1];
    ConsistentPrefix(files);
    assert init[j] == files[j];
    LastKeepsOther(t, env, lang, files, files[j].filePath);
    AnalyzeViewFile(t, env, lang, init, j);
  }

  /** The step of the last file does not change the lookup of another
      path. */
  lemma LastKeepsOther(t: EntryTable, env: Env, lang: string, files: seq<VideoFile>, path: string)
    requires Valid(t) && t.nextId > 0 && |files| > 0 && path != files[|files| - 1].filePath
    ensures GetByFilePath(AnalyzeVideoFiles(t, env, lang, files).table, path)
      == GetByFilePath(AnalyzeVideoFiles(t, env, lang, files[..|files| - 1]).table, path)
  {
    var init := files[..|files| - 1];
    AnalyzeLast(t, env, lang, files);
    AnalyzeValid(t, env, lang, init);
    StepKeepsOther(AnalyzeVideoFiles(t, env, lang, init), env, lang, files[|files| - 1], path);
  }

  /** The analysis of a non-empty list is the step of its last file after
      the analysis of the others. */
  lemma AnalyzeLast(t: EntryTable, env: Env, lang: string, files: seq<VideoFile>)
    requires |files| > 0
    ensures AnalyzeVideoFiles(t, env, lang, files)
      == AnalyzeFile(AnalyzeVideoFiles(t, env, lang, files[..|files| - 1]), env, lang, files[|files| - 1])
  {
  }

  /** A step without a fault leaves the analysed entry at its own path. */
  lemma StepAnalyzes(p: Pass, env: Env, lang: string, v: VideoFile)
    requires Valid(p.table) && p.table.nextId > 0 && env.fault(v.filePath).None?
    ensures var r := AnalyzeFile(p, env, lang, v);
      GetByFilePath(r.table, v.filePath).Some?
      && Analyzed(GetByFilePath(r.table, v.filePath).value, GetByFilePath(p.table, v.filePath), v, env, lang)
  {
    StepView(p, env, lang, v, v.filePath);
  }

  /** A step does not change the lookup of another path. */
  lemma StepKeepsOther(p: Pass, env: Env, lang: string, v: VideoFile, path: string)
    requires Valid(p.table) && p.table.nextId > 0 && path != v.filePath
    ensures GetByFilePath(AnalyzeFile(p, env, lang, v).table, path) == GetByFilePath(p.table, path)
  {
    StepView(p, env, lang, v, path);
  }

  lemma ConsistentPrefix(files: seq<VideoFile>)
    requires |files| > 0 && Consistent(files)
    ensures Consistent(files[..|files| - 1])
  {
  }

  /** The last file repeats the path of an earlier one: it refreshes the
      entry the earlier one left, which changes nothing. */
  lemma ViewFileRepeated(t: EntryTable, env: Env, lang: string, files: seq<VideoFile>, j: int, i: int)
    requires Valid(t) && t.nextId > 0 && Consistent(files)
    requires 0 <= j < |files| && env.fault(files[j].filePath).None?
    requires files[j].filePath == files[|files| - 1].filePath
    requires 0 <= i < |files| - 1 && files[i].filePath == files[j].filePath
    ensures var path := files[j].filePath;
      var view := GetByFilePath(AnalyzeVideoFiles(t, env, lang, files).table, path);
      view.Some? && Analyzed(view.value, GetByFilePath(t, path), files[j], env, lang)
    decreases |files|, 0
  {
    var init := files[..|files| - 1];
    var v := files[|files| - 1];
    var path := v.filePath;
    var q := AnalyzeVideoFiles(t, env, lang, init);
    var p := AnalyzeFile(q, env, lang, v);
    AnalyzeLast(t, env, lang, files);
    assert Consistent(init) && init[i] == v && files[j] == v;
    AnalyzeValid(t, env, lang, init);
    StepView(q, env, lang, v, path);
    AnalyzeViewFile(t, env, lang, init, i);
    Reanalyze(GetByFilePath(q.table, path).value, GetByFilePath(p.table, path).value,
              GetByFilePath(t, path), v, env, lang);
  }

  /** The last file is the first with its path: the earlier files left the
      path as it was, and the step analyses it. */
  lemma ViewFileFirst(t: EntryTable, env: Env, lang: string, files: seq<VideoFile>, j: int)
    requires Valid(t) && t.nextId > 0 && Consistent(files)
    requires 0 <= j < |files| && env.fault(files[j].filePath).None?
    requires files[j].filePath == files[|files| - 1].filePath
    requires forall i :: 0 <= i < |files| - 1 ==> files[i].filePath != files[j].filePath
    ensures var path := files[j].filePath;
      var view := GetByFilePath(AnalyzeVideoFiles(t, env, lang, files).table, path);
      view.Some? && Analyzed(view.value, GetByFilePath(t, path), files[j], env, lang)
  {
    var init := files[..|files| - 1];
    var v := files[|files| - 1];
    var q := AnalyzeVideoFiles(t, env, lang, init);
    AnalyzeLast(t, env, lang, files);
    assert files[j] == v;
    AnalyzeValid(t, env, lang, init);
    StepAnalyzes(q, env, lang, v);
    AnalyzeViewOther(t, env, lang, init, v.filePath);
  }

  /** Analysing a file whose entry is already analysed leaves it as it
      was. */
  lemma Reanalyze(before: Entry, after: Entry, prior: Option<Entry>, v: VideoFile, env: Env, lang: string)
    requires Analyzed(before, prior, v, env, lang)
    requires Analyzed(after, Some(before), v, env, lang)
    ensures Analyzed(after, prior, v, env, lang)
  {
    var has := env.fileExists(SubtitlePath(v, lang));
    assert after == Refresh(before, has, env.now);
    match prior
    case Some(o) => RefreshIdempotent(o, has, env.now);
    case None =>
  }

  /** A file that does not fault counts as failed never, so without faults
      there are no failures. */
  lemma {:induction false} AnalyzeFailures(t: EntryTable, env: Env, lang: string, files: seq<VideoFile>)
    requires Valid(t) && t.nextId > 0
    requires forall j :: 0 <= j < |files| ==> env.fault(files[j].filePath).None?
    ensures AnalyzeVideoFiles(t, env, lang, files).errorFiles == 0
    ensures AnalyzeVideoFiles(t, env, lang, files).errors == []
    decreases |files|
  {
    if |files| > 0 {
      var init := files[..|files| - 1];
      AnalyzeFailures(t, env, lang, init);
      AnalyzeValid(t, env, lang, init);
      StepView(AnalyzeVideoFiles(t, env, lang, init), env, lang, files[|files| - 1], "");
    }
  }

  /** When every file's path is already stored, the analysis inserts
      nothing. */
  lemma {:induction false} AnalyzeKnownFiles(t: EntryTable, env: Env, lang: string, files: seq<VideoFile>)
    requires Valid(t) && t.nextId > 0 && Consistent(files)
    requires forall j :: 0 <= j < |files| ==> HasPath(t, files[j].filePath)
    ensures AnalyzeVideoFiles(t, env, lang, files).newFiles == 0
    decreases |files|
  {
    if |files| > 0 {
      var init := files[..|files| - 1];
      var v := files[|files| - 1];
      assert Consistent(init);
      AnalyzeKnownFiles(t, env, lang, init);
      var q := AnalyzeVideoFiles(t, env, lang, init);
      if env.fault(v.filePath).None? && exists i :: 0 <= i < |init| && init[i].filePath == v.filePath {
        var i :| 0 <= i < |init| && init[i].filePath == v.filePath;
        AnalyzeViewFile(t, env, lang, init, i);
      } else {
        AnalyzeViewOther(t, env, lang, init, v.filePath);
      }
      assert GetByFilePath(q.table, v.filePath).Some?;
    }
  }

  // ---------------------------------------------------------------------
  // The whole scan

  datatype ScanResult = ScanResult(
    newFiles: nat,
    updatedFiles: nat,
    removedFiles: nat,
    errorFiles: nat,
    errors: seq<string>)

  function CriticalError(msg: string): ScanResult {
    ScanResult(0, 0, 0, 0, ["Critical error during scan: " + msg])
  }

  /** `ScanLibraryAsync`: reads the subtitle language, lists the video files,
      runs the removal pass and then the analysis pass. A missing language
      setting or media root ends the scan with one critical error and no
      change. `removalFault` is an exception of the removal pass. */
  function ScanLibrary(t: EntryTable, settings: seq<AppSetting>, env: Env, root: string, rootExists: bool,
                       listing: seq<string>, removalFault: Option<string>): (r: (EntryTable, ScanResult))
    ensures GetSetting(settings, "PreferredSubsLang").None? ==>
      r == (t, CriticalError("PreferredSubsLang setting not found"))
    ensures GetSetting(settings, "PreferredSubsLang").Some? && !rootExists ==>
      r == (t, CriticalError("Media root path does not exist: " + root))
    ensures GetSetting(settings, "PreferredSubsLang").Some? && rootExists ==>
      r.1.newFiles + r.1.updatedFiles + r.1.errorFiles == |VideoFiles(root, listing)|
  {
    match GetSetting(settings, "PreferredSubsLang")
    case None => (t, CriticalError("PreferredSubsLang setting not found"))
    case Some(lang) =>
      match ScanFilesystem(root, rootExists, listing)
      case Err(msg) => (t, CriticalError(msg))
      case Ok(files) => Passes(t, env, lang, files, removalFault)
  }

  /** The removal pass followed by the analysis pass, with the counters of
      both. */
  function Passes(t: EntryTable, env: Env, lang: string, files: seq<VideoFile>, removalFault: Option<string>)
    : (r: (EntryTable, ScanResult))
    ensures r.1.newFiles + r.1.updatedFiles + r.1.errorFiles == |files|
  {
    var rm := RemoveMissingEntries(t, files, removalFault);
    var p := AnalyzeVideoFiles(rm.table, env, lang, files);
    (p.table, ScanResult(p.newFiles, p.updatedFiles, rm.removed, p.errorFiles, rm.errors + p.errors))
  }

  /** The scanned state of a video after a scan without repository faults:
      its path holds an entry whose subtitle flag says whether the subtitle
      file exists and whose scan time is the scan's. */
  lemma ScanRecordsSubtitles(t: EntryTable, settings: seq<AppSetting>, env: Env, root: string,
                             listing: seq<string>, v: VideoFile)
    requires Valid(t) && t.nextId > 0
    requires GetSetting(settings, "PreferredSubsLang").Some?
    requires v in VideoFiles(root, listing) && env.fault(v.filePath).None?
    ensures var (t', _) := ScanLibrary(t, settings, env, root, true, listing, None);
      var lang := GetSetting(settings, "PreferredSubsLang").value;
      GetByFilePath(t', v.filePath).Some?
      && GetByFilePath(t', v.filePath).value.alreadyHad == env.fileExists(SubtitlePath(v, lang))
      && GetByFilePath(t', v.filePath).value.lastScanned == env.now
  {
    var lang := GetSetting(settings, "PreferredSubsLang").value;
    var files := VideoFiles(root, listing);
    var rm := RemoveMissingEntries(t, files, None);
    VideoFilesConsistent(root, listing);
    var j :| 0 <= j < |files| && files[j] == v;
    AnalyzeViewFile(rm.table, env, lang, files, j);
  }

  /** After a scan every stored row belongs to a scanned file (ignoring
      case), and every scanned file that did not fault is stored. */
  lemma ScanCovers(t: EntryTable, env: Env, lang: string, files: seq<VideoFile>)
    requires Valid(t) && t.nextId > 0 && Consistent(files)
    ensures var t1 := AnalyzeVideoFiles(RemoveMissingEntries(t, files, None).table, env, lang, files).table;
      && (forall e :: e in t1.rows ==> Listed(files, e.filePath))
      && (forall j :: 0 <= j < |files| && env.fault(files[j].filePath).None? ==> HasPath(t1, files[j].filePath))
  {
    var rm := RemoveMissingEntries(t, files, None);
    var t1 := AnalyzeVideoFiles(rm.table, env, lang, files).table;
    AnalyzeValid(rm.table, env, lang, files);
    forall e | e in t1.rows ensures Listed(files, e.filePath) {
      LookupUnique(t1, e.filePath, e);
      if forall j :: 0 <= j < |files| ==> files[j].filePath != e.filePath {
        AnalyzeViewOther(rm.table, env, lang, files, e.filePath);
        assert e in rm.table.rows;
      } else {
        var j :| 0 <= j < |files| && files[j].filePath == e.filePath;
        EqualsIgnoreCaseIsEquivalence(e.filePath, e.filePath, e.filePath);
      }
    }
    forall j | 0 <= j < |files| && env.fault(files[j].filePath).None? ensures HasPath(t1, files[j].filePath) {
      AnalyzeViewFile(rm.table, env, lang, files, j);
    }
  }

  /** Scanning an unchanged tree a second time, with no faults, inserts and
      removes nothing and reports every file as updated. */
  lemma RescanIsStable(t: EntryTable, settings: seq<AppSetting>, env: Env, root: string,
                       listing: seq<string>, later: int)
    requires Valid(t) && t.nextId > 0
    requires GetSetting(settings, "PreferredSubsLang").Some?
    requires forall path :: env.fault(path).None?
    ensures var (t1, _) := ScanLibrary(t, settings, env, root, true, listing, None);
      var (_, second) := ScanLibrary(t1, settings, env.(now := later), root, true, listing, None);
      second == ScanResult(0, |VideoFiles(root, listing)|, 0, 0, [])
  {
    var t1 := FirstScan(t, settings, env, root, listing);
    ScanOfMatchingTable(t1, settings, env.(now := later), root, listing);
  }

  /** A fault-free scan leaves a valid table whose entries all belong to
      scanned files and which stores every scanned file. */
  lemma FirstScan(t: EntryTable, settings: seq<AppSetting>, env: Env, root: string, listing: seq<string>)
    returns (t1: EntryTable)
    requires Valid(t) && t.nextId > 0
    requires GetSetting(settings, "PreferredSubsLang").Some?
    requires forall path :: env.fault(path).None?
    ensures t1 == ScanLibrary(t, settings, env, root, true, listing, None).0
    ensures Valid(t1) && t1.nextId > 0
    ensures forall e :: e in t1.rows ==> Listed(VideoFiles(root, listing), e.filePath)
    ensures forall j :: 0 <= j < |VideoFiles(root, listing)| ==> HasPath(t1, VideoFiles(root, listing)[j].filePath)
  {
    var lang := GetSetting(settings, "PreferredSubsLang").value;
    var files := VideoFiles(root, listing);
    VideoFilesConsistent(root, listing);
    var rm := RemoveMissingEntries(t, files, None);
    t1 := AnalyzeVideoFiles(rm.table, env, lang, files).table;
    AnalyzeValid(rm.table, env, lang, files);
    ScanCovers(t, env, lang, files);
  }

  /** Scanning a table that already matches the scanned files, without
      faults, removes, inserts and fails nothing. */
  lemma ScanOfMatchingTable(t1: EntryTable, settings: seq<AppSetting>, env: Env, root: string, listing: seq<string>)
    requires Valid(t1) && t1.nextId > 0
    requires GetSetting(settings, "PreferredSubsLang").Some?
    requires forall path :: env.fault(path).None?
    requires forall e :: e in t1.rows ==> Listed(VideoFiles(root, listing), e.filePath)
    requires forall j :: 0 <= j < |VideoFiles(root, listing)| ==> HasPath(t1, VideoFiles(root, listing)[j].filePath)
    ensures ScanLibrary(t1, settings, env, root, true, listing, None).1 == ScanResult(0, |VideoFiles(root, listing)|, 0, 0, [])
  {
    var lang := GetSetting(settings, "PreferredSubsLang").value;
    var files := VideoFiles(root, listing);
    VideoFilesConsistent(root, listing);
    MatchingPasses(t1, env, lang, files);
  }

  /** Both passes over a table that already matches the files: nothing is
      removed and every file counts as updated. */
  lemma MatchingPasses(t1: EntryTable, env: Env, lang: string, files: seq<VideoFile>)
    requires Valid(t1) && t1.nextId > 0 && Consistent(files)
    requires forall path :: env.fault(path).None?
    requires forall e :: e in t1.rows ==> Listed(files, e.filePath)
    requires forall j :: 0 <= j < |files| ==> HasPath(t1, files[j].filePath)
    ensures Passes(t1, env, lang, files, None).1 == ScanResult(0, |files|, 0, 0, [])
  {
    MatchingRemoval(t1, files);
    MatchingAnalysis(t1, env, lang, files);
  }

  /** The removal pass over a table whose entries all belong to the files
      removes nothing. */
  lemma MatchingRemoval(t1: EntryTable, files: seq<VideoFile>)
    requires forall e :: e in t1.rows ==> Listed(files, e.filePath)
    ensures RemoveMissingEntries(t1, files, None) == Removal(t1, 0, [])
  {
    CountNone(t1.rows, Stale(files));
  }

  /** The analysis pass over a table that stores every file, without
      faults, inserts and fails nothing. */
  lemma MatchingAnalysis(t1: EntryTable, env: Env, lang: string, files: seq<VideoFile>)
    requires Valid(t1) && t1.nextId > 0 && Consistent(files)
    requires forall path :: env.fault(path).None?
    requires forall j :: 0 <= j < |files| ==> HasPath(t1, files[j].filePath)
    ensures var p := AnalyzeVideoFiles(t1, env, lang, files);
      p.newFiles == 0 && p.updatedFiles == |files| && p.errorFiles == 0 && p.errors == []
  {
    AnalyzeKnownFiles(t1, env, lang, files);
    AnalyzeFailures(t1, env, lang, files);
  }

  /** The removal pass compares paths ignoring case while the analysis looks
      them up exactly: an entry stored under a path that now differs from a
      scanned file's only in case is kept, and the file gets a second entry
      of its own. */
  lemma CaseOnlyRenameKeepsOldEntry(t: EntryTable, settings: seq<AppSetting>, env: Env, root: string,
                                    listing: seq<string>, stored: Entry, v: VideoFile)
    requires Valid(t) && t.nextId > 0
    requires GetSetting(settings, "PreferredSubsLang").Some?
    requires stored in t.rows && v in VideoFiles(root, listing) && env.fault(v.filePath).None?
    requires stored.filePath != v.filePath && EqualsIgnoreCase(stored.filePath, v.filePath)
    requires forall u :: u in VideoFiles(root, listing) ==> u.filePath != stored.filePath
    ensures var (t', _) := ScanLibrary(t, settings, env, root, true, listing, None);
      GetByFilePath(t', stored.filePath) == Some(stored) && GetByFilePath(t', v.filePath).Some?
  {
    var lang := GetSetting(settings, "PreferredSubsLang").value;
    var files := VideoFiles(root, listing);
    VideoFilesConsistent(root, listing);
    var j :| 0 <= j < |files| && files[j] == v;
    EqualsIgnoreCaseIsEquivalence(v.filePath, stored.filePath, stored.filePath);
    assert Listed(files, stored.filePath);
    var rm := RemoveMissingEntries(t, files, None);
    assert stored in rm.table.rows;
    LookupUnique(rm.table, stored.filePath, stored);
    forall k | 0 <= k < |files| ensures files[k].filePath != stored.filePath {
      assert files[k] in files;
    }
    AnalyzeViewOther(rm.table, env, lang, files, stored.filePath);
    AnalyzeViewFile(rm.table, env, lang, files, j);
  }
}
