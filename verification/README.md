# Translarr core, modelled in Dafny

Translarr keeps a library of video files in a SQLite database. It finds
the files that lack subtitles in a preferred language and has a Gemini model
translate their embedded subtitle track. This project models the core of
that service as pure Dafny functions over immutable state and proves
properties about it:

- **Library scan** (`Scanner`). The video files under the media root are
  classified into series and season. Entries whose file is gone are removed,
  matching paths ignoring case. New files are inserted, wanted when their
  series or season is auto-watched. Known files are refreshed; an entry whose
  subtitle vanished goes back to unprocessed.
- **Entry table** (`Entries`, `Paging`, `SeriesGroups`, `Like`, `Ordering`).
  This covers `SubtitleEntryRepository`: the translation queue, lookups,
  insert, update, delete by ids, the bulk wanted flag, the filtered and paged
  listing with its SQL `LIKE` search, and the per-series overview.
- **Translation** (`Streams`, `Translation`, `Usage`). The subtitle stream
  is chosen among the probed ones. One entry is processed:
  - the rate limit is checked;
  - the file is probed and the stream extracted;
  - an ASS/SSA file is cleaned and converted;
  - the size is checked, the text translated and the file written;
  - the entry is marked and one use of the model recorded.

  A batch then loops over the queue, recording each failure against its
  entry. The rate limiter counts today's and the last minute's uses of a
  model against two ceilings stored in the settings.
- **Translation job** (`JobStatus`). The endpoint's single status slot is
  modelled: start requests, progress updates, completion and the crash
  path, plus the progress text.
- **Services and endpoints around them.** These are `LibraryService`
  (`Library`), the statistics endpoint (`Stats`), the auto-watch
  configurations (`WatchConfigs`, `SeriesWatch`), the settings store
  (`Settings`), the start-up connection check and default seeding
  (`DatabaseInit`), and the mapping of errors to HTTP problem responses
  (`ErrorTypeMapper`).

How the model represents things:

- **Tables** are sequences of rows. The entry table keeps its rows in
  ascending id order, with the next id to hand out. `Entries.Valid` states
  the database's guarantees: positive, increasing ids and a unique file path.
- **Times** are integer seconds (UTC). Each scan, entry or batch works at
  one instant, `now`.
- **The outside world** becomes function parameters: the filesystem,
  ffprobe/ffmpeg, the Gemini client and the database connection. The
  results of probes, extractions, conversions, reads, translations and
  writes are oracle functions. A repository exception is a parameter
  that names the failing path.
- **Strings** are `seq<char>` with ASCII case folding and white space.
- **32-bit arithmetic** is written out (`Text.Int32Wrap`) where the source
  can overflow.

## Model

| member | source | states |
|---|---|---|
| Entries.GetUnprocessedWanted | Core/Infrastructure/Repositories/SubtitleEntryRepository.cs:13-22 | the batch holds only eligible rows (wanted, unprocessed and without subtitles, or forced), at most `take` of them and none for a zero `take`; every eligible row when fewer than `take` came back or when `take` is negative (SQLite's `LIMIT -1`) |
| Entries.EligibleRows | Core/Infrastructure/Repositories/SubtitleEntryRepository.cs:15-16 | exactly the eligible rows, as many as the eligibility count |
| Entries.BatchOrdered | Core/Infrastructure/Repositories/SubtitleEntryRepository.cs:15-19 | a batch of a valid table has strictly increasing ids, so no entry is handed out twice |
| Entries.GetByFilePath | Core/Infrastructure/Repositories/SubtitleEntryRepository.cs:25-32 | a found row is stored and has exactly that path; null exactly when no row has the path |
| Entries.GetById | Core/Infrastructure/Repositories/SubtitleEntryRepository.cs:80-90 | a found row is stored under the id; otherwise no row has the id and the answer is the NotFound error "SubtitleEntry with Id {id} not found" |
| Entries.Add | Core/Infrastructure/Repositories/SubtitleEntryRepository.cs:35-41 | the entry is appended under the next id; the save fails with EF's message exactly when the path is already stored; a valid table stays valid |
| Entries.Update | Core/Infrastructure/Repositories/SubtitleEntryRepository.cs:44-67 | an unknown id throws "SubtitleEntry with Id {id} not found"; a successful update overwrites every field of the row except its id and force flag, touches no other row and keeps the table valid |
| Entries.UpdateKeepingPathSucceeds | Core/Infrastructure/Repositories/SubtitleEntryRepository.cs:44-67 | on a valid table, an update of a stored id that keeps the row's path cannot fail |
| Entries.UpdateOwnRow | Core/Infrastructure/Repositories/SubtitleEntryRepository.cs:44-67 | saving a changed copy of a row that keeps its id, path and force flag replaces exactly that row |
| Entries.DeleteByIds | Core/Infrastructure/Repositories/SubtitleEntryRepository.cs:151-172 | exactly the rows whose id is among the positive ids go, and the count is how many went; without a positive id nothing changes and the count is 0 |
| Entries.DeleteByIdsKeepsValid | Core/Infrastructure/Repositories/SubtitleEntryRepository.cs:151-172 | deleting rows keeps the table valid |
| Entries.BulkUpdateWanted | Core/Infrastructure/Repositories/SubtitleEntryRepository.cs:175-184 | every row of the series (and of the season, when one is given) gets the flag, every other row is untouched, and the count is the number of rows in scope |
| Entries.BulkUpdateWantedEffect | Core/Infrastructure/Repositories/SubtitleEntryRepository.cs:175-184 | afterwards every row in scope has the flag and the rows outside it are as before |
| Paging.SearchText | Core/Infrastructure/Repositories/SubtitleEntryRepository.cs:113-118 | the search text is the first min(100, length) characters of the trimmed input |
| Paging.TotalPages | Core/Infrastructure/Repositories/SubtitleEntryRepository.cs:146 | the page count is the least number of pages that holds every match |
| Paging.Window | Core/Infrastructure/Repositories/SubtitleEntryRepository.cs:135-136 | the page is the run of at most `take` items starting after `skip`, empty exactly when nothing lies past `skip` |
| Paging.Sorted | Core/Infrastructure/Repositories/SubtitleEntryRepository.cs:131-134 | the matches, reordered by series, season and file name: sorted and a permutation of the matching rows |
| Paging.GetPaged | Core/Infrastructure/Repositories/SubtitleEntryRepository.cs:93-148 | the total is the number of matching rows; the page is the run of at most `pageSize` matches, in series, season, file-name order, that starts after the first (page-1)*pageSize of them; the page count covers the total; page and size are echoed back |
| Paging.GetPagedAsWritten | Core/Infrastructure/Repositories/SubtitleEntryRepository.cs:135 | the skip count computed in unchecked 32-bit arithmetic gives the intended page whenever the product does not overflow |
| Paging.LastPageWrapsToFirst | Core/Infrastructure/Repositories/SubtitleEntryRepository.cs:135 | page 2147483647 of size 2 wraps the skip count to a negative number and returns the first page, while the intended page is empty |
| Paging.PageNonEmptyIff | Core/Infrastructure/Repositories/SubtitleEntryRepository.cs:131-147 | a page numbered from 1 has items exactly when its number is at most the page count |
| Paging.EveryMatchOnSomePage | Core/Infrastructure/Repositories/SubtitleEntryRepository.cs:93-148 | every matching row appears on some page between 1 and the page count |
| Paging.SearchIsSubstring | Core/Infrastructure/Repositories/SubtitleEntryRepository.cs:113-124 | a search free of `%` and `_` selects exactly the entries whose file name, series or season contains the search text, ignoring case |
| Like.SubstringPattern | Core/Infrastructure/Repositories/SubtitleEntryRepository.cs:120-124 | the pattern `%k%` matches exactly the strings containing the literal `k`, ignoring case |
| Ordering.SortBy | Core/Infrastructure/Repositories/SubtitleEntryRepository.cs:132-134 | the ordering of the listing yields a sorted permutation of its input |
| SeriesGroups.GetSeriesGroups | Core/Infrastructure/Repositories/SubtitleEntryRepository.cs:187-224 | one group per series present, in strictly ascending name order, each built from the rows of its series |
| SeriesGroups.SeasonSumsMatchSeries | Core/Infrastructure/Repositories/SubtitleEntryRepository.cs:204-211 | summing the per-season counts over the distinct seasons of a series counts each row of the series once |
| SeriesGroups.GroupTotalsCountSeries | Core/Infrastructure/Repositories/SubtitleEntryRepository.cs:190-219 | each group's total, wanted and processed counts equal those of the rows of its series |
| WatchConfigs.Get | Core/Infrastructure/Repositories/SeriesWatchConfigRepository.cs:23-30 | a configuration is found exactly when one has that series and that season (or none) |
| WatchConfigs.Add | Core/Infrastructure/Repositories/SeriesWatchConfigRepository.cs:50-73 | a scope that already has a configuration is a Conflict with the repository's message; otherwise the configuration is appended with the creation time, and scopes stay unique |
| WatchConfigs.Delete | Core/Infrastructure/Repositories/SeriesWatchConfigRepository.cs:76-87 | reports whether the scope had a configuration; removes one configuration only then; with unique scopes none is left |
| WatchConfigs.AddThenDelete | Core/Infrastructure/Repositories/SeriesWatchConfigRepository.cs:50-87 | adding a fresh scope and deleting it restores the configurations |
| WatchConfigs.AddWatches | Core/Infrastructure/Repositories/SeriesWatchConfigRepository.cs:33-47 | after adding an auto-watch configuration, every season in its scope counts as watched |
| WatchConfigs.IsWatchedByScope | Core/Infrastructure/Repositories/SeriesWatchConfigRepository.cs:33-46 | with one configuration per scope, a season is watched exactly when the whole-series configuration or the season's own configuration exists with auto-watch on |
| WatchConfigs.AnyAutoWatchIsGet | Core/Infrastructure/Repositories/SeriesWatchConfigRepository.cs:35-45 | with one configuration per scope, some configuration of a scope has auto-watch on exactly when the configuration found for that scope has |
| WatchConfigs.DeleteLeavesNoScope | Core/Infrastructure/Repositories/SeriesWatchConfigRepository.cs:76-87 | with unique scopes, removing the configuration of a scope leaves none for that scope and keeps the rest unique |
| SeriesWatch.SetAutoWatch | Core/Application/Services/SeriesWatchService.cs:14-48 | enabling a configured scope is a Conflict and changes nothing; enabling a fresh one adds the configuration and marks its files wanted, returning their number; disabling leaves the wanted flags alone and is NotFound exactly when there was no configuration |
| SeriesWatch.RemoveAutoWatch | Core/Application/Services/SeriesWatchService.cs:51-58 | reports whether a configuration existed, never changes an entry, and leaves the scope unconfigured |
| SeriesWatch.ShouldAutoMarkWanted | Core/Application/Services/SeriesWatchService.cs:66-70 | with one configuration per scope, a season's new files are marked wanted exactly when the overview would show auto-watch on for the series or for that season |
| SeriesWatch.EnableThenDisable | Core/Application/Services/SeriesWatchService.cs:14-48 | enabling then disabling a fresh scope restores the configurations while the files stay wanted |
| SeriesWatch.EnableWatchesScope | Core/Application/Services/SeriesWatchService.cs:14-36 | after enabling, every file in scope is wanted and its scope counts as watched |
| SeriesWatch.GetSeriesGroupsWithWatchStatus | Core/Application/Services/SeriesWatchService.cs:73-111 | the overview keeps every group's name and counts, and each season's flag is whether the season is watched |
| SeriesWatch.LookupMeansAny | Core/Application/Services/SeriesWatchService.cs:79-85 | with unique scopes, the dictionary lookup agrees with asking whether any configuration of the scope has auto-watch on |
| SeriesWatch.SeriesWatchCoversSeasons | Core/Application/Services/SeriesWatchService.cs:96-100 | every season of a series watched as a whole is watched |
| Settings.GetSetting | Core/Application/Services/SettingsService.cs:9-13 | null exactly when no setting has the key; otherwise a stored value under the key, the only one when keys are unique |
| Settings.UpdateSetting | Core/Application/Services/SettingsService.cs:15-35 | an existing key gets the new value and time and keeps its description; a missing key is appended without a description; keys stay unique |
| Settings.GetAfterUpdate | Core/Application/Services/SettingsService.cs:9-35 | a key reads back as the value just written, and every other key as before |
| Settings.UpdateIdempotent | Core/Application/Services/SettingsService.cs:15-35 | writing the same value twice is writing it once |
| Settings.GetAllSettings | Core/Application/Services/SettingsService.cs:37-48 | one copy of every setting, field for field, in table order |
| Settings.GetByKey | Core/Infrastructure/Repositories/AppSettingsRepository.cs:11-18 | a setting is found exactly when one has the key, and it is a stored setting with that key |
| DatabaseInit.DefaultsFacts | Core/Infrastructure/Services/TranslarrDatabaseInitializer.cs:65-80 | nine defaults with distinct keys, among them language "pl" and rate limits 5 per minute and 100 per day |
| DatabaseInit.Missing | Core/Infrastructure/Services/TranslarrDatabaseInitializer.cs:84-109 | a new setting for exactly the defaults whose key the table lacks |
| DatabaseInit.SeedWith | Core/Infrastructure/Services/TranslarrDatabaseInitializer.cs:82-119 | stored settings are kept, every default key ends up present, only missing keys are added, and nothing is added exactly when no key was missing |
| DatabaseInit.SeedKeepsUniqueKeys | Core/Infrastructure/Services/TranslarrDatabaseInitializer.cs:84-109 | seeding keeps the keys unique |
| DatabaseInit.SeedWithKeepsUniqueKeys | Core/Infrastructure/Services/TranslarrDatabaseInitializer.cs:84-109 | seeding any list of defaults with distinct keys keeps the stored keys unique |
| DatabaseInit.SeedCoversDefaults | Core/Infrastructure/Services/TranslarrDatabaseInitializer.cs:84-109 | after the missing settings are added, every default key is present |
| DatabaseInit.SeedTwiceAddsNothing | Core/Infrastructure/Services/TranslarrDatabaseInitializer.cs:84-119 | a second seeding adds nothing and changes nothing |
| DatabaseInit.SeedKeepsStoredValues | Core/Infrastructure/Services/TranslarrDatabaseInitializer.cs:86-108 | seeding never changes the value of a key that was stored |
| DatabaseInit.CheckConnection | Core/Infrastructure/Services/TranslarrDatabaseInitializer.cs:28-59 | returns at the first attempt that connects, having paused `delay * a` after each failed attempt `a` but the last; after `maxRetries` failures it throws "Unable to connect to database after {n} attempts" |
| DatabaseInit.Initialize | Core/Infrastructure/Services/TranslarrDatabaseInitializer.cs:10-26 | start-up succeeds exactly when one of three attempts connects, and then the settings are seeded; otherwise it fails and leaves them alone |
| ErrorTypeMapper.StatusCode | Core/Api/Helpers/ErrorTypeMapper.cs:32-45 | 400 for Failure and Validation, 409 Conflict, 404 NotFound, 401 Unauthorized, 403 Forbidden, and 500 for Unexpected and every other type, each as an if-and-only-if |
| ErrorTypeMapper.ProblemResponse | Core/Api/Helpers/ErrorTypeMapper.cs:13-25 | the status comes from the first error; with one error the title is its code and the detail its description |
| ErrorTypeMapper.StatusFromFirstErrorOnly | Core/Api/Helpers/ErrorTypeMapper.cs:15-16 | error lists with the same first error give the same status |
| ErrorTypeMapper.ProblemTextLengths | Core/Api/Helpers/ErrorTypeMapper.cs:17-18 | the title is as long as all codes together plus two characters for each ", " between neighbours; the detail likewise for the descriptions |
| ErrorTypeMapper.ProblemTextComposition | Core/Api/Helpers/ErrorTypeMapper.cs:17-18 | with several errors the title is the first code, ", ", then the title of the remaining errors, and the detail likewise: the codes and descriptions appear in order, joined by ", " |
| Text.Trim | Core/Infrastructure/Repositories/SubtitleEntryRepository.cs:116 | the result is the slice of the input left after dropping the white space at both ends: everything before and after it is white space, and it neither starts nor ends with white space |
| Text.TrimPadded | Core/Infrastructure/Repositories/SubtitleEntryRepository.cs:116 | trimming text padded on both sides with white space gives back exactly the text inside, when that text has no white space at its ends |
| Text.TrimEmptyIff | Core/Infrastructure/Repositories/SubtitleEntryRepository.cs:113 | trimming gives the empty text exactly when the input is all white space |
| Text.TryParseInt32 | Core/Application/Services/ApiUsageService.cs:33 | parsing succeeds exactly when the text, without the ASCII white space (tab to carriage return, space) around it, is an optionally signed, non-empty run of digits whose value is a 32-bit integer, and yields that value; null fails |
| Text.TryParseRejectsOtherText | Core/Application/Services/ApiUsageService.cs:33 | a trailing letter or a trailing no-break space makes parsing fail |
| Text.TryParseRejectsSign | Core/Application/Services/ApiUsageService.cs:33 | a lone sign is not a number |
| Text.TryParseRejectsOutOfRange | Core/Application/Services/ApiUsageService.cs:33 | the rendering of an integer outside the 32-bit range does not parse, so rendered text parses back exactly for 32-bit integers |
| Text.TryParseAcceptsPadded | Core/Application/Services/ApiUsageService.cs:33 | white space on both sides of a signed number is ignored |
| Text.IntToStringRoundTrip | Core/Application/Services/ApiUsageService.cs:30-34 | every 32-bit integer rendered as text parses back to itself |
| Text.Int32Wrap | Core/Infrastructure/Repositories/SubtitleEntryRepository.cs:135 | unchecked 32-bit arithmetic: the result is a 32-bit value and leaves 32-bit values unchanged |
| Text.EqualsIgnoreCaseIsEquivalence | Core/Application/Services/MediaScannerService.cs:186-188 | comparing paths ignoring case is an equivalence, so the case-insensitive set is well defined |
| Text.JoinLength | Core/Api/Helpers/ErrorTypeMapper.cs:17-18 | the joined text is as long as its parts plus one separator between each neighbouring pair |
| Paths.FileName | Core/Application/Services/MediaScannerService.cs:83 | the file name holds no separator |
| Paths.Split | Core/Application/Services/MediaScannerService.cs:70 | at least one segment and no segment holds the separator |
| Paths.JoinSplit | Core/Application/Services/MediaScannerService.cs:69-70 | joining the segments with the separator gives the relative path back |
| Paths.SplitJoin | Core/Application/Services/MediaScannerService.cs:69-70 | splitting segments joined by a separator they lack gives them back |
| Paths.BaseAndExtension | Core/Application/Services/MediaScannerService.cs:121 | the base name and the extension make up the file name |
| Paths.SiblingPlacement | Core/Application/Services/MediaScannerService.cs:121-122 | the subtitle file placed beside a video carries exactly the given name |
| Scanner.Classify | Core/Application/Services/MediaScannerService.cs:70-102 | three or more segments: the two folders above the file are series and season; two: the one folder is both; one: "Unknown" for both |
| Scanner.ClassifyIgnoresLeadingFolders | Core/Application/Services/MediaScannerService.cs:90-93 | a category folder above the series folder does not change the classification |
| Scanner.ClassifySeriesSeasonFile | Core/Application/Services/MediaScannerService.cs:72-93 | a file stored as series/season/name is classified under that series and season |
| Scanner.VideoFilesMembers | Core/Application/Services/MediaScannerService.cs:61-102 | exactly the listed files whose lower-cased extension is a video extension, each with its path, name and classification |
| Scanner.ScanFilesystem | Core/Application/Services/MediaScannerService.cs:50-58 | a missing root throws "Media root path does not exist: {root}", and an existing root never fails |
| Scanner.ScanFilesystemFinds | Core/Application/Services/MediaScannerService.cs:60-110 | under an existing root, exactly the listed files whose lower-cased extension is a video extension, each with its full path, file name and classification |
| Scanner.VideoFilesConsistent | Core/Application/Services/MediaScannerService.cs:64-102 | two scanned files with the same path are the same file |
| Scanner.RemoveMissingEntries | Core/Application/Services/MediaScannerService.cs:176-211 | a repository exception adds "Failed to remove stale entries: …" and removes nothing; otherwise, on a valid table, exactly the rows whose path matches no scanned file (ignoring case) go and their number is added |
| Scanner.StaleIds | Core/Application/Services/MediaScannerService.cs:186-197 | the ids handed to the delete are exactly those of the stale rows |
| Scanner.NewEntry | Core/Application/Services/MediaScannerService.cs:133-144 | a new file's entry carries its path, name, series and season, is unprocessed and not forced, wanted as the watch says, and scanned now |
| Scanner.Refresh | Core/Application/Services/MediaScannerService.cs:151-163 | the subtitle flag and scan time are set; an entry whose subtitle vanished becomes unprocessed with no error; nothing else changes |
| Scanner.RefreshIdempotent | Core/Application/Services/MediaScannerService.cs:151-161 | refreshing twice with the same observation is refreshing once |
| Scanner.Reanalyze | Core/Application/Services/MediaScannerService.cs:151-164 | analysing an analysed file again with the same observation leaves what one analysis leaves |
| Scanner.AnalyzeFile | Core/Application/Services/MediaScannerService.cs:116-172 | each file counts as exactly one of new, updated and failed; a failure leaves one message and no change; new means the path was not stored, updated that it was |
| Scanner.AnalyzeVideoFiles | Core/Application/Services/MediaScannerService.cs:113-174 | every file is counted once and every failure leaves one message |
| Scanner.AnalyzeValid | Core/Application/Services/MediaScannerService.cs:113-174 | the analysis keeps the table valid |
| Scanner.AnalyzeViewOther | Core/Application/Services/MediaScannerService.cs:113-174 | a path of no analysed file (or of a failing one) finds what it found before |
| Scanner.AnalyzeViewFile | Core/Application/Services/MediaScannerService.cs:113-174 | the path of every file that did not fail holds its analysed entry: new if the path was new, refreshed if it was known |
| Scanner.AnalyzeFailures | Core/Application/Services/MediaScannerService.cs:167-172 | without repository faults no file fails and no message is left |
| Scanner.AnalyzeKnownFiles | Core/Application/Services/MediaScannerService.cs:120-165 | when every path is already stored, nothing is inserted |
| Scanner.ScanLibrary | Core/Application/Services/MediaScannerService.cs:19-48 | a missing language setting or media root ends the scan with one critical message and no change; otherwise every video file is counted once |
| Scanner.ScanRecordsSubtitles | Core/Application/Services/MediaScannerService.cs:120-154 | after a fault-free scan every video has an entry whose subtitle flag says whether its subtitle file exists, scanned now |
| Scanner.ScanCovers | Core/Application/Services/MediaScannerService.cs:31-33 | after the two passes every stored row belongs to a scanned file (ignoring case) and every non-failing scanned file is stored |
| Scanner.MatchingRemoval | Core/Application/Services/MediaScannerService.cs:176-211 | when every stored row belongs to a scanned file, the removal pass deletes nothing and reports nothing |
| Scanner.MatchingAnalysis | Core/Application/Services/MediaScannerService.cs:113-174 | when every scanned path is already stored and nothing faults, every file counts as updated and none as new or failed |
| Scanner.RescanIsStable | Core/Application/Services/MediaScannerService.cs:19-48 | scanning an unchanged tree again inserts and removes nothing and reports every file as updated |
| Scanner.CaseOnlyRenameKeepsOldEntry | Core/Application/Services/MediaScannerService.cs:120-191 | an entry whose path differs from a scanned file only in case survives the removal pass, and the file gets a second entry |
| Streams.SelectStream | Core/Infrastructure/Services/FfmpegService.cs:46-87 | no stream exactly when there are no subtitle streams; otherwise one of them |
| Streams.FindBestSubtitleStream | Core/Infrastructure/Services/FfmpegService.cs:40-97 | none exactly when there are no subtitle streams; otherwise the description of the stream the cascade picks, which reports "und" exactly when that stream is untagged |
| Streams.SelectIsFirstOfBestTier | Core/Infrastructure/Services/FfmpegService.cs:52-87 | the choice is the first stream of the best non-empty tier: non-SDH dialogue candidates, then non-SDH ones without a signs or songs tag, then non-SDH ones, then all candidates |
| Streams.SelectionPreferences | Core/Infrastructure/Services/FfmpegService.cs:52-96 | an English stream is chosen when there is one; a non-SDH dialogue candidate when there is one; SDH is reported only when every candidate is SDH |
| Usage.AddUsage | Core/Infrastructure/Repositories/ApiUsageRepository.cs:11-16 | the record is appended and nothing stored changes |
| Usage.CountAfterAdd | Core/Infrastructure/Repositories/ApiUsageRepository.cs:11-16 | after a record is added, any count over the log grows by one exactly when the new record is counted |
| Usage.GetByDateRange | Core/Infrastructure/Repositories/ApiUsageRepository.cs:18-31 | exactly the records dated within the closed range, of the model when a non-empty one is given |
| Usage.GetToday | Core/Infrastructure/Repositories/ApiUsageRepository.cs:33-39 | exactly the records from today's midnight to the next one, both included |
| Usage.GetIntSetting | Core/Application/Services/ApiUsageService.cs:30-34 | the setting parsed as a 32-bit integer; a missing or malformed value throws "Invalid value for setting {key}, value: {value}" |
| Usage.CanMakeRequest | Core/Application/Services/ApiUsageService.cs:9-18 | an unreadable ceiling throws, the per-minute one first; otherwise the request is allowed exactly when today's and the last minute's counts are below their ceilings |
| Usage.RecordingNeverAllows | Core/Application/Services/ApiUsageService.cs:9-23 | recording a use never turns a refusal into an allowance, and a use of another model changes nothing |
| Usage.FutureRecordCountsThisMinute | Core/Infrastructure/Repositories/ApiUsageRepository.cs:51-57 | a record dated after now still counts against the last minute |
| Usage.TodayListVsCount | Core/Infrastructure/Repositories/ApiUsageRepository.cs:33-49 | the day's listing holds the records the daily count sees plus those dated exactly at the next midnight |
| Usage.CeilingRoundTrip | Core/Application/Services/ApiUsageService.cs:30-34 | a ceiling written as `n.ToString()` reads back as `n` |
| Translation.OutputPathIsScannedPath | Core/Application/Services/SubtitleTranslationService.cs:157-159 | the translated file is the subtitle file the library scan looks for |
| Translation.Expected | Core/Application/Services/SubtitleTranslationService.cs:43-166 | the row an entry ends as: id, path and force flag kept; processed now when translated or skipped, and then eligible again only if forced; a failure keeps the processed flag and eligibility; no error message exactly when translated |
| Translation.Save | Core/Application/Services/SubtitleTranslationService.cs:162-166 | a successful save stores the changed entry; a failed one changes nothing and is the exception the step ends with |
| Translation.Work | Core/Application/Services/SubtitleTranslationService.cs:118-175 | translated only if the conversion (for ASS/SSA), the read, the size check, the write and the save succeed, then with one use recorded; a text over 204800 characters throws the size message and writes nothing; only the output file is written |
| Translation.Convert | Core/Application/Services/SubtitleTranslationService.cs:120-139 | an ASS/SSA stream goes on only if its SRT conversion reports success, and the SRT copy then lies in the work directory; other codecs go on unconverted |
| Translation.Deliver | Core/Application/Services/SubtitleTranslationService.cs:141-155 | translated only if the read and the translation succeed on a text of at most 204800 characters; a longer text throws the size message and changes nothing |
| Translation.WriteAndSave | Core/Application/Services/SubtitleTranslationService.cs:157-173 | translated only if the write and the save succeed; then the output file holds the translation and one use is logged; no other subtitle file is touched |
| Translation.Extract | Core/Application/Services/SubtitleTranslationService.cs:100-185 | a failed extraction throws and changes nothing; the extracted file is gone afterwards whatever happens |
| Translation.Probe | Core/Application/Services/SubtitleTranslationService.cs:85-185 | skipped exactly when the probe finds no subtitle stream and the save succeeds; a row that does not fail ends as `Expected`; a failure leaves the table unchanged |
| Translation.ProcessEntry | Core/Application/Services/SubtitleTranslationService.cs:77-186 | an unreadable ceiling or an exhausted budget throws before anything else; nothing is translated or skipped without an allowance |
| Translation.HandleEntry | Core/Application/Services/SubtitleTranslationService.cs:45-59 | a failure stores the exception's message on the entry; only a failing save of that message escapes to the batch |
| Translation.HandleOnValidTable | Core/Application/Services/SubtitleTranslationService.cs:45-59 | on a row of a valid table nothing escapes, the row ends as `Expected` and no other row changes |
| Translation.ErrorLines | Core/Application/Services/SubtitleTranslationService.cs:49-53 | one error line per failed entry |
| Translation.UsesCount | Core/Application/Services/SubtitleTranslationService.cs:168-173 | uses recorded now count against both today's and the last minute's budget of their model |
| Translation.StepKeepsTable | Core/Application/Services/SubtitleTranslationService.cs:43-60 | one turn on a valid table replaces only the current entry's row with `Expected`; earlier entries keep theirs and other rows stay |
| Translation.HandleOne | Core/Application/Services/SubtitleTranslationService.cs:43-60 | one turn, with the log, subtitle and table facts the loop needs |
| Translation.Turn | Core/Application/Services/SubtitleTranslationService.cs:43-60 | a turn handles exactly one more entry and keeps the batch invariant: counts, uses, files and rows |
| Translation.RunBatch | Core/Application/Services/SubtitleTranslationService.cs:43-60 | the loop ends with every entry handled unless an exception escaped, keeping the batch invariant; on a valid table nothing escapes, the table stays valid and rows outside the batch are untouched |
| Translation.TranslateNextBatch | Core/Application/Services/SubtitleTranslationService.cs:19-75 | the batch is the queue's head; an empty batch changes nothing; unreadable Gemini settings give one critical line; success, skip and error counts add up to the entries handled; a valid table stays valid, no exception escapes, and rows outside the batch are untouched |
| JobStatus.StepText | Core/Api/Endpoints/TranslationEndpoints.cs:147-159 | "Processing" exactly for a value outside the enum |
| JobStatus.CountersReadBack | Core/Api/Endpoints/TranslationEndpoints.cs:161 | the two counters of a progress text read back as written |
| JobStatus.ProgressCountersReadBack | Core/Api/Endpoints/TranslationEndpoints.cs:161 | the progress text's counters read back as the one-based file number (wrapped to 32 bits) and the total |
| JobStatus.ProgressText | Core/Api/Endpoints/TranslationEndpoints.cs:144-162 | the progress text opens with '[', the counters hold no ']', and everything after the first ']' is a space, the step name, ": " and the current file name |
| JobStatus.CountersTail | Core/Api/Endpoints/TranslationEndpoints.cs:161 | the first ']' of "[a/b]rest" is the one closing the counters, and `rest` follows it |
| JobStatus.Start | Core/Api/Endpoints/TranslationEndpoints.cs:35-53 | refused with 409 and no change while a job runs; otherwise a fresh running status with the start time, and the request is accepted |
| JobStatus.Progress | Core/Api/Endpoints/TranslationEndpoints.cs:65-78 | an update changes only the counters, file name, step and progress text, and only when there is a status |
| JobStatus.Fail | Core/Api/Endpoints/TranslationEndpoints.cs:97-118 | the run ends, not running, with the message as its error and a result with no counts and one critical line; the start time is kept when known |
| JobStatus.Complete | Core/Api/Endpoints/TranslationEndpoints.cs:82-95 | the run ends, not running, completed now, with every file counted as processed and the start time kept; an empty slot ends through the crash path instead |
| JobStatus.GetStatus | Core/Api/Endpoints/TranslationEndpoints.cs:128-143 | the slot's status, or a not-running "No translation running" status |
| JobStatus.SingleFlight | Core/Api/Endpoints/TranslationEndpoints.cs:35-53 | between endings at most one start request is accepted, whatever the order of events |
| JobStatus.ProgressKeepsRun | Core/Api/Endpoints/TranslationEndpoints.cs:65-78 | progress updates keep the run running with its start time and leave the last update's counters |
| JobStatus.RunLifecycle | Core/Api/Endpoints/TranslationEndpoints.cs:30-126 | a start, progress updates and a result leave the status not running, started and completed at the right times, reporting the result |
| Library.GetEntryById | Core/Application/Services/LibraryService.cs:11-19 | an entry comes back exactly when one is stored under the id; otherwise a single NotFound error |
| Library.GetEntryByIdFindsRow | Core/Application/Services/LibraryService.cs:11-19 | in a valid table every stored entry is found by its id |
| Library.SetWantedStatus | Core/Application/Services/LibraryService.cs:22-35 | an unknown id answers NotFound and changes nothing; otherwise the row gets the flag, no other row changes, and the updated entry is returned; a valid table stays valid |
| Library.SetWantedReadBack | Core/Application/Services/LibraryService.cs:22-35 | the entry reads back as the reply, which differs only in the flag; other entries read back as before; repeating the call changes nothing |
| Library.SetForceProcessStatusAsWritten | Core/Application/Services/LibraryService.cs:38-51 | the reply carries the new force flag but, on a valid table, nothing is stored |
| Library.ForceFlagNotPersisted | Core/Application/Services/LibraryService.cs:45-47 | forcing an unforced entry answers with a forced entry that reads back unforced and stays out of the queue |
| Library.UpdateAllFields | Core/Infrastructure/Repositories/SubtitleEntryRepository.cs:54-63 | the intended update succeeds when `UpdateAsync` does and stores the whole entry, force flag included |
| Library.SetForceProcessStatus | Core/Application/Services/LibraryService.cs:38-51 | with the intended update: an unknown id answers NotFound and changes nothing; otherwise the row gets the force flag and nothing else changes |
| Library.ForceReadBack | Core/Application/Services/LibraryService.cs:38-51 | the forced entry reads back as the reply, other entries are untouched, and a forced entry joins the translation queue |
| Library.GetEntriesAsWritten | Core/Application/Services/LibraryService.cs:54-67 | a page below 1 becomes 1 and a size outside 1..1000 becomes 50; the total counts the matches; the page is the run of sorted matches after the skip count as the repository computes it in 32 bits, and equals the intended page whenever that count does not overflow |
| Library.GetEntriesWrapsToFirst | Core/Application/Services/LibraryService.cs:63-66 | page 2147483647 of size 2 passes the clamping and lists the first page as written, while the intended page is empty |
| Library.GetEntries | Core/Application/Services/LibraryService.cs:54-67 | as intended: a page below 1 becomes 1; a size outside 1..1000 becomes 50; the page holds matching entries and the total counts them |
| Library.GetEntriesStable | Core/Application/Services/LibraryService.cs:63-64 | asking again with the page and size a result reports gives the same result |
| Library.BadSizeIsDefault | Core/Application/Services/LibraryService.cs:64 | every out-of-range size asks for the default page of 50 |
| Library.BulkSetWanted | Core/Application/Services/LibraryService.cs:70-77 | a null, empty or blank series is a Validation error and nothing is written; otherwise the series (or season) gets the flag and the count of entries in scope is returned |
| Library.BulkSetWantedIdempotent | Core/Application/Services/LibraryService.cs:70-77 | repeating the bulk update changes nothing and reports the same count; every entry in scope has the flag |
| Stats.GetLibraryStats | Core/Api/Endpoints/StatsEndpoints.cs:39-57 | processed and unprocessed files add up to the total; the wanted, already-subtitled and error counters count the entries that are wanted and unprocessed without a subtitle of their own, that had a subtitle, and whose error message is non-empty; wanted files are among the unprocessed; the last scan time is absent exactly for an empty library and is otherwise the latest scan time |
| Stats.MaxLastScanned | Core/Api/Endpoints/StatsEndpoints.cs:51-53 | the latest scan time of a non-empty library is some entry's and no entry's is later |
| Stats.WantedFilesIsQueueLength | Core/Api/Endpoints/StatsEndpoints.cs:48 | when nothing is forced, the wanted counter is the length of the translation queue |
| Stats.StatsAfterAdd | Core/Api/Endpoints/StatsEndpoints.cs:45-53 | inserting an entry adds one to the total and to one of processed and unprocessed, adds one to each of the wanted, already-subtitled and error counters exactly when the entry is of that kind, and never moves the last scan time back |
| Stats.GetApiUsageStats | Core/Api/Endpoints/StatsEndpoints.cs:26-37 | exactly the records in the range, which defaults to the last thirty days up to now |
| Stats.DefaultWindowCoversLastMinute | Core/Api/Endpoints/StatsEndpoints.cs:32-33 | the default window holds every record the rate limiter counts for the last minute that is not dated after now |

## Left out

- I/O and foreign calls are parameters, not models. This covers the filesystem (`Directory.GetFiles`, `File.Exists`, reads, writes, deletes), ffprobe and ffmpeg, the Gemini client, the database connection and `MigrateAsync`. The ASS cleaning and SRT conversion (`CleanAssFile`, `ConvertToSrt`) are oracles too. `FfmpegService.ExtractSubtitlesAsync` takes three arguments, while the translation service passes the codec as a fourth; the extraction is an oracle either way.
- `GetVideoStreamsAsync` is left out. It only returns the probe's raw data.
- `SettingsService.GetGeminiSettingsAsync` is not part of this model. The batch takes its answer, or its exception's message, as a parameter.
- Logging, durations (`Duration`, `TimeSpan`) and the start time of a scan or batch are left out. They do not affect any stored state or count.
- Database ids of settings, usage records and watch configurations are not modelled. Those rows are addressed by key or scope.
- EF Core change tracking, transactions and `SaveChangesAsync` are left out. Every repository write is taken as stored when it returns.
- Settings.UpdateSetting: the change is treated as stored. Neither the service nor the repository calls `SaveChangesAsync` for it, and whether the change reaches the database depends on a later save in the same scope, which is outside this model.
- Concurrency is left out. This covers the status lock and the background task of the translation endpoint, whose events are modelled as one sequence. Concurrent scans or batches on the same table are also not modelled.
- The progress callback's updates are modelled, but nothing emits them. The endpoint passes a callback to a two-argument `TranslateNextBatchAsync`, but `SubtitleTranslationService` declares no such overload and reports no progress.
- Translation.Work: the converted `.srt` copy of an ASS/SSA file is not deleted by the `finally`. Only the extracted file is. The model records it in `workFiles` as the code does.
- Translation.Extract: the contents of the files in the work directory are not modelled, only which work files exist.
- Tags of a subtitle stream are modelled by their values only; the keys are never read.
- Time is integer seconds, and `DateTime` arithmetic is modelled as addition of seconds.
- String handling covers ASCII case folding only. `ToLowerInvariant` on other Unicode characters is not modelled. `Trim` treats ASCII white space, U+0085 and U+00A0 as white space; the other Unicode space separators are not modelled.
- Text.TryParseInt32: the trailing NUL characters that `int.TryParse` also tolerates are not modelled; such text fails in the model.
- Strings are sequences of Unicode scalar values, while .NET's `Length` and `Substring` count UTF-16 code units. Text outside the Basic Multilingual Plane therefore counts one character where .NET counts two. This affects Translation.Deliver, whose size check compares the file text's `Length` with 204800, and Paging.SearchText, which keeps the first 100 characters; .NET's cut could also split a surrogate pair, which the model cannot express.
- SeriesGroups.GetSeriesGroups: the groups are ordered by ordinal (code point) comparison of series names. The source sorts them in memory with `OrderBy(s => s.SeriesName)`, which uses the current culture's comparison; for names that differ in case or accents the culture's order can differ from the modelled one. The grouping and counts are unaffected.
- Usage.TodayCount, Usage.LastMinuteCount: their own contracts only bound the count by the log's length. What they count is stated by Usage.CanMakeRequest and Translation.UsesCount.
- DatabaseInit.SeedDefaultSettings has no contract of its own. It is DatabaseInit.SeedWith applied to the nine defaults. DatabaseInit.SeedKeepsUniqueKeys and DatabaseInit.SeedTwiceAddsNothing state its properties.
- A `TotalCount` beyond 32 bits makes `CountAsync` throw; tables are taken to be smaller where a lemma needs it.
- Scanner.ScanFilesystem: a failure while building one video file (the per-file `catch` when scanning) is not modelled, because the path operations used there cannot fail on the listed paths.

## Findings

| source | as written | input that shows it | evidently intended | confidence | as-written member | corrected member |
|---|---|---|---|---|---|---|
| Core/Application/Services/LibraryService.cs:45-47 | `SetForceProcessStatusAsync` sets `ForceProcess` on the entry and saves it with `UpdateAsync`, which copies every field except `ForceProcess`; the reply shows the flag, but it is never stored | a stored entry with `ForceProcess = false`, set to `true`: the entry reads back unforced and stays out of the translation queue | the force flag is stored, so that the entry joins the queue | high (not executed) | Library.SetForceProcessStatusAsWritten, Library.ForceFlagNotPersisted | Library.SetForceProcessStatus, Library.ForceReadBack |
| Core/Infrastructure/Repositories/SubtitleEntryRepository.cs:135 | the skip count `(page - 1) * pageSize` is computed in 32-bit `int` and wraps for large pages | page 2147483647, size 2: the skip count wraps to -4, which skips nothing, so the first page comes back instead of an empty one | skip every earlier page, so a page past the end is empty | medium (not executed) | Paging.GetPagedAsWritten, Paging.LastPageWrapsToFirst, Library.GetEntriesAsWritten, Library.GetEntriesWrapsToFirst | Paging.GetPaged, Paging.PageNonEmptyIff, Library.GetEntries |
