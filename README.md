# file-server-box-syncer core, modelled in Dafny

This project models the core of a service that watches directories on a file
server and pushes their files to Box. It covers three pieces:

- **SentinelDirectory** (`directory.dfy`, with the pure filters in `path_filter.dfy`):
  one watched directory. It keeps the ordered list of `SentinelFile` records it
  tracks. It decides which file and directory paths pass its ignore/include
  rules and which file-system events reach a handler. File-created events
  append a record and file-deleted events remove one. A scan of the directory
  tree (`monitor_sentinel_files`) takes on every valid file that is not yet
  tracked. The directory also selects the records that are ready for deletion
  or upload.
- **SentinelFile** (`sentinel_file.dfy`): the lifecycle record of one file. It
  caches four stat fields and keeps readiness flags and timestamps. Its
  operations are stat diffing, input completion, upload eligibility, delete,
  rename, move, the record-side effects of an upload, and the Redis key
  builders.
- **RateLimiter** (`http_client.dfy`): the sliding-window admission gate of
  the HTTP client. Its pool holds the timestamps of granted permits.
  `__enter__` and `__aenter__` first prune the stale prefix, then grant a
  permit when fewer than `rate_limit` timestamps remain.

`posix_path.dfy` models the pieces of Python's `posixpath` and `str` that this
code calls: `split`, `basename`, `dirname`, `splitext`, `join`, `lower`,
`split(sep)` and substring search. `sequences.dfy` holds the
first-index search (shared by the separator search of `split(sep)`,
`list.remove` and the name lookup)
and a concatenation lemma; `optional.dfy` holds `Option`.

Objects whose fields the code updates in place are Dafny classes:
`SentinelDirectory`, `SentinelFile` and `RateLimiter`. The loops of the source
that update state are methods with loop invariants. The scan loop, the two filter loops over the
records and the `popleft` loop are each proved against a specification
function: `Scan`, `DeleteableOf`, `UploadableOf` and `StalePrefix`. The
properties the system promises are then proved about those functions.
The `for`/`else` searches of `validate_file_path` and `validate_directory_path`
only compute a verdict, so they are the recursive functions `AnyOccursIn`,
`AnyIsSegment` and `NoneIgnored`. The main properties are:

- the scan is idempotent;
- a scan never takes a path twice and only takes valid, untracked paths;
- the rate limiter respects its window for any sequence of attempts.

Time is an integer `now` passed by the caller. What the disk reports is
passed as parameters:

- the `os.walk` steps;
- a map from paths to stat records;
- the set of existing paths;
- whether a remove, rename, move or transfer succeeded.

## Model

| member | source | states |
|---|---|---|
| PosixPath.Split | file_server_box_sync/directory.py:128 | `os.path.split`: the tail is the basename; the head is a prefix of the path followed only by slashes up to the tail, and loses its trailing slashes unless it is all slashes, in which case it is kept whole (so `/b` splits into `/` and `b`) |
| PosixPath.BasenameUnique | file_server_box_sync/directory.py:356-358 | the last component is the only '/'-free suffix that is the whole path or is preceded by a '/' |
| PosixPath.BasenameSuffix | file_server_box_sync/directory.py:356-358 | the last component is a suffix of the path |
| PosixPath.SplitExt | file_server_box_sync/directory.py:130 | `os.path.splitext`: stem + extension is the name; the extension is empty or one '.' followed by dot-free, slash-free text, and a non-empty extension follows a stem with a non-dot character; the extension is empty only when every dot of the last component has nothing but dots before it in that component |
| PosixPath.Contains | file_server_box_sync/directory.py:136 | `needle in hay` holds exactly when the needle occurs at some index |
| PosixPath.SplitOn | file_server_box_sync/directory.py:144 | `str.split(sep)`: at least one piece, no piece holds the separator, and joining the pieces with it gives the string back |
| PosixPath.SplitOnUnique | file_server_box_sync/directory.py:144 | any separator-free pieces that join back to the string are the pieces `split` returns |
| PosixPath.SplitOnHead | file_server_box_sync/files/sentinel_file.py:387-389 | the first piece is the text before the first separator |
| PosixPath.BasenameOfJoin | file_server_box_sync/directory.py:316-318 | joining a directory and a plain file name gives back that name as the last component |
| PosixPath.IntToString | file_server_box_sync/files/sentinel_file.py:453 | `str(int)` of the time stamp: a canonical digit string (digits only, no leading zero, "0" for 0) spelling the integer (`DigitsValue`), after a '-' for a negative one; the text has no '/' |
| PosixPath.NatToString | file_server_box_sync/files/sentinel_file.py:453 | the decimal digits of a natural number: canonical (digits only, no leading zero), their value is the number, and 0 gives "0" |
| PosixPath.CanonicalUnique | file_server_box_sync/files/sentinel_file.py:453 | two canonical digit strings that spell the same number are the same string |
| PosixPath.IntToStringUnique | file_server_box_sync/files/sentinel_file.py:453 | `str(i)` is the only text of its form spelling `i`: a canonical digit string, preceded by '-' when `i` is negative |
| PathFilter.AnyOccursIn | file_server_box_sync/directory.py:134-139 | the for/else over `included_file_prefix` finds an entry exactly when some entry occurs in the stem |
| PathFilter.AnyIsSegment | file_server_box_sync/directory.py:141-151 | the nested loops find a match exactly when some included directory equals some '/'-segment of the parent path |
| PathFilter.ValidateFilePath | file_server_box_sync/directory.py:126-153 | a file passes iff its name is not ignored, its extension is not ignored, some included prefix occurs in its lower-cased stem (when the list is non-empty), and some included directory is a segment of its parent path (when that list is non-empty) |
| PathFilter.NoneIgnored | file_server_box_sync/directory.py:158-162 | the for/else completes iff no item is an ignored directory |
| PathFilter.ValidateDirectoryPath | file_server_box_sync/directory.py:155-164 | a directory passes iff neither its parent path as a whole nor its last component is an ignored directory |
| PathFilter.DeeperIgnoredDirectoryIsAccepted | file_server_box_sync/directory.py:155-164 | "/srv/.git/hooks" passes with ".git" ignored: only the two halves of the split are compared |
| PathFilter.ValidateEventForHandlers | file_server_box_sync/directory.py:166-196 | an event is dropped iff it is a directory event failing the directory filter or a file event failing the file filter; any other class always passes |
| PathFilter.ValidateDirectoryEventForHandlers | file_server_box_sync/directory.py:166-173 | a verdict exists iff the event is of a directory class, and it is negative iff the path also fails the directory filter |
| PathFilter.ValidateFileEventForHandlers | file_server_box_sync/directory.py:175-182 | a verdict exists iff the event is of a file class, and it is negative iff the path also fails the file filter |
| PathFilter.EventPathPostfix | file_server_box_sync/directory.py:356-358 | the postfix is the last component of the event's source path |
| PathFilter.ReportTmpExtension | file_server_box_sync/directory.py:128-130 | the extension the filter sees in "/data/report.tmp" is ".tmp" |
| PathFilter.IgnoredExtensionDropsEvent | file_server_box_sync/directory.py:131-132 | with ".tmp" ignored, a file-created event for "/data/report.tmp" is dropped whatever the other lists say |
| PathFilter.QuarterReportStem | file_server_box_sync/directory.py:128-130 | the stem of "/in/Q3_Report.csv" is "Q3_Report" |
| PathFilter.QuarterReportLowerStem | file_server_box_sync/directory.py:136 | "rep" occurs inside the lower-cased stem "q3_report" |
| PathFilter.IncludedPrefixIsSubstringTest | file_server_box_sync/directory.py:134-139 | the included-prefix rule is a substring test, not a prefix test: "rep" admits "Q3_Report.csv" |
| SentinelFiles.Store | file_server_box_sync/files/sentinel_file.py:275 | storing a field sets that field and leaves the other three |
| SentinelFiles.CacheOf | file_server_box_sync/files/sentinel_file.py:594-599 | after `update_stats` every cached field equals the observed one |
| SentinelFiles.DiffStoring | file_server_box_sync/files/sentinel_file.py:257-304 | the diff is empty iff there are no stats, no branch is selected, or the cached value equals the observed one; otherwise it holds the selected field with its previous and current values, and only the written field of the cache changes |
| SentinelFiles.DiffFromCacheSettles | file_server_box_sync/files/sentinel_file.py:257-304 | with every branch writing the field it compares, no other field changes and a second diff against the same stats is empty |
| SentinelFiles.ModifiedTimeDiffRepeats | file_server_box_sync/files/sentinel_file.py:285-291 | as written, a last-modified change overwrites the size cache, leaves the last-modified cache alone, and is reported again by the next diff |
| SentinelFiles.DiffVersionsAgree | file_server_box_sync/files/sentinel_file.py:269-299 | the written and the corrected diff agree on every selector but last-modified time |
| SentinelFiles.DiffFromCacheAsWritten | file_server_box_sync/files/sentinel_file.py:257-304 | as written: the same diff as the corrected version; the same cache except that a last-modified change overwrites the size field with the modification time and leaves the last-modified field as it was |
| SentinelFiles.NoDiffAfterUpdate | file_server_box_sync/files/sentinel_file.py:586-599 | right after `update_stats`, neither version of the diff reports a change |
| SentinelFiles.Elapsed | file_server_box_sync/files/sentinel_file.py:333-381 | an elapsed time exists iff its stamp does, and stamp + elapsed = now |
| SentinelFiles.SentinelFile.ElapsedSinceBoxUploadAttempt | file_server_box_sync/files/sentinel_file.py:334-341 | present iff an upload was attempted, and attempt stamp + elapsed = now |
| SentinelFiles.SentinelFile.ElapsedSinceInitialMonitor | file_server_box_sync/files/sentinel_file.py:344-351 | always present, and monitoring start + elapsed = now |
| SentinelFiles.SentinelFile.ElapsedSinceStCheck | file_server_box_sync/files/sentinel_file.py:354-361 | present iff a stat check happened, and check stamp + elapsed = now |
| SentinelFiles.SentinelFile.ElapsedSinceStSizeDiffFromCache | file_server_box_sync/files/sentinel_file.py:364-371 | present iff a size diff was stamped, and that stamp + elapsed = now |
| SentinelFiles.SentinelFile.ElapsedSinceDirectoryEntryOn | file_server_box_sync/files/sentinel_file.py:374-381 | always present, and directory entry stamp + elapsed = now |
| SentinelFiles.DaySeconds | file_server_box_sync/files/sentinel_file.py:668-669 | `timedelta.seconds` lies in [0, 86400) and differs from the duration by whole days |
| SentinelFiles.UploadFailedAsWrittenForgets | file_server_box_sync/files/sentinel_file.py:665-672 | as written the verdict repeats every day: 86401 s after monitoring began, with threshold 3, it reports no failure |
| SentinelFiles.UploadFailedAsWritten | file_server_box_sync/files/sentinel_file.py:665-672 | as written: failed iff not deleted and the seconds-below-a-day part of the elapsed time exceeds the threshold; within the first day it agrees with the corrected test |
| SentinelFiles.UploadFailedIsMonotone | file_server_box_sync/files/sentinel_file.py:665-672 | on the whole elapsed time, a failure verdict persists as time goes on |
| SentinelFiles.FolderPathIdKeyInjective | file_server_box_sync/files/sentinel_file.py:163-169 | distinct (user id, folder path) pairs get distinct Redis keys when user ids contain no ':' |
| SentinelFiles.UserEmailIdKey | file_server_box_sync/files/sentinel_file.py:171-177 | the e-mail can be read back from its key after the prefix |
| SentinelFiles.SentinelFile.constructor | file_server_box_sync/files/sentinel_file.py:64-136 | an empty name or directory falls back to the basename or dirname of the path; thresholds 1, 3, 0, 1; both stamps are now; every flag false and every optional field empty; with no directory given the record is in the `Initial` state for its path |
| SentinelFiles.SentinelFile.CacheBoxUploadFolderPathIdKey | file_server_box_sync/files/sentinel_file.py:163-169 | a key exists iff a folder path is set and the user id is non-empty, and it is the folder-path key of the two |
| SentinelFiles.SentinelFile.CacheBoxUploadUserEmailIdKey | file_server_box_sync/files/sentinel_file.py:171-177 | a key exists iff the e-mail is non-empty, and the e-mail follows the prefix |
| SentinelFiles.SentinelFile.FileNamePrefix | file_server_box_sync/files/sentinel_file.py:387-389 | the prefix is the dot-free text of the name up to its first '.' |
| SentinelFiles.SentinelFile.CheckMinElapsedForBoxUpload | file_server_box_sync/files/sentinel_file.py:192-201 | an upload may be attempted iff none was attempted or more than the minimum has passed since the last one |
| SentinelFiles.SentinelFile.CheckReadyForDelete | file_server_box_sync/files/sentinel_file.py:203-216 | the verdict (not deleted, a non-zero elapsed time since the directory entry that exceeds the minimum) is returned and overwrites the flag |
| SentinelFiles.SentinelFile.UploadToBoxFailed | file_server_box_sync/files/sentinel_file.py:665-672 | failed iff not deleted and more than the threshold has passed since monitoring began |
| SentinelFiles.SentinelFile.CheckInputComplete | file_server_box_sync/files/sentinel_file.py:179-190 | once complete, always complete; otherwise complete and recorded iff less than the minimum has passed since the last size diff; with no size-diff stamp the comparison raises |
| SentinelFiles.SentinelFile.CurrentStDiffFromCache | file_server_box_sync/files/sentinel_file.py:257-304 | the returned diff and the new cache are those of the corrected diff function, and the check is stamped in every case |
| SentinelFiles.SentinelFile.UpdateStats | file_server_box_sync/files/sentinel_file.py:586-599 | with stats every field is cached and the check stamped; without stats nothing changes |
| SentinelFiles.SentinelFile.IsReadyForBoxUpload | file_server_box_sync/files/sentinel_file.py:430-444 | ready iff not deleted, the size diff is empty, input is complete and the attempt interval has passed; only a positive verdict sets the flag; the size diff and input-complete check run only when not deleted; the new cache, size-diff stamp and input-complete flag are exactly `ReadinessAfter` of the old state |
| SentinelFiles.UploadReadyWithoutStats | file_server_box_sync/files/sentinel_file.py:430-444 | a record the disk never reported on passes the readiness test when not deleted and never attempted |
| SentinelFiles.SizeSettlesAfterOneCheck | file_server_box_sync/files/sentinel_file.py:293-299 | after one size diff, the next one against the same stats sees no change |
| SentinelFiles.UnawaitedSizeCheckNeverReady | file_server_box_sync/files/sentinel_file.py:434-441 | as written: a fresh, undeleted record whose cached size matches the disk fails the test, although the awaited test accepts it |
| SentinelFiles.UploadReadyWhenSettled | file_server_box_sync/files/sentinel_file.py:434-441 | awaited: ready iff not deleted, the cached size equals the disk's, input is complete or may be judged so, and the attempt interval has passed |
| SentinelFiles.SentinelFile.UploadReadyAsWritten | file_server_box_sync/files/sentinel_file.py:434-441 | as written: the test never holds, because `not` of the un-awaited size-diff call is false |
| SentinelFiles.SentinelFile.Delete | file_server_box_sync/files/sentinel_file.py:318-331 | success iff there is a path and the remove succeeds; success marks the record deleted, stamps it and clears path and directory; failure changes nothing |
| SentinelFiles.SentinelFile.RenameTarget | file_server_box_sync/files/sentinel_file.py:503-505 | for a plain new name, the target path's last component is that name |
| SentinelFiles.SentinelFile.DuplicateName | file_server_box_sync/files/sentinel_file.py:453 | `<int(now)>-<name>`: `str` of the time stamp, a dash, the record's name; free of '/' when the name is |
| SentinelFiles.SentinelFile.HasDuplicateIn | file_server_box_sync/files/sentinel_file.py:451 | true iff the target directory joined with the record's name exists; for a plain name, the existing path ends in that name |
| SentinelFiles.SentinelFile.RenameSelf | file_server_box_sync/files/sentinel_file.py:501-517 | renamed iff there is a path and the disk rename succeeds; path and name then change together to the target, otherwise neither changes |
| SentinelFiles.SentinelFile.MoveDirectories | file_server_box_sync/files/sentinel_file.py:446-475 | moved iff there is a path, the move succeeds, and there is no duplicate or the duplicate was renamed to `<now>-<name>`; a move sets path, entry stamp and directory label; a renamed duplicate takes the name `<now>-<name>`; a failed move keeps stamp and label, and leaves the path as it was, or at the renamed file when the rename succeeded |
| SentinelFiles.SentinelFile.MoveInto | file_server_box_sync/files/sentinel_file.py:465-469 | with a path and a move the disk accepts, the path becomes the target directory, the entry is stamped with `now` and the label is the target's last component; otherwise path, stamp and label are unchanged |
| SentinelFiles.SentinelFile.UploadToBox | file_server_box_sync/files/sentinel_file.py:601-663 | the attempt is stamped, blocking attempts until the minimum has passed; a missing or zero size is refreshed from the disk, which stamps the stat check with `now` when the disk answers and leaves it unchanged otherwise; the route is simple below 50000000 bytes and chunked otherwise; success records the upload |
| Sequences.FirstIndex | file_server_box_sync/directory.py:351-354 | the first index holding the element, or -1 when none does |
| Directory.RemoveFirst | file_server_box_sync/directory.py:363 | `list.remove`: the first occurrence goes and the rest keep their order; the multiset loses one copy of the element when it has one |
| Directory.RemoveFirstDistinct | file_server_box_sync/directory.py:360-369 | removing from a duplicate-free list keeps it duplicate-free and leaves none of the element |
| Directory.DistinctAppend | file_server_box_sync/directory.py:268 | appending a record not yet in a duplicate-free list keeps it duplicate-free |
| Directory.PathsOfAppend | file_server_box_sync/directory.py:95-100 | appending a record appends its path to `sentinel_files_paths` |
| Directory.NamesOf | file_server_box_sync/directory.py:88-93 | one name per record, and a name is listed iff some record carries it |
| Directory.PathsOf | file_server_box_sync/directory.py:95-100 | one path per record, and a path is listed iff some record carries it |
| Directory.ScanTakesNewValidPaths | file_server_box_sync/directory.py:313-343 | the scan takes only walked files that pass the filter and whose path was not tracked |
| Directory.ScanTakesPathsOnce | file_server_box_sync/directory.py:313-343 | the scan never takes the same path twice |
| Directory.ScanCoversValidPaths | file_server_box_sync/directory.py:313-343 | after a scan every walked file that passes the filter is tracked |
| Directory.ScanOfCoveredIsEmpty | file_server_box_sync/directory.py:313-343 | a scan over files that are all tracked or filtered out takes nothing |
| Directory.SecondScanTakesNothing | file_server_box_sync/directory.py:313-343 | scan idempotence: a second scan of the same tree takes nothing |
| Directory.ScanAdvance | file_server_box_sync/directory.py:317-338 | looking at one more walked file keeps "taken so far" followed by "still to take" equal to the whole scan |
| Directory.SentinelDirectory.TakeStep | file_server_box_sync/directory.py:326-333 | appending the record built for the next walked file, in its `Initial` state, keeps the scan invariant |
| Directory.DeleteableOf | file_server_box_sync/directory.py:102-110 | exactly the records whose delete check holds, drawn from the list |
| Directory.DeleteableOfCounts | file_server_box_sync/directory.py:102-110 | each record occurs in the result as often as in the list when its delete check holds, and not at all otherwise |
| Directory.DeleteableOfInOrder | file_server_box_sync/directory.py:102-110 | the result is a subsequence of the list: its records sit at strictly increasing positions |
| Directory.UploadableOf | file_server_box_sync/directory.py:371-380 | exactly the records whose upload readiness holds against what the disk reports, drawn from the list |
| Directory.StatsOf | file_server_box_sync/files/sentinel_file.py:240-250 | `current_stats`: stats exist iff the record has a non-empty path that the disk reports, and they are the disk's entry for that path |
| Directory.UploadableOfCounts | file_server_box_sync/directory.py:371-380 | each record occurs in the result as often as in the list when it is ready for upload, and not at all otherwise |
| Directory.UploadableOfInOrder | file_server_box_sync/directory.py:371-380 | the result is a subsequence of the list: its records sit at strictly increasing positions |
| Directory.UploadableAsWritten | file_server_box_sync/directory.py:371-380 | as written: the result is the whole list, whatever the records' state |
| Directory.UnawaitedUploadFilterKeepsAll | file_server_box_sync/directory.py:374 | as written every record is uploadable, including deleted records, which the awaited filter leaves out |
| Directory.SentinelDirectory.constructor | file_server_box_sync/directory.py:43-83 | the alias is the last component of the path; the filter is `validate_file_path` with the given lists; the list is empty, or with monitoring on init holds the records built for exactly what the scan takes, each named after its file and in the constructor's `Initial` state for its path (dirname directory, stamps `now`, default thresholds, flags and cache unset) |
| Directory.SentinelDirectory.InitialScan | file_server_box_sync/directory.py:82-83 | from an empty list, the scan leaves exactly the records built for the files it takes, each in the `Initial` state for its path |
| Directory.SentinelDirectory.SentinelFileFromFileName | file_server_box_sync/directory.py:351-354 | the first record with that name, or None iff no record has it |
| Directory.SentinelDirectory.HandleFileCreated | file_server_box_sync/directory.py:258-271 | exactly one fresh record is appended, named after the path's last component and in the `Initial` state for the event path: dirname directory, both stamps `now`, default thresholds, not deleted, input not complete, no flags, stamps or cached stats |
| Directory.SentinelDirectory.HandleFileDeleted | file_server_box_sync/directory.py:230-247 | the first record named after the event's last component is removed; without one the list is unchanged |
| Directory.SentinelDirectory.RemoveFile | file_server_box_sync/directory.py:360-369 | true iff the record was tracked; it is then gone and the other records keep their order |
| Directory.SentinelDirectory.Dispatch | file_server_box_sync/directory.py:198-212 | an invalid event changes nothing; a valid one reaches its handler (only create and delete change the list; a created record is appended in the `Initial` state for the event path), and a class with no handler raises a missing-key error |
| Directory.SentinelDirectory.ConsiderFile | file_server_box_sync/directory.py:317-338 | one walked file is taken iff it passes the filter and its path is not tracked; the new record has that name and is in the `Initial` state for that path |
| Directory.SentinelDirectory.MonitorFile | file_server_box_sync/directory.py:317-338 | one inner-loop pass keeps the scan invariant over the remaining files |
| Directory.SentinelDirectory.MonitorWalkEntry | file_server_box_sync/directory.py:316-338 | one outer-loop pass keeps the scan invariant over the remaining walk steps |
| Directory.SentinelDirectory.MonitorSentinelFiles | file_server_box_sync/directory.py:313-343 | the new records, appended in walk order, are built one for one from what `Scan` takes, each named after its file and in the `Initial` state for its path, and the tracked paths grow by exactly their paths |
| Directory.SentinelDirectory.DeleteableSentinelFiles | file_server_box_sync/directory.py:102-110 | the result is `DeleteableOf` of the list before the call, and every record's delete flag is overwritten with its verdict |
| Directory.SentinelDirectory.UploadableSentinelFiles | file_server_box_sync/directory.py:371-380 | the result is `UploadableOf` of the list before the call; each record's stat cache, size-diff stamp, input-complete and upload flags become `ReadinessAfter` of its old state and its disk stats, and nothing else of any record changes |
| HttpClient.StalePrefix | file_server_box_sync/http_client.py:54-58 | the `popleft` loop drops exactly the leading timestamps more than `period` old; the first one left is at most `period` old |
| HttpClient.AttemptChangesOnlyStalePrefix | file_server_box_sync/http_client.py:51-65 | an attempt removes only a stale prefix, grants iff fewer than `limit` remain, appends exactly `now` on a grant, and then holds at most `limit` |
| HttpClient.AttemptKeepsWindow | file_server_box_sync/http_client.py:51-65 | with a clock that does not run backwards, the pool stays oldest first and holds only timestamps at most `period` old |
| HttpClient.GrantKeepsWindow | file_server_box_sync/http_client.py:60-65 | granting when fewer than `limit` non-stale timestamps remain keeps every window within `limit` |
| HttpClient.WindowRespectedFrom | file_server_box_sync/http_client.py:51-65 | induction over the attempts: the history of grants stays sorted and within the window |
| HttpClient.GrantsRespectWindow | file_server_box_sync/http_client.py:39-96 | for any non-decreasing sequence of attempt times from an empty pool, no stretch of `period` holds more than `limit` grants |
| HttpClient.RateLimiter.constructor | file_server_box_sync/http_client.py:40-46 | the limit and period are stored and the pool starts empty |
| HttpClient.RateLimiter.Default | file_server_box_sync/http_client.py:40-46 | the defaults are two permits per five time units |
| HttpClient.RateLimiter.Prune | file_server_box_sync/http_client.py:54-58 | the pool loses exactly its stale prefix |
| HttpClient.RateLimiter.TryAcquire | file_server_box_sync/http_client.py:51-65 | one pass of `_limiter`: the verdict and new pool are those of `Attempt`, and the pool never exceeds the limit |
| HttpClient.RateLimiter.Exit | file_server_box_sync/http_client.py:73-74 | leaving the context hands nothing back: the pool is unchanged |

## Left out

- Clock reads (`utcnow`, `now`, `time.time`) become an integer `now` passed by the caller, in the unit of the thresholds. Sub-second `total_seconds()` fractions are not modelled.
- The second clock read in `_limiter`, which stamps the grant a little after the pruning instant, is modelled as the same `now`.
- The file system becomes parameters: the `os.walk` steps, a map from paths to stat records, the set of existing paths, and success flags for remove, rename, move and the Box transfer.
- The retry loop of `_limiter`/`_async_limiter`, with its `sleep`, is not modelled. `TryAcquire` is one pass, and waiting means calling it again later. Concurrent callers sharing one pool are not modelled.
- `_async_limiter` has the same admission logic as `_limiter` over the same pool, so `TryAcquire` stands for both.
- The Box client, the Redis client, and the attributes only they use (Box file and user objects, folder id) are not part of this model. This covers `associate_box_folder_path_to_id`, the cache get/set coroutines and `set_box_upload_user_info_from_user`. Only the Redis key builders are modelled.
- File content I/O (`create_on_disk`, `read_line`, `read_lines`, `write_line`, `write_new_line`, `write_lines`), `exists`, `__repr__` and logging are not modelled.
- The directory event handlers other than create and delete only log. `Dispatch` states that they leave the list unchanged.
- `_handle_any_file_system_event` only logs.
- The optional `sentinel_files` argument of `SentinelDirectory.__init__` is not modelled. The list always starts empty.
- The ignore/include lists are fixed at construction, so the directory keeps its file filter as a constant.
- A walk's root paths are taken as given. Nothing ties them to `file_system_path`.
- `uploadable_sentinel_files` and `is_ready_for_box_upload` call coroutines without awaiting them (directory.py line 374 and sentinel_file.py line 436), and the resulting coroutine objects are always truthy. The model follows the evidently intended awaited behaviour; the behaviour as written is in the Findings.
- `is_ready_for_box_upload` reads the stats once and passes them on. When that read finds nothing, `current_st_diff_from_cache` reads again (sentinel_file.py lines 263-264). The model has one `stats` parameter, so it assumes both reads agree.
- `deleted_on` defaults to `False` (sentinel_file.py line 77) and becomes a time stamp on deletion. The model's `deletedOn` is an `Option<int>` whose `None` stands for that falsy default.
- A construction failure inside the scan or the create handler cannot happen in the model, because building a record has no failure path.
- `str.lower` is modelled for ASCII letters only.
- SentinelFiles.SentinelFile.UploadToBox: the Box transfer result is reduced to a success flag and the route taken. A failure returns None instead of the exception text. Folder and user selection are not modelled. A size that is still missing after the refresh counts as a failure, matching the comparison that would raise.
- SentinelFiles.SentinelFile.MoveDirectories: a rename that succeeded is not rolled back when the move then fails. This follows the code, which has no rollback.
- SentinelFiles.SentinelFile.RenameSelf does not itself state that the new name is the target's last component. `RenameTarget` states it, for a name without '/'.
- SentinelFiles.SentinelFile.CurrentStDiffFromCache uses the corrected last-modified branch. The branch as written is modelled by `DiffFromCacheAsWritten` (see Findings).
- SentinelFiles.SentinelFile.UploadToBoxFailed uses the whole elapsed time. The `.seconds` component as written is modelled by `UploadFailedAsWritten` (see Findings).
- Stat results are the four fields read at indices 6 to 9. Other fields of `os.stat` are not modelled.

Where the documented behaviour of this system and the code disagree, the model follows the code:

- After a move, `file_path` holds the target directory, not the file inside it.
- A record whose file the disk never reported can be ready for upload (`UploadReadyWithoutStats`). The size diff is empty without stats, and the input-complete check follows a diff stamped at the same instant, so input counts as complete after a single unchanged check.
- Delete eligibility also requires a non-zero elapsed time, because the code tests its truthiness.
- Deleting a record does not remove it from its directory. Only a file-deleted event or `remove_file` does that.
- The included-prefix rule is a substring test on the lower-cased stem, not a prefix test.

## Findings

| source | as written | input that shows it | evidently intended | confidence | as-written member | corrected member |
|---|---|---|---|---|---|---|
| file_server_box_sync/files/sentinel_file.py:291 | the last-modified branch stores the new modification time into `st_size` | a cached last-modified time that differs from the observed one: the diff is reported again on every later call, and the size cache holds a time | store into `st_last_modified_time`, so a second diff against the same stats is empty | high; not executed | SentinelFiles.ModifiedTimeDiffRepeats | SentinelFiles.DiffFromCacheSettles |
| file_server_box_sync/files/sentinel_file.py:668-669 | the failure test compares `timedelta.seconds`, the part of the duration below one day | 86401 seconds after monitoring began, with the default threshold 3, `.seconds` is 1 and no failure is reported | compare the whole elapsed time, so that a failure, once reported, stays reported | high; not executed | SentinelFiles.UploadFailedAsWrittenForgets | SentinelFiles.UploadFailedIsMonotone |
| file_server_box_sync/directory.py:374 | `uploadable_sentinel_files` tests the un-awaited `is_ready_for_box_upload()`, a coroutine object that is always true | any list holding a deleted record: that record is returned as uploadable | await the readiness check, so only ready records are returned | high; not executed | Directory.UnawaitedUploadFilterKeepsAll | Directory.UploadableOfCounts |
| file_server_box_sync/files/sentinel_file.py:436 | `is_ready_for_box_upload` applies `not` to the un-awaited `current_st_size_diff_from_cache(stats)`, which is always false | a fresh, undeleted record whose cached size matches the disk: it is never reported ready | await the size diff, so a record with no size change can be ready | high; not executed | SentinelFiles.UnawaitedSizeCheckNeverReady | SentinelFiles.UploadReadyWhenSettled |
