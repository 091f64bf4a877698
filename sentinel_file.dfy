/**
 * `SentinelFile`: the lifecycle record of one watched file. It caches four
 * `os.stat` fields, carries readiness flags and timestamps, and moves through
 * stat checks, upload eligibility, delete, rename and move.
 *
 * Time is an integer `now` supplied by the caller. What the file system
 * reports (the stat record, whether a remove, rename or move succeeds, which
 * paths exist) is supplied as parameters.
 */
module SentinelFiles {
  import opened Optional
  import opened PosixPath
  import opened Sequences

  /** Files below this size go through a simple Box upload, larger ones through the chunked uploader. */
  const SimpleUploadLimit: int := 50000000

  /** Seconds in one day: `timedelta.seconds` counts only the part below this. */
  const SecondsPerDay: int := 86400

  /** The truth value of an un-awaited coroutine call: the call yields a
      coroutine object, and every such object is true. */
  const UnawaitedCallIsTruthy: bool := true

  /** The four fields of an `os.stat` result the record looks at (indices 6 to 9). */
  datatype Stats = Stats(size: int, accessedTime: int, modifiedTime: int, creationTime: int)

  datatype StatField = CreationTime | LastAccessedTime | LastModifiedTime | Size

  /** The `stat` argument of the diff: a field name, `True` (which takes the
      first branch of the chain, creation time), or any other name. */
  datatype StatSelector = Named(field: StatField) | AllFields | Unrecognised

  /** The field whose branch of the `elif` chain runs, if any. */
  function Selected(sel: StatSelector): Option<StatField> {
    match sel
    case Named(f) => Some(f)
    case AllFields => Some(CreationTime)
    case Unrecognised => None
  }

  /** The cached stat fields of the record; None until first observed. */
  datatype StatCache = StatCache(
    creationTime: Option<int>,
    lastAccessedTime: Option<int>,
    lastModifiedTime: Option<int>,
    size: Option<int>)

  function Observed(s: Stats, f: StatField): int {
    match f
    case CreationTime => s.creationTime
    case LastAccessedTime => s.accessedTime
    case LastModifiedTime => s.modifiedTime
    case Size => s.size
  }

  function Cached(c: StatCache, f: StatField): Option<int> {
    match f
    case CreationTime => c.creationTime
    case LastAccessedTime => c.lastAccessedTime
    case LastModifiedTime => c.lastModifiedTime
    case Size => c.size
  }

  /** The cache with field `f` set to `v`. */
  function Store(c: StatCache, f: StatField, v: int): (r: StatCache)
    ensures Cached(r, f) == Some(v)
    ensures forall g :: g != f ==> Cached(r, g) == Cached(c, g)
  {
    match f
    case CreationTime => c.(creationTime := Some(v))
    case LastAccessedTime => c.(lastAccessedTime := Some(v))
    case LastModifiedTime => c.(lastModifiedTime := Some(v))
    case Size => c.(size := Some(v))
  }

  /** The cache `update_stats` leaves behind: every field as observed. */
  function CacheOf(s: Stats): (c: StatCache)
    ensures forall f :: Cached(c, f) == Some(Observed(s, f))
  {
    StatCache(Some(s.creationTime), Some(s.accessedTime), Some(s.modifiedTime), Some(s.size))
  }

  /** The dictionary the diff returns: empty, or one entry `{previous, current}`. */
  datatype StatDiff = NoDiff | Diff(field: StatField, previous: Option<int>, current: int)

  /** No entry is due: no stats, no branch selected, or the cached value equals the observed one. */
  predicate Settled(sel: StatSelector, cache: StatCache, stats: Option<Stats>) {
    stats.None? || Selected(sel).None?
    || Cached(cache, Selected(sel).value) == Some(Observed(stats.value, Selected(sel).value))
  }

  /** The field the branch for `f` writes as the code stands: the
      last-modified branch stores into the size field. */
  function StoredFieldAsWritten(f: StatField): StatField {
    if f == LastModifiedTime then Size else f
  }

  /** The comparison and cache update of `current_st_diff_from_cache`, given
      the field whose cache the matching branch writes. */
  function DiffStoring(sel: StatSelector, cache: StatCache, stats: Option<Stats>, store: StatField -> StatField)
    : (r: (StatDiff, StatCache))
    ensures r.0 == NoDiff <==> Settled(sel, cache, stats)
    ensures r.0 == NoDiff ==> r.1 == cache
    ensures r.0.Diff? ==>
              var f := Selected(sel).value;
              && r.0 == Diff(f, Cached(cache, f), Observed(stats.value, f))
              && Cached(r.1, store(f)) == Some(r.0.current)
              && forall g :: g != store(f) ==> Cached(r.1, g) == Cached(cache, g)
  {
    if Settled(sel, cache, stats) then (NoDiff, cache)
    else
      var f := Selected(sel).value;
      var v := Observed(stats.value, f);
      (Diff(f, Cached(cache, f), v), Store(cache, store(f), v))
  }

  /** `current_st_diff_from_cache` as written: the last-modified branch
      records its new value in the size field. */
  function DiffFromCacheAsWritten(sel: StatSelector, cache: StatCache, stats: Option<Stats>): (r: (StatDiff, StatCache))
    ensures r.0 == DiffFromCache(sel, cache, stats).0
    ensures Selected(sel) != Some(LastModifiedTime) || r.0 == NoDiff ==> r.1 == DiffFromCache(sel, cache, stats).1
    ensures Selected(sel) == Some(LastModifiedTime) && r.0.Diff? ==>
              r.1 == cache.(size := Some(stats.value.modifiedTime))
  {
    DiffStoring(sel, cache, stats, StoredFieldAsWritten)
  }

  /** `current_st_diff_from_cache` with every branch writing the field it compares. */
  function DiffFromCache(sel: StatSelector, cache: StatCache, stats: Option<Stats>): (StatDiff, StatCache) {
    DiffStoring(sel, cache, stats, f => f)
  }

  /** A diff reports a change exactly when the selected cached field differs
      from the observed one, and caches only that field: a second diff
      against the same stats reports nothing. */
  lemma DiffFromCacheSettles(sel: StatSelector, cache: StatCache, s: Stats)
    ensures var (diff, after) := DiffFromCache(sel, cache, Some(s));
            && (diff == NoDiff <==> Settled(sel, cache, Some(s)))
            && (forall g :: Selected(sel) != Some(g) ==> Cached(after, g) == Cached(cache, g))
            && DiffFromCache(sel, after, Some(s)).0 == NoDiff
  {
  }

  /** As written, a last-modified change is never recorded: the diff keeps
      reporting it against the same stats, and the size field is overwritten
      with the modification time. */
  lemma ModifiedTimeDiffRepeats(cache: StatCache, s: Stats)
    requires cache.lastModifiedTime != Some(s.modifiedTime)
    ensures var (diff, after) := DiffFromCacheAsWritten(Named(LastModifiedTime), cache, Some(s));
            && diff == Diff(LastModifiedTime, cache.lastModifiedTime, s.modifiedTime)
            && after.size == Some(s.modifiedTime)
            && after.lastModifiedTime == cache.lastModifiedTime
            && DiffFromCacheAsWritten(Named(LastModifiedTime), after, Some(s)).0 == diff
  {
    var after := DiffFromCacheAsWritten(Named(LastModifiedTime), cache, Some(s)).1;
    assert Cached(after, LastModifiedTime) == Cached(cache, LastModifiedTime);
  }

  /** The written and the corrected diff agree on every selector but
      last-modified time. */
  lemma DiffVersionsAgree(sel: StatSelector, cache: StatCache, stats: Option<Stats>)
    requires Selected(sel) != Some(LastModifiedTime)
    ensures DiffFromCacheAsWritten(sel, cache, stats) == DiffFromCache(sel, cache, stats)
  {
  }

  /** After `update_stats` no field differs from the cache, under either version of the diff. */
  lemma NoDiffAfterUpdate(sel: StatSelector, s: Stats)
    ensures DiffFromCache(sel, CacheOf(s), Some(s)).0 == NoDiff
    ensures DiffFromCacheAsWritten(sel, CacheOf(s), Some(s)).0 == NoDiff
  {
  }

  /** The `elapsed_*` properties: no value without a stamp, otherwise the
      time from the stamp to `now`. */
  function Elapsed(since: Option<int>, now: int): (elapsed: Option<int>)
    ensures elapsed.Some? <==> since.Some?
    ensures elapsed.Some? ==> since.value + elapsed.value == now
  {
    if since.Some? then Some(now - since.value) else None
  }

  /** `timedelta.seconds`: the part of a duration below one day, never negative. */
  function DaySeconds(elapsed: int): (s: int)
    ensures 0 <= s < SecondsPerDay
    ensures (elapsed - s) % SecondsPerDay == 0
  {
    elapsed % SecondsPerDay
  }

  /** The test of `upload_to_box_failed` as written, on the seconds component. */
  function UploadFailedAsWritten(elapsed: int, deleted: bool, minFail: int): (failed: bool)
    ensures failed <==> UploadFailed(DaySeconds(elapsed), deleted, minFail)
    ensures 0 <= elapsed < SecondsPerDay ==> failed == UploadFailed(elapsed, deleted, minFail)
  {
    DaySeconds(elapsed) > minFail && !deleted
  }

  /** The evidently intended test: the whole elapsed time since monitoring began. */
  function UploadFailed(elapsed: int, deleted: bool, minFail: int): bool {
    elapsed > minFail && !deleted
  }

  /** As written the verdict repeats every day, so a failed upload is
      forgotten: one day and one second after monitoring began, with the
      default threshold of 3, it reports no failure. */
  lemma UploadFailedAsWrittenForgets(elapsed: int, deleted: bool, minFail: int)
    ensures UploadFailedAsWritten(elapsed + SecondsPerDay, deleted, minFail)
            == UploadFailedAsWritten(elapsed, deleted, minFail)
    ensures !UploadFailedAsWritten(SecondsPerDay + 1, false, 3) && UploadFailed(SecondsPerDay + 1, false, 3)
  {
    assert DaySeconds(elapsed + SecondsPerDay) == DaySeconds(elapsed);
    assert DaySeconds(SecondsPerDay + 1) == 1;
  }

  /** With the whole elapsed time, once an upload has failed it stays failed
      as time goes on (until the file is deleted). */
  lemma UploadFailedIsMonotone(earlier: int, later: int, deleted: bool, minFail: int)
    requires earlier <= later
    ensures UploadFailed(earlier, deleted, minFail) ==> UploadFailed(later, deleted, minFail)
  {
  }

  /** A nullable string attribute that Python treats as true: present and non-empty. */
  predicate Truthy(s: Option<string>) {
    s.Some? && s.value != []
  }

  const FolderPathIdKeyPrefix: string := "box-folder-path-id:box-user-"
  const UserEmailIdKeyPrefix: string := "box-user-email-id:"

  /** The cache key of a Box folder path for a user. */
  function FolderPathIdKey(userId: string, folderPath: string): string {
    FolderPathIdKeyPrefix + userId + ":" + folderPath
  }

  /** The first ':' after a colon-free user id is the separator. */
  lemma SeparatorAfterId(userId: string, folderPath: string)
    requires ':' !in userId
    ensures FirstIndex(userId + ":" + folderPath, ':') == |userId|
  {
    var s := userId + ":" + folderPath;
    assert s[|userId|] == ':';
    var r := FirstIndex(s, ':');
    assert r >= 0 && r <= |userId|;
  }

  /** Distinct (user, folder) pairs get distinct keys when user ids contain no ':'. */
  lemma {:induction false} FolderPathIdKeyInjective(id1: string, path1: string, id2: string, path2: string)
    requires ':' !in id1 && ':' !in id2
    requires FolderPathIdKey(id1, path1) == FolderPathIdKey(id2, path2)
    ensures id1 == id2 && path1 == path2
  {
    var n := |FolderPathIdKeyPrefix|;
    var key := FolderPathIdKey(id1, path1);
    assert key[n..] == id1 + ":" + path1;
    assert FolderPathIdKey(id2, path2)[n..] == id2 + ":" + path2;
    SeparatorAfterId(id1, path1);
    SeparatorAfterId(id2, path2);
    var rest := key[n..];
    assert id1 == rest[..|id1|] && id2 == rest[..|id2|];
    assert path1 == rest[|id1| + 1..] && path2 == rest[|id2| + 1..];
  }

  /** The cache key of a Box user's e-mail; the e-mail is what follows the prefix. */
  function UserEmailIdKey(email: string): (key: string)
    ensures |key| == |UserEmailIdKeyPrefix| + |email|
    ensures key[..|UserEmailIdKeyPrefix|] == UserEmailIdKeyPrefix && key[|UserEmailIdKeyPrefix|..] == email
  {
    UserEmailIdKeyPrefix + email
  }

  /** The fields of a record that `is_ready_for_box_upload` may write. */
  datatype Readiness = Readiness(cache: StatCache, sizeDiffOn: Option<int>, inputComplete: bool, readyForUpload: bool)

  /** How `upload_to_box` sends the file to Box. */
  datatype UploadRoute = SimpleUpload | ChunkedUpload

  /** One watched file. Attributes that only the Box and Redis clients use
      (the Box file and user objects, folder id, record id) are not modelled. */
  class SentinelFile {
    var attemptedUploadToBoxOn: Option<int>
    var boxUploadFolderPath: Option<string>
    var boxUploadUserEmail: Option<string>
    var boxUploadUserId: Option<string>
    var currentDirectory: Option<string>
    var deleted: bool
    var deletedOn: Option<int>
    var directoryEntryOn: int
    var fileDirectoryPath: string
    var fileName: string
    var filePath: Option<string>
    var initialMonitorOn: int
    var inputComplete: bool
    var minElapsedForBoxUploadAttempt: int
    var minElapsedForBoxUploadFail: int
    var minElapsedForDelete: int
    var minElapsedForInputComplete: int
    var readyForDelete: bool
    var readyForUpload: bool
    var stCheckOn: Option<int>
    var stCreationTime: Option<int>
    var stLastAccessedTime: Option<int>
    var stLastModifiedTime: Option<int>
    var stSize: Option<int>
    var stSizeDiffFromCacheOn: Option<int>
    var uploadedToBox: bool
    var uploadedToBoxOn: Option<int>

    /** `SentinelFile(file_path, file_name=..., file_directory_path=...)` with
        every other argument at its default; an empty name or directory path
        counts as not given and is derived from the path. */
    constructor (filePath: string, fileName: string, fileDirectoryPath: string, now: int)
      ensures this.filePath == Some(filePath)
      ensures this.fileName == if fileName == [] then Basename(filePath) else fileName
      ensures this.fileDirectoryPath == if fileDirectoryPath == [] then Dirname(filePath) else fileDirectoryPath
      ensures initialMonitorOn == now && directoryEntryOn == now
      ensures minElapsedForBoxUploadAttempt == 1 && minElapsedForBoxUploadFail == 3
      ensures minElapsedForDelete == 0 && minElapsedForInputComplete == 1
      ensures !deleted && deletedOn.None? && !inputComplete && !readyForDelete && !readyForUpload
      ensures !uploadedToBox && uploadedToBoxOn.None? && attemptedUploadToBoxOn.None?
      ensures stCheckOn.None? && stSizeDiffFromCacheOn.None? && Cache() == StatCache(None, None, None, None)
      ensures currentDirectory.None? && boxUploadFolderPath.None?
      ensures boxUploadUserEmail.None? && boxUploadUserId.None?
      ensures fileDirectoryPath == [] ==> Initial(filePath, now)
    {
      this.fileDirectoryPath := if fileDirectoryPath == [] then Dirname(filePath) else fileDirectoryPath;
      this.fileName := if fileName == [] then Basename(filePath) else fileName;
      this.filePath := Some(filePath);
      attemptedUploadToBoxOn := None;
      boxUploadFolderPath := None;
      boxUploadUserEmail := None;
      boxUploadUserId := None;
      currentDirectory := None;
      deleted := false;
      deletedOn := None;
      directoryEntryOn := now;
      initialMonitorOn := now;
      inputComplete := false;
      minElapsedForBoxUploadAttempt := 1;
      minElapsedForBoxUploadFail := 3;
      minElapsedForDelete := 0;
      minElapsedForInputComplete := 1;
      readyForDelete := false;
      readyForUpload := false;
      stCheckOn := None;
      stCreationTime := None;
      stLastAccessedTime := None;
      stLastModifiedTime := None;
      stSize := None;
      stSizeDiffFromCacheOn := None;
      uploadedToBox := false;
      uploadedToBoxOn := None;
    }

    /** The state the constructor leaves a record in when it is built at
        `now` for `path` with every argument but the name at its default:
        the directory is the path's dirname, both stamps are `now`, the
        thresholds are the defaults, and every flag, stamp and cache field
        is unset. */
    predicate Initial(path: string, now: int)
      reads this
    {
      && filePath == Some(path) && fileDirectoryPath == Dirname(path)
      && initialMonitorOn == now && directoryEntryOn == now
      && minElapsedForBoxUploadAttempt == 1 && minElapsedForBoxUploadFail == 3
      && minElapsedForDelete == 0 && minElapsedForInputComplete == 1
      && !deleted && deletedOn.None? && !inputComplete && !readyForDelete && !readyForUpload
      && !uploadedToBox && uploadedToBoxOn.None? && attemptedUploadToBoxOn.None?
      && stCheckOn.None? && stSizeDiffFromCacheOn.None? && Cache() == StatCache(None, None, None, None)
      && currentDirectory.None? && boxUploadFolderPath.None?
      && boxUploadUserEmail.None? && boxUploadUserId.None?
    }

    /** The cached stat fields. */
    function Cache(): StatCache
      reads this
    {
      StatCache(stCreationTime, stLastAccessedTime, stLastModifiedTime, stSize)
    }

    /** `elapsed_since_*`: the time from a stamp to `now`, absent while the
        stamp is unset; the initial-monitor and directory-entry stamps are
        always set. */
    function ElapsedSinceBoxUploadAttempt(now: int): (elapsed: Option<int>)
      reads this
      ensures elapsed.Some? <==> attemptedUploadToBoxOn.Some?
      ensures elapsed.Some? ==> attemptedUploadToBoxOn.value + elapsed.value == now
    {
      Elapsed(attemptedUploadToBoxOn, now)
    }

    function ElapsedSinceInitialMonitor(now: int): (elapsed: Option<int>)
      reads this
      ensures elapsed.Some? && initialMonitorOn + elapsed.value == now
    {
      Elapsed(Some(initialMonitorOn), now)
    }

    function ElapsedSinceStCheck(now: int): (elapsed: Option<int>)
      reads this
      ensures elapsed.Some? <==> stCheckOn.Some?
      ensures elapsed.Some? ==> stCheckOn.value + elapsed.value == now
    {
      Elapsed(stCheckOn, now)
    }

    function ElapsedSinceStSizeDiffFromCache(now: int): (elapsed: Option<int>)
      reads this
      ensures elapsed.Some? <==> stSizeDiffFromCacheOn.Some?
      ensures elapsed.Some? ==> stSizeDiffFromCacheOn.value + elapsed.value == now
    {
      Elapsed(stSizeDiffFromCacheOn, now)
    }

    function ElapsedSinceDirectoryEntryOn(now: int): (elapsed: Option<int>)
      reads this
      ensures elapsed.Some? && directoryEntryOn + elapsed.value == now
    {
      Elapsed(Some(directoryEntryOn), now)
    }

    /** `cache_box_upload_folder_path_id_key`: present exactly when a folder
        path is set and the user id is non-empty. */
    function CacheBoxUploadFolderPathIdKey(): (key: Option<string>)
      reads this
      ensures key.Some? <==> boxUploadFolderPath.Some? && Truthy(boxUploadUserId)
      ensures key.Some? ==> key.value == FolderPathIdKey(boxUploadUserId.value, boxUploadFolderPath.value)
    {
      if boxUploadFolderPath.Some? && Truthy(boxUploadUserId)
      then Some(FolderPathIdKey(boxUploadUserId.value, boxUploadFolderPath.value))
      else None
    }

    /** `cache_box_upload_user_email_id_key`: present exactly when the e-mail
        is non-empty, and the e-mail can be read back from it. */
    function CacheBoxUploadUserEmailIdKey(): (key: Option<string>)
      reads this
      ensures key.Some? <==> Truthy(boxUploadUserEmail)
      ensures key.Some? ==> |key.value| >= |UserEmailIdKeyPrefix|
                            && key.value[|UserEmailIdKeyPrefix|..] == boxUploadUserEmail.value
    {
      if Truthy(boxUploadUserEmail) then Some(UserEmailIdKey(boxUploadUserEmail.value)) else None
    }

    /** `file_name_prefix`: the name up to its first '.'. */
    function FileNamePrefix(): (prefix: string)
      reads this
      ensures '.' !in prefix && |prefix| <= |fileName| && prefix == fileName[..|prefix|]
      ensures |prefix| == |fileName| || fileName[|prefix|] == '.'
    {
      SplitOnHead(fileName, '.');
      SplitOn(fileName, '.')[0]
    }

    /** `check_min_elapsed_for_box_upload`: no attempt yet, or more than the
        minimum has passed since the last one. */
    function CheckMinElapsedForBoxUpload(now: int): (canUpload: bool)
      reads this
      ensures canUpload <==> attemptedUploadToBoxOn.None?
                             || now - attemptedUploadToBoxOn.value > minElapsedForBoxUploadAttempt
    {
      var elapsed := ElapsedSinceBoxUploadAttempt(now);
      elapsed.None? || elapsed.value > minElapsedForBoxUploadAttempt
    }

    /** The test of `check_ready_for_delete`: not deleted, and a non-zero
        elapsed time since the directory entry that exceeds the minimum. */
    predicate ReadyForDelete(now: int)
      reads this
    {
      var elapsed := ElapsedSinceDirectoryEntryOn(now).value;
      !deleted && elapsed != 0 && elapsed > minElapsedForDelete
    }

    /** `check_ready_for_delete`: the flag is overwritten with the verdict,
        whichever way it goes. */
    method CheckReadyForDelete(now: int) returns (ready: bool)
      modifies this`readyForDelete
      ensures ready == ReadyForDelete(now) && readyForDelete == ready
      ensures ready <==> !deleted && now != directoryEntryOn && now - directoryEntryOn > minElapsedForDelete
    {
      ready := false;
      var elapsed := ElapsedSinceDirectoryEntryOn(now);
      if !deleted && elapsed.value != 0 && elapsed.value > minElapsedForDelete {
        ready := true;
      }
      readyForDelete := ready;
    }

    /** `upload_to_box_failed`, on the whole elapsed time since monitoring
        began (the code uses only its seconds component). */
    function UploadToBoxFailed(now: int): (failed: bool)
      reads this
      ensures failed <==> !deleted && now - initialMonitorOn > minElapsedForBoxUploadFail
    {
      UploadFailed(ElapsedSinceInitialMonitor(now).value, deleted, minElapsedForBoxUploadFail)
    }

    /** `check_input_complete`: once complete, always complete; otherwise
        complete (and recorded) when less than the minimum has passed since
        the last size diff. Without a size-diff stamp the comparison raises
        (None). */
    method CheckInputComplete(now: int) returns (complete: Option<bool>)
      modifies this`inputComplete
      ensures old(inputComplete) ==> complete == Some(true) && inputComplete
      ensures !old(inputComplete) && stSizeDiffFromCacheOn.None? ==> complete.None? && !inputComplete
      ensures !old(inputComplete) && stSizeDiffFromCacheOn.Some? ==>
                && complete == Some(now - stSizeDiffFromCacheOn.value < minElapsedForInputComplete)
                && inputComplete == complete.value
    {
      if inputComplete {
        complete := Some(true);
      } else {
        var elapsed := ElapsedSinceStSizeDiffFromCache(now);
        if elapsed.None? {
          complete := None;
        } else if elapsed.value < minElapsedForInputComplete {
          complete := Some(true);
          inputComplete := true;
        } else {
          complete := Some(false);
        }
      }
    }

    /** `current_st_diff_from_cache(stat, stats)`: compare the selected field
        with what the disk reports, cache the new value, and stamp the check
        in every case. `stats` is what the disk reports (a vanished file gives
        None). The last-modified branch is the corrected one. */
    method CurrentStDiffFromCache(sel: StatSelector, stats: Option<Stats>, now: int) returns (diff: StatDiff)
      modifies this`stCreationTime, this`stLastAccessedTime, this`stLastModifiedTime, this`stSize
      modifies this`stSizeDiffFromCacheOn
      ensures (diff, Cache()) == DiffFromCache(sel, old(Cache()), stats)
      ensures stSizeDiffFromCacheOn == Some(now)
    {
      diff := NoDiff;
      if stats.Some? {
        var s := stats.value;
        if Selected(sel) == Some(CreationTime) {
          if stCreationTime != Some(s.creationTime) {
            diff := Diff(CreationTime, stCreationTime, s.creationTime);
            stCreationTime := Some(s.creationTime);
          }
        } else if Selected(sel) == Some(LastAccessedTime) {
          if stLastAccessedTime != Some(s.accessedTime) {
            diff := Diff(LastAccessedTime, stLastAccessedTime, s.accessedTime);
            stLastAccessedTime := Some(s.accessedTime);
          }
        } else if Selected(sel) == Some(LastModifiedTime) {
          if stLastModifiedTime != Some(s.modifiedTime) {
            diff := Diff(LastModifiedTime, stLastModifiedTime, s.modifiedTime);
            stLastModifiedTime := Some(s.modifiedTime);
          }
        } else if Selected(sel) == Some(Size) {
          if stSize != Some(s.size) {
            diff := Diff(Size, stSize, s.size);
            stSize := Some(s.size);
          }
        }
      }
      stSizeDiffFromCacheOn := Some(now);
    }

    /** `update_stats(stats, st_check_on)`: with stats, cache all four fields
        and the check time; without, change nothing. */
    method UpdateStats(stats: Option<Stats>, checkedOn: int)
      modifies this`stCreationTime, this`stLastAccessedTime, this`stLastModifiedTime, this`stSize
      modifies this`stCheckOn
      ensures stats.Some? ==> Cache() == CacheOf(stats.value) && stCheckOn == Some(checkedOn)
      ensures stats.None? ==> Cache() == old(Cache()) && stCheckOn == old(stCheckOn)
    {
      if stats.Some? {
        stCheckOn := Some(checkedOn);
        stSize := Some(stats.value.size);
        stLastAccessedTime := Some(stats.value.accessedTime);
        stLastModifiedTime := Some(stats.value.modifiedTime);
        stCreationTime := Some(stats.value.creationTime);
      }
    }

    /** The verdict of `is_ready_for_box_upload` in the state before the
        call: not deleted, no size change, input complete (the size diff
        stamps the check, so the elapsed time is 0), and the minimum time
        since the last attempt passed. */
    predicate UploadReady(stats: Option<Stats>, now: int)
      reads this
    {
      && !deleted
      && Settled(Named(Size), Cache(), stats)
      && (inputComplete || 0 < minElapsedForInputComplete)
      && CheckMinElapsedForBoxUpload(now)
    }

    /** The readiness test of `is_ready_for_box_upload` as written: the
        size-diff call is not awaited, so its `not` is applied to a
        coroutine object and is false whatever the sizes. */
    predicate UploadReadyAsWritten(now: int): (ready: bool)
      reads this
      ensures !ready
    {
      && !deleted
      && !UnawaitedCallIsTruthy
      && (inputComplete || 0 < minElapsedForInputComplete)
      && CheckMinElapsedForBoxUpload(now)
    }

    /** The fields `is_ready_for_box_upload` may write, as they stand. */
    function ReadinessFields(): Readiness
      reads this
    {
      Readiness(Cache(), stSizeDiffFromCacheOn, inputComplete, readyForUpload)
    }

    /** Those fields after `is_ready_for_box_upload` against `stats` at
        `now`: a deleted record is left alone; otherwise the size is diffed
        and cached, the diff is stamped, input completion is recorded when
        the size settled, and a positive verdict is recorded. */
    function ReadinessAfter(stats: Option<Stats>, now: int): Readiness
      reads this
    {
      if deleted then ReadinessFields()
      else
        Readiness(
          DiffFromCache(Named(Size), Cache(), stats).1,
          Some(now),
          inputComplete || (Settled(Named(Size), Cache(), stats) && 0 < minElapsedForInputComplete),
          readyForUpload || UploadReady(stats, now))
    }

    /** `is_ready_for_box_upload`, with the size diff awaited: the four
        checks in short-circuit order; only a positive verdict is recorded
        in `ready_for_upload`. */
    method IsReadyForBoxUpload(stats: Option<Stats>, now: int) returns (ready: bool)
      modifies this`stCreationTime, this`stLastAccessedTime, this`stLastModifiedTime, this`stSize
      modifies this`stSizeDiffFromCacheOn, this`inputComplete, this`readyForUpload
      ensures ready == old(UploadReady(stats, now))
      ensures ReadinessFields() == old(ReadinessAfter(stats, now))
    {
      ready := false;
      if deleted {
        return;
      }
      var diff := CurrentStDiffFromCache(Named(Size), stats, now);
      if diff != NoDiff {
        return;
      }
      var complete := CheckInputComplete(now);
      if complete != Some(true) {
        return;
      }
      if !CheckMinElapsedForBoxUpload(now) {
        return;
      }
      ready := true;
      readyForUpload := true;
    }

    /** `delete`: the remove fails when there is no path or the disk refuses
        (`removed`); on success the record is marked deleted and loses its
        location, on failure nothing changes. */
    method Delete(now: int, removed: bool) returns (ok: bool)
      modifies this`deleted, this`deletedOn, this`filePath, this`currentDirectory
      ensures ok <==> old(filePath).Some? && removed
      ensures ok ==> deleted && deletedOn == Some(now) && filePath.None? && currentDirectory.None?
      ensures !ok ==> && deleted == old(deleted) && deletedOn == old(deletedOn)
                      && filePath == old(filePath) && currentDirectory == old(currentDirectory)
    {
      ok := false;
      if filePath.Some? && removed {
        ok := true;
        deleted := true;
        deletedOn := Some(now);
        filePath := None;
        currentDirectory := None;
      }
    }

    /** The target of `rename_self`: the new name joined onto the record's
        directory, itself joined onto the module directory (which an absolute
        directory path replaces). A plain new name is the target's last
        component, so the recorded path and name agree after a rename. */
    function RenameTarget(newFileName: string, moduleDirectory: string): (target: string)
      reads this
      ensures '/' !in newFileName ==> Basename(target) == newFileName
    {
      var directory := Join(moduleDirectory, fileDirectoryPath);
      assert '/' !in newFileName ==> Basename(Join(directory, newFileName)) == newFileName by {
        if '/' !in newFileName { BasenameOfJoin(directory, newFileName); }
      }
      Join(directory, newFileName)
    }

    /** `rename_self`: path and name change together or not at all. The
        rename fails when there is no path or the disk refuses (`renamedOnDisk`). */
    method RenameSelf(newFileName: string, moduleDirectory: string, renamedOnDisk: bool) returns (renamed: bool)
      modifies this`filePath, this`fileName
      ensures renamed <==> old(filePath).Some? && renamedOnDisk
      ensures renamed ==> filePath == Some(old(RenameTarget(newFileName, moduleDirectory))) && fileName == newFileName
      ensures !renamed ==> filePath == old(filePath) && fileName == old(fileName)
    {
      renamed := false;
      var target := RenameTarget(newFileName, moduleDirectory);
      if filePath.Some? && renamedOnDisk {
        filePath := Some(target);
        fileName := newFileName;
        renamed := true;
      }
    }

    /** The name a duplicate is renamed to: the time stamp, a dash, the old name. */
    function DuplicateName(now: int): (name: string)
      reads this
      ensures name == IntToString(now) + "-" + fileName
      ensures '/' !in fileName ==> '/' !in name
    {
      IntToString(now) + "-" + fileName
    }

    /** A file of the same name already exists in `directoryPath`. */
    predicate HasDuplicateIn(directoryPath: string, existing: set<string>): (duplicate: bool)
      reads this
      ensures duplicate <==> Join(directoryPath, fileName) in existing
      ensures duplicate && '/' !in fileName ==> exists p :: p in existing && Basename(p) == fileName
    {
      assert '/' !in fileName ==> Basename(Join(directoryPath, fileName)) == fileName by {
        if '/' !in fileName {
          BasenameOfJoin(directoryPath, fileName);
        }
      }
      Join(directoryPath, fileName) in existing
    }

    /** `move_directories`: a name already present in the target directory
        (`existing` lists the paths that exist) fails the move unless
        `renameDup`, in which case the file is first renamed to
        `DuplicateName(now)`. A successful move points `file_path` at the
        target directory, stamps the entry and records the directory's last
        component. A rename that succeeded stays in place when the move then
        fails. */
    method MoveDirectories(
      newDirectoryPath: string, renameDup: bool, now: int, existing: set<string>,
      moduleDirectory: string, renamedOnDisk: bool, movedOnDisk: bool)
      returns (moved: bool)
      modifies this`filePath, this`fileName, this`directoryEntryOn, this`currentDirectory
      ensures var duplicate := old(HasDuplicateIn(newDirectoryPath, existing));
              moved <==> old(filePath).Some? && movedOnDisk && (!duplicate || (renameDup && renamedOnDisk))
      ensures var renamed := old(HasDuplicateIn(newDirectoryPath, existing)) && renameDup
                             && old(filePath).Some? && renamedOnDisk;
              && (renamed ==> fileName == old(DuplicateName(now)))
              && (!renamed ==> fileName == old(fileName))
              && (!moved && renamed ==> filePath == Some(old(RenameTarget(DuplicateName(now), moduleDirectory))))
              && (!moved && !renamed ==> filePath == old(filePath))
      ensures moved ==> && filePath == Some(newDirectoryPath) && directoryEntryOn == now
                        && currentDirectory == Some(Basename(newDirectoryPath))
      ensures !moved ==> directoryEntryOn == old(directoryEntryOn) && currentDirectory == old(currentDirectory)
    {
      ghost var target := RenameTarget(DuplicateName(now), moduleDirectory);
      moved := false;
      var duplicate := HasDuplicateIn(newDirectoryPath, existing);
      if duplicate {
        if !renameDup {
          return;
        }
        var newFileName := DuplicateName(now);
        var renamed := RenameSelf(newFileName, moduleDirectory, renamedOnDisk);
        if !renamed {
          return;
        }
        assert filePath == Some(target) && fileName == newFileName;
      }
      moved := MoveInto(newDirectoryPath, now, movedOnDisk);
    }

    /** The last step of `move_directories`: with a path and a move the disk
        accepts (`movedOnDisk`), the path becomes the target directory, the
        entry is stamped and the directory label is the target's last
        component; otherwise nothing changes. */
    method MoveInto(newDirectoryPath: string, now: int, movedOnDisk: bool) returns (moved: bool)
      modifies this`filePath, this`directoryEntryOn, this`currentDirectory
      ensures moved <==> old(filePath).Some? && movedOnDisk
      ensures moved ==> && filePath == Some(newDirectoryPath) && directoryEntryOn == now
                        && currentDirectory == Some(Basename(newDirectoryPath))
      ensures !moved ==> && filePath == old(filePath) && directoryEntryOn == old(directoryEntryOn)
                         && currentDirectory == old(currentDirectory)
    {
      moved := false;
      if filePath.Some? && movedOnDisk {
        var directoryName := Split(newDirectoryPath).1;
        filePath := Some(newDirectoryPath);
        directoryEntryOn := now;
        currentDirectory := Some(directoryName);
        moved := true;
      }
    }

    /** The part of `upload_to_box` that touches the record: the attempt is
        stamped first; a missing or zero cached size is refreshed from the
        disk (`stats`); files below the limit go as a simple upload, others
        chunked; a missing size or a failed transfer (`transferred`) is
        reported as a failure (None) and records no upload. */
    method UploadToBox(now: int, localNow: int, stats: Option<Stats>, transferred: bool)
      returns (route: Option<UploadRoute>)
      modifies this`attemptedUploadToBoxOn, this`stCheckOn
      modifies this`stCreationTime, this`stLastAccessedTime, this`stLastModifiedTime, this`stSize
      modifies this`uploadedToBox, this`uploadedToBoxOn
      ensures attemptedUploadToBoxOn == Some(now)
      ensures minElapsedForBoxUploadAttempt >= 0 ==>
                forall later :: now <= later <= now + minElapsedForBoxUploadAttempt ==>
                  !CheckMinElapsedForBoxUpload(later)
      ensures old(stSize) == None || old(stSize) == Some(0) ==>
                (stats.Some? ==> Cache() == CacheOf(stats.value)) && (stats.None? ==> Cache() == old(Cache()))
      ensures !(old(stSize) == None || old(stSize) == Some(0)) ==> Cache() == old(Cache())
      ensures (old(stSize) == None || old(stSize) == Some(0)) && stats.Some? ==> stCheckOn == Some(now)
      ensures !((old(stSize) == None || old(stSize) == Some(0)) && stats.Some?) ==> stCheckOn == old(stCheckOn)
      ensures route.Some? <==> stSize.Some? && transferred
      ensures route.Some? ==> (route.value == SimpleUpload <==> stSize.value < SimpleUploadLimit)
      ensures route.Some? ==> uploadedToBox && uploadedToBoxOn == Some(localNow)
      ensures route.None? ==> uploadedToBox == old(uploadedToBox) && uploadedToBoxOn == old(uploadedToBoxOn)
    {
      attemptedUploadToBoxOn := Some(now);
      if stSize == None || stSize == Some(0) {
        UpdateStats(stats, now);
      }
      route := None;
      if stSize.Some? && transferred {
        route := Some(if stSize.value < SimpleUploadLimit then SimpleUpload else ChunkedUpload);
        uploadedToBox := true;
        uploadedToBoxOn := Some(localNow);
      }
    }
  }

  /** A record whose file the disk never reported (no stats at all) still
      passes the readiness test: the size diff reports nothing without stats,
      and the input-complete check follows a diff stamped that same instant. */
  lemma UploadReadyWithoutStats(f: SentinelFile, now: int)
    requires !f.deleted && f.attemptedUploadToBoxOn.None? && f.minElapsedForInputComplete > 0
    ensures f.UploadReady(None, now)
  {
  }

  /** As written, no record is ever ready for upload. The first conclusion
      holds for every record, because the un-awaited call is always true;
      the requirements only make the awaited test pass, to show the two
      disagree: a fresh, undeleted record whose file the disk reports at its
      cached size is accepted by the awaited test and rejected as written. */
  lemma UnawaitedSizeCheckNeverReady(f: SentinelFile, s: Stats, now: int)
    requires !f.deleted && f.attemptedUploadToBoxOn.None? && f.minElapsedForInputComplete > 0
    requires f.stSize == Some(s.size)
    ensures !f.UploadReadyAsWritten(now)
    ensures f.UploadReady(Some(s), now)
  {
    assert Cached(f.Cache(), Size) == Some(Observed(s, Size));
  }

  /** With the call awaited, an undeleted record whose cached size matches
      the disk, whose input is complete or may be judged so, and whose last
      attempt is long enough ago is ready; a size change or a deletion makes
      it not ready. */
  lemma UploadReadyWhenSettled(f: SentinelFile, s: Stats, now: int)
    ensures f.UploadReady(Some(s), now) <==>
              && !f.deleted && f.stSize == Some(s.size)
              && (f.inputComplete || 0 < f.minElapsedForInputComplete)
              && f.CheckMinElapsedForBoxUpload(now)
  {
    assert Cached(f.Cache(), Size) == f.stSize && Observed(s, Size) == s.size;
  }

  /** Once the size diff has cached the observed size, the next readiness
      check against the same stats sees no size change. */
  lemma SizeSettlesAfterOneCheck(cache: StatCache, s: Stats)
    ensures Settled(Named(Size), DiffFromCache(Named(Size), cache, Some(s)).1, Some(s))
  {
    DiffFromCacheSettles(Named(Size), cache, s);
  }
}
