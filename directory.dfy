/**
 * `SentinelDirectory`: one watched directory. It keeps the list of
 * `SentinelFile` records it tracks, updates that list from file-system events
 * and from a scan of the directory tree, and selects the records that are
 * ready for deletion or upload.
 *
 * The directory tree is given as the sequence of `os.walk` steps, and what
 * the disk reports for each path as a map from paths to stat records.
 */
module Directory {
  import opened Optional
  import opened PosixPath
  import opened PathFilter
  import opened SentinelFiles
  import opened Sequences

  /** `list.remove(x)` when `x` is present, and no change otherwise: the
      first occurrence goes, everything else stays in order. */
  function RemoveFirst<T(==)>(s: seq<T>, x: T): (r: seq<T>)
    ensures x !in s ==> r == s
    ensures x in s ==> var i := FirstIndex(s, x);
                       0 <= i && r == s[..i] + s[i + 1..]
    ensures multiset(r) == multiset(s) - multiset{x}
  {
    var i := FirstIndex(s, x);
    if i < 0 then s
    else
      assert s == s[..i] + [s[i]] + s[i + 1..];
      s[..i] + s[i + 1..]
  }

  /** No record appears twice. */
  predicate Distinct<T(==)>(s: seq<T>) {
    forall i, j :: 0 <= i < j < |s| ==> s[i] != s[j]
  }

  /** Appending an element not yet present keeps the elements distinct. */
  lemma DistinctAppend<T>(s: seq<T>, x: T)
    requires Distinct(s) && x !in s
    ensures Distinct(s + [x])
  {
    assert forall k :: 0 <= k < |s| ==> (s + [x])[k] == s[k];
  }

  /** Removing an element keeps the others distinct and leaves none of it behind. */
  lemma RemoveFirstDistinct<T>(s: seq<T>, x: T)
    requires Distinct(s)
    ensures Distinct(RemoveFirst(s, x)) && x !in RemoveFirst(s, x)
  {
    var r := RemoveFirst(s, x);
    if x in s {
      var i := FirstIndex(s, x);
      assert forall k :: 0 <= k < |r| ==> r[k] == if k < i then s[k] else s[k + 1];
    }
  }

  /** `sentinel_files_names`: the records' names, in list order. */
  function NamesOf(files: seq<SentinelFile>): (names: seq<string>)
    reads files
    ensures |names| == |files|
    ensures forall name :: name in names <==> exists f :: f in files && f.fileName == name
  {
    var names := seq(|files|, k requires 0 <= k < |files| reads files => files[k].fileName);
    assert forall k :: 0 <= k < |files| ==> names[k] == files[k].fileName;
    assert forall f :: f in files ==> f.fileName in names by {
      forall f | f in files ensures f.fileName in names {
        var k :| 0 <= k < |files| && files[k] == f;
        assert names[k] == f.fileName;
      }
    }
    names
  }

  /** `sentinel_files_paths`: the records' paths, in list order. */
  function PathsOf(files: seq<SentinelFile>): (paths: seq<Option<string>>)
    reads files
    ensures |paths| == |files|
    ensures forall p :: p in paths <==> exists f :: f in files && f.filePath == p
  {
    var paths := seq(|files|, k requires 0 <= k < |files| reads files => files[k].filePath);
    assert forall k :: 0 <= k < |files| ==> paths[k] == files[k].filePath;
    assert forall f :: f in files ==> f.filePath in paths by {
      forall f | f in files ensures f.filePath in paths {
        var k :| 0 <= k < |files| && files[k] == f;
        assert paths[k] == f.filePath;
      }
    }
    paths
  }

  /** Appending a record appends its path. */
  lemma PathsOfAppend(files: seq<SentinelFile>, file: SentinelFile)
    ensures PathsOf(files + [file]) == PathsOf(files) + [file.filePath]
  {
    assert forall k :: 0 <= k < |files| ==> (files + [file])[k] == files[k];
  }

  /** One step of `os.walk`: a directory, its sub-directories and the names of its files. */
  datatype WalkEntry = WalkEntry(root: string, subdirs: seq<string>, files: seq<string>)

  /** A file the scan looks at: its name and the path joined from the walk root. */
  datatype Candidate = Candidate(name: string, path: string)

  /** The files of one walk step, in listing order. */
  function EntryCandidates(e: WalkEntry): seq<Candidate> {
    seq(|e.files|, k requires 0 <= k < |e.files| => Candidate(e.files[k], Join(e.root, e.files[k])))
  }

  /** Every file of the walk, in walk order. */
  function Candidates(walk: seq<WalkEntry>): seq<Candidate> {
    if walk == [] then [] else EntryCandidates(walk[0]) + Candidates(walk[1..])
  }

  function PathsOfCandidates(cs: seq<Candidate>): seq<Option<string>> {
    seq(|cs|, k requires 0 <= k < |cs| => Some(cs[k].path))
  }

  /** The file filter of a directory, as a test on paths. */
  function FileFilter(rules: Rules): string -> bool {
    path => ValidateFilePath(rules, path)
  }

  lemma PathsOfCandidatesAppend(cs: seq<Candidate>, c: Candidate)
    ensures PathsOfCandidates(cs + [c]) == PathsOfCandidates(cs) + [Some(c.path)]
  {
  }

  /** The candidates `monitor_sentinel_files` takes on, in walk order: those
      that pass the filter `accept` and whose path is not tracked yet, where
      the tracked paths grow with every file taken. */
  function Scan(accept: string -> bool, known: seq<Option<string>>, cs: seq<Candidate>): seq<Candidate>
    decreases |cs|
  {
    if cs == [] then []
    else if accept(cs[0].path) && Some(cs[0].path) !in known
    then [cs[0]] + Scan(accept, known + [Some(cs[0].path)], cs[1..])
    else Scan(accept, known, cs[1..])
  }

  /** The scan takes only walked files that pass the filter, and never a
      path already tracked. */
  lemma {:induction false} ScanTakesNewValidPaths(accept: string -> bool, known: seq<Option<string>>, cs: seq<Candidate>)
    ensures forall c :: c in Scan(accept, known, cs) ==> c in cs && accept(c.path) && Some(c.path) !in known
    decreases |cs|
  {
    if cs != [] {
      var c := cs[0];
      if accept(c.path) && Some(c.path) !in known {
        ScanTakesNewValidPaths(accept, known + [Some(c.path)], cs[1..]);
      } else {
        ScanTakesNewValidPaths(accept, known, cs[1..]);
      }
    }
  }

  /** No two candidates share a path. */
  predicate DistinctPaths(cs: seq<Candidate>) {
    forall i, j :: 0 <= i < j < |cs| ==> cs[i].path != cs[j].path
  }

  /** The scan never takes the same path twice. */
  lemma {:induction false} ScanTakesPathsOnce(accept: string -> bool, known: seq<Option<string>>, cs: seq<Candidate>)
    ensures DistinctPaths(Scan(accept, known, cs))
    decreases |cs|
  {
    if cs != [] {
      var c := cs[0];
      if accept(c.path) && Some(c.path) !in known {
        var known' := known + [Some(c.path)];
        ScanTakesPathsOnce(accept, known', cs[1..]);
        ScanTakesNewValidPaths(accept, known', cs[1..]);
        var rest := Scan(accept, known', cs[1..]);
        assert Some(c.path) in known';
        var picked := [c] + rest;
        assert Scan(accept, known, cs) == picked;
        forall i, j | 0 <= i < j < |picked| ensures picked[i].path != picked[j].path {
          if i > 0 {
            assert picked[i] == rest[i - 1] && picked[j] == rest[j - 1];
          } else {
            assert picked[j] in rest;
          }
        }
      } else {
        ScanTakesPathsOnce(accept, known, cs[1..]);
        assert Scan(accept, known, cs) == Scan(accept, known, cs[1..]);
      }
    }
  }

  /** After a scan, every walked file that passes the filter is tracked:
      either it was already, or the scan took it. */
  lemma {:induction false} ScanCoversValidPaths(accept: string -> bool, known: seq<Option<string>>, cs: seq<Candidate>)
    ensures forall c :: c in cs && accept(c.path) ==>
              Some(c.path) in known + PathsOfCandidates(Scan(accept, known, cs))
    decreases |cs|
  {
    if cs != [] {
      var c := cs[0];
      if accept(c.path) && Some(c.path) !in known {
        var known' := known + [Some(c.path)];
        ScanCoversValidPaths(accept, known', cs[1..]);
        var rest := Scan(accept, known', cs[1..]);
        assert known' + PathsOfCandidates(rest) == known + PathsOfCandidates([c] + rest);
      } else {
        ScanCoversValidPaths(accept, known, cs[1..]);
      }
    }
  }

  /** A scan over files that are all tracked or filtered out takes nothing. */
  lemma {:induction false} ScanOfCoveredIsEmpty(accept: string -> bool, known: seq<Option<string>>, cs: seq<Candidate>)
    requires forall c :: c in cs && accept(c.path) ==> Some(c.path) in known
    ensures Scan(accept, known, cs) == []
    decreases |cs|
  {
    if cs != [] {
      ScanOfCoveredIsEmpty(accept, known, cs[1..]);
    }
  }

  /** Scan idempotence: a second scan of the same tree, over the paths the
      first one left tracked, takes nothing. */
  lemma SecondScanTakesNothing(accept: string -> bool, known: seq<Option<string>>, walk: seq<WalkEntry>)
    ensures var cs := Candidates(walk);
            Scan(accept, known + PathsOfCandidates(Scan(accept, known, cs)), cs) == []
  {
    var cs := Candidates(walk);
    ScanCoversValidPaths(accept, known, cs);
    ScanOfCoveredIsEmpty(accept, known + PathsOfCandidates(Scan(accept, known, cs)), cs);
  }

  /** Looking at one more candidate: the scan unfolds by one step. */
  lemma ScanStep(accept: string -> bool, known: seq<Option<string>>, c: Candidate, rest: seq<Candidate>)
    ensures Scan(accept, known, [c] + rest)
            == if accept(c.path) && Some(c.path) !in known
               then [c] + Scan(accept, known + [Some(c.path)], rest)
               else Scan(accept, known, rest)
  {
    assert ([c] + rest)[1..] == rest;
  }

  /** One more candidate looked at: what is taken so far, followed by what
      the rest of the scan takes, is unchanged when the candidate moves from
      the rest to the part already done (and to the taken part exactly when
      it is taken). */
  lemma ScanAdvance(accept: string -> bool, known0: seq<Option<string>>, rest: seq<Candidate>,
                    picked: seq<Candidate>, took: bool)
    requires rest != []
    requires took <==> accept(rest[0].path) && Some(rest[0].path) !in known0 + PathsOfCandidates(picked)
    ensures var picked' := if took then picked + [rest[0]] else picked;
            picked + Scan(accept, known0 + PathsOfCandidates(picked), rest)
            == picked' + Scan(accept, known0 + PathsOfCandidates(picked'), rest[1..])
  {
    var known := known0 + PathsOfCandidates(picked);
    var c := rest[0];
    var tail := rest[1..];
    assert rest == [c] + tail;
    ScanStep(accept, known, c, tail);
    if took {
      PathsOfCandidatesAppend(picked, c);
      assert known0 + PathsOfCandidates(picked + [c]) == known + [Some(c.path)];
      ConcatAssoc(picked, [c], Scan(accept, known + [Some(c.path)], tail));
    }
  }

  /** `files` are the records built for `cs`, one for one. */
  predicate Built(files: seq<SentinelFile>, cs: seq<Candidate>, now: int)
    reads files
  {
    && |files| == |cs|
    && forall k :: 0 <= k < |files| ==>
         files[k].Initial(cs[k].path, now) && files[k].fileName == cs[k].name
  }

  lemma BuiltAppend(files: seq<SentinelFile>, cs: seq<Candidate>, more: seq<SentinelFile>, mcs: seq<Candidate>,
                    now: int)
    requires Built(files, cs, now) && Built(more, mcs, now)
    ensures Built(files + more, cs + mcs, now)
  {
    assert forall k :: 0 <= k < |files| ==> (files + more)[k] == files[k] && (cs + mcs)[k] == cs[k];
    assert forall k :: |files| <= k < |files| + |more| ==>
      (files + more)[k] == more[k - |files|] && (cs + mcs)[k] == mcs[k - |files|];
  }

  /** The records of `files` whose `check_ready_for_delete` holds, in order. */
  function DeleteableOf(files: seq<SentinelFile>, now: int): (r: seq<SentinelFile>)
    reads files
    ensures forall k :: 0 <= k < |r| ==> r[k] in files && r[k].ReadyForDelete(now)
    ensures forall k :: 0 <= k < |files| && files[k].ReadyForDelete(now) ==> files[k] in r
    decreases |files|
  {
    if files == [] then []
    else
      var last := files[|files| - 1];
      var init := files[..|files| - 1];
      assert forall k :: 0 <= k < |files| - 1 ==> files[k] == init[k];
      DeleteableOf(init, now) + if last.ReadyForDelete(now) then [last] else []
  }

  /** Each record occurs among the deletable ones exactly as often as in the
      list when it is ready for deletion, and not at all otherwise. */
  lemma {:induction false} DeleteableOfCounts(files: seq<SentinelFile>, now: int)
    ensures forall x :: x in files ==>
              multiset(DeleteableOf(files, now))[x] == if x.ReadyForDelete(now) then multiset(files)[x] else 0
    decreases |files|
  {
    if files != [] {
      var init := files[..|files| - 1];
      var last := files[|files| - 1];
      assert files == init + [last];
      DeleteableOfCounts(init, now);
      assert DeleteableOf(files, now) == DeleteableOf(init, now) + if last.ReadyForDelete(now) then [last] else [];
    }
  }

  /** `r` is the subsequence of `xs` at the strictly increasing positions `idx`. */
  ghost predicate Picks<T>(xs: seq<T>, idx: seq<int>, r: seq<T>) {
    && |idx| == |r|
    && (forall k :: 0 <= k < |idx| ==> 0 <= idx[k] < |xs| && xs[idx[k]] == r[k])
    && forall i, j :: 0 <= i < j < |idx| ==> idx[i] < idx[j]
  }

  /** Appending one element to the list keeps a subsequence, taking the new
      element or not. */
  lemma PicksExtend<T>(xs: seq<T>, x: T, idx: seq<int>, r: seq<T>, take: bool)
    requires Picks(xs, idx, r)
    ensures take ==> Picks(xs + [x], idx + [|xs|], r + [x])
    ensures !take ==> Picks(xs + [x], idx, r)
  {
    assert forall k :: 0 <= k < |xs| ==> (xs + [x])[k] == xs[k];
  }

  /** The deletable records come in list order: they sit at increasing
      positions of the list. */
  lemma {:induction false} DeleteableOfInOrder(files: seq<SentinelFile>, now: int) returns (idx: seq<int>)
    ensures Picks(files, idx, DeleteableOf(files, now))
    decreases |files|
  {
    if files == [] {
      idx := [];
    } else {
      var init := files[..|files| - 1];
      var last := files[|files| - 1];
      assert files == init + [last];
      var idx0 := DeleteableOfInOrder(init, now);
      var ready := last.ReadyForDelete(now);
      PicksExtend(init, last, idx0, DeleteableOf(init, now), ready);
      idx := if ready then idx0 + [|init|] else idx0;
    }
  }

  /** What the disk reports for a record: stats exist when it has a path and that path is on disk. */
  function StatsOf(disk: map<string, Stats>, f: SentinelFile): (stats: Option<Stats>)
    reads f
    ensures stats.Some? <==> f.filePath.Some? && f.filePath.value != [] && f.filePath.value in disk
    ensures stats.Some? ==> stats.value == disk[f.filePath.value]
  {
    if Truthy(f.filePath) && f.filePath.value in disk then Some(disk[f.filePath.value]) else None
  }

  /** The records of `files` that are ready for upload, in order. */
  function UploadableOf(files: seq<SentinelFile>, disk: map<string, Stats>, now: int): (r: seq<SentinelFile>)
    reads files
    ensures forall k :: 0 <= k < |r| ==> r[k] in files && r[k].UploadReady(StatsOf(disk, r[k]), now)
    ensures forall k :: 0 <= k < |files| && files[k].UploadReady(StatsOf(disk, files[k]), now) ==> files[k] in r
    decreases |files|
  {
    if files == [] then []
    else
      var last := files[|files| - 1];
      var init := files[..|files| - 1];
      assert forall k :: 0 <= k < |files| - 1 ==> files[k] == init[k];
      UploadableOf(init, disk, now) + if last.UploadReady(StatsOf(disk, last), now) then [last] else []
  }

  /** Each record occurs among the uploadable ones exactly as often as in the
      list when it is ready for upload, and not at all otherwise. */
  lemma {:induction false} UploadableOfCounts(files: seq<SentinelFile>, disk: map<string, Stats>, now: int)
    ensures forall x :: x in files ==>
              multiset(UploadableOf(files, disk, now))[x]
              == if x.UploadReady(StatsOf(disk, x), now) then multiset(files)[x] else 0
    decreases |files|
  {
    if files != [] {
      var init := files[..|files| - 1];
      var last := files[|files| - 1];
      assert files == init + [last];
      UploadableOfCounts(init, disk, now);
      var ready := last.UploadReady(StatsOf(disk, last), now);
      assert UploadableOf(files, disk, now) == UploadableOf(init, disk, now) + if ready then [last] else [];
    }
  }

  /** The uploadable records come in list order: they sit at increasing
      positions of the list. */
  lemma {:induction false} UploadableOfInOrder(files: seq<SentinelFile>, disk: map<string, Stats>, now: int)
    returns (idx: seq<int>)
    ensures Picks(files, idx, UploadableOf(files, disk, now))
    decreases |files|
  {
    if files == [] {
      idx := [];
    } else {
      var init := files[..|files| - 1];
      var last := files[|files| - 1];
      assert files == init + [last];
      var idx0 := UploadableOfInOrder(init, disk, now);
      var ready := last.UploadReady(StatsOf(disk, last), now);
      PicksExtend(init, last, idx0, UploadableOf(init, disk, now), ready);
      idx := if ready then idx0 + [|init|] else idx0;
    }
  }

  /** `uploadable_sentinel_files` as written: the readiness call is not
      awaited, so each test sees a coroutine object, which is always true. */
  function UploadableAsWritten(files: seq<SentinelFile>): (r: seq<SentinelFile>)
    ensures r == files
    decreases |files|
  {
    if files == [] then []
    else
      var init := files[..|files| - 1];
      assert files == init + [files[|files| - 1]];
      UploadableAsWritten(init) + if UnawaitedCallIsTruthy then [files[|files| - 1]] else []
  }

  /** As written, every record is uploadable, including those the awaited
      test rejects, such as a deleted record. */
  lemma UnawaitedUploadFilterKeepsAll(files: seq<SentinelFile>, disk: map<string, Stats>, now: int)
    ensures UploadableAsWritten(files) == files
    ensures forall f :: f in files && f.deleted ==> f in UploadableAsWritten(files) && f !in UploadableOf(files, disk, now)
  {
  }

  /** What `dispatch` did with an event: dropped by validation, handed to
      its handler, or not found in the handler map (a `KeyError`). */
  datatype DispatchOutcome = Dropped | Handled | MissingHandler

  class SentinelDirectory {
    const fileSystemPath: string
    const dirAlias: string
    const rules: Rules
    /** `validate_file_path` with this directory's lists, fixed at construction. */
    const fileFilter: string -> bool
    var sentinelFiles: seq<SentinelFile>

    /** The tracked records, as a set (the frame of the readiness poll). */
    ghost function Records(): set<SentinelFile>
      reads this
    {
      set f | f in sentinelFiles
    }

    /** Each record is tracked once. */
    ghost predicate Valid()
      reads this
    {
      Distinct(sentinelFiles)
    }

    /** `SentinelDirectory(file_system_path, ...)`: the alias is the last
        path component; the list starts empty and is filled by a scan of
        `walk` when `monitorOnInit`. */
    constructor (fileSystemPath: string, rules: Rules, monitorOnInit: bool, walk: seq<WalkEntry>, now: int)
      ensures this.fileSystemPath == fileSystemPath && this.rules == rules
      ensures dirAlias == Basename(fileSystemPath) && fileFilter == FileFilter(rules)
      ensures Valid()
      ensures !monitorOnInit ==> sentinelFiles == []
      ensures monitorOnInit ==> Built(sentinelFiles, Scan(fileFilter, [], Candidates(walk)), now)
      ensures forall f :: f in sentinelFiles ==> fresh(f)
    {
      this.fileSystemPath := fileSystemPath;
      this.rules := rules;
      dirAlias := Split(fileSystemPath).1;
      fileFilter := FileFilter(rules);
      sentinelFiles := [];
      new;
      if monitorOnInit {
        InitialScan(walk, now);
      }
    }

    /** The scan `__init__` runs when asked to monitor on creation: on an
        empty list, it leaves exactly the records built for the files the
        scan takes. */
    method InitialScan(walk: seq<WalkEntry>, now: int)
      requires sentinelFiles == []
      modifies this`sentinelFiles
      ensures Valid()
      ensures Built(sentinelFiles, Scan(fileFilter, [], Candidates(walk)), now)
      ensures forall f :: f in sentinelFiles ==> fresh(f)
    {
      assert PathsOf(sentinelFiles) == [];
      var newFiles := MonitorSentinelFiles(walk, now);
      assert sentinelFiles == newFiles;
    }

    /** `sentinel_file_from_file_name`: the first record with that name. */
    method SentinelFileFromFileName(name: string) returns (found: Option<SentinelFile>)
      ensures var i := FirstIndex(NamesOf(sentinelFiles), name);
              && (found.Some? <==> i >= 0)
              && (found.Some? ==> found.value == sentinelFiles[i])
    {
      var k := 0;
      while k < |sentinelFiles|
        invariant 0 <= k <= |sentinelFiles|
        invariant forall j :: 0 <= j < k ==> NamesOf(sentinelFiles)[j] != name
      {
        if sentinelFiles[k].fileName == name {
          assert NamesOf(sentinelFiles)[k] == name;
          return Some(sentinelFiles[k]);
        }
        k := k + 1;
      }
      return None;
    }

    /** `_handle_file_created_event`: append one new record named after the
        last component of the event path, with no check for a record of the
        same name. */
    method HandleFileCreated(event: Event, now: int) returns (created: SentinelFile)
      requires Valid()
      modifies this`sentinelFiles
      ensures Valid()
      ensures fresh(created) && sentinelFiles == old(sentinelFiles) + [created]
      ensures created.Initial(event.srcPath, now) && created.fileName == EventPathPostfix(event)
    {
      var name := EventPathPostfix(event);
      created := new SentinelFile(event.srcPath, name, "", now);
      DistinctAppend(sentinelFiles, created);
      sentinelFiles := sentinelFiles + [created];
    }

    /** `_handle_file_deleted_event`: remove the first record whose name is
        the last component of the event path; without one, nothing changes. */
    method HandleFileDeleted(event: Event) returns (removed: Option<SentinelFile>)
      requires Valid()
      modifies this`sentinelFiles
      ensures Valid()
      ensures var i := FirstIndex(old(NamesOf(sentinelFiles)), EventPathPostfix(event));
              && (i < 0 ==> removed.None? && sentinelFiles == old(sentinelFiles))
              && (i >= 0 ==> removed == Some(old(sentinelFiles[i]))
                             && sentinelFiles == old(sentinelFiles[..i] + sentinelFiles[i + 1..]))
    {
      removed := SentinelFileFromFileName(EventPathPostfix(event));
      if removed.Some? {
        ghost var i := FirstIndex(NamesOf(sentinelFiles), EventPathPostfix(event));
        assert FirstIndex(sentinelFiles, removed.value) == i by {
          assert forall k :: 0 <= k < i ==> NamesOf(sentinelFiles)[k] != EventPathPostfix(event);
        }
        RemoveFirstDistinct(sentinelFiles, removed.value);
        sentinelFiles := RemoveFirst(sentinelFiles, removed.value);
      }
    }

    /** `remove_file`: true exactly when the record was tracked; one
        occurrence is removed and nothing else changes. */
    method RemoveFile(file: SentinelFile) returns (removed: bool)
      requires Valid()
      modifies this`sentinelFiles
      ensures Valid()
      ensures removed <==> file in old(sentinelFiles)
      ensures sentinelFiles == RemoveFirst(old(sentinelFiles), file)
      ensures file !in sentinelFiles
    {
      removed := file in sentinelFiles;
      RemoveFirstDistinct(sentinelFiles, file);
      if removed {
        sentinelFiles := RemoveFirst(sentinelFiles, file);
      }
    }

    /** `dispatch`: an event that fails validation reaches no handler; a
        valid event goes to the handler of its class, where only file
        creation and deletion change the list; a class without a handler
        raises after validation. */
    method Dispatch(event: Event, now: int) returns (outcome: DispatchOutcome)
      requires Valid()
      modifies this`sentinelFiles
      ensures Valid()
      ensures !ValidateEventForHandlers(rules, event) ==> outcome == Dropped && sentinelFiles == old(sentinelFiles)
      ensures ValidateEventForHandlers(rules, event) ==>
                outcome == if event.kind == Unmapped then MissingHandler else Handled
      ensures ValidateEventForHandlers(rules, event) && event.kind == FileCreated ==>
                && |sentinelFiles| == |old(sentinelFiles)| + 1
                && sentinelFiles[..|old(sentinelFiles)|] == old(sentinelFiles)
                && var created := sentinelFiles[|old(sentinelFiles)|];
                   fresh(created) && created.Initial(event.srcPath, now)
                   && created.fileName == EventPathPostfix(event)
      ensures ValidateEventForHandlers(rules, event) && event.kind == FileDeleted ==>
                var i := FirstIndex(old(NamesOf(sentinelFiles)), EventPathPostfix(event));
                sentinelFiles == if i < 0 then old(sentinelFiles) else old(sentinelFiles[..i] + sentinelFiles[i + 1..])
      ensures event.kind != FileCreated && event.kind != FileDeleted ==> sentinelFiles == old(sentinelFiles)
    {
      if !ValidateEventForHandlers(rules, event) {
        return Dropped;
      }
      match event.kind
      case FileCreated =>
        var created := HandleFileCreated(event, now);
        assert (old(sentinelFiles) + [created])[..|old(sentinelFiles)|] == old(sentinelFiles);
        outcome := Handled;
      case FileDeleted =>
        var _ := HandleFileDeleted(event);
        outcome := Handled;
      case Unmapped =>
        outcome := MissingHandler;
      case _ =>
        outcome := Handled;
    }

    /** One file of the walk: take it on when it passes the filter and its
        path is not tracked yet. */
    method ConsiderFile(root: string, name: string, now: int) returns (taken: Option<SentinelFile>)
      requires Valid()
      modifies this`sentinelFiles
      ensures Valid()
      ensures var path := Join(root, name);
              && (taken.Some? <==> fileFilter(path) && Some(path) !in old(PathsOf(sentinelFiles)))
              && (taken.None? ==> sentinelFiles == old(sentinelFiles))
              && (taken.Some? ==>
                    && fresh(taken.value) && sentinelFiles == old(sentinelFiles) + [taken.value]
                    && taken.value.Initial(path, now) && taken.value.fileName == name
                    && PathsOf(sentinelFiles) == old(PathsOf(sentinelFiles)) + [Some(path)])
    {
      var path := Join(root, name);
      taken := None;
      if fileFilter(path) && Some(path) !in PathsOf(sentinelFiles) {
        var file := new SentinelFile(path, name, "", now);
        assert file.fileName == name by {
          if name == [] {
            BasenameOfJoin(root, name);
          }
        }
        PathsOfAppend(sentinelFiles, file);
        DistinctAppend(sentinelFiles, file);
        sentinelFiles := sentinelFiles + [file];
        taken := Some(file);
      }
    }

    /** Part-way through a scan that started with the records `files0`
        (tracking `known0`) over the candidates `all`: the new records were
        built, in order, for the candidates taken so far, and what the scan
        still takes comes from the candidates `rest`. */
    ghost predicate Scanning(files0: seq<SentinelFile>, known0: seq<Option<string>>, all: seq<Candidate>,
                             rest: seq<Candidate>, newFiles: seq<SentinelFile>, picked: seq<Candidate>, now: int)
      reads this, sentinelFiles, newFiles
    {
      && sentinelFiles == files0 + newFiles && Valid()
      && Built(newFiles, picked, now)
      && PathsOf(sentinelFiles) == known0 + PathsOfCandidates(picked)
      && Scan(fileFilter, known0, all) == picked + Scan(fileFilter, known0 + PathsOfCandidates(picked), rest)
    }

    /** One pass of the inner loop of `monitor_sentinel_files`: the file at
        `i` of one walk step, followed in the walk by the candidates `tail`. */
    method MonitorFile(entry: WalkEntry, i: nat, now: int, ghost all: seq<Candidate>, ghost tail: seq<Candidate>,
                       ghost files0: seq<SentinelFile>, ghost known0: seq<Option<string>>,
                       newFiles: seq<SentinelFile>, ghost picked: seq<Candidate>)
      returns (newFiles': seq<SentinelFile>, ghost picked': seq<Candidate>)
      requires i < |entry.files|
      requires Scanning(files0, known0, all, EntryCandidates(entry)[i..] + tail, newFiles, picked, now)
      modifies this`sentinelFiles
      ensures Scanning(files0, known0, all, EntryCandidates(entry)[i + 1..] + tail, newFiles', picked', now)
      ensures forall f :: f in newFiles' ==> f in newFiles || fresh(f)
    {
      ghost var rest := EntryCandidates(entry)[i..] + tail;
      ghost var c := rest[0];
      assert rest[1..] == EntryCandidates(entry)[i + 1..] + tail;
      var taken := ConsiderFile(entry.root, entry.files[i], now);
      assert Built(newFiles, picked, now);
      ScanAdvance(fileFilter, known0, rest, picked, taken.Some?);
      newFiles', picked' := newFiles, picked;
      if taken.Some? {
        TakeStep(files0, known0, all, rest, newFiles, picked, taken.value, now);
        newFiles' := newFiles + [taken.value];
        picked' := picked + [c];
      }
    }

    /** The step of `MonitorFile` that appends the record `f` built for the
        next candidate keeps the scan invariant. */
    lemma TakeStep(files0: seq<SentinelFile>, known0: seq<Option<string>>, all: seq<Candidate>,
                   rest: seq<Candidate>, newFiles: seq<SentinelFile>, picked: seq<Candidate>,
                   f: SentinelFile, now: int)
      requires rest != [] && sentinelFiles == files0 + newFiles + [f] && Valid()
      requires Built(newFiles, picked, now) && f.Initial(rest[0].path, now) && f.fileName == rest[0].name
      requires PathsOf(sentinelFiles) == known0 + PathsOfCandidates(picked) + [Some(rest[0].path)]
      requires Scan(fileFilter, known0, all)
               == picked + [rest[0]] + Scan(fileFilter, known0 + PathsOfCandidates(picked + [rest[0]]), rest[1..])
      ensures Scanning(files0, known0, all, rest[1..], newFiles + [f], picked + [rest[0]], now)
    {
      var c := rest[0];
      assert Built([f], [c], now);
      BuiltAppend(newFiles, picked, [f], [c], now);
      assert files0 + newFiles + [f] == files0 + (newFiles + [f]);
      assert PathsOfCandidates(picked + [c]) == PathsOfCandidates(picked) + [Some(c.path)];
    }

    /** One pass of the outer loop of `monitor_sentinel_files`: the inner
        loop over the files of walk step `w`. */
    method MonitorWalkEntry(walk: seq<WalkEntry>, w: nat, now: int, ghost files0: seq<SentinelFile>,
                            ghost known0: seq<Option<string>>, newFiles: seq<SentinelFile>, ghost picked: seq<Candidate>)
      returns (newFiles': seq<SentinelFile>, ghost picked': seq<Candidate>)
      requires w < |walk|
      requires Scanning(files0, known0, Candidates(walk), Candidates(walk[w..]), newFiles, picked, now)
      modifies this`sentinelFiles
      ensures Scanning(files0, known0, Candidates(walk), Candidates(walk[w + 1..]), newFiles', picked', now)
      ensures forall f :: f in newFiles' ==> f in newFiles || fresh(f)
    {
      var entry := walk[w];
      ghost var tail := Candidates(walk[w + 1..]);
      assert Candidates(walk[w..]) == EntryCandidates(entry)[0..] + tail;
      newFiles', picked' := newFiles, picked;
      var i := 0;
      while i < |entry.files|
        invariant 0 <= i <= |entry.files|
        invariant forall f :: f in newFiles' ==> f in newFiles || fresh(f)
        invariant Scanning(files0, known0, Candidates(walk), EntryCandidates(entry)[i..] + tail, newFiles', picked', now)
      {
        newFiles', picked' := MonitorFile(entry, i, now, Candidates(walk), tail, files0, known0, newFiles', picked');
        i := i + 1;
      }
      assert EntryCandidates(entry)[i..] + tail == tail;
    }

    /** `monitor_sentinel_files`: walk the tree and append a new record for
        every file that passes the filter and whose path is not tracked yet
        (counting the records appended so far); return the new records, in
        walk order. */
    method MonitorSentinelFiles(walk: seq<WalkEntry>, now: int) returns (newFiles: seq<SentinelFile>)
      requires Valid()
      modifies this`sentinelFiles
      ensures Valid()
      ensures sentinelFiles == old(sentinelFiles) + newFiles
      ensures forall f :: f in newFiles ==> fresh(f)
      ensures var picked := Scan(fileFilter, old(PathsOf(sentinelFiles)), Candidates(walk));
              && Built(newFiles, picked, now)
              && PathsOf(sentinelFiles) == old(PathsOf(sentinelFiles)) + PathsOfCandidates(picked)
    {
      ghost var known0 := PathsOf(sentinelFiles);
      ghost var files0 := sentinelFiles;
      ghost var picked: seq<Candidate> := [];
      newFiles := [];
      var w := 0;
      assert walk[w..] == walk && files0 + newFiles == files0;
      assert known0 + PathsOfCandidates(picked) == known0;
      while w < |walk|
        invariant 0 <= w <= |walk|
        invariant forall f :: f in newFiles ==> fresh(f)
        invariant Scanning(files0, known0, Candidates(walk), Candidates(walk[w..]), newFiles, picked, now)
      {
        newFiles, picked := MonitorWalkEntry(walk, w, now, files0, known0, newFiles, picked);
        w := w + 1;
      }
      assert walk[w..] == [];
      assert Scan(fileFilter, known0, Candidates(walk)) == picked + [] == picked;
    }

    /** `deleteable_sentinel_files`: run `check_ready_for_delete` on every
        record (which rewrites its flag) and return those that are ready, in
        order. */
    method DeleteableSentinelFiles(now: int) returns (deletable: seq<SentinelFile>)
      modifies (set f | f in sentinelFiles)`readyForDelete
      ensures deletable == old(DeleteableOf(sentinelFiles, now))
      ensures forall k :: 0 <= k < |sentinelFiles| ==>
                sentinelFiles[k].readyForDelete == old(sentinelFiles[k].ReadyForDelete(now))
    {
      deletable := [];
      var k := 0;
      while k < |sentinelFiles|
        invariant 0 <= k <= |sentinelFiles|
        invariant deletable == old(DeleteableOf(sentinelFiles[..k], now))
        invariant forall j :: 0 <= j < k ==>
                    sentinelFiles[j].readyForDelete == old(sentinelFiles[j].ReadyForDelete(now))
      {
        var file := sentinelFiles[k];
        assert sentinelFiles[..k + 1][..k] == sentinelFiles[..k];
        var ready := file.CheckReadyForDelete(now);
        if ready {
          deletable := deletable + [file];
        }
        k := k + 1;
      }
      assert sentinelFiles[..k] == sentinelFiles;
    }

    /** `uploadable_sentinel_files`, with each readiness check awaited: run
        `is_ready_for_box_upload` on every record against what the disk
        reports for it, and return those that are ready, in order. Each
        record's readiness fields change as that check says, and no other
        field of any record changes. */
    method UploadableSentinelFiles(disk: map<string, Stats>, now: int) returns (uploadable: seq<SentinelFile>)
      requires Valid()
      modifies Records()`stCreationTime, Records()`stLastAccessedTime, Records()`stLastModifiedTime
      modifies Records()`stSize, Records()`stSizeDiffFromCacheOn, Records()`inputComplete, Records()`readyForUpload
      ensures uploadable == old(UploadableOf(sentinelFiles, disk, now))
      ensures forall k :: 0 <= k < |sentinelFiles| ==>
                sentinelFiles[k].ReadinessFields()
                == old(sentinelFiles[k].ReadinessAfter(StatsOf(disk, sentinelFiles[k]), now))
    {
      uploadable := [];
      var k := 0;
      while k < |sentinelFiles|
        invariant 0 <= k <= |sentinelFiles|
        invariant uploadable == old(UploadableOf(sentinelFiles[..k], disk, now))
        invariant forall j :: 0 <= j < k ==>
                    sentinelFiles[j].ReadinessFields()
                    == old(sentinelFiles[j].ReadinessAfter(StatsOf(disk, sentinelFiles[j]), now))
        invariant forall j :: k <= j < |sentinelFiles| ==> unchanged(sentinelFiles[j])
      {
        var file := sentinelFiles[k];
        assert sentinelFiles[..k + 1][..k] == sentinelFiles[..k];
        var stats := StatsOf(disk, file);
        ghost var after := file.ReadinessAfter(stats, now);
        assert after == old(file.ReadinessAfter(stats, now));
        ghost var ready0 := old(file.UploadReady(StatsOf(disk, file), now));
        assert file.UploadReady(stats, now) == ready0;
        assert old(UploadableOf(sentinelFiles[..k + 1], disk, now))
               == old(UploadableOf(sentinelFiles[..k], disk, now)) + if ready0 then [file] else [];
        assert forall j :: 0 <= j < k ==> sentinelFiles[j] != file;
        var ready := file.IsReadyForBoxUpload(stats, now);
        assert file.ReadinessFields() == after;
        if ready {
          uploadable := uploadable + [file];
        }
        k := k + 1;
      }
      assert sentinelFiles[..k] == sentinelFiles;
    }
  }
}
