/**
 * The pure half of `SentinelDirectory`: which file and directory paths a
 * watched directory tracks, and which file-system events reach a handler.
 */
module PathFilter {
  import opened Optional
  import opened PosixPath

  /** The filter lists of one watched directory (a missing list is empty). */
  datatype Rules = Rules(
    ignoredFiles: seq<string>,
    ignoredExtensions: seq<string>,
    ignoredDirectories: seq<string>,
    includedFilePrefix: seq<string>,
    includedDirectories: seq<string>)

  /** The loop over `included_file_prefix`: some entry occurs in `stem`. */
  function AnyOccursIn(needles: seq<string>, stem: string): (r: bool)
    ensures r <==> exists p :: p in needles && Contains(stem, p)
  {
    if needles == [] then false
    else
      assert forall p :: p in needles <==> p == needles[0] || p in needles[1..];
      Contains(stem, needles[0]) || AnyOccursIn(needles[1..], stem)
  }

  /** The nested loops over `included_directories` and the path segments:
      some included name equals some segment. */
  function AnyIsSegment(names: seq<string>, segments: seq<string>): (r: bool)
    ensures r <==> exists d :: d in names && d in segments
  {
    if names == [] then false
    else
      assert forall d :: d in names <==> d == names[0] || d in names[1..];
      names[0] in segments || AnyIsSegment(names[1..], segments)
  }

  /** `validate_file_path`: a file is tracked unless its name or extension is
      ignored, and (when the lists are non-empty) some included prefix occurs
      in its lower-cased stem and some included directory is a '/'-segment of
      its parent path. */
  function ValidateFilePath(rules: Rules, filePath: string): (valid: bool)
    ensures var name := Basename(filePath);
            var stemExt := SplitExt(name);
            valid <==>
              && name !in rules.ignoredFiles
              && stemExt.1 !in rules.ignoredExtensions
              && (rules.includedFilePrefix != [] ==>
                    exists p :: p in rules.includedFilePrefix && Contains(Lower(stemExt.0), p))
              && (rules.includedDirectories != [] ==>
                    exists d :: d in rules.includedDirectories && d in SplitOn(Dirname(filePath), '/'))
  {
    var (head, name) := Split(filePath);
    var (stem, extension) := SplitExt(name);
    assert head == Dirname(filePath) && name == Basename(filePath);
    if name in rules.ignoredFiles || extension in rules.ignoredExtensions then false
    else if rules.includedFilePrefix != [] && !AnyOccursIn(rules.includedFilePrefix, Lower(stem)) then false
    else if rules.includedDirectories != [] && !AnyIsSegment(rules.includedDirectories, SplitOn(head, '/')) then false
    else true
  }

  /** The loop of `validate_directory_path`: no item is an ignored directory. */
  function NoneIgnored(items: seq<string>, ignored: seq<string>): (r: bool)
    ensures r <==> forall k :: 0 <= k < |items| ==> items[k] !in ignored
  {
    items == [] || (items[0] !in ignored && NoneIgnored(items[1..], ignored))
  }

  /** `validate_directory_path`: only the two pieces of `os.path.split` are
      looked at, the parent path as a whole and the last component. */
  function ValidateDirectoryPath(rules: Rules, directoryPath: string): (valid: bool)
    ensures valid <==> Dirname(directoryPath) !in rules.ignoredDirectories
                       && Basename(directoryPath) !in rules.ignoredDirectories
  {
    var (head, tail) := Split(directoryPath);
    var items := [head, tail];
    assert items[0] == Dirname(directoryPath) && items[1] == Basename(directoryPath);
    NoneIgnored(items, rules.ignoredDirectories)
  }

  /** An ignored directory deeper in the path does not reject it: only the
      parent path as a whole and the last component are compared. */
  lemma DeeperIgnoredDirectoryIsAccepted(rules: Rules)
    requires rules.ignoredDirectories == [".git"]
    ensures ValidateDirectoryPath(rules, "/srv/.git/hooks")
  {
    var p := "/srv/.git/hooks";
    RFindAt(p, '/', 9);
    assert |Basename(p)| == 5;
    assert Dirname(p)[0] == '/';
  }

  /** The watchdog event classes the dispatcher knows, plus any other class
      (`Unmapped`), which has no entry in the handler map. */
  datatype EventKind =
    | DirCreated | DirDeleted | DirModified | DirMoved
    | FileCreated | FileDeleted | FileModified | FileMoved
    | FileSystemMoved
    | Unmapped

  /** A file-system event: its class and its source path. */
  datatype Event = Event(kind: EventKind, srcPath: string)

  /** `type(event) in directory_event_types`. */
  predicate IsDirectoryKind(kind: EventKind) {
    kind in {DirDeleted, DirModified, DirCreated, DirMoved}
  }

  /** `type(event) in file_event_types`. */
  predicate IsFileKind(kind: EventKind) {
    kind in {FileDeleted, FileModified, FileCreated, FileMoved}
  }

  /** `validate_directory_event_for_handlers`: no verdict (None) for an event
      that is not of a directory class. */
  function ValidateDirectoryEventForHandlers(rules: Rules, event: Event): (verdict: Option<bool>)
    ensures verdict.Some? <==> IsDirectoryKind(event.kind)
    ensures verdict == Some(false) <==> IsDirectoryKind(event.kind) && !ValidateDirectoryPath(rules, event.srcPath)
  {
    if IsDirectoryKind(event.kind) then Some(ValidateDirectoryPath(rules, event.srcPath)) else None
  }

  /** `validate_file_event_for_handlers`: no verdict (None) for an event that
      is not of a file class. */
  function ValidateFileEventForHandlers(rules: Rules, event: Event): (verdict: Option<bool>)
    ensures verdict.Some? <==> IsFileKind(event.kind)
    ensures verdict == Some(false) <==> IsFileKind(event.kind) && !ValidateFilePath(rules, event.srcPath)
  {
    if IsFileKind(event.kind) then Some(ValidateFilePath(rules, event.srcPath)) else None
  }

  /** `validate_event_for_handlers`: an event is dropped only when it is of a
      directory class and its path fails the directory filter, or of a file
      class and its path fails the file filter; every other class passes. */
  function ValidateEventForHandlers(rules: Rules, event: Event): (valid: bool)
    ensures valid <==>
              && (IsDirectoryKind(event.kind) ==> ValidateDirectoryPath(rules, event.srcPath))
              && (IsFileKind(event.kind) ==> ValidateFilePath(rules, event.srcPath))
    ensures !IsDirectoryKind(event.kind) && !IsFileKind(event.kind) ==> valid
  {
    var directoryVerdict := ValidateDirectoryEventForHandlers(rules, event);
    if directoryVerdict == Some(false) then false
    else if directoryVerdict.None? then ValidateFileEventForHandlers(rules, event) != Some(false)
    else true
  }

  /** `_event_path_postfix`: the last component of the event's source path. */
  function EventPathPostfix(event: Event): (name: string)
    ensures name == Basename(event.srcPath)
  {
    Split(event.srcPath).1
  }

  /** The extension the file filter sees in "/data/report.tmp". */
  lemma ReportTmpExtension()
    ensures SplitExt(Basename("/data/report.tmp")).1 == ".tmp"
  {
    var p := "/data/report.tmp";
    RFindAt(p, '/', 5);
    var name := Basename(p);
    assert name == p[6..];
    RFindAt(name, '.', 6);
    assert HasNonDot(name, 0, 6) by { assert name[0] != '.'; }
    assert name[6..] == ".tmp";
  }

  /** A created file with an ignored extension is dropped before any handler
      runs, whatever the other lists say. */
  lemma IgnoredExtensionDropsEvent(rules: Rules)
    requires ".tmp" in rules.ignoredExtensions
    ensures !ValidateEventForHandlers(rules, Event(FileCreated, "/data/report.tmp"))
  {
    ReportTmpExtension();
  }

  /** The stem the file filter sees in "/in/Q3_Report.csv": the first nine
      characters of its last component. */
  lemma QuarterReportStem(p: string)
    requires p == "/in/Q3_Report.csv"
    ensures Basename(p) == p[4..] && SplitExt(Basename(p)).0 == p[4..13]
  {
    RFindAt(p, '/', 3);
    var name := Basename(p);
    RFindAt(name, '.', 9);
    assert HasNonDot(name, 0, 9) by { assert name[0] != '.'; }
  }

  /** "rep" occurs at index 3 of the lower-cased stem "q3_report". */
  lemma QuarterReportLowerStem(p: string)
    requires p == "/in/Q3_Report.csv"
    ensures OccursAt("rep", Lower(p[4..13]), 3)
  {
    var lower := Lower(p[4..13]);
    assert lower[3] == 'r' && lower[4] == 'e' && lower[5] == 'p';
  }

  /** The included-prefix test is a substring test on the lower-cased stem:
      "rep" admits "Q3_Report.csv", where it is not a prefix. */
  lemma IncludedPrefixIsSubstringTest()
    ensures ValidateFilePath(Rules([], [], [], ["rep"], []), "/in/Q3_Report.csv")
  {
    var p := "/in/Q3_Report.csv";
    QuarterReportStem(p);
    QuarterReportLowerStem(p);
    assert AnyOccursIn(["rep"], Lower(p[4..13]));
  }
}
