/** The lines of a block of a diff: their kinds, how many there are of each, and what they say
    about the file. */
module DiffLines {
  import opened DiffBlocks
  import opened Text
  import opened Wrappers

  // ---- kinds of lines, in the order in which they are tried ----

  datatype LineKind =
    | RenameFrom | RenameTo | CopyFrom | CopyTo | NewFile | DeletedFile | BinaryMark
    | OldMarker | NewMarker | Hunk | Addition | Deletion | Plain

  function KindOf(line: string): LineKind {
    if StartsWith(line, "rename from ") then RenameFrom
    else if StartsWith(line, "rename to ") then RenameTo
    else if StartsWith(line, "copy from ") then CopyFrom
    else if StartsWith(line, "copy to ") then CopyTo
    else if StartsWith(line, "new file mode ") then NewFile
    else if StartsWith(line, "deleted file mode ") then DeletedFile
    else if StartsWith(line, "GIT binary patch") || StartsWith(line, "Binary files ") then BinaryMark
    else if StartsWith(line, "--- ") then OldMarker
    else if StartsWith(line, "+++ ") then NewMarker
    else if StartsWith(line, "@@") then Hunk
    else if StartsWith(line, "+") && !StartsWith(line, "+++") then Addition
    else if StartsWith(line, "-") && !StartsWith(line, "---") then Deletion
    else Plain
  }

  lemma HeaderIsPlain(line: string)
    requires HEADER <= line
    ensures KindOf(line) == Plain
  {
    hide StartsWith;
    assert line[0] == 'd' && line[1] == 'i';
    Beginnings(line);
  }

  // ---- counting lines ----

  /** The lines from `i` to `end` that satisfy `counts`. */
  function CountLines(text: string, i: nat, end: nat, counts: string -> bool): nat
    requires i <= end <= |text|
    decreases end - i
  {
    if i == end then 0
    else
      (if counts(LineAt(text, i, end)) then 1 else 0) + CountLines(text, LineEnd(text, i, end), end, counts)
  }

  function IsKind(kind: LineKind): string -> bool {
    (line: string) => KindOf(line) == kind
  }

  function CountKind(text: string, i: nat, end: nat, kind: LineKind): nat
    requires i <= end <= |text|
  {
    CountLines(text, i, end, IsKind(kind))
  }

  lemma {:induction false} SameLineEnd(text: string, i: nat, m: nat, end: nat)
    requires i < m <= end <= |text| && (m < end ==> text[m - 1] == '\n')
    ensures LineEnd(text, i, m) == LineEnd(text, i, end)
    decreases m - i
  {
    if text[i] != '\n' && i + 1 < m {
      SameLineEnd(text, i + 1, m, end);
    }
  }

  /** A place where a line ends splits the count. */
  lemma {:induction false} CountSplits(text: string, i: nat, m: nat, end: nat, counts: string -> bool)
    requires i <= m <= end <= |text| && (i < m < end ==> text[m - 1] == '\n')
    ensures CountLines(text, i, end, counts) == CountLines(text, i, m, counts) + CountLines(text, m, end, counts)
    decreases m - i
  {
    if i < m {
      SameLineEnd(text, i, m, end);
      CountSplits(text, LineEnd(text, i, m), m, end, counts);
    }
  }

  // ---- the file of a block ----

  /** How paths are read off header lines, marker lines and the rest of rename lines. */
  datatype PathReader = PathReader(
    header: string -> (Option<string>, Option<string>),
    marker: string -> Option<string>,
    normalize: string -> string)

  datatype ChangeType = Modified | Renamed | Copied | Added | Deleted | Binary

  datatype Scan = Scan(oldPath: Option<string>, newPath: Option<string>, change: ChangeType, isBinary: bool)

  function ScanLine(s: Scan, line: string, paths: PathReader): Scan {
    match KindOf(line)
    case RenameFrom => s.(oldPath := Some(Trim(line[12..])), change := Renamed)
    case RenameTo => s.(newPath := Some(Trim(line[10..])), change := Renamed)
    case CopyFrom => s.(oldPath := Some(Trim(line[10..])), change := Copied)
    case CopyTo => s.(newPath := Some(Trim(line[8..])), change := Copied)
    case NewFile => s.(change := Added)
    case DeletedFile => s.(change := Deleted)
    case BinaryMark => s.(isBinary := true)
    case OldMarker => s.(oldPath := paths.marker(line[4..]))
    case NewMarker => s.(newPath := paths.marker(line[4..]))
    case _ => s
  }

  /** The scan of the lines from `i` on that start before `n`. */
  function ScanLines(s: Scan, text: string, i: nat, end: nat, paths: PathReader): Scan
    requires i <= end <= |text|
    decreases end - i
  {
    if i == end then s
    else ScanLines(ScanLine(s, LineAt(text, i, end), paths), text, LineEnd(text, i, end), end, paths)
  }

  function FinalChange(s: Scan): ChangeType {
    if s.change != Modified then s.change
    else if s.oldPath.None? && s.newPath.Some? then Added
    else if s.newPath.None? && s.oldPath.Some? then Deleted
    else if s.isBinary then Binary
    else Modified
  }

  function Normalized(path: Option<string>, paths: PathReader): Option<string> {
    if path.Some? then Some(paths.normalize(path.value)) else None
  }

  /** A deleted file is listed under its old path. */
  function NewPathOf(s: Scan, paths: PathReader): Option<string> {
    Normalized(if s.newPath.Some? then s.newPath else s.oldPath, paths)
  }

  datatype FileDiff = FileDiff(
    oldPath: Option<string>, newPath: string, change: ChangeType, isBinary: bool,
    additions: nat, deletions: nat, hunks: nat, start: nat, end: nat)

  ghost predicate CountsBlock(text: string, f: FileDiff)
  {
    && f.start < f.end <= |text|
    && f.additions == CountKind(text, f.start, f.end, Addition)
    && f.deletions == CountKind(text, f.start, f.end, Deletion)
    && f.hunks == CountKind(text, f.start, f.end, Hunk)
    && (f.isBinary <==> CountKind(text, f.start, f.end, BinaryMark) > 0)
  }

  lemma {:induction false} BinaryExactly(s: Scan, text: string, i: nat, end: nat, paths: PathReader)
    requires i <= end <= |text|
    ensures ScanLines(s, text, i, end, paths).isBinary <==> s.isBinary || CountKind(text, i, end, BinaryMark) > 0
    decreases end - i
  {
    if i < end {
      var t, line := ScanLine(s, LineAt(text, i, end), paths), LineAt(text, i, end);
      BinaryExactly(t, text, LineEnd(text, i, end), end, paths);
      assert t.isBinary <==> s.isBinary || KindOf(line) == BinaryMark;
    }
  }

  /** The scan of a block behind its header line. */
  function ScanBlock(text: string, start: nat, end: nat, paths: PathReader): Scan
    requires start < end <= |text|
  {
    var (oldPath, newPath) := paths.header(LineAt(text, start, end));
    ScanLines(Scan(oldPath, newPath, Modified, false), text, LineEnd(text, start, end), end, paths)
  }

  // ---- kinds, told from the text ----

  /** A line of the text from `first` on begins at `j`. */
  ghost predicate Begins(text: string, first: nat, end: nat, j: nat) {
    first <= j < end <= |text| && (j == first || text[j - 1] == '\n')
  }

  /** The text from `j` on begins with `prefix`. */
  ghost predicate Reads(text: string, j: nat, end: nat, prefix: string) {
    j <= end <= |text| && prefix <= text[j..end]
  }

  lemma ReadsLine(text: string, j: nat, end: nat, prefix: string)
    requires j < end <= |text| && OneLine(prefix)
    ensures StartsWith(LineAt(text, j, end), prefix) <==> Reads(text, j, end, prefix)
  {
    LineBegins(text, j, end, prefix);
  }

  ghost predicate IsAddition(text: string, j: nat, end: nat) {
    Reads(text, j, end, "+") && !Reads(text, j, end, "+++")
  }

  ghost predicate IsDeletion(text: string, j: nat, end: nat) {
    Reads(text, j, end, "-") && !Reads(text, j, end, "---")
  }

  ghost predicate IsBinaryMark(text: string, j: nat, end: nat) {
    Reads(text, j, end, "GIT binary patch") || Reads(text, j, end, "Binary files ")
  }

  /** No line begins in two of the ways. */
  lemma Beginnings(line: string)
    ensures StartsWith(line, "rename from ") ==> |line| > 7 && line[0] == 'r' && line[7] == 'f'
    ensures StartsWith(line, "rename to ") ==> |line| > 7 && line[0] == 'r' && line[7] == 't'
    ensures StartsWith(line, "copy from ") ==> |line| > 5 && line[0] == 'c' && line[5] == 'f'
    ensures StartsWith(line, "copy to ") ==> |line| > 5 && line[0] == 'c' && line[5] == 't'
    ensures StartsWith(line, "new file mode ") ==> |line| > 0 && line[0] == 'n'
    ensures StartsWith(line, "deleted file mode ") ==> |line| > 1 && line[0] == 'd' && line[1] == 'e'
    ensures StartsWith(line, "GIT binary patch") ==> |line| > 0 && line[0] == 'G'
    ensures StartsWith(line, "Binary files ") ==> |line| > 0 && line[0] == 'B'
    ensures StartsWith(line, "--- ") ==> |line| > 0 && line[0] == '-' && StartsWith(line, "---")
    ensures StartsWith(line, "+++ ") ==> |line| > 0 && line[0] == '+' && StartsWith(line, "+++")
    ensures StartsWith(line, "@@") ==> |line| > 0 && line[0] == '@'
    ensures StartsWith(line, "+") ==> |line| > 0 && line[0] == '+'
    ensures StartsWith(line, "-") ==> |line| > 0 && line[0] == '-'
  {
  }

  lemma CountedKinds(text: string, j: nat, end: nat)
    requires j < end <= |text|
    ensures var kind := KindOf(LineAt(text, j, end));
            && (kind == Addition <==> IsAddition(text, j, end))
            && (kind == Deletion <==> IsDeletion(text, j, end))
            && (kind == Hunk <==> Reads(text, j, end, "@@"))
            && (kind == BinaryMark <==> IsBinaryMark(text, j, end))
  {
    hide LineEnd, Reads, StartsWith;
    Beginnings(LineAt(text, j, end));
    ReadsLine(text, j, end, "+");
    ReadsLine(text, j, end, "+++");
    ReadsLine(text, j, end, "-");
    ReadsLine(text, j, end, "---");
    ReadsLine(text, j, end, "@@");
    ReadsLine(text, j, end, "GIT binary patch");
    ReadsLine(text, j, end, "Binary files ");
  }

  // ---- the last line that says something ----

  /** What a line says about the kind of change. */
  ghost function ChangeAt(text: string, j: nat, end: nat): Option<ChangeType> {
    if Reads(text, j, end, "rename from ") || Reads(text, j, end, "rename to ") then Some(Renamed)
    else if Reads(text, j, end, "copy from ") || Reads(text, j, end, "copy to ") then Some(Copied)
    else if Reads(text, j, end, "new file mode ") then Some(Added)
    else if Reads(text, j, end, "deleted file mode ") then Some(Deleted)
    else None
  }

  /** What it says about the old path. */
  ghost function OldAt(text: string, j: nat, end: nat, paths: PathReader): Option<Option<string>>
    requires j < end <= |text|
  {
    var line := LineAt(text, j, end);
    if StartsWith(line, "rename from ") then Some(Some(Trim(line[|"rename from "|..])))
    else if StartsWith(line, "copy from ") then Some(Some(Trim(line[|"copy from "|..])))
    else if StartsWith(line, "--- ") then Some(paths.marker(line[|"--- "|..]))
    else None
  }

  ghost function NewAt(text: string, j: nat, end: nat, paths: PathReader): Option<Option<string>>
    requires j < end <= |text|
  {
    var line := LineAt(text, j, end);
    if StartsWith(line, "rename to ") then Some(Some(Trim(line[|"rename to "|..])))
    else if StartsWith(line, "copy to ") then Some(Some(Trim(line[|"copy to "|..])))
    else if StartsWith(line, "+++ ") then Some(paths.marker(line[|"+++ "|..]))
    else None
  }

  lemma SaysChange(s: Scan, text: string, j: nat, end: nat, paths: PathReader)
    requires j < end <= |text|
    ensures ScanLine(s, LineAt(text, j, end), paths).change == ChangeAt(text, j, end).GetOr(s.change)
  {
    hide LineEnd, Trim, Reads, StartsWith;
    Beginnings(LineAt(text, j, end));
    ReadsLine(text, j, end, "rename from ");
    ReadsLine(text, j, end, "rename to ");
    ReadsLine(text, j, end, "copy from ");
    ReadsLine(text, j, end, "copy to ");
    ReadsLine(text, j, end, "new file mode ");
    ReadsLine(text, j, end, "deleted file mode ");
  }

  lemma SaysPaths(s: Scan, text: string, j: nat, end: nat, paths: PathReader)
    requires j < end <= |text|
    ensures ScanLine(s, LineAt(text, j, end), paths).oldPath == OldAt(text, j, end, paths).GetOr(s.oldPath)
    ensures ScanLine(s, LineAt(text, j, end), paths).newPath == NewAt(text, j, end, paths).GetOr(s.newPath)
  {
    hide LineEnd, Trim, StartsWith;
    Beginnings(LineAt(text, j, end));
  }

  /** The last entry counts; without any, what there was before. */
  ghost predicate LastOf<T>(m: map<nat, T>, before: T, r: T) {
    if m == map[] then r == before else exists j: nat :: IsLast(m, j) && r == m[j]
  }

  ghost predicate IsLast<T>(m: map<nat, T>, j: nat) {
    j in m && forall l | l in m :: l <= j
  }

  ghost function Changes(text: string, first: nat, end: nat): map<nat, ChangeType> {
    map j: nat | first <= j < end && Begins(text, first, end, j) && ChangeAt(text, j, end).Some?
      :: ChangeAt(text, j, end).value
  }

  ghost function OldPaths(text: string, first: nat, end: nat, paths: PathReader): map<nat, Option<string>> {
    map j: nat | first <= j < end && Begins(text, first, end, j) && OldAt(text, j, end, paths).Some?
      :: OldAt(text, j, end, paths).value
  }

  ghost function NewPaths(text: string, first: nat, end: nat, paths: PathReader): map<nat, Option<string>> {
    map j: nat | first <= j < end && Begins(text, first, end, j) && NewAt(text, j, end, paths).Some?
      :: NewAt(text, j, end, paths).value
  }

  /** `m` has the entries of the rest of the lines, and that of the first line if it has one. */
  lemma LastFromFirst<T>(m: map<nat, T>, rest: map<nat, T>, first: nat, here: Option<T>, before: T, r: T)
    requires LastOf(rest, here.GetOr(before), r) && forall j | j in rest :: j > first
    requires m == if here.Some? then rest[first := here.value] else rest
    ensures LastOf(m, before, r)
  {
    if rest == map[] {
      assert here.Some? ==> IsLast(m, first);
    } else {
      var j: nat :| IsLast(rest, j) && r == rest[j];
      assert IsLast(m, j) && m[j] == r;
    }
  }

  /** The lines from `first` on are that line and those from the next on. */
  lemma BeginsNext(text: string, first: nat, end: nat, j: nat)
    requires first < end <= |text|
    ensures Begins(text, first, end, j) <==> j == first || Begins(text, LineEnd(text, first, end), end, j)
  {
    var next := LineEnd(text, first, end);
    if first < j < next {
      NoFeedWithin(text, first, end, j - 1);
    }
  }

  lemma LinesStep(text: string, first: nat, end: nat)
    requires first < end <= |text|
    ensures var next := LineEnd(text, first, end);
            && (forall j: nat :: Begins(text, first, end, j) <==> j == first || Begins(text, next, end, j))
            && (forall j: nat | Begins(text, next, end, j) :: first < next <= j < end)
  {
    var next := LineEnd(text, first, end);
    forall j: nat
      ensures Begins(text, first, end, j) <==> j == first || Begins(text, next, end, j)
    {
      BeginsNext(text, first, end, j);
    }
  }

  lemma ChangesStep(text: string, first: nat, end: nat, before: ChangeType, r: ChangeType)
    requires first < end <= |text|
    requires LastOf(Changes(text, LineEnd(text, first, end), end), ChangeAt(text, first, end).GetOr(before), r)
    ensures LastOf(Changes(text, first, end), before, r)
  {
    hide ChangeAt, LastOf, Begins, LineEnd;
    var rest := Changes(text, LineEnd(text, first, end), end);
    LinesStep(text, first, end);
    LastFromFirst(Changes(text, first, end), rest, first, ChangeAt(text, first, end), before, r);
  }

  lemma OldPathsStep(text: string, first: nat, end: nat, paths: PathReader, before: Option<string>, r: Option<string>)
    requires first < end <= |text|
    requires LastOf(OldPaths(text, LineEnd(text, first, end), end, paths),
                    OldAt(text, first, end, paths).GetOr(before), r)
    ensures LastOf(OldPaths(text, first, end, paths), before, r)
  {
    hide OldAt, LastOf, Begins, LineEnd;
    var rest := OldPaths(text, LineEnd(text, first, end), end, paths);
    LinesStep(text, first, end);
    LastFromFirst(OldPaths(text, first, end, paths), rest, first, OldAt(text, first, end, paths), before, r);
  }

  lemma NewPathsStep(text: string, first: nat, end: nat, paths: PathReader, before: Option<string>, r: Option<string>)
    requires first < end <= |text|
    requires LastOf(NewPaths(text, LineEnd(text, first, end), end, paths),
                    NewAt(text, first, end, paths).GetOr(before), r)
    ensures LastOf(NewPaths(text, first, end, paths), before, r)
  {
    hide NewAt, LastOf, Begins, LineEnd;
    var rest := NewPaths(text, LineEnd(text, first, end), end, paths);
    LinesStep(text, first, end);
    LastFromFirst(NewPaths(text, first, end, paths), rest, first, NewAt(text, first, end, paths), before, r);
  }

  ghost predicate SaysLast(s: Scan, text: string, first: nat, end: nat, paths: PathReader, r: Scan)
    requires first <= end <= |text|
  {
    && LastOf(Changes(text, first, end), s.change, r.change)
    && LastOf(OldPaths(text, first, end, paths), s.oldPath, r.oldPath)
    && LastOf(NewPaths(text, first, end, paths), s.newPath, r.newPath)
  }

  lemma NoLineSays(s: Scan, text: string, end: nat, paths: PathReader)
    requires end <= |text|
    ensures SaysLast(s, text, end, end, paths, s)
  {
  }

  /** The scan ends with what the last lines say. */
  lemma {:induction false} ScanMeans(s: Scan, text: string, first: nat, end: nat, paths: PathReader)
    requires first <= end <= |text|
    ensures SaysLast(s, text, first, end, paths, ScanLines(s, text, first, end, paths))
    decreases end - first
  {
    hide ScanLine, LastOf, Changes, OldPaths, NewPaths, ChangeAt, OldAt, NewAt;
    if first == end {
      NoLineSays(s, text, end, paths);
    } else {
      var line, next := LineAt(text, first, end), LineEnd(text, first, end);
      var r := ScanLines(s, text, first, end, paths);
      ScanMeans(ScanLine(s, line, paths), text, next, end, paths);
      SaysChange(s, text, first, end, paths);
      SaysPaths(s, text, first, end, paths);
      ChangesStep(text, first, end, s.change, r.change);
      OldPathsStep(text, first, end, paths, s.oldPath, r.oldPath);
      NewPathsStep(text, first, end, paths, s.newPath, r.newPath);
    }
  }

  // ---- counts, told from the text ----

  ghost function LinesOf(text: string, first: nat, end: nat, kind: LineKind): set<nat> {
    set j: nat | first <= j < end && Begins(text, first, end, j) && KindOf(LineAt(text, j, end)) == kind
  }

  lemma LinesOfStep(text: string, first: nat, end: nat, kind: LineKind)
    requires first < end <= |text|
    ensures |LinesOf(text, first, end, kind)|
            == |LinesOf(text, LineEnd(text, first, end), end, kind)|
               + (if KindOf(LineAt(text, first, end)) == kind then 1 else 0)
  {
    hide Begins, KindOf, LineEnd;
    LinesStep(text, first, end);
    var all, rest := LinesOf(text, first, end, kind), LinesOf(text, LineEnd(text, first, end), end, kind);
    var here := KindOf(LineAt(text, first, end)) == kind;
    assert forall j: nat :: j in all <==> j in rest || (j == first && here);
    assert first !in rest;
    OneMore(all, rest, first, here);
  }

  lemma OneMore(all: set<nat>, rest: set<nat>, x: nat, here: bool)
    requires x !in rest && forall j: nat :: j in all <==> j in rest || (j == x && here)
    ensures |all| == |rest| + (if here then 1 else 0)
  {
    assert all == if here then rest + {x} else rest;
  }

  lemma {:induction false} CountMeans(text: string, first: nat, end: nat, kind: LineKind)
    requires first <= end <= |text|
    ensures CountKind(text, first, end, kind) == |LinesOf(text, first, end, kind)|
    decreases end - first
  {
    hide Begins, KindOf, LinesOf;
    if first == end {
      NoLines(text, end, kind);
    } else {
      CountMeans(text, LineEnd(text, first, end), end, kind);
      LinesOfStep(text, first, end, kind);
    }
  }

  lemma NoLines(text: string, end: nat, kind: LineKind)
    requires end <= |text|
    ensures LinesOf(text, end, end, kind) == {}
  {
  }

  ghost function Additions(text: string, first: nat, end: nat): set<nat> {
    set j: nat | first <= j < end && Begins(text, first, end, j) && IsAddition(text, j, end)
  }

  ghost function Deletions(text: string, first: nat, end: nat): set<nat> {
    set j: nat | first <= j < end && Begins(text, first, end, j) && IsDeletion(text, j, end)
  }

  ghost function Hunks(text: string, first: nat, end: nat): set<nat> {
    set j: nat | first <= j < end && Begins(text, first, end, j) && Reads(text, j, end, "@@")
  }

  ghost function BinaryMarks(text: string, first: nat, end: nat): set<nat> {
    set j: nat | first <= j < end && Begins(text, first, end, j) && IsBinaryMark(text, j, end)
  }

  lemma CountsMean(text: string, first: nat, end: nat)
    requires first <= end <= |text|
    ensures CountKind(text, first, end, Addition) == |Additions(text, first, end)|
    ensures CountKind(text, first, end, Deletion) == |Deletions(text, first, end)|
    ensures CountKind(text, first, end, Hunk) == |Hunks(text, first, end)|
    ensures CountKind(text, first, end, BinaryMark) > 0 <==> BinaryMarks(text, first, end) != {}
  {
    hide Begins, KindOf, LineEnd, CountKind, IsAddition, IsDeletion, Reads, IsBinaryMark;
    forall j: nat | j < end
      ensures var kind := KindOf(LineAt(text, j, end));
              && (kind == Addition <==> IsAddition(text, j, end))
              && (kind == Deletion <==> IsDeletion(text, j, end))
              && (kind == Hunk <==> Reads(text, j, end, "@@"))
              && (kind == BinaryMark <==> IsBinaryMark(text, j, end))
    {
      CountedKinds(text, j, end);
    }
    CountMeans(text, first, end, Addition);
    CountMeans(text, first, end, Deletion);
    CountMeans(text, first, end, Hunk);
    CountMeans(text, first, end, BinaryMark);
    assert LinesOf(text, first, end, Addition) == Additions(text, first, end);
    assert LinesOf(text, first, end, Deletion) == Deletions(text, first, end);
    assert LinesOf(text, first, end, Hunk) == Hunks(text, first, end);
    assert LinesOf(text, first, end, BinaryMark) == BinaryMarks(text, first, end);
  }

  // ---- the file of a block, told from the text ----

  /** The last lines behind the header that say something about the file. */
  ghost predicate ReadsFile(text: string, start: nat, end: nat, paths: PathReader, s: Scan)
    requires start < end <= |text|
  {
    var first := LineEnd(text, start, end);
    && LastOf(Changes(text, first, end), Modified, s.change)
    && LastOf(OldPaths(text, first, end, paths), paths.header(LineAt(text, start, end)).0, s.oldPath)
    && LastOf(NewPaths(text, first, end, paths), paths.header(LineAt(text, start, end)).1, s.newPath)
  }

  ghost predicate CountsMeant(text: string, f: FileDiff) {
    && f.start < f.end <= |text|
    && f.additions == |Additions(text, f.start, f.end)|
    && f.deletions == |Deletions(text, f.start, f.end)|
    && f.hunks == |Hunks(text, f.start, f.end)|
    && (f.isBinary <==> BinaryMarks(text, f.start, f.end) != {})
  }

  /** A file whose lines say nothing of a change is added if it has no old path, deleted if it
      has no new one, and else modified; without a new path it is listed under the old one. */
  ghost predicate DescribesFile(s: Scan, paths: PathReader, f: FileDiff) {
    && (s.oldPath.Some? || s.newPath.Some?)
    && (f.oldPath.Some? <==> s.oldPath.Some?)
    && (s.oldPath.Some? ==> f.oldPath.value == paths.normalize(s.oldPath.value))
    && f.newPath == paths.normalize(if s.newPath.Some? then s.newPath.value else s.oldPath.value)
    && (s.change != Modified ==> f.change == s.change)
    && (s.change == Modified ==>
          && (f.change == Added <==> s.oldPath.None?) && (f.change == Deleted <==> s.newPath.None?)
          && (s.oldPath.Some? && s.newPath.Some? ==> f.change == if f.isBinary then Binary else Modified))
  }

  ghost predicate FileMeans(text: string, paths: PathReader, f: FileDiff) {
    CountsMeant(text, f) && exists s :: ReadsFile(text, f.start, f.end, paths, s) && DescribesFile(s, paths, f)
  }

  /** Neither the header nor the last line of each kind leaves a path. */
  ghost predicate HasNoPath(text: string, start: nat, end: nat, paths: PathReader)
    requires start < end <= |text|
  {
    exists s :: ReadsFile(text, start, end, paths, s) && s.oldPath.None? && s.newPath.None?
  }

  lemma BlockReads(text: string, start: nat, end: nat, paths: PathReader)
    requires start < end <= |text|
    ensures ReadsFile(text, start, end, paths, ScanBlock(text, start, end, paths))
  {
    hide ScanLines, LastOf, Changes, OldPaths, NewPaths, LineEnd;
    var (oldPath, newPath) := paths.header(LineAt(text, start, end));
    ScanMeans(Scan(oldPath, newPath, Modified, false), text, LineEnd(text, start, end), end, paths);
  }

  lemma FileIsMeant(text: string, start: nat, end: nat, paths: PathReader, f: FileDiff)
    requires CountsBlock(text, f) && f.start == start && f.end == end
    requires var s := ScanBlock(text, start, end, paths);
             && f.change == FinalChange(s.(isBinary := f.isBinary)) && f.oldPath == Normalized(s.oldPath, paths)
             && Some(f.newPath) == NewPathOf(s, paths)
    ensures FileMeans(text, paths, f)
  {
    hide ScanBlock, ReadsFile;
    CountsMean(text, start, end);
    BlockReads(text, start, end, paths);
    assert DescribesFile(ScanBlock(text, start, end, paths), paths, f);
  }

  lemma LastIsOne<T>(m: map<nat, T>, before: T, a: T, b: T)
    requires LastOf(m, before, a) && LastOf(m, before, b)
    ensures a == b
  {
    if m != map[] {
      var i: nat :| IsLast(m, i) && a == m[i];
      var j: nat :| IsLast(m, j) && b == m[j];
      assert i == j;
    }
  }

  lemma NoPathIsMeant(text: string, start: nat, end: nat, paths: PathReader)
    requires start < end <= |text|
    ensures HasNoPath(text, start, end, paths)
            <==> (var s := ScanBlock(text, start, end, paths); s.oldPath.None? && s.newPath.None?)
  {
    hide ScanBlock, LastOf, Changes, OldPaths, NewPaths;
    var t := ScanBlock(text, start, end, paths);
    var first := LineEnd(text, start, end);
    var header := paths.header(LineAt(text, start, end));
    BlockReads(text, start, end, paths);
    if s :| ReadsFile(text, start, end, paths, s) && s.oldPath.None? && s.newPath.None? {
      LastIsOne(OldPaths(text, first, end, paths), header.0, s.oldPath, t.oldPath);
      LastIsOne(NewPaths(text, first, end, paths), header.1, s.newPath, t.newPath);
    }
  }
}
