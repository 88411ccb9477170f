/** `parse_diff_metadata`: the file of every block, with its counts of lines. */
module DiffFiles {
  import opened DiffBlocks
  import opened DiffLines
  import opened Wrappers

  /** `parse_block`; a block without any path is dropped. */
  method ParseBlock(text: string, start: nat, end: nat, paths: PathReader) returns (r: Option<FileDiff>)
    requires start < end <= |text| && HEADER <= LineAt(text, start, end)
    ensures r.None? <==> HasNoPath(text, start, end, paths)
    ensures r.Some? ==> FileMeans(text, paths, r.value)
    ensures r.None? <==> (var s := ScanBlock(text, start, end, paths); s.oldPath.None? && s.newPath.None?)
    ensures r.Some? ==> CountsBlock(text, r.value) && r.value.start == start && r.value.end == end
    ensures r.Some? ==> r.value.change == FinalChange(ScanBlock(text, start, end, paths))
    ensures r.Some? ==> r.value.oldPath == Normalized(ScanBlock(text, start, end, paths).oldPath, paths)
    ensures r.Some? ==> Some(r.value.newPath) == NewPathOf(ScanBlock(text, start, end, paths), paths)
  {
    hide FileMeans, HasNoPath;
    var header := LineAt(text, start, end);
    HeaderIsPlain(header);
    var (oldPath, newPath) := paths.header(header);
    var s := Scan(oldPath, newPath, Modified, false);
    var additions, deletions, hunks := 0, 0, 0;
    var i := LineEnd(text, start, end);
    BinaryExactly(s, text, i, end, paths);
    NoPathIsMeant(text, start, end, paths);
    while i < end
      invariant i <= end
      invariant ScanLines(s, text, i, end, paths) == ScanBlock(text, start, end, paths)
      invariant additions + CountKind(text, i, end, Addition) == CountKind(text, start, end, Addition)
      invariant deletions + CountKind(text, i, end, Deletion) == CountKind(text, start, end, Deletion)
      invariant hunks + CountKind(text, i, end, Hunk) == CountKind(text, start, end, Hunk)
      decreases end - i
    {
      var line := LineAt(text, i, end);
      s := ScanLine(s, line, paths);
      match KindOf(line) {
        case Hunk => hunks := hunks + 1;
        case Addition => additions := additions + 1;
        case Deletion => deletions := deletions + 1;
        case _ =>
      }
      i := LineEnd(text, i, end);
    }
    if s.oldPath.None? && s.newPath.None? {
      return None;
    }
    var oldNormal := Normalized(s.oldPath, paths);
    var newNormal := Normalized(s.newPath, paths);
    if newNormal.None? {
      newNormal := oldNormal;
    }
    var file := FileDiff(oldNormal, newNormal.value, FinalChange(s), s.isBinary, additions, deletions, hunks,
                         start, end);
    FileIsMeant(text, start, end, paths, file);
    return Some(file);
  }

  // ---- the whole text ----

  function Total(files: seq<FileDiff>, n: nat, count: FileDiff -> nat): nat
    requires n <= |files|
  {
    if n == 0 then 0 else Total(files, n - 1, count) + count(files[n - 1])
  }

  /** The files of the blocks before the `k`th, when none of these was dropped. */
  ghost predicate Covers(text: string, starts: seq<nat>, k: nat, files: seq<FileDiff>)
    requires ListsHeaders(text, |text|, starts) && 0 < |starts| && k <= |starts|
  {
    && |files| == k
    && forall i | 0 <= i < k ::
         CountsBlock(text, files[i]) && files[i].start == starts[i] && files[i].end == BlockEnd(text, starts, i)
  }

  ghost predicate Pathless(text: string, starts: seq<nat>, k: nat, paths: PathReader)
    requires k < |starts|
  {
    starts[k] < BlockEnd(text, starts, k) <= |text| && HasNoPath(text, starts[k], BlockEnd(text, starts, k), paths)
  }

  ghost predicate IsFileOf(text: string, starts: seq<nat>, k: nat, paths: PathReader, f: FileDiff)
    requires k < |starts|
  {
    f.start == starts[k] && f.end == BlockEnd(text, starts, k) && FileMeans(text, paths, f)
  }

  ghost predicate IsFile(text: string, starts: seq<nat>, k: nat, paths: PathReader, f: FileDiff)
    requires k <= |starts|
  {
    exists b :: 0 <= b < k && IsFileOf(text, starts, b, paths, f)
  }

  ghost predicate HasFile(files: seq<FileDiff>, start: nat) {
    exists i :: 0 <= i < |files| && files[i].start == start
  }

  /** The files of exactly those of the first `k` blocks that have a path, in their order. */
  ghost predicate ListsFiles(text: string, starts: seq<nat>, k: nat, paths: PathReader, files: seq<FileDiff>)
    requires k <= |starts|
  {
    && (forall i | 0 <= i < |files| :: IsFile(text, starts, k, paths, files[i]))
    && (forall b | 0 <= b < k :: HasFile(files, starts[b]) <==> !Pathless(text, starts, b, paths))
    && (forall i, j | 0 <= i < j < |files| :: files[i].start < files[j].start)
  }

  lemma FilesBefore(text: string, starts: seq<nat>, k: nat, paths: PathReader, files: seq<FileDiff>)
    requires ListsHeaders(text, |text|, starts) && k < |starts| && ListsFiles(text, starts, k, paths, files)
    ensures forall i | 0 <= i < |files| :: files[i].start < starts[k]
  {
    forall i | 0 <= i < |files|
      ensures files[i].start < starts[k]
    {
      assert IsFile(text, starts, k, paths, files[i]);
    }
  }

  lemma FileAdded(text: string, starts: seq<nat>, k: nat, paths: PathReader, files: seq<FileDiff>, f: FileDiff)
    requires ListsHeaders(text, |text|, starts) && k < |starts| && ListsFiles(text, starts, k, paths, files)
    requires IsFileOf(text, starts, k, paths, f) && !Pathless(text, starts, k, paths)
    ensures ListsFiles(text, starts, k + 1, paths, files + [f])
  {
    hide IsFileOf, Pathless;
    var more := files + [f];
    FilesBefore(text, starts, k, paths, files);
    FileStarts(text, starts, k, paths, f);
    forall i | 0 <= i < |more|
      ensures IsFile(text, starts, k + 1, paths, more[i])
    {
      if i < |files| {
        assert IsFile(text, starts, k, paths, files[i]);
      }
    }
    forall b | 0 <= b < k + 1
      ensures HasFile(more, starts[b]) <==> !Pathless(text, starts, b, paths)
    {
      assert more[|files|].start == starts[k];
      if i :| 0 <= i < |files| && files[i].start == starts[b] {
        assert more[i].start == starts[b];
      }
    }
  }

  lemma FileStarts(text: string, starts: seq<nat>, k: nat, paths: PathReader, f: FileDiff)
    requires k < |starts| && IsFileOf(text, starts, k, paths, f)
    ensures f.start == starts[k]
  {
  }

  lemma BlockDropped(text: string, starts: seq<nat>, k: nat, paths: PathReader, files: seq<FileDiff>)
    requires ListsHeaders(text, |text|, starts) && k < |starts| && ListsFiles(text, starts, k, paths, files)
    requires Pathless(text, starts, k, paths)
    ensures ListsFiles(text, starts, k + 1, paths, files)
  {
    hide IsFileOf, Pathless;
    FilesBefore(text, starts, k, paths, files);
    forall i | 0 <= i < |files|
      ensures IsFile(text, starts, k + 1, paths, files[i])
    {
      assert IsFile(text, starts, k, paths, files[i]);
    }
  }

  lemma NoFiles(text: string, starts: seq<nat>, paths: PathReader)
    ensures ListsFiles(text, starts, 0, paths, [])
  {
  }

  method ParseBlockAt(text: string, starts: seq<nat>, k: nat, paths: PathReader) returns (r: Option<FileDiff>)
    requires ListsHeaders(text, |text|, starts) && k < |starts|
    ensures r.None? <==> Pathless(text, starts, k, paths)
    ensures r.Some? ==> IsFileOf(text, starts, k, paths, r.value)
    ensures r.Some? ==>
              CountsBlock(text, r.value) && r.value.start == starts[k] && r.value.end == BlockEnd(text, starts, k)
  {
    BlockBounds(text, starts, k);
    HeaderLine(text, starts[k], BlockEnd(text, starts, k));
    r := ParseBlock(text, starts[k], BlockEnd(text, starts, k), paths);
  }

  /** `parse_diff_metadata` for a text with a header line; `complete` says that no block was
      dropped. */
  method ParseBlocks(text: string, paths: PathReader)
    returns (starts: seq<nat>, files: seq<FileDiff>, ghost complete: bool)
    ensures ListsHeaders(text, |text|, starts) && |files| <= |starts|
    ensures ListsFiles(text, starts, |starts|, paths, files)
    ensures complete <==> |files| == |starts|
    ensures complete && starts != [] ==> Covers(text, starts, |starts|, files)
    ensures forall i | 0 <= i < |files| :: CountsBlock(text, files[i])
  {
    hide ListsFiles, Pathless, IsFileOf, CountsBlock;
    starts := FindBlockStarts(text);
    files := [];
    NoFiles(text, starts, paths);
    complete := true;
    for k := 0 to |starts|
      invariant ListsFiles(text, starts, k, paths, files)
      invariant |files| <= k && (complete <==> |files| == k)
      invariant complete && starts != [] ==> Covers(text, starts, k, files)
      invariant forall i | 0 <= i < |files| :: CountsBlock(text, files[i])
    {
      var parsed := ParseBlockAt(text, starts, k, paths);
      if parsed.Some? {
        FileAdded(text, starts, k, paths, files, parsed.value);
        files := files + [parsed.value];
      } else {
        BlockDropped(text, starts, k, paths, files);
        complete := false;
      }
    }
  }

  lemma HeaderLine(text: string, i: nat, end: nat)
    requires IsHeader(text, i) && i < end <= |text| && (end < |text| ==> text[end - 1] == '\n')
    ensures HEADER <= LineAt(text, i, end)
  {
    SameLineEnd(text, i, end, |text|);
  }

  function AdditionsOf(): FileDiff -> nat {
    (f: FileDiff) => f.additions
  }

  function DeletionsOf(): FileDiff -> nat {
    (f: FileDiff) => f.deletions
  }

  /** `count` is the number of lines that satisfy `counts` in the `i`th block. */
  ghost predicate CountsBlockLines(text: string, starts: seq<nat>, i: nat, f: FileDiff, counts: string -> bool,
                                   count: FileDiff -> nat)
    requires i < |starts|
  {
    && starts[i] < BlockEnd(text, starts, i) <= |text|
    && count(f) == CountLines(text, starts[i], BlockEnd(text, starts, i), counts)
  }

  /** Up to the end of the `k`th block the counts of the files add up to those of the text. */
  lemma {:induction false} CountsAddUp(text: string, starts: seq<nat>, k: nat, files: seq<FileDiff>,
                                       counts: string -> bool, count: FileDiff -> nat)
    requires k < |starts| && k < |files|
    requires forall i | 0 <= i <= k :: CountsBlockLines(text, starts, i, files[i], counts, count)
    requires forall i | 0 < i <= k :: IsLineStart(text, starts[i])
    ensures starts[0] <= BlockEnd(text, starts, k) <= |text|
    ensures Total(files, k + 1, count) == CountLines(text, starts[0], BlockEnd(text, starts, k), counts)
  {
    assert CountsBlockLines(text, starts, k, files[k], counts, count);
    if k == 0 {
      assert Total(files, 0, count) == 0;
    } else {
      assert CountsBlockLines(text, starts, k - 1, files[k - 1], counts, count);
      CountsAddUp(text, starts, k - 1, files, counts, count);
      CountSplits(text, starts[0], starts[k], BlockEnd(text, starts, k), counts);
    }
  }

  /** When no block is dropped, the additions and deletions of the files are the addition and
      deletion lines of the text from the first header on. */
  lemma AllLinesCounted(text: string, starts: seq<nat>, files: seq<FileDiff>)
    requires ListsHeaders(text, |text|, starts) && starts != [] && Covers(text, starts, |starts|, files)
    ensures starts[0] <= |text|
    ensures Total(files, |files|, AdditionsOf()) == CountKind(text, starts[0], |text|, Addition)
    ensures Total(files, |files|, DeletionsOf()) == CountKind(text, starts[0], |text|, Deletion)
  {
    forall i | 0 <= i < |starts|
      ensures CountsBlockLines(text, starts, i, files[i], IsKind(Addition), AdditionsOf())
      ensures CountsBlockLines(text, starts, i, files[i], IsKind(Deletion), DeletionsOf())
    {
      assert CountsBlock(text, files[i]);
    }
    forall i | 0 < i < |starts|
      ensures IsLineStart(text, starts[i])
    {
      BlockBounds(text, starts, i);
    }
    CountsAddUp(text, starts, |starts| - 1, files, IsKind(Addition), AdditionsOf());
    CountsAddUp(text, starts, |starts| - 1, files, IsKind(Deletion), DeletionsOf());
  }
}
