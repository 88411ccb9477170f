/** `find_block_starts`: where the files of a diff begin, and that the blocks between these
    places partition the text. */
module DiffBlocks {

  const HEADER: string := "diff --git "

  /** The end of the line that starts at `i`, behind its line feed if it has one. */
  function LineEnd(text: string, i: nat, end: nat): (e: nat)
    requires i < end <= |text|
    ensures i < e <= end
    ensures e < end ==> text[e - 1] == '\n'
    decreases end - i
  {
    if text[i] == '\n' || i + 1 == end then i + 1 else LineEnd(text, i + 1, end)
  }

  lemma {:induction false} NoFeedWithin(text: string, i: nat, end: nat, j: nat)
    requires i < end <= |text| && i <= j < LineEnd(text, i, end) - 1
    ensures text[j] != '\n'
    decreases end - i
  {
    if i < j {
      NoFeedWithin(text, i + 1, end, j);
    }
  }

  lemma {:induction false} EndOfLine(text: string, i: nat, end: nat, e: nat)
    requires i < e <= end <= |text| && (forall j | i <= j < e - 1 :: text[j] != '\n')
    requires e < end ==> text[e - 1] == '\n'
    ensures LineEnd(text, i, end) == e
    decreases end - i
  {
    if i + 1 < e {
      EndOfLine(text, i + 1, end, e);
    }
  }

  predicate IsLineStart(text: string, i: nat) {
    i < |text| && (i == 0 || text[i - 1] == '\n')
  }

  function LineAt(text: string, i: nat, end: nat): string
    requires i < end <= |text|
  {
    text[i..LineEnd(text, i, end)]
  }

  predicate IsHeader(text: string, i: nat) {
    IsLineStart(text, i) && HEADER <= LineAt(text, i, |text|)
  }

  ghost predicate OneLine(prefix: string) {
    forall i | 0 <= i < |prefix| :: prefix[i] != '\n'
  }

  lemma LineBegins(text: string, j: nat, end: nat, prefix: string)
    requires j < end <= |text| && OneLine(prefix)
    ensures prefix <= LineAt(text, j, end) <==> prefix <= text[j..end]
  {
    var e := LineEnd(text, j, end);
    assert text[j..e] == text[j..end][..e - j];
  }

  /** A header stands at the beginning of a line. */
  ghost predicate BeginsFile(text: string, i: nat) {
    i < |text| && (i == 0 || text[i - 1] == '\n') && "diff --git " <= text[i..]
  }

  lemma HeaderBeginsFile(text: string, i: nat)
    ensures IsHeader(text, i) <==> BeginsFile(text, i)
  {
    if i < |text| {
      LineBegins(text, i, |text|, HEADER);
    }
  }

  ghost predicate Increasing(s: seq<nat>) {
    forall i, j | 0 <= i < j < |s| :: s[i] < s[j]
  }

  /** Exactly the header lines that start before `n`. */
  ghost predicate ListsHeaders(text: string, n: nat, starts: seq<nat>) {
    Increasing(starts) && forall i: nat :: i in starts <==> i < n && IsHeader(text, i)
  }

  lemma NoStartWithin(text: string, i: nat, j: nat)
    requires i < |text| && i < j < LineEnd(text, i, |text|)
    ensures !IsLineStart(text, j)
  {
    NoFeedWithin(text, i, |text|, j - 1);
  }

  lemma NextLine(text: string, offset: nat, starts: seq<nat>)
    requires IsLineStart(text, offset) && ListsHeaders(text, offset, starts)
    ensures ListsHeaders(text, LineEnd(text, offset, |text|),
                         if HEADER <= LineAt(text, offset, |text|) then starts + [offset] else starts)
  {
    var next := LineEnd(text, offset, |text|);
    var more := if HEADER <= LineAt(text, offset, |text|) then starts + [offset] else starts;
    forall j: nat | offset < j < next
      ensures !IsHeader(text, j)
    {
      NoStartWithin(text, offset, j);
    }
    assert forall i | 0 <= i < |starts| :: starts[i] in starts;
    forall i: nat
      ensures i in more <==> i < next && IsHeader(text, i)
    {
      assert i in more <==> i in starts || (i == offset && HEADER <= LineAt(text, offset, |text|));
    }
  }

  /** Where the last line starts, for a text that does not end in a line feed. */
  method LastLineStart(text: string) returns (start: nat)
    requires text != "" && text[|text| - 1] != '\n'
    ensures IsLineStart(text, start) && LineEnd(text, start, |text|) == |text|
  {
    start := |text| - 1;
    while start > 0 && text[start - 1] != '\n'
      invariant start < |text| && forall j | start <= j < |text| :: text[j] != '\n'
    {
      start := start - 1;
    }
    EndOfLine(text, start, |text|, |text|);
  }

  /** The extra look at an unterminated last line never finds a start that the loop missed. */
  method FindBlockStarts(text: string) returns (starts: seq<nat>)
    ensures ListsHeaders(text, |text|, starts)
    ensures forall i: nat :: i in starts <==> BeginsFile(text, i)
  {
    starts := [];
    var offset := 0;
    while offset < |text|
      invariant offset <= |text| && (offset < |text| ==> IsLineStart(text, offset))
      invariant ListsHeaders(text, offset, starts)
      decreases |text| - offset
    {
      var line := LineAt(text, offset, |text|);
      NextLine(text, offset, starts);
      if HEADER <= line {
        starts := starts + [offset];
      }
      offset := offset + |line|;
    }
    starts := AddLastLine(text, starts);
    forall i: nat
      ensures i in starts <==> BeginsFile(text, i)
    {
      HeaderBeginsFile(text, i);
    }
  }

  /** The look at an unterminated last line. */
  method AddLastLine(text: string, found: seq<nat>) returns (starts: seq<nat>)
    requires ListsHeaders(text, |text|, found)
    ensures starts == found
  {
    starts := found;
    if text != "" && text[|text| - 1] != '\n' {
      var start := LastLineStart(text);
      if HEADER <= text[start..] {
        LastIsGreatest(text, starts, start);
        if starts == [] || starts[|starts| - 1] != start {
          starts := starts + [start];
        }
      }
    }
  }

  lemma GreatestIsLast(starts: seq<nat>, x: nat)
    requires Increasing(starts) && x in starts && forall i | 0 <= i < |starts| :: starts[i] <= x
    ensures starts != [] && starts[|starts| - 1] == x
  {
    var k :| 0 <= k < |starts| && starts[k] == x;
  }

  lemma NothingAfterLast(text: string, start: nat, j: nat)
    requires start < |text| && LineEnd(text, start, |text|) == |text| && IsLineStart(text, j)
    ensures j <= start
  {
    if start < j {
      NoStartWithin(text, start, j);
    }
  }

  lemma LastIsGreatest(text: string, starts: seq<nat>, start: nat)
    requires ListsHeaders(text, |text|, starts)
    requires IsLineStart(text, start) && LineEnd(text, start, |text|) == |text| && HEADER <= text[start..]
    ensures starts != [] && starts[|starts| - 1] == start
  {
    assert IsHeader(text, start);
    forall i | 0 <= i < |starts|
      ensures starts[i] <= start
    {
      assert starts[i] in starts && IsHeader(text, starts[i]);
      NothingAfterLast(text, start, starts[i]);
    }
    GreatestIsLast(starts, start);
  }

  // ---- the blocks ----

  function BlockEnd(text: string, starts: seq<nat>, k: nat): nat
    requires k < |starts|
  {
    if k + 1 < |starts| then starts[k + 1] else |text|
  }

  /** The text of the `k`th block. */
  function Block(text: string, starts: seq<nat>, k: nat): string
    requires k < |starts| && starts[k] <= BlockEnd(text, starts, k) <= |text|
  {
    text[starts[k]..BlockEnd(text, starts, k)]
  }

  lemma BlockBounds(text: string, starts: seq<nat>, k: nat)
    requires ListsHeaders(text, |text|, starts) && k < |starts|
    ensures starts[k] < BlockEnd(text, starts, k) <= |text|
    ensures IsHeader(text, starts[k])
    ensures BlockEnd(text, starts, k) < |text| ==> text[BlockEnd(text, starts, k) - 1] == '\n'
  {
    assert starts[k] in starts;
    if k + 1 < |starts| {
      assert starts[k + 1] in starts;
    }
  }

  /** The blocks from the `k`th on, one after the other. */
  function BlocksFrom(text: string, starts: seq<nat>, k: nat): string
    requires ListsHeaders(text, |text|, starts) && k <= |starts|
    decreases |starts| - k
  {
    if k == |starts| then ""
    else
      BlockBounds(text, starts, k);
      Block(text, starts, k) + BlocksFrom(text, starts, k + 1)
  }

  /** The blocks are the text from the first header on ... */
  lemma {:induction false} BlocksCoverText(text: string, starts: seq<nat>, k: nat)
    requires ListsHeaders(text, |text|, starts) && k < |starts|
    ensures starts[k] <= |text| && BlocksFrom(text, starts, k) == text[starts[k]..]
    decreases |starts| - k
  {
    BlockBounds(text, starts, k);
    var a, e := starts[k], BlockEnd(text, starts, k);
    JoinSlices(text, a, e);
    if k + 1 < |starts| {
      BlocksCoverText(text, starts, k + 1);
    }
    assert BlocksFrom(text, starts, k + 1) == text[e..];
  }

  lemma JoinSlices(text: string, a: nat, e: nat)
    requires a <= e <= |text|
    ensures text[a..e] + text[e..] == text[a..]
  {
  }

  /** ... each begins with a header and holds no second one, and before the first there is
      none. */
  lemma OneHeaderEach(text: string, starts: seq<nat>, k: nat, i: nat)
    requires ListsHeaders(text, |text|, starts) && k < |starts| && IsHeader(text, i)
    ensures i >= starts[0]
    ensures starts[k] < BlockEnd(text, starts, k) <= |text| && HEADER <= Block(text, starts, k)
    ensures starts[k] <= i < BlockEnd(text, starts, k) ==> i == starts[k]
  {
    BlockBounds(text, starts, k);
    assert i in starts;
    var l :| 0 <= l < |starts| && starts[l] == i;
    HeaderFits(text, starts[k], BlockEnd(text, starts, k));
  }

  lemma HeaderFits(text: string, i: nat, end: nat)
    requires IsHeader(text, i) && i < end <= |text| && (end < |text| ==> text[end - 1] == '\n')
    ensures HEADER <= text[i..end]
  {
    var e := LineEnd(text, i, |text|);
    if end < e {
      NoFeedWithin(text, i, |text|, end - 1);
    }
    assert text[i..e] <= text[i..end];
  }
}
