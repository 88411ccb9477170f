/** `recompute_rollups`: from the patches of every version and their canonical mainline
    matches to the merge state of versions and series, in one pass over the joined rows. */
module Rollup {
  import opened Sorting
  import opened Wrappers

  datatype CommitInfo = CommitInfo(
    oid: string, tag: Option<string>, release: Option<string>, tagKey: Option<int>, releaseKey: Option<int>)

  datatype VersionKey = VersionKey(num: int, sentAt: int, id: int)

  /** A row of the join: a version with one of its assembled items, if it has any, and the
      commit of the item's canonical match, of which there is at most one. */
  datatype Row = Row(seriesId: int, version: VersionKey, isPatch: bool, commit: Option<CommitInfo>)

  datatype State = Unmerged | Partial | Merged

  datatype VersionSummary = VersionSummary(
    seriesId: int, version: VersionKey, state: State, matched: nat, total: nat,
    mergedInTag: Option<string>, mergedInRelease: Option<string>, singleCommit: Option<string>)

  datatype SeriesSummary = SeriesSummary(
    state: State, matched: nat, total: nat, mergedInTag: Option<string>, mergedInRelease: Option<string>,
    singleCommit: Option<string>, mergedVersion: Option<int>)

  /** The version columns of a row depend on its version only. */
  ghost predicate Joined(rows: seq<Row>) {
    forall i, j | 0 <= i < |rows| && 0 <= j < |rows| && rows[i].version.id == rows[j].version.id ::
      rows[i].version == rows[j].version && rows[i].seriesId == rows[j].seriesId
  }

  // ---- the set definition ----

  function PatchRows(rows: seq<Row>, n: nat, v: int): set<nat>
    requires n <= |rows|
  {
    set i: nat | i < n && rows[i].version.id == v && rows[i].isPatch
  }

  function MatchedRows(rows: seq<Row>, n: nat, v: int): set<nat>
    requires n <= |rows|
  {
    set i: nat | i < n && rows[i].version.id == v && rows[i].isPatch && rows[i].commit.Some?
  }

  function VersionIds(rows: seq<Row>, n: nat): set<int>
    requires n <= |rows|
  {
    set i: nat | i < n :: rows[i].version.id
  }

  /** The two names that a version takes from its matches, each with a key of its own. */
  datatype Naming = ByTag | ByRelease

  function KeyOf(which: Naming, c: CommitInfo): Option<int> {
    if which == ByTag then c.tagKey else c.releaseKey
  }

  function NameOf(which: Naming, c: CommitInfo): Option<string> {
    if which == ByTag then c.tag else c.release
  }

  function KeyAt(which: Naming, rows: seq<Row>, i: nat): Option<int>
    requires i < |rows|
  {
    if rows[i].commit.Some? then KeyOf(which, rows[i].commit.value) else None
  }

  /** `i` is the first matched patch with the greatest key. */
  ghost predicate HasGreatest(which: Naming, rows: seq<Row>, n: nat, v: int, i: nat)
    requires n <= |rows|
  {
    && i in MatchedRows(rows, n, v) && KeyAt(which, rows, i).Some?
    && forall j | j in MatchedRows(rows, n, v) && KeyAt(which, rows, j).Some? ::
         KeyAt(which, rows, j).value < KeyAt(which, rows, i).value
         || (KeyAt(which, rows, j).value == KeyAt(which, rows, i).value && i <= j)
  }

  /** The greatest key seen and the name that came with it. */
  datatype Best = Best(key: Option<int>, name: Option<string>)

  /** The name that belongs to the best key; none if no match has a key. */
  ghost predicate IsBest(which: Naming, rows: seq<Row>, n: nat, v: int, best: Best)
    requires n <= |rows|
  {
    match best.key
    case None => best.name == None && forall i | i in MatchedRows(rows, n, v) :: KeyAt(which, rows, i) == None
    case Some(_) =>
      exists i: nat :: HasGreatest(which, rows, n, v, i)
                       && best == Best(KeyAt(which, rows, i), NameOf(which, rows[i].commit.value))
  }

  // ---- the accumulators of the pass ----

  datatype Accumulator = Accumulator(
    seriesId: int, version: VersionKey, total: nat, matched: nat, tag: Best, release: Best, commits: seq<string>)

  ghost predicate CommitsOf(rows: seq<Row>, n: nat, v: int, commits: seq<string>)
    requires n <= |rows|
  {
    forall i | i in MatchedRows(rows, n, v) :: rows[i].commit.value.oid in commits
  }

  /** What an accumulator holds after the first `n` rows. */
  ghost predicate Accumulates(rows: seq<Row>, n: nat, v: int, a: Accumulator)
    requires n <= |rows|
  {
    && (forall i | 0 <= i < n && rows[i].version.id == v ::
          a.version == rows[i].version && a.seriesId == rows[i].seriesId)
    && a.version.id == v
    && a.total == |PatchRows(rows, n, v)| && a.matched == |MatchedRows(rows, n, v)|
    && |a.commits| == a.matched && CommitsOf(rows, n, v, a.commits)
    && IsBest(ByTag, rows, n, v, a.tag)
    && IsBest(ByRelease, rows, n, v, a.release)
  }

  lemma RowsOfStep(rows: seq<Row>, n: nat, v: int)
    requires n < |rows|
    ensures var r := rows[n];
            && PatchRows(rows, n + 1, v) == PatchRows(rows, n, v) + (if r.version.id == v && r.isPatch then {n} else {})
            && MatchedRows(rows, n + 1, v)
               == MatchedRows(rows, n, v) + (if r.version.id == v && r.isPatch && r.commit.Some? then {n} else {})
            && n !in PatchRows(rows, n, v) && n !in MatchedRows(rows, n, v)
  {
  }

  lemma SameBest(which: Naming, rows: seq<Row>, n: nat, v: int, best: Best)
    requires n < |rows| && MatchedRows(rows, n + 1, v) == MatchedRows(rows, n, v)
    requires IsBest(which, rows, n, v, best)
    ensures IsBest(which, rows, n + 1, v, best)
  {
    assert forall i :: HasGreatest(which, rows, n, v, i) ==> HasGreatest(which, rows, n + 1, v, i);
  }

  /** A row that is not a patch of the version leaves its accumulator as it is. */
  lemma OtherRow(rows: seq<Row>, n: nat, v: int, a: Accumulator)
    requires n < |rows| && Accumulates(rows, n, v, a)
    requires rows[n].version.id == v ==>
               !rows[n].isPatch && a.version == rows[n].version && a.seriesId == rows[n].seriesId
    ensures Accumulates(rows, n + 1, v, a)
  {
    RowsOfStep(rows, n, v);
    SameBest(ByTag, rows, n, v, a.tag);
    SameBest(ByRelease, rows, n, v, a.release);
  }

  /** A strictly greater key replaces the best one. */
  function Update(best: Best, key: Option<int>, name: Option<string>): Best {
    if key.Some? && (best.key.None? || key.value > best.key.value) then Best(key, name) else best
  }

  ghost predicate MatchedRow(rows: seq<Row>, n: nat, v: int) {
    n < |rows| && rows[n].version.id == v && rows[n].isPatch && rows[n].commit.Some?
  }

  lemma BestStep(which: Naming, rows: seq<Row>, n: nat, v: int, best: Best)
    requires MatchedRow(rows, n, v) && IsBest(which, rows, n, v, best)
    ensures var c := rows[n].commit.value;
            IsBest(which, rows, n + 1, v, Update(best, KeyOf(which, c), NameOf(which, c)))
  {
    var c := rows[n].commit.value;
    RowsOfStep(rows, n, v);
    if Update(best, KeyOf(which, c), NameOf(which, c)) != best {
      assert HasGreatest(which, rows, n + 1, v, n);
    } else if best.key.Some? {
      var i: nat :|
        HasGreatest(which, rows, n, v, i) && best == Best(KeyAt(which, rows, i), NameOf(which, rows[i].commit.value));
      assert HasGreatest(which, rows, n + 1, v, i);
    }
  }

  lemma MatchedStep(rows: seq<Row>, n: nat, v: int, a: Accumulator)
    requires MatchedRow(rows, n, v) && Accumulates(rows, n, v, a)
    requires a.version == rows[n].version && a.seriesId == rows[n].seriesId
    ensures var c := rows[n].commit.value;
            Accumulates(rows, n + 1, v,
                        Accumulator(a.seriesId, a.version, a.total + 1, a.matched + 1,
                                    Update(a.tag, c.tagKey, c.tag), Update(a.release, c.releaseKey, c.release),
                                    a.commits + [c.oid]))
  {
    RowsOfStep(rows, n, v);
    BestStep(ByTag, rows, n, v, a.tag);
    BestStep(ByRelease, rows, n, v, a.release);
  }

  lemma UnmatchedStep(rows: seq<Row>, n: nat, v: int, a: Accumulator)
    requires n < |rows| && rows[n].version.id == v && rows[n].isPatch && rows[n].commit.None?
    requires a.version == rows[n].version && a.seriesId == rows[n].seriesId
    requires Accumulates(rows, n, v, a)
    ensures Accumulates(rows, n + 1, v, a.(total := a.total + 1))
  {
    RowsOfStep(rows, n, v);
    SameBest(ByTag, rows, n, v, a.tag);
    SameBest(ByRelease, rows, n, v, a.release);
  }

  /** One row of the version added to its accumulator. */
  method AddRow(ghost rows: seq<Row>, ghost n: nat, row: Row, before: Accumulator) returns (a: Accumulator)
    requires n < |rows| && rows[n] == row && Accumulates(rows, n, row.version.id, before)
    requires before.version == row.version && before.seriesId == row.seriesId
    ensures Accumulates(rows, n + 1, row.version.id, a)
  {
    if !row.isPatch {
      OtherRow(rows, n, row.version.id, before);
      return before;
    }
    if row.commit.None? {
      UnmatchedStep(rows, n, row.version.id, before);
      return before.(total := before.total + 1);
    }
    var c := row.commit.value;
    MatchedStep(rows, n, row.version.id, before);
    a := Accumulator(before.seriesId, before.version, before.total + 1, before.matched + 1,
                     Update(before.tag, c.tagKey, c.tag), Update(before.release, c.releaseKey, c.release),
                     before.commits + [c.oid]);
  }

  const NOTHING_SEEN: Best := Best(None, None)

  ghost predicate AccumulatesAll(rows: seq<Row>, n: nat, all: map<int, Accumulator>)
    requires n <= |rows|
  {
    && all.Keys == VersionIds(rows, n)
    && (forall v | v in all :: Accumulates(rows, n, v, all[v]))
  }

  lemma VersionIdsStep(rows: seq<Row>, n: nat)
    requires n < |rows|
    ensures VersionIds(rows, n + 1) == VersionIds(rows, n) + {rows[n].version.id}
  {
  }

  lemma AddedOne(rows: seq<Row>, n: nat, all: map<int, Accumulator>, added: Accumulator)
    requires n < |rows| && AccumulatesAll(rows, n, all) && Accumulates(rows, n + 1, rows[n].version.id, added)
    ensures AccumulatesAll(rows, n + 1, all[rows[n].version.id := added])
  {
    var id := rows[n].version.id;
    var next := all[id := added];
    VersionIdsStep(rows, n);
    forall v | v in next
      ensures Accumulates(rows, n + 1, v, next[v])
    {
      if v != id {
        OtherRow(rows, n, v, all[v]);
      }
    }
  }

  method Accumulate(rows: seq<Row>) returns (all: map<int, Accumulator>)
    requires Joined(rows)
    ensures AccumulatesAll(rows, |rows|, all)
  {
    all := map[];
    for n := 0 to |rows|
      invariant AccumulatesAll(rows, n, all)
    {
      var row := rows[n];
      var id := row.version.id;
      var entry := if id in all then all[id]
                   else Accumulator(row.seriesId, row.version, 0, 0, NOTHING_SEEN, NOTHING_SEEN, []);
      FirstRow(rows, n, id, entry);
      var added := AddRow(rows, n, row, entry);
      AddedOne(rows, n, all, added);
      all := all[id := added];
    }
  }

  lemma FirstRow(rows: seq<Row>, n: nat, v: int, a: Accumulator)
    requires n < |rows| && rows[n].version.id == v
    requires if v in VersionIds(rows, n) then Joined(rows) && Accumulates(rows, n, v, a)
             else a == Accumulator(rows[n].seriesId, rows[n].version, 0, 0, NOTHING_SEEN, NOTHING_SEEN, [])
    ensures Accumulates(rows, n, v, a) && a.version == rows[n].version && a.seriesId == rows[n].seriesId
  {
    if v !in VersionIds(rows, n) {
      assert PatchRows(rows, n, v) == {} && MatchedRows(rows, n, v) == {};
    }
  }

  // ---- versions ----

  function StateOf(total: nat, matched: nat): State {
    if total == 0 || matched == 0 then Unmerged else if matched >= total then Merged else Partial
  }

  function Summarize(a: Accumulator): VersionSummary {
    var state := StateOf(a.total, a.matched);
    var merged := state == Merged;
    VersionSummary(
      a.seriesId, a.version, state, a.matched, a.total,
      if merged then a.tag.name else None, if merged then a.release.name else None,
      if merged && a.total == 1 && a.matched == 1 && a.commits != [] then Some(a.commits[0]) else None)
  }

  ghost predicate AllMatched(rows: seq<Row>, v: int) {
    forall i | i in PatchRows(rows, |rows|, v) :: rows[i].commit.Some?
  }

  lemma SubsetSize(a: set<nat>, b: set<nat>)
    requires a <= b
    ensures |a| <= |b| && (|a| == |b| ==> a == b)
    decreases |b|
  {
    assert b == a + (b - a);
    assert |b| == |a| + |b - a|;
  }

  /** A version is merged exactly when it has a patch and all its patches are matched, and
      unmerged exactly when none is. */
  lemma VersionState(rows: seq<Row>, v: int, a: Accumulator)
    requires Accumulates(rows, |rows|, v, a)
    ensures Summarize(a).state == Merged <==> PatchRows(rows, |rows|, v) != {} && AllMatched(rows, v)
    ensures Summarize(a).state == Unmerged <==> MatchedRows(rows, |rows|, v) == {}
  {
    var patches, matched := PatchRows(rows, |rows|, v), MatchedRows(rows, |rows|, v);
    SubsetSize(matched, patches);
    if AllMatched(rows, v) {
      assert patches <= matched;
      assert patches == matched;
    }
    if |matched| == |patches| {
      assert forall i | i in patches :: i in matched;
    }
  }

  ghost predicate IsGreatest(which: Naming, rows: seq<Row>, v: int, name: Option<string>) {
    || (exists i: nat :: HasGreatest(which, rows, |rows|, v, i) && name == NameOf(which, rows[i].commit.value))
    || (name == None && forall i | i in MatchedRows(rows, |rows|, v) :: KeyAt(which, rows, i) == None)
  }

  lemma BestIsGreatest(which: Naming, rows: seq<Row>, v: int, best: Best)
    requires IsBest(which, rows, |rows|, v, best)
    ensures IsGreatest(which, rows, v, best.name)
  {
    if best.key.Some? {
      var i: nat :| HasGreatest(which, rows, |rows|, v, i)
        && best == Best(KeyAt(which, rows, i), NameOf(which, rows[i].commit.value));
    }
  }

  /** A merged version takes its tag and its release from the matches with the greatest keys;
      other versions take none. */
  lemma VersionTag(rows: seq<Row>, v: int, a: Accumulator)
    requires Accumulates(rows, |rows|, v, a)
    ensures var s := Summarize(a);
            if s.state == Merged then
              IsGreatest(ByTag, rows, v, s.mergedInTag) && IsGreatest(ByRelease, rows, v, s.mergedInRelease)
            else s.mergedInTag == None && s.mergedInRelease == None
  {
    BestIsGreatest(ByTag, rows, v, a.tag);
    BestIsGreatest(ByRelease, rows, v, a.release);
  }

  /** The commit is recorded exactly for merged versions of a single patch. */
  lemma SingleCommit(rows: seq<Row>, v: int, a: Accumulator, i: nat)
    requires Accumulates(rows, |rows|, v, a) && Summarize(a).state == Merged && i in PatchRows(rows, |rows|, v)
    ensures Summarize(a).singleCommit.Some? <==> PatchRows(rows, |rows|, v) == {i}
    ensures PatchRows(rows, |rows|, v) == {i} ==>
              rows[i].commit.Some? && Summarize(a).singleCommit == Some(rows[i].commit.value.oid)
  {
    var patches, matched := PatchRows(rows, |rows|, v), MatchedRows(rows, |rows|, v);
    VersionState(rows, v, a);
    SubsetSize({i}, patches);
    assert patches <= matched && matched <= patches;
    assert patches == matched && |patches| == a.total == a.matched;
    assert i in matched && rows[i].commit.value.oid in a.commits;
  }

  // ---- series ----

  predicate KeyLe(a: VersionKey, b: VersionKey) {
    if a.num != b.num then a.num < b.num
    else if a.sentAt != b.sentAt then a.sentAt < b.sentAt
    else a.id <= b.id
  }

  function ByKey(): (VersionSummary, VersionSummary) -> bool {
    (a: VersionSummary, b: VersionSummary) => KeyLe(a.version, b.version)
  }

  function ByProgress(): (VersionSummary, VersionSummary) -> bool {
    (a: VersionSummary, b: VersionSummary) =>
      if a.matched != b.matched then a.matched < b.matched
      else if a.total != b.total then a.total < b.total
      else KeyLe(a.version, b.version)
  }

  lemma ByKeyOrder()
    ensures Linear(ByKey())
  {
    forall a: VersionSummary, b: VersionSummary
      ensures KeyLe(a.version, b.version) || KeyLe(b.version, a.version)
    {
    }
    forall a: VersionSummary, b: VersionSummary, c: VersionSummary |
      KeyLe(a.version, b.version) && KeyLe(b.version, c.version)
      ensures KeyLe(a.version, c.version)
    {
    }
  }

  lemma ByProgressOrder()
    ensures Linear(ByProgress())
  {
    ByKeyOrder();
    forall a: VersionSummary, b: VersionSummary
      ensures ByProgress()(a, b) || ByProgress()(b, a)
    {
      assert ByKey()(a, b) || ByKey()(b, a);
    }
    forall a: VersionSummary, b: VersionSummary, c: VersionSummary | ByProgress()(a, b) && ByProgress()(b, c)
      ensures ByProgress()(a, c)
    {
      assert ByKey()(a, b) && ByKey()(b, c) ==> ByKey()(a, c);
    }
  }

  /** `s` is a greatest element. */
  ghost predicate IsLast(q: seq<VersionSummary>, le: (VersionSummary, VersionSummary) -> bool, s: VersionSummary) {
    s in q && forall x | x in q :: le(x, s)
  }

  method LastOf(q: seq<VersionSummary>, le: (VersionSummary, VersionSummary) -> bool) returns (s: VersionSummary)
    requires q != [] && Linear(le)
    ensures IsLast(q, le, s)
  {
    var sorted := Sort(q, le);
    SortSorted(q, le);
    SortMultiset(q, le);
    SameElements(q, sorted);
    s := sorted[|sorted| - 1];
    forall x | x in q
      ensures le(x, s)
    {
      var i :| 0 <= i < |sorted| && sorted[i] == x;
      assert le(s, s);
    }
  }

  function OfState(q: seq<VersionSummary>, state: State, n: nat): seq<VersionSummary>
    requires n <= |q|
  {
    if n == 0 then []
    else if q[n - 1].state == state then OfState(q, state, n - 1) + [q[n - 1]]
    else OfState(q, state, n - 1)
  }

  lemma {:induction false} OfStateExactly(q: seq<VersionSummary>, state: State, n: nat, s: VersionSummary)
    requires n <= |q|
    ensures s in OfState(q, state, n) <==> s in q[..n] && s.state == state
  {
    if n > 0 {
      OfStateExactly(q, state, n - 1, s);
      assert q[..n] == q[..n - 1] + [q[n - 1]];
    }
  }

  ghost predicate Greatest(q: seq<VersionSummary>, state: State,
    le: (VersionSummary, VersionSummary) -> bool, s: VersionSummary) {
    && s in q && s.state == state
    && forall x | x in q && x.state == state :: le(x, s)
  }

  ghost predicate HasState(q: seq<VersionSummary>, state: State) {
    exists x :: x in q && x.state == state
  }

  ghost predicate TakesMerged(q: seq<VersionSummary>, r: SeriesSummary, s: VersionSummary) {
    && Greatest(q, Merged, ByKey(), s)
    && r == SeriesSummary(Merged, s.matched, s.total, s.mergedInTag, s.mergedInRelease,
      s.singleCommit, Some(s.version.id))
  }

  ghost predicate TakesPartial(q: seq<VersionSummary>, r: SeriesSummary, s: VersionSummary) {
    && Greatest(q, Partial, ByProgress(), s)
    && r == SeriesSummary(Partial, s.matched, s.total, None, None, None, None)
  }

  ghost predicate TakesUnmerged(q: seq<VersionSummary>, r: SeriesSummary, s: VersionSummary) {
    && Greatest(q, Unmerged, ByKey(), s)
    && r == SeriesSummary(Unmerged, s.matched, s.total, None, None, None, None)
  }

  /** The latest merged version decides; without one the furthest partial one; else the series
      is unmerged. */
  ghost predicate SummarizesSeries(q: seq<VersionSummary>, r: SeriesSummary) {
    if HasState(q, Merged) then exists s :: TakesMerged(q, r, s)
    else if HasState(q, Partial) then exists s :: TakesPartial(q, r, s)
    else exists s :: TakesUnmerged(q, r, s)
  }

  method SummarizeSeries(q: seq<VersionSummary>) returns (r: SeriesSummary)
    requires q != []
    ensures SummarizesSeries(q, r)
  {
    ByKeyOrder();
    ByProgressOrder();
    var merged := OfState(q, Merged, |q|);
    var partial := OfState(q, Partial, |q|);
    assert q[..|q|] == q;
    forall s
      ensures s in merged <==> s in q && s.state == Merged
      ensures s in partial <==> s in q && s.state == Partial
    {
      OfStateExactly(q, Merged, |q|, s);
      OfStateExactly(q, Partial, |q|, s);
    }
    if merged != [] {
      assert merged[0] in merged;
      var s := LastOf(merged, ByKey());
      r := SeriesSummary(Merged, s.matched, s.total, s.mergedInTag, s.mergedInRelease,
        s.singleCommit, Some(s.version.id));
      assert TakesMerged(q, r, s);
    } else if partial != [] {
      assert partial[0] in partial;
      var s := LastOf(partial, ByProgress());
      r := SeriesSummary(Partial, s.matched, s.total, None, None, None, None);
      assert TakesPartial(q, r, s);
    } else {
      var s := LastOf(q, ByKey());
      r := SeriesSummary(Unmerged, s.matched, s.total, None, None, None, None);
      assert TakesUnmerged(q, r, s);
    }
  }

  /** The summaries of the versions of a series, one each. */
  ghost predicate VersionsOf(versions: map<int, VersionSummary>, series: int, q: seq<VersionSummary>) {
    && NoDuplicates(q)
    && forall s :: s in q <==> exists v :: v in versions && versions[v] == s && s.seriesId == series
  }

  method GroupBySeries(versions: map<int, VersionSummary>) returns (groups: map<int, seq<VersionSummary>>)
    requires forall v | v in versions :: versions[v].version.id == v
    ensures forall x :: x in groups <==> exists v :: v in versions && versions[v].seriesId == x
    ensures forall x | x in groups :: groups[x] != [] && VersionsOf(versions, x, groups[x])
  {
    groups := map[];
    var rest := versions.Keys;
    while rest != {}
      invariant rest <= versions.Keys
      invariant forall x | x in groups :: groups[x] != [] && NoDuplicates(groups[x])
      invariant forall x, s | x in groups && s in groups[x] ::
                  s.version.id in versions && s.version.id !in rest && versions[s.version.id] == s && s.seriesId == x
      invariant forall v | v in versions && v !in rest ::
                  versions[v].seriesId in groups && versions[v] in groups[versions[v].seriesId]
      decreases rest
    {
      ghost var any := AnyOf(rest);
      var v :| v in rest;
      var s := versions[v];
      var group := if s.seriesId in groups then groups[s.seriesId] else [];
      assert forall j | 0 <= j < |group| :: group[j] in groups[s.seriesId];
      groups := groups[s.seriesId := group + [s]];
      rest := rest - {v};
    }
    forall x | x in groups
      ensures exists v :: v in versions && versions[v].seriesId == x
    {
      var s := groups[x][0];
      assert s in groups[x] && versions[s.version.id] == s;
    }
  }

  /** The summaries written for versions and series. */
  ghost predicate RollsUp(rows: seq<Row>, versions: map<int, VersionSummary>, series: map<int, SeriesSummary>) {
    && versions.Keys == VersionIds(rows, |rows|)
    && (forall v | v in versions :: IsSummary(rows, v, versions[v]))
    && (forall x :: x in series <==> exists v :: v in versions && versions[v].seriesId == x)
    && (forall x | x in series :: exists q :: VersionsOf(versions, x, q) && SummarizesSeries(q, series[x]))
  }

  ghost predicate IsSummary(rows: seq<Row>, v: int, s: VersionSummary) {
    exists a :: Accumulates(rows, |rows|, v, a) && s == Summarize(a)
  }

  lemma RolledUp(rows: seq<Row>, accumulators: map<int, Accumulator>, versions: map<int, VersionSummary>,
                 groups: map<int, seq<VersionSummary>>, series: map<int, SeriesSummary>)
    requires AccumulatesAll(rows, |rows|, accumulators)
    requires versions == map v | v in accumulators :: Summarize(accumulators[v])
    requires forall x :: x in groups <==> exists v :: v in versions && versions[v].seriesId == x
    requires forall x | x in groups :: VersionsOf(versions, x, groups[x])
    requires series.Keys == groups.Keys && forall x | x in series :: SummarizesSeries(groups[x], series[x])
    ensures RollsUp(rows, versions, series)
  {
    forall v | v in versions
      ensures IsSummary(rows, v, versions[v])
    {
      assert Accumulates(rows, |rows|, v, accumulators[v]);
    }
  }

  method SummarizeAll(groups: map<int, seq<VersionSummary>>) returns (series: map<int, SeriesSummary>)
    requires forall x | x in groups :: groups[x] != []
    ensures series.Keys == groups.Keys && forall x | x in series :: SummarizesSeries(groups[x], series[x])
  {
    series := map[];
    var rest := groups.Keys;
    while rest != {}
      invariant rest <= groups.Keys && series.Keys == groups.Keys - rest
      invariant forall x | x in series :: SummarizesSeries(groups[x], series[x])
      decreases rest
    {
      ghost var any := AnyOf(rest);
      var x :| x in rest;
      var summary := SummarizeSeries(groups[x]);
      series := series[x := summary];
      rest := rest - {x};
    }
  }

  // ---- what the summaries say, of the rows and of each other ----

  /** The name that goes with the greatest key, the first if several matches have it; none if no
      match has a key. */
  ghost predicate GoesWithGreatest(keys: map<nat, Option<int>>, names: map<nat, Option<string>>, name: Option<string>)
    requires keys.Keys == names.Keys
  {
    || (name == None && forall i | i in keys :: keys[i] == None)
    || exists i :: i in keys && keys[i].Some? && name == names[i] && forall j | j in keys && keys[j].Some? ::
         keys[j].value < keys[i].value || (keys[j].value == keys[i].value && i <= j)
  }

  ghost predicate NamesOfGreatest(rows: seq<Row>, matched: set<nat>, s: VersionSummary)
    requires forall i | i in matched :: i < |rows| && rows[i].commit.Some?
  {
    && GoesWithGreatest(map i | i in matched :: rows[i].commit.value.tagKey,
                        map i | i in matched :: rows[i].commit.value.tag, s.mergedInTag)
    && GoesWithGreatest(map i | i in matched :: rows[i].commit.value.releaseKey,
                        map i | i in matched :: rows[i].commit.value.release, s.mergedInRelease)
  }

  ghost predicate HasOnlyCommit(rows: seq<Row>, patches: set<nat>, commit: Option<string>)
    requires forall i | i in patches :: i < |rows|
  {
    if |patches| == 1 then exists i :: i in patches && rows[i].commit.Some? && commit == Some(rows[i].commit.value.oid)
    else commit == None
  }

  /** The counts, the state and the names of a version. */
  ghost predicate VersionMeans(rows: seq<Row>, v: int, s: VersionSummary) {
    var patches := set i: nat | i < |rows| && rows[i].version.id == v && rows[i].isPatch;
    var matched := set i: nat | i < |rows| && rows[i].version.id == v && rows[i].isPatch && rows[i].commit.Some?;
    && s.version.id == v
    && (forall i | 0 <= i < |rows| && rows[i].version.id == v ::
          s.version == rows[i].version && s.seriesId == rows[i].seriesId)
    && s.total == |patches| && s.matched == |matched|
    && s.state == (if matched == {} then Unmerged else if matched == patches then Merged else Partial)
    && (if s.state == Merged then NamesOfGreatest(rows, matched, s) && HasOnlyCommit(rows, patches, s.singleCommit)
        else s.mergedInTag == None && s.mergedInRelease == None && s.singleCommit == None)
  }

  ghost predicate Earlier(a: VersionKey, b: VersionKey) {
    || a.num < b.num
    || (a.num == b.num && a.sentAt < b.sentAt)
    || (a.num == b.num && a.sentAt == b.sentAt && a.id < b.id)
  }

  ghost predicate LessProgress(a: VersionSummary, b: VersionSummary) {
    || a.matched < b.matched
    || (a.matched == b.matched && a.total < b.total)
    || (a.matched == b.matched && a.total == b.total && Earlier(a.version, b.version))
  }

  ghost predicate IsVersionOf(versions: map<int, VersionSummary>, x: int, state: State, v: int) {
    v in versions && versions[v].seriesId == x && versions[v].state == state
  }

  /** The version `v` decides about the series: its latest merged one, else the partial one that
      is furthest, else the latest. */
  ghost predicate Decides(versions: map<int, VersionSummary>, x: int, state: State, v: int) {
    && IsVersionOf(versions, x, state, v)
    && (state != Merged ==> forall w :: !IsVersionOf(versions, x, Merged, w))
    && (state == Unmerged ==> forall w :: !IsVersionOf(versions, x, Partial, w))
    && forall w | IsVersionOf(versions, x, state, w) && w != v ::
         if state == Partial then LessProgress(versions[w], versions[v])
         else Earlier(versions[w].version, versions[v].version)
  }

  ghost predicate SeriesMeans(versions: map<int, VersionSummary>, x: int, r: SeriesSummary) {
    exists v :: Decides(versions, x, r.state, v)
                && r.matched == versions[v].matched && r.total == versions[v].total
                && (if r.state == Merged then
                      && r.mergedVersion == Some(v) && r.mergedInTag == versions[v].mergedInTag
                      && r.mergedInRelease == versions[v].mergedInRelease
                      && r.singleCommit == versions[v].singleCommit
                    else
                      && r.mergedVersion == None && r.mergedInTag == None && r.mergedInRelease == None
                      && r.singleCommit == None)
  }

  lemma GreatestGoesWith(which: Naming, rows: seq<Row>, v: int, keys: map<nat, Option<int>>,
                         names: map<nat, Option<string>>, name: Option<string>)
    requires IsGreatest(which, rows, v, name) && keys.Keys == names.Keys == MatchedRows(rows, |rows|, v)
    requires forall i | i in keys :: keys[i] == KeyOf(which, rows[i].commit.value)
    requires forall i | i in keys :: names[i] == NameOf(which, rows[i].commit.value)
    ensures GoesWithGreatest(keys, names, name)
  {
    if i: nat :| HasGreatest(which, rows, |rows|, v, i) && name == NameOf(which, rows[i].commit.value) {
      assert i in keys && keys[i] == KeyAt(which, rows, i);
      forall j | j in keys && keys[j].Some?
        ensures keys[j].value < keys[i].value || (keys[j].value == keys[i].value && i <= j)
      {
        assert keys[j] == KeyAt(which, rows, j);
      }
    } else {
      forall i | i in keys
        ensures keys[i] == None
      {
        assert keys[i] == KeyAt(which, rows, i);
      }
    }
  }

  lemma StateMeans(rows: seq<Row>, v: int, a: Accumulator)
    requires Accumulates(rows, |rows|, v, a)
    ensures var patches, matched := PatchRows(rows, |rows|, v), MatchedRows(rows, |rows|, v);
            && matched <= patches
            && Summarize(a).state
               == (if matched == {} then Unmerged else if matched == patches then Merged else Partial)
  {
    var patches, matched := PatchRows(rows, |rows|, v), MatchedRows(rows, |rows|, v);
    VersionState(rows, v, a);
    assert AllMatched(rows, v) <==> patches <= matched;
  }

  lemma NamesMean(rows: seq<Row>, v: int, a: Accumulator)
    requires Accumulates(rows, |rows|, v, a) && Summarize(a).state == Merged
    ensures NamesOfGreatest(rows, MatchedRows(rows, |rows|, v), Summarize(a))
  {
    hide GoesWithGreatest, Accumulates, IsGreatest, Summarize;
    var matched, s := MatchedRows(rows, |rows|, v), Summarize(a);
    VersionTag(rows, v, a);
    GreatestGoesWith(ByTag, rows, v, map i | i in matched :: rows[i].commit.value.tagKey,
                     map i | i in matched :: rows[i].commit.value.tag, s.mergedInTag);
    GreatestGoesWith(ByRelease, rows, v, map i | i in matched :: rows[i].commit.value.releaseKey,
                     map i | i in matched :: rows[i].commit.value.release, s.mergedInRelease);
  }

  lemma CommitMeans(rows: seq<Row>, v: int, a: Accumulator)
    requires Accumulates(rows, |rows|, v, a) && Summarize(a).state == Merged
    ensures HasOnlyCommit(rows, PatchRows(rows, |rows|, v), Summarize(a).singleCommit)
  {
    var patches := PatchRows(rows, |rows|, v);
    VersionState(rows, v, a);
    var i :| i in patches;
    SingleCommit(rows, v, a, i);
    SubsetSize({i}, patches);
    assert patches == {i} ==> i in patches && Summarize(a).singleCommit == Some(rows[i].commit.value.oid);
  }

  lemma SummaryMeans(rows: seq<Row>, v: int, a: Accumulator)
    requires Accumulates(rows, |rows|, v, a)
    ensures VersionMeans(rows, v, Summarize(a))
  {
    StateMeans(rows, v, a);
    if Summarize(a).state == Merged {
      NamesMean(rows, v, a);
      CommitMeans(rows, v, a);
    }
  }

  lemma LaterInKey(a: VersionSummary, b: VersionSummary)
    requires a.version.id != b.version.id
    ensures ByKey()(a, b) ==> Earlier(a.version, b.version)
    ensures ByProgress()(a, b) ==> LessProgress(a, b)
  {
  }

  lemma GreatestDecides(versions: map<int, VersionSummary>, x: int, q: seq<VersionSummary>, state: State,
                        le: (VersionSummary, VersionSummary) -> bool, s: VersionSummary)
    requires forall v | v in versions :: versions[v].version.id == v
    requires VersionsOf(versions, x, q) && Greatest(q, state, le, s)
    requires le == if state == Partial then ByProgress() else ByKey()
    requires state != Merged ==> !HasState(q, Merged)
    requires state == Unmerged ==> !HasState(q, Partial)
    ensures Decides(versions, x, state, s.version.id) && versions[s.version.id] == s
  {
    forall w, other | IsVersionOf(versions, x, other, w)
      ensures versions[w] in q
    {
    }
    forall w | IsVersionOf(versions, x, state, w) && w != s.version.id
      ensures if state == Partial then LessProgress(versions[w], s) else Earlier(versions[w].version, s.version)
    {
      assert le(versions[w], s);
      LaterInKey(versions[w], s);
    }
  }

  lemma ChoiceMeans(versions: map<int, VersionSummary>, x: int, q: seq<VersionSummary>, r: SeriesSummary)
    requires forall v | v in versions :: versions[v].version.id == v
    requires VersionsOf(versions, x, q) && SummarizesSeries(q, r)
    ensures SeriesMeans(versions, x, r)
  {
    if HasState(q, Merged) {
      var s :| TakesMerged(q, r, s);
      GreatestDecides(versions, x, q, Merged, ByKey(), s);
    } else if HasState(q, Partial) {
      var s :| TakesPartial(q, r, s);
      GreatestDecides(versions, x, q, Partial, ByProgress(), s);
    } else {
      var s :| TakesUnmerged(q, r, s);
      GreatestDecides(versions, x, q, Unmerged, ByKey(), s);
    }
  }

  lemma RollupMeans(rows: seq<Row>, versions: map<int, VersionSummary>, series: map<int, SeriesSummary>)
    requires RollsUp(rows, versions, series)
    ensures forall v | v in versions :: VersionMeans(rows, v, versions[v])
    ensures forall x | x in series :: SeriesMeans(versions, x, series[x])
  {
    forall v | v in versions
      ensures VersionMeans(rows, v, versions[v])
    {
      var a :| Accumulates(rows, |rows|, v, a) && versions[v] == Summarize(a);
      SummaryMeans(rows, v, a);
    }
    forall x | x in series
      ensures SeriesMeans(versions, x, series[x])
    {
      var q :| VersionsOf(versions, x, q) && SummarizesSeries(q, series[x]);
      ChoiceMeans(versions, x, q, series[x]);
    }
  }

  method RecomputeRollups(rows: seq<Row>) returns (versions: map<int, VersionSummary>, series: map<int, SeriesSummary>)
    requires Joined(rows)
    ensures RollsUp(rows, versions, series)
    ensures forall v :: v in versions <==> exists i :: 0 <= i < |rows| && rows[i].version.id == v
    ensures forall v | v in versions :: VersionMeans(rows, v, versions[v])
    ensures forall x | x in series :: SeriesMeans(versions, x, series[x])
  {
    var accumulators := Accumulate(rows);
    versions := map v | v in accumulators :: Summarize(accumulators[v]);
    var groups := GroupBySeries(versions);
    series := SummarizeAll(groups);
    RolledUp(rows, accumulators, versions, groups, series);
    RollupMeans(rows, versions, series);
  }
}
