/** The scan itself: `resolve_commit_batch_matches` collects the matches of a window and the
    store writes them, proved to scan as `ScanChunks` says. */
module MainlineScan {
  import opened MainlineFacts
  import opened MainlineMatch
  import opened ReleaseTags
  import opened Sorting
  import opened Wrappers

  /** A candidate as the queries return it. */
  datatype Row = Row(itemId: int, item: Item)

  ghost predicate IsRow(db: Archive, r: Row) {
    r.itemId in db.items && r.item == db.items[r.itemId]
  }

  ghost predicate AllRows(db: Archive, rows: seq<Row>) {
    forall r | r in rows :: IsRow(db, r)
  }

  // ---- the two candidate queries ----

  /** A row for every requested id that belongs to the message of the patch. */
  method AnswersFor(db: Archive, asked: set<MailId>, k: int) returns (rows: seq<Row>)
    requires k in db.items
    ensures forall r | r in rows :: r == Row(k, db.items[k])
    ensures rows != [] <==> Answers(db, asked, k)
  {
    var ids := asked;
    rows := [];
    while ids != {}
      invariant ids <= asked
      invariant forall r | r in rows :: r == Row(k, db.items[k])
      invariant rows != [] <==> exists id | id in asked - ids :: Mapping(id, db.items[k].messagePk) in db.idMap
      decreases ids
    {
      var id :| id in ids;
      if Mapping(id, db.items[k].messagePk) in db.idMap {
        rows := rows + [Row(k, db.items[k])];
      }
      ids := ids - {id};
    }
    assert asked - ids == asked;
  }

  method FindByMessageIds(db: Archive, asked: set<MailId>) returns (rows: seq<Row>)
    ensures AllRows(db, rows)
    ensures forall k | k in db.items :: Row(k, db.items[k]) in rows <==> Answers(db, asked, k)
  {
    var items := db.items.Keys;
    rows := [];
    while items != {}
      invariant items <= db.items.Keys && AllRows(db, rows)
      invariant forall k | k in db.items :: (k in items ==> Row(k, db.items[k]) !in rows)
      invariant forall k | k in db.items :: (k !in items ==> (Row(k, db.items[k]) in rows <==> Answers(db, asked, k)))
      decreases items
    {
      var k: int :| k in items;
      var more := AnswersFor(db, asked, k);
      assert more != [] ==> more[0] in more;
      rows := rows + more;
      items := items - {k};
    }
  }

  method FindByPatchIds(db: Archive, asked: set<PatchId>) returns (rows: seq<Row>)
    ensures AllRows(db, rows) && NoDuplicates(rows)
    ensures forall k | k in db.items ::
              Row(k, db.items[k]) in rows <==> db.items[k].patchId.Some? && db.items[k].patchId.value in asked
  {
    var items := db.items.Keys;
    rows := [];
    while items != {}
      invariant items <= db.items.Keys && AllRows(db, rows) && NoDuplicates(rows)
      invariant forall k | k in db.items ::
                  (Row(k, db.items[k]) in rows
                   <==> k !in items && db.items[k].patchId.Some? && db.items[k].patchId.value in asked)
      decreases items
    {
      var k :| k in items;
      var item := db.items[k];
      if item.patchId.Some? && item.patchId.value in asked {
        assert forall i | 0 <= i < |rows| :: rows[i] in rows;
        rows := rows + [Row(k, item)];
      }
      items := items - {k};
    }
  }

  // ---- grouping the candidates ----

  /** The answers of the window under the primary id of their message. */
  ghost predicate LinkIndex(db: Archive, asked: set<MailId>, groups: map<MailId, seq<Row>>) {
    && (forall id, r | id in groups && r in groups[id]
      :: IsRow(db, r) && r.item.primary == id && Answers(db, asked, r.itemId))
    && (forall k | k in db.items && Answers(db, asked, k) ::
          db.items[k].primary in groups && Row(k, db.items[k]) in groups[db.items[k].primary])
  }

  method GroupByPrimary(ghost db: Archive, ghost asked: set<MailId>, rows: seq<Row>)
      returns (groups: map<MailId, seq<Row>>)
    requires AllRows(db, rows)
    requires forall k | k in db.items :: Row(k, db.items[k]) in rows <==> Answers(db, asked, k)
    ensures LinkIndex(db, asked, groups)
  {
    groups := map[];
    for i := 0 to |rows|
      invariant forall id, r | id in groups && r in groups[id] :: r in rows && r.item.primary == id
      invariant forall j | 0 <= j < i :: rows[j].item.primary in groups && rows[j] in groups[rows[j].item.primary]
    {
      var id := rows[i].item.primary;
      groups := groups[id := (if id in groups then groups[id] else []) + [rows[i]]];
    }
    forall k | k in db.items && Answers(db, asked, k)
      ensures db.items[k].primary in groups && Row(k, db.items[k]) in groups[db.items[k].primary]
    {
      var j :| 0 <= j < |rows| && rows[j] == Row(k, db.items[k]);
    }
  }

  ghost predicate PatchIndex(db: Archive, asked: set<PatchId>, groups: map<PatchId, seq<Row>>) {
    && (forall id | id in groups :: NoDuplicates(groups[id]))
    && (forall id, r | id in groups && r in groups[id] :: IsRow(db, r) && r.item.patchId == Some(id))
    && (forall k | k in db.items && db.items[k].patchId.Some? && db.items[k].patchId.value in asked ::
          db.items[k].patchId.value in groups && Row(k, db.items[k]) in groups[db.items[k].patchId.value])
  }

  lemma GroupGrows(rows: seq<Row>, i: nat, groups: map<PatchId, seq<Row>>, id: PatchId)
    requires i < |rows| && NoDuplicates(rows)
    requires id in groups ==> NoDuplicates(groups[id]) && forall r | r in groups[id] :: r in rows[..i]
    ensures NoDuplicates((if id in groups then groups[id] else []) + [rows[i]])
  {
    var group := if id in groups then groups[id] else [];
    forall j | 0 <= j < |group|
      ensures group[j] != rows[i]
    {
      assert group[j] in groups[id];
    }
  }

  method GroupByPatch(ghost db: Archive, ghost asked: set<PatchId>, rows: seq<Row>)
      returns (groups: map<PatchId, seq<Row>>)
    requires AllRows(db, rows) && NoDuplicates(rows)
    requires forall k | k in db.items ::
               Row(k, db.items[k]) in rows <==> db.items[k].patchId.Some? && db.items[k].patchId.value in asked
    ensures PatchIndex(db, asked, groups)
  {
    groups := map[];
    for i := 0 to |rows|
      invariant forall id, r | id in groups && r in groups[id] :: r in rows[..i] && r.item.patchId == Some(id)
      invariant forall id | id in groups :: NoDuplicates(groups[id])
      invariant forall j | 0 <= j < i && rows[j].item.patchId.Some? ::
                  rows[j].item.patchId.value in groups && rows[j] in groups[rows[j].item.patchId.value]
    {
      assert rows[..i + 1] == rows[..i] + [rows[i]];
      if rows[i].item.patchId.Some? {
        var id := rows[i].item.patchId.value;
        GroupGrows(rows, i, groups, id);
        groups := groups[id := (if id in groups then groups[id] else []) + [rows[i]]];
      }
    }
    forall k | k in db.items && db.items[k].patchId.Some? && db.items[k].patchId.value in asked
      ensures db.items[k].patchId.value in groups && Row(k, db.items[k]) in groups[db.items[k].patchId.value]
    {
      var j :| 0 <= j < |rows| && rows[j] == Row(k, db.items[k]);
    }
  }

  // ---- the matches of one commit ----

  function ItemIds(rows: seq<Row>): set<int> {
    set i | 0 <= i < |rows| :: rows[i].itemId
  }

  /** All candidates that a link of the commit names, and their subjects. */
  method LinkCandidates(ghost db: Archive, ghost asked: set<MailId>, c: MainCommit, groups: map<MailId, seq<Row>>)
      returns (candidates: seq<Row>, subjects: set<string>)
    requires LinkIndex(db, asked, groups)
    ensures AllRows(db, candidates) && ItemIds(candidates) == Linked(db, asked, c)
    ensures subjects == Subjects(db, Linked(db, asked, c))
  {
    candidates, subjects := [], {};
    for i := 0 to |c.links|
      invariant forall r | r in candidates :: IsRow(db, r) && r.itemId in Linked(db, asked, c)
      invariant forall j, r | 0 <= j < i && c.links[j] in groups && r in groups[c.links[j]] :: r in candidates
      invariant subjects == set r | r in candidates :: SubjectOf(r.item)
    {
      var group := if c.links[i] in groups then groups[c.links[i]] else [];
      candidates := candidates + group;
      subjects := subjects + set r | r in group :: SubjectOf(r.item);
    }
    forall k | k in Linked(db, asked, c)
      ensures Row(k, db.items[k]) in candidates
    {
      var j :| 0 <= j < |c.links| && c.links[j] == db.items[k].primary;
    }
    forall k | k in Linked(db, asked, c)
      ensures k in ItemIds(candidates) && SubjectOf(db.items[k]) in subjects
    {
      var j :| 0 <= j < |candidates| && candidates[j] == Row(k, db.items[k]);
    }
    assert forall j | 0 <= j < |candidates| :: candidates[j] in candidates;
  }

  ghost predicate RowsById(db: Archive, rows: map<int, Row>) {
    forall k | k in rows :: IsRow(db, rows[k]) && rows[k].itemId == k
  }

  method CollectLinkMatches(ghost db: Archive, ghost asked: set<MailId>, c: MainCommit,
                            groups: map<MailId, seq<Row>>) returns (deduped: map<int, Row>)
    requires LinkIndex(db, asked, groups)
    ensures deduped.Keys == LinkMatches(db, asked, c)
    ensures RowsById(db, deduped)
  {
    var candidates, subjects := LinkCandidates(db, asked, c, groups);
    deduped := map[];
    for i := 0 to |candidates|
      invariant RowsById(db, deduped)
      invariant forall k | k in deduped ::
                  k in ItemIds(candidates) && (|subjects| > 1 ==> SubjectOf(db.items[k]) == c.subjectNorm)
      invariant forall j | 0 <= j < i && (|subjects| > 1 ==> SubjectOf(candidates[j].item) == c.subjectNorm) ::
                  candidates[j].itemId in deduped
    {
      var r := candidates[i];
      assert r in candidates;
      if (|subjects| <= 1 || SubjectOf(r.item) == c.subjectNorm) && r.itemId !in deduped {
        deduped := deduped[r.itemId := r];
      }
    }
    assert forall k | k in deduped :: k in LinkMatches(db, asked, c);
    forall k | k in LinkMatches(db, asked, c)
      ensures k in deduped
    {
      var j :| 0 <= j < |candidates| && candidates[j].itemId == k;
      assert candidates[j] in candidates;
    }
  }

  lemma RowsCount(db: Archive, rows: seq<Row>, ks: set<int>)
    requires NoDuplicates(rows) && AllRows(db, rows) && ItemIds(rows) == ks
    ensures |rows| == |ks|
    decreases |rows|
  {
    if rows != [] {
      var last := |rows| - 1;
      var k := rows[last].itemId;
      assert forall j | 0 <= j < last :: rows[j] in rows && rows[last] in rows;
      assert ItemIds(rows[..last]) == ks - {k} by {
        forall j | 0 <= j < last
          ensures rows[..last][j].itemId == rows[j].itemId != k
        {
        }
      }
      assert forall r | r in rows[..last] :: r in rows;
      RowsCount(db, rows[..last], ks - {k});
      assert k in ks;
    }
  }

  method CollectPatchIdMatches(ghost db: Archive, c: MainCommit, candidates: seq<Row>) returns (filtered: seq<Row>)
    requires AllRows(db, candidates) && NoDuplicates(candidates) && ItemIds(candidates) == SamePatch(db, c)
    ensures AllRows(db, filtered) && ItemIds(filtered) == PatchMatches(db, c)
  {
    RowsCount(db, candidates, SamePatch(db, c));
    if |candidates| <= 1 {
      return candidates;
    }
    filtered := [];
    for i := 0 to |candidates|
      invariant forall r | r in filtered :: r in candidates && SubjectOf(r.item) == c.subjectNorm
      invariant forall j | 0 <= j < i && SubjectOf(candidates[j].item) == c.subjectNorm :: candidates[j] in filtered
    {
      if SubjectOf(candidates[i].item) == c.subjectNorm {
        filtered := filtered + [candidates[i]];
      }
    }
    assert forall j | 0 <= j < |filtered| :: filtered[j] in filtered;
    assert forall j | 0 <= j < |candidates| :: candidates[j] in candidates;
    forall k | k in PatchMatches(db, c)
      ensures k in ItemIds(filtered)
    {
      var j :| 0 <= j < |candidates| && candidates[j].itemId == k;
      var l :| 0 <= l < |filtered| && filtered[l] == candidates[j];
    }
  }

  /** A link before a patch id. */
  function Merged(linked: map<int, Row>, ids: set<int>): map<int, Found> {
    map k | k in linked.Keys + ids ::
      if k in linked then Found(ByLink, Some(linked[k].item.primary)) else Found(ByPatchId, None)
  }

  method MergeMatches(linked: map<int, Row>, rows: seq<Row>) returns (found: map<int, Found>)
    ensures found == Merged(linked, ItemIds(rows))
  {
    found := map k | k in linked :: Found(ByLink, Some(linked[k].item.primary));
    for i := 0 to |rows|
      invariant found.Keys == linked.Keys + ItemIds(rows[..i])
      invariant forall k | k in found ::
                  found[k] == if k in linked then Found(ByLink, Some(linked[k].item.primary))
                    else Found(ByPatchId, None)
    {
      var k := rows[i].itemId;
      ItemIdsSnoc(rows, i);
      if k !in found {
        found := found[k := Found(ByPatchId, None)];
      }
    }
    assert rows[..|rows|] == rows;
    assert rows[..|rows|] == rows;
    forall k | k in found
      ensures found[k] == Merged(linked, ItemIds(rows))[k]
    {
    }
  }

  method MatchPatch(ghost db: Archive, ghost asked: set<PatchId>, c: MainCommit, patches: map<PatchId, seq<Row>>)
      returns (rows: seq<Row>)
    requires PatchIndex(db, asked, patches) && (c.patchId.Some? ==> c.patchId.value in asked)
    ensures ItemIds(rows) == PatchMatches(db, c)
  {
    if c.patchId.None? {
      assert SamePatch(db, c) == {} && PatchMatches(db, c) == {};
      return [];
    }
    var candidates := if c.patchId.value in patches then patches[c.patchId.value] else [];
    SamePatchIs(db, asked, c, patches);
    rows := CollectPatchIdMatches(db, c, candidates);
  }

  lemma MergedIsMatched(db: Archive, asked: set<MailId>, c: MainCommit, linked: map<int, Row>, ids: set<int>)
    requires linked.Keys == LinkMatches(db, asked, c) && ids == PatchMatches(db, c) && RowsById(db, linked)
    ensures Merged(linked, ids) == MatchesIn(db, asked, c)
  {
  }

  /** The links first; a patch id adds what no link found. */
  method MatchCommit(ghost db: Archive, ghost asked: set<MailId>, ghost askedPatches: set<PatchId>, c: MainCommit,
                     links: map<MailId, seq<Row>>, patches: map<PatchId, seq<Row>>)
      returns (found: map<int, Found>)
    requires LinkIndex(db, asked, links) && PatchIndex(db, askedPatches, patches)
    requires c.patchId.Some? ==> c.patchId.value in askedPatches
    ensures found == MatchesIn(db, asked, c)
  {
    var linked := CollectLinkMatches(db, asked, c, links);
    var rows := MatchPatch(db, askedPatches, c, patches);
    found := MergeMatches(linked, rows);
    MergedIsMatched(db, asked, c, linked, ItemIds(rows));
  }

  lemma ItemIdsSnoc(rows: seq<Row>, i: nat)
    requires i < |rows|
    ensures ItemIds(rows[..i + 1]) == ItemIds(rows[..i]) + {rows[i].itemId}
  {
    var a, b := rows[..i + 1], rows[..i];
    assert a[i] == rows[i];
    forall j | 0 <= j < i
      ensures a[j] == b[j]
    {
    }
  }

  lemma SamePatchIs(db: Archive, asked: set<PatchId>, c: MainCommit, patches: map<PatchId, seq<Row>>)
    requires PatchIndex(db, asked, patches) && c.patchId.Some? && c.patchId.value in asked
    ensures var rows := if c.patchId.value in patches then patches[c.patchId.value] else [];
            AllRows(db, rows) && NoDuplicates(rows) && ItemIds(rows) == SamePatch(db, c)
  {
    var rows := if c.patchId.value in patches then patches[c.patchId.value] else [];
    forall k | k in SamePatch(db, c)
      ensures k in ItemIds(rows)
    {
      var j :| 0 <= j < |rows| && rows[j] == Row(k, db.items[k]);
    }
    assert forall j | 0 <= j < |rows| :: rows[j] in rows;
  }

  // ---- a window ----

  ghost function ItemsOf(rows: MatchTable): set<int> {
    set key | key in rows :: key.itemId
  }

  /** Rows for patches without a canonical match, all canonical. */
  ghost predicate NewRows(m: MatchTable, rows: MatchTable) {
    && (forall key | key in rows :: rows[key].canonical)
    && (forall k | k in ItemsOf(rows) :: !IsCanonical(m, k))
  }

  /** Where no patch of the rows has a canonical match, there is nothing to demote. */
  lemma ReplaceIsPut(m: MatchTable, rows: MatchTable)
    requires forall k | k in ItemsOf(rows) :: !IsCanonical(m, k)
    ensures ReplaceCanonical(m, rows) == m + rows
  {
    forall key | key in m && key.itemId in ItemsOf(rows)
      ensures !m[key].canonical
    {
      assert !IsCanonical(m, key.itemId);
    }
  }

  lemma CanonicalWith(m: MatchTable, rows: MatchTable, k: int)
    requires NewRows(m, rows)
    ensures IsCanonical(m + rows, k) <==> IsCanonical(m, k) || k in ItemsOf(rows)
  {
    var r := m + rows;
    if k in ItemsOf(rows) {
      var key :| key in rows && key.itemId == k;
      assert key in r && r[key].canonical;
    } else {
      if IsCanonical(m, k) {
        var key :| key in m && key.itemId == k && m[key].canonical;
        assert key in r && r[key].canonical;
      }
      if IsCanonical(r, k) {
        var key :| key in r && key.itemId == k && r[key].canonical;
        assert key !in rows && key in m;
      }
    }
  }

  lemma ItemsOfCanonicalRows(oid: ObjectId, news: map<int, Found>)
    ensures ItemsOf(CanonicalRows(oid, news)) == news.Keys
  {
    forall k | k in news
      ensures k in ItemsOf(CanonicalRows(oid, news))
    {
      assert MatchKey(k, oid) in CanonicalRows(oid, news);
    }
  }

  /** The tables with the rows that the window has collected so far. */
  function WithRows(t: Tables, rows: MatchTable, upserts: CommitTable): Tables {
    Tables(ReplaceCanonical(t.matches, rows), t.commits + upserts)
  }

  /** `filter_new_canonical_matches` */
  function FilterNew(found: map<int, Found>, existing: set<int>, claimed: set<int>): map<int, Found> {
    map k | k in found && k !in existing && k !in claimed :: found[k]
  }

  lemma FilterIsFresh(m: MatchTable, rows: MatchTable, found: map<int, Found>, existing: set<int>)
    requires NewRows(m, rows)
    requires forall k | k in found :: k in existing <==> IsCanonical(m, k)
    ensures FilterNew(found, existing, ItemsOf(rows)) == Fresh(ReplaceCanonical(m, rows), found)
  {
    ReplaceIsPut(m, rows);
    forall k | k in found
      ensures IsCanonical(m + rows, k) <==> k in existing || k in ItemsOf(rows)
    {
      CanonicalWith(m, rows, k);
    }
  }

  lemma NoRows(t: Tables)
    ensures WithRows(t, map[], map[]) == t
  {
    ReplaceIsPut(t.matches, map[]);
    assert t.commits + map[] == t.commits;
  }

  lemma PutTwice(m: MatchTable, rows: MatchTable, more: MatchTable)
    requires NewRows(m, rows) && NewRows(m, rows + more)
    requires forall k | k in ItemsOf(more) :: !IsCanonical(m + rows, k)
    ensures ReplaceCanonical(ReplaceCanonical(m, rows), more) == ReplaceCanonical(m, rows + more)
  {
    ReplaceIsPut(m, rows);
    ReplaceIsPut(m + rows, more);
    ReplaceIsPut(m, rows + more);
    assert m + rows + more == m + (rows + more);
  }

  lemma CommitsSnoc(commits: CommitTable, upserts: CommitTable, oid: ObjectId, meta: CommitMeta)
    ensures commits + upserts[oid := meta] == (commits + upserts)[oid := meta]
  {
  }

  lemma MoreRows(t: Tables, rows: MatchTable, upserts: CommitTable, tags: map<ObjectId, TagInfo>, c: Matched,
                 news: map<int, Found>, more: MatchTable)
    requires news == Fresh(ReplaceCanonical(t.matches, rows), c.found) && news != map[]
    requires more == CanonicalRows(c.commit.oid, news)
    requires ReplaceCanonical(ReplaceCanonical(t.matches, rows), more) == ReplaceCanonical(t.matches, rows + more)
    ensures AddMatches(WithRows(t, rows, upserts), tags, c) ==
            WithRows(t, rows + more, upserts[c.commit.oid := MetaOf(c.commit, tags)])
  {
    CommitsSnoc(t.commits, upserts, c.commit.oid, MetaOf(c.commit, tags));
  }

  lemma NewRowsGrow(m: MatchTable, rows: MatchTable, oid: ObjectId, news: map<int, Found>)
    requires NewRows(m, rows) && forall k | k in news :: !IsCanonical(m, k)
    ensures NewRows(m, rows + CanonicalRows(oid, news))
    ensures ItemsOf(rows + CanonicalRows(oid, news)) == ItemsOf(rows) + news.Keys
  {
    ItemsOfCanonicalRows(oid, news);
    var all := rows + CanonicalRows(oid, news);
    assert ItemsOf(all) == ItemsOf(rows) + ItemsOf(CanonicalRows(oid, news)) by {
      assert forall key | key in rows :: key in all;
      assert forall key | key in CanonicalRows(oid, news) :: key in all;
    }
  }

  /** The rows of a window are its matches, those of the first `n` commits so far. */
  ghost predicate Collected(t: Tables, tags: map<ObjectId, TagInfo>, ms: seq<Matched>, n: nat, rows: MatchTable,
                            upserts: CommitTable)
    requires n <= |ms|
  {
    NewRows(t.matches, rows) && WithRows(t, rows, upserts) == AddAll(t, tags, ms, n)
  }

  lemma CollectOne(t: Tables, tags: map<ObjectId, TagInfo>, ms: seq<Matched>, n: nat, rows: MatchTable,
                   upserts: CommitTable, existing: set<int>, news: map<int, Found>)
    requires n < |ms| && Collected(t, tags, ms, n, rows, upserts)
    requires forall k | k in ms[n].found :: k in existing <==> IsCanonical(t.matches, k)
    requires news == FilterNew(ms[n].found, existing, ItemsOf(rows))
    ensures var more := CanonicalRows(ms[n].commit.oid, news);
            if news == map[] then Collected(t, tags, ms, n + 1, rows, upserts)
            else
              && ItemsOf(rows + more) == ItemsOf(rows) + news.Keys
              && Collected(t, tags, ms, n + 1, rows + more,
                           upserts[ms[n].commit.oid := MetaOf(ms[n].commit, tags)])
  {
    var c, more := ms[n], CanonicalRows(ms[n].commit.oid, news);
    FilterIsFresh(t.matches, rows, c.found, existing);
    assert AddAll(t, tags, ms, n + 1) == AddMatches(WithRows(t, rows, upserts), tags, c);
    if news != map[] {
      NewRowsGrow(t.matches, rows, c.commit.oid, news);
      ItemsOfCanonicalRows(c.commit.oid, news);
      ReplaceIsPut(t.matches, rows);
      PutTwice(t.matches, rows, more);
      MoreRows(t, rows, upserts, tags, c, news, more);
    }
  }

  function PatchIdsOf(cs: seq<MainCommit>): set<PatchId> {
    set i | 0 <= i < |cs| && cs[i].patchId.Some? :: cs[i].patchId.value
  }

  /** All candidates of the window. */
  function CandidateIds(links: map<MailId, seq<Row>>, patches: map<PatchId, seq<Row>>): set<int> {
    (set id, r | id in links && r in links[id] :: r.itemId)
      + (set id, r | id in patches && r in patches[id] :: r.itemId)
  }

  lemma MatchesAreCandidates(db: Archive, asked: set<MailId>, askedPatches: set<PatchId>, c: MainCommit,
                             links: map<MailId, seq<Row>>, patches: map<PatchId, seq<Row>>)
    requires LinkIndex(db, asked, links) && PatchIndex(db, askedPatches, patches)
    requires c.patchId.Some? ==> c.patchId.value in askedPatches
    ensures MatchesIn(db, asked, c).Keys <= CandidateIds(links, patches)
  {
    forall k | k in MatchesIn(db, asked, c)
      ensures k in CandidateIds(links, patches)
    {
      if k in Linked(db, asked, c) {
        assert Row(k, db.items[k]) in links[db.items[k].primary];
      } else {
        assert k in SamePatch(db, c);
        assert Row(k, db.items[k]) in patches[c.patchId.value];
      }
    }
  }

  class Store {
    var matches: MatchTable
    var commits: CommitTable

    function State(): Tables
      reads this
    {
      Tables(matches, commits)
    }

    /** `list_existing_canonical_patch_item_ids` */
    function ExistingCanonical(ids: set<int>): set<int>
      reads this
    {
      set k | k in ids && IsCanonical(matches, k)
    }

    method ReplaceCanonicalMatches(rows: MatchTable)
      modifies this`matches
      ensures matches == ReplaceCanonical(old(matches), rows)
    {
      if rows == map[] {
        ReplaceIsPut(matches, rows);
        return;
      }
      var ids := set key | key in rows :: key.itemId;
      matches := Demote(matches, ids);
      matches := matches + rows;
    }

    method UpsertMainlineCommits(upserts: CommitTable)
      modifies this`commits
      ensures commits == old(commits) + upserts
    {
      commits := commits + upserts;
    }

    /** Collects the matches of a window without writing anything. Within the window a patch
        is claimed by the first commit that matches it. */
    method ResolveBatch(db: Archive, tags: map<ObjectId, TagInfo>, cs: seq<MainCommit>)
        returns (rows: MatchTable, upserts: CommitTable)
      ensures Collected(State(), tags, MatchAll(db, LinksOf(cs), cs), |cs|, rows, upserts)
    {
      var asked, askedPatches := LinksOf(cs), PatchIdsOf(cs);
      var linkRows := FindByMessageIds(db, asked);
      var patchRows := FindByPatchIds(db, askedPatches);
      var links := GroupByPrimary(db, asked, linkRows);
      var patches := GroupByPatch(db, askedPatches, patchRows);
      var existing := ExistingCanonical(CandidateIds(links, patches));
      var claimed: set<int> := {};
      ghost var ms := MatchAll(db, asked, cs);
      rows, upserts := map[], map[];
      NoRows(State());
      for i := 0 to |cs|
        invariant claimed == ItemsOf(rows)
        invariant Collected(State(), tags, ms, i, rows, upserts)
      {
        var c := cs[i];
        var found := MatchCommit(db, asked, askedPatches, c, links, patches);
        MatchesAreCandidates(db, asked, askedPatches, c, links, patches);
        assert ms[i] == Matched(c, found);
        var news := FilterNew(found, existing, claimed);
        CollectOne(State(), tags, ms, i, rows, upserts, existing, news);
        if news != map[] {
          upserts := upserts[c.oid := MetaOf(c, tags)];
          claimed := claimed + news.Keys;
          rows := rows + CanonicalRows(c.oid, news);
        }
      }
    }

    /** The scan in windows of `size`. */
    method ScanCommits(db: Archive, tags: map<ObjectId, TagInfo>, cs: seq<MainCommit>, size: nat)
      requires size > 0
      modifies this
      ensures State() == ScanChunks(Scan(db, tags), old(State()), cs, size)
      ensures Scanned(Scan(db, tags), old(State()), cs, size, State())
    {
      ScanMeans(Scan(db, tags), State(), cs, size);
      var rest := cs;
      while rest != []
        invariant ScanChunks(Scan(db, tags), State(), rest, size) == ScanChunks(Scan(db, tags), old(State()), cs, size)
        decreases |rest|
      {
        var n := if |rest| <= size then |rest| else size;
        ScanWindowOf(db, tags, rest[..n]);
        if |rest| <= size {
          assert rest[..n] == rest && rest[n..] == [];
        }
        rest := rest[n..];
      }
    }

    method ScanWindowOf(db: Archive, tags: map<ObjectId, TagInfo>, window: seq<MainCommit>)
      modifies this
      ensures State() == ScanWindow(Scan(db, tags), old(State()), window)
    {
      var rows, upserts := ResolveBatch(db, tags, window);
      UpsertMainlineCommits(upserts);
      ReplaceCanonicalMatches(rows);
    }
  }
}
