/** What a scan of the mainline leaves, said of the fields of commits and patches. */
module MainlineFacts {
  import opened MainlineMatch
  import opened MainlineWindows
  import opened ReleaseTags
  import opened Sorting
  import opened Wrappers

  // ---- the matches of a commit ----

  /** The commit links the message of the patch, and the window asked for an id it is known by. */
  ghost predicate IsLinked(db: Archive, asked: set<MailId>, c: MainCommit, k: int) {
    && k in db.items && db.items[k].primary in c.links
    && exists id :: id in asked && Mapping(id, db.items[k].messagePk) in db.idMap
  }

  ghost predicate HasSubject(i: Item, subject: string) {
    subject == if i.commitSubject.Some? then i.commitSubject.value else i.subject
  }

  /** A linked patch counts unless linked patches differ in their subjects and it has not the
      subject of the commit. */
  ghost predicate MatchesByLink(db: Archive, asked: set<MailId>, c: MainCommit, k: int) {
    && IsLinked(db, asked, c, k)
    && (HasSubject(db.items[k], c.subjectNorm)
        || forall j, s | IsLinked(db, asked, c, j) && HasSubject(db.items[j], s) :: HasSubject(db.items[k], s))
  }

  ghost predicate HasPatchId(db: Archive, c: MainCommit, k: int) {
    k in db.items && c.patchId.Some? && db.items[k].patchId == c.patchId
  }

  /** A patch of the same patch id counts if it is the only one or has the commit's subject. */
  ghost predicate MatchesByPatchId(db: Archive, c: MainCommit, k: int) {
    && HasPatchId(db, c, k)
    && (HasSubject(db.items[k], c.subjectNorm) || forall j | HasPatchId(db, c, j) :: j == k)
  }

  lemma OneSubject(s: set<string>, x: string)
    requires x in s && |s| <= 1
    ensures s == {x}
  {
    assert |s - {x}| == |s| - 1;
  }

  lemma AllOneSubject(s: set<string>, x: string)
    requires x in s && forall y | y in s :: y == x
    ensures |s| <= 1
  {
    assert s == {x};
  }

  lemma LinksMean(db: Archive, asked: set<MailId>, c: MainCommit, k: int)
    ensures k in LinkMatches(db, asked, c) <==> MatchesByLink(db, asked, c, k)
  {
    var ks := Linked(db, asked, c);
    assert forall j :: j in ks <==> IsLinked(db, asked, c, j);
    if k in ks {
      var subjects, own := Subjects(db, ks), SubjectOf(db.items[k]);
      assert own in subjects;
      if |subjects| <= 1 {
        OneSubject(subjects, own);
        forall j, s | IsLinked(db, asked, c, j) && HasSubject(db.items[j], s)
          ensures HasSubject(db.items[k], s)
        {
          assert SubjectOf(db.items[j]) in subjects;
        }
      } else if forall j, s | IsLinked(db, asked, c, j) && HasSubject(db.items[j], s) :: HasSubject(db.items[k], s) {
        forall y | y in subjects
          ensures y == own
        {
          var j :| j in ks && SubjectOf(db.items[j]) == y;
          assert IsLinked(db, asked, c, j) && HasSubject(db.items[j], y);
          assert HasSubject(db.items[k], y);
        }
        AllOneSubject(subjects, own);
      }
    }
  }

  lemma OnlyElement(s: set<int>, k: int)
    requires k in s
    ensures |s| <= 1 <==> forall j | j in s :: j == k
  {
    assert |s - {k}| == |s| - 1;
    if forall j | j in s :: j == k {
      assert s == {k};
    } else {
      var j :| j in s && j != k;
      assert j in s - {k};
    }
  }

  lemma PatchIdsMean(db: Archive, c: MainCommit, k: int)
    ensures k in PatchMatches(db, c) <==> MatchesByPatchId(db, c, k)
  {
    var ks := SamePatch(db, c);
    assert forall j :: j in ks <==> HasPatchId(db, c, j);
    if k in ks {
      OnlyElement(ks, k);
    }
  }

  /** Exactly these patches match, by the link with the id of the patch if there is one, else by
      the patch id. */
  lemma MatchesMean(db: Archive, asked: set<MailId>, c: MainCommit, k: int)
    ensures var found := MatchesIn(db, asked, c);
            && (k in found <==> MatchesByLink(db, asked, c, k) || MatchesByPatchId(db, c, k))
            && (MatchesByLink(db, asked, c, k) ==> found[k] == Found(ByLink, Some(db.items[k].primary)))
            && (k in found && !MatchesByLink(db, asked, c, k) ==> found[k] == Found(ByPatchId, None))
  {
    LinksMean(db, asked, c, k);
    PatchIdsMean(db, c, k);
  }

  // ---- what commits leave in the tables ----

  ghost predicate HasCanonical(m: MatchTable, k: int) {
    exists oid :: MatchKey(k, oid) in m && m[MatchKey(k, oid)].canonical
  }

  /** The `i`th commit is the first that matches the patch, which had no canonical match. */
  ghost predicate Takes(t: Tables, ms: seq<Matched>, i: nat, k: int) {
    && i < |ms| && k in ms[i].found && !HasCanonical(t.matches, k)
    && forall j | 0 <= j < i :: k !in ms[j].found
  }

  /** A patch gets one new match, canonical, of the commit that takes it; its other rows stay. */
  ghost predicate MatchRowsOf(t: Tables, ms: seq<Matched>, n: nat, after: MatchTable, k: int) {
    forall oid ::
      var key := MatchKey(k, oid);
      && (key in after <==> key in t.matches || exists i: nat :: i < n && Takes(t, ms, i, k) && ms[i].commit.oid == oid)
      && (key in t.matches && (forall i: nat | i < n && Takes(t, ms, i, k) :: ms[i].commit.oid != oid) ==>
            key in after && after[key] == t.matches[key])
      && (forall i: nat | i < n && Takes(t, ms, i, k) && ms[i].commit.oid == oid ::
            key in after && after[key] == Match(ms[i].found[k], true))
  }

  /** The row of a commit: its subject and time, and its first tag if it has one. */
  ghost predicate CommitRowOf(c: MainCommit, tags: map<ObjectId, TagInfo>, row: CommitMeta) {
    && row.subject == c.subject && row.committedAt == c.committedAt
    && row.tag == if c.oid in tags then Some(tags[c.oid]) else None
  }

  ghost predicate TakesSome(t: Tables, ms: seq<Matched>, i: nat) {
    exists k :: Takes(t, ms, i, k)
  }

  /** The row of that commit is that of the last such one of its id. */
  ghost predicate RowFrom(t: Tables, tags: map<ObjectId, TagInfo>, ms: seq<Matched>, n: nat, i: nat, row: CommitMeta)
    requires i < n <= |ms|
  {
    exists j: nat :: i <= j < n && ms[j].commit.oid == ms[i].commit.oid && TakesSome(t, ms, j)
                     && CommitRowOf(ms[j].commit, tags, row)
  }

  ghost predicate TakesNothing(t: Tables, ms: seq<Matched>, n: nat, oid: ObjectId)
    requires n <= |ms|
  {
    forall i: nat | i < n && TakesSome(t, ms, i) :: ms[i].commit.oid != oid
  }

  /** Commits that take a patch have their row; rows of other commits stay as they were. */
  ghost predicate CommitRows(t: Tables, tags: map<ObjectId, TagInfo>, ms: seq<Matched>, n: nat, after: CommitTable)
    requires n <= |ms|
  {
    && (forall i: nat | i < n && TakesSome(t, ms, i) ::
          ms[i].commit.oid in after && RowFrom(t, tags, ms, n, i, after[ms[i].commit.oid]))
    && (forall oid | TakesNothing(t, ms, n, oid) ::
          (oid in after <==> oid in t.commits) && (oid in after ==> after[oid] == t.commits[oid]))
  }

  lemma CanonicalMeans(m: MatchTable, k: int)
    ensures IsCanonical(m, k) <==> HasCanonical(m, k)
  {
    if IsCanonical(m, k) {
      var key :| key in m && key.itemId == k && m[key].canonical;
      assert key == MatchKey(k, key.oid);
    }
  }

  /** The commits after the first `n` have found a canonical match exactly for the patches that
      had one or that one of the `n` matches. */
  lemma StillNeeded(t: Tables, tags: map<ObjectId, TagInfo>, ms: seq<Matched>, n: nat, k: int)
    requires n < |ms|
    ensures k in Fresh(AddAll(t, tags, ms, n).matches, ms[n].found) <==> Takes(t, ms, n, k)
  {
    var m := AddAll(t, tags, ms, n).matches;
    FirstWins(t, tags, ms, n, k);
    CanonicalAfter(t, ms, n, k, m);
    CanonicalMeans(t.matches, k);
    var f := FirstMatch(ms, n, k);
  }

  lemma AddsNoCommit(t: Tables, tags: map<ObjectId, TagInfo>, ms: seq<Matched>, n: nat, commits: CommitTable)
    requires n < |ms| && CommitRows(t, tags, ms, n, commits) && !TakesSome(t, ms, n)
    ensures CommitRows(t, tags, ms, n + 1, commits)
  {
    hide RowFrom, Takes, TakesNothing, TakesSome;
    forall i: nat | i < n && TakesSome(t, ms, i)
      ensures RowFrom(t, tags, ms, n + 1, i, commits[ms[i].commit.oid])
    {
      LaterRowFrom(t, tags, ms, n, i, commits[ms[i].commit.oid]);
    }
    forall oid | TakesNothing(t, ms, n + 1, oid)
      ensures TakesNothing(t, ms, n, oid)
    {
      NothingBefore(t, ms, n, oid);
    }
  }

  lemma LaterRowFrom(t: Tables, tags: map<ObjectId, TagInfo>, ms: seq<Matched>, n: nat, i: nat, row: CommitMeta)
    requires i < n < |ms| && RowFrom(t, tags, ms, n, i, row)
    ensures RowFrom(t, tags, ms, n + 1, i, row)
  {
    hide CommitRowOf, Takes, TakesSome;
  }

  lemma NewRowFrom(t: Tables, tags: map<ObjectId, TagInfo>, ms: seq<Matched>, n: nat, i: nat, row: CommitMeta)
    requires i <= n < |ms| && ms[i].commit.oid == ms[n].commit.oid && TakesSome(t, ms, n)
    requires CommitRowOf(ms[n].commit, tags, row)
    ensures RowFrom(t, tags, ms, n + 1, i, row)
  {
    hide CommitRowOf, TakesSome;
  }

  lemma NothingBefore(t: Tables, ms: seq<Matched>, n: nat, oid: ObjectId)
    requires n < |ms| && TakesNothing(t, ms, n + 1, oid)
    ensures TakesNothing(t, ms, n, oid) && (TakesSome(t, ms, n) ==> oid != ms[n].commit.oid)
  {
    hide TakesSome;
  }

  lemma AddsCommit(t: Tables, tags: map<ObjectId, TagInfo>, ms: seq<Matched>, n: nat, before: CommitTable,
                   after: CommitTable, row: CommitMeta)
    requires n < |ms| && CommitRows(t, tags, ms, n, before) && TakesSome(t, ms, n)
    requires CommitRowOf(ms[n].commit, tags, row) && after == before[ms[n].commit.oid := row]
    ensures CommitRows(t, tags, ms, n + 1, after)
  {
    hide CommitRowOf, RowFrom, Takes, TakesNothing, TakesSome;
    forall i: nat | i < n + 1 && TakesSome(t, ms, i)
      ensures ms[i].commit.oid in after && RowFrom(t, tags, ms, n + 1, i, after[ms[i].commit.oid])
    {
      if ms[i].commit.oid == ms[n].commit.oid {
        NewRowFrom(t, tags, ms, n, i, row);
      } else {
        LaterRowFrom(t, tags, ms, n, i, before[ms[i].commit.oid]);
      }
    }
    forall oid | TakesNothing(t, ms, n + 1, oid)
      ensures (oid in after <==> oid in t.commits) && (oid in after ==> after[oid] == t.commits[oid])
    {
      NothingBefore(t, ms, n, oid);
      assert oid != ms[n].commit.oid;
    }
  }

  lemma NewsMean(t: Tables, ms: seq<Matched>, n: nat, news: map<int, Found>)
    requires forall k :: k in news <==> Takes(t, ms, n, k)
    ensures news != map[] <==> TakesSome(t, ms, n)
  {
    if news != map[] {
      assert news.Keys != {};
      var k := AnyOf(news.Keys);
      assert Takes(t, ms, n, k);
    }
  }

  lemma CommitsStep(t: Tables, tags: map<ObjectId, TagInfo>, ms: seq<Matched>, n: nat)
    requires n < |ms| && CommitRows(t, tags, ms, n, AddAll(t, tags, ms, n).commits)
    ensures CommitRows(t, tags, ms, n + 1, AddAll(t, tags, ms, n + 1).commits)
  {
    hide CommitRows, Takes, TakesSome;
    var before := AddAll(t, tags, ms, n);
    var news := Fresh(before.matches, ms[n].found);
    forall k
      ensures k in news <==> Takes(t, ms, n, k)
    {
      StillNeeded(t, tags, ms, n, k);
    }
    NewsMean(t, ms, n, news);
    if news == map[] {
      AddsNoCommit(t, tags, ms, n, before.commits);
    } else {
      AddsCommit(t, tags, ms, n, before.commits, AddAll(t, tags, ms, n + 1).commits, MetaOf(ms[n].commit, tags));
    }
  }

  lemma NoCommits(t: Tables, tags: map<ObjectId, TagInfo>, ms: seq<Matched>)
    ensures CommitRows(t, tags, ms, 0, AddAll(t, tags, ms, 0).commits)
  {
  }

  lemma {:induction false} CommitsMean(t: Tables, tags: map<ObjectId, TagInfo>, ms: seq<Matched>, n: nat)
    requires n <= |ms|
    ensures CommitRows(t, tags, ms, n, AddAll(t, tags, ms, n).commits)
    decreases n
  {
    hide AddAll, CommitRows;
    if n == 0 {
      NoCommits(t, tags, ms);
    } else {
      CommitsMean(t, tags, ms, n - 1);
      CommitsStep(t, tags, ms, n - 1);
    }
  }

  lemma RowsMean(t: Tables, tags: map<ObjectId, TagInfo>, ms: seq<Matched>, k: int)
    ensures MatchRowsOf(t, ms, |ms|, AddAll(t, tags, ms, |ms|).matches, k)
  {
    var n, m := |ms|, AddAll(t, tags, ms, |ms|).matches;
    FirstWins(t, tags, ms, n, k);
    CanonicalMeans(t.matches, k);
    var f := FirstMatch(ms, n, k);
    forall i: nat | Takes(t, ms, i, k)
      ensures i == f
    {
    }
    forall oid
      ensures MatchKey(k, oid) in m <==> MatchKey(k, oid) in RowsOf(m, k)
      ensures MatchKey(k, oid) in t.matches <==> MatchKey(k, oid) in RowsOf(t.matches, k)
    {
    }
    assert f < n && !IsCanonical(t.matches, k) ==> Takes(t, ms, f, k);
  }

  // ---- windows ----

  /** The ids that the window of the `i`th commit asks for: those linked by the commits from the
      same `size` positions. */
  function AskedAround(cs: seq<MainCommit>, size: nat, i: nat): set<MailId>
    requires size > 0
  {
    set j, x | 0 <= j < |cs| && 0 <= x < |cs[j].links| && j / size == i / size :: cs[j].links[x]
  }

  function WindowMatches(db: Archive, cs: seq<MainCommit>, size: nat): (ms: seq<Matched>)
    requires size > 0
    ensures |ms| == |cs|
  {
    seq(|cs|, i requires 0 <= i < |cs| => Matched(cs[i], MatchesIn(db, AskedAround(cs, size, i), cs[i])))
  }

  lemma ScaleUp(k: int, d: nat)
    ensures k >= 1 ==> k * d >= d
    ensures k <= -1 ==> k * d + d <= 0
  {
  }

  lemma Quotient(a: nat, d: nat, q: int, r: nat)
    requires d > 0 && a == q * d + r && r < d
    ensures a / d == q
  {
    var k := q - a / d;
    assert k * d == a % d - r;
    ScaleUp(k, d);
  }

  lemma SameWindow(size: nat, i: nat)
    requires size > 0
    ensures (i + size) / size == i / size + 1
    ensures i < size ==> i / size == 0
    ensures i >= size ==> i / size >= 1
  {
    Quotient(i + size, size, i / size + 1, i % size);
    if i < size {
      Quotient(i, size, 0, i);
    } else {
      ScaleUp(-(i / size), size);
    }
  }

  lemma AskedInFirst(cs: seq<MainCommit>, size: nat, i: nat)
    requires size > 0 && i < |cs| && i < size
    ensures AskedAround(cs, size, i) == LinksOf(if |cs| <= size then cs else cs[..size])
  {
    var window := if |cs| <= size then cs else cs[..size];
    SameWindow(size, i);
    forall id
      ensures id in AskedAround(cs, size, i) <==> id in LinksOf(window)
    {
      if id in AskedAround(cs, size, i) {
        var j: nat, x: nat :| j < |cs| && x < |cs[j].links| && j / size == i / size && cs[j].links[x] == id;
        SameWindow(size, j);
        assert window[j].links[x] == id;
      }
      if id in LinksOf(window) {
        var j: nat, x: nat :| j < |window| && x < |window[j].links| && window[j].links[x] == id;
        SameWindow(size, j);
        assert cs[j].links[x] == id;
      }
    }
  }

  lemma AskedLater(cs: seq<MainCommit>, size: nat, i: nat)
    requires 0 < size < |cs| && i < |cs| - size
    ensures AskedAround(cs, size, i + size) == AskedAround(cs[size..], size, i)
  {
    var rest := cs[size..];
    SameWindow(size, i);
    forall id
      ensures id in AskedAround(cs, size, i + size) <==> id in AskedAround(rest, size, i)
    {
      if id in AskedAround(cs, size, i + size) {
        var j: nat, x: nat :| j < |cs| && x < |cs[j].links| && j / size == (i + size) / size && cs[j].links[x] == id;
        SameWindow(size, j);
        SameWindow(size, j - size);
        assert rest[j - size].links[x] == id;
      }
      if id in AskedAround(rest, size, i) {
        var j: nat, x: nat :| j < |rest| && x < |rest[j].links| && j / size == i / size && rest[j].links[x] == id;
        SameWindow(size, j);
        assert cs[j + size].links[x] == id;
      }
    }
  }

  lemma FirstWindowMatches(db: Archive, cs: seq<MainCommit>, size: nat)
    requires 0 < size < |cs|
    ensures WindowMatches(db, cs, size)
            == MatchAll(db, LinksOf(cs[..size]), cs[..size]) + WindowMatches(db, cs[size..], size)
  {
    hide AskedAround, LinksOf, MatchesIn;
    forall i: nat | i < |cs|
      ensures i < size ==> AskedAround(cs, size, i) == LinksOf(cs[..size])
      ensures i >= size ==> AskedAround(cs, size, i) == AskedAround(cs[size..], size, i - size)
    {
      if i < size {
        AskedInFirst(cs, size, i);
      } else {
        AskedLater(cs, size, i - size);
      }
    }
  }

  lemma OnlyWindowMatches(db: Archive, cs: seq<MainCommit>, size: nat)
    requires size > 0 && |cs| <= size
    ensures WindowMatches(db, cs, size) == MatchAll(db, LinksOf(cs), cs)
  {
    forall i: nat | i < |cs|
      ensures AskedAround(cs, size, i) == LinksOf(cs)
    {
      AskedInFirst(cs, size, i);
    }
  }

  lemma ChunkStep(s: Scan, t: Tables, cs: seq<MainCommit>, size: nat)
    requires 0 < size < |cs|
    requires var t', rest := ScanWindow(s, t, cs[..size]), cs[size..];
             ScanChunks(s, t', rest, size) == AddAll(t', s.tags, WindowMatches(s.db, rest, size), |rest|)
    ensures ScanChunks(s, t, cs, size) == AddAll(t, s.tags, WindowMatches(s.db, cs, size), |cs|)
  {
    hide AddAll;
    var first, later := MatchAll(s.db, LinksOf(cs[..size]), cs[..size]), WindowMatches(s.db, cs[size..], size);
    FirstChunk(s, t, cs, size);
    FirstWindowMatches(s.db, cs, size);
    AddConcat(t, s.tags, first, later, |later|);
  }

  /** Scanning in windows is one scan in which every commit has the matches of its window. */
  lemma {:induction false} ChunksAreOneScan(s: Scan, t: Tables, cs: seq<MainCommit>, size: nat)
    requires size > 0
    ensures ScanChunks(s, t, cs, size) == AddAll(t, s.tags, WindowMatches(s.db, cs, size), |cs|)
    decreases |cs|
  {
    if |cs| <= size {
      OnlyWindowMatches(s.db, cs, size);
    } else {
      ChunksAreOneScan(s, ScanWindow(s, t, cs[..size]), cs[size..], size);
      ChunkStep(s, t, cs, size);
    }
  }

  /** What a scan in windows does to both tables. */
  ghost predicate Scanned(s: Scan, t: Tables, cs: seq<MainCommit>, size: nat, after: Tables)
    requires size > 0
  {
    var ms := WindowMatches(s.db, cs, size);
    && (forall k :: MatchRowsOf(t, ms, |cs|, after.matches, k))
    && CommitRows(t, s.tags, ms, |cs|, after.commits)
  }

  lemma ScanMeans(s: Scan, t: Tables, cs: seq<MainCommit>, size: nat)
    requires size > 0
    ensures Scanned(s, t, cs, size, ScanChunks(s, t, cs, size))
  {
    hide CommitRows, MatchRowsOf;
    var ms := WindowMatches(s.db, cs, size);
    ChunksAreOneScan(s, t, cs, size);
    CommitsMean(t, s.tags, ms, |ms|);
    forall k
      ensures MatchRowsOf(t, ms, |ms|, AddAll(t, s.tags, ms, |ms|).matches, k)
    {
      RowsMean(t, s.tags, ms, k);
    }
  }
}
