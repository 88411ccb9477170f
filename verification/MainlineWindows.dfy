/** Scanning the mainline in windows: the window size does not matter, the first matching
    commit wins, and scanning again changes nothing. */
module MainlineWindows {
  import opened MainlineMatch
  import opened ReleaseTags
  import opened Wrappers

  /** Every commit with the matches it has in a window of its own. */
  function OwnAll(db: Archive, cs: seq<MainCommit>): (ms: seq<Matched>)
    ensures |ms| == |cs|
  {
    seq(|cs|, i requires 0 <= i < |cs| => Matched(cs[i], OwnMatches(db, cs[i])))
  }

  /** The commits one by one, each in a window of its own. */
  function ScanAll(s: Scan, t: Tables, cs: seq<MainCommit>): Tables {
    AddAll(t, s.tags, OwnAll(s.db, cs), |cs|)
  }

  lemma AskedByWindow(cs: seq<MainCommit>, i: nat)
    requires i < |cs|
    ensures LinksOf([cs[i]]) <= LinksOf(cs)
  {
    forall id | id in LinksOf([cs[i]])
      ensures id in LinksOf(cs)
    {
      LinksOfOne(cs[i], id);
      var j :| 0 <= j < |cs[i].links| && cs[i].links[j] == id;
    }
  }

  lemma WindowIsAll(s: Scan, t: Tables, cs: seq<MainCommit>)
    requires PrimaryMapped(s.db)
    ensures ScanWindow(s, t, cs) == ScanAll(s, t, cs)
  {
    forall i | 0 <= i < |cs|
      ensures MatchesIn(s.db, LinksOf(cs), cs[i]) == OwnMatches(s.db, cs[i])
    {
      AskedByWindow(cs, i);
      WindowOfOneSuffices(s.db, LinksOf(cs), cs[i]);
    }
    assert MatchAll(s.db, LinksOf(cs), cs) == OwnAll(s.db, cs);
  }

  lemma {:induction false} AddPrefix(t: Tables, tags: map<ObjectId, TagInfo>, a: seq<Matched>, b: seq<Matched>, n: nat)
    requires n <= |a|
    ensures AddAll(t, tags, a + b, n) == AddAll(t, tags, a, n)
  {
    if n > 0 {
      AddPrefix(t, tags, a, b, n - 1);
    }
  }

  lemma {:induction false} AddConcat(t: Tables, tags: map<ObjectId, TagInfo>, a: seq<Matched>, b: seq<Matched>, n: nat)
    requires n <= |b|
    ensures AddAll(t, tags, a + b, |a| + n) == AddAll(AddAll(t, tags, a, |a|), tags, b, n)
  {
    if n == 0 {
      AddPrefix(t, tags, a, b, |a|);
    } else {
      var m := AddAll(AddAll(t, tags, a, |a|), tags, b, n - 1);
      AddConcat(t, tags, a, b, n - 1);
      assert (a + b)[|a| + n - 1] == b[n - 1];
      assert AddAll(t, tags, a + b, |a| + n) == AddMatches(m, tags, b[n - 1]);
    }
  }

  lemma OwnConcat(db: Archive, a: seq<MainCommit>, b: seq<MainCommit>)
    ensures OwnAll(db, a + b) == OwnAll(db, a) + OwnAll(db, b)
  {
    var l, r := OwnAll(db, a + b), OwnAll(db, a) + OwnAll(db, b);
    forall i | 0 <= i < |l|
      ensures l[i] == r[i]
    {
      if i < |a| {
        assert (a + b)[i] == a[i];
      } else {
        assert (a + b)[i] == b[i - |a|];
      }
    }
  }

  lemma ScanConcat(s: Scan, t: Tables, a: seq<MainCommit>, b: seq<MainCommit>)
    ensures ScanAll(s, t, a + b) == ScanAll(s, ScanAll(s, t, a), b)
  {
    var l, r := OwnAll(s.db, a), OwnAll(s.db, b);
    OwnConcat(s.db, a, b);
    AddConcat(t, s.tags, l, r, |r|);
  }

  lemma FirstChunk(s: Scan, t: Tables, cs: seq<MainCommit>, size: nat)
    requires 0 < size < |cs|
    ensures ScanChunks(s, t, cs, size) == ScanChunks(s, ScanWindow(s, t, cs[..size]), cs[size..], size)
  {
  }

  lemma ChunkIsAll(s: Scan, t: Tables, cs: seq<MainCommit>, a: seq<MainCommit>, b: seq<MainCommit>, size: nat)
    requires PrimaryMapped(s.db) && 0 < size < |cs| && a == cs[..size] && b == cs[size..]
    requires ScanChunks(s, ScanAll(s, t, a), b, size) == ScanAll(s, ScanAll(s, t, a), b)
    ensures ScanChunks(s, t, cs, size) == ScanAll(s, t, cs)
  {
    WindowIsAll(s, t, a);
    FirstChunk(s, t, cs, size);
    ScanConcat(s, t, a, b);
    assert a + b == cs;
  }

  /** Whatever the window size, the tables are those of a scan commit by commit. */
  lemma {:induction false} WindowSizeIrrelevant(s: Scan, t: Tables, cs: seq<MainCommit>, size: nat)
    requires PrimaryMapped(s.db) && size > 0
    ensures ScanChunks(s, t, cs, size) == ScanAll(s, t, cs)
    decreases |cs|
  {
    if |cs| <= size {
      WindowIsAll(s, t, cs);
    } else {
      var a, b := cs[..size], cs[size..];
      WindowSizeIrrelevant(s, ScanAll(s, t, a), b, size);
      ChunkIsAll(s, t, cs, a, b, size);
    }
  }

  // ---- the first match wins ----

  /** The rows of one patch. */
  function RowsOf(m: MatchTable, k: int): MatchTable {
    map key | key in m && key.itemId == k :: m[key]
  }

  /** The first of the first `n` commits that matches the patch; `n` if none does. */
  function FirstMatch(ms: seq<Matched>, n: nat, k: int): (f: nat)
    requires n <= |ms|
    ensures f <= n && forall j | 0 <= j < f :: k !in ms[j].found
    ensures f < n ==> k in ms[f].found
  {
    if n == 0 then 0
    else
      var f := FirstMatch(ms, n - 1, k);
      if f < n - 1 then f else if k in ms[n - 1].found then n - 1 else n
  }

  lemma CanonicalInRows(m: MatchTable, k: int)
    ensures IsCanonical(m, k) <==> exists key :: key in RowsOf(m, k) && RowsOf(m, k)[key].canonical
  {
    if IsCanonical(m, k) {
      var key :| key in m && key.itemId == k && m[key].canonical;
      assert key in RowsOf(m, k);
    }
  }

  lemma NewRowsOf(oid: ObjectId, news: map<int, Found>, k: int)
    ensures RowsOf(CanonicalRows(oid, news), k) ==
            if k in news then map[MatchKey(k, oid) := Match(news[k], true)] else map[]
  {
    assert k in news ==> MatchKey(k, oid) in CanonicalRows(oid, news);
  }

  lemma ReplacedRows(m: MatchTable, rows: MatchTable, k: int)
    requires !IsCanonical(m, k) || RowsOf(rows, k) == map[]
    ensures RowsOf(ReplaceCanonical(m, rows), k) == RowsOf(m, k) + RowsOf(rows, k)
  {
    assert forall key | key in rows && key.itemId == k :: key in RowsOf(rows, k);
  }

  lemma AddedRows(t: Tables, tags: map<ObjectId, TagInfo>, c: Matched, k: int)
    ensures RowsOf(AddMatches(t, tags, c).matches, k) ==
            if k in c.found && !IsCanonical(t.matches, k)
            then RowsOf(t.matches, k)[MatchKey(k, c.commit.oid) := Match(c.found[k], true)]
            else RowsOf(t.matches, k)
  {
    var news := Fresh(t.matches, c.found);
    NewRowsOf(c.commit.oid, news, k);
    ReplacedRows(t.matches, CanonicalRows(c.commit.oid, news), k);
  }

  lemma PutMakesCanonical(m: MatchTable, m': MatchTable, k: int, key: MatchKey, found: Found)
    requires key.itemId == k && RowsOf(m', k) == RowsOf(m, k)[key := Match(found, true)]
    ensures IsCanonical(m', k)
  {
    assert key in RowsOf(m', k) && RowsOf(m', k)[key].canonical;
    CanonicalInRows(m', k);
  }

  lemma SameRowsSameCanonical(m: MatchTable, m': MatchTable, k: int)
    requires RowsOf(m, k) == RowsOf(m', k)
    ensures IsCanonical(m, k) <==> IsCanonical(m', k)
  {
    CanonicalInRows(m, k);
    CanonicalInRows(m', k);
  }

  /** The rows of a patch after its first match, if it still needs one. */
  function FirstMatched(t: Tables, ms: seq<Matched>, n: nat, k: int): MatchTable
    requires n <= |ms|
  {
    var f := FirstMatch(ms, n, k);
    if IsCanonical(t.matches, k) || f == n then RowsOf(t.matches, k)
    else RowsOf(t.matches, k)[MatchKey(k, ms[f].commit.oid) := Match(ms[f].found[k], true)]
  }

  lemma CanonicalAfter(t: Tables, ms: seq<Matched>, n: nat, k: int, m: MatchTable)
    requires n <= |ms| && RowsOf(m, k) == FirstMatched(t, ms, n, k)
    ensures IsCanonical(m, k) <==> IsCanonical(t.matches, k) || FirstMatch(ms, n, k) < n
  {
    var f := FirstMatch(ms, n, k);
    if IsCanonical(t.matches, k) || f == n {
      SameRowsSameCanonical(m, t.matches, k);
    } else {
      PutMakesCanonical(t.matches, m, k, MatchKey(k, ms[f].commit.oid), ms[f].found[k]);
    }
  }

  lemma {:induction false} FirstWins(t: Tables, tags: map<ObjectId, TagInfo>, ms: seq<Matched>, n: nat, k: int)
    requires n <= |ms|
    ensures RowsOf(AddAll(t, tags, ms, n).matches, k) == FirstMatched(t, ms, n, k)
  {
    if n > 0 {
      var before := AddAll(t, tags, ms, n - 1);
      FirstWins(t, tags, ms, n - 1, k);
      AddedRows(before, tags, ms[n - 1], k);
      CanonicalAfter(t, ms, n - 1, k, before.matches);
    }
  }

  /** What a scan does to the rows of a patch: nothing if it has a canonical match or no
      commit matches it; else the first matching commit becomes canonical. */
  lemma FirstMatchWins(s: Scan, t: Tables, cs: seq<MainCommit>, k: int)
    ensures RowsOf(ScanAll(s, t, cs).matches, k) == FirstMatched(t, OwnAll(s.db, cs), |cs|, k)
  {
    FirstWins(t, s.tags, OwnAll(s.db, cs), |cs|, k);
  }

  /** No patch has two canonical matches. */
  ghost predicate OneCanonical(m: MatchTable) {
    forall a, b | a in m && b in m && m[a].canonical && m[b].canonical && a.itemId == b.itemId :: a == b
  }

  lemma RowsKeepOne(t: Tables, ms: seq<Matched>, k: int, m: MatchTable, a: MatchKey, b: MatchKey)
    requires OneCanonical(t.matches) && RowsOf(m, k) == FirstMatched(t, ms, |ms|, k)
    requires a in RowsOf(m, k) && b in RowsOf(m, k) && m[a].canonical && m[b].canonical
    ensures a == b
  {
    var was := RowsOf(t.matches, k);
    assert forall key | key in was && was[key].canonical :: IsCanonical(t.matches, k);
    assert RowsOf(m, k)[a].canonical && RowsOf(m, k)[b].canonical;
  }

  lemma OneCanonicalKept(s: Scan, t: Tables, cs: seq<MainCommit>)
    requires OneCanonical(t.matches)
    ensures OneCanonical(ScanAll(s, t, cs).matches)
  {
    var m := ScanAll(s, t, cs).matches;
    forall a, b | a in m && b in m && m[a].canonical && m[b].canonical && a.itemId == b.itemId
      ensures a == b
    {
      FirstMatchWins(s, t, cs, a.itemId);
      RowsKeepOne(t, OwnAll(s.db, cs), a.itemId, m, a, b);
    }
  }

  // ---- scanning again ----

  ghost predicate AllCanonical(m: MatchTable, found: map<int, Found>) {
    forall k | k in found :: IsCanonical(m, k)
  }

  lemma {:induction false} AddNothing(t: Tables, tags: map<ObjectId, TagInfo>, ms: seq<Matched>, n: nat)
    requires n <= |ms| && forall c | c in ms :: AllCanonical(t.matches, c.found)
    ensures AddAll(t, tags, ms, n) == t
  {
    if n > 0 {
      AddNothing(t, tags, ms, n - 1);
      assert Fresh(t.matches, ms[n - 1].found) == map[];
    }
  }

  lemma ScannedIsCanonical(s: Scan, t: Tables, cs: seq<MainCommit>, c: MainCommit)
    requires c in cs
    ensures AllCanonical(ScanAll(s, t, cs).matches, OwnMatches(s.db, c))
  {
    var i :| 0 <= i < |cs| && cs[i] == c;
    var ms, m := OwnAll(s.db, cs), ScanAll(s, t, cs).matches;
    forall k | k in OwnMatches(s.db, c)
      ensures IsCanonical(m, k)
    {
      FirstMatchWins(s, t, cs, k);
      assert k in ms[i].found;
      CanonicalAfter(t, ms, |ms|, k, m);
    }
  }

  /** Commits that have been scanned change nothing when they are scanned again. */
  lemma RescanChangesNothing(s: Scan, t: Tables, cs: seq<MainCommit>, again: seq<MainCommit>)
    requires forall c | c in again :: c in cs
    ensures ScanAll(s, ScanAll(s, t, cs), again) == ScanAll(s, t, cs)
  {
    var done, ms := ScanAll(s, t, cs), OwnAll(s.db, again);
    forall c | c in ms
      ensures AllCanonical(done.matches, c.found)
    {
      var i :| 0 <= i < |ms| && ms[i] == c;
      assert again[i] in again;
      ScannedIsCanonical(s, t, cs, again[i]);
    }
    AddNothing(done, s.tags, ms, |ms|);
  }

  // ---- when the window size shows in the tables ----

  /** The commit before a commit that names the alias, in one window or each on its own. */
  function WithAlias(c: MainCommit, alias: MailId): seq<MainCommit> {
    [c, MainCommit(ObjectId("other"), "", 0, "", [alias], None)]
  }

  function NoTables(): Tables {
    Tables(map[], map[])
  }

  lemma FirstFoundHasRow(tags: map<ObjectId, TagInfo>, ms: seq<Matched>, k: int)
    requires ms != [] && k in ms[0].found
    ensures RowsOf(AddAll(NoTables(), tags, ms, |ms|).matches, k) != map[]
  {
    FirstWins(NoTables(), tags, ms, |ms|, k);
    var f := FirstMatch(ms, |ms|, k);
    assert MatchKey(k, ms[f].commit.oid) in FirstMatched(NoTables(), ms, |ms|, k);
  }

  lemma NeverFoundHasNoRow(tags: map<ObjectId, TagInfo>, ms: seq<Matched>, k: int)
    requires forall i | 0 <= i < |ms| :: k !in ms[i].found
    ensures RowsOf(AddAll(NoTables(), tags, ms, |ms|).matches, k) == map[]
  {
    FirstWins(NoTables(), tags, ms, |ms|, k);
  }

  lemma AliasAsked(c: MainCommit, alias: MailId)
    ensures alias in LinksOf(WithAlias(c, alias))
  {
    assert WithAlias(c, alias)[1].links[0] == alias;
  }

  lemma AliasIsNoLink(db: Archive, k: int, alias: MailId, c: MainCommit)
    requires k in db.items && db.items[k].primary != alias && c.links == [alias] && c.patchId.None?
    ensures k !in OwnMatches(db, c)
  {
    if k in OwnMatches(db, c) {
      MatchedIsLinked(db, LinksOf([c]), c, k);
    }
  }

  lemma TogetherFound(s: Scan, k: int, alias: MailId, c: MainCommit)
    requires k in s.db.items && Mapping(alias, s.db.items[k].messagePk) in s.db.idMap
    requires !HasPrimaryId(s.db, k) && c == LinkTo(s.db.items[k])
    ensures RowsOf(ScanWindow(s, NoTables(), WithAlias(c, alias)).matches, k) != map[]
  {
    var cs := WithAlias(c, alias);
    AliasAsked(c, alias);
    AliasMakesDifference(s.db, k, alias, LinksOf(cs));
    FirstFoundHasRow(s.tags, MatchAll(s.db, LinksOf(cs), cs), k);
  }

  lemma OwnMissed(db: Archive, cs: seq<MainCommit>, k: int)
    requires |cs| == 2 && k !in OwnMatches(db, cs[0]) && k !in OwnMatches(db, cs[1])
    ensures forall i | 0 <= i < |OwnAll(db, cs)| :: k !in OwnAll(db, cs)[i].found
  {
  }

  lemma AloneMissed(s: Scan, k: int, alias: MailId, c: MainCommit)
    requires k in s.db.items && Mapping(alias, s.db.items[k].messagePk) in s.db.idMap
    requires !HasPrimaryId(s.db, k) && c == LinkTo(s.db.items[k])
    ensures RowsOf(ScanAll(s, NoTables(), WithAlias(c, alias)).matches, k) == map[]
  {
    var cs := WithAlias(c, alias);
    AliasMakesDifference(s.db, k, alias, {alias});
    AliasIsNoLink(s.db, k, alias, cs[1]);
    OwnMissed(s.db, cs, k);
    NeverFoundHasNoRow(s.tags, OwnAll(s.db, cs), k);
  }

  /** One window of two commits records a match that two windows of one miss. */
  lemma WindowShows(s: Scan, k: int, alias: MailId, c: MainCommit)
    requires k in s.db.items && Mapping(alias, s.db.items[k].messagePk) in s.db.idMap
    requires !HasPrimaryId(s.db, k) && c == LinkTo(s.db.items[k])
    ensures ScanChunks(s, NoTables(), WithAlias(c, alias), 2) != ScanAll(s, NoTables(), WithAlias(c, alias))
  {
    TogetherFound(s, k, alias, c);
    AloneMissed(s, k, alias, c);
  }

  /** Every window size leaves the tables of a scan commit by commit, whatever the tables and
      the commits, exactly if every message known by some id is known by its primary id. */
  lemma WindowSizeIrrelevantExactly(s: Scan)
    ensures (forall t, cs, size: nat | size > 0 :: ScanChunks(s, t, cs, size) == ScanAll(s, t, cs))
            <==> PrimaryMapped(s.db)
  {
    if PrimaryMapped(s.db) {
      forall t, cs, size: nat | size > 0
        ensures ScanChunks(s, t, cs, size) == ScanAll(s, t, cs)
      {
        WindowSizeIrrelevant(s, t, cs, size);
      }
    } else {
      var k :| k in s.db.items && HasId(s.db, k) && !HasPrimaryId(s.db, k);
      var alias :| Mapping(alias, s.db.items[k].messagePk) in s.db.idMap;
      WindowShows(s, k, alias, LinkTo(s.db.items[k]));
    }
  }
}
