/** Matching mainline commits to archived patches, and the tables the matches are kept in. */
module MainlineMatch {
  import opened ReleaseTags
  import opened Wrappers

  datatype MailId = MailId(text: string)

  datatype PatchId = PatchId(hex: string)

  /** A row of `patch_items` of type `patch`, with the primary id of its message. */
  datatype Item = Item(
    seriesId: int, messagePk: int, primary: MailId, patchId: Option<PatchId>,
    commitSubject: Option<string>, subject: string)

  datatype Mapping = Mapping(id: MailId, messagePk: int)

  /** The archive as the scan reads it: patches by id, and `message_id_map`. */
  datatype Archive = Archive(items: map<int, Item>, idMap: set<Mapping>)

  /** A mainline commit with the ids its `Link:` trailers name. */
  datatype MainCommit = MainCommit(
    oid: ObjectId, subject: string, committedAt: int, subjectNorm: string, links: seq<MailId>,
    patchId: Option<PatchId>)

  datatype Method = ByLink | ByPatchId

  datatype Found = Found(how: Method, matchedId: Option<MailId>)

  function SubjectOf(i: Item): string {
    i.commitSubject.GetOr(i.subject)
  }

  // ---- what a commit matches, when its window asked for the ids `asked` ----

  /** Some id that the window asks for belongs to the message of the patch. */
  predicate Answers(db: Archive, asked: set<MailId>, k: int)
    requires k in db.items
  {
    exists id | id in asked :: Mapping(id, db.items[k].messagePk) in db.idMap
  }

  function Linked(db: Archive, asked: set<MailId>, c: MainCommit): set<int> {
    set k | k in db.items && db.items[k].primary in c.links && Answers(db, asked, k)
  }

  function Subjects(db: Archive, ks: set<int>): set<string>
    requires ks <= db.items.Keys
  {
    set k | k in ks :: SubjectOf(db.items[k])
  }

  function OfSubject(db: Archive, ks: set<int>, subject: string): set<int>
    requires ks <= db.items.Keys
  {
    set k | k in ks && SubjectOf(db.items[k]) == subject
  }

  /** Linked patches; only those of the commit's subject if the link is ambiguous. */
  function LinkMatches(db: Archive, asked: set<MailId>, c: MainCommit): (r: set<int>)
    ensures r <= db.items.Keys
  {
    var ks := Linked(db, asked, c);
    if |Subjects(db, ks)| <= 1 then ks else OfSubject(db, ks, c.subjectNorm)
  }

  function SamePatch(db: Archive, c: MainCommit): set<int> {
    set k | k in db.items && c.patchId.Some? && db.items[k].patchId == c.patchId
  }

  function PatchMatches(db: Archive, c: MainCommit): (r: set<int>)
    ensures r <= db.items.Keys
  {
    var ks := SamePatch(db, c);
    if |ks| <= 1 then ks else OfSubject(db, ks, c.subjectNorm)
  }

  /** A link takes precedence over an equal patch id. */
  function MatchesIn(db: Archive, asked: set<MailId>, c: MainCommit): map<int, Found> {
    var links := LinkMatches(db, asked, c);
    map k | k in links + PatchMatches(db, c) ::
      if k in links then Found(ByLink, Some(db.items[k].primary)) else Found(ByPatchId, None)
  }

  // ---- the tables ----

  datatype MatchKey = MatchKey(itemId: int, oid: ObjectId)

  datatype Match = Match(found: Found, canonical: bool)

  type MatchTable = map<MatchKey, Match>

  datatype CommitMeta = CommitMeta(subject: string, committedAt: int, tag: Option<TagInfo>)

  type CommitTable = map<ObjectId, CommitMeta>

  datatype Tables = Tables(matches: MatchTable, commits: CommitTable)

  predicate IsCanonical(m: MatchTable, k: int) {
    exists key | key in m :: key.itemId == k && m[key].canonical
  }

  /** `UPDATE ... SET is_canonical = false` */
  function Demote(m: MatchTable, ks: set<int>): MatchTable {
    map key | key in m :: if key.itemId in ks then m[key].(canonical := false) else m[key]
  }

  /** `replace_canonical_matches`; `rows` are the rows of its argument by their unique key. */
  function ReplaceCanonical(m: MatchTable, rows: MatchTable): MatchTable {
    Demote(m, set key | key in rows :: key.itemId) + rows
  }

  function MetaOf(c: MainCommit, tags: map<ObjectId, TagInfo>): CommitMeta {
    CommitMeta(c.subject, c.committedAt, if c.oid in tags then Some(tags[c.oid]) else None)
  }

  /** The matches of a commit whose patches have no canonical match. */
  function Fresh(m: MatchTable, found: map<int, Found>): map<int, Found> {
    map k | k in found && !IsCanonical(m, k) :: found[k]
  }

  function CanonicalRows(oid: ObjectId, news: map<int, Found>): MatchTable {
    map key | key in (set k | k in news :: MatchKey(k, oid)) :: Match(news[key.itemId], true)
  }

  /** A commit with what it matches. */
  datatype Matched = Matched(commit: MainCommit, found: map<int, Found>)

  /** What one commit with its matches adds. */
  function AddMatches(t: Tables, tags: map<ObjectId, TagInfo>, c: Matched): Tables {
    var news := Fresh(t.matches, c.found);
    if news == map[] then t
    else Tables(ReplaceCanonical(t.matches, CanonicalRows(c.commit.oid, news)),
                t.commits[c.commit.oid := MetaOf(c.commit, tags)])
  }

  function AddAll(t: Tables, tags: map<ObjectId, TagInfo>, ms: seq<Matched>, n: nat): Tables
    requires n <= |ms|
  {
    if n == 0 then t else AddMatches(AddAll(t, tags, ms, n - 1), tags, ms[n - 1])
  }

  // ---- scanning ----

  datatype Scan = Scan(db: Archive, tags: map<ObjectId, TagInfo>)

  function LinksOf(cs: seq<MainCommit>): set<MailId> {
    set i, j | 0 <= i < |cs| && 0 <= j < |cs[i].links| :: cs[i].links[j]
  }

  function MatchAll(db: Archive, asked: set<MailId>, cs: seq<MainCommit>): (ms: seq<Matched>)
    ensures |ms| == |cs|
  {
    seq(|cs|, i requires 0 <= i < |cs| => Matched(cs[i], MatchesIn(db, asked, cs[i])))
  }

  /** The commits of a window one after the other, with the answers for the whole window. */
  function ScanWindow(s: Scan, t: Tables, cs: seq<MainCommit>): Tables {
    AddAll(t, s.tags, MatchAll(s.db, LinksOf(cs), cs), |cs|)
  }

  /** The commits in windows of `size`. */
  function ScanChunks(s: Scan, t: Tables, cs: seq<MainCommit>, size: nat): Tables
    requires size > 0
    decreases |cs|
  {
    if cs == [] then t
    else if |cs| <= size then ScanWindow(s, t, cs)
    else ScanChunks(s, ScanWindow(s, t, cs[..size]), cs[size..], size)
  }

  // ---- when the window does not matter ----

  function OwnMatches(db: Archive, c: MainCommit): map<int, Found> {
    MatchesIn(db, LinksOf([c]), c)
  }

  /** The message of every patch that is known by some id is known by its primary one. */
  ghost predicate PrimaryMapped(db: Archive) {
    forall k | k in db.items && HasId(db, k) :: HasPrimaryId(db, k)
  }

  ghost predicate HasId(db: Archive, k: int)
    requires k in db.items
  {
    exists id :: Mapping(id, db.items[k].messagePk) in db.idMap
  }

  predicate HasPrimaryId(db: Archive, k: int)
    requires k in db.items
  {
    Mapping(db.items[k].primary, db.items[k].messagePk) in db.idMap
  }

  lemma LinksOfOne(c: MainCommit, id: MailId)
    ensures id in LinksOf([c]) <==> id in c.links
  {
    if id in c.links {
      var j :| 0 <= j < |c.links| && c.links[j] == id;
      assert [c][0].links[j] == id;
    }
  }

  lemma LinkedAlone(db: Archive, asked: set<MailId>, c: MainCommit)
    requires PrimaryMapped(db) && LinksOf([c]) <= asked
    ensures Linked(db, asked, c) == Linked(db, LinksOf([c]), c)
  {
    forall k | k in db.items && db.items[k].primary in c.links
      ensures Answers(db, asked, k) <==> Answers(db, LinksOf([c]), k)
    {
      LinksOfOne(c, db.items[k].primary);
    }
  }

  lemma WindowOfOneSuffices(db: Archive, asked: set<MailId>, c: MainCommit)
    requires PrimaryMapped(db) && LinksOf([c]) <= asked
    ensures MatchesIn(db, asked, c) == OwnMatches(db, c)
  {
    LinkedAlone(db, asked, c);
  }

  lemma LinkedIsMatched(db: Archive, asked: set<MailId>, c: MainCommit, k: int)
    requires k in Linked(db, asked, c) && SubjectOf(db.items[k]) == c.subjectNorm
    ensures k in MatchesIn(db, asked, c)
  {
  }

  lemma MatchedIsLinked(db: Archive, asked: set<MailId>, c: MainCommit, k: int)
    requires k in MatchesIn(db, asked, c) && c.patchId.None?
    ensures k in Linked(db, asked, c)
  {
    assert SamePatch(db, c) == {};
  }

  ghost predicate WindowIrrelevant(db: Archive) {
    forall asked, c {:trigger MatchesIn(db, asked, c)} | LinksOf([c]) <= asked ::
      MatchesIn(db, asked, c) == OwnMatches(db, c)
  }

  lemma NotFoundAlone(db: Archive, k: int, c: MainCommit)
    requires k in db.items && !HasPrimaryId(db, k)
    requires c.links == [db.items[k].primary] && c.patchId.None?
    ensures k !in OwnMatches(db, c)
  {
    forall id | id in LinksOf([c])
      ensures Mapping(id, db.items[k].messagePk) !in db.idMap
    {
      LinksOfOne(c, id);
    }
    if k in OwnMatches(db, c) {
      MatchedIsLinked(db, LinksOf([c]), c, k);
    }
  }

  lemma FoundWithAlias(db: Archive, k: int, alias: MailId, asked: set<MailId>, c: MainCommit)
    requires k in db.items && Mapping(alias, db.items[k].messagePk) in db.idMap && alias in asked
    requires c.links == [db.items[k].primary] && c.subjectNorm == SubjectOf(db.items[k])
    ensures k in MatchesIn(db, asked, c)
  {
    assert Answers(db, asked, k);
    LinkedIsMatched(db, asked, c, k);
  }

  function LinkTo(i: Item): MainCommit {
    MainCommit(ObjectId(""), "", 0, SubjectOf(i), [i.primary], None)
  }

  /** A commit that links a patch known by an alias only: alone it misses the patch, and in
      every window that asks for the alias it finds it. */
  lemma AliasMakesDifference(db: Archive, k: int, alias: MailId, asked: set<MailId>)
    requires k in db.items && Mapping(alias, db.items[k].messagePk) in db.idMap && alias in asked
    requires !HasPrimaryId(db, k)
    ensures k !in OwnMatches(db, LinkTo(db.items[k]))
    ensures k in MatchesIn(db, asked, LinkTo(db.items[k]))
  {
    NotFoundAlone(db, k, LinkTo(db.items[k]));
    FoundWithAlias(db, k, alias, asked, LinkTo(db.items[k]));
  }

  /** Windows make no difference exactly when primary ids are mapped. */
  lemma WindowIrrelevantExactly(db: Archive)
    ensures WindowIrrelevant(db) <==> PrimaryMapped(db)
  {
    if PrimaryMapped(db) {
      forall asked, c | LinksOf([c]) <= asked
        ensures MatchesIn(db, asked, c) == OwnMatches(db, c)
      {
        WindowOfOneSuffices(db, asked, c);
      }
    } else {
      var k :| k in db.items && HasId(db, k) && !HasPrimaryId(db, k);
      var alias :| Mapping(alias, db.items[k].messagePk) in db.idMap;
      var c := LinkTo(db.items[k]);
      AliasMakesDifference(db, k, alias, LinksOf([c]) + {alias});
      assert MatchesIn(db, LinksOf([c]) + {alias}, c) != OwnMatches(db, c);
    }
  }
}
