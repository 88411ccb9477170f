/** The archive tables and what writing one commit row does to them, `ingest_message`:
    the specification that the batch writer has to meet. */
module IngestTables {
  import opened Wrappers

  datatype Oid = Oid(text: string)
  newtype Byte = x: int | 0 <= x < 256

  datatype Hash = Hash(bytes: seq<Byte>)
  datatype MessageId = MessageId(text: string)

  datatype Body = Body(
    bodyText: Option<string>, diffText: Option<string>, searchText: string,
    hasDiff: bool, hasAttachments: bool)

  /** The columns of a message that both writers copy without looking at them; a timestamp
      stands here as its RFC 3339 text. */
  datatype Header = Header(
    subjectRaw: string, subjectNorm: string, fromName: Option<string>, fromEmail: string,
    dateUtc: Option<string>, toRaw: Option<string>, ccRaw: Option<string>,
    inReplyToIds: seq<string>, referencesIds: seq<string>, mimeType: Option<string>)

  datatype Parsed = Parsed(
    hash: Hash, header: Header, messageIds: seq<MessageId>, primary: MessageId, body: Body)

  datatype CommitRow = CommitRow(oid: Oid, message: Parsed)

  datatype Repo = Repo(id: int, listId: int)

  // ---- tables ----

  datatype MessageRow = MessageRow(
    id: int, header: Header, messageIds: seq<MessageId>, primary: MessageId, bodyId: int)

  /** `messages` by content hash, which is unique, `message_bodies` by id, and the next
      values of their two sequences. */
  datatype Archive = Archive(
    messages: map<Hash, MessageRow>, bodies: map<int, Body>, nextMessageId: int, nextBodyId: int)

  /** The key of `message_id_map`; the table maps it to `is_primary`. */
  datatype IdKey = IdKey(messageId: MessageId, messagePk: int)

  type IdMap = map<IdKey, bool>

  /** The unique key of `list_message_instances`. */
  datatype InstanceKey = InstanceKey(listId: int, oid: Oid)

  datatype Instance = Instance(messagePk: int, repoId: int)

  type Instances = map<InstanceKey, Instance>

  datatype Tables = Tables(archive: Archive, idMap: IdMap, instances: Instances)

  // ---- one message ----

  function NewMessage(p: Parsed, id: int, bodyId: int): MessageRow {
    MessageRow(id, p.header, p.messageIds, p.primary, bodyId)
  }

  /** Inserts a body and a message unless the content hash is known. */
  function EnsureMessage(a: Archive, p: Parsed): (r: Archive)
    ensures p.hash in r.messages
  {
    if p.hash in a.messages then a
    else Archive(
      a.messages[p.hash := NewMessage(p, a.nextMessageId, a.nextBodyId)],
      a.bodies[a.nextBodyId := p.body],
      a.nextMessageId + 1, a.nextBodyId + 1)
  }

  datatype IdRow = IdRow(key: IdKey, isPrimary: bool)

  /** The id rows of one message: every id it lists, flagged if it is the primary id of the
      stored message. */
  function IdRowsOf(ids: seq<MessageId>, m: MessageRow): (r: seq<IdRow>)
    ensures |r| == |ids|
  {
    seq(|ids|, i requires 0 <= i < |ids| => IdRow(IdKey(ids[i], m.id), ids[i] == m.primary))
  }

  /** `INSERT ... ON CONFLICT DO UPDATE SET is_primary = is_primary OR EXCLUDED.is_primary` */
  function Upsert(m: IdMap, row: IdRow): IdMap {
    m[row.key := (row.key in m && m[row.key]) || row.isPrimary]
  }

  function UpsertAll(m: IdMap, rows: seq<IdRow>, n: nat): IdMap
    requires n <= |rows|
  {
    if n == 0 then m else Upsert(UpsertAll(m, rows, n - 1), rows[n - 1])
  }

  function UpsertMessageIds(m: IdMap, p: Parsed, stored: MessageRow): IdMap {
    UpsertAll(m, IdRowsOf(p.messageIds, stored), |p.messageIds|)
  }

  function KeyOf(repo: Repo, row: CommitRow): InstanceKey {
    InstanceKey(repo.listId, row.oid)
  }

  function IngestNew(t: Tables, repo: Repo, row: CommitRow): Tables {
    var archive := EnsureMessage(t.archive, row.message);
    var stored := archive.messages[row.message.hash];
    Tables(archive,
           UpsertMessageIds(t.idMap, row.message, stored),
           t.instances[KeyOf(repo, row) := Instance(stored.id, repo.id)])
  }

  /** `ingest_message` */
  function IngestOne(t: Tables, repo: Repo, row: CommitRow): Tables {
    if KeyOf(repo, row) in t.instances then t else IngestNew(t, repo, row)
  }

  datatype WriteOutcome = WriteOutcome(messageInserted: bool, instanceInserted: bool, messagePk: int)

  function OutcomeOfOne(t: Tables, repo: Repo, row: CommitRow): WriteOutcome {
    if KeyOf(repo, row) in t.instances then
      WriteOutcome(false, false, t.instances[KeyOf(repo, row)].messagePk)
    else
      WriteOutcome(row.message.hash !in t.archive.messages, true,
                   EnsureMessage(t.archive, row.message).messages[row.message.hash].id)
  }

  // ---- all rows, one after the other ----

  function IngestRows(t: Tables, repo: Repo, rows: seq<CommitRow>, n: nat): Tables
    requires n <= |rows|
  {
    if n == 0 then t else IngestOne(IngestRows(t, repo, rows, n - 1), repo, rows[n - 1])
  }

  function OutcomeAt(t: Tables, repo: Repo, rows: seq<CommitRow>, i: nat): WriteOutcome
    requires i < |rows|
  {
    OutcomeOfOne(IngestRows(t, repo, rows, i), repo, rows[i])
  }

  function InsertedCount(t: Tables, repo: Repo, rows: seq<CommitRow>, n: nat): nat
    requires n <= |rows|
  {
    if n == 0 then 0
    else InsertedCount(t, repo, rows, n - 1) + (if OutcomeAt(t, repo, rows, n - 1).instanceInserted then 1 else 0)
  }

  function ReturnedPks(t: Tables, repo: Repo, rows: seq<CommitRow>): set<int> {
    set i: nat | i < |rows| :: OutcomeAt(t, repo, rows, i).messagePk
  }

  // ---- what the tables' constraints rely on ----

  /** The sequences are ahead of the ids in use. */
  ghost predicate Sequenced(a: Archive) {
    && (forall h | h in a.messages :: a.messages[h].id < a.nextMessageId)
    && (forall id | id in a.bodies :: id < a.nextBodyId)
  }

  ghost predicate DistinctIds(a: Archive) {
    forall g, h | g in a.messages && h in a.messages && g != h :: a.messages[g].id != a.messages[h].id
  }

  ghost predicate IsMessage(a: Archive, pk: int) {
    exists h :: h in a.messages && a.messages[h].id == pk
  }

  /** Every message has a body of its own. */
  ghost predicate OwnBodies(a: Archive) {
    && (forall h | h in a.messages :: a.messages[h].bodyId in a.bodies)
    && (forall g, h | g in a.messages && h in a.messages && g != h :: a.messages[g].bodyId != a.messages[h].bodyId)
  }

  ghost predicate FlagIsCanonical(a: Archive, m: IdMap, k: IdKey)
    requires k in m
  {
    forall h | h in a.messages && a.messages[h].id == k.messagePk :: m[k] <==> k.messageId == a.messages[h].primary
  }

  /** Ids are unique, foreign keys point at bodies and messages, and an id is flagged exactly
      if it is the stored primary id of its message. */
  ghost predicate Consistent(t: Tables) {
    && Sequenced(t.archive) && DistinctIds(t.archive) && OwnBodies(t.archive)
    && (forall k | k in t.idMap :: IsMessage(t.archive, k.messagePk) && FlagIsCanonical(t.archive, t.idMap, k))
    && (forall k | k in t.instances :: IsMessage(t.archive, t.instances[k].messagePk))
  }

  /** So the partial unique index of one primary id per message is never violated. */
  lemma OnePrimaryPerMessage(t: Tables, k: IdKey, l: IdKey)
    requires Consistent(t) && k in t.idMap && l in t.idMap
    requires t.idMap[k] && t.idMap[l] && k.messagePk == l.messagePk
    ensures k == l
  {
    assert FlagIsCanonical(t.archive, t.idMap, k) && FlagIsCanonical(t.archive, t.idMap, l);
    assert IsMessage(t.archive, k.messagePk);
  }

  lemma EnsureKeepsArchive(a: Archive, p: Parsed)
    requires Sequenced(a) && DistinctIds(a) && OwnBodies(a)
    ensures var r := EnsureMessage(a, p);
            && Sequenced(r) && DistinctIds(r) && OwnBodies(r)
            && (forall pk | IsMessage(a, pk) :: IsMessage(r, pk))
            && IsMessage(r, r.messages[p.hash].id)
  {
    var r := EnsureMessage(a, p);
    assert r.messages[p.hash].id == r.messages[p.hash].id && p.hash in r.messages;
    forall pk | IsMessage(a, pk)
      ensures IsMessage(r, pk)
    {
      var h :| h in a.messages && a.messages[h].id == pk;
      assert h in r.messages && r.messages[h].id == pk;
    }
  }

  lemma EnsureKeepsFlags(a: Archive, p: Parsed, m: IdMap, k: IdKey)
    requires Sequenced(a) && k in m && IsMessage(a, k.messagePk) && FlagIsCanonical(a, m, k)
    ensures FlagIsCanonical(EnsureMessage(a, p), m, k)
  {
  }

  lemma {:induction false} UpsertAt(m: IdMap, rows: seq<IdRow>, n: nat, k: IdKey)
    requires n <= |rows|
    ensures k in UpsertAll(m, rows, n) <==> k in m || exists i: nat :: i < n && rows[i].key == k
    ensures k in UpsertAll(m, rows, n) ==>
              (UpsertAll(m, rows, n)[k] <==>
                (k in m && m[k]) || exists i: nat :: i < n && rows[i].key == k && rows[i].isPrimary)
  {
    if n > 0 {
      UpsertAt(m, rows, n - 1, k);
    }
  }

  lemma UpsertKeepsFlags(a: Archive, m: IdMap, p: Parsed, k: IdKey)
    requires Sequenced(a) && DistinctIds(a) && p.hash in a.messages
    requires k in m ==> IsMessage(a, k.messagePk) && FlagIsCanonical(a, m, k)
    requires k in UpsertMessageIds(m, p, a.messages[p.hash])
    ensures IsMessage(a, k.messagePk)
    ensures FlagIsCanonical(a, UpsertMessageIds(m, p, a.messages[p.hash]), k)
  {
    UpsertAt(m, IdRowsOf(p.messageIds, a.messages[p.hash]), |p.messageIds|, k);
  }

  /** Ingesting keeps the tables consistent. */
  lemma IngestKeepsConsistent(t: Tables, repo: Repo, row: CommitRow)
    requires Consistent(t)
    ensures Consistent(IngestOne(t, repo, row))
  {
    var r := IngestOne(t, repo, row);
    if KeyOf(repo, row) !in t.instances {
      EnsureKeepsArchive(t.archive, row.message);
      forall k | k in r.idMap
        ensures IsMessage(r.archive, k.messagePk) && FlagIsCanonical(r.archive, r.idMap, k)
      {
        if k in t.idMap {
          EnsureKeepsFlags(t.archive, row.message, t.idMap, k);
        }
        UpsertKeepsFlags(r.archive, t.idMap, row.message, k);
      }
    }
  }

  lemma {:induction false} IngestRowsKeepsConsistent(t: Tables, repo: Repo, rows: seq<CommitRow>, n: nat)
    requires Consistent(t) && n <= |rows|
    ensures Consistent(IngestRows(t, repo, rows, n))
  {
    if n > 0 {
      IngestRowsKeepsConsistent(t, repo, rows, n - 1);
      IngestKeepsConsistent(IngestRows(t, repo, rows, n - 1), repo, rows[n - 1]);
    }
  }
}
