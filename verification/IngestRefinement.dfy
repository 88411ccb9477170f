/** Why writing a batch in passes equals ingesting its rows one after the other: what one
    row adds to each table does not depend on how far the other tables have come. */
module IngestRefinement {
  import opened IngestTables

  predicate HasOid(rows: seq<CommitRow>, n: nat, oid: Oid)
    requires n <= |rows|
  {
    exists j: nat :: j < n && rows[j].oid == oid
  }

  /** The first row of every commit that the list has not ingested yet. */
  function Pending(known: Instances, repo: Repo, rows: seq<CommitRow>, n: nat): seq<CommitRow>
    requires n <= |rows|
  {
    if n == 0 then []
    else
      var rest := Pending(known, repo, rows, n - 1);
      if KeyOf(repo, rows[n - 1]) in known || HasOid(rows, n - 1, rows[n - 1].oid) then rest
      else rest + [rows[n - 1]]
  }

  function IngestAllNew(t: Tables, repo: Repo, ps: seq<CommitRow>, n: nat): Tables
    requires n <= |ps|
  {
    if n == 0 then t else IngestNew(IngestAllNew(t, repo, ps, n - 1), repo, ps[n - 1])
  }

  // ---- repeated and known commits drop out ----

  lemma {:induction false} InstanceKeysAfter(t: Tables, repo: Repo, rows: seq<CommitRow>, n: nat, oid: Oid)
    requires n <= |rows|
    ensures InstanceKey(repo.listId, oid) in IngestRows(t, repo, rows, n).instances
            <==> InstanceKey(repo.listId, oid) in t.instances || HasOid(rows, n, oid)
  {
    if n > 0 {
      InstanceKeysAfter(t, repo, rows, n - 1, oid);
      var before := IngestRows(t, repo, rows, n - 1);
      assert IngestRows(t, repo, rows, n) == IngestOne(before, repo, rows[n - 1]);
      assert rows[n - 1].oid == oid ==> HasOid(rows, n, oid);
      assert HasOid(rows, n - 1, oid) ==> HasOid(rows, n, oid);
    }
  }

  lemma {:induction false} IngestAllNewPrefix(t: Tables, repo: Repo, ps: seq<CommitRow>, x: CommitRow, n: nat)
    requires n <= |ps|
    ensures IngestAllNew(t, repo, ps + [x], n) == IngestAllNew(t, repo, ps, n)
  {
    if n > 0 {
      IngestAllNewPrefix(t, repo, ps, x, n - 1);
    }
  }

  lemma IngestAllNewSnoc(t: Tables, repo: Repo, ps: seq<CommitRow>, x: CommitRow)
    ensures IngestAllNew(t, repo, ps + [x], |ps| + 1) == IngestNew(IngestAllNew(t, repo, ps, |ps|), repo, x)
  {
    IngestAllNewPrefix(t, repo, ps, x, |ps|);
  }

  lemma TakenRow(t: Tables, repo: Repo, before: Tables, ps: seq<CommitRow>, row: CommitRow)
    requires before == IngestAllNew(t, repo, ps, |ps|) && KeyOf(repo, row) !in before.instances
    ensures IngestOne(before, repo, row) == IngestAllNew(t, repo, ps + [row], |ps| + 1)
  {
    IngestAllNewSnoc(t, repo, ps, row);
  }

  lemma {:induction false} OnlyPendingMatter(t: Tables, repo: Repo, rows: seq<CommitRow>, n: nat)
    requires n <= |rows|
    ensures var ps := Pending(t.instances, repo, rows, n);
            IngestRows(t, repo, rows, n) == IngestAllNew(t, repo, ps, |ps|)
  {
    if n > 0 {
      var before, row := Pending(t.instances, repo, rows, n - 1), rows[n - 1];
      OnlyPendingMatter(t, repo, rows, n - 1);
      InstanceKeysAfter(t, repo, rows, n - 1, row.oid);
      if KeyOf(repo, row) in t.instances || HasOid(rows, n - 1, row.oid) {
        assert Pending(t.instances, repo, rows, n) == before;
      } else {
        assert Pending(t.instances, repo, rows, n) == before + [row];
        TakenRow(t, repo, IngestRows(t, repo, rows, n - 1), before, row);
      }
    }
  }

  // ---- the tables come apart ----

  function EnsureAll(a: Archive, ps: seq<CommitRow>, n: nat): Archive
    requires n <= |ps|
  {
    if n == 0 then a else EnsureMessage(EnsureAll(a, ps, n - 1), ps[n - 1].message)
  }

  /** The message that a pending row ends up with. */
  function StoredFor(a: Archive, ps: seq<CommitRow>, p: CommitRow): MessageRow
    requires p in ps
  {
    AllStored(a, ps, p);
    EnsureAll(a, ps, |ps|).messages[p.message.hash]
  }

  lemma {:induction false} StoredStays(a: Archive, ps: seq<CommitRow>, n: nat, m: nat, h: Hash)
    requires n <= m <= |ps| && h in EnsureAll(a, ps, n).messages
    ensures h in EnsureAll(a, ps, m).messages
    ensures EnsureAll(a, ps, m).messages[h] == EnsureAll(a, ps, n).messages[h]
    decreases m
  {
    if n < m {
      StoredStays(a, ps, n, m - 1, h);
    }
  }

  lemma AllStored(a: Archive, ps: seq<CommitRow>, p: CommitRow)
    requires p in ps
    ensures p.message.hash in EnsureAll(a, ps, |ps|).messages
  {
    var i: nat :| i < |ps| && ps[i] == p;
    StoredStays(a, ps, i + 1, |ps|, p.message.hash);
  }

  /** The id rows of the first `n` pending rows, as the batch lists them. */
  function FlatIdRows(a: Archive, ps: seq<CommitRow>, n: nat): seq<IdRow>
    requires n <= |ps|
  {
    if n == 0 then []
    else FlatIdRows(a, ps, n - 1) + IdRowsOf(ps[n - 1].message.messageIds, StoredFor(a, ps, ps[n - 1]))
  }

  function AddInstances(m: Instances, a: Archive, repo: Repo, ps: seq<CommitRow>, n: nat): Instances
    requires n <= |ps|
  {
    if n == 0 then m
    else AddInstances(m, a, repo, ps, n - 1)
         [KeyOf(repo, ps[n - 1]) := Instance(StoredFor(a, ps, ps[n - 1]).id, repo.id)]
  }

  lemma {:induction false} UpsertConcat(m: IdMap, a: seq<IdRow>, b: seq<IdRow>, n: nat)
    requires n <= |b|
    ensures UpsertAll(m, a + b, |a| + n) == UpsertAll(UpsertAll(m, a, |a|), b, n)
  {
    if n == 0 {
      UpsertPrefix(m, a, b, |a|);
    } else {
      UpsertConcat(m, a, b, n - 1);
      assert (a + b)[|a| + n - 1] == b[n - 1];
    }
  }

  lemma {:induction false} UpsertPrefix(m: IdMap, a: seq<IdRow>, b: seq<IdRow>, n: nat)
    requires n <= |a|
    ensures UpsertAll(m, a + b, n) == UpsertAll(m, a, n)
  {
    if n > 0 {
      UpsertPrefix(m, a, b, n - 1);
    }
  }

  /** The tables after the first `n` pending rows, each on its own. */
  function SplitTables(t: Tables, repo: Repo, ps: seq<CommitRow>, n: nat): Tables
    requires n <= |ps|
  {
    var ids := FlatIdRows(t.archive, ps, n);
    Tables(EnsureAll(t.archive, ps, n), UpsertAll(t.idMap, ids, |ids|),
           AddInstances(t.instances, t.archive, repo, ps, n))
  }

  lemma StoredNow(a: Archive, ps: seq<CommitRow>, n: nat)
    requires n < |ps|
    ensures EnsureAll(a, ps, n + 1).messages[ps[n].message.hash] == StoredFor(a, ps, ps[n])
  {
    StoredStays(a, ps, n + 1, |ps|, ps[n].message.hash);
  }

  lemma IdRowsSnoc(m: IdMap, a: seq<IdRow>, p: Parsed, stored: MessageRow)
    ensures var b := a + IdRowsOf(p.messageIds, stored);
            UpsertAll(m, b, |b|) == UpsertMessageIds(UpsertAll(m, a, |a|), p, stored)
  {
    UpsertConcat(m, a, IdRowsOf(p.messageIds, stored), |p.messageIds|);
  }

  lemma {:induction false} TablesComeApart(t: Tables, repo: Repo, ps: seq<CommitRow>, n: nat)
    requires n <= |ps|
    ensures IngestAllNew(t, repo, ps, n) == SplitTables(t, repo, ps, n)
  {
    if n > 0 {
      var p := ps[n - 1];
      TablesComeApart(t, repo, ps, n - 1);
      StoredNow(t.archive, ps, n - 1);
      IdRowsSnoc(t.idMap, FlatIdRows(t.archive, ps, n - 1), p.message, StoredFor(t.archive, ps, p));
      assert IngestNew(SplitTables(t, repo, ps, n - 1), repo, p) == SplitTables(t, repo, ps, n);
    }
  }

  // ---- new messages get consecutive ids ----

  function IsNewHash(known: map<Hash, MessageRow>, ps: seq<CommitRow>, i: nat): bool
    requires i < |ps|
  {
    var h := ps[i].message.hash;
    h !in known && forall j | 0 <= j < i :: ps[j].message.hash != h
  }

  /** The pending rows whose message has to be inserted. */
  function Inserts(known: map<Hash, MessageRow>, ps: seq<CommitRow>, n: nat): seq<CommitRow>
    requires n <= |ps|
  {
    if n == 0 then []
    else if IsNewHash(known, ps, n - 1) then Inserts(known, ps, n - 1) + [ps[n - 1]]
    else Inserts(known, ps, n - 1)
  }

  /** The archive after copying in the first `n` of `ins` under consecutive ids. */
  function CopyMessages(a: Archive, ins: seq<CommitRow>, n: nat): (r: Archive)
    requires n <= |ins|
  {
    if n == 0 then a
    else
      var b := CopyMessages(a, ins, n - 1);
      var p := ins[n - 1].message;
      Archive(
        b.messages[p.hash := NewMessage(p, a.nextMessageId + n - 1, a.nextBodyId + n - 1)],
        b.bodies[a.nextBodyId + n - 1 := p.body],
        a.nextMessageId + n, a.nextBodyId + n)
  }

  lemma {:induction false} CopyPrefix(a: Archive, ins: seq<CommitRow>, x: CommitRow, n: nat)
    requires n <= |ins|
    ensures CopyMessages(a, ins + [x], n) == CopyMessages(a, ins, n)
  {
    if n > 0 {
      CopyPrefix(a, ins, x, n - 1);
    }
  }

  lemma {:induction false} HashesAfter(a: Archive, ps: seq<CommitRow>, n: nat, h: Hash)
    requires n <= |ps|
    ensures h in EnsureAll(a, ps, n).messages
            <==> h in a.messages || exists j: nat :: j < n && ps[j].message.hash == h
  {
    if n > 0 {
      HashesAfter(a, ps, n - 1, h);
    }
  }

  lemma {:induction false} CopyCounts(a: Archive, ins: seq<CommitRow>, n: nat)
    requires n <= |ins|
    ensures CopyMessages(a, ins, n).nextMessageId == a.nextMessageId + n
    ensures CopyMessages(a, ins, n).nextBodyId == a.nextBodyId + n
  {
  }

  lemma CopySnoc(a: Archive, ins: seq<CommitRow>, x: CommitRow, before: Archive)
    requires before == CopyMessages(a, ins, |ins|) && x.message.hash !in before.messages
    ensures CopyMessages(a, ins + [x], |ins| + 1) == EnsureMessage(before, x.message)
  {
    CopyPrefix(a, ins, x, |ins|);
    CopyCounts(a, ins, |ins|);
  }

  lemma {:induction false} CopyIsEnsure(a: Archive, ps: seq<CommitRow>, n: nat)
    requires n <= |ps|
    ensures CopyMessages(a, Inserts(a.messages, ps, n), |Inserts(a.messages, ps, n)|) == EnsureAll(a, ps, n)
  {
    if n > 0 {
      var ins, before := Inserts(a.messages, ps, n - 1), EnsureAll(a, ps, n - 1);
      CopyIsEnsure(a, ps, n - 1);
      HashesAfter(a, ps, n - 1, ps[n - 1].message.hash);
      if IsNewHash(a.messages, ps, n - 1) {
        CopySnoc(a, ins, ps[n - 1], before);
      }
      assert EnsureAll(a, ps, n) == EnsureMessage(before, ps[n - 1].message);
    }
  }

  // ---- deduplicated id rows ----

  /** Inserts the ids that are new and raises the flags of those that are not. */
  function MergeIds(m: IdMap, d: IdMap): IdMap {
    m + map k | k in d :: d[k] || (k in m && m[k])
  }

  lemma MergeUpsert(m: IdMap, d: IdMap, row: IdRow)
    ensures Upsert(MergeIds(m, d), row) == MergeIds(m, Upsert(d, row))
  {
  }

  /** Deduplicating the id rows first, with the flags combined, changes nothing. */
  lemma {:induction false} MergeDeduplicated(m: IdMap, rows: seq<IdRow>, n: nat)
    requires n <= |rows|
    ensures UpsertAll(m, rows, n) == MergeIds(m, UpsertAll(map[], rows, n))
  {
    if n > 0 {
      MergeDeduplicated(m, rows, n - 1);
      MergeUpsert(m, UpsertAll(map[], rows, n - 1), rows[n - 1]);
    }
  }

  /** The tables that a batch leaves. */
  function BatchTables(t: Tables, repo: Repo, ps: seq<CommitRow>): Tables {
    var ins := Inserts(t.archive.messages, ps, |ps|);
    var ids := FlatIdRows(t.archive, ps, |ps|);
    Tables(CopyMessages(t.archive, ins, |ins|),
           MergeIds(t.idMap, UpsertAll(map[], ids, |ids|)),
           AddInstances(t.instances, t.archive, repo, ps, |ps|))
  }

  /** The refinement: the passes of the batch leave what the rows leave one by one. */
  lemma BatchRefinesSequential(t: Tables, repo: Repo, rows: seq<CommitRow>)
    ensures BatchTables(t, repo, Pending(t.instances, repo, rows, |rows|)) == IngestRows(t, repo, rows, |rows|)
  {
    var ps := Pending(t.instances, repo, rows, |rows|);
    var ids := FlatIdRows(t.archive, ps, |ps|);
    OnlyPendingMatter(t, repo, rows, |rows|);
    TablesComeApart(t, repo, ps, |ps|);
    CopyIsEnsure(t.archive, ps, |ps|);
    MergeDeduplicated(t.idMap, ids, |ids|);
  }
}
