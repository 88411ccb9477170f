/** The passes that `ingest_messages_copy_batch` makes over its rows in memory, before it
    writes anything. */
module IngestPasses {
  import opened IngestOutcome
  import opened IngestRefinement
  import opened IngestTables
  import opened Sorting

  datatype BodyCopy = BodyCopy(id: int, body: Body)

  datatype MessageCopy = MessageCopy(hash: Hash, row: MessageRow)

  datatype InstanceCopy = InstanceCopy(key: InstanceKey, instance: Instance)

  datatype BatchOutcome = BatchOutcome(insertedInstances: nat, messagePks: seq<int>, skippedCommits: seq<Oid>)

  // ---- passes over the rows in memory ----

  /** Drops the repetitions of a commit. */
  method UniqueRows(rows: seq<CommitRow>) returns (unique: seq<CommitRow>)
    ensures unique == Firsts(rows, |rows|)
  {
    var seen: set<Oid> := {};
    unique := [];
    for i := 0 to |rows|
      invariant unique == Firsts(rows, i)
      invariant forall o :: o in seen <==> HasOid(rows, i, o)
    {
      if rows[i].oid !in seen {
        unique := unique + [rows[i]];
      }
      seen := seen + {rows[i].oid};
    }
  }

  /** Sets the commits aside that the list already has. */
  method SplitKnown(known: Instances, repo: Repo, us: seq<CommitRow>)
      returns (pks: map<Oid, int>, skipped: seq<Oid>, pending: seq<CommitRow>)
    requires DistinctOids(us)
    ensures pending == Unknown(known, repo, us, |us|)
    ensures forall o :: o in pks <==> HasOid(us, |us|, o) && InstanceKey(repo.listId, o) in known
    ensures forall o | o in pks :: pks[o] == known[InstanceKey(repo.listId, o)].messagePk
    ensures forall o :: o in skipped <==> o in pks
    ensures NoDuplicates(skipped)
  {
    pks, skipped, pending := map[], [], [];
    for i := 0 to |us|
      invariant pending == Unknown(known, repo, us, i)
      invariant forall o :: o in pks <==> HasOid(us, i, o) && InstanceKey(repo.listId, o) in known
      invariant forall o | o in pks :: pks[o] == known[InstanceKey(repo.listId, o)].messagePk
      invariant forall o :: o in skipped <==> o in pks
      invariant NoDuplicates(skipped)
    {
      var key := KeyOf(repo, us[i]);
      if key in known {
        assert us[i].oid !in pks;
        assert forall j | 0 <= j < |skipped| :: skipped[j] in skipped;
        pks := pks[us[i].oid := known[key].messagePk];
        skipped := skipped + [us[i].oid];
      } else {
        pending := pending + [us[i]];
      }
      assert HasOid(us, i + 1, us[i].oid);
    }
  }

  datatype Identity = Identity(id: int, primary: MessageId)

  function IdentityOf(m: MessageRow): Identity {
    Identity(m.id, m.primary)
  }

  /** The commits of the batch that the list already has, with their messages. */
  ghost predicate KnownCommits(pks: map<Oid, int>, known: Instances, repo: Repo, rows: seq<CommitRow>) {
    && (forall o :: o in pks <==> HasOid(rows, |rows|, o) && InstanceKey(repo.listId, o) in known)
    && (forall o | o in pks :: pks[o] == known[InstanceKey(repo.listId, o)].messagePk)
  }

  ghost predicate ListsOnce(skipped: seq<Oid>, pks: map<Oid, int>) {
    NoDuplicates(skipped) && forall o :: o in skipped <==> o in pks
  }

  lemma SameOids(rows: seq<CommitRow>, o: Oid)
    ensures HasOid(Firsts(rows, |rows|), |Firsts(rows, |rows|)|, o) <==> HasOid(rows, |rows|, o)
  {
    var us := Firsts(rows, |rows|);
    FirstsFacts(rows, |rows|);
    if HasOid(us, |us|, o) {
      var j: nat :| j < |us| && us[j].oid == o;
      assert us[j] in us;
    }
    if HasOid(rows, |rows|, o) {
      var i: nat :| i < |rows| && rows[i].oid == o;
      FirstsHaveAll(rows, |rows|, i);
    }
  }

  lemma KnownIsUnmapped(pks: map<Oid, int>, known: Instances, repo: Repo, rows: seq<CommitRow>)
    requires KnownCommits(pks, known, repo, rows)
    ensures Unmapped(pks, Pending(known, repo, rows, |rows|))
  {
    var ps := Pending(known, repo, rows, |rows|);
    PendingFacts(known, repo, rows);
    assert forall i | 0 <= i < |ps| :: ps[i] in ps;
  }

  method FindPending(known: Instances, repo: Repo, rows: seq<CommitRow>)
      returns (pks: map<Oid, int>, skipped: seq<Oid>, pending: seq<CommitRow>)
    ensures pending == Pending(known, repo, rows, |rows|)
    ensures KnownCommits(pks, known, repo, rows) && ListsOnce(skipped, pks)
  {
    var unique := UniqueRows(rows);
    FirstsFacts(rows, |rows|);
    pks, skipped, pending := SplitKnown(known, repo, unique);
    PendingIsUnknownFirsts(known, repo, rows, |rows|);
    forall o
      ensures HasOid(unique, |unique|, o) <==> HasOid(rows, |rows|, o)
    {
      SameOids(rows, o);
    }
  }

  /** All commits are mapped once the pending ones are. */
  lemma AllMapped(known: map<Oid, int>, pks: map<Oid, int>, t: Tables, repo: Repo, rows: seq<CommitRow>)
    requires KnownCommits(known, t.instances, repo, rows)
    requires MapsRightly(known, pks, t.archive, Pending(t.instances, repo, rows, |rows|))
    requires forall p | p in Pending(t.instances, repo, rows, |rows|) :: p.oid in pks
    ensures MapsCommits(pks, t, repo, rows)
  {
    var ps := Pending(t.instances, repo, rows, |rows|);
    PendingFacts(t.instances, repo, rows);
    forall o | o in pks
      ensures HasOid(rows, |rows|, o)
    {
      if o !in known {
        var j: nat :| j < |ps| && ps[j].oid == o;
        assert ps[j] in ps;
      }
    }
    forall i | 0 <= i < |rows|
      ensures rows[i].oid in pks
    {
      if KeyOf(repo, rows[i]) in t.instances {
        assert HasOid(rows, |rows|, rows[i].oid) && rows[i].oid in known;
      } else {
        var j: nat :| j < |ps| && ps[j].oid == rows[i].oid;
        assert ps[j] in ps;
      }
    }
  }

  function HashesOf(ps: seq<CommitRow>): set<Hash> {
    set i: nat | i < |ps| :: ps[i].message.hash
  }

  /** `SELECT ... WHERE content_hash_sha256 IN (...)` */
  function SelectByHash(messages: map<Hash, MessageRow>, hashes: set<Hash>): map<Hash, Identity> {
    map h | h in hashes && h in messages :: IdentityOf(messages[h])
  }

  /** The commits of the first `n` rows whose message is stored already. */
  function KnownPks(before: map<Oid, int>, known: map<Hash, MessageRow>, ps: seq<CommitRow>, n: nat): map<Oid, int>
    requires n <= |ps|
  {
    if n == 0 then before
    else
      var rest := KnownPks(before, known, ps, n - 1);
      var h := ps[n - 1].message.hash;
      if h in known then rest[ps[n - 1].oid := known[h].id] else rest
  }

  function NewHashes(known: map<Hash, MessageRow>, ps: seq<CommitRow>, n: nat): set<Hash>
    requires n <= |ps|
  {
    set j: nat | j < n && ps[j].message.hash !in known :: ps[j].message.hash
  }

  /** Maps the commits of stored messages and picks the rows whose message is new. */
  method ChooseInserts(ghost known: map<Hash, MessageRow>, existing: map<Hash, Identity>, before: map<Oid, int>,
                       ps: seq<CommitRow>)
      returns (pks: map<Oid, int>, ins: seq<CommitRow>)
    requires existing == SelectByHash(known, HashesOf(ps))
    ensures pks == KnownPks(before, known, ps, |ps|)
    ensures ins == Inserts(known, ps, |ps|)
  {
    var seen: set<Hash> := {};
    pks, ins := before, [];
    for i := 0 to |ps|
      invariant pks == KnownPks(before, known, ps, i)
      invariant ins == Inserts(known, ps, i)
      invariant seen == NewHashes(known, ps, i)
    {
      var h := ps[i].message.hash;
      assert IsNewHash(known, ps, i) <==> h !in known && h !in seen;
      assert h in HashesOf(ps);
      if h in existing {
        pks := pks[ps[i].oid := existing[h].id];
      } else {
        if h !in seen {
          ins := ins + [ps[i]];
        }
        seen := seen + {h};
      }
    }
  }

  // ---- the rows to copy ----

  function BodyCopies(a: Archive, ins: seq<CommitRow>): (r: seq<BodyCopy>)
    ensures |r| == |ins|
  {
    seq(|ins|, i requires 0 <= i < |ins| => BodyCopy(a.nextBodyId + i, ins[i].message.body))
  }

  function MessageCopies(a: Archive, ins: seq<CommitRow>): (r: seq<MessageCopy>)
    ensures |r| == |ins|
  {
    seq(|ins|, i requires 0 <= i < |ins| =>
      MessageCopy(ins[i].message.hash, NewMessage(ins[i].message, a.nextMessageId + i, a.nextBodyId + i)))
  }

  function PutBodies(m: map<int, Body>, rows: seq<BodyCopy>, n: nat): map<int, Body>
    requires n <= |rows|
  {
    if n == 0 then m else PutBodies(m, rows, n - 1)[rows[n - 1].id := rows[n - 1].body]
  }

  function PutMessages(m: map<Hash, MessageRow>, rows: seq<MessageCopy>, n: nat): map<Hash, MessageRow>
    requires n <= |rows|
  {
    if n == 0 then m else PutMessages(m, rows, n - 1)[rows[n - 1].hash := rows[n - 1].row]
  }

  lemma {:induction false} CopiesMakeArchive(a: Archive, ins: seq<CommitRow>, n: nat)
    requires n <= |ins|
    ensures CopyMessages(a, ins, n) ==
            Archive(PutMessages(a.messages, MessageCopies(a, ins), n), PutBodies(a.bodies, BodyCopies(a, ins), n),
                    a.nextMessageId + n, a.nextBodyId + n)
  {
    if n > 0 {
      CopiesMakeArchive(a, ins, n - 1);
    }
  }

  /** `inserted` knows the messages that the first `n` of `ins` add. */
  ghost predicate KnowsInserted(inserted: map<Hash, Identity>, a: Archive, ins: seq<CommitRow>, n: nat)
    requires n <= |ins|
  {
    && (forall h :: h in inserted <==> exists j: nat :: j < n && ins[j].message.hash == h)
    && (forall h | h in inserted ::
          h in CopyMessages(a, ins, n).messages && inserted[h] == IdentityOf(CopyMessages(a, ins, n).messages[h]))
  }

  /** Row by row, the message of an insert leads to its own body. */
  ghost predicate CopiesBelong(bodies: seq<BodyCopy>, messages: seq<MessageCopy>, bodyIds: seq<int>,
                               messageIds: seq<int>, ins: seq<CommitRow>) {
    && |bodies| == |messages| == |bodyIds| == |messageIds| == |ins|
    && forall i | 0 <= i < |ins| ::
         var p, m := ins[i].message, messages[i];
         && bodies[i].id == m.row.bodyId == bodyIds[i] && bodies[i].body == p.body
         && m.hash == p.hash && m.row.id == messageIds[i] && m.row.header == p.header
         && m.row.messageIds == p.messageIds && m.row.primary == p.primary
  }

  method BuildCopies(ghost a: Archive, ins: seq<CommitRow>, bodyIds: seq<int>, messageIds: seq<int>)
      returns (bodyRows: seq<BodyCopy>, messageRows: seq<MessageCopy>, inserted: map<Hash, Identity>)
    requires bodyIds == seq(|ins|, i => a.nextBodyId + i)
    requires messageIds == seq(|ins|, i => a.nextMessageId + i)
    ensures bodyRows == BodyCopies(a, ins) && messageRows == MessageCopies(a, ins)
    ensures CopiesBelong(bodyRows, messageRows, bodyIds, messageIds, ins)
    ensures KnowsInserted(inserted, a, ins, |ins|)
  {
    bodyRows, messageRows, inserted := [], [], map[];
    for i := 0 to |ins|
      invariant bodyRows == BodyCopies(a, ins)[..i]
      invariant messageRows == MessageCopies(a, ins)[..i]
      invariant KnowsInserted(inserted, a, ins, i)
    {
      var p := ins[i].message;
      var row := NewMessage(p, messageIds[i], bodyIds[i]);
      bodyRows := bodyRows + [BodyCopy(bodyIds[i], p.body)];
      messageRows := messageRows + [MessageCopy(p.hash, row)];
      inserted := inserted[p.hash := IdentityOf(row)];
    }
  }

  lemma {:induction false} EveryHashHasInsert(known: map<Hash, MessageRow>, ps: seq<CommitRow>, n: nat, i: nat)
    requires i < n <= |ps| && ps[i].message.hash !in known
    ensures exists p :: p in Inserts(known, ps, n) && p.message.hash == ps[i].message.hash
  {
    if IsNewHash(known, ps, n - 1) && ps[n - 1].message.hash == ps[i].message.hash {
      assert ps[n - 1] in Inserts(known, ps, n);
    } else if i < n - 1 {
      EveryHashHasInsert(known, ps, n - 1, i);
    } else {
      var j: nat :| j < n - 1 && ps[j].message.hash == ps[i].message.hash;
      EveryHashHasInsert(known, ps, n - 1, j);
    }
  }

  /** The lookup by hash, first among the stored and then among the new messages. */
  lemma IdentityFound(a: Archive, ps: seq<CommitRow>, inserted: map<Hash, Identity>, p: CommitRow)
    requires KnowsInserted(inserted, a, Inserts(a.messages, ps, |ps|), |Inserts(a.messages, ps, |ps|)|)
    requires p in ps
    ensures var h := p.message.hash;
            if h in a.messages then IdentityOf(a.messages[h]) == IdentityOf(StoredFor(a, ps, p))
            else h in inserted && inserted[h] == IdentityOf(StoredFor(a, ps, p))
  {
    var h := p.message.hash;
    CopyIsEnsure(a, ps, |ps|);
    if h in a.messages {
      StoredStays(a, ps, 0, |ps|, h);
    } else {
      var i: nat :| i < |ps| && ps[i] == p;
      EveryHashHasInsert(a.messages, ps, |ps|, i);
      var ins := Inserts(a.messages, ps, |ps|);
      var q :| q in ins && q.message.hash == h;
      var j: nat :| j < |ins| && ins[j] == q;
    }
  }

  // ---- the message of every commit ----

  /** Where a pending commit is mapped, it is mapped to its stored message; nothing else
      changes but that pending commits may be added. */
  ghost predicate MapsRightly(before: map<Oid, int>, pks: map<Oid, int>, a: Archive, ps: seq<CommitRow>) {
    && (forall p | p in ps && p.oid in pks :: pks[p.oid] == StoredFor(a, ps, p).id)
    && (forall o | o in before :: o in pks && pks[o] == before[o])
    && (forall o | o in pks && o !in before :: HasOid(ps, |ps|, o))
  }

  lemma MapOne(before: map<Oid, int>, pks: map<Oid, int>, a: Archive, ps: seq<CommitRow>, i: nat)
    requires DistinctOids(ps) && i < |ps| && ps[i].oid !in before
    requires MapsRightly(before, pks, a, ps)
    ensures MapsRightly(before, pks[ps[i].oid := StoredFor(a, ps, ps[i]).id], a, ps)
  {
    forall p | p in ps && p.oid == ps[i].oid
      ensures p == ps[i]
    {
      var j: nat :| j < |ps| && ps[j] == p;
    }
    assert HasOid(ps, |ps|, ps[i].oid);
  }

  ghost predicate Unmapped(before: map<Oid, int>, ps: seq<CommitRow>) {
    forall i | 0 <= i < |ps| :: ps[i].oid !in before
  }

  lemma {:induction false} KnownMapRightly(before: map<Oid, int>, a: Archive, ps: seq<CommitRow>, n: nat)
    requires n <= |ps| && DistinctOids(ps) && Unmapped(before, ps)
    ensures MapsRightly(before, KnownPks(before, a.messages, ps, n), a, ps)
  {
    if n == 0 {
      assert forall p | p in ps :: p.oid !in before;
    } else {
      KnownMapRightly(before, a, ps, n - 1);
      var h := ps[n - 1].message.hash;
      if h in a.messages {
        StoredStays(a, ps, 0, |ps|, h);
        MapOne(before, KnownPks(before, a.messages, ps, n - 1), a, ps, n - 1);
      }
    }
  }

  /** Maps the pending commits that are still without a message; none is left over. */
  method MapRemaining(ghost a: Archive, existing: map<Hash, Identity>, inserted: map<Hash, Identity>,
                      ps: seq<CommitRow>, skippedBefore: seq<Oid>, ghost before: map<Oid, int>, start: map<Oid, int>)
      returns (pks: map<Oid, int>, skipped: seq<Oid>)
    requires existing == SelectByHash(a.messages, HashesOf(ps))
    requires KnowsInserted(inserted, a, Inserts(a.messages, ps, |ps|), |Inserts(a.messages, ps, |ps|)|)
    requires DistinctOids(ps) && Unmapped(before, ps) && MapsRightly(before, start, a, ps)
    ensures MapsRightly(before, pks, a, ps)
    ensures forall p | p in ps :: p.oid in pks
    ensures skipped == skippedBefore
  {
    pks, skipped := start, skippedBefore;
    for i := 0 to |ps|
      invariant MapsRightly(before, pks, a, ps)
      invariant forall j | 0 <= j < i :: ps[j].oid in pks
      invariant skipped == skippedBefore
    {
      var p := ps[i];
      if p.oid !in pks {
        IdentityFound(a, ps, inserted, p);
        MapOne(before, pks, a, ps, i);
        var h := p.message.hash;
        assert h in HashesOf(ps);
        if h in existing {
          pks := pks[p.oid := existing[h].id];
        } else if h in inserted {
          pks := pks[p.oid := inserted[h].id];
        } else {
          assert false;
        }
      }
    }
  }

  // ---- rows for the other two tables ----

  function InstanceCopies(a: Archive, repo: Repo, ps: seq<CommitRow>): (r: seq<InstanceCopy>)
    ensures |r| == |ps|
  {
    seq(|ps|, i requires 0 <= i < |ps| =>
      InstanceCopy(KeyOf(repo, ps[i]), Instance(StoredFor(a, ps, ps[i]).id, repo.id)))
  }

  function PutInstances(m: Instances, rows: seq<InstanceCopy>, n: nat): Instances
    requires n <= |rows|
  {
    if n == 0 then m else PutInstances(m, rows, n - 1)[rows[n - 1].key := rows[n - 1].instance]
  }

  lemma {:induction false} CopiesMakeInstances(m: Instances, a: Archive, repo: Repo, ps: seq<CommitRow>, n: nat)
    requires n <= |ps|
    ensures PutInstances(m, InstanceCopies(a, repo, ps), n) == AddInstances(m, a, repo, ps, n)
  {
    if n > 0 {
      CopiesMakeInstances(m, a, repo, ps, n - 1);
    }
  }

  method ListIds(ids: seq<MessageId>, pk: int, primary: MessageId, ghost stored: MessageRow) returns (rows: seq<IdRow>)
    requires stored.id == pk && stored.primary == primary
    ensures rows == IdRowsOf(ids, stored)
  {
    rows := [];
    for i := 0 to |ids|
      invariant rows == IdRowsOf(ids, stored)[..i]
    {
      rows := rows + [IdRow(IdKey(ids[i], pk), ids[i] == primary)];
    }
  }

  method ListRows(ghost a: Archive, repo: Repo, existing: map<Hash, Identity>, inserted: map<Hash, Identity>,
                  ps: seq<CommitRow>, pks: map<Oid, int>)
      returns (idRows: seq<IdRow>, instanceRows: seq<InstanceCopy>)
    requires existing == SelectByHash(a.messages, HashesOf(ps))
    requires KnowsInserted(inserted, a, Inserts(a.messages, ps, |ps|), |Inserts(a.messages, ps, |ps|)|)
    requires forall p | p in ps :: p.oid in pks && pks[p.oid] == StoredFor(a, ps, p).id
    ensures idRows == FlatIdRows(a, ps, |ps|)
    ensures instanceRows == InstanceCopies(a, repo, ps)
  {
    idRows, instanceRows := [], [];
    for i := 0 to |ps|
      invariant idRows == FlatIdRows(a, ps, i)
      invariant instanceRows == InstanceCopies(a, repo, ps)[..i]
    {
      var p := ps[i];
      var h := p.message.hash;
      IdentityFound(a, ps, inserted, p);
      assert h in HashesOf(ps);
      var primary :=
        if h in existing then existing[h].primary
        else if h in inserted then inserted[h].primary
        else p.message.primary;
      var rows := ListIds(p.message.messageIds, pks[p.oid], primary, StoredFor(a, ps, p));
      idRows := idRows + rows;
      instanceRows := instanceRows + [InstanceCopy(KeyOf(repo, p), Instance(pks[p.oid], repo.id))];
    }
  }

  /** `dedupe_message_id_rows` */
  method DedupeIdRows(rows: seq<IdRow>) returns (deduped: IdMap)
    ensures deduped == UpsertAll(map[], rows, |rows|)
  {
    deduped := map[];
    for i := 0 to |rows|
      invariant deduped == UpsertAll(map[], rows, i)
    {
      var key := rows[i].key;
      if key !in deduped {
        deduped := deduped[key := false];
      }
      deduped := deduped[key := deduped[key] || rows[i].isPrimary];
    }
  }

  /** Which deduplicated ids are new, and which known ones become primary. */
  ghost predicate SplitsIds(known: IdMap, done: IdMap, inserts: IdMap, promotes: set<IdKey>) {
    && (forall k :: k in inserts <==> k in done && k !in known)
    && (forall k | k in inserts :: inserts[k] == done[k])
    && (forall k :: k in promotes <==> k in done && k in known && done[k] && !known[k])
  }

  method SplitIds(known: IdMap, deduped: IdMap) returns (inserts: IdMap, promotes: set<IdKey>)
    ensures SplitsIds(known, deduped, inserts, promotes)
  {
    var rest := deduped.Keys;
    var done: IdMap := map[];
    inserts, promotes := map[], {};
    while rest != {}
      invariant done.Keys == deduped.Keys - rest && rest <= deduped.Keys
      invariant forall k | k in done :: done[k] == deduped[k]
      invariant SplitsIds(known, done, inserts, promotes)
      decreases rest
    {
      var k :| k in rest;
      if k in known {
        if deduped[k] && !known[k] {
          promotes := promotes + {k};
        }
      } else {
        inserts := inserts[k := deduped[k]];
      }
      rest, done := rest - {k}, done[k := deduped[k]];
    }
    assert done == deduped;
  }

  lemma SplitMerges(known: IdMap, deduped: IdMap, inserts: IdMap, promotes: set<IdKey>)
    requires SplitsIds(known, deduped, inserts, promotes)
    ensures (map k | k in known :: known[k] || k in promotes) + inserts == MergeIds(known, deduped)
  {
  }

  /** The values of a hash map, in whatever order it yields them. */
  method CollectValues(pks: map<Oid, int>) returns (values: seq<int>)
    ensures forall x :: x in values <==> x in pks.Values
  {
    var rest := pks.Keys;
    values := [];
    while rest != {}
      invariant rest <= pks.Keys
      invariant forall x :: x in values <==> exists o :: o in pks.Keys - rest && pks[o] == x
      decreases rest
    {
      var o :| o in rest;
      rest, values := rest - {o}, values + [pks[o]];
    }
  }

  predicate Increasing(s: seq<int>) {
    forall i, j | 0 <= i < j < |s| :: s[i] < s[j]
  }

  /** `dedup`: drops the repetitions in a sorted vector. */
  method Dedup(ordered: seq<int>) returns (distinct: seq<int>)
    requires forall i, j | 0 <= i < j < |ordered| :: ordered[i] <= ordered[j]
    ensures Increasing(distinct) && forall x :: x in distinct <==> x in ordered
  {
    distinct := [];
    for i := 0 to |ordered|
      invariant Increasing(distinct)
      invariant forall j | 0 <= j < |distinct| :: distinct[j] in ordered
      invariant forall j | 0 <= j < i :: ordered[j] in distinct
      invariant i > 0 ==> distinct != [] && distinct[|distinct| - 1] == ordered[i - 1]
    {
      if i == 0 {
        distinct := [ordered[0]];
      } else if ordered[i] != ordered[i - 1] {
        distinct := distinct + [ordered[i]];
      }
    }
  }

  function ByValue(): (int, int) -> bool {
    (x, y) => x <= y
  }

  /** The values of `message_pk_by_commit` after `sort_unstable` and `dedup`. */
  method SortedPks(pks: map<Oid, int>) returns (sorted: seq<int>)
    ensures Increasing(sorted) && forall x :: x in sorted <==> x in pks.Values
  {
    var values := CollectValues(pks);
    var ordered := Sort(values, ByValue());
    SortSorted(values, ByValue());
    SortMultiset(values, ByValue());
    SameElements(values, ordered);
    forall i, j | 0 <= i < j < |ordered|
      ensures ordered[i] <= ordered[j]
    {
      assert ByValue()(ordered[i], ordered[j]);
    }
    sorted := Dedup(ordered);
  }
}
