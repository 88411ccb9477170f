/** The two writers of the archive tables: `ingest_message`, row by row, and
    `ingest_messages_copy_batch`, in passes over the whole batch. */
module IngestStore {
  import opened IngestFacts
  import opened IngestOutcome
  import opened IngestPasses
  import opened IngestRefinement
  import opened IngestTables
  import opened Sorting

  // ---- what COPY demands: no row collides with the table or with another row ----

  ghost predicate NoBodyCollision(m: map<int, Body>, rows: seq<BodyCopy>) {
    && (forall i | 0 <= i < |rows| :: rows[i].id !in m)
    && (forall i, j | 0 <= i < j < |rows| :: rows[i].id != rows[j].id)
  }

  ghost predicate NoMessageCollision(m: map<Hash, MessageRow>, rows: seq<MessageCopy>) {
    && (forall i | 0 <= i < |rows| :: rows[i].hash !in m)
    && (forall i, h | 0 <= i < |rows| && h in m :: m[h].id != rows[i].row.id)
    && (forall i, j | 0 <= i < j < |rows| :: rows[i].hash != rows[j].hash)
    && (forall i, j | 0 <= i < j < |rows| :: rows[i].row.id != rows[j].row.id)
  }

  ghost predicate NoInstanceCollision(m: Instances, rows: seq<InstanceCopy>) {
    && (forall i | 0 <= i < |rows| :: rows[i].key !in m)
    && (forall i, j | 0 <= i < j < |rows| :: rows[i].key != rows[j].key)
  }

  class Store {
    var messages: map<Hash, MessageRow>
    var bodies: map<int, Body>
    var nextMessageId: int
    var nextBodyId: int
    var messageIdMap: IdMap
    var instances: Instances

    function Stored(): Archive
      reads this
    {
      Archive(messages, bodies, nextMessageId, nextBodyId)
    }

    function State(): Tables
      reads this
    {
      Tables(Stored(), messageIdMap, instances)
    }

    ghost predicate Valid()
      reads this
    {
      Sequenced(Stored())
    }

    // ---- one row ----

    method IngestMessage(repo: Repo, oid: Oid, input: Parsed) returns (outcome: WriteOutcome)
      requires Valid()
      modifies this
      ensures Valid()
      ensures State() == IngestOne(old(State()), repo, CommitRow(oid, input))
      ensures outcome == OutcomeOfOne(old(State()), repo, CommitRow(oid, input))
      ensures IngestedWell(old(State()), repo, [CommitRow(oid, input)], State())
      ensures OutcomeMeans(outcome, old(State()), State(), InstanceKey(repo.listId, oid), input.hash)
    {
      OneIsIngested(State(), repo, CommitRow(oid, input));
      OneReports(State(), repo, CommitRow(oid, input));
      outcome := WriteRow(repo, oid, input);
    }

    method WriteRow(repo: Repo, oid: Oid, input: Parsed) returns (outcome: WriteOutcome)
      requires Valid()
      modifies this
      ensures Valid()
      ensures State() == IngestOne(old(State()), repo, CommitRow(oid, input))
      ensures outcome == OutcomeOfOne(old(State()), repo, CommitRow(oid, input))
    {
      var key := InstanceKey(repo.listId, oid);
      if key in instances {
        return WriteOutcome(false, false, instances[key].messagePk);
      }
      var messageInserted := false;
      if input.hash !in messages {
        var bodyId := nextBodyId;
        bodies, nextBodyId := bodies[bodyId := input.body], nextBodyId + 1;
        messages := messages[input.hash := NewMessage(input, nextMessageId, bodyId)];
        nextMessageId := nextMessageId + 1;
        messageInserted := true;
      }
      var stored := messages[input.hash];
      UpsertIds(input.messageIds, stored);
      instances := instances[key := Instance(stored.id, repo.id)];
      return WriteOutcome(messageInserted, true, stored.id);
    }

    method UpsertIds(ids: seq<MessageId>, stored: MessageRow)
      modifies this`messageIdMap
      ensures messageIdMap == UpsertAll(old(messageIdMap), IdRowsOf(ids, stored), |ids|)
    {
      for i := 0 to |ids|
        invariant messageIdMap == UpsertAll(old(messageIdMap), IdRowsOf(ids, stored), i)
      {
        var key := IdKey(ids[i], stored.id);
        var flag := ids[i] == stored.primary;
        messageIdMap := messageIdMap[key := (key in messageIdMap && messageIdMap[key]) || flag];
      }
    }

    // ---- copying rows into the tables; a row with a known key would fail the batch ----

    method ReserveBodyIds(count: nat) returns (ids: seq<int>)
      modifies this`nextBodyId
      ensures ids == seq(count, i => old(nextBodyId) + i) && nextBodyId == old(nextBodyId) + count
    {
      var first := nextBodyId;
      ids := seq(count, i => first + i);
      nextBodyId := first + count;
    }

    method ReserveMessageIds(count: nat) returns (ids: seq<int>)
      modifies this`nextMessageId
      ensures ids == seq(count, i => old(nextMessageId) + i) && nextMessageId == old(nextMessageId) + count
    {
      var first := nextMessageId;
      ids := seq(count, i => first + i);
      nextMessageId := first + count;
    }

    method CopyBodies(rows: seq<BodyCopy>)
      requires NoBodyCollision(bodies, rows)
      modifies this`bodies
      ensures bodies == PutBodies(old(bodies), rows, |rows|)
    {
      for i := 0 to |rows|
        invariant bodies == PutBodies(old(bodies), rows, i)
      {
        bodies := bodies[rows[i].id := rows[i].body];
      }
    }

    method CopyMessageRows(rows: seq<MessageCopy>)
      requires NoMessageCollision(messages, rows)
      modifies this`messages
      ensures messages == PutMessages(old(messages), rows, |rows|)
    {
      for i := 0 to |rows|
        invariant messages == PutMessages(old(messages), rows, i)
      {
        messages := messages[rows[i].hash := rows[i].row];
      }
    }

    method CopyIds(rows: IdMap)
      requires rows.Keys !! messageIdMap.Keys
      modifies this`messageIdMap
      ensures messageIdMap == old(messageIdMap) + rows
    {
      messageIdMap := messageIdMap + rows;
    }

    method PromoteIds(keys: set<IdKey>)
      modifies this`messageIdMap
      ensures messageIdMap == map k | k in old(messageIdMap) :: old(messageIdMap)[k] || k in keys
    {
      messageIdMap := map k | k in messageIdMap :: messageIdMap[k] || k in keys;
    }

    method CopyInstances(rows: seq<InstanceCopy>) returns (count: nat)
      requires NoInstanceCollision(instances, rows)
      modifies this`instances
      ensures instances == PutInstances(old(instances), rows, |rows|)
      ensures count == |rows|
    {
      count := 0;
      for i := 0 to |rows|
        invariant instances == PutInstances(old(instances), rows, i)
        invariant count == i
      {
        instances := instances[rows[i].key := rows[i].instance];
        count := count + 1;
      }
    }

    /** Reserves ids for the messages to insert and builds their rows. */
    method PrepareMessages(ins: seq<CommitRow>)
        returns (bodyRows: seq<BodyCopy>, messageRows: seq<MessageCopy>, inserted: map<Hash, Identity>)
      modifies this`nextMessageId, this`nextBodyId
      ensures nextMessageId == old(nextMessageId) + |ins| && nextBodyId == old(nextBodyId) + |ins|
      ensures bodyRows == BodyCopies(old(Stored()), ins) && messageRows == MessageCopies(old(Stored()), ins)
      ensures KnowsInserted(inserted, old(Stored()), ins, |ins|)
    {
      ghost var a := Stored();
      var bodyIds := ReserveBodyIds(|ins|);
      var messageIds := ReserveMessageIds(|ins|);
      bodyRows, messageRows, inserted := BuildCopies(a, ins, bodyIds, messageIds);
    }

    method WriteMessages(ghost a: Archive, ghost ins: seq<CommitRow>, bodyRows: seq<BodyCopy>,
                         messageRows: seq<MessageCopy>)
      requires Sequenced(a) && NewAndDistinct(a.messages, ins)
      requires Stored() == a.(nextMessageId := a.nextMessageId + |ins|, nextBodyId := a.nextBodyId + |ins|)
      requires bodyRows == BodyCopies(a, ins) && messageRows == MessageCopies(a, ins)
      modifies this`messages, this`bodies
      ensures Stored() == CopyMessages(a, ins, |ins|)
    {
      CopiesCollideNowhere(a, ins);
      CopyBodies(bodyRows);
      CopyMessageRows(messageRows);
      CopiesMakeArchive(a, ins, |ins|);
    }

    method WriteIds(idRows: seq<IdRow>)
      modifies this`messageIdMap
      ensures messageIdMap == MergeIds(old(messageIdMap), UpsertAll(map[], idRows, |idRows|))
    {
      ghost var known := messageIdMap;
      var deduped := DedupeIdRows(idRows);
      var inserts, promotes := SplitIds(messageIdMap, deduped);
      SplitMerges(known, deduped, inserts, promotes);
      PromoteIds(promotes);
      CopyIds(inserts);
    }

    /** The passes in memory; of the tables they only advance the sequences. */
    method PlanBatch(repo: Repo, rows: seq<CommitRow>) returns (plan: Plan)
      modifies this`nextMessageId, this`nextBodyId
      ensures PlanFor(plan, old(State()), repo, rows)
      ensures nextMessageId == old(nextMessageId) + |plan.messageRows|
      ensures nextBodyId == old(nextBodyId) + |plan.bodyRows|
    {
      ghost var t := State();
      var known, skipped, ps := FindPending(instances, repo, rows);
      KnownIsUnmapped(known, instances, repo, rows);
      PendingFacts(instances, repo, rows);
      var existing := SelectByHash(messages, HashesOf(ps));
      var pks, ins := ChooseInserts(messages, existing, known, ps);
      KnownMapRightly(known, t.archive, ps, |ps|);
      var bodyRows, messageRows, inserted := PrepareMessages(ins);
      pks, skipped := MapRemaining(t.archive, existing, inserted, ps, skipped, known, pks);
      AllMapped(known, pks, t, repo, rows);
      var idRows, instanceRows := ListRows(t.archive, repo, existing, inserted, ps, pks);
      plan := Plan(pks, skipped, bodyRows, messageRows, idRows, instanceRows);
    }

    method WritePlan(plan: Plan, ghost t: Tables, ghost repo: Repo, ghost rows: seq<CommitRow>)
        returns (insertedInstances: nat)
      requires Sequenced(t.archive) && PlanFor(plan, t, repo, rows)
      requires State() == t.(archive := t.archive.(nextMessageId := t.archive.nextMessageId + |plan.messageRows|,
                                                   nextBodyId := t.archive.nextBodyId + |plan.bodyRows|))
      modifies this
      ensures State() == BatchTables(t, repo, Pending(t.instances, repo, rows, |rows|))
      ensures insertedInstances == |Pending(t.instances, repo, rows, |rows|)|
    {
      ghost var ps := Pending(t.instances, repo, rows, |rows|);
      ghost var ins := Inserts(t.archive.messages, ps, |ps|);
      InsertsAreNew(t.archive.messages, ps, |ps|);
      WriteMessages(t.archive, ins, plan.bodyRows, plan.messageRows);
      WriteIds(plan.idRows);
      InstancesCollideNowhere(t, repo, rows);
      assert instances == t.instances;
      CopiesMakeInstances(t.instances, t.archive, repo, ps, |ps|);
      insertedInstances := CopyInstances(plan.instanceRows);
      assert Stored() == BatchTables(t, repo, ps).archive;
      assert messageIdMap == BatchTables(t, repo, ps).idMap;
    }

    method WriteBatch(repo: Repo, rows: seq<CommitRow>) returns (plan: Plan, insertedInstances: nat)
      requires Valid()
      modifies this
      ensures State() == IngestRows(old(State()), repo, rows, |rows|)
      ensures PlanFor(plan, old(State()), repo, rows)
      ensures insertedInstances == |Pending(old(instances), repo, rows, |rows|)|
    {
      ghost var t := State();
      plan := PlanBatch(repo, rows);
      insertedInstances := WritePlan(plan, t, repo, rows);
      BatchRefinesSequential(t, repo, rows);
    }

    /** The batch leaves the tables, and reports the commits, exactly as the rows would one
        after the other. */
    method IngestMessagesCopyBatch(repo: Repo, rows: seq<CommitRow>) returns (outcome: BatchOutcome)
      requires Valid()
      modifies this
      ensures Valid()
      ensures State() == IngestRows(old(State()), repo, rows, |rows|)
      ensures IngestedWell(old(State()), repo, rows, State()) && Reported(old(State()), repo, rows, outcome, instances)
    {
      ghost var t := State();
      BatchIsIngested(t, repo, rows);
      if rows == [] {
        NothingReported(t, repo);
        return BatchOutcome(0, [], []);
      }
      var plan, insertedInstances := WriteBatch(repo, rows);
      var messagePks := SortedPks(plan.pks);
      outcome := BatchOutcome(insertedInstances, messagePks, plan.skipped);
      PlanReports(t, repo, rows, plan, outcome);
    }
  }

  /** The message that the commit belongs to, and whether the message and the commit are new. */
  ghost predicate OutcomeMeans(outcome: WriteOutcome, before: Tables, after: Tables, key: InstanceKey, h: Hash) {
    && key in after.instances && outcome.messagePk == after.instances[key].messagePk
    && (outcome.instanceInserted <==> key !in before.instances)
    && (outcome.messageInserted <==> key !in before.instances && h !in before.archive.messages)
  }

  lemma OneReports(t: Tables, repo: Repo, row: CommitRow)
    ensures OutcomeMeans(OutcomeOfOne(t, repo, row), t, IngestOne(t, repo, row), KeyOf(repo, row), row.message.hash)
  {
  }

  /** What the tables hold afterwards; consistent ones stay so. */
  ghost predicate IngestedWell(t: Tables, repo: Repo, rows: seq<CommitRow>, after: Tables) {
    Ingested(t, repo, rows, after) && (Consistent(t) ==> Consistent(after))
  }

  /** The reports, as the rows would give them one by one, and what they mean. */
  ghost predicate Reported(t: Tables, repo: Repo, rows: seq<CommitRow>, outcome: BatchOutcome, after: Instances) {
    && outcome.insertedInstances == InsertedCount(t, repo, rows, |rows|)
    && outcome.insertedInstances == |TakenRows(t.instances, repo, rows, |rows|)|
    && Increasing(outcome.messagePks)
    && (forall x :: x in outcome.messagePks <==> x in ReturnedPks(t, repo, rows))
    && ReportsMessages(outcome.messagePks, repo, rows, after)
    && SkipsKnown(outcome.skippedCommits, t.instances, repo, rows)
  }

  lemma NothingReported(t: Tables, repo: Repo)
    ensures Reported(t, repo, [], BatchOutcome(0, [], []), t.instances)
  {
    assert TakenRows(t.instances, repo, [], 0) == {};
  }

  lemma PlanReports(t: Tables, repo: Repo, rows: seq<CommitRow>, plan: Plan, outcome: BatchOutcome)
    requires PlanFor(plan, t, repo, rows) && outcome.skippedCommits == plan.skipped
    requires outcome.insertedInstances == |Pending(t.instances, repo, rows, |rows|)|
    requires Increasing(outcome.messagePks) && forall x :: x in outcome.messagePks <==> x in plan.pks.Values
    ensures Reported(t, repo, rows, outcome, IngestRows(t, repo, rows, |rows|).instances)
  {
    InsertedIsPending(t, repo, rows, |rows|);
    TakenAreCounted(t, repo, rows, |rows|);
    CommitOutcomes(plan.pks, t, repo, rows);
    ReturnedAreMessages(outcome.messagePks, t, repo, rows);
  }

  lemma BatchIsIngested(t: Tables, repo: Repo, rows: seq<CommitRow>)
    requires Sequenced(t.archive)
    ensures IngestedWell(t, repo, rows, IngestRows(t, repo, rows, |rows|))
    ensures Sequenced(IngestRows(t, repo, rows, |rows|).archive)
  {
    RowsAreIngested(t, repo, rows);
    MessagesAdded(t, repo, rows, |rows|);
    if Consistent(t) {
      IngestRowsKeepsConsistent(t, repo, rows, |rows|);
    }
  }

  lemma OneIsIngested(t: Tables, repo: Repo, row: CommitRow)
    requires Sequenced(t.archive)
    ensures IngestedWell(t, repo, [row], IngestOne(t, repo, row))
  {
    RowsAreIngested(t, repo, [row]);
    assert IngestRows(t, repo, [row], 0) == t;
    assert IngestRows(t, repo, [row], 1) == IngestOne(t, repo, row);
    if Consistent(t) {
      IngestKeepsConsistent(t, repo, row);
    }
  }

  /** What the passes in memory prepare. */
  datatype Plan = Plan(
    pks: map<Oid, int>, skipped: seq<Oid>, bodyRows: seq<BodyCopy>, messageRows: seq<MessageCopy>,
    idRows: seq<IdRow>, instanceRows: seq<InstanceCopy>)

  ghost predicate SkipsKnown(skipped: seq<Oid>, known: Instances, repo: Repo, rows: seq<CommitRow>) {
    && NoDuplicates(skipped)
    && forall o :: o in skipped <==> HasOid(rows, |rows|, o) && InstanceKey(repo.listId, o) in known
  }

  ghost predicate PlanFor(plan: Plan, t: Tables, repo: Repo, rows: seq<CommitRow>) {
    var ps := Pending(t.instances, repo, rows, |rows|);
    var ins := Inserts(t.archive.messages, ps, |ps|);
    && MapsCommits(plan.pks, t, repo, rows) && SkipsKnown(plan.skipped, t.instances, repo, rows)
    && plan.bodyRows == BodyCopies(t.archive, ins) && plan.messageRows == MessageCopies(t.archive, ins)
    && plan.idRows == FlatIdRows(t.archive, ps, |ps|) && plan.instanceRows == InstanceCopies(t.archive, repo, ps)
  }

  lemma InstancesCollideNowhere(t: Tables, repo: Repo, rows: seq<CommitRow>)
    ensures NoInstanceCollision(t.instances,
                                InstanceCopies(t.archive, repo, Pending(t.instances, repo, rows, |rows|)))
  {
    var ps := Pending(t.instances, repo, rows, |rows|);
    PendingFacts(t.instances, repo, rows);
    assert forall i | 0 <= i < |ps| :: ps[i] in ps;
  }

  lemma {:induction false} InsertsFrom(known: map<Hash, MessageRow>, ps: seq<CommitRow>, n: nat, i: nat)
      returns (j: nat)
    requires n <= |ps| && i < |Inserts(known, ps, n)|
    ensures j < n && ps[j] == Inserts(known, ps, n)[i] && IsNewHash(known, ps, j)
  {
    if IsNewHash(known, ps, n - 1) && i == |Inserts(known, ps, n - 1)| {
      j := n - 1;
    } else {
      j := InsertsFrom(known, ps, n - 1, i);
    }
  }

  ghost predicate NewAndDistinct(known: map<Hash, MessageRow>, ins: seq<CommitRow>) {
    && (forall i | 0 <= i < |ins| :: ins[i].message.hash !in known)
    && (forall i, j | 0 <= i < j < |ins| :: ins[i].message.hash != ins[j].message.hash)
  }

  lemma {:induction false} InsertsAreNew(known: map<Hash, MessageRow>, ps: seq<CommitRow>, n: nat)
    requires n <= |ps|
    ensures NewAndDistinct(known, Inserts(known, ps, n))
  {
    if n > 0 {
      InsertsAreNew(known, ps, n - 1);
      var ins := Inserts(known, ps, n - 1);
      forall i: nat | i < |ins| && IsNewHash(known, ps, n - 1)
        ensures ins[i].message.hash != ps[n - 1].message.hash
      {
        var j := InsertsFrom(known, ps, n - 1, i);
      }
    }
  }

  /** Reserved ids and new hashes collide with nothing. */
  lemma CopiesCollideNowhere(a: Archive, ins: seq<CommitRow>)
    requires Sequenced(a) && NewAndDistinct(a.messages, ins)
    ensures NoBodyCollision(a.bodies, BodyCopies(a, ins))
    ensures NoMessageCollision(a.messages, MessageCopies(a, ins))
  {
    assert forall id | id in a.bodies :: id < a.nextBodyId;
  }
}
