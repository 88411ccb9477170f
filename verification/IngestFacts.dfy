/** What ingesting rows leaves in every table, said of the tables before and after and of the
    fields of the rows. */
module IngestFacts {
  import opened IngestOutcome
  import opened IngestRefinement
  import opened IngestTables

  /** The first row of a commit that the list does not have. */
  ghost predicate Taken(known: Instances, repo: Repo, rows: seq<CommitRow>, i: nat) {
    && i < |rows| && InstanceKey(repo.listId, rows[i].oid) !in known
    && forall j | 0 <= j < i :: rows[j].oid != rows[i].oid
  }

  ghost predicate TakenWithHash(known: Instances, repo: Repo, rows: seq<CommitRow>, i: nat, h: Hash) {
    Taken(known, repo, rows, i) && rows[i].message.hash == h
  }

  ghost predicate FirstWithHash(known: Instances, repo: Repo, rows: seq<CommitRow>, i: nat, h: Hash) {
    TakenWithHash(known, repo, rows, i, h) && forall j: nat | j < i :: !TakenWithHash(known, repo, rows, j, h)
  }

  // ---- messages and bodies ----

  /** The message has the columns of `p` and leads to the body of `p`; both are new. */
  ghost predicate StoredAs(before: Archive, after: Archive, p: Parsed) {
    && p.hash in after.messages && p.hash !in before.messages
    && var m := after.messages[p.hash];
       && m.header == p.header && m.messageIds == p.messageIds && m.primary == p.primary
       && m.bodyId in after.bodies && after.bodies[m.bodyId] == p.body && m.bodyId !in before.bodies
       && forall h | h in before.messages :: before.messages[h].id != m.id
  }

  ghost predicate NothingLost(before: Archive, after: Archive) {
    && (forall h | h in before.messages :: h in after.messages && after.messages[h] == before.messages[h])
    && (forall b | b in before.bodies :: b in after.bodies && after.bodies[b] == before.bodies[b])
  }

  /** The first `n` rows add a message and its body for every hash that is new, those of the
      first row with that hash, and nothing else. */
  ghost predicate AddsMessages(t: Tables, repo: Repo, rows: seq<CommitRow>, n: nat, after: Archive) {
    var a := t.archive;
    && NothingLost(a, after)
    && (forall h | h in after.messages && h !in a.messages ::
          exists i: nat :: i < n && FirstWithHash(t.instances, repo, rows, i, h))
    && (forall i: nat, h | i < n && FirstWithHash(t.instances, repo, rows, i, h) && h !in a.messages ::
          StoredAs(a, after, rows[i].message))
    && (forall b | b in after.bodies && b !in a.bodies ::
          exists h :: h in after.messages && h !in a.messages && after.messages[h].bodyId == b)
  }

  lemma TakenExactly(t: Tables, repo: Repo, rows: seq<CommitRow>, n: nat)
    requires n < |rows|
    ensures KeyOf(repo, rows[n]) !in IngestRows(t, repo, rows, n).instances <==> Taken(t.instances, repo, rows, n)
  {
    InstanceKeysAfter(t, repo, rows, n, rows[n].oid);
  }

  lemma {:induction false} FirstExists(known: Instances, repo: Repo, rows: seq<CommitRow>, i: nat, h: Hash)
      returns (f: nat)
    requires TakenWithHash(known, repo, rows, i, h)
    ensures f <= i && FirstWithHash(known, repo, rows, f, h)
  {
    f := i;
    if !FirstWithHash(known, repo, rows, i, h) {
      var j: nat :| j < i && TakenWithHash(known, repo, rows, j, h);
      f := FirstExists(known, repo, rows, j, h);
    }
  }

  lemma TakenIsStored(t: Tables, repo: Repo, rows: seq<CommitRow>, n: nat, after: Archive, i: nat, h: Hash)
    requires AddsMessages(t, repo, rows, n, after) && i < n && TakenWithHash(t.instances, repo, rows, i, h)
    ensures h in after.messages
  {
    if h !in t.archive.messages {
      var f := FirstExists(t.instances, repo, rows, i, h);
      assert StoredAs(t.archive, after, rows[f].message);
    }
  }

  lemma StoredIsNotFirst(t: Tables, repo: Repo, rows: seq<CommitRow>, n: nat, after: Archive, h: Hash)
    requires AddsMessages(t, repo, rows, n, after) && h in after.messages && h !in t.archive.messages
    ensures !FirstWithHash(t.instances, repo, rows, n, h)
  {
    var i: nat :| i < n && FirstWithHash(t.instances, repo, rows, i, h);
    assert TakenWithHash(t.instances, repo, rows, i, h);
  }

  /** A row that adds no message. */
  lemma AddsNothingMore(t: Tables, repo: Repo, rows: seq<CommitRow>, n: nat, after: Archive)
    requires n < |rows| && AddsMessages(t, repo, rows, n, after)
    requires Taken(t.instances, repo, rows, n) ==> rows[n].message.hash in after.messages
    ensures AddsMessages(t, repo, rows, n + 1, after)
  {
    forall i: nat, h | i < n + 1 && FirstWithHash(t.instances, repo, rows, i, h) && h !in t.archive.messages
      ensures StoredAs(t.archive, after, rows[i].message)
    {
      if h in after.messages {
        StoredIsNotFirst(t, repo, rows, n, after, h);
      }
    }
  }

  /** One message and its body are added under new ids. */
  ghost predicate AddsOne(before: Archive, after: Archive, p: Parsed) {
    && StoredAs(before, after, p) && NothingLost(before, after)
    && (forall h | h in after.messages :: h in before.messages || h == p.hash)
    && (forall b | b in after.bodies :: b in before.bodies || b == after.messages[p.hash].bodyId)
  }

  lemma EnsureAddsOne(before: Archive, p: Parsed)
    requires Sequenced(before) && p.hash !in before.messages
    ensures AddsOne(before, EnsureMessage(before, p), p) && Sequenced(EnsureMessage(before, p))
  {
  }

  lemma StillStored(a: Archive, before: Archive, after: Archive, p: Parsed)
    requires StoredAs(a, before, p) && NothingLost(before, after)
    ensures StoredAs(a, after, p)
  {
  }

  lemma NowStored(a: Archive, before: Archive, after: Archive, p: Parsed)
    requires NothingLost(a, before) && StoredAs(before, after, p)
    ensures StoredAs(a, after, p)
  {
  }

  lemma NewIsFirst(t: Tables, repo: Repo, rows: seq<CommitRow>, n: nat, before: Archive)
    requires AddsMessages(t, repo, rows, n, before) && Taken(t.instances, repo, rows, n)
    requires rows[n].message.hash !in before.messages
    ensures FirstWithHash(t.instances, repo, rows, n, rows[n].message.hash)
  {
    var h := rows[n].message.hash;
    forall j: nat | j < n
      ensures !TakenWithHash(t.instances, repo, rows, j, h)
    {
      if TakenWithHash(t.instances, repo, rows, j, h) {
        TakenIsStored(t, repo, rows, n, before, j, h);
      }
    }
  }

  lemma StoredSoFar(t: Tables, repo: Repo, rows: seq<CommitRow>, n: nat, before: Archive, after: Archive,
                    i: nat, h: Hash)
    requires AddsMessages(t, repo, rows, n, before) && n < |rows| && AddsOne(before, after, rows[n].message)
    requires i < n + 1 && FirstWithHash(t.instances, repo, rows, i, h) && h !in t.archive.messages
    ensures StoredAs(t.archive, after, rows[i].message)
  {
    if i < n {
      StillStored(t.archive, before, after, rows[i].message);
    } else {
      NowStored(t.archive, before, after, rows[i].message);
    }
  }

  lemma AddsOneMore(t: Tables, repo: Repo, rows: seq<CommitRow>, n: nat, before: Archive, after: Archive)
    requires n < |rows| && AddsMessages(t, repo, rows, n, before) && AddsOne(before, after, rows[n].message)
    requires Taken(t.instances, repo, rows, n)
    ensures AddsMessages(t, repo, rows, n + 1, after)
  {
    NewIsFirst(t, repo, rows, n, before);
    forall i: nat, h | i < n + 1 && FirstWithHash(t.instances, repo, rows, i, h) && h !in t.archive.messages
      ensures StoredAs(t.archive, after, rows[i].message)
    {
      StoredSoFar(t, repo, rows, n, before, after, i, h);
    }
  }

  ghost predicate MessagesOk(t: Tables, repo: Repo, rows: seq<CommitRow>, n: nat, after: Tables) {
    AddsMessages(t, repo, rows, n, after.archive) && Sequenced(after.archive)
  }

  /** The tables before and after the row in front of position `n`. */
  ghost predicate IsStep(t: Tables, repo: Repo, rows: seq<CommitRow>, n: nat, before: Tables, after: Tables) {
    && 1 <= n <= |rows|
    && var p, key := rows[n - 1].message, KeyOf(repo, rows[n - 1]);
       if Taken(t.instances, repo, rows, n - 1) then
         && key !in before.instances && after.archive == EnsureMessage(before.archive, p)
         && after.idMap == UpsertMessageIds(before.idMap, p, after.archive.messages[p.hash])
         && after.instances == before.instances[key := Instance(after.archive.messages[p.hash].id, repo.id)]
       else after == before
  }

  lemma StepAt(t: Tables, repo: Repo, rows: seq<CommitRow>, n: nat)
    requires 1 <= n <= |rows|
    ensures IsStep(t, repo, rows, n, IngestRows(t, repo, rows, n - 1), IngestRows(t, repo, rows, n))
  {
    TakenExactly(t, repo, rows, n - 1);
  }

  lemma MessagesStep(t: Tables, repo: Repo, rows: seq<CommitRow>, n: nat, before: Tables, after: Tables)
    requires IsStep(t, repo, rows, n, before, after) && MessagesOk(t, repo, rows, n - 1, before)
    ensures MessagesOk(t, repo, rows, n, after) && NothingLost(before.archive, after.archive)
  {
    var row := rows[n - 1];
    if Taken(t.instances, repo, rows, n - 1) && row.message.hash !in before.archive.messages {
      EnsureAddsOne(before.archive, row.message);
      AddsOneMore(t, repo, rows, n - 1, before.archive, after.archive);
    } else {
      AddsNothingMore(t, repo, rows, n - 1, before.archive);
    }
  }

  ghost predicate MessagesSoFar(t: Tables, repo: Repo, rows: seq<CommitRow>, n: nat)
    requires n <= |rows|
  {
    MessagesOk(t, repo, rows, n, IngestRows(t, repo, rows, n))
  }

  lemma MessagesStepAt(t: Tables, repo: Repo, rows: seq<CommitRow>, n: nat)
    requires 1 <= n <= |rows| && MessagesSoFar(t, repo, rows, n - 1)
    ensures MessagesSoFar(t, repo, rows, n)
  {
    StepAt(t, repo, rows, n);
    MessagesStep(t, repo, rows, n, IngestRows(t, repo, rows, n - 1), IngestRows(t, repo, rows, n));
  }

  lemma NoMessagesYet(t: Tables, repo: Repo, rows: seq<CommitRow>)
    requires Sequenced(t.archive)
    ensures MessagesSoFar(t, repo, rows, 0)
  {
  }

  lemma {:induction false} MessagesAdded(t: Tables, repo: Repo, rows: seq<CommitRow>, n: nat)
    requires n <= |rows| && Sequenced(t.archive)
    ensures MessagesSoFar(t, repo, rows, n)
    decreases n
  {
    if n == 0 {
      NoMessagesYet(t, repo, rows);
    } else {
      MessagesAdded(t, repo, rows, n - 1);
      MessagesStepAt(t, repo, rows, n);
    }
  }

  // ---- message ids ----

  /** The row lists the id for the message that its content is stored as. */
  ghost predicate Lists(t: Tables, repo: Repo, rows: seq<CommitRow>, i: nat, after: Archive, k: IdKey) {
    && Taken(t.instances, repo, rows, i) && k.messageId in rows[i].message.messageIds
    && rows[i].message.hash in after.messages && after.messages[rows[i].message.hash].id == k.messagePk
  }

  ghost predicate ListsPrimary(t: Tables, repo: Repo, rows: seq<CommitRow>, i: nat, after: Archive, k: IdKey) {
    Lists(t, repo, rows, i, after, k) && after.messages[rows[i].message.hash].primary == k.messageId
  }

  /** The ids of the first `n` rows are known; one is flagged if it was, or if it is listed and
      is the primary id of its message. */
  ghost predicate AddsId(t: Tables, repo: Repo, rows: seq<CommitRow>, n: nat, after: Tables, k: IdKey) {
    && (k in after.idMap <==> k in t.idMap || exists i: nat :: i < n && Lists(t, repo, rows, i, after.archive, k))
    && (k in after.idMap ==>
          (after.idMap[k] <==>
             || (k in t.idMap && t.idMap[k])
             || exists i: nat :: i < n && ListsPrimary(t, repo, rows, i, after.archive, k)))
  }

  ghost predicate IdsSoFar(t: Tables, repo: Repo, rows: seq<CommitRow>, n: nat)
    requires n <= |rows|
  {
    forall k :: AddsId(t, repo, rows, n, IngestRows(t, repo, rows, n), k)
  }

  lemma ListedByRow(m: IdMap, p: Parsed, stored: MessageRow, k: IdKey)
    ensures var after := UpsertMessageIds(m, p, stored);
            && (k in after <==> k in m || (k.messagePk == stored.id && k.messageId in p.messageIds))
            && (k in after ==>
                  (after[k] <==> (k in m && m[k])
                                 || (k.messagePk == stored.id && k.messageId in p.messageIds
                                     && k.messageId == stored.primary)))
  {
    var rows := IdRowsOf(p.messageIds, stored);
    UpsertAt(m, rows, |rows|, k);
    if k.messagePk == stored.id && k.messageId in p.messageIds {
      var i: nat :| i < |p.messageIds| && p.messageIds[i] == k.messageId;
      assert rows[i].key == k;
    }
  }

  lemma StillLists(t: Tables, repo: Repo, rows: seq<CommitRow>, i: nat, before: Archive, after: Archive, k: IdKey)
    requires NothingLost(before, after) && i < |rows|
    requires Taken(t.instances, repo, rows, i) ==> rows[i].message.hash in before.messages
    ensures Lists(t, repo, rows, i, before, k) <==> Lists(t, repo, rows, i, after, k)
    ensures ListsPrimary(t, repo, rows, i, before, k) <==> ListsPrimary(t, repo, rows, i, after, k)
  {
  }

  /** What earlier rows list stays the same when the archive grows. */
  lemma EarlierLists(t: Tables, repo: Repo, rows: seq<CommitRow>, n: nat, before: Tables, after: Archive, k: IdKey)
    requires n <= |rows| && AddsMessages(t, repo, rows, n, before.archive) && NothingLost(before.archive, after)
    requires AddsId(t, repo, rows, n, before, k)
    ensures AddsId(t, repo, rows, n, before.(archive := after), k)
  {
    forall i: nat | i < n
      ensures Lists(t, repo, rows, i, before.archive, k) <==> Lists(t, repo, rows, i, after, k)
      ensures ListsPrimary(t, repo, rows, i, before.archive, k) <==> ListsPrimary(t, repo, rows, i, after, k)
    {
      if Taken(t.instances, repo, rows, i) {
        TakenIsStored(t, repo, rows, n, before.archive, i, rows[i].message.hash);
      }
      StillLists(t, repo, rows, i, before.archive, after, k);
    }
  }

  lemma RowLists(t: Tables, repo: Repo, rows: seq<CommitRow>, n: nat, after: Archive, k: IdKey)
    requires n < |rows| && Taken(t.instances, repo, rows, n) && rows[n].message.hash in after.messages
    ensures var stored := after.messages[rows[n].message.hash];
            && (Lists(t, repo, rows, n, after, k)
                <==> k.messagePk == stored.id && k.messageId in rows[n].message.messageIds)
            && (ListsPrimary(t, repo, rows, n, after, k)
                <==> k.messagePk == stored.id && k.messageId in rows[n].message.messageIds
                     && k.messageId == stored.primary)
  {
  }

  lemma AddsIdMore(t: Tables, repo: Repo, rows: seq<CommitRow>, n: nat, before: Tables, after: Tables, k: IdKey)
    requires n < |rows| && AddsId(t, repo, rows, n, before.(archive := after.archive), k)
    requires if Taken(t.instances, repo, rows, n) then
               rows[n].message.hash in after.archive.messages
               && after.idMap == UpsertMessageIds(before.idMap, rows[n].message,
                                                  after.archive.messages[rows[n].message.hash])
             else after.idMap == before.idMap
    ensures AddsId(t, repo, rows, n + 1, after, k)
  {
    if Taken(t.instances, repo, rows, n) {
      ListedByRow(before.idMap, rows[n].message, after.archive.messages[rows[n].message.hash], k);
      RowLists(t, repo, rows, n, after.archive, k);
    }
  }

  lemma IdsStep(t: Tables, repo: Repo, rows: seq<CommitRow>, n: nat, before: Tables, after: Tables, k: IdKey)
    requires IsStep(t, repo, rows, n, before, after) && MessagesOk(t, repo, rows, n - 1, before)
    requires AddsId(t, repo, rows, n - 1, before, k)
    ensures AddsId(t, repo, rows, n, after, k)
  {
    hide AddsId, AddsMessages, NothingLost;
    MessagesStep(t, repo, rows, n, before, after);
    EarlierLists(t, repo, rows, n - 1, before, after.archive, k);
    AddsIdMore(t, repo, rows, n - 1, before, after, k);
  }

  lemma IdsStepAt(t: Tables, repo: Repo, rows: seq<CommitRow>, n: nat)
    requires 1 <= n <= |rows| && IdsSoFar(t, repo, rows, n - 1) && MessagesSoFar(t, repo, rows, n - 1)
    ensures IdsSoFar(t, repo, rows, n)
  {
    StepAt(t, repo, rows, n);
    forall k
      ensures AddsId(t, repo, rows, n, IngestRows(t, repo, rows, n), k)
    {
      IdsStep(t, repo, rows, n, IngestRows(t, repo, rows, n - 1), IngestRows(t, repo, rows, n), k);
    }
  }

  lemma NoIdsYet(t: Tables, repo: Repo, rows: seq<CommitRow>)
    requires Sequenced(t.archive)
    ensures IdsSoFar(t, repo, rows, 0)
  {
  }

  lemma {:induction false} IdsAdded(t: Tables, repo: Repo, rows: seq<CommitRow>, n: nat)
    requires n <= |rows| && Sequenced(t.archive)
    ensures IdsSoFar(t, repo, rows, n)
    decreases n
  {
    if n == 0 {
      NoIdsYet(t, repo, rows);
    } else {
      IdsAdded(t, repo, rows, n - 1);
      MessagesAdded(t, repo, rows, n - 1);
      IdsStepAt(t, repo, rows, n);
    }
  }

  // ---- instances ----

  ghost predicate CommitOf(t: Tables, repo: Repo, rows: seq<CommitRow>, i: nat, key: InstanceKey) {
    Taken(t.instances, repo, rows, i) && key.listId == repo.listId && key.oid == rows[i].oid
  }

  /** The commits of the first `n` rows belong to the message their content is stored as; those
      that were known stay as they were. */
  ghost predicate AddsInstance(t: Tables, repo: Repo, rows: seq<CommitRow>, n: nat, after: Tables, key: InstanceKey) {
    && (key in after.instances <==>
          key in t.instances || exists i: nat :: i < n && CommitOf(t, repo, rows, i, key))
    && (key in t.instances ==> key in after.instances && after.instances[key] == t.instances[key])
    && (forall i: nat | i < n && CommitOf(t, repo, rows, i, key) ::
          && key in after.instances && rows[i].message.hash in after.archive.messages
          && after.instances[key].messagePk == after.archive.messages[rows[i].message.hash].id
          && after.instances[key].repoId == repo.id)
  }

  ghost predicate InstancesSoFar(t: Tables, repo: Repo, rows: seq<CommitRow>, n: nat)
    requires n <= |rows|
  {
    forall key :: AddsInstance(t, repo, rows, n, IngestRows(t, repo, rows, n), key)
  }

  lemma StillAdds(t: Tables, repo: Repo, rows: seq<CommitRow>, n: nat, before: Tables, archive: Archive,
                  key: InstanceKey)
    requires AddsInstance(t, repo, rows, n, before, key) && NothingLost(before.archive, archive)
    ensures AddsInstance(t, repo, rows, n, before.(archive := archive), key)
  {
  }

  lemma AddsInstanceMore(t: Tables, repo: Repo, rows: seq<CommitRow>, n: nat, before: Tables, after: Tables,
                         key: InstanceKey)
    requires AddsInstance(t, repo, rows, n, before.(archive := after.archive), key)
    requires n < |rows| && Taken(t.instances, repo, rows, n) && rows[n].message.hash in after.archive.messages
    requires KeyOf(repo, rows[n]) !in before.instances
    requires after.instances == before.instances[KeyOf(repo, rows[n]) :=
                                  Instance(after.archive.messages[rows[n].message.hash].id, repo.id)]
    ensures AddsInstance(t, repo, rows, n + 1, after, key)
  {
    assert CommitOf(t, repo, rows, n, key) <==> key == KeyOf(repo, rows[n]);
  }

  lemma InstancesStep(t: Tables, repo: Repo, rows: seq<CommitRow>, n: nat, before: Tables, after: Tables,
                      key: InstanceKey)
    requires IsStep(t, repo, rows, n, before, after) && MessagesOk(t, repo, rows, n - 1, before)
    requires AddsInstance(t, repo, rows, n - 1, before, key)
    ensures AddsInstance(t, repo, rows, n, after, key)
  {
    MessagesStep(t, repo, rows, n, before, after);
    StillAdds(t, repo, rows, n - 1, before, after.archive, key);
    if Taken(t.instances, repo, rows, n - 1) {
      hide AddsInstance, AddsMessages, NothingLost, Sequenced;
      AddsInstanceMore(t, repo, rows, n - 1, before, after, key);
    }
  }

  lemma InstancesStepAt(t: Tables, repo: Repo, rows: seq<CommitRow>, n: nat)
    requires 1 <= n <= |rows| && InstancesSoFar(t, repo, rows, n - 1) && MessagesSoFar(t, repo, rows, n - 1)
    ensures InstancesSoFar(t, repo, rows, n)
  {
    StepAt(t, repo, rows, n);
    forall key
      ensures AddsInstance(t, repo, rows, n, IngestRows(t, repo, rows, n), key)
    {
      InstancesStep(t, repo, rows, n, IngestRows(t, repo, rows, n - 1), IngestRows(t, repo, rows, n), key);
    }
  }

  lemma NoInstancesYet(t: Tables, repo: Repo, rows: seq<CommitRow>)
    requires Sequenced(t.archive)
    ensures InstancesSoFar(t, repo, rows, 0)
  {
  }

  lemma {:induction false} InstancesAdded(t: Tables, repo: Repo, rows: seq<CommitRow>, n: nat)
    requires n <= |rows| && Sequenced(t.archive)
    ensures InstancesSoFar(t, repo, rows, n)
    decreases n
  {
    if n == 0 {
      NoInstancesYet(t, repo, rows);
    } else {
      InstancesAdded(t, repo, rows, n - 1);
      MessagesAdded(t, repo, rows, n - 1);
      InstancesStepAt(t, repo, rows, n);
    }
  }

  // ---- all tables ----

  /** What ingesting rows does to the tables. */
  ghost predicate Ingested(t: Tables, repo: Repo, rows: seq<CommitRow>, after: Tables) {
    && AddsMessages(t, repo, rows, |rows|, after.archive)
    && (forall k :: AddsId(t, repo, rows, |rows|, after, k))
    && (forall key :: AddsInstance(t, repo, rows, |rows|, after, key))
  }

  lemma RowsAreIngested(t: Tables, repo: Repo, rows: seq<CommitRow>)
    requires Sequenced(t.archive)
    ensures Ingested(t, repo, rows, IngestRows(t, repo, rows, |rows|))
  {
    MessagesAdded(t, repo, rows, |rows|);
    IdsAdded(t, repo, rows, |rows|);
    InstancesAdded(t, repo, rows, |rows|);
  }

  // ---- what is reported ----

  ghost function TakenRows(known: Instances, repo: Repo, rows: seq<CommitRow>, n: nat): set<nat> {
    set i: nat | i < n && Taken(known, repo, rows, i)
  }

  lemma TakenRowsStep(known: Instances, repo: Repo, rows: seq<CommitRow>, n: nat)
    requires 1 <= n <= |rows|
    ensures |TakenRows(known, repo, rows, n)|
            == |TakenRows(known, repo, rows, n - 1)| + if Taken(known, repo, rows, n - 1) then 1 else 0
  {
    var before := TakenRows(known, repo, rows, n - 1);
    assert TakenRows(known, repo, rows, n) == before + if Taken(known, repo, rows, n - 1) then {n - 1} else {};
  }

  lemma {:induction false} TakenAreCounted(t: Tables, repo: Repo, rows: seq<CommitRow>, n: nat)
    requires n <= |rows|
    ensures InsertedCount(t, repo, rows, n) == |TakenRows(t.instances, repo, rows, n)|
    decreases n
  {
    if n == 0 {
      assert TakenRows(t.instances, repo, rows, 0) == {};
    } else {
      TakenAreCounted(t, repo, rows, n - 1);
      TakenExactly(t, repo, rows, n - 1);
      TakenRowsStep(t.instances, repo, rows, n);
    }
  }

  /** The reported messages are those that the commits of the rows belong to afterwards. */
  ghost predicate ReportsMessages(pks: seq<int>, repo: Repo, rows: seq<CommitRow>, after: Instances) {
    && (forall i | 0 <= i < |rows| :: InstanceKey(repo.listId, rows[i].oid) in after)
    && (forall x :: x in pks <==>
          exists i: nat :: i < |rows| && InstanceKey(repo.listId, rows[i].oid) in after
                           && after[InstanceKey(repo.listId, rows[i].oid)].messagePk == x)
  }

  lemma ReturnedAreMessages(pks: seq<int>, t: Tables, repo: Repo, rows: seq<CommitRow>)
    requires forall x :: x in pks <==> x in ReturnedPks(t, repo, rows)
    ensures ReportsMessages(pks, repo, rows, IngestRows(t, repo, rows, |rows|).instances)
  {
    var after := IngestRows(t, repo, rows, |rows|).instances;
    forall i: nat | i < |rows|
      ensures InstanceKey(repo.listId, rows[i].oid) in after
      ensures OutcomeAt(t, repo, rows, i).messagePk == after[InstanceKey(repo.listId, rows[i].oid)].messagePk
    {
      OutcomeIsFinal(t, repo, rows, i);
    }
  }
}
