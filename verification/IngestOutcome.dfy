/** What a batch reports, against what its rows report one by one. */
module IngestOutcome {
  import opened IngestRefinement
  import opened IngestTables

  /** The rows of the batch without repeated commits. */
  function Firsts(rows: seq<CommitRow>, n: nat): seq<CommitRow>
    requires n <= |rows|
  {
    if n == 0 then []
    else if HasOid(rows, n - 1, rows[n - 1].oid) then Firsts(rows, n - 1)
    else Firsts(rows, n - 1) + [rows[n - 1]]
  }

  function Unknown(known: Instances, repo: Repo, us: seq<CommitRow>, n: nat): seq<CommitRow>
    requires n <= |us|
  {
    if n == 0 then []
    else if KeyOf(repo, us[n - 1]) in known then Unknown(known, repo, us, n - 1)
    else Unknown(known, repo, us, n - 1) + [us[n - 1]]
  }

  lemma {:induction false} UnknownPrefix(known: Instances, repo: Repo, us: seq<CommitRow>, x: CommitRow, n: nat)
    requires n <= |us|
    ensures Unknown(known, repo, us + [x], n) == Unknown(known, repo, us, n)
  {
    if n > 0 {
      UnknownPrefix(known, repo, us, x, n - 1);
    }
  }

  lemma {:induction false} PendingIsUnknownFirsts(known: Instances, repo: Repo, rows: seq<CommitRow>, n: nat)
    requires n <= |rows|
    ensures Pending(known, repo, rows, n) == Unknown(known, repo, Firsts(rows, n), |Firsts(rows, n)|)
  {
    if n > 0 {
      PendingIsUnknownFirsts(known, repo, rows, n - 1);
      UnknownPrefix(known, repo, Firsts(rows, n - 1), rows[n - 1], |Firsts(rows, n - 1)|);
    }
  }

  ghost predicate DistinctOids(us: seq<CommitRow>) {
    forall i, j | 0 <= i < j < |us| :: us[i].oid != us[j].oid
  }

  lemma {:induction false} FirstsFacts(rows: seq<CommitRow>, n: nat)
    requires n <= |rows|
    ensures DistinctOids(Firsts(rows, n))
    ensures forall u | u in Firsts(rows, n) :: u in rows && HasOid(rows, n, u.oid)
  {
    if n > 0 {
      FirstsFacts(rows, n - 1);
      var us := Firsts(rows, n - 1);
      assert forall i | 0 <= i < |us| :: us[i] in us;
    }
  }

  lemma {:induction false} FirstsHaveAll(rows: seq<CommitRow>, n: nat, i: nat)
    requires i < n <= |rows|
    ensures HasOid(Firsts(rows, n), |Firsts(rows, n)|, rows[i].oid)
  {
    var us, vs := Firsts(rows, n - 1), Firsts(rows, n);
    if i < n - 1 {
      FirstsHaveAll(rows, n - 1, i);
      var j: nat :| j < |us| && us[j].oid == rows[i].oid;
      assert vs[j] == us[j];
    } else if HasOid(rows, n - 1, rows[i].oid) {
      var l: nat :| l < n - 1 && rows[l].oid == rows[i].oid;
      FirstsHaveAll(rows, n - 1, l);
    } else {
      assert vs[|us|].oid == rows[i].oid;
    }
  }

  lemma {:induction false} UnknownFacts(known: Instances, repo: Repo, us: seq<CommitRow>, n: nat)
    requires n <= |us|
    ensures forall p | p in Unknown(known, repo, us, n) :: p in us[..n] && KeyOf(repo, p) !in known
    ensures forall i | 0 <= i < n && KeyOf(repo, us[i]) !in known :: us[i] in Unknown(known, repo, us, n)
  {
    if n > 0 {
      UnknownFacts(known, repo, us, n - 1);
      assert us[..n] == us[..n - 1] + [us[n - 1]];
    }
  }

  lemma {:induction false} UnknownDistinct(known: Instances, repo: Repo, us: seq<CommitRow>, n: nat)
    requires n <= |us| && DistinctOids(us)
    ensures DistinctOids(Unknown(known, repo, us, n))
  {
    if n > 0 {
      UnknownDistinct(known, repo, us, n - 1);
      UnknownFacts(known, repo, us, n - 1);
      var ps := Unknown(known, repo, us, n - 1);
      forall i | 0 <= i < |ps|
        ensures ps[i].oid != us[n - 1].oid
      {
        assert ps[i] in us[..n - 1];
      }
    }
  }

  /** Every commit of the batch is known or has exactly one pending row. */
  lemma PendingFacts(known: Instances, repo: Repo, rows: seq<CommitRow>)
    ensures var ps := Pending(known, repo, rows, |rows|);
            && DistinctOids(ps)
            && (forall p | p in ps :: KeyOf(repo, p) !in known && HasOid(rows, |rows|, p.oid))
            && (forall i | 0 <= i < |rows| && KeyOf(repo, rows[i]) !in known :: HasOid(ps, |ps|, rows[i].oid))
  {
    var us, ps := Firsts(rows, |rows|), Pending(known, repo, rows, |rows|);
    PendingIsUnknownFirsts(known, repo, rows, |rows|);
    FirstsFacts(rows, |rows|);
    UnknownFacts(known, repo, us, |us|);
    UnknownDistinct(known, repo, us, |us|);
    forall i | 0 <= i < |rows| && KeyOf(repo, rows[i]) !in known
      ensures HasOid(ps, |ps|, rows[i].oid)
    {
      FirstsHaveAll(rows, |rows|, i);
      var j: nat :| j < |us| && us[j].oid == rows[i].oid;
      assert us[j] in ps;
    }
  }

  // ---- instances never change ----

  lemma {:induction false} InstanceStays(t: Tables, repo: Repo, rows: seq<CommitRow>, n: nat, m: nat, k: InstanceKey)
    requires n <= m <= |rows| && k in IngestRows(t, repo, rows, n).instances
    ensures k in IngestRows(t, repo, rows, m).instances
    ensures IngestRows(t, repo, rows, m).instances[k] == IngestRows(t, repo, rows, n).instances[k]
    decreases m
  {
    if n < m {
      InstanceStays(t, repo, rows, n, m - 1, k);
      var before := IngestRows(t, repo, rows, m - 1);
      assert IngestRows(t, repo, rows, m) == IngestOne(before, repo, rows[m - 1]);
    }
  }

  lemma OneWritesInstance(t: Tables, repo: Repo, row: CommitRow)
    ensures KeyOf(repo, row) in IngestOne(t, repo, row).instances
    ensures IngestOne(t, repo, row).instances[KeyOf(repo, row)].messagePk == OutcomeOfOne(t, repo, row).messagePk
  {
  }

  /** The message reported for a row is the one its commit stays mapped to. */
  lemma OutcomeIsFinal(t: Tables, repo: Repo, rows: seq<CommitRow>, i: nat)
    requires i < |rows|
    ensures var final := IngestRows(t, repo, rows, |rows|).instances;
            && KeyOf(repo, rows[i]) in final
            && OutcomeAt(t, repo, rows, i).messagePk == final[KeyOf(repo, rows[i])].messagePk
  {
    OneWritesInstance(IngestRows(t, repo, rows, i), repo, rows[i]);
    InstanceStays(t, repo, rows, i + 1, |rows|, KeyOf(repo, rows[i]));
  }

  lemma {:induction false} AddInstancesAt(m: Instances, a: Archive, repo: Repo, ps: seq<CommitRow>,
    n: nat, k: InstanceKey)
    requires n <= |ps| && DistinctOids(ps)
    ensures (forall i | 0 <= i < n :: KeyOf(repo, ps[i]) != k) && k in m ==>
              k in AddInstances(m, a, repo, ps, n) && AddInstances(m, a, repo, ps, n)[k] == m[k]
    ensures forall i | 0 <= i < n && KeyOf(repo, ps[i]) == k ::
              && k in AddInstances(m, a, repo, ps, n)
              && AddInstances(m, a, repo, ps, n)[k] == Instance(StoredFor(a, ps, ps[i]).id, repo.id)
  {
    if n > 0 {
      AddInstancesAt(m, a, repo, ps, n - 1, k);
    }
  }

  /** The batch inserts one instance per pending row, as the rows do one by one. */
  lemma {:induction false} InsertedIsPending(t: Tables, repo: Repo, rows: seq<CommitRow>, n: nat)
    requires n <= |rows|
    ensures InsertedCount(t, repo, rows, n) == |Pending(t.instances, repo, rows, n)|
  {
    if n > 0 {
      InsertedIsPending(t, repo, rows, n - 1);
      InstanceKeysAfter(t, repo, rows, n - 1, rows[n - 1].oid);
    }
  }

  /** `message_pk_by_commit`: for every commit of the batch the message it belongs to. */
  ghost predicate MapsCommits(pks: map<Oid, int>, t: Tables, repo: Repo, rows: seq<CommitRow>) {
    var ps := Pending(t.instances, repo, rows, |rows|);
    && (forall o | o in pks :: HasOid(rows, |rows|, o))
    && (forall i | 0 <= i < |rows| :: rows[i].oid in pks)
    && (forall p | p in ps :: p.oid in pks && pks[p.oid] == StoredFor(t.archive, ps, p).id)
    && (forall o | o in pks && InstanceKey(repo.listId, o) in t.instances ::
          pks[o] == t.instances[InstanceKey(repo.listId, o)].messagePk)
  }

  lemma FinalInstances(t: Tables, repo: Repo, rows: seq<CommitRow>)
    ensures var ps := Pending(t.instances, repo, rows, |rows|);
            IngestRows(t, repo, rows, |rows|).instances == AddInstances(t.instances, t.archive, repo, ps, |ps|)
  {
    var ps := Pending(t.instances, repo, rows, |rows|);
    OnlyPendingMatter(t, repo, rows, |rows|);
    TablesComeApart(t, repo, ps, |ps|);
  }

  lemma InstanceOfCommit(t: Tables, repo: Repo, ps: seq<CommitRow>, oid: Oid)
    requires DistinctOids(ps) && forall p | p in ps :: KeyOf(repo, p) !in t.instances
    ensures var k, final := InstanceKey(repo.listId, oid), AddInstances(t.instances, t.archive, repo, ps, |ps|);
            && (k in t.instances ==> k in final && final[k] == t.instances[k])
            && (forall i | 0 <= i < |ps| && ps[i].oid == oid ::
                  k in final && final[k].messagePk == StoredFor(t.archive, ps, ps[i]).id)
  {
    AddInstancesAt(t.instances, t.archive, repo, ps, |ps|, InstanceKey(repo.listId, oid));
    assert forall i | 0 <= i < |ps| :: ps[i] in ps;
  }

  lemma CommitOutcome(pks: map<Oid, int>, t: Tables, repo: Repo, rows: seq<CommitRow>, i: nat)
    requires MapsCommits(pks, t, repo, rows) && i < |rows|
    ensures pks[rows[i].oid] == OutcomeAt(t, repo, rows, i).messagePk
  {
    var ps := Pending(t.instances, repo, rows, |rows|);
    OutcomeIsFinal(t, repo, rows, i);
    FinalInstances(t, repo, rows);
    PendingFacts(t.instances, repo, rows);
    InstanceOfCommit(t, repo, ps, rows[i].oid);
    if KeyOf(repo, rows[i]) !in t.instances {
      var l: nat :| l < |ps| && ps[l].oid == rows[i].oid;
      assert ps[l] in ps;
    }
  }

  lemma CommitOutcomes(pks: map<Oid, int>, t: Tables, repo: Repo, rows: seq<CommitRow>)
    requires MapsCommits(pks, t, repo, rows)
    ensures pks.Values == ReturnedPks(t, repo, rows)
  {
    forall i: nat | i < |rows|
      ensures OutcomeAt(t, repo, rows, i).messagePk in pks.Values
    {
      CommitOutcome(pks, t, repo, rows, i);
    }
    forall o | o in pks
      ensures pks[o] in ReturnedPks(t, repo, rows)
    {
      var i: nat :| i < |rows| && rows[i].oid == o;
      CommitOutcome(pks, t, repo, rows, i);
    }
  }
}
