/** `expand_ancestor_closure_cached`: the messages that a set of messages refers to, directly
    or not, found by a worklist over positive and negative caches. */
module AncestorClosure {
  import opened Sorting
  import opened Text

  datatype Message = Message(pk: int, references: seq<string>, inReplyTo: seq<string>)

  /** A row of `message_id_map` whose message is on the list. */
  datatype IdRow = IdRow(messageId: string, pk: int, isPrimary: bool)

  /** What the database holds for one mailing list. */
  datatype Database = Database(messages: map<int, Message>, ids: set<IdRow>)

  /** Rows are kept under their own key. */
  ghost predicate Keyed(db: Database) {
    forall pk | pk in db.messages :: db.messages[pk].pk == pk
  }

  // ---- resolving a message id ----

  predicate Precedes(a: IdRow, b: IdRow) {
    if a.isPrimary != b.isPrimary then a.isPrimary else a.pk <= b.pk
  }

  /** `DISTINCT ON (message_id) ... ORDER BY message_id, is_primary DESC, message_pk` */
  ghost predicate Picks(db: Database, r: IdRow) {
    r in db.ids && forall q | q in db.ids && q.messageId == r.messageId :: Precedes(r, q)
  }

  ghost predicate Resolves(db: Database, id: string, pk: int) {
    exists r :: Picks(db, r) && r.messageId == id && r.pk == pk
  }

  lemma ResolvesOnce(db: Database, id: string, pk: int, pk': int)
    requires Resolves(db, id, pk) && Resolves(db, id, pk')
    ensures pk == pk'
  {
    var r :| Picks(db, r) && r.messageId == id && r.pk == pk;
    var q :| Picks(db, q) && q.messageId == id && q.pk == pk';
    assert Precedes(r, q) && Precedes(q, r);
  }

  ghost predicate HasRow(db: Database, id: string, pk: int, primary: bool) {
    IdRow(id, pk, primary) in db.ids
  }

  ghost predicate LeastPrimary(db: Database, id: string, pk: int) {
    HasRow(db, id, pk, true) && forall q | HasRow(db, id, q, true) :: pk <= q
  }

  /** Every id with a primary row stands for the primary row of the least message; any other
      id for the row of the least message. */
  ghost predicate StandsFor(db: Database, id: string, pk: int) {
    if exists q :: HasRow(db, id, q, true) then LeastPrimary(db, id, pk)
    else HasRow(db, id, pk, false) && forall q | HasRow(db, id, q, false) :: pk <= q
  }

  lemma ResolvesExactly(db: Database, id: string, pk: int)
    ensures Resolves(db, id, pk) <==> StandsFor(db, id, pk)
  {
    if Resolves(db, id, pk) {
      var r :| Picks(db, r) && r.messageId == id && r.pk == pk;
      assert r == IdRow(id, pk, r.isPrimary);
      forall q, primary | HasRow(db, id, q, primary)
        ensures Precedes(r, IdRow(id, q, primary))
      {
      }
    }
    if StandsFor(db, id, pk) {
      var r := IdRow(id, pk, exists q :: HasRow(db, id, q, true));
      forall q | q in db.ids && q.messageId == id
        ensures Precedes(r, q)
      {
        assert q == IdRow(id, q.pk, q.isPrimary) && HasRow(db, id, q.pk, q.isPrimary);
      }
      assert Picks(db, r);
    }
  }

  // ---- the closure ----

  /** The ids that a message is expanded by. */
  function Lookups(m: Message): seq<string> {
    if m.references != [] then m.references
    else if m.inReplyTo != [] then [m.inReplyTo[0]]
    else []
  }

  ghost predicate RefersTo(db: Database, m: Message, q: int) {
    exists id :: id in Lookups(m) && Trim(id) != "" && Resolves(db, Trim(id), q)
  }

  /** Row ids that are not positive are never looked up. */
  ghost predicate Expands(db: Database, pk: int, q: int) {
    pk > 0 && pk in db.messages && RefersTo(db, db.messages[pk], q)
  }

  ghost predicate Closed(db: Database, s: set<int>) {
    forall pk, q | pk in s && Expands(db, pk, q) :: q in s
  }

  function Seeds(seeds: seq<int>): set<int> {
    set pk | pk in seeds && pk > 0
  }

  /** The least set that contains the positive seeds and is closed. */
  ghost predicate IsClosure(db: Database, seeds: seq<int>, k: set<int>) {
    && Seeds(seeds) <= k && Closed(db, k)
    && forall s | Seeds(seeds) <= s && Closed(db, s) :: k <= s
  }

  /** One message names another by a reference; by its first in-reply-to id only if it has no
      references at all. */
  ghost predicate Names(db: Database, pk: int, q: int) {
    && pk > 0 && pk in db.messages
    && var m := db.messages[pk];
       exists id {:trigger Trim(id)} ::
         && Trim(id) != "" && StandsFor(db, Trim(id), q)
         && (id in m.references || (m.references == [] && |m.inReplyTo| > 0 && id == m.inReplyTo[0]))
  }

  lemma ExpandsExactly(db: Database, pk: int, q: int)
    ensures Expands(db, pk, q) <==> Names(db, pk, q)
  {
    if Expands(db, pk, q) {
      var id :| id in Lookups(db.messages[pk]) && Trim(id) != "" && Resolves(db, Trim(id), q);
      ResolvesExactly(db, Trim(id), q);
    }
    if Names(db, pk, q) {
      var m := db.messages[pk];
      var id {:trigger Trim(id)} :|
        && Trim(id) != "" && StandsFor(db, Trim(id), q)
        && (id in m.references || (m.references == [] && |m.inReplyTo| > 0 && id == m.inReplyTo[0]));
      ResolvesExactly(db, Trim(id), q);
      assert id in Lookups(m);
    }
  }

  ghost predicate HasSeeds(seeds: seq<int>, s: set<int>) {
    forall i | 0 <= i < |seeds| && seeds[i] > 0 :: seeds[i] in s
  }

  ghost predicate HasAllNamed(db: Database, s: set<int>) {
    forall pk, q | pk in s && Names(db, pk, q) :: q in s
  }

  /** The least set of messages with the positive seeds and everything its messages name. */
  ghost predicate IsLeast(db: Database, seeds: seq<int>, k: set<int>) {
    && HasSeeds(seeds, k) && HasAllNamed(db, k)
    && forall s | HasSeeds(seeds, s) && HasAllNamed(db, s) :: k <= s
  }

  lemma ClosedExactly(db: Database, s: set<int>)
    ensures Closed(db, s) <==> HasAllNamed(db, s)
  {
    forall pk, q
      ensures Expands(db, pk, q) <==> Names(db, pk, q)
    {
      ExpandsExactly(db, pk, q);
    }
  }

  lemma SeedsExactly(seeds: seq<int>, s: set<int>)
    ensures Seeds(seeds) <= s <==> HasSeeds(seeds, s)
  {
  }

  lemma ClosureIsLeast(db: Database, seeds: seq<int>, k: set<int>)
    requires IsClosure(db, seeds, k)
    ensures IsLeast(db, seeds, k)
  {
    ClosedExactly(db, k);
    SeedsExactly(seeds, k);
    forall s | HasSeeds(seeds, s) && HasAllNamed(db, s)
      ensures k <= s
    {
      ClosedExactly(db, s);
      SeedsExactly(seeds, s);
    }
  }

  /** There is only one such set, so the caches cannot show in the result. */
  lemma ClosureUnique(db: Database, seeds: seq<int>, k: set<int>, l: set<int>)
    requires IsClosure(db, seeds, k) && IsClosure(db, seeds, l)
    ensures k == l
  {
    assert k <= l && l <= k;
  }

  // ---- the caches ----

  function ByPk(): (Message, Message) -> bool {
    (a: Message, b: Message) => a.pk <= b.pk
  }

  class Context {
    var sourceMessages: map<int, Message>
    var missingSourceMessages: set<int>
    var resolvedMessageIds: map<string, int>
    var unresolvedMessageIds: set<string>
    var ancestorExpansionSeen: set<int>

    /** The caches say what the database would say. */
    ghost predicate Valid(db: Database)
      reads this
    {
      && (forall pk | pk in sourceMessages :: pk in db.messages && sourceMessages[pk] == db.messages[pk])
      && (forall pk | pk in missingSourceMessages :: pk !in db.messages)
      && (forall id | id in resolvedMessageIds :: Resolves(db, id, resolvedMessageIds[id]))
      && (forall id, pk | id in unresolvedMessageIds :: !Resolves(db, id, pk))
    }

    constructor (ghost db: Database)
      ensures Valid(db) && ancestorExpansionSeen == {}
    {
      sourceMessages, missingSourceMessages := map[], {};
      resolvedMessageIds, unresolvedMessageIds := map[], {};
      ancestorExpansionSeen := {};
    }

    /** Looks up what neither cache knows. */
    method FillSources(db: Database, requested: set<int>)
      requires Valid(db)
      modifies this`sourceMessages, this`missingSourceMessages
      ensures Valid(db)
      ensures forall pk | pk in requested && pk in db.messages :: pk in sourceMessages
    {
      var missing := set pk | pk in requested && pk !in sourceMessages && pk !in missingSourceMessages;
      var fetched := LoadSourceMessages(db, missing);
      sourceMessages := sourceMessages + fetched;
      missingSourceMessages := missingSourceMessages + (missing - fetched.Keys);
    }

    method LoadSourceMessagesCached(db: Database, pks: set<int>) returns (rows: seq<Message>)
      requires Valid(db) && Keyed(db)
      modifies this`sourceMessages, this`missingSourceMessages
      ensures Valid(db)
      ensures forall m :: m in rows <==> m.pk in pks && m.pk > 0 && m.pk in db.messages && m == db.messages[m.pk]
      ensures SortedBy(rows, ByPk())
    {
      var requested := set pk | pk in pks && pk > 0;
      FillSources(db, requested);
      rows := RowsFor(db, sourceMessages, requested);
    }

    method FillIds(db: Database, unique: set<string>)
      requires Valid(db)
      modifies this`resolvedMessageIds, this`unresolvedMessageIds
      ensures Valid(db)
      ensures forall id, pk | id in unique && Resolves(db, id, pk) ::
                id in resolvedMessageIds && resolvedMessageIds[id] == pk
    {
      var missing := set id | id in unique && id !in resolvedMessageIds && id !in unresolvedMessageIds;
      var fetched := ResolveMessageIds(db, missing);
      resolvedMessageIds := resolvedMessageIds + fetched;
      unresolvedMessageIds := unresolvedMessageIds + (missing - fetched.Keys);
      forall id, pk | id in unique && Resolves(db, id, pk)
        ensures id in resolvedMessageIds && resolvedMessageIds[id] == pk
      {
        ResolvesOnce(db, id, pk, resolvedMessageIds[id]);
      }
    }

    method ResolveMessageIdsCached(db: Database, messageIds: set<string>) returns (found: map<string, int>)
      requires Valid(db)
      modifies this`resolvedMessageIds, this`unresolvedMessageIds
      ensures Valid(db)
      ensures forall id | id in found :: Resolves(db, id, found[id])
      ensures forall id, pk | id in messageIds && Trim(id) != "" && Resolves(db, Trim(id), pk) ::
                Trim(id) in found && found[Trim(id)] == pk
      ensures forall key | key in found :: exists id :: id in messageIds && Trim(id) != "" && Trim(id) == key
    {
      var unique := set id | id in messageIds && Trim(id) != "" :: Trim(id);
      FillIds(db, unique);
      found := map id | id in unique && id in resolvedMessageIds :: resolvedMessageIds[id];
      forall id, pk | id in messageIds && Trim(id) != "" && Resolves(db, Trim(id), pk)
        ensures Trim(id) in found && found[Trim(id)] == pk
      {
        assert Trim(id) in unique;
      }
    }
  }

  /** The requested messages that are on the list, in the order of their row ids. */
  method RowsFor(ghost db: Database, sources: map<int, Message>, requested: set<int>) returns (rows: seq<Message>)
    requires Keyed(db) && forall pk | pk in sources :: pk in db.messages && sources[pk] == db.messages[pk]
    requires forall pk | pk in requested && pk in db.messages :: pk in sources
    ensures forall m :: m in rows <==> m.pk in requested && m.pk in db.messages && m == db.messages[m.pk]
    ensures SortedBy(rows, ByPk())
  {
    var found: seq<Message> := [];
    var rest := requested;
    while rest != {}
      invariant rest <= requested
      invariant forall m | m in found :: m.pk in requested && m.pk in db.messages && m == db.messages[m.pk]
      invariant forall pk | pk in requested && pk in db.messages :: pk in rest || db.messages[pk] in found
      decreases rest
    {
      ghost var any := AnyOf(rest);
      var pk :| pk in rest;
      if pk in sources {
        found := found + [sources[pk]];
      }
      rest := rest - {pk};
    }
    rows := Sort(found, ByPk());
    SortSorted(found, ByPk());
    SortMultiset(found, ByPk());
    SameElements(found, rows);
  }

  /** The query behind `load_source_messages`. */
  method LoadSourceMessages(db: Database, pks: set<int>) returns (rows: map<int, Message>)
    ensures rows.Keys == pks * db.messages.Keys
    ensures forall pk | pk in rows :: rows[pk] == db.messages[pk]
  {
    rows := map pk | pk in pks && pk in db.messages :: db.messages[pk];
  }

  /** The query behind `resolve_message_ids`. */
  method ResolveMessageIds(db: Database, ids: set<string>) returns (found: map<string, int>)
    ensures forall id | id in found :: id in ids && Resolves(db, id, found[id])
    ensures forall id, pk | id in ids && Resolves(db, id, pk) :: id in found
    ensures forall id | id in found :: StandsFor(db, id, found[id])
    ensures forall r | r in db.ids && r.messageId in ids :: r.messageId in found
  {
    var best: map<string, IdRow> := map[];
    var rest := db.ids;
    while rest != {}
      invariant rest <= db.ids
      invariant forall id | id in best :: id in ids && best[id] in db.ids && best[id].messageId == id
      invariant forall r | r in db.ids && r !in rest && r.messageId in ids ::
                  r.messageId in best && Precedes(best[r.messageId], r)
      decreases rest
    {
      var r :| r in rest;
      if r.messageId in ids && (r.messageId !in best || Precedes(r, best[r.messageId])) {
        best := best[r.messageId := r];
      }
      rest := rest - {r};
    }
    found := map id | id in best :: best[id].pk;
    forall id | id in found
      ensures Resolves(db, id, found[id]) && StandsFor(db, id, found[id])
    {
      assert Picks(db, best[id]);
      ResolvesExactly(db, id, found[id]);
    }
  }

  // ---- the worklist ----

  ghost predicate LooksUp(rows: seq<Message>, n: nat, id: string)
    requires n <= |rows|
  {
    Trim(id) != "" && exists j: nat :: j < n && id in Lookups(rows[j])
  }

  /** All ids the batch has to look up. */
  method CollectLookups(rows: seq<Message>) returns (ids: set<string>)
    ensures forall id :: id in ids <==> LooksUp(rows, |rows|, id)
  {
    ids := {};
    for i := 0 to |rows|
      invariant forall id :: id in ids <==> LooksUp(rows, i, id)
    {
      var m := rows[i];
      ghost var before := ids;
      if m.references != [] {
        ids := ids + set id | id in m.references && Trim(id) != "";
      } else if m.inReplyTo != [] && Trim(m.inReplyTo[0]) != "" {
        ids := ids + {m.inReplyTo[0]};
      }
      assert forall id :: id in ids <==> id in before || (id in Lookups(m) && Trim(id) != "");
    }
  }

  /** The messages that a batch refers to. */
  method ExpandBatch(db: Database, batch: set<int>, context: Context) returns (targets: set<int>)
    requires context.Valid(db) && Keyed(db)
    modifies context`sourceMessages, context`missingSourceMessages
    modifies context`resolvedMessageIds, context`unresolvedMessageIds
    ensures context.Valid(db)
    ensures forall q :: q in targets <==> exists pk :: pk in batch && Expands(db, pk, q)
    ensures forall q :: q in targets <==> exists pk :: pk in batch && Names(db, pk, q)
  {
    forall pk, q
      ensures Expands(db, pk, q) <==> Names(db, pk, q)
    {
      ExpandsExactly(db, pk, q);
    }
    targets := LookUpBatch(db, batch, context);
  }

  method LookUpBatch(db: Database, batch: set<int>, context: Context) returns (targets: set<int>)
    requires context.Valid(db) && Keyed(db)
    modifies context`sourceMessages, context`missingSourceMessages
    modifies context`resolvedMessageIds, context`unresolvedMessageIds
    ensures context.Valid(db)
    ensures forall q :: q in targets <==> exists pk :: pk in batch && Expands(db, pk, q)
  {
    var rows := context.LoadSourceMessagesCached(db, batch);
    var lookup := CollectLookups(rows);
    var found := context.ResolveMessageIdsCached(db, lookup);
    targets := found.Values;
    forall q | q in targets
      ensures exists pk :: pk in batch && Expands(db, pk, q)
    {
      var key :| key in found && found[key] == q;
      var id :| id in lookup && Trim(id) != "" && Trim(id) == key;
      var j: nat :| j < |rows| && id in Lookups(rows[j]);
      var m := rows[j];
      assert m in rows && RefersTo(db, m, q);
      assert Expands(db, m.pk, q);
    }
    forall pk, q | pk in batch && Expands(db, pk, q)
      ensures q in targets
    {
      var m := db.messages[pk];
      assert m in rows;
      var id :| id in Lookups(m) && Trim(id) != "" && Resolves(db, Trim(id), q);
      var j: nat :| j < |rows| && rows[j] == m;
      assert LooksUp(rows, |rows|, id) && id in lookup;
    }
  }

  function Targets(db: Database): set<int> {
    set r | r in db.ids :: r.pk
  }

  /** What holds between two rounds. */
  ghost predicate Expanding(db: Database, seeds: seq<int>, known: set<int>, frontier: set<int>) {
    && Seeds(seeds) <= known && frontier <= known
    && known <= Seeds(seeds) + Targets(db)
    && (forall pk, q | pk in known - frontier && Expands(db, pk, q) :: q in known)
    && (forall s | Seeds(seeds) <= s && Closed(db, s) :: known <= s)
  }

  lemma ExpandsToTarget(db: Database, pk: int, q: int)
    requires Expands(db, pk, q)
    ensures q in Targets(db)
  {
  }

  lemma RoundKeeps(db: Database, seeds: seq<int>, known: set<int>, frontier: set<int>, targets: set<int>)
    requires Expanding(db, seeds, known, frontier)
    requires forall q :: q in targets <==> exists pk :: pk in frontier && Expands(db, pk, q)
    ensures Expanding(db, seeds, known + targets, targets - known)
  {
    forall q | q in targets
      ensures q in Targets(db)
    {
      var pk :| pk in frontier && Expands(db, pk, q);
      ExpandsToTarget(db, pk, q);
    }
    forall pk, q | pk in known + targets && pk !in targets - known && Expands(db, pk, q)
      ensures q in known + targets
    {
    }
    forall s | Seeds(seeds) <= s && Closed(db, s)
      ensures known + targets <= s
    {
      assert known <= s;
    }
  }

  lemma NothingSeenYet(db: Database, seeds: seq<int>)
    ensures Expanding(db, seeds, Seeds(seeds), Seeds(seeds))
  {
  }

  lemma ExpandedIsClosure(db: Database, seeds: seq<int>, known: set<int>)
    requires Expanding(db, seeds, known, {})
    ensures IsClosure(db, seeds, known)
  {
  }

  /** One round of the worklist. */
  method ExpandFrontier(db: Database, ghost seeds: seq<int>, known: set<int>, frontier: set<int>, context: Context)
      returns (knownNow: set<int>, frontierNow: set<int>)
    requires context.Valid(db) && Keyed(db) && Expanding(db, seeds, known, frontier)
    modifies context
    ensures context.Valid(db) && Expanding(db, seeds, knownNow, frontierNow)
    ensures known <= knownNow && frontierNow == knownNow - known
    ensures context.ancestorExpansionSeen == old(context.ancestorExpansionSeen) + frontier
  {
    context.ancestorExpansionSeen := context.ancestorExpansionSeen + frontier;
    var targets := ExpandBatch(db, frontier, context);
    RoundKeeps(db, seeds, known, frontier, targets);
    knownNow, frontierNow := known + targets, targets - known;
  }

  /** Whatever the caches hold, the result is the closure, and every message of it counts as
      seen. */
  method ExpandAncestorClosure(db: Database, seeds: seq<int>, context: Context) returns (known: set<int>)
    requires context.Valid(db) && Keyed(db)
    modifies context
    ensures context.Valid(db)
    ensures IsClosure(db, seeds, known) && IsLeast(db, seeds, known)
    ensures context.ancestorExpansionSeen == old(context.ancestorExpansionSeen) + known
  {
    known := set pk | pk in seeds && pk > 0;
    var frontier := known;
    assert known == Seeds(seeds);
    NothingSeenYet(db, seeds);
    while frontier != {}
      invariant context.Valid(db) && Expanding(db, seeds, known, frontier)
      invariant context.ancestorExpansionSeen == old(context.ancestorExpansionSeen) + (known - frontier)
      decreases (Seeds(seeds) + Targets(db)) - known, frontier != {}
    {
      known, frontier := ExpandFrontier(db, seeds, known, frontier, context);
    }
    ExpandedIsClosure(db, seeds, known);
    ClosureIsLeast(db, seeds, known);
  }
}
