/** The order in which messages and nodes are taken, and what a component says of its messages. */
module ThreadSummaries {
  import opened MessageIds
  import opened SortKeys
  import opened Sorting
  import opened Text
  import opened ThreadCollisions
  import opened ThreadForest
  import opened ThreadGuarantees
  import opened ThreadLink
  import opened ThreadOutcome
  import opened ThreadRegister
  import opened ThreadWalk
  import opened Wrappers

  // ---- orders ----

  /** By date, then by subject, then by row id; a message without a date counts as of the epoch. */
  ghost predicate ProcessedBefore(a: Message, b: Message) {
    var d, e := if a.dateUtc.Some? then a.dateUtc.value else 0, if b.dateUtc.Some? then b.dateUtc.value else 0;
    || d < e
    || (d == e && a.subjectNorm != b.subjectNorm && TextLe(a.subjectNorm, b.subjectNorm))
    || (d == e && a.subjectNorm == b.subjectNorm && a.messagePk < b.messagePk)
  }

  lemma MessagesInOrder(messages: seq<Message>, i: nat, j: nat)
    requires DistinctPks(messages) && i < j < |messages|
    ensures var sorted := Sort(messages, ByMessage());
            |sorted| == |messages| && ProcessedBefore(sorted[i], sorted[j])
  {
    var sorted := Sort(messages, ByMessage());
    SortedIsFrom(messages);
    SortMultiset(messages, ByMessage());
    assert ByMessage()(sorted[i], sorted[j]);
    StringLeMeans(sorted[i].subjectNorm, sorted[j].subjectNorm);
  }

  /** Nodes of one group stand by date, then by subject, then by key. */
  ghost predicate StandsBefore(n: Nodes, a: Key, b: Key)
    requires a in n && b in n
  {
    var x, y := n[a].content, n[b].content;
    || x.dateUtc < y.dateUtc
    || (x.dateUtc == y.dateUtc && x.subjectNorm != y.subjectNorm && TextLe(x.subjectNorm, y.subjectNorm))
    || (x.dateUtc == y.dateUtc && x.subjectNorm == y.subjectNorm && a != b && TextLe(a.text, b.text))
  }

  lemma TupleMeans(n: Nodes, a: Key, b: Key)
    requires a in n && b in n && a != b
    ensures ByTuple(n)(a, b) <==> StandsBefore(n, a, b)
  {
    StringLeMeans(n[a].content.subjectNorm, n[b].content.subjectNorm);
    StringLeMeans(a.text, b.text);
  }

  /** Children of one node, and roots, are numbered in that order. */
  lemma SiblingsInOrder(n: NodeForest, a: Key, b: Key)
    requires a in n && b in n && a != b && n[a].parent == n[b].parent
    ensures |PathOf(n, a)| == |PathOf(n, b)| > 0
    ensures var last := |PathOf(n, a)| - 1;
            && PathOf(n, a)[..last] == PathOf(n, b)[..last]
            && (PathOf(n, a)[last] < PathOf(n, b)[last] <==> StandsBefore(n, a, b))
  {
    var group, i, j := Siblings(n, a), Position(n, a), Position(n, b);
    assert Siblings(n, b) == group;
    SiblingsFacts(n, a);
    TupleMeans(n, a, b);
    TupleMeans(n, b, a);
    if i < j {
      assert ByTuple(n)(group[i], group[j]);
    } else {
      assert ByTuple(n)(group[j], group[i]);
    }
    if ByTuple(n)(a, b) && ByTuple(n)(b, a) {
      TupleLeAntisymmetricKeys(n, a, b);
    }
  }

  lemma TupleLeAntisymmetricKeys(n: Nodes, a: Key, b: Key)
    requires a in n && b in n && ByTuple(n)(a, b) && ByTuple(n)(b, a)
    ensures a == b
  {
    TupleLeAntisymmetric(TupleOf(n, a), TupleOf(n, b));
  }

  // ---- components ----

  lemma {:induction false} MinIsLeast(s: seq<int>, n: nat)
    requires 0 < n <= |s|
    ensures MinOf(s, n) in s && forall i | 0 <= i < n :: MinOf(s, n) <= s[i]
  {
    if n > 1 {
      MinIsLeast(s, n - 1);
    }
  }

  lemma {:induction false} MaxIsGreatest(s: seq<int>, n: nat)
    requires 0 < n <= |s|
    ensures MaxOf(s, n) in s && forall i | 0 <= i < n :: s[i] <= MaxOf(s, n)
  {
    if n > 1 {
      MaxIsGreatest(s, n - 1);
    }
  }

  /** The `j`th message, date and member of a walk come from one node. */
  ghost predicate SameNode(n: NodeForest, entries: seq<Entry>, i: nat, j: nat)
    requires i <= |entries| && AllPresent(n, entries)
  {
    var ms, ds, bs := MessagesOf(n, entries, i), DatesOf(n, entries, i), MembersOf(n, entries, i);
    && j < |ms| == |ds| == |bs|
    && exists k :: k in n && n[k].content.messagePk == Some(ms[j].messagePk) && n[k].content.dateUtc == ds[j]
                   && bs[j] == Member(n[k].content.messageIdPrimary.GetOr(""), ms[j].messagePk)
  }

  lemma {:induction false} WalkIsParallel(n: NodeForest, entries: seq<Entry>, i: nat)
    requires i <= |entries| && AllPresent(n, entries)
    ensures |MessagesOf(n, entries, i)| == |DatesOf(n, entries, i)| == |MembersOf(n, entries, i)|
    ensures forall j | 0 <= j < |MessagesOf(n, entries, i)| :: SameNode(n, entries, i, j)
    decreases i
  {
    if i > 0 {
      WalkIsParallel(n, entries, i - 1);
      var k, before := entries[i - 1].key, |MessagesOf(n, entries, i - 1)|;
      forall j | 0 <= j < |MessagesOf(n, entries, i)|
        ensures SameNode(n, entries, i, j)
      {
        if j < before {
          assert SameNode(n, entries, i - 1, j);
        }
      }
    }
  }

  ghost predicate IsInput(messages: seq<Message>, m: Message, pk: int) {
    m in messages && m.messagePk == pk
  }

  /** The date by which a message is sorted. */
  ghost predicate Dated(messages: seq<Message>, pk: int, date: int) {
    exists m :: IsInput(messages, m, pk) && date == if m.dateUtc.Some? then m.dateUtc.value else 0
  }

  /** What identifies a message as a member of its thread. */
  ghost predicate Identifies(messages: seq<Message>, pk: int, token: string) {
    exists m :: IsInput(messages, m, pk)
                && token == if NormalizeToken(m.messageIdPrimary) != "" then NormalizeToken(m.messageIdPrimary)
                else "synthetic:msgpk:" + IntText(pk)
  }

  /** The dates are those of the messages, in their order. */
  ghost predicate DatesAre(messages: seq<Message>, out: seq<BuiltMessage>, dates: seq<int>) {
    |dates| == |out| && forall j | 0 <= j < |out| :: Dated(messages, out[j].messagePk, dates[j])
  }

  /** From the earliest to the latest date of the messages. */
  ghost predicate Spans(messages: seq<Message>, out: seq<BuiltMessage>, earliest: int, latest: int) {
    exists dates :: DatesAre(messages, out, dates) && earliest in dates && latest in dates
                    && forall j | 0 <= j < |dates| :: earliest <= dates[j] <= latest
  }

  /** The count, the first message with its subject, the earliest and the latest date, and the
      members of a component. */
  ghost predicate SummaryMeans(messages: seq<Message>, c: Component) {
    var s := c.summary;
    && c.messages != [] && s.messageCount == |c.messages| && s.rootMessagePk == Some(c.messages[0].messagePk)
    && (exists m :: IsInput(messages, m, c.messages[0].messagePk) && s.subjectNorm == m.subjectNorm)
    && Spans(messages, c.messages, s.createdAt, s.lastActivityAt)
    && |s.membershipTokens| == |c.messages|
    && (forall j | 0 <= j < |c.messages| :: Identifies(messages, c.messages[j].messagePk, s.membershipTokens[j]))
  }

  lemma {:induction false} SubjectMeans(ms: seq<Keyed>, n: nat, i: nat)
    requires i < n <= |ms| && forall a, b | 0 <= a < b < |ms| :: ms[a].message.messagePk != ms[b].message.messagePk
    ensures SubjectOf(ms, n, ms[i].message.messagePk) == ms[i].message.subjectNorm
    decreases n
  {
    if i < n - 1 {
      SubjectMeans(ms, n - 1, i);
    }
  }

  /** A node that stands for a message has the message's columns. */
  ghost predicate FromMessage(messages: seq<Message>, c: Content, pk: int) {
    exists m :: IsInput(messages, m, pk) && c.messageIdPrimary == Some(m.messageIdPrimary)
                && c.subjectRaw == m.subjectRaw && c.subjectNorm == m.subjectNorm && !c.isDummy
                && c.dateUtc == if m.dateUtc.Some? then m.dateUtc.value else 0
  }

  ghost predicate NodesFrom(messages: seq<Message>, n: Nodes) {
    forall k | k in n && n[k].content.messagePk.Some? ::
      FromMessage(messages, n[k].content, n[k].content.messagePk.value)
  }

  lemma {:induction false} ForestFrom(messages: seq<Message>, ms: seq<Keyed>)
    requires KeyedFrom(ms, messages)
    ensures NodesFrom(messages, ForestOf(ms))
  {
    hide NodesFrom;
    var n := ForestOf(ms);
    forall k | k in n && n[k].content.messagePk.Some?
      ensures FromMessage(messages, n[k].content, n[k].content.messagePk.value)
    {
      var o := MessageNodes(ms, k);
      assert IsInput(messages, ms[o].message, n[k].content.messagePk.value);
    }
    NodesFromAll(messages, n);
  }

  lemma NodesFromAll(messages: seq<Message>, n: Nodes)
    requires forall k | k in n && n[k].content.messagePk.Some? ::
               FromMessage(messages, n[k].content, n[k].content.messagePk.value)
    ensures NodesFrom(messages, n)
  {
  }

  lemma {:induction false} DatesMean(messages: seq<Message>, n: NodeForest, entries: seq<Entry>)
    requires NodesFrom(messages, n) && AllPresent(n, entries)
    ensures DatesAre(messages, MessagesOf(n, entries, |entries|), DatesOf(n, entries, |entries|))
  {
    var size := |entries|;
    WalkIsParallel(n, entries, size);
    forall j | 0 <= j < |MessagesOf(n, entries, size)|
      ensures Dated(messages, MessagesOf(n, entries, size)[j].messagePk, DatesOf(n, entries, size)[j])
    {
      var pk := MessagesOf(n, entries, size)[j].messagePk;
      assert SameNode(n, entries, size, j);
      var k :| k in n && n[k].content.messagePk == Some(pk) && n[k].content.dateUtc == DatesOf(n, entries, size)[j];
      assert FromMessage(messages, n[k].content, pk);
    }
  }

  lemma TokenIdentifies(messages: seq<Message>, c: Content, pk: int)
    requires FromMessage(messages, c, pk)
    ensures Identifies(messages, pk, TokenOf(Member(c.messageIdPrimary.GetOr(""), pk)))
  {
    hide NormalizeToken;
    assert SYNTHETIC + IntText(pk) == "synthetic:msgpk:" + IntText(pk);
  }

  lemma {:induction false} MemberIdentifies(messages: seq<Message>, n: NodeForest, entries: seq<Entry>, j: nat)
    requires NodesFrom(messages, n) && AllPresent(n, entries) && j < |MessagesOf(n, entries, |entries|)|
    ensures |MessagesOf(n, entries, |entries|)| == |MembersOf(n, entries, |entries|)|
    ensures Identifies(messages, MessagesOf(n, entries, |entries|)[j].messagePk,
                       TokenOf(MembersOf(n, entries, |entries|)[j]))
  {
    hide Identifies, NormalizeToken, TokenOf;
    var size := |entries|;
    WalkIsParallel(n, entries, size);
    assert SameNode(n, entries, size, j);
    var pk, member := MessagesOf(n, entries, size)[j].messagePk, MembersOf(n, entries, size)[j];
    var k :| k in n && n[k].content.messagePk == Some(pk)
             && member == Member(n[k].content.messageIdPrimary.GetOr(""), pk);
    TokenIdentifies(messages, n[k].content, pk);
  }

  lemma {:induction false} FirstHasSubject(messages: seq<Message>, ms: seq<Keyed>, n: NodeForest, entries: seq<Entry>)
    requires KeyedFrom(ms, messages) && DistinctKeyed(ms) && NodesFrom(messages, n) && AllPresent(n, entries)
    requires MessagesOf(n, entries, |entries|) != []
    ensures var pk := MessagesOf(n, entries, |entries|)[0].messagePk;
            exists m :: IsInput(messages, m, pk) && SubjectOf(ms, |ms|, pk) == m.subjectNorm
  {
    var pk := MessagesOf(n, entries, |entries|)[0].messagePk;
    WalkIsParallel(n, entries, |entries|);
    assert SameNode(n, entries, |entries|, 0);
    var k :| k in n && n[k].content.messagePk == Some(pk);
    assert FromMessage(messages, n[k].content, pk);
    var m :| IsInput(messages, m, pk);
    var o: nat :| o < |ms| && ms[o].message == m;
    SubjectMeans(ms, |ms|, o);
  }

  lemma EarliestAndLatest(messages: seq<Message>, out: seq<BuiltMessage>, dates: seq<int>)
    requires DatesAre(messages, out, dates) && out != []
    ensures Spans(messages, out, MinOf(dates, |dates|), MaxOf(dates, |dates|))
  {
    MinIsLeast(dates, |dates|);
    MaxIsGreatest(dates, |dates|);
  }

  /** A component of the walk of one root, if it has messages. */
  lemma {:induction false} ComponentMeans(messages: seq<Message>, ms: seq<Keyed>, n: NodeForest, root: Key,
                                          entries: seq<Entry>)
    requires KeyedFrom(ms, messages) && DistinctKeyed(ms) && NodesFrom(messages, n) && AllPresent(n, entries)
    requires MessagesOf(n, entries, |entries|) != []
    ensures SummaryMeans(messages, ComponentOf(n, ms, root, entries))
  {
    hide DatesAre, Identifies, KeyedFrom, MembersOf, MessagesOf, NodesFrom, SameNode, Spans, TokenOf;
    var size := |entries|;
    var out, dates, members := MessagesOf(n, entries, size), DatesOf(n, entries, size), MembersOf(n, entries, size);
    WalkIsParallel(n, entries, size);
    DatesMean(messages, n, entries);
    EarliestAndLatest(messages, out, dates);
    FirstHasSubject(messages, ms, n, entries);
    forall j: nat | j < |out|
      ensures Identifies(messages, out[j].messagePk, TokensOf(members)[j])
    {
      MemberIdentifies(messages, n, entries, j);
    }
  }

  ghost predicate AllMean(messages: seq<Message>, cs: seq<Component>) {
    forall c | c in cs :: SummaryMeans(messages, c)
  }

  lemma {:induction false} AllMeanSnoc(messages: seq<Message>, cs: seq<Component>, c: Component)
    requires AllMean(messages, cs) && SummaryMeans(messages, c)
    ensures AllMean(messages, cs + [c])
  {
    hide SummaryMeans;
  }

  lemma {:induction false} NextComponentMeans(messages: seq<Message>, ms: seq<Keyed>, n: NodeForest, i: nat)
    requires KeyedFrom(ms, messages) && DistinctKeyed(ms) && NodesFrom(messages, n) && 1 <= i <= |SortedRoots(n)|
    requires AllMean(messages, Components(n, ms, i - 1))
    ensures AllMean(messages, Components(n, ms, i))
  {
    hide AllMean, ComponentOf, DistinctKeyed, KeyedFrom, NodesFrom, SummaryMeans;
    if RootMessages(n, i - 1) != [] {
      var c := ComponentOf(n, ms, SortedRoots(n)[i - 1], RootWalk(n, i - 1));
      ComponentMeans(messages, ms, n, SortedRoots(n)[i - 1], RootWalk(n, i - 1));
      AllMeanSnoc(messages, Components(n, ms, i - 1), c);
    }
  }

  lemma NoComponentsMean(messages: seq<Message>, ms: seq<Keyed>, n: NodeForest)
    ensures AllMean(messages, Components(n, ms, 0))
  {
  }

  lemma {:induction false} ComponentsMean(messages: seq<Message>, ms: seq<Keyed>, n: NodeForest, i: nat)
    requires KeyedFrom(ms, messages) && DistinctKeyed(ms) && NodesFrom(messages, n) && i <= |SortedRoots(n)|
    ensures AllMean(messages, Components(n, ms, i))
    decreases i
  {
    hide AllMean, Components, DistinctKeyed, KeyedFrom, NodesFrom;
    if i == 0 {
      NoComponentsMean(messages, ms, n);
    } else {
      ComponentsMean(messages, ms, n, i - 1);
      NextComponentMeans(messages, ms, n, i);
    }
  }

  /** What every thread says of its messages. */
  lemma {:induction false} SummariesMean(messages: seq<Message>)
    requires DistinctPks(messages)
    ensures forall c | c in Build(messages) :: SummaryMeans(messages, c)
  {
    var ms := KeyAll(Sort(messages, ByMessage()));
    SortedKeepsPks(messages);
    SortedIsKeyed(messages);
    ForestFrom(messages, ms);
    ComponentsMean(messages, ms, ForestOf(ms), |SortedRoots(ForestOf(ms))|);
  }

  // ---- the nodes of a component ----

  /** A node with its columns, the number of its proper ancestors and the key of its path. */
  ghost predicate NodeMeans(n: NodeForest, b: BuiltNode) {
    && b.nodeKey in n && b.parentNodeKey == n[b.nodeKey].parent && b.messagePk == n[b.nodeKey].content.messagePk
    && b.isDummy == n[b.nodeKey].content.isDummy
    && b.depth == |Chain(n, b.nodeKey)| - 1 && b.sortKey == EncodeSortKey(PathOf(n, b.nodeKey))
  }

  /** Exactly the root and the nodes below it, once each. */
  ghost predicate NodesAreTree(n: NodeForest, root: Key, nodes: seq<BuiltNode>) {
    && root in n && n[root].parent.None?
    && (forall j | 0 <= j < |nodes| :: NodeMeans(n, nodes[j]) && root in Chain(n, nodes[j].nodeKey))
    && (forall i, j | 0 <= i < j < |nodes| :: nodes[i].nodeKey != nodes[j].nodeKey)
    && (forall k | k in n && root in Chain(n, k) :: exists j :: 0 <= j < |nodes| && nodes[j].nodeKey == k)
  }

  /** The `j`th message is that of the `at[j]`th node. */
  ghost predicate MessagesOfNodes(n: NodeForest, nodes: seq<BuiltNode>, out: seq<BuiltMessage>, at: seq<nat>) {
    && |at| == |out|
    && (forall i, j | 0 <= i < j < |at| :: at[i] < at[j])
    && (forall j | 0 <= j < |at| :: at[j] < |nodes| && IsMessageOf(n, nodes[at[j]], out[j]))
    && (forall i | 0 <= i < |nodes| && nodes[i].messagePk.Some? :: i in at)
  }

  ghost predicate IsMessageOf(n: NodeForest, b: BuiltNode, m: BuiltMessage) {
    && b.nodeKey in n && b.messagePk == Some(m.messagePk) && m.parentMessagePk == NearestRealParent(n, b.nodeKey)
    && m.depth == b.depth && m.sortKey == b.sortKey && !m.isDummy
  }

  /** A component is a tree of the forest with the messages of its nodes, in their order. */
  ghost predicate TreeMeans(n: NodeForest, c: Component) {
    && NodesAreTree(n, c.summary.rootNodeKey, c.nodes)
    && exists at :: MessagesOfNodes(n, c.nodes, c.messages, at)
  }

  lemma EntryMeans(n: NodeForest, e: Entry)
    requires e.key in n && e.path == PathOf(n, e.key)
    ensures NodeMeans(n, NodeOf(n, e))
  {
    PathLength(n, e.key);
  }

  lemma CoveredIsTree(n: NodeForest, root: Key, entries: seq<Entry>)
    requires root in n && n[root].parent.None? && AllPresent(n, entries)
    requires Covers(n, entries, Subtree(n, root)) && Increasing(entries)
    ensures NodesAreTree(n, root, NodesOf(n, entries, |entries|))
  {
    hide NodeMeans, NodeOf, Chain, PathOf, LexLess;
    var nodes := NodesOf(n, entries, |entries|);
    forall j | 0 <= j < |nodes|
      ensures NodeMeans(n, nodes[j]) && nodes[j].nodeKey == entries[j].key && root in Chain(n, nodes[j].nodeKey)
    {
      EntryMeans(n, entries[j]);
      NodeHasKey(n, entries[j]);
    }
    forall i, j | 0 <= i < j < |nodes|
      ensures nodes[i].nodeKey != nodes[j].nodeKey
    {
      LexLessAsymmetric(entries[i].path, entries[j].path);
    }
    forall k | k in n && root in Chain(n, k)
      ensures exists j :: 0 <= j < |nodes| && nodes[j].nodeKey == k
    {
      assert Entry(k, PathOf(n, k)) in entries;
      var j :| 0 <= j < |entries| && entries[j] == Entry(k, PathOf(n, k));
      assert nodes[j].nodeKey == k;
    }
  }

  lemma NodeHasKey(n: NodeForest, e: Entry)
    requires e.key in n
    ensures NodeOf(n, e).nodeKey == e.key
  {
  }

  lemma RootHasNoParent(n: NodeForest, root: Key)
    requires root in n && |PathOf(n, root)| == 1
    ensures n[root].parent.None?
  {
    PathLength(n, root);
    if n[root].parent.Some? {
      ChainStep(n, root);
    }
  }

  lemma WalkIsTree(n: NodeForest, i: nat)
    requires i < |SortedRoots(n)|
    ensures NodesAreTree(n, SortedRoots(n)[i], NodesOf(n, RootWalk(n, i), |RootWalk(n, i)|))
  {
    hide NodesAreTree, NodesOf, Covers, Increasing;
    var root := SortedRoots(n)[i];
    RootPath(n, i);
    RootHasNoParent(n, root);
    WalkFacts(n, root);
    CoveredIsTree(n, root, RootWalk(n, i));
  }

  lemma MessagesAreOfNodes(n: NodeForest, entries: seq<Entry>)
    requires AllPresent(n, entries)
    ensures exists at :: MessagesOfNodes(n, NodesOf(n, entries, |entries|), MessagesOf(n, entries, |entries|), at)
  {
    hide MessagesOf, NearestRealParent, EncodeSortKey;
    var at := MessagePlaces(n, entries, |entries|);
    assert MessagesOfNodes(n, NodesOf(n, entries, |entries|), MessagesOf(n, entries, |entries|), at);
  }

  lemma RootComponentMeans(n: NodeForest, ms: seq<Keyed>, i: nat)
    requires i < |SortedRoots(n)|
    ensures TreeMeans(n, ComponentOf(n, ms, SortedRoots(n)[i], RootWalk(n, i)))
  {
    hide NodesAreTree, MessagesOfNodes, NodesOf, MessagesOf, RootWalk;
    WalkIsTree(n, i);
    MessagesAreOfNodes(n, RootWalk(n, i));
  }

  ghost predicate AllTrees(n: NodeForest, cs: seq<Component>) {
    forall c | c in cs :: TreeMeans(n, c)
  }

  lemma {:induction false} ComponentsAreTrees(n: NodeForest, ms: seq<Keyed>, i: nat)
    requires i <= |SortedRoots(n)|
    ensures AllTrees(n, Components(n, ms, i))
    decreases i
  {
    hide TreeMeans, ComponentOf;
    if i > 0 {
      ComponentsAreTrees(n, ms, i - 1);
      RootComponentMeans(n, ms, i - 1);
    }
  }

  /** Every thread is a tree of the forest, with the messages of its nodes. */
  lemma ThreadsAreTrees(messages: seq<Message>)
    ensures forall c | c in Build(messages) :: TreeMeans(ForestOf(KeyAll(Sort(messages, ByMessage()))), c)
  {
    var ms := KeyAll(Sort(messages, ByMessage()));
    ComponentsAreTrees(ForestOf(ms), ms, |SortedRoots(ForestOf(ms))|);
  }
}
