/** What `build_threads` returns for a finished forest, and what holds of it. */
module ThreadOutcome {
  import opened MessageIds
  import opened Sorting
  import opened Text
  import opened ThreadForest
  import opened ThreadLink
  import opened ThreadRegister
  import opened ThreadWalk
  import opened Wrappers

  datatype BuiltNode = BuiltNode(
    nodeKey: Key, messagePk: Option<int>, parentNodeKey: Option<Key>,
    depth: int, sortKey: seq<nat>, isDummy: bool)

  datatype BuiltMessage = BuiltMessage(
    messagePk: int, parentMessagePk: Option<int>, depth: int, sortKey: seq<nat>, isDummy: bool)

  /** The membership hash is a function of `membershipTokens`, which stand for it here. */
  datatype Summary = Summary(
    rootNodeKey: Key, rootMessagePk: Option<int>, subjectNorm: string,
    createdAt: int, lastActivityAt: int, messageCount: int, membershipTokens: seq<string>)

  datatype Component = Component(summary: Summary, nodes: seq<BuiltNode>, messages: seq<BuiltMessage>)

  /** `nearest_real_parent_message_pk` */
  ghost function NearestRealParent(n: NodeForest, k: Key): Option<int>
    requires k in n
    decreases Rank(n, k)
  {
    assert RankGrows(n, RankMap(n), k);
    if n[k].parent.None? then None
    else
      var p := n[k].parent.value;
      if n[p].content.messagePk.Some? then n[p].content.messagePk else NearestRealParent(n, p)
  }

  /** The `t`th ancestor carries `pk` and all nearer ones are placeholders. */
  ghost predicate NearestAt(n: NodeForest, k: Key, t: nat, pk: int)
    requires k in n
  {
    var c := Chain(n, k);
    && 0 < t < |c| && c[t] in n && n[c[t]].content.messagePk == Some(pk)
    && forall s | 0 < s < t :: c[s] in n && n[c[s]].content.messagePk.None?
  }

  lemma {:induction false} NearestRealParentIsNearest(n: NodeForest, k: Key)
    requires k in n
    ensures var r := NearestRealParent(n, k);
            && (r.Some? ==> exists t: nat :: NearestAt(n, k, t, r.value))
            && (r.None? ==> forall a | Ancestor(n, a, k) && a != k :: a in n && n[a].content.messagePk.None?)
    decreases Rank(n, k)
  {
    if n[k].parent.Some? {
      assert RankGrows(n, RankMap(n), k);
      var p := n[k].parent.value;
      ChainStep(n, k);
      if n[p].content.messagePk.Some? {
        assert NearestAt(n, k, 1, n[p].content.messagePk.value);
      } else {
        NearestRealParentIsNearest(n, p);
        if NearestRealParent(n, p).Some? {
          var pk := NearestRealParent(n, p).value;
          var t: nat :| NearestAt(n, p, t, pk);
          assert NearestAt(n, k, t + 1, pk);
        }
      }
    }
  }

  ghost predicate AllPresent(n: Nodes, entries: seq<Entry>) {
    forall i | 0 <= i < |entries| :: entries[i].key in n
  }

  function NodeOf(n: Nodes, e: Entry): BuiltNode
    requires e.key in n
  {
    var node := n[e.key];
    BuiltNode(e.key, node.content.messagePk, node.parent, e.Depth(), e.SortKey(), node.content.isDummy)
  }

  function NodesOf(n: Nodes, entries: seq<Entry>, i: nat): (r: seq<BuiltNode>)
    requires i <= |entries| && forall j | 0 <= j < i :: entries[j].key in n
    ensures |r| == i && forall j | 0 <= j < i :: r[j] == NodeOf(n, entries[j])
  {
    if i == 0 then [] else NodesOf(n, entries, i - 1) + [NodeOf(n, entries[i - 1])]
  }

  ghost function MessageOf(n: NodeForest, e: Entry): BuiltMessage
    requires e.key in n && n[e.key].content.messagePk.Some?
  {
    BuiltMessage(n[e.key].content.messagePk.value, NearestRealParent(n, e.key), e.Depth(), e.SortKey(), false)
  }

  ghost function MessagesOf(n: NodeForest, entries: seq<Entry>, i: nat): seq<BuiltMessage>
    requires i <= |entries| && AllPresent(n, entries)
  {
    if i == 0 then []
    else if n[entries[i - 1].key].content.messagePk.None? then MessagesOf(n, entries, i - 1)
    else MessagesOf(n, entries, i - 1) + [MessageOf(n, entries[i - 1])]
  }

  function DatesOf(n: Nodes, entries: seq<Entry>, i: nat): seq<int>
    requires i <= |entries| && forall j | 0 <= j < i :: entries[j].key in n
  {
    if i == 0 then []
    else if n[entries[i - 1].key].content.messagePk.None? then DatesOf(n, entries, i - 1)
    else DatesOf(n, entries, i - 1) + [n[entries[i - 1].key].content.dateUtc]
  }

  /** A message as a member of its thread. */
  datatype Member = Member(messageIdPrimary: string, messagePk: int)

  function MembersOf(n: Nodes, entries: seq<Entry>, i: nat): seq<Member>
    requires i <= |entries| && forall j | 0 <= j < i :: entries[j].key in n
  {
    if i == 0 then []
    else
      var node := n[entries[i - 1].key].content;
      if node.messagePk.None? then MembersOf(n, entries, i - 1)
      else MembersOf(n, entries, i - 1) + [Member(node.messageIdPrimary.GetOr(""), node.messagePk.value)]
  }

  function TokenOf(m: Member): string {
    var token := NormalizeToken(m.messageIdPrimary);
    if token == "" then SYNTHETIC + IntText(m.messagePk) else token
  }

  function TokensOf(members: seq<Member>): seq<string> {
    seq(|members|, i requires 0 <= i < |members| => TokenOf(members[i]))
  }

  /** The least of the first `n` dates. */
  function MinOf(s: seq<int>, n: nat): int
    requires 0 < n <= |s|
  {
    if n == 1 then s[0]
    else
      var m := MinOf(s, n - 1);
      if s[n - 1] < m then s[n - 1] else m
  }

  /** The greatest of the first `n` dates. */
  function MaxOf(s: seq<int>, n: nat): int
    requires 0 < n <= |s|
  {
    if n == 1 then s[0]
    else
      var m := MaxOf(s, n - 1);
      if s[n - 1] > m then s[n - 1] else m
  }

  /** `message_pk_to_subject_norm`, or the empty text for an unknown row id. */
  function SubjectOf(ms: seq<Keyed>, n: nat, pk: int): string
    requires n <= |ms|
  {
    if n == 0 then ""
    else if ms[n - 1].message.messagePk == pk then ms[n - 1].message.subjectNorm
    else SubjectOf(ms, n - 1, pk)
  }

  function SummaryOf(n: Nodes, ms: seq<Keyed>, root: Key, rootPk: Option<int>, count: nat,
                     entries: seq<Entry>): Summary
    requires forall i | 0 <= i < |entries| :: entries[i].key in n
  {
    var dates := DatesOf(n, entries, |entries|);
    Summary(root, rootPk,
            if rootPk.None? then "" else SubjectOf(ms, |ms|, rootPk.value),
            if dates == [] then 0 else MinOf(dates, |dates|),
            if dates == [] then 0 else MaxOf(dates, |dates|),
            count, TokensOf(MembersOf(n, entries, |entries|)))
  }

  ghost function ComponentOf(n: NodeForest, ms: seq<Keyed>, root: Key, entries: seq<Entry>): Component
    requires AllPresent(n, entries)
  {
    var messages := MessagesOf(n, entries, |entries|);
    var rootPk := if messages == [] then None else Some(messages[0].messagePk);
    Component(SummaryOf(n, ms, root, rootPk, |messages|, entries),
              NodesOf(n, entries, |entries|), messages)
  }

  lemma RootPath(n: NodeForest, i: nat)
    requires i < |SortedRoots(n)|
    ensures var root := SortedRoots(n)[i]; root in n && PathOf(n, root) == [i + 1]
  {
    RootsAreGroup(n);
    var root := SortedRoots(n)[i];
    assert PathOf(n, root) == PathAbove(n, root) + [Position(n, root) + 1];
  }

  /** The walk of the `i`th root, which numbers its path from `i + 1`. */
  ghost function RootWalk(n: NodeForest, i: nat): (r: seq<Entry>)
    requires i < |SortedRoots(n)|
    ensures AllPresent(n, r)
  {
    RootPath(n, i);
    WalkFacts(n, SortedRoots(n)[i]);
    Walk(n, SortedRoots(n)[i], [i + 1])
  }

  /** The messages of the `i`th root's walk. */
  ghost function RootMessages(n: NodeForest, i: nat): seq<BuiltMessage>
    requires i < |SortedRoots(n)|
  {
    var entries := RootWalk(n, i);
    MessagesOf(n, entries, |entries|)
  }

  /** The components of the first `i` roots; a tree of placeholders alone gives none. */
  ghost function Components(n: NodeForest, ms: seq<Keyed>, i: nat): seq<Component>
    requires i <= |SortedRoots(n)|
  {
    if i == 0 then []
    else
      var entries := RootWalk(n, i - 1);
      var rest := Components(n, ms, i - 1);
      if RootMessages(n, i - 1) == [] then rest
      else rest + [ComponentOf(n, ms, SortedRoots(n)[i - 1], entries)]
  }

  ghost function Build(messages: seq<Message>): seq<Component> {
    var ms := KeyAll(Sort(messages, ByMessage()));
    var n := ForestOf(ms);
    Components(n, ms, |SortedRoots(n)|)
  }

  // ---- independence of the input order ----

  /** For distinct row ids every order of the same messages builds the same threads. */
  lemma InputOrderIrrelevant(a: seq<Message>, b: seq<Message>)
    requires multiset(a) == multiset(b) && DistinctPks(a)
    ensures Build(a) == Build(b)
  {
    MessageOrder();
    forall x, y | x in a && y in a && ByMessage()(x, y) && ByMessage()(y, x)
      ensures x == y
    {
      if x.subjectNorm != y.subjectNorm {
        StringLeAntisymmetric(x.subjectNorm, y.subjectNorm);
      }
      var i :| 0 <= i < |a| && a[i] == x;
      var j :| 0 <= j < |a| && a[j] == y;
      assert x.messagePk == y.messagePk;
    }
    SortPermutation(a, b, ByMessage());
  }
}
