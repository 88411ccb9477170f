/** A message that replies to another one is returned with that one as its parent. */
module ThreadReplies {
  import opened MessageIds
  import opened Sorting
  import opened SubjectFallback
  import opened ThreadCollisions
  import opened ThreadForest
  import opened ThreadGuarantees
  import opened ThreadLink
  import opened ThreadOutcome
  import opened ThreadParents
  import opened ThreadRegister
  import opened Wrappers

  // ---- a node that no reference mentions ----

  /** The node stands alone: no parent and no children. */
  ghost predicate Alone(n: Nodes, c: Key) {
    IsRoot(n, c) && forall k | k in n :: n[k].parent != Some(c)
  }

  ghost predicate NeverMentioned(ms: seq<Keyed>, c: Key) {
    forall i | 0 <= i < |ms| :: c !in ms[i].references
  }

  lemma RegisteredAlone(ms: seq<Keyed>, c: Key)
    requires c in Register(ms, |ms|).nodes
    ensures Alone(LinkedAfter(ms, 0), c)
  {
    forall k | k in Register(ms, |ms|).nodes
      ensures Register(ms, |ms|).nodes[k].parent == None
    {
      var i := OwnerOf(ms, |ms|, k);
    }
  }

  lemma PlacedAlone(before: Nodes, n: Nodes, ids: seq<Key>, c: Key)
    requires Placed(before, n, ids, |ids|) && Alone(before, c)
    ensures Alone(n, c)
  {
  }

  lemma TurnLeavesAlone(before: Nodes, after: Nodes, references: seq<Key>, nodeKey: Key, c: Key)
    requires TurnLinks(before, after, references, nodeKey) && Alone(before, c)
    requires c !in references && c != nodeKey
    ensures Alone(after, c)
  {
    var path := references + [nodeKey];
    var n: NodeForest :| Placed(before, n, references, |references|) && AllIn(n, path) && AllIn(after, path)
                         && PathLinked(n, after, path, |path|);
    PlacedAlone(before, n, references, c);
    assert c !in path;
    forall k | k in after
      ensures after[k].parent != Some(c)
    {
      if after[k].parent != n[k].parent {
        var j :| 1 <= j < |path| && path[j] == k && after[k].parent == Some(path[j - 1]);
        assert path[j - 1] in path;
      }
    }
  }

  lemma {:induction false} StaysAlone(ms: seq<Keyed>, i: nat, t: nat)
    requires t <= i < |ms| && DistinctMessages(ms) && NodeKeysDistinct(ms)
    requires NeverMentioned(ms, NodeKeyAt(ms, i))
    ensures Alone(LinkedAfter(ms, t), NodeKeyAt(ms, i))
    decreases t
  {
    hide Alone, LinkedAfter, TurnLinks;
    var c := NodeKeyAt(ms, i);
    if t == 0 {
      KeyRegistered(ms, |ms|, i);
      RegisteredAlone(ms, c);
    } else {
      StaysAlone(ms, i, t - 1);
      MessageTurn(ms, t - 1);
      TurnLeavesAlone(LinkedAfter(ms, t - 1), LinkedAfter(ms, t), ms[t - 1].references, NodeKeyAt(ms, t - 1), c);
    }
  }

  lemma {:induction false} AboveHasChild(n: NodeForest, a: Key, k: Key)
    requires k in n && Ancestor(n, a, k) && a != k
    ensures exists x :: x in n && n[x].parent == Some(a)
    decreases Rank(n, k)
  {
    assert RankGrows(n, RankMap(n), k);
    ChainStep(n, k);
    var p := n[k].parent.value;
    if p != a {
      AboveHasChild(n, a, p);
    }
  }

  // ---- the turn of a reply ----

  lemma AloneIsFree(n: NodeForest, path: seq<Key>, j: nat)
    requires j < |path| && AllIn(n, path) && Alone(n, path[j]) && forall h | 0 <= h < j :: path[h] != path[j]
    ensures IsFree(n, path, j)
  {
    forall h | 0 <= h < j
      ensures !Ancestor(n, path[j], path[h])
    {
      if Ancestor(n, path[j], path[h]) {
        AboveHasChild(n, path[j], path[h]);
      }
    }
  }

  lemma TurnHangs(before: Nodes, after: Nodes, references: seq<Key>, c: Key)
    requires TurnLinks(before, after, references, c) && Alone(before, c) && references != [] && c !in references
    ensures c in after && after[c].parent == Some(references[|references| - 1])
  {
    var path, last := references + [c], |references|;
    var n: NodeForest :| Placed(before, n, references, |references|) && AllIn(n, path) && AllIn(after, path)
                         && PathLinked(n, after, path, |path|);
    PlacedAlone(before, n, references, c);
    assert path[last] == c && path[last - 1] == references[last - 1];
    assert forall h | 0 <= h < last :: path[h] == references[h];
    AloneIsFree(n, path, last);
  }

  lemma TurnGrows(ms: seq<Keyed>, j: nat)
    requires 1 <= j <= |ms|
    ensures Grown(LinkedAfter(ms, j - 1), LinkedAfter(ms, j))
  {
    LinkMessageExtends(LinkedAfter(ms, j - 1), Register(ms, |ms|).canonical,
                       ReferencesAt(ms, j - 1), LinkedNodeAt(ms, j - 1));
  }

  lemma GrownSelf(n: Nodes)
    ensures Grown(n, n)
  {
  }

  lemma {:induction false} LinkedGrows(ms: seq<Keyed>, i: nat, j: nat)
    requires i <= j <= |ms|
    ensures Grown(LinkedAfter(ms, i), LinkedAfter(ms, j))
    decreases j
  {
    hide Grown, LinkedAfter;
    if i == j {
      GrownSelf(LinkedAfter(ms, i));
    } else {
      LinkedGrows(ms, i, j - 1);
      TurnGrows(ms, j);
      GrownTransitive(LinkedAfter(ms, i), LinkedAfter(ms, j - 1), LinkedAfter(ms, j));
    }
  }

  lemma FinalParent(ms: seq<Keyed>, i: nat, c: Key)
    requires i <= |ms| && c in LinkedAfter(ms, i) && LinkedAfter(ms, i)[c].parent.Some?
    ensures c in ForestOf(ms) && ForestOf(ms)[c].parent == LinkedAfter(ms, i)[c].parent
  {
    LinkedGrows(ms, i, |ms|);
    FallbackGrows(LinkedAfter(ms, |ms|));
  }

  /** A message that nobody refers to hangs under its last reference in the end. */
  lemma LeafHangs(ms: seq<Keyed>, i: nat)
    requires i < |ms| && DistinctMessages(ms) && NodeKeysDistinct(ms) && NeverMentioned(ms, NodeKeyAt(ms, i))
    requires ms[i].references != []
    ensures NodeKeyAt(ms, i) in ForestOf(ms)
    ensures ForestOf(ms)[NodeKeyAt(ms, i)].parent == Some(ms[i].references[|ms[i].references| - 1])
  {
    hide Alone, ForestOf, LinkedAfter, TurnLinks;
    var c := NodeKeyAt(ms, i);
    StaysAlone(ms, i, i);
    MessageTurn(ms, i);
    TurnHangs(LinkedAfter(ms, i), LinkedAfter(ms, i + 1), ms[i].references, c);
    FinalParent(ms, i + 1, c);
  }

  // ---- messages ----

  /** Stored Message-IDs are ordinary: none is empty or begins like a key that is made up. */
  ghost predicate Ordinary(messages: seq<Message>) {
    && DistinctPks(messages)
    && forall m | m in messages :: NormalizeToken(m.messageIdPrimary) != "" && !UsesReservedPrefix(m)
  }

  /** No other message has the Message-ID of `m`. */
  ghost predicate OnlyOne(messages: seq<Message>, m: Message) {
    && m in messages
    && forall x | x in messages && x != m ::
         NormalizeToken(x.messageIdPrimary) != NormalizeToken(m.messageIdPrimary)
  }

  ghost predicate NobodyRefersTo(messages: seq<Message>, m: Message) {
    forall x, tokens | x in messages && RefersTo(x, tokens) :: NormalizeToken(m.messageIdPrimary) !in tokens
  }

  ghost predicate LastRefersTo(b: Message, a: Message) {
    forall tokens | RefersTo(b, tokens) ::
      tokens != [] && tokens[|tokens| - 1] == NormalizeToken(a.messageIdPrimary)
  }

  /** The message comes back, with that parent. */
  ghost predicate ReturnedUnder(out: seq<BuiltMessage>, pk: int, parentPk: Option<int>) {
    exists j :: 0 <= j < |out| && out[j].messagePk == pk && out[j].parentMessagePk == parentPk
  }

  lemma OnlyOneKey(messages: seq<Message>, sorted: seq<Message>, i: nat)
    requires Ordinary(messages) && SortedFrom(sorted, messages) && i < |sorted| && OnlyOne(messages, sorted[i])
    ensures NodeKeyAt(KeyAll(sorted), i) == Key(NormalizeToken(sorted[i].messageIdPrimary))
  {
    hide NormalizeToken;
    var ms := KeyAll(sorted);
    KeyedIsFrom(sorted);
    NodeKeyForm(ms, i);
    assert sorted[i] in messages by {
      assert sorted[i] in sorted;
    }
    forall h | 0 <= h < i
      ensures ms[h].canonical != ms[i].canonical
    {
      assert sorted[h] in sorted && sorted[h] != sorted[i];
    }
  }

  lemma OrdinaryKeysDiffer(messages: seq<Message>, sorted: seq<Message>)
    requires Ordinary(messages) && SortedFrom(sorted, messages)
    ensures NodeKeysDistinct(KeyAll(sorted)) && DistinctMessages(KeyAll(sorted))
  {
    forall i | 0 <= i < |sorted|
      ensures !UsesReservedPrefix(sorted[i])
    {
      assert sorted[i] in sorted;
    }
    HonestIdsAreDistinct(sorted);
  }

  lemma NobodyMentions(messages: seq<Message>, sorted: seq<Message>, m: Message)
    requires SortedFrom(sorted, messages) && NobodyRefersTo(messages, m)
    ensures NeverMentioned(KeyAll(sorted), Key(NormalizeToken(m.messageIdPrimary)))
  {
    hide NormalizeToken;
    var ms, c := KeyAll(sorted), Key(NormalizeToken(m.messageIdPrimary));
    forall i | 0 <= i < |ms|
      ensures c !in ms[i].references
    {
      assert sorted[i] in sorted;
      ReferenceChainRefers(sorted[i]);
    }
  }

  lemma LastReference(b: Message, a: Message)
    requires LastRefersTo(b, a)
    ensures var ids := ChainKeys(b);
            ids != [] && ids[|ids| - 1] == Key(NormalizeToken(a.messageIdPrimary))
  {
    hide NormalizeToken, ReferenceChain, RefersTo;
    ReferenceChainRefers(b);
  }

  lemma ListedUnder(n: NodeForest, out: seq<BuiltMessage>, keys: seq<Key>, c: Key, pk: int)
    requires ListsAll(n, out, keys) && c in n && n[c].content.messagePk == Some(pk)
    ensures ReturnedUnder(out, pk, NearestRealParent(n, c))
  {
    hide NearestRealParent;
    var x :| 0 <= x < |keys| && keys[x] == c;
    assert out[x].messagePk == pk;
  }

  lemma ParentIsNearest(n: NodeForest, c: Key, p: Key, pk: int)
    requires c in n && n[c].parent == Some(p) && p in n && n[p].content.messagePk == Some(pk)
    ensures NearestRealParent(n, c) == Some(pk)
  {
  }

  /** The parent of a node that stands for a message is returned with the message below. */
  lemma ChildIsReturned(messages: seq<Message>, ms: seq<Keyed>, i: nat, j: nat)
    requires DistinctPks(messages) && ms == KeyAll(Sort(messages, ByMessage()))
    requires i < |ms| && j < |ms| && NodeKeysDistinct(ms)
    requires NodeKeyAt(ms, i) in ForestOf(ms) && ForestOf(ms)[NodeKeyAt(ms, i)].parent == Some(NodeKeyAt(ms, j))
    ensures ReturnedUnder(AllMessages(Build(messages)), ms[i].message.messagePk, Some(ms[j].message.messagePk))
  {
    hide NearestRealParent, ListsAll, ReturnedUnder, DistinctPks;
    var out, c := AllMessages(Build(messages)), NodeKeyAt(ms, i);
    var keys := BuildLists(messages, ms);
    OwnerHasNode(ms, i, c);
    OwnerHasNode(ms, j, NodeKeyAt(ms, j));
    ParentIsNearest(ForestOf(ms), c, NodeKeyAt(ms, j), ms[j].message.messagePk);
    ListedUnder(ForestOf(ms), out, keys, c, ms[i].message.messagePk);
  }

  lemma IndexOf(messages: seq<Message>, sorted: seq<Message>, m: Message) returns (i: nat)
    requires SortedFrom(sorted, messages) && m in messages
    ensures i < |sorted| && sorted[i] == m
  {
    assert m in sorted;
    i :| i < |sorted| && sorted[i] == m;
  }

  lemma LeafAt(messages: seq<Message>, sorted: seq<Message>, i: nat, j: nat)
    requires Ordinary(messages) && SortedFrom(sorted, messages) && i < |sorted| && j < |sorted|
    requires OnlyOne(messages, sorted[i]) && OnlyOne(messages, sorted[j])
    requires NobodyRefersTo(messages, sorted[i]) && LastRefersTo(sorted[i], sorted[j])
    ensures var n, c := ForestOf(KeyAll(sorted)), NodeKeyAt(KeyAll(sorted), i);
            c in n && n[c].parent == Some(NodeKeyAt(KeyAll(sorted), j))
    ensures NodeKeysDistinct(KeyAll(sorted))
  {
    hide LastRefersTo, NobodyRefersTo, NormalizeToken, OnlyOne, Ordinary, SortedFrom;
    hide DistinctMessages, ForestOf, NeverMentioned, NodeKeyAt, NodeKeysDistinct;
    OnlyOneKey(messages, sorted, i);
    OnlyOneKey(messages, sorted, j);
    OrdinaryKeysDiffer(messages, sorted);
    NobodyMentions(messages, sorted, sorted[i]);
    LastReference(sorted[i], sorted[j]);
    LeafHangs(KeyAll(sorted), i);
  }

  /** Among messages with ordinary ids, one that nobody refers to is returned under the message
      that its last reference names. */
  lemma LeafIsReturnedUnder(messages: seq<Message>, b: Message, a: Message)
    requires Ordinary(messages) && OnlyOne(messages, a) && OnlyOne(messages, b)
    requires NobodyRefersTo(messages, b) && LastRefersTo(b, a)
    ensures ReturnedUnder(AllMessages(Build(messages)), b.messagePk, Some(a.messagePk))
  {
    hide LastRefersTo, NobodyRefersTo, NormalizeToken, ReturnedUnder, SortedFrom;
    var sorted := Sort(messages, ByMessage());
    SortedIsFrom(messages);
    var i := IndexOf(messages, sorted, b);
    var j := IndexOf(messages, sorted, a);
    LeafAt(messages, sorted, i, j);
    ChildIsReturned(messages, KeyAll(sorted), i, j);
  }

  // ---- a message and its reply ----

  /** The node stands below another one of the path. */
  ghost predicate BelowIn(path: seq<Key>, c: Key) {
    exists j :: 1 <= j < |path| && path[j] == c
  }

  ghost predicate AlwaysFirst(ms: seq<Keyed>, c: Key) {
    forall i | 0 <= i < |ms| :: !BelowIn(PathOfMessage(ms, i), c)
  }

  lemma TurnKeepsRoot(before: Nodes, after: Nodes, references: seq<Key>, nodeKey: Key, c: Key)
    requires TurnLinks(before, after, references, nodeKey) && IsRoot(before, c)
    requires !BelowIn(references + [nodeKey], c)
    ensures IsRoot(after, c)
  {
    var path := references + [nodeKey];
    var n: NodeForest :| Placed(before, n, references, |references|) && AllIn(n, path) && AllIn(after, path)
                         && PathLinked(n, after, path, |path|);
  }

  lemma RegisteredRoot(ms: seq<Keyed>, c: Key)
    requires c in Register(ms, |ms|).nodes
    ensures IsRoot(LinkedAfter(ms, 0), c)
  {
    var i := OwnerOf(ms, |ms|, c);
  }

  lemma {:induction false} StaysRoot(ms: seq<Keyed>, t: nat, c: Key)
    requires t <= |ms| && DistinctMessages(ms) && AlwaysFirst(ms, c) && c in Register(ms, |ms|).nodes
    ensures IsRoot(LinkedAfter(ms, t), c)
    decreases t
  {
    hide BelowIn, IsRoot, LinkedAfter, TurnLinks;
    if t == 0 {
      RegisteredRoot(ms, c);
    } else {
      StaysRoot(ms, t - 1, c);
      MessageTurn(ms, t - 1);
      assert !BelowIn(PathOfMessage(ms, t - 1), c);
      TurnKeepsRoot(LinkedAfter(ms, t - 1), LinkedAfter(ms, t), ms[t - 1].references, NodeKeyAt(ms, t - 1), c);
    }
  }

  /** The only root that stands for a message stays where it is. */
  lemma LoneRootStays(n: NodeForest, k: Key)
    requires IsRealRoot(n, k) && forall q | IsRealRoot(n, q) :: q == k
    ensures k in ApplySubjectFallback(n) && ApplySubjectFallback(n)[k].parent == None
  {
    FallbackResult(n);
    SortedRealRootsList(n);
    var roots := SortedRealRoots(n);
    var i :| 0 <= i < |roots| && roots[i] == k;
  }

  /** The finished forest of two messages, the second of which refers to the first alone. */
  lemma {:induction false} StarterIsRoot(ms: seq<Keyed>, i: nat, j: nat)
    requires DistinctMessages(ms) && NodeKeysDistinct(ms) && |ms| == 2 && i < 2 && j < 2 && i != j
    requires ms[j].references == [] && ms[i].references == [NodeKeyAt(ms, j)]
    requires NodeKeyAt(ms, i) in LinkedAfter(ms, 2) && LinkedAfter(ms, 2)[NodeKeyAt(ms, i)].parent.Some?
    ensures NodeKeyAt(ms, j) in ForestOf(ms) && ForestOf(ms)[NodeKeyAt(ms, j)].parent == None
  {
    var n, k, c := LinkedAfter(ms, 2), NodeKeyAt(ms, j), NodeKeyAt(ms, i);
    forall t | 0 <= t < 2
      ensures !BelowIn(PathOfMessage(ms, t), k)
    {
      assert PathOfMessage(ms, i) == [k, c] && PathOfMessage(ms, j) == [k];
    }
    KeyRegistered(ms, 2, j);
    StaysRoot(ms, 2, k);
    LinkedExtends(ms, 2);
    OwnerHasNode(ms, j, k);
    forall q | IsRealRoot(n, q)
      ensures q == k
    {
      var o := OwnerOf(ms, 2, q);
    }
    LoneRootStays(n, k);
  }

  lemma RootIsReturned(messages: seq<Message>, ms: seq<Keyed>, j: nat)
    requires DistinctPks(messages) && ms == KeyAll(Sort(messages, ByMessage()))
    requires j < |ms| && NodeKeysDistinct(ms)
    requires NodeKeyAt(ms, j) in ForestOf(ms) && ForestOf(ms)[NodeKeyAt(ms, j)].parent == None
    ensures ReturnedUnder(AllMessages(Build(messages)), ms[j].message.messagePk, None)
  {
    var out, c := AllMessages(Build(messages)), NodeKeyAt(ms, j);
    var keys := BuildLists(messages, ms);
    OwnerHasNode(ms, j, c);
    var x :| 0 <= x < |keys| && keys[x] == c;
    assert out[x].messagePk == ms[j].message.messagePk;
  }

  /** `b` replies to `a` and to nothing else, and `a` replies to nothing. */
  ghost predicate IsReplyTo(b: Message, a: Message) {
    && a.referencesIds == [] && a.inReplyToIds == []
    && forall tokens | RefersTo(b, tokens) :: tokens == [NormalizeToken(a.messageIdPrimary)]
  }

  lemma ReplyReferences(b: Message, a: Message)
    requires IsReplyTo(b, a)
    ensures ChainKeys(a) == [] && ChainKeys(b) == [Key(NormalizeToken(a.messageIdPrimary))]
  {
    hide NormalizeToken;
    ReferenceChainRefers(b);
  }

  lemma ReplyConditions(messages: seq<Message>, b: Message, a: Message)
    requires Ordinary(messages) && |messages| == 2 && a in messages && b in messages && IsReplyTo(b, a)
    requires NormalizeToken(a.messageIdPrimary) != NormalizeToken(b.messageIdPrimary)
    ensures OnlyOne(messages, a) && OnlyOne(messages, b) && NobodyRefersTo(messages, b) && LastRefersTo(b, a)
  {
    hide NormalizeToken;
    var i: nat :| i < 2 && messages[i] == a;
    var j: nat :| j < 2 && messages[j] == b;
    forall x | x in messages
      ensures x == a || x == b
    {
    }
  }

  lemma PairForest(messages: seq<Message>, sorted: seq<Message>, i: nat, j: nat)
    requires Ordinary(messages) && SortedFrom(sorted, messages) && |sorted| == 2 && i < 2 && j < 2 && i != j
    requires OnlyOne(messages, sorted[i]) && OnlyOne(messages, sorted[j]) && IsReplyTo(sorted[i], sorted[j])
    requires NobodyRefersTo(messages, sorted[i])
    ensures var ms := KeyAll(sorted);
            && NodeKeysDistinct(ms) && NodeKeyAt(ms, j) in ForestOf(ms)
            && ForestOf(ms)[NodeKeyAt(ms, j)].parent == None
  {
    hide ForestOf, IsReplyTo, NobodyRefersTo, NormalizeToken, OnlyOne, Ordinary, SortedFrom;
    var ms := KeyAll(sorted);
    OrdinaryKeysDiffer(messages, sorted);
    OnlyOneKey(messages, sorted, i);
    OnlyOneKey(messages, sorted, j);
    ReplyReferences(sorted[i], sorted[j]);
    NobodyMentions(messages, sorted, sorted[i]);
    ReplyIsLinked(ms, i);
    StarterIsRoot(ms, i, j);
  }

  lemma {:induction false} ReplyIsLinked(ms: seq<Keyed>, i: nat)
    requires |ms| == 2 && i < 2 && DistinctMessages(ms) && NodeKeysDistinct(ms) && NeverMentioned(ms, NodeKeyAt(ms, i))
    requires ms[i].references != []
    ensures NodeKeyAt(ms, i) in LinkedAfter(ms, 2) && LinkedAfter(ms, 2)[NodeKeyAt(ms, i)].parent.Some?
  {
    hide Alone, LinkedAfter, TurnLinks;
    StaysAlone(ms, i, i);
    MessageTurn(ms, i);
    TurnHangs(LinkedAfter(ms, i), LinkedAfter(ms, i + 1), ms[i].references, NodeKeyAt(ms, i));
    LinkedGrows(ms, i + 1, 2);
  }

  /** Of a message and its reply, in whatever order and under whatever dates and subjects, the
      reply is returned under the message and the message under none. */
  lemma ReplyIsReturnedUnder(messages: seq<Message>, b: Message, a: Message)
    requires Ordinary(messages) && |messages| == 2 && a in messages && b in messages && IsReplyTo(b, a)
    requires NormalizeToken(a.messageIdPrimary) != NormalizeToken(b.messageIdPrimary)
    ensures ReturnedUnder(AllMessages(Build(messages)), b.messagePk, Some(a.messagePk))
    ensures ReturnedUnder(AllMessages(Build(messages)), a.messagePk, None)
  {
    hide IsReplyTo, LastRefersTo, NobodyRefersTo, NormalizeToken, OnlyOne, ReturnedUnder, SortedFrom;
    var sorted := Sort(messages, ByMessage());
    SortedIsFrom(messages);
    SortMultiset(messages, ByMessage());
    ReplyConditions(messages, b, a);
    LeafIsReturnedUnder(messages, b, a);
    var i := IndexOf(messages, sorted, b);
    var j := IndexOf(messages, sorted, a);
    PairForest(messages, sorted, i, j);
    RootIsReturned(messages, KeyAll(sorted), j);
  }
}
