/** The second pass of `build_threads`: the reference chain of every message is linked
    from its oldest member down to the message. */
module ThreadLink {
  import opened SubjectFallback
  import opened ThreadForest
  import opened ThreadRegister

  /** A node without links can always be added. */
  predicate Unlinked(a: Node) {
    a.parent.None? && a.children == {}
  }

  lemma AddRootKeepsForest(n: NodeForest, k: Key, a: Node)
    requires k !in n && Unlinked(a)
    ensures Forest(n[k := a])
  {
    var m, d := n[k := a], RankMap(n)[k := 0];
    forall x | x in m
      ensures ParentLinked(m, x) && ChildrenLinked(m, x) && RankGrows(m, d, x)
    {
      if x != k {
        assert ParentLinked(n, x) && ChildrenLinked(n, x) && RankGrows(n, RankMap(n), x);
      }
    }
    assert Ranked(m, d);
  }

  lemma UnlinkedForest(n: Nodes)
    requires forall k | k in n :: Unlinked(n[k])
    ensures Forest(n)
  {
    var d := map k | k in n :: 0;
    assert Ranked(n, d);
  }

  lemma RegisteredForest(ms: seq<Keyed>)
    ensures Forest(Register(ms, |ms|).nodes)
  {
    var n := Register(ms, |ms|).nodes;
    forall k | k in n
      ensures Unlinked(n[k])
    {
      var i := OwnerOf(ms, |ms|, k);
    }
    UnlinkedForest(n);
  }

  /** `m` keeps every node of `n` and its parent; nodes it adds are placeholders. */
  ghost predicate Extended(n: Nodes, m: Nodes) {
    && Grown(n, m)
    && forall k | k in m && k !in n :: m[k].content.messagePk.None? && m[k].content.isDummy
  }

  lemma ExtendedTransitive(a: Nodes, b: Nodes, c: Nodes)
    requires Extended(a, b) && Extended(b, c)
    ensures Extended(a, c)
  {
  }

  function Resolve(canonical: map<Key, Key>, id: Key): Key {
    if id in canonical then canonical[id] else id
  }

  function ResolveAll(canonical: map<Key, Key>, ids: seq<Key>): (r: seq<Key>)
    ensures |r| == |ids|
  {
    seq(|ids|, i requires 0 <= i < |ids| => Resolve(canonical, ids[i]))
  }

  ghost function AddPlaceholder(n: NodeForest, canonical: map<Key, Key>, id: Key): NodeForest {
    if id in canonical || id in n then n
    else
      AddRootKeepsForest(n, id, Placeholder());
      n[id := Placeholder()]
  }

  /** Placeholders for the first `i` references that resolve to no message. */
  ghost function AddPlaceholders(n: NodeForest, canonical: map<Key, Key>, ids: seq<Key>, i: nat): NodeForest
    requires i <= |ids|
  {
    if i == 0 then n else AddPlaceholder(AddPlaceholders(n, canonical, ids, i - 1), canonical, ids[i - 1])
  }

  /** Attaches each of the first `i` keys under the key before it. */
  ghost function LinkPath(n: NodeForest, keys: seq<Key>, i: nat): NodeForest
    requires i <= |keys|
  {
    if i <= 1 then n else Attach(LinkPath(n, keys, i - 1), keys[i - 2], keys[i - 1])
  }

  ghost function LinkMessage(n: NodeForest, canonical: map<Key, Key>, ids: seq<Key>, nodeKey: Key): NodeForest {
    var path := ResolveAll(canonical, ids) + [nodeKey];
    LinkPath(AddPlaceholders(n, canonical, ids, |ids|), path, |path|)
  }

  /** `message_pk_to_index`: the last position of a row id. */
  function LastIndexOf(ms: seq<Keyed>, n: nat, pk: int): (i: nat)
    requires n <= |ms| && exists j :: 0 <= j < n && ms[j].message.messagePk == pk
    ensures i < n && ms[i].message.messagePk == pk
    ensures forall j | i < j < n :: ms[j].message.messagePk != pk
  {
    if ms[n - 1].message.messagePk == pk then n - 1 else LastIndexOf(ms, n - 1, pk)
  }

  lemma {:induction false} NodeKeyKnown(ms: seq<Keyed>, n: nat, i: nat)
    requires i < n <= |ms|
    ensures ms[i].message.messagePk in Register(ms, n).nodeKeyOf
  {
    if i < n - 1 {
      NodeKeyKnown(ms, n - 1, i);
    }
  }

  /** The references and the node that the second pass looks up for the `i`th message, by
      its row id. */
  function ReferencesAt(ms: seq<Keyed>, i: nat): seq<Key>
    requires i < |ms|
  {
    ms[LastIndexOf(ms, |ms|, ms[i].message.messagePk)].references
  }

  function LinkedNodeAt(ms: seq<Keyed>, i: nat): Key
    requires i < |ms|
  {
    NodeKeyKnown(ms, |ms|, i);
    Register(ms, |ms|).nodeKeyOf[ms[i].message.messagePk]
  }

  /** The node map after the references of the first `i` messages. */
  ghost function LinkedAfter(ms: seq<Keyed>, i: nat): NodeForest
    requires i <= |ms|
  {
    RegisteredForest(ms);
    if i == 0 then Register(ms, |ms|).nodes
    else LinkMessage(LinkedAfter(ms, i - 1), Register(ms, |ms|).canonical,
                     ReferencesAt(ms, i - 1), LinkedNodeAt(ms, i - 1))
  }

  lemma LinkedAtStart(ms: seq<Keyed>)
    ensures Forest(Register(ms, |ms|).nodes) && LinkedAfter(ms, 0) == Register(ms, |ms|).nodes
  {
    RegisteredForest(ms);
  }

  /** The finished forest of a list of messages in processing order. */
  ghost function ForestOf(ms: seq<Keyed>): NodeForest {
    ApplySubjectFallback(LinkedAfter(ms, |ms|))
  }

  // ---- no pass loses a node or a parent ----

  lemma {:induction false} PlaceholdersExtend(n: NodeForest, canonical: map<Key, Key>, ids: seq<Key>, i: nat)
    requires i <= |ids|
    ensures Extended(n, AddPlaceholders(n, canonical, ids, i))
  {
    if i > 0 {
      PlaceholdersExtend(n, canonical, ids, i - 1);
    }
  }

  lemma {:induction false} LinkPathExtends(n: NodeForest, keys: seq<Key>, i: nat)
    requires i <= |keys|
    ensures Extended(n, LinkPath(n, keys, i))
  {
    if i > 1 {
      LinkPathExtends(n, keys, i - 1);
      var m := LinkPath(n, keys, i - 1);
      AttachGrows(m, keys[i - 2], keys[i - 1]);
      ExtendedTransitive(n, m, LinkPath(n, keys, i));
    }
  }

  lemma LinkMessageExtends(n: NodeForest, canonical: map<Key, Key>, ids: seq<Key>, nodeKey: Key)
    ensures Extended(n, LinkMessage(n, canonical, ids, nodeKey))
  {
    var m := AddPlaceholders(n, canonical, ids, |ids|);
    var path := ResolveAll(canonical, ids) + [nodeKey];
    PlaceholdersExtend(n, canonical, ids, |ids|);
    LinkPathExtends(m, path, |path|);
    ExtendedTransitive(n, m, LinkPath(m, path, |path|));
  }

  lemma {:induction false} LinkedExtends(ms: seq<Keyed>, i: nat)
    requires i <= |ms|
    ensures Extended(Register(ms, |ms|).nodes, LinkedAfter(ms, i))
  {
    if i > 0 {
      LinkedExtends(ms, i - 1);
      LinkMessageExtends(LinkedAfter(ms, i - 1), Register(ms, |ms|).canonical,
                         ReferencesAt(ms, i - 1), LinkedNodeAt(ms, i - 1));
      ExtendedTransitive(Register(ms, |ms|).nodes, LinkedAfter(ms, i - 1), LinkedAfter(ms, i));
    }
  }

  /** From its first node on, the map only grows: nodes keep their content and, once they
      have one, their parent; what is added are placeholders. */
  lemma ForestExtends(ms: seq<Keyed>)
    ensures Extended(Register(ms, |ms|).nodes, ForestOf(ms))
  {
    LinkedExtends(ms, |ms|);
    FallbackGrows(LinkedAfter(ms, |ms|));
    ExtendedTransitive(Register(ms, |ms|).nodes, LinkedAfter(ms, |ms|), ForestOf(ms));
  }

  /** The messages of the forest are those of the registry: each message whose key no
      later message took has its node, and no other node stands for a message. */
  lemma MessageNodes(ms: seq<Keyed>, k: Key) returns (i: nat)
    requires k in ForestOf(ms) && ForestOf(ms)[k].content.messagePk.Some?
    ensures OwnsKey(ms, |ms|, i, k)
    ensures ForestOf(ms)[k].content == MessageContent(ms[i].message)
  {
    ForestExtends(ms);
    i := OwnerOf(ms, |ms|, k);
  }

  lemma OwnerHasNode(ms: seq<Keyed>, i: nat, k: Key)
    requires OwnsKey(ms, |ms|, i, k)
    ensures k in ForestOf(ms) && ForestOf(ms)[k].content == MessageContent(ms[i].message)
  {
    ForestExtends(ms);
    KeyRegistered(ms, |ms|, i);
    var j := OwnerOf(ms, |ms|, k);
    assert i == j;
  }
}
