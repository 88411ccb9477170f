/** `build_threads` step by step: a node map that is filled, linked and walked in place,
    proved to return `ThreadOutcome.Build`. */
module ThreadBuilder {
  import opened MessageIds
  import opened Sorting
  import opened SubjectFallback
  import opened ThreadForest
  import opened ThreadLink
  import opened ThreadOutcome
  import opened ThreadRegister
  import opened ThreadWalk
  import opened Wrappers

  /** Collects the keys of a hash collection in whatever order it yields them and sorts
      them by `sort_tuple`; the yielding order does not show in the result. */
  method CollectSorted(n: Nodes, keys: set<Key>) returns (sorted: seq<Key>)
    ensures sorted == SortSet(keys, ByTuple(n))
  {
    var rest, found := keys, [];
    while rest != {}
      invariant multiset(found) + multiset(rest) == multiset(keys)
      decreases rest
    {
      var k :| k in rest;
      rest, found := rest - {k}, found + [k];
    }
    sorted := Sort(found, ByTuple(n));
    ByTupleOrder(n);
    SortSetOf(found, keys, ByTuple(n));
  }

  class Builder {
    var nodes: Nodes
    var canonicalKeyToNodeKey: map<Key, Key>
    var messagePkToNodeKey: map<int, Key>

    ghost predicate Valid()
      reads this
    {
      Forest(nodes)
    }

    constructor ()
      ensures Valid() && nodes == map[]
      ensures canonicalKeyToNodeKey == map[] && messagePkToNodeKey == map[]
    {
      nodes, canonicalKeyToNodeKey, messagePkToNodeKey := map[], map[], map[];
      new;
      UnlinkedForest(nodes);
    }

    /** Follows parents upwards; the forest invariant makes the loop end. */
    method IntroducesCycle(parentKey: Key, childKey: Key) returns (cycle: bool)
      requires Valid() && parentKey in nodes
      ensures cycle <==> Ancestor(nodes, childKey, parentKey)
    {
      var current := Some(parentKey);
      while current.Some?
        invariant current.Some? ==> current.value in nodes
        invariant Ancestor(nodes, childKey, parentKey) <==>
                  current.Some? && Ancestor(nodes, childKey, current.value)
        decreases if current.Some? then 1 + Rank(nodes, current.value) else 0
      {
        var key := current.value;
        if key == childKey {
          return true;
        }
        assert RankGrows(nodes, RankMap(nodes), key);
        current := nodes[key].parent;
      }
      return false;
    }

    method TryAttachParent(parentKey: Key, childKey: Key) returns (attached: bool)
      requires Valid()
      modifies this`nodes
      ensures Valid()
      ensures attached <==> CanAttach(old(nodes), parentKey, childKey)
      ensures nodes == Attach(old(nodes), parentKey, childKey)
    {
      if parentKey == childKey {
        return false;
      }
      if parentKey !in nodes || childKey !in nodes {
        return false;
      }
      if nodes[childKey].parent.Some? {
        return false;
      }
      var cycle := IntroducesCycle(parentKey, childKey);
      if cycle {
        return false;
      }
      AttachKeepsForest(nodes, parentKey, childKey);
      nodes := nodes[childKey := nodes[childKey].(parent := Some(parentKey))];
      nodes := nodes[parentKey := nodes[parentKey].(children := nodes[parentKey].children + {childKey})];
      return true;
    }

    /** The first pass: a node for every message, in processing order. */
    method RegisterMessages(ms: seq<Keyed>)
      requires nodes == map[] && canonicalKeyToNodeKey == map[] && messagePkToNodeKey == map[]
      modifies this
      ensures Registry(nodes, canonicalKeyToNodeKey, messagePkToNodeKey) == Register(ms, |ms|)
    {
      for i := 0 to |ms|
        invariant Registry(nodes, canonicalKeyToNodeKey, messagePkToNodeKey) == Register(ms, i)
      {
        var m := ms[i];
        var nodeKey := m.canonical;
        if !m.synthetic && m.canonical in canonicalKeyToNodeKey {
          nodeKey := m.duplicate;
        }
        if !m.synthetic && m.canonical !in canonicalKeyToNodeKey {
          canonicalKeyToNodeKey := canonicalKeyToNodeKey[m.canonical := nodeKey];
        }
        nodes := nodes[nodeKey := MessageNode(m.message)];
        messagePkToNodeKey := messagePkToNodeKey[m.message.messagePk := nodeKey];
      }
    }

    /** Resolves a reference chain, adding a placeholder for every unknown reference. */
    method PlaceReferences(ids: seq<Key>) returns (chain: seq<Key>)
      requires Valid()
      modifies this`nodes
      ensures Valid()
      ensures nodes == AddPlaceholders(old(nodes), canonicalKeyToNodeKey, ids, |ids|)
      ensures chain == ResolveAll(canonicalKeyToNodeKey, ids)
    {
      ghost var start: NodeForest := nodes;
      chain := [];
      for i := 0 to |ids|
        invariant Valid() && nodes == AddPlaceholders(start, canonicalKeyToNodeKey, ids, i)
        invariant chain == ResolveAll(canonicalKeyToNodeKey, ids)[..i]
      {
        var resolved := ids[i];
        if ids[i] in canonicalKeyToNodeKey {
          resolved := canonicalKeyToNodeKey[ids[i]];
        } else if ids[i] !in nodes {
          AddRootKeepsForest(nodes, ids[i], Placeholder());
          nodes := nodes[ids[i] := Placeholder()];
        }
        chain := chain + [resolved];
      }
    }

    /** Attaches every key of the chain under the one before it, and the node last. */
    method LinkChain(chain: seq<Key>, nodeKey: Key)
      requires Valid()
      modifies this`nodes
      ensures Valid() && nodes == LinkPath(old(nodes), chain + [nodeKey], |chain| + 1)
    {
      ghost var start: NodeForest := nodes;
      ghost var path := chain + [nodeKey];
      var prev := None;
      for i := 0 to |chain|
        invariant prev == if i == 0 then None else Some(path[i - 1])
        invariant Valid() && nodes == LinkPath(start, path, i)
      {
        if prev.Some? {
          var _ := TryAttachParent(prev.value, chain[i]);
        }
        prev := Some(chain[i]);
      }
      if prev.Some? {
        var _ := TryAttachParent(prev.value, nodeKey);
      }
    }

    method LinkReferences(ids: seq<Key>, nodeKey: Key)
      requires Valid()
      modifies this`nodes
      ensures Valid() && nodes == LinkMessage(old(nodes), canonicalKeyToNodeKey, ids, nodeKey)
    {
      var chain := PlaceReferences(ids);
      LinkChain(chain, nodeKey);
    }

    /** The first `i` messages are linked. */
    ghost predicate Linking(ms: seq<Keyed>, i: nat)
      reads this
      requires i <= |ms|
    {
      && Valid() && nodes == LinkedAfter(ms, i)
      && canonicalKeyToNodeKey == Register(ms, |ms|).canonical && messagePkToNodeKey == Register(ms, |ms|).nodeKeyOf
    }

    /** Links the `i`th message, whose references and node it looks up by row id. */
    method LinkOne(ms: seq<Keyed>, i: nat)
      requires i < |ms| && Linking(ms, i)
      modifies this`nodes
      ensures Linking(ms, i + 1)
    {
      NodeKeyKnown(ms, |ms|, i);
      LinkReferences(ReferencesAt(ms, i), messagePkToNodeKey[ms[i].message.messagePk]);
    }

    /** The second pass over the messages in processing order. */
    method LinkMessages(ms: seq<Keyed>)
      requires Registry(nodes, canonicalKeyToNodeKey, messagePkToNodeKey) == Register(ms, |ms|)
      modifies this`nodes
      ensures Valid() && nodes == LinkedAfter(ms, |ms|)
    {
      LinkedAtStart(ms);
      for i := 0 to |ms|
        invariant Linking(ms, i)
      {
        LinkOne(ms, i);
      }
    }

    method ApplyFallback()
      requires Valid()
      modifies this`nodes
      ensures Valid() && nodes == ApplySubjectFallback(old(nodes))
    {
      ghost var start: NodeForest := nodes;
      var roots := CollectSorted(nodes, RealRoots(nodes));
      SortedRealRootsList(nodes);
      for i := 0 to |roots|
        invariant Valid()
        invariant FallbackFrom(nodes, roots, i) == FallbackFrom(start, roots, 0)
      {
        var child := roots[i];
        if Moves(nodes, child) {
          var candidates := Sort(Candidates(nodes, roots, child), ByReplyThenTuple(nodes));
          if candidates != [] {
            var _ := TryAttachParent(candidates[0], child);
          }
        }
      }
    }

    method NearestReal(k: Key) returns (pk: Option<int>)
      requires Valid() && k in nodes
      ensures pk == NearestRealParent(nodes, k)
    {
      assert RankGrows(nodes, RankMap(nodes), k);
      var current := nodes[k].parent;
      ghost var below := k;
      while current.Some?
        invariant below in nodes && nodes[below].parent == current
        invariant current.Some? ==> current.value in nodes
        invariant NearestRealParent(nodes, k) == NearestRealParent(nodes, below)
        decreases Rank(nodes, below)
      {
        var parentKey := current.value;
        if nodes[parentKey].content.messagePk.Some? {
          return nodes[parentKey].content.messagePk;
        }
        assert RankGrows(nodes, RankMap(nodes), below) && RankGrows(nodes, RankMap(nodes), parentKey);
        below := parentKey;
        current := nodes[parentKey].parent;
      }
      return None;
    }

    /** The recursion descends into strictly smaller subtrees. */
    method WalkPreorder(k: Key, path: seq<nat>) returns (out: seq<Entry>)
      requires Valid() && k in nodes
      ensures out == Walk(nodes, k, path)
      decreases Subtree(nodes, k)
    {
      out := [Entry(k, path)];
      var children := CollectSorted(nodes, nodes[k].children);
      ChildrenBelow(nodes, k);
      assert children == SortedChildren(nodes, k);
      for i := 0 to |children|
        invariant out + RestOfWalk(nodes, children, i, path) == Walk(nodes, k, path)
      {
        assert children[i] in nodes;
        SmallerSubtree(nodes, k, i);
        WalkRest(nodes, children, i, path);
        var more := WalkPreorder(children[i], path + [i + 1]);
        ConcatAssociative(out, more, RestOfWalk(nodes, children, i + 1, path));
        out := out + more;
      }
    }

    /** Turns the walked entries of one tree into its nodes and messages. */
    method CollectEntries(entries: seq<Entry>)
        returns (threadNodes: seq<BuiltNode>, messages: seq<BuiltMessage>, dates: seq<int>, members: seq<Member>)
      requires Valid() && AllPresent(nodes, entries)
      ensures threadNodes == NodesOf(nodes, entries, |entries|)
      ensures messages == MessagesOf(nodes, entries, |entries|)
      ensures dates == DatesOf(nodes, entries, |entries|)
      ensures members == MembersOf(nodes, entries, |entries|)
    {
      threadNodes, messages, dates, members := [], [], [], [];
      for i := 0 to |entries|
        invariant threadNodes == NodesOf(nodes, entries, i)
        invariant messages == MessagesOf(nodes, entries, i)
        invariant dates == DatesOf(nodes, entries, i)
        invariant members == MembersOf(nodes, entries, i)
      {
        var entry := entries[i];
        var node := nodes[entry.key].content;
        threadNodes := threadNodes + [NodeOf(nodes, entry)];
        if node.messagePk.Some? {
          var parentPk := NearestReal(entry.key);
          messages := messages + [BuiltMessage(node.messagePk.value, parentPk, entry.Depth(), entry.SortKey(), false)];
          dates := dates + [node.dateUtc];
          members := members + [Member(node.messageIdPrimary.GetOr(""), node.messagePk.value)];
        }
      }
    }

    /** The component of the `i`th root, if its tree holds a message. */
    method BuildComponent(ms: seq<Keyed>, roots: seq<Key>, i: nat) returns (component: Option<Component>)
      requires Valid() && roots == SortedRoots(nodes) && i < |roots|
      ensures component == if RootMessages(nodes, i) == [] then None
                           else Some(ComponentOf(nodes, ms, roots[i], RootWalk(nodes, i)))
    {
      RootsAreGroup(nodes);
      var entries := WalkPreorder(roots[i], [i + 1]);
      assert entries == RootWalk(nodes, i);
      var threadNodes, messages, dates, members := CollectEntries(entries);
      if messages == [] {
        return None;
      }
      var rootPk := Some(messages[0].messagePk);
      var subject := SubjectOf(ms, |ms|, messages[0].messagePk);
      var createdAt := if dates == [] then 0 else MinOf(dates, |dates|);
      var lastActivityAt := if dates == [] then 0 else MaxOf(dates, |dates|);
      return Some(Component(
        Summary(roots[i], rootPk, subject, createdAt, lastActivityAt, |messages|, TokensOf(members)),
        threadNodes, messages));
    }

    method BuildComponents(ms: seq<Keyed>) returns (components: seq<Component>)
      requires Valid()
      ensures components == Components(nodes, ms, |SortedRoots(nodes)|)
    {
      var roots := CollectSorted(nodes, Roots(nodes));
      components := [];
      for i := 0 to |roots|
        invariant components == Components(nodes, ms, i)
      {
        var component := BuildComponent(ms, roots, i);
        if component.Some? {
          components := components + [component.value];
        }
        assert components == Components(nodes, ms, i + 1);
      }
    }
  }

  lemma NoMessagesNoComponents()
    ensures Build([]) == []
  {
    var n := ForestOf([]);
    FallbackGrows(LinkedAfter([], 0));
    assert Roots(n) == {};
    SortedKeysFacts(n, Roots(n));
  }

  method BuildThreads(messages: seq<Message>) returns (components: seq<Component>)
    ensures components == Build(messages)
  {
    if messages == [] {
      NoMessagesNoComponents();
      return [];
    }
    var ms := KeyAll(Sort(messages, ByMessage()));
    var builder := new Builder();
    builder.RegisterMessages(ms);
    builder.LinkMessages(ms);
    builder.ApplyFallback();
    components := builder.BuildComponents(ms);
  }

  /** What is still to be walked of a list of siblings from the `i`th on. */
  ghost function RestOfWalk(n: NodeForest, kids: seq<Key>, i: nat, path: seq<nat>): seq<Entry>
    requires i <= |kids| && AllNodes(n, kids)
  {
    WalkAll(n, kids[i..], i, path)
  }

  lemma WalkRest(n: NodeForest, kids: seq<Key>, i: nat, path: seq<nat>)
    requires i < |kids| && AllNodes(n, kids)
    ensures RestOfWalk(n, kids, i, path) ==
            Walk(n, kids[i], path + [i + 1]) + RestOfWalk(n, kids, i + 1, path)
  {
    assert kids[i..][0] == kids[i] && kids[i..][1..] == kids[i + 1..];
  }

  lemma SmallerSubtree(n: NodeForest, k: Key, i: nat)
    requires k in n && i < |SortedChildren(n, k)|
    ensures Subtree(n, SortedChildren(n, k)[i]) < Subtree(n, k)
  {
    var kids := SortedChildren(n, k);
    ChildrenBelow(n, k);
    assert kids[i] in kids && kids[i] in n;
    forall x | x in Subtree(n, kids[i])
      ensures x in Subtrees(n, kids)
    {
      InSubtrees(n, kids, x);
    }
  }
}
