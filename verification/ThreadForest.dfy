/** The node map of the thread builder: its forest invariant, the ancestor chain of a
    node, and the one operation that changes links, `try_attach_parent`. */
module ThreadForest {
  import opened Sorting
  import opened Wrappers

  /** A node key; a datatype of its own keeps keys apart from the sequences of keys. */
  datatype Key = Key(text: string)

  /** The fields of a node that are set when it is made and never change. */
  datatype Content = Content(
    messagePk: Option<int>,
    messageIdPrimary: Option<string>,
    subjectRaw: string,
    subjectNorm: string,
    dateUtc: int,
    isDummy: bool)

  /** `node_key` is the key under which a node is stored and has no field of its own. */
  datatype Node = Node(content: Content, parent: Option<Key>, children: set<Key>)

  type Nodes = map<Key, Node>

  ghost predicate ParentLinked(n: Nodes, k: Key)
    requires k in n
  {
    n[k].parent.Some? ==> n[k].parent.value in n && k in n[n[k].parent.value].children
  }

  ghost predicate ChildrenLinked(n: Nodes, k: Key)
    requires k in n
  {
    forall c | c in n[k].children :: c in n && n[c].parent == Some(k)
  }

  /** `parent` and `children` are exact inverses. */
  ghost predicate Linked(n: Nodes) {
    forall k {:trigger ParentLinked(n, k)} {:trigger ChildrenLinked(n, k)} | k in n ::
      ParentLinked(n, k) && ChildrenLinked(n, k)
  }

  ghost predicate RankGrows(n: Nodes, d: map<Key, nat>, k: Key)
    requires k in n
  {
    && k in d
    && (n[k].parent.Some? ==>
          && n[k].parent.value in n && n[k].parent.value in d
          && d[n[k].parent.value] < d[k])
  }

  /** `d` grows from every parent to its children, so no chain of parents can cycle. */
  ghost predicate Ranked(n: Nodes, d: map<Key, nat>) {
    forall k {:trigger RankGrows(n, d, k)} | k in n :: RankGrows(n, d, k)
  }

  ghost predicate Forest(n: Nodes) {
    Linked(n) && exists d :: Ranked(n, d)
  }

  ghost const EMPTY_RANK: map<Key, nat> := map[]

  ghost function NoNodes(): (n: Nodes)
    ensures n == map[] && Forest(n)
  {
    var n: Nodes := map[];
    assert Ranked(n, EMPTY_RANK);
    n
  }

  type NodeForest = n: Nodes | Forest(n) ghost witness NoNodes()

  ghost function RankMap(n: NodeForest): (d: map<Key, nat>)
    ensures Ranked(n, d)
  {
    var d :| Ranked(n, d); d
  }

  ghost function Rank(n: NodeForest, k: Key): nat
    requires k in n
  {
    assert RankGrows(n, RankMap(n), k);
    RankMap(n)[k]
  }

  predicate IsRoot(n: Nodes, k: Key) {
    k in n && n[k].parent.None?
  }

  /** The node itself followed by its ancestors, nearest first. */
  ghost function Chain(n: NodeForest, k: Key): (c: seq<Key>)
    requires k in n
    ensures c != [] && c[0] == k
    ensures IsRoot(n, c[|c| - 1])
    decreases Rank(n, k)
  {
    assert RankGrows(n, RankMap(n), k);
    if n[k].parent.None? then [k] else [k] + Chain(n, n[k].parent.value)
  }

  ghost function Depth(n: NodeForest, k: Key): nat
    requires k in n
  {
    |Chain(n, k)| - 1
  }

  ghost function RootOf(n: NodeForest, k: Key): (r: Key)
    requires k in n
    ensures IsRoot(n, r)
  {
    Chain(n, k)[Depth(n, k)]
  }

  ghost predicate Ancestor(n: NodeForest, a: Key, k: Key)
    requires k in n
  {
    a in Chain(n, k)
  }

  /** The nodes of the subtree rooted at `k`. */
  ghost function Subtree(n: NodeForest, k: Key): set<Key>
  {
    set x | x in n && Ancestor(n, k, x)
  }

  lemma ChainStep(n: NodeForest, k: Key)
    requires k in n && n[k].parent.Some?
    ensures n[k].parent.value in n
    ensures Chain(n, k) == [k] + Chain(n, n[k].parent.value)
  {
    assert RankGrows(n, RankMap(n), k);
  }

  lemma {:induction false} AncestorRank(n: NodeForest, a: Key, k: Key)
    requires k in n && Ancestor(n, a, k)
    ensures a in n && Rank(n, a) <= Rank(n, k)
    ensures a != k ==> Rank(n, a) < Rank(n, k)
    decreases Rank(n, k)
  {
    assert RankGrows(n, RankMap(n), k);
    if a != k {
      AncestorRank(n, a, n[k].parent.value);
    }
  }

  /** The chain of an ancestor is the tail of the chain. */
  lemma {:induction false} ChainSuffix(n: NodeForest, a: Key, k: Key)
    requires k in n && Ancestor(n, a, k)
    ensures a in n
    ensures |Chain(n, a)| <= |Chain(n, k)|
    ensures Chain(n, a) == Chain(n, k)[|Chain(n, k)| - |Chain(n, a)|..]
    decreases Rank(n, k)
  {
    assert RankGrows(n, RankMap(n), k);
    if a != k {
      ChainSuffix(n, a, n[k].parent.value);
    }
  }

  lemma AncestorTransitive(n: NodeForest, a: Key, b: Key, k: Key)
    requires k in n && Ancestor(n, b, k)
    requires b in n && Ancestor(n, a, b)
    ensures Ancestor(n, a, k)
  {
    ChainSuffix(n, b, k);
  }

  /** Two ancestors of one node are ancestors of one another. */
  lemma AncestorsLinear(n: NodeForest, a: Key, b: Key, k: Key)
    requires k in n && Ancestor(n, a, k) && Ancestor(n, b, k)
    ensures a in n && b in n && (Ancestor(n, a, b) || Ancestor(n, b, a))
  {
    ChainSuffix(n, a, k);
    ChainSuffix(n, b, k);
    var ca, cb, c := Chain(n, a), Chain(n, b), Chain(n, k);
    if |ca| <= |cb| {
      assert cb[|cb| - |ca|] == c[|c| - |ca|] == ca[0];
    } else {
      assert ca[|ca| - |cb|] == c[|c| - |cb|] == cb[0];
    }
  }

  // ---- attaching ----

  /** The test that `introduces_cycle` makes: the child is the would-be parent or above it. */
  ghost predicate IntroducesCycle(n: NodeForest, parentKey: Key, childKey: Key)
    requires parentKey in n
  {
    Ancestor(n, childKey, parentKey)
  }

  ghost predicate CanAttach(n: NodeForest, parentKey: Key, childKey: Key)
  {
    && parentKey != childKey
    && parentKey in n && IsRoot(n, childKey)
    && !IntroducesCycle(n, parentKey, childKey)
  }

  function WithLink(n: Nodes, parentKey: Key, childKey: Key): (r: Nodes)
    requires parentKey in n && childKey in n
    ensures r.Keys == n.Keys
    ensures forall k | k in n ::
      && r[k].content == n[k].content
      && r[k].parent == (if k == childKey then Some(parentKey) else n[k].parent)
  {
    var n1 := n[childKey := n[childKey].(parent := Some(parentKey))];
    n1[parentKey := n1[parentKey].(children := n1[parentKey].children + {childKey})]
  }

  ghost function Attach(n: NodeForest, parentKey: Key, childKey: Key): (r: Nodes)
    ensures Forest(r) && r.Keys == n.Keys
  {
    if CanAttach(n, parentKey, childKey) then
      AttachKeepsForest(n, parentKey, childKey);
      WithLink(n, parentKey, childKey)
    else n
  }

  /** No node disappears, changes its payload, or loses or exchanges its parent. */
  ghost predicate Grown(n: Nodes, n': Nodes) {
    forall k | k in n ::
      && k in n' && n'[k].content == n[k].content
      && (n[k].parent.Some? ==> n'[k].parent == n[k].parent)
  }

  /** Below the child every rank is lifted past the parent's. */
  ghost function LiftedRank(n: NodeForest, parentKey: Key, childKey: Key): map<Key, nat>
    requires parentKey in n
  {
    map k | k in n :: if Ancestor(n, childKey, k) then Rank(n, k) + Rank(n, parentKey) + 1 else Rank(n, k)
  }

  lemma LinkKeepsLinked(n: Nodes, parentKey: Key, childKey: Key)
    requires Linked(n) && parentKey in n && IsRoot(n, childKey)
    ensures Linked(WithLink(n, parentKey, childKey))
  {
    var n' := WithLink(n, parentKey, childKey);
    forall k | k in n'
      ensures ParentLinked(n', k) && ChildrenLinked(n', k)
    {
      assert ParentLinked(n, k) && ChildrenLinked(n, k);
    }
  }

  lemma LinkRankGrows(n: NodeForest, parentKey: Key, childKey: Key, k: Key)
    requires CanAttach(n, parentKey, childKey) && k in n
    ensures RankGrows(WithLink(n, parentKey, childKey), LiftedRank(n, parentKey, childKey), k)
  {
    assert RankGrows(n, RankMap(n), k);
    if n[k].parent.Some? {
      assert Chain(n, k) == [k] + Chain(n, n[k].parent.value);
    }
  }

  lemma AttachKeepsForest(n: NodeForest, parentKey: Key, childKey: Key)
    requires CanAttach(n, parentKey, childKey)
    ensures Forest(WithLink(n, parentKey, childKey))
  {
    LinkKeepsLinked(n, parentKey, childKey);
    var n', d' := WithLink(n, parentKey, childKey), LiftedRank(n, parentKey, childKey);
    forall k | k in n'
      ensures RankGrows(n', d', k)
    {
      LinkRankGrows(n, parentKey, childKey, k);
    }
    assert Ranked(n', d');
  }

  /** Attaching leaves every chain alone that does not end in the child ... */
  lemma {:induction false} ChainElsewhere(n: NodeForest, n': NodeForest, parentKey: Key, childKey: Key, k: Key)
    requires CanAttach(n, parentKey, childKey) && n' == WithLink(n, parentKey, childKey)
    requires k in n && !Ancestor(n, childKey, k)
    ensures Chain(n', k) == Chain(n, k)
    decreases Rank(n, k)
  {
    if n[k].parent.Some? {
      assert RankGrows(n, RankMap(n), k);
      ChainElsewhere(n, n', parentKey, childKey, n[k].parent.value);
    }
  }

  /** ... and continues the chains of the child's subtree with the chain of the parent. */
  lemma {:induction false} ChainBelowChild(n: NodeForest, n': NodeForest, parentKey: Key, childKey: Key, k: Key)
    requires CanAttach(n, parentKey, childKey) && n' == WithLink(n, parentKey, childKey)
    requires k in n && Ancestor(n, childKey, k)
    ensures Chain(n', k) == Chain(n, k) + Chain(n, parentKey)
    decreases Rank(n, k)
  {
    ChainStep(n', k);
    if k == childKey {
      ChainElsewhere(n, n', parentKey, childKey, parentKey);
      assert Chain(n, k) == [k];
    } else {
      ChainStep(n, k);
      assert RankGrows(n, RankMap(n), k);
      var p := n[k].parent.value;
      ChainBelowChild(n, n', parentKey, childKey, p);
      ConcatAssociative([k], Chain(n, p), Chain(n, parentKey));
    }
  }

  lemma AttachGrows(n: NodeForest, parentKey: Key, childKey: Key)
    ensures Grown(n, Attach(n, parentKey, childKey))
  {
  }

  lemma GrownTransitive(a: Nodes, b: Nodes, c: Nodes)
    requires Grown(a, b) && Grown(b, c)
    ensures Grown(a, c)
  {
  }
}
