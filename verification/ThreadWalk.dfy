/** The preorder walk of the thread forest and the sort keys it hands out. */
module ThreadWalk {
  import opened SortKeys
  import opened Sorting
  import opened Text
  import opened ThreadForest
  import opened Wrappers

  /** `Node::sort_tuple` */
  datatype SortTuple = SortTuple(dateUtc: int, subjectNorm: string, key: string)

  function TupleOf(n: Nodes, k: Key): SortTuple {
    if k in n then SortTuple(n[k].content.dateUtc, n[k].content.subjectNorm, k.text)
    else SortTuple(0, "", k.text)
  }

  predicate TupleLe(a: SortTuple, b: SortTuple) {
    if a.dateUtc != b.dateUtc then a.dateUtc < b.dateUtc
    else if a.subjectNorm != b.subjectNorm then StringLe(a.subjectNorm, b.subjectNorm)
    else StringLe(a.key, b.key)
  }

  function ByTuple(n: Nodes): (Key, Key) -> bool {
    (a, b) => TupleLe(TupleOf(n, a), TupleOf(n, b))
  }

  lemma TupleLeTotal(a: SortTuple, b: SortTuple)
    ensures TupleLe(a, b) || TupleLe(b, a)
  {
    StringLeTotal(a.subjectNorm, b.subjectNorm);
    StringLeTotal(a.key, b.key);
  }

  lemma TupleLeTransitive(a: SortTuple, b: SortTuple, c: SortTuple)
    requires TupleLe(a, b) && TupleLe(b, c)
    ensures TupleLe(a, c)
  {
    if a.dateUtc == b.dateUtc == c.dateUtc {
      if a.subjectNorm == b.subjectNorm == c.subjectNorm {
        StringLeTransitive(a.key, b.key, c.key);
      } else {
        StringLeTotal(a.subjectNorm, a.subjectNorm);
        StringLeTotal(c.subjectNorm, c.subjectNorm);
        StringLeTransitive(a.subjectNorm, b.subjectNorm, c.subjectNorm);
        if a.subjectNorm == c.subjectNorm {
          StringLeAntisymmetric(a.subjectNorm, b.subjectNorm);
        }
      }
    }
  }

  lemma TupleLeAntisymmetric(a: SortTuple, b: SortTuple)
    requires TupleLe(a, b) && TupleLe(b, a)
    ensures a == b
  {
    if a.subjectNorm != b.subjectNorm {
      StringLeAntisymmetric(a.subjectNorm, b.subjectNorm);
    } else {
      StringLeAntisymmetric(a.key, b.key);
    }
  }

  /** Distinct nodes never tie, because the key is the last component. */
  lemma ByTupleOrder(n: Nodes)
    ensures Linear(ByTuple(n))
    ensures forall a, b :: ByTuple(n)(a, b) && ByTuple(n)(b, a) ==> a == b
  {
    var le := ByTuple(n);
    forall a, b
      ensures le(a, b) || le(b, a)
      ensures le(a, b) && le(b, a) ==> a == b
    {
      TupleLeTotal(TupleOf(n, a), TupleOf(n, b));
      if le(a, b) && le(b, a) {
        TupleLeAntisymmetric(TupleOf(n, a), TupleOf(n, b));
        assert a == Key(a.text) && b == Key(b.text);
      }
    }
    forall a, b, c | le(a, b) && le(b, c)
      ensures le(a, c)
    {
      TupleLeTransitive(TupleOf(n, a), TupleOf(n, b), TupleOf(n, c));
    }
  }

  lemma SortedKeysFacts(n: Nodes, s: set<Key>)
    ensures var r := SortSet(s, ByTuple(n));
            NoDuplicates(r) && SortedBy(r, ByTuple(n)) && forall x :: x in r <==> x in s
  {
    ByTupleOrder(n);
    SortSetFacts(s, ByTuple(n));
  }

  // ---- the walk ----

  function Roots(n: Nodes): set<Key> {
    set k | k in n && n[k].parent.None?
  }

  ghost function SortedRoots(n: Nodes): seq<Key> {
    SortSet(Roots(n), ByTuple(n))
  }

  ghost function SortedChildren(n: Nodes, k: Key): seq<Key>
    requires k in n
  {
    SortSet(n[k].children, ByTuple(n))
  }

  /** The sorted group of siblings that `k` belongs to. */
  ghost function Siblings(n: NodeForest, k: Key): seq<Key>
    requires k in n
  {
    assert ParentLinked(n, k);
    if n[k].parent.None? then SortedRoots(n) else SortedChildren(n, n[k].parent.value)
  }

  /** A `TraversedNode`; its depth and sort key are functions of the path. */
  datatype Entry = Entry(key: Key, path: seq<nat>) {
    function Depth(): int { |path| - 1 }
    function SortKey(): seq<nat> { EncodeSortKey(path) }
  }

  ghost predicate AllNodes(n: Nodes, kids: seq<Key>) {
    forall i | 0 <= i < |kids| :: kids[i] in n
  }

  ghost function Subtrees(n: NodeForest, kids: seq<Key>): (s: set<Key>)
    ensures s <= n.Keys
  {
    if kids == [] then {} else Subtree(n, kids[0]) + Subtrees(n, kids[1..])
  }

  /** `walk_preorder` */
  ghost function Walk(n: NodeForest, k: Key, path: seq<nat>): seq<Entry>
    requires k in n
    decreases Subtree(n, k), 0, 0
  {
    ChildrenBelow(n, k);
    [Entry(k, path)] + WalkAll(n, SortedChildren(n, k), 0, path)
  }

  /** Walks siblings in order, numbering them from `position + 1`. */
  ghost function WalkAll(n: NodeForest, kids: seq<Key>, position: nat, path: seq<nat>): seq<Entry>
    requires AllNodes(n, kids)
    decreases Subtrees(n, kids), 1, |kids|
  {
    if kids == [] then []
    else
      Walk(n, kids[0], path + [position + 1]) + WalkAll(n, kids[1..], position + 1, path)
  }

  lemma {:induction false} InSubtrees(n: NodeForest, kids: seq<Key>, x: Key)
    requires x in n
    ensures x in Subtrees(n, kids) <==> exists c | c in kids :: Ancestor(n, c, x)
  {
    if kids != [] {
      InSubtrees(n, kids[1..], x);
      assert kids == [kids[0]] + kids[1..];
    }
  }

  /** A subtree is its root and the subtrees of the root's children. */
  lemma ChildrenBelow(n: NodeForest, k: Key)
    requires k in n
    ensures AllNodes(n, SortedChildren(n, k))
    ensures Subtree(n, k) == {k} + Subtrees(n, SortedChildren(n, k))
    ensures k !in Subtrees(n, SortedChildren(n, k))
    ensures forall c | c in SortedChildren(n, k) :: n[c].parent == Some(k)
  {
    var kids := SortedChildren(n, k);
    SortedKeysFacts(n, n[k].children);
    assert ChildrenLinked(n, k);
    forall x | x in Subtree(n, k) && x != k
      ensures x in Subtrees(n, kids)
    {
      AncestorViaChild(n, k, x);
      var c :| c in n[k].children && c in n && Ancestor(n, c, x);
      assert c in kids;
      InSubtrees(n, kids, x);
    }
    forall x | x in n && x in Subtrees(n, kids)
      ensures x in Subtree(n, k) && x != k
    {
      InSubtrees(n, kids, x);
      var c :| c in kids && Ancestor(n, c, x);
      ChainStep(n, c);
      AncestorTransitive(n, k, c, x);
      AncestorRank(n, k, c);
      AncestorRank(n, c, x);
    }
  }

  /** Below a proper ancestor there is a child of it on the way down. */
  lemma {:induction false} AncestorViaChild(n: NodeForest, k: Key, x: Key)
    requires k in n && x in n && Ancestor(n, k, x) && x != k
    ensures exists c | c in n[k].children :: c in n && Ancestor(n, c, x)
    decreases Rank(n, x)
  {
    assert ParentLinked(n, x) && RankGrows(n, RankMap(n), x);
    ChainStep(n, x);
    var p := n[x].parent.value;
    if p == k {
      assert x in n[k].children && Ancestor(n, x, x);
    } else {
      AncestorViaChild(n, k, p);
      var c :| c in n[k].children && c in n && Ancestor(n, c, p);
      assert Ancestor(n, c, x);
    }
  }

  // ---- positions ----

  lemma SiblingsFacts(n: NodeForest, k: Key)
    requires k in n
    ensures k in Siblings(n, k)
    ensures forall c | c in Siblings(n, k) :: c in n && n[c].parent == n[k].parent
  {
    assert ParentLinked(n, k);
    if n[k].parent.None? {
      SortedKeysFacts(n, Roots(n));
    } else {
      var p := n[k].parent.value;
      assert ChildrenLinked(n, p);
      SortedKeysFacts(n, n[p].children);
    }
  }

  /** The place of a node in its sorted group, counted from zero. */
  ghost function Position(n: NodeForest, k: Key): (i: nat)
    requires k in n
    ensures i < |Siblings(n, k)| && Siblings(n, k)[i] == k
  {
    SiblingsFacts(n, k);
    var i: nat :| i < |Siblings(n, k)| && Siblings(n, k)[i] == k; i
  }

  /** The path of a node, defined from the root down: the positions of its ancestors and
      of itself among their siblings, counted from one. */
  ghost function PathOf(n: NodeForest, k: Key): seq<nat>
    requires k in n
    decreases Rank(n, k), 1
  {
    PathAbove(n, k) + [Position(n, k) + 1]
  }

  ghost function PathAbove(n: NodeForest, k: Key): seq<nat>
    requires k in n
    decreases Rank(n, k), 0
  {
    assert RankGrows(n, RankMap(n), k);
    if n[k].parent.None? then [] else PathOf(n, n[k].parent.value)
  }

  lemma {:induction false} PathLength(n: NodeForest, k: Key)
    requires k in n
    ensures |PathOf(n, k)| == |Chain(n, k)|
    decreases Rank(n, k)
  {
    if n[k].parent.Some? {
      assert RankGrows(n, RankMap(n), k);
      PathLength(n, n[k].parent.value);
    }
  }

  lemma SnocEqual(a: seq<nat>, x: nat, b: seq<nat>, y: nat)
    requires a + [x] == b + [y]
    ensures a == b && x == y
  {
    assert a == (a + [x])[..|a|] && b == (b + [y])[..|b|];
    assert (a + [x])[|a|] == x && (b + [y])[|b|] == y;
  }

  lemma SamePosition(n: NodeForest, a: Key, b: Key)
    requires a in n && b in n && n[a].parent == n[b].parent && Position(n, a) == Position(n, b)
    ensures a == b
  {
    assert Siblings(n, a) == Siblings(n, b);
  }

  lemma TopLevelPath(n: NodeForest, k: Key)
    requires k in n
    ensures n[k].parent.None? <==> PathAbove(n, k) == []
  {
  }

  /** Nodes with equal paths are equal. */
  lemma {:induction false} PathInjective(n: NodeForest, a: Key, b: Key)
    requires a in n && b in n && PathOf(n, a) == PathOf(n, b)
    ensures a == b
    decreases Rank(n, a)
  {
    SnocEqual(PathAbove(n, a), Position(n, a) + 1, PathAbove(n, b), Position(n, b) + 1);
    TopLevelPath(n, a);
    TopLevelPath(n, b);
    if n[a].parent.Some? && n[b].parent.Some? {
      assert RankGrows(n, RankMap(n), a) && RankGrows(n, RankMap(n), b);
      PathInjective(n, n[a].parent.value, n[b].parent.value);
    }
    SamePosition(n, a, b);
  }

  lemma {:induction false} AncestorPath(n: NodeForest, a: Key, k: Key)
    requires k in n && a in n && Ancestor(n, a, k)
    ensures PathOf(n, a) <= PathOf(n, k)
    decreases Rank(n, k)
  {
    if a != k {
      assert RankGrows(n, RankMap(n), k);
      ChainStep(n, k);
      AncestorPath(n, a, n[k].parent.value);
    }
  }

  lemma {:induction false} PathAncestor(n: NodeForest, a: Key, k: Key)
    requires k in n && a in n && PathOf(n, a) <= PathOf(n, k)
    ensures Ancestor(n, a, k)
    decreases Rank(n, k)
  {
    if |PathOf(n, a)| == |PathOf(n, k)| {
      PathInjective(n, a, k);
    } else {
      assert n[k].parent.Some?;
      assert RankGrows(n, RankMap(n), k);
      PathAncestor(n, a, n[k].parent.value);
      ChainStep(n, k);
    }
  }

  // ---- what the walk emits ----

  ghost predicate Increasing(out: seq<Entry>) {
    forall i, j | 0 <= i < j < |out| :: LexLess(out[i].path, out[j].path)
  }

  /** Every entry is a node of `base` under its own path, and every node of `base` is met. */
  ghost predicate Covers(n: NodeForest, out: seq<Entry>, base: set<Key>)
    requires base <= n.Keys
  {
    && (forall i | 0 <= i < |out| :: out[i].key in base && out[i].path == PathOf(n, out[i].key))
    && (forall k | k in base :: Entry(k, PathOf(n, k)) in out)
  }

  ghost predicate Below(out: seq<Entry>, path: seq<nat>, position: nat) {
    forall i | 0 <= i < |out| ::
      && path <= out[i].path && |path| < |out[i].path|
      && out[i].path[|path|] > position
  }

  lemma PrefixLess(p: seq<nat>, q: seq<nat>)
    requires p <= q && |p| < |q|
    ensures LexLess(p, q)
  {
    LexLessPrefix(p, [], q[|p|..]);
    assert p + [] == p && p + q[|p|..] == q;
  }

  lemma BranchLess(path: seq<nat>, p: seq<nat>, q: seq<nat>)
    requires path <= p && path <= q && |path| < |p| && |path| < |q|
    requires p[|path|] < q[|path|]
    ensures LexLess(p, q)
  {
    LexLessPrefix(path, p[|path|..], q[|path|..]);
    assert path + p[|path|..] == p && path + q[|path|..] == q;
  }

  lemma PrependKeepsFacts(n: NodeForest, e: Entry, rest: seq<Entry>, base: set<Key>)
    requires base <= n.Keys
    requires e.key in n && e.path == PathOf(n, e.key)
    requires Covers(n, rest, base) && Increasing(rest) && Below(rest, e.path, 0)
    ensures Covers(n, [e] + rest, {e.key} + base) && Increasing([e] + rest)
    ensures forall i | 0 <= i < |rest| + 1 :: e.path <= ([e] + rest)[i].path
  {
    var out := [e] + rest;
    forall i | 0 < i < |out|
      ensures LexLess(e.path, out[i].path)
    {
      PrefixLess(e.path, rest[i - 1].path);
    }
  }

  lemma AppendKeepsFacts(n: NodeForest, a: seq<Entry>, b: seq<Entry>, baseA: set<Key>, baseB: set<Key>,
                         path: seq<nat>, position: nat)
    requires baseA <= n.Keys && baseB <= n.Keys
    requires Covers(n, a, baseA) && Increasing(a)
    requires forall i | 0 <= i < |a| :: path + [position + 1] <= a[i].path
    requires Covers(n, b, baseB) && Increasing(b) && Below(b, path, position + 1)
    ensures Covers(n, a + b, baseA + baseB) && Increasing(a + b) && Below(a + b, path, position)
  {
    var out := a + b;
    forall i, j | 0 <= i < |a| <= j < |out|
      ensures LexLess(out[i].path, out[j].path)
    {
      assert a[i].path[|path|] == (path + [position + 1])[|path|];
      assert path <= path + [position + 1] <= a[i].path;
      BranchLess(path, a[i].path, b[j - |a|].path);
    }
    forall i | 0 <= i < |a|
      ensures path <= a[i].path && |path| < |a[i].path| && a[i].path[|path|] > position
    {
      assert a[i].path[|path|] == (path + [position + 1])[|path|];
      assert path <= path + [position + 1] <= a[i].path;
    }
  }

  lemma ChildrenGroup(n: NodeForest, k: Key, c: Key)
    requires k in n && c in SortedChildren(n, k)
    ensures c in n && Siblings(n, c) == SortedChildren(n, k) && PathAbove(n, c) == PathOf(n, k)
  {
    SortedKeysFacts(n, n[k].children);
    assert ChildrenLinked(n, k);
  }

  /** `kids` is what is left, from `position` on, of a group of siblings below `path`. */
  ghost predicate RestOfGroup(n: NodeForest, kids: seq<Key>, position: nat, path: seq<nat>) {
    forall i | 0 <= i < |kids| ::
      kids[i] in n && Position(n, kids[i]) == position + i && PathAbove(n, kids[i]) == path
  }

  lemma GroupStep(n: NodeForest, kids: seq<Key>, position: nat, path: seq<nat>)
    requires kids != [] && RestOfGroup(n, kids, position, path)
    ensures kids[0] in n && PathOf(n, kids[0]) == path + [position + 1]
    ensures AllNodes(n, kids[1..]) && RestOfGroup(n, kids[1..], position + 1, path)
  {
    var rest := kids[1..];
    forall i | 0 <= i < |rest|
      ensures rest[i] in n && Position(n, rest[i]) == position + 1 + i && PathAbove(n, rest[i]) == path
    {
      assert rest[i] == kids[i + 1];
    }
  }

  lemma ChildrenAreGroup(n: NodeForest, k: Key)
    requires k in n
    ensures RestOfGroup(n, SortedChildren(n, k), 0, PathOf(n, k))
  {
    var kids := SortedChildren(n, k);
    SortedKeysFacts(n, n[k].children);
    forall i | 0 <= i < |kids|
      ensures kids[i] in n && Position(n, kids[i]) == i && PathAbove(n, kids[i]) == PathOf(n, k)
    {
      ChildrenGroup(n, k, kids[i]);
    }
  }

  lemma {:induction false} WalkFacts(n: NodeForest, k: Key)
    requires k in n
    ensures var out := Walk(n, k, PathOf(n, k));
            Covers(n, out, Subtree(n, k)) && Increasing(out)
    ensures var out := Walk(n, k, PathOf(n, k));
            forall i | 0 <= i < |out| :: PathOf(n, k) <= out[i].path
    decreases Subtree(n, k), 0, 0
  {
    ChildrenBelow(n, k);
    ChildrenAreGroup(n, k);
    var path, kids := PathOf(n, k), SortedChildren(n, k);
    WalkAllFacts(n, kids, 0, path);
    PrependKeepsFacts(n, Entry(k, path), WalkAll(n, kids, 0, path), Subtrees(n, kids));
  }

  lemma {:induction false} WalkAllFacts(n: NodeForest, kids: seq<Key>, position: nat, path: seq<nat>)
    requires AllNodes(n, kids) && RestOfGroup(n, kids, position, path)
    ensures var out := WalkAll(n, kids, position, path);
            Covers(n, out, Subtrees(n, kids)) && Increasing(out) && Below(out, path, position)
    decreases Subtrees(n, kids), 1, |kids|
  {
    if kids != [] {
      var c, rest := kids[0], kids[1..];
      GroupStep(n, kids, position, path);
      WalkFacts(n, c);
      WalkAllFacts(n, rest, position + 1, path);
      var first, others := Walk(n, c, PathOf(n, c)), WalkAll(n, rest, position + 1, path);
      AppendKeepsFacts(n, first, others, Subtree(n, c), Subtrees(n, rest), path, position);

    }
  }

  // ---- the whole forest ----

  /** All nodes in the order in which the components and their nodes are emitted. */
  ghost function Emitted(n: NodeForest): seq<Entry> {
    RootsAreGroup(n);
    WalkAll(n, SortedRoots(n), 0, [])
  }

  lemma RootsAreGroup(n: NodeForest)
    ensures AllNodes(n, SortedRoots(n)) && RestOfGroup(n, SortedRoots(n), 0, [])
  {
    var roots := SortedRoots(n);
    SortedKeysFacts(n, Roots(n));
    forall i | 0 <= i < |roots|
      ensures roots[i] in n && Position(n, roots[i]) == i && PathAbove(n, roots[i]) == []
    {
      assert roots[i] in roots && Siblings(n, roots[i]) == roots;
    }
  }

  lemma RootsCoverAll(n: NodeForest)
    ensures Subtrees(n, SortedRoots(n)) == n.Keys
  {
    var roots := SortedRoots(n);
    SortedKeysFacts(n, Roots(n));
    forall x | x in n
      ensures x in Subtrees(n, roots)
    {
      assert Ancestor(n, RootOf(n, x), x) && RootOf(n, x) in roots;
      InSubtrees(n, roots, x);
    }
  }

  /** The walk meets every node exactly once, in the order of the paths. */
  lemma EveryNodeOnce(n: NodeForest)
    ensures var out := Emitted(n);
            && Covers(n, out, n.Keys) && Increasing(out)
            && forall i, j | 0 <= i < j < |out| :: out[i].key != out[j].key
  {
    var out := Emitted(n);
    RootsAreGroup(n);
    RootsCoverAll(n);
    WalkAllFacts(n, SortedRoots(n), 0, []);
    forall i, j | 0 <= i < j < |out|
      ensures out[i].key != out[j].key
    {
      LexLessAsymmetric(out[i].path, out[j].path);
    }
  }

  ghost predicate GroupsFit(n: NodeForest) {
    forall k {:trigger Siblings(n, k)} | k in n :: |Siblings(n, k)| < SEGMENT_LIMIT
  }

  lemma {:induction false} PathEncodable(n: NodeForest, k: Key)
    requires GroupsFit(n) && k in n
    ensures Encodable(PathOf(n, k))
    decreases Rank(n, k)
  {
    assert |Siblings(n, k)| < SEGMENT_LIMIT;
    if n[k].parent.Some? {
      assert RankGrows(n, RankMap(n), k);
      PathEncodable(n, n[k].parent.value);
    }
  }

  ghost predicate SortKeysIncrease(out: seq<Entry>) {
    forall i, j | 0 <= i < j < |out| :: LexLess(out[i].SortKey(), out[j].SortKey())
  }

  /** With fewer than 2^32 members in every group of siblings, bytewise order of the sort
      keys is the order of emission. */
  lemma SortKeyOrder(n: NodeForest)
    requires GroupsFit(n)
    ensures SortKeysIncrease(Emitted(n))
  {
    var out := Emitted(n);
    EveryNodeOnce(n);
    forall i, j | 0 <= i < j < |out|
      ensures LexLess(out[i].SortKey(), out[j].SortKey())
    {
      PathEncodable(n, out[i].key);
      PathEncodable(n, out[j].key);
      EncodeKeepsOrder(out[i].path, out[j].path);
    }
  }

  lemma {:induction false} MemberOfGroup(n: NodeForest, k: Key, i: nat)
    requires k in n && i < |Siblings(n, k)|
    ensures var c := Siblings(n, k)[i];
            c in n && PathOf(n, c) == PathAbove(n, k) + [i + 1]
  {
    var c := Siblings(n, k)[i];
    SiblingsFacts(n, k);
    assert c in Siblings(n, k);
    if n[k].parent.None? {
      SortedKeysFacts(n, Roots(n));
    } else {
      assert ParentLinked(n, k);
      SortedKeysFacts(n, n[n[k].parent.value].children);
    }
    assert Siblings(n, c) == Siblings(n, k);
    assert Position(n, c) == i;
  }

  /** The 2^32nd sibling wraps to segment zero and sorts before the first. */
  lemma WrappedSegment(above: seq<nat>)
    ensures !LexLess(EncodeSortKey(above + [1]), EncodeSortKey(above + [SEGMENT_LIMIT]))
  {
    EncodeConcat(above, [1]);
    EncodeConcat(above, [SEGMENT_LIMIT]);
    var one, wrapped := EncodeSortKey([1]), EncodeSortKey([SEGMENT_LIMIT]);
    assert one == SegmentBytes(1) + [] == [0, 0, 0, 1];
    assert wrapped == SegmentBytes(SEGMENT_LIMIT) + [] == [0, 0, 0, 0];
    LexLessPrefix(EncodeSortKey(above), one, wrapped);
    LexLessPrefix([0, 0, 0], [1], [0]);
    assert one == [0, 0, 0] + [1] && wrapped == [0, 0, 0] + [0];
  }

  /** The two places of the emission at which nodes with ordered paths stand. */
  lemma EmittedBefore(n: NodeForest, a: Key, b: Key) returns (i: nat, j: nat)
    requires a in n && b in n && LexLess(PathOf(n, a), PathOf(n, b))
    ensures i < j < |Emitted(n)|
    ensures Emitted(n)[i] == Entry(a, PathOf(n, a)) && Emitted(n)[j] == Entry(b, PathOf(n, b))
  {
    var out := Emitted(n);
    EveryNodeOnce(n);
    assert Entry(a, PathOf(n, a)) in out && Entry(b, PathOf(n, b)) in out;
    i :| i < |out| && out[i] == Entry(a, PathOf(n, a));
    j :| j < |out| && out[j] == Entry(b, PathOf(n, b));
    LexLessAsymmetric(out[i].path, out[j].path);
  }

  lemma WrappedSibling(n: NodeForest, k: Key) returns (first: Key, wrapped: Key)
    requires k in n && |Siblings(n, k)| >= SEGMENT_LIMIT
    ensures first in n && PathOf(n, first) == PathAbove(n, k) + [1]
    ensures wrapped in n && PathOf(n, wrapped) == PathAbove(n, k) + [SEGMENT_LIMIT]
  {
    MemberOfGroup(n, k, 0);
    MemberOfGroup(n, k, SEGMENT_LIMIT - 1);
    first, wrapped := Siblings(n, k)[0], Siblings(n, k)[SEGMENT_LIMIT - 1];
  }

  lemma LargeGroupBreaksOrder(n: NodeForest, k: Key)
    requires k in n && |Siblings(n, k)| >= SEGMENT_LIMIT
    ensures !SortKeysIncrease(Emitted(n))
  {
    var first, wrapped := WrappedSibling(n, k);
    LexLessPrefix(PathAbove(n, k), [1], [SEGMENT_LIMIT]);
    var i, j := EmittedBefore(n, first, wrapped);
    WrappedSegment(PathAbove(n, k));
    assert !LexLess(Emitted(n)[i].SortKey(), Emitted(n)[j].SortKey());
  }

  /** The exact condition under which the sort keys follow the emission order. */
  lemma SortKeyOrderExactly(n: NodeForest)
    ensures SortKeysIncrease(Emitted(n)) <==> GroupsFit(n)
  {
    if GroupsFit(n) {
      SortKeyOrder(n);
    } else {
      var k :| k in n && |Siblings(n, k)| >= SEGMENT_LIMIT;
      LargeGroupBreaksOrder(n, k);
    }
  }

  /** One sort key is a prefix of another exactly when its node is an ancestor (or the
      same), and the depth is the number of proper ancestors. */
  lemma SortKeyPrefix(n: NodeForest, a: Entry, b: Entry)
    requires GroupsFit(n) && a in Emitted(n) && b in Emitted(n)
    ensures a.key in n && b.key in n
    ensures a.SortKey() <= b.SortKey() <==> Ancestor(n, a.key, b.key)
    ensures a.SortKey() == b.SortKey() <==> a == b
    ensures a.Depth() == Depth(n, a.key)
  {
    EveryNodeOnce(n);
    PathEncodable(n, a.key);
    PathEncodable(n, b.key);
    EncodeKeepsPrefix(a.path, b.path);
    EncodeKeepsPrefix(b.path, a.path);
    PathLength(n, a.key);
    if a.path <= b.path {
      PathAncestor(n, a.key, b.key);
    }
    if Ancestor(n, a.key, b.key) {
      AncestorPath(n, a.key, b.key);
    }
    if a.SortKey() == b.SortKey() {
      PathInjective(n, a.key, b.key);
    }
  }
}
