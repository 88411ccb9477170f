/** Who becomes whose parent when the references of a message are linked. */
module ThreadParents {
  import opened MessageIds
  import opened ThreadForest
  import opened ThreadLink
  import opened ThreadRegister
  import opened Wrappers

  ghost predicate AllIn(n: Nodes, keys: seq<Key>) {
    forall i | 0 <= i < |keys| :: keys[i] in n
  }

  /** Every node that gets a parent is a key of the path and gets the key before it. */
  ghost predicate OnlyForward(n: Nodes, m: Nodes, keys: seq<Key>, i: nat)
    requires i <= |keys|
  {
    && m.Keys == n.Keys
    && forall k | k in n && m[k].parent != n[k].parent ::
         n[k].parent.None? && exists j :: 1 <= j < i && keys[j] == k && m[k].parent == Some(keys[j - 1])
  }

  /** A key of the path that still has no parent is the key before it or above that one. */
  ghost predicate LinkedOrAbove(m: NodeForest, keys: seq<Key>, j: nat)
    requires 1 <= j < |keys| && AllIn(m, keys)
  {
    m[keys[j]].parent.Some? || Ancestor(m, keys[j], keys[j - 1])
  }

  /** Before the linking, the key was a root and above none of the keys before it. */
  ghost predicate IsFree(n: NodeForest, keys: seq<Key>, j: nat)
    requires j < |keys| && AllIn(n, keys)
  {
    IsRoot(n, keys[j]) && forall h | 0 <= h < j :: !Ancestor(n, keys[j], keys[h])
  }

  /** The links of the first `i` keys of a path: each hangs under the key before it, unless it
      had a parent or is above that key; no other node gets a parent. */
  ghost predicate PathLinked(n: NodeForest, m: NodeForest, keys: seq<Key>, i: nat)
    requires i <= |keys| && AllIn(n, keys) && AllIn(m, keys)
  {
    && OnlyForward(n, m, keys, i)
    && (forall j: nat | 1 <= j < i :: LinkedOrAbove(m, keys, j))
    && (forall j: nat | 1 <= j < i && IsFree(n, keys, j) :: m[keys[j]].parent == Some(keys[j - 1]))
  }

  lemma {:induction false} GrownAncestor(n: NodeForest, m: NodeForest, a: Key, k: Key)
    requires Grown(n, m) && k in n && Ancestor(n, a, k)
    ensures k in m && Ancestor(m, a, k)
    decreases Rank(n, k)
  {
    if a != k {
      assert RankGrows(n, RankMap(n), k);
      ChainStep(n, k);
      ChainStep(m, k);
      GrownAncestor(n, m, a, n[k].parent.value);
    }
  }

  ghost predicate AboveOneOf(n: NodeForest, x: Key, keys: seq<Key>, i: nat)
    requires i <= |keys| && AllIn(n, keys)
  {
    exists h :: 0 <= h < i && Ancestor(n, x, keys[h])
  }

  /** What is above a node was above it before, or above a key of the path. */
  ghost predicate ChainsWithin(n: NodeForest, m: NodeForest, keys: seq<Key>, i: nat)
    requires i <= |keys| && AllIn(n, keys) && m.Keys == n.Keys
  {
    forall k, x | k in n && Ancestor(m, x, k) :: Ancestor(n, x, k) || AboveOneOf(n, x, keys, i)
  }

  lemma AttachChain(n: NodeForest, p: Key, c: Key, x: Key, k: Key)
    requires k in n && Ancestor(Attach(n, p, c), x, k) && p in n
    ensures Ancestor(n, x, k) || Ancestor(n, x, p)
  {
    if CanAttach(n, p, c) {
      if Ancestor(n, c, k) {
        ChainBelowChild(n, Attach(n, p, c), p, c, k);
      } else {
        ChainElsewhere(n, Attach(n, p, c), p, c, k);
      }
    }
  }

  lemma ChainsStep(n: NodeForest, m: NodeForest, keys: seq<Key>, i: nat)
    requires 1 <= i < |keys| && AllIn(n, keys) && m.Keys == n.Keys && ChainsWithin(n, m, keys, i)
    ensures ChainsWithin(n, Attach(m, keys[i - 1], keys[i]), keys, i + 1)
  {
    var m' := Attach(m, keys[i - 1], keys[i]);
    forall k, x | k in n && Ancestor(m', x, k)
      ensures Ancestor(n, x, k) || AboveOneOf(n, x, keys, i + 1)
    {
      AttachChain(m, keys[i - 1], keys[i], x, k);
      if Ancestor(m, x, keys[i - 1]) {
        assert Ancestor(n, x, keys[i - 1]) || AboveOneOf(n, x, keys, i);
      }
    }
  }

  /** A free key is attached. */
  lemma FreeIsAttached(n: NodeForest, m: NodeForest, keys: seq<Key>, i: nat)
    requires 1 <= i < |keys| && AllIn(n, keys) && AllIn(m, keys) && m.Keys == n.Keys
    requires ChainsWithin(n, m, keys, i) && OnlyForward(n, m, keys, i) && IsFree(n, keys, i)
    ensures Attach(m, keys[i - 1], keys[i])[keys[i]].parent == Some(keys[i - 1])
  {
  }

  lemma {:induction false} LinkPathKeys(n: NodeForest, keys: seq<Key>, i: nat)
    requires i <= |keys|
    ensures LinkPath(n, keys, i).Keys == n.Keys
  {
    if i > 1 {
      LinkPathKeys(n, keys, i - 1);
    }
  }

  lemma StillLinked(m: NodeForest, m': NodeForest, keys: seq<Key>, j: nat)
    requires 1 <= j < |keys| && AllIn(m, keys) && AllIn(m', keys) && Grown(m, m') && LinkedOrAbove(m, keys, j)
    ensures LinkedOrAbove(m', keys, j)
  {
    if m[keys[j]].parent.None? {
      GrownAncestor(m, m', keys[j], keys[j - 1]);
    }
  }

  /** One more key of the path. */
  lemma LinkedStep(n: NodeForest, m: NodeForest, keys: seq<Key>, i: nat)
    requires 1 <= i < |keys| && AllIn(n, keys) && AllIn(m, keys) && m.Keys == n.Keys
    requires PathLinked(n, m, keys, i) && ChainsWithin(n, m, keys, i)
    ensures AllIn(Attach(m, keys[i - 1], keys[i]), keys)
    ensures PathLinked(n, Attach(m, keys[i - 1], keys[i]), keys, i + 1)
  {
    var m' := Attach(m, keys[i - 1], keys[i]);
    AttachGrows(m, keys[i - 1], keys[i]);
    forall j: nat | 1 <= j < i + 1
      ensures LinkedOrAbove(m', keys, j)
    {
      if j < i {
        StillLinked(m, m', keys, j);
      } else if m'[keys[i]].parent.None? {
        GrownAncestor(m, m', keys[i], keys[i - 1]);
      }
    }
    forall j: nat | 1 <= j < i + 1 && IsFree(n, keys, j)
      ensures m'[keys[j]].parent == Some(keys[j - 1])
    {
      if j == i {
        FreeIsAttached(n, m, keys, i);
      }
    }
  }

  lemma {:induction false} PathIsLinked(n: NodeForest, keys: seq<Key>, i: nat)
    requires i <= |keys| && AllIn(n, keys)
    ensures AllIn(LinkPath(n, keys, i), keys) && LinkPath(n, keys, i).Keys == n.Keys
    ensures PathLinked(n, LinkPath(n, keys, i), keys, i) && ChainsWithin(n, LinkPath(n, keys, i), keys, i)
    decreases i
  {
    LinkPathKeys(n, keys, i);
    if i > 1 {
      PathIsLinked(n, keys, i - 1);
      LinkedStep(n, LinkPath(n, keys, i - 1), keys, i - 1);
      ChainsStep(n, LinkPath(n, keys, i - 1), keys, i - 1);
    }
  }

  // ---- the turn of a message ----

  ghost predicate Ascends(at: seq<nat>) {
    forall i, j | 0 <= i < j < |at| :: at[i] < at[j]
  }

  /** `tokens` are the normalised ids at the positions `at`, which are all those where the
      normalised id is not empty. */
  ghost predicate KeepsAt(ids: seq<string>, tokens: seq<string>, at: seq<nat>) {
    && |at| == |tokens|
    && (forall i | 0 <= i < |at| :: at[i] < |ids| && tokens[i] == NormalizeToken(ids[at[i]]) && tokens[i] != "")
    && Ascends(at)
    && (forall j: nat | j < |ids| && NormalizeToken(ids[j]) != "" :: j in at)
  }

  /** The references that are not empty once normalised, oldest first; a message without any
      references refers to its first in-reply-to id. */
  ghost predicate RefersTo(m: Message, tokens: seq<string>) {
    if m.referencesIds != [] then exists at :: KeepsAt(m.referencesIds, tokens, at)
    else if |m.inReplyToIds| > 0 && NormalizeToken(m.inReplyToIds[0]) != "" then
      tokens == [NormalizeToken(m.inReplyToIds[0])]
    else tokens == []
  }

  function Shifted(at: seq<nat>): (r: seq<nat>)
    ensures |r| == |at| && forall i | 0 <= i < |at| :: r[i] == at[i] + 1
  {
    seq(|at|, i requires 0 <= i < |at| => at[i] + 1)
  }

  lemma ShiftedHas(at: seq<nat>, j: nat)
    requires j in at
    ensures j + 1 in Shifted(at)
  {
    var i: nat :| i < |at| && at[i] == j;
    assert Shifted(at)[i] == j + 1;
  }

  lemma ShiftedAscends(at: seq<nat>)
    requires Ascends(at)
    ensures Ascends(Shifted(at)) && Ascends([0] + Shifted(at))
  {
  }

  lemma DropsEmpty(ids: seq<string>, tokens: seq<string>, at: seq<nat>)
    requires ids != [] && KeepsAt(ids[1..], tokens, at) && NormalizeToken(ids[0]) == ""
    ensures KeepsAt(ids, tokens, Shifted(at))
  {
    hide Ascends, NormalizeToken;
    ShiftedAscends(at);
    forall j: nat | j < |ids| && NormalizeToken(ids[j]) != ""
      ensures j in Shifted(at)
    {
      assert ids[1..][j - 1] == ids[j];
      ShiftedHas(at, j - 1);
    }
  }

  lemma KeepsFirst(ids: seq<string>, tokens: seq<string>, at: seq<nat>)
    requires ids != [] && KeepsAt(ids[1..], tokens, at) && NormalizeToken(ids[0]) != ""
    ensures KeepsAt(ids, [NormalizeToken(ids[0])] + tokens, [0] + Shifted(at))
  {
    hide Ascends, NormalizeToken;
    ShiftedAscends(at);
    var more, kept := [0] + Shifted(at), [NormalizeToken(ids[0])] + tokens;
    forall i | 0 <= i < |more|
      ensures more[i] < |ids| && kept[i] == NormalizeToken(ids[more[i]]) && kept[i] != ""
    {
      if i > 0 {
        assert more[i] == at[i - 1] + 1 && kept[i] == tokens[i - 1];
        assert ids[1..][at[i - 1]] == ids[more[i]];
      }
    }
    forall j: nat | j < |ids| && NormalizeToken(ids[j]) != ""
      ensures j in more
    {
      if j == 0 {
        assert more[0] == 0;
      } else {
        assert ids[1..][j - 1] == ids[j];
        ShiftedHas(at, j - 1);
      }
    }
  }

  lemma {:induction false} TokensOf(ids: seq<string>) returns (at: seq<nat>)
    ensures KeepsAt(ids, NonEmptyTokens(ids), at)
  {
    hide NormalizeToken;
    if ids == [] {
      at := [];
    } else {
      var tokens := NonEmptyTokens(ids[1..]);
      var rest := TokensOf(ids[1..]);
      if NormalizeToken(ids[0]) == "" {
        DropsEmpty(ids, tokens, rest);
        at := Shifted(rest);
      } else {
        KeepsFirst(ids, tokens, rest);
        at := [0] + Shifted(rest);
      }
    }
  }

  lemma OneToken(id: string)
    ensures NonEmptyTokens([id]) == if NormalizeToken(id) == "" then [] else [NormalizeToken(id)]
  {
    hide NormalizeToken;
    assert [id][1..] == [];
  }

  lemma ReferenceChainRefers(m: Message)
    ensures RefersTo(m, ReferenceChain(m))
  {
    hide NormalizeToken;
    if m.referencesIds != [] {
      var at := TokensOf(m.referencesIds);
    } else if m.inReplyToIds != [] {
      OneToken(m.inReplyToIds[0]);
    }
  }

  /** The nodes of the references in order, and the node of the message. */
  function PathOfMessage(ms: seq<Keyed>, i: nat): seq<Key>
    requires i < |ms|
  {
    ms[i].references + [NodeKeyAt(ms, i)]
  }

  ghost predicate DistinctMessages(ms: seq<Keyed>) {
    forall i, j | 0 <= i < j < |ms| :: ms[i].message.messagePk != ms[j].message.messagePk
  }

  lemma {:induction false} NodeKeyFound(ms: seq<Keyed>, n: nat, i: nat)
    requires i < n <= |ms| && DistinctMessages(ms)
    ensures ms[i].message.messagePk in Register(ms, n).nodeKeyOf
    ensures Register(ms, n).nodeKeyOf[ms[i].message.messagePk] == NodeKeyAt(ms, i)
    decreases n
  {
    if i < n - 1 {
      NodeKeyFound(ms, n - 1, i);
    }
  }

  lemma ResolvesToItself(ms: seq<Keyed>, ids: seq<Key>)
    ensures ResolveAll(Register(ms, |ms|).canonical, ids) == ids
  {
    forall i | 0 <= i < |ids|
      ensures Resolve(Register(ms, |ms|).canonical, ids[i]) == ids[i]
    {
      CanonicalTaken(ms, |ms|, ids[i]);
    }
  }

  lemma TurnLinksPath(ms: seq<Keyed>, i: nat)
    requires i < |ms| && DistinctMessages(ms)
    ensures LinkedAfter(ms, i + 1)
            == LinkPath(AddPlaceholders(LinkedAfter(ms, i), Register(ms, |ms|).canonical, ms[i].references,
                                        |ms[i].references|), PathOfMessage(ms, i), |PathOfMessage(ms, i)|)
  {
    NodeKeyFound(ms, |ms|, i);
    ResolvesToItself(ms, ms[i].references);
    assert LastIndexOf(ms, |ms|, ms[i].message.messagePk) == i;
  }

  /** Nodes are added for the references that have none; they are empty and stand alone. */
  ghost predicate Placed(before: Nodes, n: Nodes, ids: seq<Key>, i: nat)
    requires i <= |ids|
  {
    && (forall k :: k in n <==> k in before || exists j :: 0 <= j < i && ids[j] == k)
    && (forall k | k in before :: n[k] == before[k])
    && (forall k | k in n && k !in before ::
          n[k].parent.None? && n[k].children == {} && n[k].content.messagePk.None? && n[k].content.isDummy)
  }

  lemma OnePlaced(before: Nodes, n: NodeForest, canonical: map<Key, Key>, ids: seq<Key>, i: nat)
    requires i < |ids| && Placed(before, n, ids, i) && forall k | k in canonical :: k in before
    ensures Placed(before, AddPlaceholder(n, canonical, ids[i]), ids, i + 1)
  {
  }

  lemma {:induction false} PlaceholdersPlaced(before: NodeForest, canonical: map<Key, Key>, ids: seq<Key>, i: nat)
    requires i <= |ids| && forall k | k in canonical :: k in before
    ensures Placed(before, AddPlaceholders(before, canonical, ids, i), ids, i)
    decreases i
  {
    if i > 0 {
      PlaceholdersPlaced(before, canonical, ids, i - 1);
      OnePlaced(before, AddPlaceholders(before, canonical, ids, i - 1), canonical, ids, i - 1);
    }
  }

  lemma {:induction false} CanonicalHasNode(ms: seq<Keyed>, k: Key, i: nat)
    requires k in Register(ms, |ms|).canonical && i <= |ms|
    ensures k in LinkedAfter(ms, i)
  {
    CanonicalTaken(ms, |ms|, k);
    var j: nat :| j < |ms| && !ms[j].synthetic && ms[j].canonical == k;
    FirstHasKey(ms, j);
    LinkedExtends(ms, i);
  }

  lemma {:induction false} FirstHasKey(ms: seq<Keyed>, j: nat)
    requires j < |ms| && !ms[j].synthetic
    ensures ms[j].canonical in Register(ms, |ms|).nodes
    decreases j
  {
    CanonicalTaken(ms, j, ms[j].canonical);
    if ms[j].canonical in Register(ms, j).canonical {
      var h: nat :| h < j && !ms[h].synthetic && ms[h].canonical == ms[j].canonical;
      FirstHasKey(ms, h);
    } else {
      KeyRegistered(ms, |ms|, j);
    }
  }

  /** After the turn of a message, every node of its path hangs under the one before it, but for
      those that had a parent or stand above the one before; no other node gets a parent. */
  ghost predicate TurnLinks(before: Nodes, after: Nodes, references: seq<Key>, nodeKey: Key) {
    var path := references + [nodeKey];
    && Forest(before) && Forest(after)
    && exists n: NodeForest ::
         && Placed(before, n, references, |references|)
         && AllIn(n, path) && AllIn(after, path) && PathLinked(n, after, path, |path|)
  }

  lemma MessageTurn(ms: seq<Keyed>, i: nat)
    requires i < |ms| && DistinctMessages(ms)
    ensures TurnLinks(LinkedAfter(ms, i), LinkedAfter(ms, i + 1), ms[i].references, NodeKeyAt(ms, i))
  {
    var before, ids, path := LinkedAfter(ms, i), ms[i].references, PathOfMessage(ms, i);
    var n := AddPlaceholders(before, Register(ms, |ms|).canonical, ids, |ids|);
    forall k | k in Register(ms, |ms|).canonical
      ensures k in before
    {
      CanonicalHasNode(ms, k, i);
    }
    PlaceholdersPlaced(before, Register(ms, |ms|).canonical, ids, |ids|);
    KeyRegistered(ms, |ms|, i);
    LinkedExtends(ms, i);
    PathIsLinked(n, path, |path|);
    TurnLinksPath(ms, i);
  }
}
