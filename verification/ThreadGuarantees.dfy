/** What a caller of `build_threads` can rely on: every message comes back exactly once,
    with strictly increasing sort keys. */
module ThreadGuarantees {
  import opened MessageIds
  import opened SortKeys
  import opened Sorting
  import opened ThreadForest
  import opened ThreadLink
  import opened ThreadOutcome
  import opened ThreadRegister
  import opened ThreadWalk
  import opened Wrappers

  /** The messages of all components, in order. */
  function AllMessages(components: seq<Component>): seq<BuiltMessage> {
    if components == [] then []
    else AllMessages(components[..|components| - 1]) + components[|components| - 1].messages
  }

  // ---- the components are the walk of the whole forest ----

  lemma {:induction false} MessagesOfConcat(n: NodeForest, a: seq<Entry>, b: seq<Entry>, i: nat)
    requires AllPresent(n, a) && AllPresent(n, b) && i <= |b|
    ensures AllPresent(n, a + b)
    ensures MessagesOf(n, a + b, |a| + i) == MessagesOf(n, a, |a|) + MessagesOf(n, b, i)
  {
    if i == 0 {
      MessagesOfPrefix(n, a, b, |a|);
    } else {
      MessagesOfConcat(n, a, b, i - 1);
      assert (a + b)[|a| + i - 1] == b[i - 1];
    }
  }

  lemma {:induction false} MessagesOfPrefix(n: NodeForest, a: seq<Entry>, b: seq<Entry>, i: nat)
    requires AllPresent(n, a) && AllPresent(n, b) && i <= |a|
    ensures AllPresent(n, a + b)
    ensures MessagesOf(n, a + b, i) == MessagesOf(n, a, i)
  {
    if i > 0 {
      MessagesOfPrefix(n, a, b, i - 1);
      assert (a + b)[i - 1] == a[i - 1];
    }
  }

  ghost function WalkUpTo(n: NodeForest, i: nat): (r: seq<Entry>)
    requires i <= |SortedRoots(n)|
    ensures AllPresent(n, r)
  {
    if i == 0 then [] else WalkUpTo(n, i - 1) + RootWalk(n, i - 1)
  }

  lemma {:induction false} EmittedSplits(n: NodeForest, i: nat)
    requires i <= |SortedRoots(n)|
    ensures AllNodes(n, SortedRoots(n)[i..])
    ensures Emitted(n) == WalkUpTo(n, i) + WalkAll(n, SortedRoots(n)[i..], i, [])
  {
    RootsAreGroup(n);
    var roots := SortedRoots(n);
    if i == 0 {
      assert roots[0..] == roots;
    } else {
      EmittedSplits(n, i - 1);
      var rest := roots[i - 1..];
      assert rest[0] == roots[i - 1] && rest[1..] == roots[i..];
      assert [] + [i] == [i];
      assert WalkAll(n, rest, i - 1, []) == RootWalk(n, i - 1) + WalkAll(n, roots[i..], i, []);
      ConcatAssociative(WalkUpTo(n, i - 1), RootWalk(n, i - 1), WalkAll(n, roots[i..], i, []));
    }
  }

  lemma AllMessagesSnoc(components: seq<Component>, c: Component)
    ensures AllMessages(components + [c]) == AllMessages(components) + c.messages
  {
    assert (components + [c])[..|components|] == components;
  }

  ghost function RootsMessages(n: NodeForest, i: nat): seq<BuiltMessage>
    requires i <= |SortedRoots(n)|
  {
    if i == 0 then [] else RootsMessages(n, i - 1) + RootMessages(n, i - 1)
  }

  lemma ComponentsStep(n: NodeForest, ms: seq<Keyed>, i: nat)
    requires 1 <= i <= |SortedRoots(n)|
    ensures AllMessages(Components(n, ms, i)) == AllMessages(Components(n, ms, i - 1)) + RootMessages(n, i - 1)
  {
    var root := SortedRoots(n)[i - 1];
    AllMessagesSnoc(Components(n, ms, i - 1), ComponentOf(n, ms, root, RootWalk(n, i - 1)));
  }

  ghost predicate SameMessages(n: NodeForest, ms: seq<Keyed>, i: nat)
    requires i <= |SortedRoots(n)|
  {
    AllMessages(Components(n, ms, i)) == RootsMessages(n, i)
  }

  lemma SameMessagesStep(n: NodeForest, ms: seq<Keyed>, i: nat)
    requires 1 <= i <= |SortedRoots(n)| && SameMessages(n, ms, i - 1)
    ensures SameMessages(n, ms, i)
  {
    ComponentsStep(n, ms, i);
  }

  lemma {:induction false} ComponentMessages(n: NodeForest, ms: seq<Keyed>, i: nat)
    requires i <= |SortedRoots(n)|
    ensures SameMessages(n, ms, i)
  {
    if i > 0 {
      ComponentMessages(n, ms, i - 1);
      SameMessagesStep(n, ms, i);
    }
  }

  lemma MessagesOfSum(n: NodeForest, a: seq<Entry>, b: seq<Entry>)
    requires AllPresent(n, a) && AllPresent(n, b)
    ensures AllPresent(n, a + b)
    ensures MessagesOf(n, a + b, |a + b|) == MessagesOf(n, a, |a|) + MessagesOf(n, b, |b|)
  {
    MessagesOfConcat(n, a, b, |b|);
  }

  lemma {:induction false} WalkMessages(n: NodeForest, i: nat)
    requires i <= |SortedRoots(n)|
    ensures MessagesOf(n, WalkUpTo(n, i), |WalkUpTo(n, i)|) == RootsMessages(n, i)
  {
    if i > 0 {
      var before, root := WalkUpTo(n, i - 1), RootWalk(n, i - 1);
      WalkMessages(n, i - 1);
      MessagesOfSum(n, before, root);
      assert WalkUpTo(n, i) == before + root;
    }
  }

  /** Dropping the trees of placeholders loses no message. */
  lemma AllMessagesAreEmitted(n: NodeForest, ms: seq<Keyed>)
    ensures AllPresent(n, Emitted(n))
    ensures AllMessages(Components(n, ms, |SortedRoots(n)|)) == MessagesOf(n, Emitted(n), |Emitted(n)|)
  {
    var size := |SortedRoots(n)|;
    EmittedSplits(n, size);
    assert SortedRoots(n)[size..] == [];
    assert Emitted(n) == WalkUpTo(n, size);
    ComponentMessages(n, ms, size);
    WalkMessages(n, size);
  }

  // ---- messages and the nodes they come from ----

  /** `at[j]` is the place in `entries` from which the `j`th message comes. */
  ghost predicate ComesFrom(n: NodeForest, entries: seq<Entry>, i: nat, at: seq<nat>)
    requires i <= |entries| && AllPresent(n, entries)
  {
    var out := MessagesOf(n, entries, i);
    && |at| == |out|
    && (forall j | 0 <= j < |at| ::
          && at[j] < i && n[entries[at[j]].key].content.messagePk.Some?
          && out[j] == MessageOf(n, entries[at[j]]))
    && (forall j, l | 0 <= j < l < |at| :: at[j] < at[l])
    && (forall x | 0 <= x < i && n[entries[x].key].content.messagePk.Some? :: x in at)
  }

  lemma {:induction false} MessagePlaces(n: NodeForest, entries: seq<Entry>, i: nat) returns (at: seq<nat>)
    requires i <= |entries| && AllPresent(n, entries)
    ensures ComesFrom(n, entries, i, at)
  {
    if i == 0 {
      at := [];
    } else {
      at := MessagePlaces(n, entries, i - 1);
      if n[entries[i - 1].key].content.messagePk.Some? {
        at := at + [i - 1];
      }
    }
  }

  /** With fewer than 2^32 siblings everywhere, the sort keys of the returned messages
      strictly increase over all components. */
  lemma MessageSortKeysIncrease(n: NodeForest, ms: seq<Keyed>)
    requires GroupsFit(n)
    ensures var out := AllMessages(Components(n, ms, |SortedRoots(n)|));
            forall j, l | 0 <= j < l < |out| :: LexLess(out[j].sortKey, out[l].sortKey)
  {
    AllMessagesAreEmitted(n, ms);
    SortKeyOrder(n);
    var at := MessagePlaces(n, Emitted(n), |Emitted(n)|);
  }

  /** `out` lists the messages of all nodes that stand for one; the `j`th is that of the
      node under `keys[j]`. */
  ghost predicate ListsAll(n: NodeForest, out: seq<BuiltMessage>, keys: seq<Key>) {
    && |keys| == |out| && NoDuplicates(keys)
    && (forall j | 0 <= j < |keys| ::
          && keys[j] in n && n[keys[j]].content.messagePk == Some(out[j].messagePk)
          && out[j].parentMessagePk == NearestRealParent(n, keys[j]))
    && (forall k | k in n && n[k].content.messagePk.Some? :: k in keys)
  }

  lemma PlaceOfKey(n: NodeForest, entries: seq<Entry>, at: seq<nat>, k: Key) returns (j: nat)
    requires AllPresent(n, entries) && ComesFrom(n, entries, |entries|, at)
    requires k in n && n[k].content.messagePk.Some? && Entry(k, PathOf(n, k)) in entries
    ensures j < |at| && at[j] < |entries| && entries[at[j]].key == k
  {
    var x :| 0 <= x < |entries| && entries[x] == Entry(k, PathOf(n, k));
    j :| j < |at| && at[j] == x;
  }

  function KeysAt(entries: seq<Entry>, at: seq<nat>): (keys: seq<Key>)
    requires forall j | 0 <= j < |at| :: at[j] < |entries|
    ensures |keys| == |at| && forall j | 0 <= j < |at| :: keys[j] == entries[at[j]].key
  {
    seq(|at|, j requires 0 <= j < |at| => entries[at[j]].key)
  }

  lemma PlacesListAll(n: NodeForest, entries: seq<Entry>, at: seq<nat>)
    requires AllPresent(n, entries) && ComesFrom(n, entries, |entries|, at)
    requires forall k | k in n :: Entry(k, PathOf(n, k)) in entries
    requires forall i, j | 0 <= i < j < |entries| :: entries[i].key != entries[j].key
    ensures ListsAll(n, MessagesOf(n, entries, |entries|), KeysAt(entries, at))
  {
    var keys := KeysAt(entries, at);
    forall k | k in n && n[k].content.messagePk.Some?
      ensures k in keys
    {
      var j := PlaceOfKey(n, entries, at, k);
      assert keys[j] == k;
    }
  }

  lemma ReturnedListsAll(n: NodeForest, ms: seq<Keyed>) returns (keys: seq<Key>)
    ensures ListsAll(n, AllMessages(Components(n, ms, |SortedRoots(n)|)), keys)
  {
    AllMessagesAreEmitted(n, ms);
    EveryNodeOnce(n);
    var at := MessagePlaces(n, Emitted(n), |Emitted(n)|);
    PlacesListAll(n, Emitted(n), at);
    keys := KeysAt(Emitted(n), at);
  }

  // ---- exactly once ----

  ghost predicate Contains(out: seq<BuiltMessage>, pk: int) {
    exists j :: 0 <= j < |out| && out[j].messagePk == pk
  }

  ghost predicate EachOnce(out: seq<BuiltMessage>) {
    forall j, l | 0 <= j < l < |out| :: out[j].messagePk != out[l].messagePk
  }

  ghost predicate DistinctKeyed(ms: seq<Keyed>) {
    forall i, j | 0 <= i < j < |ms| :: ms[i].message.messagePk != ms[j].message.messagePk
  }

  lemma OnlyInputs(ms: seq<Keyed>, out: seq<BuiltMessage>, keys: seq<Key>, j: nat) returns (i: nat)
    requires ListsAll(ForestOf(ms), out, keys) && j < |out|
    ensures OwnsKey(ms, |ms|, i, keys[j]) && ms[i].message.messagePk == out[j].messagePk
  {
    i := MessageNodes(ms, keys[j]);
  }

  lemma OwnersAppear(ms: seq<Keyed>, out: seq<BuiltMessage>, keys: seq<Key>, i: nat)
    requires ListsAll(ForestOf(ms), out, keys) && i < |ms| && OwnsKey(ms, |ms|, i, NodeKeyAt(ms, i))
    ensures Contains(out, ms[i].message.messagePk)
  {
    var k := NodeKeyAt(ms, i);
    OwnerHasNode(ms, i, k);
    var j :| 0 <= j < |keys| && keys[j] == k;
    assert out[j].messagePk == ms[i].message.messagePk;
  }

  lemma NoneTwice(ms: seq<Keyed>, out: seq<BuiltMessage>, keys: seq<Key>)
    requires DistinctKeyed(ms) && ListsAll(ForestOf(ms), out, keys)
    ensures EachOnce(out)
  {
    forall j, l | 0 <= j < l < |out|
      ensures out[j].messagePk != out[l].messagePk
    {
      var a := OnlyInputs(ms, out, keys, j);
      var b := OnlyInputs(ms, out, keys, l);
      assert a != b;
    }
  }

  /** A message whose node key a later message takes is not returned. */
  lemma OvertakenIsLost(ms: seq<Keyed>, out: seq<BuiltMessage>, keys: seq<Key>, i: nat, j: nat)
    requires DistinctKeyed(ms) && ListsAll(ForestOf(ms), out, keys)
    requires i < j < |ms| && NodeKeyAt(ms, i) == NodeKeyAt(ms, j)
    ensures !Contains(out, ms[i].message.messagePk)
  {
    forall l: nat | l < |out|
      ensures out[l].messagePk != ms[i].message.messagePk
    {
      var o := OnlyInputs(ms, out, keys, l);
      assert o != i;
    }
  }

  lemma AllAppearExactly(ms: seq<Keyed>, out: seq<BuiltMessage>, keys: seq<Key>)
    requires DistinctKeyed(ms) && ListsAll(ForestOf(ms), out, keys)
    ensures (forall i | 0 <= i < |ms| :: Contains(out, ms[i].message.messagePk)) <==> NodeKeysDistinct(ms)
  {
    if NodeKeysDistinct(ms) {
      forall i: nat | i < |ms|
        ensures Contains(out, ms[i].message.messagePk)
      {
        OwnersAppear(ms, out, keys, i);
      }
    }
    forall i: nat, j: nat | i < j < |ms| && NodeKeyAt(ms, i) == NodeKeyAt(ms, j)
      ensures !Contains(out, ms[i].message.messagePk)
    {
      OvertakenIsLost(ms, out, keys, i, j);
    }
  }

  lemma SortedKeepsPks(messages: seq<Message>)
    requires DistinctPks(messages)
    ensures DistinctPks(Sort(messages, ByMessage()))
  {
    var s := Sort(messages, ByMessage());
    SortMultiset(messages, ByMessage());
    DistinctPksOfMultiset(messages, s);
  }

  lemma {:induction false} DistinctPksOfMultiset(a: seq<Message>, b: seq<Message>)
    requires DistinctPks(a) && multiset(a) == multiset(b)
    ensures DistinctPks(b)
  {
    forall i, j | 0 <= i < j < |b|
      ensures b[i].messagePk != b[j].messagePk
    {
      SameElements(a, b);
      assert b[i] in a && b[j] in a;
      assert b == b[..j] + b[j..] && b[..j][i] == b[i] && b[j..][0] == b[j];
      assert multiset(b) == multiset(b[..j]) + multiset(b[j..]);
      if b[i] == b[j] {
        assert multiset(b)[b[i]] >= 2;
        TwiceInSequence(a, b[i]);
      }
    }
  }

  lemma {:induction false} TwiceInSequence(a: seq<Message>, x: Message)
    requires DistinctPks(a)
    ensures multiset(a)[x] <= 1
  {
    if a != [] {
      var last := |a| - 1;
      TwiceInSequence(a[..last], x);
      assert a == a[..last] + [a[last]];
      if a[last] == x && x in a[..last] {
        assert false;
      }
      InMultiset(x, a[..last]);
    }
  }

  /** `ms` are the keyed messages of some arrangement of `messages`. */
  ghost predicate KeyedFrom(ms: seq<Keyed>, messages: seq<Message>) {
    && (forall i | 0 <= i < |ms| :: ms[i].message in messages)
    && (forall m | m in messages :: exists i :: 0 <= i < |ms| && ms[i].message == m)
  }

  lemma RearrangedIsKeyed(messages: seq<Message>, sorted: seq<Message>, ms: seq<Keyed>)
    requires multiset(messages) == multiset(sorted)
    requires |ms| == |sorted| && forall i | 0 <= i < |ms| :: ms[i].message == sorted[i]
    ensures KeyedFrom(ms, messages)
  {
    SameElements(messages, sorted);
    forall i | 0 <= i < |ms|
      ensures ms[i].message in messages
    {
      assert sorted[i] in sorted;
    }
    forall m | m in messages
      ensures exists i :: 0 <= i < |ms| && ms[i].message == m
    {
      var i :| 0 <= i < |sorted| && sorted[i] == m;
      assert ms[i].message == m;
    }
  }

  lemma SortedIsKeyed(messages: seq<Message>)
    ensures KeyedFrom(KeyAll(Sort(messages, ByMessage())), messages)
  {
    var sorted := Sort(messages, ByMessage());
    SortMultiset(messages, ByMessage());
    RearrangedIsKeyed(messages, sorted, KeyAll(sorted));
  }

  ghost predicate FromInput(messages: seq<Message>, pk: int) {
    exists m :: m in messages && m.messagePk == pk
  }

  lemma NoneForeign(messages: seq<Message>, ms: seq<Keyed>, out: seq<BuiltMessage>, keys: seq<Key>)
    requires KeyedFrom(ms, messages) && ListsAll(ForestOf(ms), out, keys)
    ensures forall j | 0 <= j < |out| :: FromInput(messages, out[j].messagePk)
  {
    forall j: nat | j < |out|
      ensures FromInput(messages, out[j].messagePk)
    {
      var o := OnlyInputs(ms, out, keys, j);
      assert ms[o].message in messages;
    }
  }

  lemma AllReturnedAsKeyed(messages: seq<Message>, ms: seq<Keyed>, out: seq<BuiltMessage>)
    requires KeyedFrom(ms, messages)
    ensures (forall m | m in messages :: Contains(out, m.messagePk))
            <==> (forall i | 0 <= i < |ms| :: Contains(out, ms[i].message.messagePk))
  {
  }

  /** For messages with distinct row ids: nothing is returned twice, nothing is made up, and
      all messages are returned exactly when no two of them got the same node key. */
  lemma {:induction false} EveryMessageExactlyOnce(messages: seq<Message>)
    requires DistinctPks(messages)
    ensures var ms, out := KeyAll(Sort(messages, ByMessage())), AllMessages(Build(messages));
            && EachOnce(out)
            && (forall j | 0 <= j < |out| :: FromInput(messages, out[j].messagePk))
            && ((forall m | m in messages :: Contains(out, m.messagePk)) <==> NodeKeysDistinct(ms))
  {
    var ms := KeyAll(Sort(messages, ByMessage()));
    SortedIsKeyed(messages);
    SortedKeepsPks(messages);
    var keys := ReturnedListsAll(ForestOf(ms), ms);
    var out := AllMessages(Build(messages));
    NoneTwice(ms, out, keys);
    NoneForeign(messages, ms, out, keys);
    AllAppearExactly(ms, out, keys);
    AllReturnedAsKeyed(messages, ms, out);
  }

  /** In particular when no stored Message-ID starts like a key the builder makes up. */
  lemma HonestMessagesAllReturned(messages: seq<Message>, m: Message)
    requires DistinctPks(messages) && m in messages
    requires forall x | x in messages :: !UsesReservedPrefix(x)
    ensures Contains(AllMessages(Build(messages)), m.messagePk)
  {
    var sorted := Sort(messages, ByMessage());
    SortedKeepsPks(messages);
    SortMultiset(messages, ByMessage());
    SameElements(messages, sorted);
    forall i | 0 <= i < |sorted|
      ensures !UsesReservedPrefix(sorted[i])
    {
      assert sorted[i] in messages;
    }
    HonestIdsAreDistinct(sorted);
    EveryMessageExactlyOnce(messages);
  }
}
