/** The first two passes of `build_threads`: every message gets a node, then references
    link the nodes. */
module ThreadRegister {
  import opened MessageIds
  import opened Sorting
  import opened Text
  import opened ThreadForest
  import opened ThreadWalk
  import opened Wrappers

  function DateOrEpoch(m: Message): int {
    m.dateUtc.GetOr(0)
  }

  /** The order in which messages are processed. */
  predicate MessageLe(a: Message, b: Message) {
    if DateOrEpoch(a) != DateOrEpoch(b) then DateOrEpoch(a) < DateOrEpoch(b)
    else if a.subjectNorm != b.subjectNorm then StringLe(a.subjectNorm, b.subjectNorm)
    else a.messagePk <= b.messagePk
  }

  function ByMessage(): (Message, Message) -> bool {
    (a, b) => MessageLe(a, b)
  }

  lemma MessageOrder()
    ensures Linear(ByMessage())
  {
    forall a: Message, b: Message
      ensures MessageLe(a, b) || MessageLe(b, a)
    {
      StringLeTotal(a.subjectNorm, b.subjectNorm);
    }
    forall a: Message, b: Message, c: Message | MessageLe(a, b) && MessageLe(b, c)
      ensures MessageLe(a, c)
    {
      MessageLeTransitive(a, b, c);
    }
  }

  lemma MessageLeTransitive(a: Message, b: Message, c: Message)
    requires MessageLe(a, b) && MessageLe(b, c)
    ensures MessageLe(a, c)
  {
    TupleLeTransitive(SortTuple(DateOrEpoch(a), a.subjectNorm, ""),
                      SortTuple(DateOrEpoch(b), b.subjectNorm, ""),
                      SortTuple(DateOrEpoch(c), c.subjectNorm, ""));
    if DateOrEpoch(a) == DateOrEpoch(b) == DateOrEpoch(c) && a.subjectNorm == c.subjectNorm {
      StringLeTotal(a.subjectNorm, b.subjectNorm);
      if a.subjectNorm != b.subjectNorm {
        StringLeAntisymmetric(a.subjectNorm, b.subjectNorm);
      }
    }
  }

  ghost predicate DistinctPks(ms: seq<Message>) {
    forall i, j | 0 <= i < j < |ms| :: ms[i].messagePk != ms[j].messagePk
  }

  // ---- first pass: a node for every message ----

  function MessageContent(m: Message): Content {
    Content(Some(m.messagePk), Some(m.messageIdPrimary), m.subjectRaw, m.subjectNorm,
            DateOrEpoch(m), false)
  }

  function MessageNode(m: Message): Node {
    Node(MessageContent(m), None, {})
  }

  function Placeholder(): Node {
    Node(Content(None, None, "", "", 0, true), None, {})
  }

  /** A message with the keys it may be given: `canonical_message_key`, whether that key is
      made up from the row id, and the key it gets when the canonical one is taken; and the
      keys of `build_reference_chain`. */
  datatype Keyed = Keyed(message: Message, canonical: Key, synthetic: bool, duplicate: Key, references: seq<Key>)

  /** The nodes a reference chain stands for. */
  function ChainKeys(m: Message): seq<Key> {
    var ids := ReferenceChain(m);
    seq(|ids|, i requires 0 <= i < |ids| => Key(ids[i]))
  }

  function KeyMessage(m: Message): Keyed {
    var ck := CanonicalKey(m);
    Keyed(m, Key(ck), StartsWith(ck, SYNTHETIC), Key(DuplicateKey(ck, m.messagePk)), ChainKeys(m))
  }

  function KeyAll(ms: seq<Message>): (ks: seq<Keyed>)
    ensures |ks| == |ms| && forall i | 0 <= i < |ms| :: ks[i] == KeyMessage(ms[i])
  {
    seq(|ms|, i requires 0 <= i < |ms| => KeyMessage(ms[i]))
  }

  /** The canonical keys taken by a message and the nodes made so far. */
  datatype Registry = Registry(nodes: Nodes, canonical: map<Key, Key>, nodeKeyOf: map<int, Key>)

  function NodeKeyFor(canonical: map<Key, Key>, m: Keyed): Key {
    if m.synthetic then m.canonical
    else if m.canonical in canonical then m.duplicate
    else m.canonical
  }

  function RegisterOne(reg: Registry, m: Keyed): Registry {
    var k := NodeKeyFor(reg.canonical, m);
    Registry(
      reg.nodes[k := MessageNode(m.message)],
      if m.synthetic || m.canonical in reg.canonical then reg.canonical
      else reg.canonical[m.canonical := k],
      reg.nodeKeyOf[m.message.messagePk := k])
  }

  /** The registry after the first `n` messages. */
  function Register(ms: seq<Keyed>, n: nat): Registry
    requires n <= |ms|
  {
    if n == 0 then Registry(map[], map[], map[])
    else RegisterOne(Register(ms, n - 1), ms[n - 1])
  }

  /** The node key that the `i`th message gets. */
  function NodeKeyAt(ms: seq<Keyed>, i: nat): Key
    requires i < |ms|
  {
    NodeKeyFor(Register(ms, i).canonical, ms[i])
  }

  ghost predicate NodeKeysDistinct(ms: seq<Keyed>) {
    forall i, j | 0 <= i < j < |ms| :: NodeKeyAt(ms, i) != NodeKeyAt(ms, j)
  }

  /** `i` is the last of the first `n` messages registered under `k`: its node survives. */
  ghost predicate OwnsKey(ms: seq<Keyed>, n: nat, i: nat, k: Key)
    requires n <= |ms|
  {
    && i < n && NodeKeyAt(ms, i) == k
    && forall j | i < j < n :: NodeKeyAt(ms, j) != k
  }

  lemma NodesStep(ms: seq<Keyed>, n: nat)
    requires 0 < n <= |ms|
    ensures Register(ms, n).nodes ==
            Register(ms, n - 1).nodes[NodeKeyAt(ms, n - 1) := MessageNode(ms[n - 1].message)]
  {
  }

  lemma {:induction false} KeyRegistered(ms: seq<Keyed>, n: nat, i: nat)
    requires i < n <= |ms|
    ensures NodeKeyAt(ms, i) in Register(ms, n).nodes
  {
    NodesStep(ms, n);
    if i < n - 1 {
      KeyRegistered(ms, n - 1, i);
    }
  }

  /** Before linking, every node is that of the last message registered under its key. */
  lemma {:induction false} OwnerOf(ms: seq<Keyed>, n: nat, k: Key) returns (i: nat)
    requires n <= |ms| && k in Register(ms, n).nodes
    ensures OwnsKey(ms, n, i, k) && Register(ms, n).nodes[k] == MessageNode(ms[i].message)
  {
    NodesStep(ms, n);
    if k == NodeKeyAt(ms, n - 1) {
      i := n - 1;
    } else {
      i := OwnerOf(ms, n - 1, k);
    }
  }

  // ---- when node keys are distinct ----

  lemma {:induction false} CanonicalTaken(ms: seq<Keyed>, n: nat, ck: Key)
    requires n <= |ms|
    ensures ck in Register(ms, n).canonical ==> Register(ms, n).canonical[ck] == ck
    ensures ck in Register(ms, n).canonical <==>
            exists i :: 0 <= i < n && !ms[i].synthetic && ms[i].canonical == ck
  {
    if n > 0 {
      CanonicalTaken(ms, n - 1, ck);
    }
  }

  /** No stored Message-ID imitates a key that the builder makes up. */
  predicate UsesReservedPrefix(m: Message) {
    var token := NormalizeToken(m.messageIdPrimary);
    StartsWith(token, SYNTHETIC) || StartsWith(token, DUPLICATE)
  }

  lemma SyntheticExactly(m: Message)
    requires !UsesReservedPrefix(m)
    ensures KeyMessage(m).synthetic <==> NormalizeToken(m.messageIdPrimary) == ""
  {
    if NormalizeToken(m.messageIdPrimary) == "" {
      assert CanonicalKey(m)[..|SYNTHETIC|] == SYNTHETIC;
    }
  }

  lemma FirstLetters(c: string, pk: int, pk': int)
    ensures DuplicateKey(c, pk)[0] == 'd' && (SYNTHETIC + IntText(pk'))[0] == 's'
  {
  }

  lemma ReservedForms(c: string, pk: int)
    ensures StartsWith(DuplicateKey(c, pk), DUPLICATE)
    ensures StartsWith(SYNTHETIC + IntText(pk), SYNTHETIC)
  {
    assert DuplicateKey(c, pk) == DUPLICATE + (c + MSGPK + IntText(pk));
  }

  /** Keys of different messages differ, but for two equal canonical keys. */
  lemma KeyFormsApart(a: Message, b: Message)
    requires a.messagePk != b.messagePk && !UsesReservedPrefix(a) && !UsesReservedPrefix(b)
    ensures var x, y := KeyMessage(a), KeyMessage(b);
            && (x.synthetic || y.synthetic ==> x.canonical != y.canonical)
            && x.canonical != y.duplicate && x.duplicate != y.canonical && x.duplicate != y.duplicate
  {
    var ta, tb := NormalizeToken(a.messageIdPrimary), NormalizeToken(b.messageIdPrimary);
    SyntheticExactly(a);
    SyntheticExactly(b);
    ReservedForms(CanonicalKey(a), a.messagePk);
    ReservedForms(CanonicalKey(b), b.messagePk);
    FirstLetters(CanonicalKey(a), a.messagePk, b.messagePk);
    FirstLetters(CanonicalKey(b), b.messagePk, a.messagePk);
    if ta == "" && tb == "" && CanonicalKey(a) == CanonicalKey(b) {
      SyntheticKeysDiffer(a.messagePk, b.messagePk);
    }
    if DuplicateKey(CanonicalKey(a), a.messagePk) == DuplicateKey(CanonicalKey(b), b.messagePk) {
      DuplicateKeysDiffer(CanonicalKey(a), a.messagePk, CanonicalKey(b), b.messagePk);
    }
  }

  /** Without such imitations no message takes the node of another one. */
  lemma HonestIdsAreDistinct(ms: seq<Message>)
    requires DistinctPks(ms) && forall i | 0 <= i < |ms| :: !UsesReservedPrefix(ms[i])
    ensures NodeKeysDistinct(KeyAll(ms))
  {
    var ks := KeyAll(ms);
    forall i, j | 0 <= i < j < |ms|
      ensures NodeKeyAt(ks, i) != NodeKeyAt(ks, j)
    {
      KeyFormsApart(ms[i], ms[j]);
      CanonicalTaken(ks, j, ks[j].canonical);
    }
  }
}
