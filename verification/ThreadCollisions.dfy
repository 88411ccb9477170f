/** Which stored Message-IDs make `build_threads` lose a message: those that imitate a key that
    the builder makes up. */
module ThreadCollisions {
  import opened MessageIds
  import opened Sorting
  import opened Text
  import opened ThreadForest
  import opened ThreadGuarantees
  import opened ThreadLink
  import opened ThreadOutcome
  import opened ThreadRegister
  import opened Wrappers

  // ---- equal node keys ----

  /** An earlier message has the same canonical key. */
  ghost predicate Again(ms: seq<Keyed>, i: nat)
    requires i < |ms|
  {
    !ms[i].synthetic && exists h: nat :: h < i && ms[h].canonical == ms[i].canonical
  }

  /** Two equal keys of the synthetic form, or a duplicate key that is another's canonical one. */
  ghost predicate ClashAt(ms: seq<Keyed>, i: nat, j: nat)
    requires i < |ms| && j < |ms|
  {
    && i != j
    && ((ms[i].synthetic && ms[i].canonical == ms[j].canonical)
        || (Again(ms, i) && ms[j].canonical == ms[i].duplicate))
  }

  ghost predicate FromMessages(ms: seq<Keyed>) {
    && (forall i | 0 <= i < |ms| :: ms[i] == KeyMessage(ms[i].message))
    && (forall i, j | 0 <= i < j < |ms| :: ms[i].message.messagePk != ms[j].message.messagePk)
  }

  lemma NodeKeyForm(ms: seq<Keyed>, i: nat)
    requires i < |ms| && FromMessages(ms)
    ensures NodeKeyAt(ms, i) == if Again(ms, i) then ms[i].duplicate else ms[i].canonical
  {
    CanonicalTaken(ms, i, ms[i].canonical);
    assert forall h | 0 <= h < i :: ms[h] == KeyMessage(ms[h].message);
  }

  lemma {:induction false} FirstWithKey(ms: seq<Keyed>, j: nat) returns (h: nat)
    requires j < |ms|
    ensures h <= j && ms[h].canonical == ms[j].canonical && !Again(ms, h)
  {
    h := j;
    if Again(ms, j) {
      var g: nat :| g < j && ms[g].canonical == ms[j].canonical;
      h := FirstWithKey(ms, g);
    }
  }

  lemma DuplicateIsLonger(m: Message)
    ensures KeyMessage(m).duplicate != KeyMessage(m).canonical
  {
    assert |DuplicateKey(CanonicalKey(m), m.messagePk)| > |CanonicalKey(m)|;
  }

  lemma ClashIsEqual(ms: seq<Keyed>, i: nat, j: nat) returns (h: nat)
    requires FromMessages(ms) && i < |ms| && j < |ms| && ClashAt(ms, i, j)
    ensures h < |ms| && h != i && NodeKeyAt(ms, h) == NodeKeyAt(ms, i)
  {
    NodeKeyForm(ms, i);
    if ms[i].synthetic {
      h := j;
      assert ms[i] == KeyMessage(ms[i].message) && ms[j] == KeyMessage(ms[j].message);
    } else {
      h := FirstWithKey(ms, j);
      assert ms[i] == KeyMessage(ms[i].message);
      DuplicateIsLonger(ms[i].message);
    }
    NodeKeyForm(ms, h);
  }

  lemma EqualIsClash(ms: seq<Keyed>, i: nat, j: nat)
    requires FromMessages(ms) && i < j < |ms| && NodeKeyAt(ms, i) == NodeKeyAt(ms, j)
    ensures ClashAt(ms, i, j) || ClashAt(ms, j, i)
  {
    NodeKeyForm(ms, i);
    NodeKeyForm(ms, j);
    var a, b := ms[i].message, ms[j].message;
    assert ms[i] == KeyMessage(a) && ms[j] == KeyMessage(b);
    if Again(ms, i) && Again(ms, j) {
      DuplicateKeysDiffer(CanonicalKey(a), a.messagePk, CanonicalKey(b), b.messagePk);
    }
  }

  ghost predicate NoClash(ms: seq<Keyed>) {
    forall i: nat, j: nat | i < |ms| && j < |ms| :: !ClashAt(ms, i, j)
  }

  lemma DistinctHasNoClash(ms: seq<Keyed>)
    requires FromMessages(ms) && NodeKeysDistinct(ms)
    ensures NoClash(ms)
  {
    forall i: nat, j: nat | i < |ms| && j < |ms|
      ensures !ClashAt(ms, i, j)
    {
      if ClashAt(ms, i, j) {
        var h := ClashIsEqual(ms, i, j);
      }
    }
  }

  lemma NoClashIsDistinct(ms: seq<Keyed>)
    requires FromMessages(ms) && NoClash(ms)
    ensures NodeKeysDistinct(ms)
  {
    forall i: nat, j: nat | i < j < |ms|
      ensures NodeKeyAt(ms, i) != NodeKeyAt(ms, j)
    {
      if NodeKeyAt(ms, i) == NodeKeyAt(ms, j) {
        EqualIsClash(ms, i, j);
      }
    }
  }

  // ---- stored Message-IDs ----

  /** An earlier message, in the order of processing, has the same Message-ID. */
  ghost predicate Repeats(messages: seq<Message>, m: Message) {
    && !KeyMessage(m).synthetic
    && exists e :: e in messages && e != m && MessageLe(e, m) && KeyMessage(e).canonical == KeyMessage(m).canonical
  }

  /** `b` has the key that the builder makes up for `a`. */
  ghost predicate Imitates(messages: seq<Message>, a: Message, b: Message) {
    && a in messages && b in messages && a != b
    && ((KeyMessage(a).synthetic && KeyMessage(a).canonical == KeyMessage(b).canonical)
        || (Repeats(messages, a) && KeyMessage(b).canonical == KeyMessage(a).duplicate))
  }

  ghost predicate SortedFrom(sorted: seq<Message>, messages: seq<Message>) {
    SortedBy(sorted, ByMessage()) && DistinctPks(sorted) && forall m :: m in sorted <==> m in messages
  }

  lemma SortedIsFrom(messages: seq<Message>)
    requires DistinctPks(messages)
    ensures SortedFrom(Sort(messages, ByMessage()), messages)
  {
    MessageOrder();
    SortSorted(messages, ByMessage());
    SortMultiset(messages, ByMessage());
    SortedKeepsPks(messages);
    SameElements(messages, Sort(messages, ByMessage()));
  }

  lemma TiesHaveOnePk(a: Message, b: Message)
    requires MessageLe(a, b) && MessageLe(b, a)
    ensures a.messagePk == b.messagePk
  {
    if DateOrEpoch(a) == DateOrEpoch(b) && a.subjectNorm != b.subjectNorm {
      StringLeAntisymmetric(a.subjectNorm, b.subjectNorm);
    }
  }

  lemma {:induction false} AgainIsRepeats(messages: seq<Message>, sorted: seq<Message>, i: nat)
    requires SortedFrom(sorted, messages) && i < |sorted|
    ensures Again(KeyAll(sorted), i) <==> Repeats(messages, sorted[i])
  {
    var ks, m := KeyAll(sorted), sorted[i];
    if Again(ks, i) {
      var h: nat :| h < i && ks[h].canonical == ks[i].canonical;
      assert ByMessage()(sorted[h], sorted[i]) && sorted[h] in sorted;
    }
    if Repeats(messages, m) {
      var e :| e in messages && e != m && MessageLe(e, m) && KeyMessage(e).canonical == KeyMessage(m).canonical;
      assert e in sorted;
      var h: nat :| h < |sorted| && sorted[h] == e;
      if i < h {
        assert ByMessage()(sorted[i], sorted[h]);
        TiesHaveOnePk(e, m);
      }
      assert ks[h].canonical == ks[i].canonical;
    }
  }

  lemma ClashIsImitation(messages: seq<Message>, sorted: seq<Message>, i: nat, j: nat)
    requires SortedFrom(sorted, messages) && i < |sorted| && j < |sorted|
    ensures ClashAt(KeyAll(sorted), i, j) <==> Imitates(messages, sorted[i], sorted[j])
  {
    AgainIsRepeats(messages, sorted, i);
    assert sorted[i] in sorted && sorted[j] in sorted;
  }

  ghost predicate NoImitation(messages: seq<Message>) {
    forall a, b | a in messages && b in messages :: !Imitates(messages, a, b)
  }

  lemma ImitationClashes(messages: seq<Message>, sorted: seq<Message>, a: Message, b: Message) returns (i: nat, j: nat)
    requires SortedFrom(sorted, messages) && Imitates(messages, a, b)
    ensures i < |sorted| && j < |sorted| && ClashAt(KeyAll(sorted), i, j)
  {
    assert a in sorted && b in sorted;
    i :| i < |sorted| && sorted[i] == a;
    j :| j < |sorted| && sorted[j] == b;
    ClashIsImitation(messages, sorted, i, j);
  }

  lemma NoClashNoImitation(messages: seq<Message>, sorted: seq<Message>)
    requires SortedFrom(sorted, messages) && NoClash(KeyAll(sorted))
    ensures NoImitation(messages)
  {
    forall a, b | a in messages && b in messages
      ensures !Imitates(messages, a, b)
    {
      if Imitates(messages, a, b) {
        var i, j := ImitationClashes(messages, sorted, a, b);
      }
    }
  }

  lemma NoImitationNoClash(messages: seq<Message>, sorted: seq<Message>)
    requires SortedFrom(sorted, messages) && NoImitation(messages)
    ensures NoClash(KeyAll(sorted))
  {
    forall i: nat, j: nat | i < |sorted| && j < |sorted|
      ensures !ClashAt(KeyAll(sorted), i, j)
    {
      assert sorted[i] in sorted && sorted[j] in sorted;
      ClashIsImitation(messages, sorted, i, j);
    }
  }

  lemma KeyedIsFrom(sorted: seq<Message>)
    requires DistinctPks(sorted)
    ensures FromMessages(KeyAll(sorted))
  {
  }

  lemma DistinctExactly(messages: seq<Message>, sorted: seq<Message>)
    requires SortedFrom(sorted, messages)
    ensures NodeKeysDistinct(KeyAll(sorted)) <==> NoImitation(messages)
  {
    var ks := KeyAll(sorted);
    KeyedIsFrom(sorted);
    if NodeKeysDistinct(ks) {
      DistinctHasNoClash(ks);
      NoClashNoImitation(messages, sorted);
    }
    if NoImitation(messages) {
      NoImitationNoClash(messages, sorted);
      NoClashIsDistinct(ks);
    }
  }

  /** All messages come back exactly if no stored Message-ID is the key that the builder makes
      up for another message. */
  lemma AllReturnedExactly(messages: seq<Message>)
    requires DistinctPks(messages)
    ensures (forall m | m in messages :: ThreadGuarantees.Contains(AllMessages(Build(messages)), m.messagePk))
            <==> NoImitation(messages)
  {
    EveryMessageExactlyOnce(messages);
    SortedIsFrom(messages);
    DistinctExactly(messages, Sort(messages, ByMessage()));
  }

  // ---- what gets lost ----

  lemma PositionsOf(messages: seq<Message>, sorted: seq<Message>, a: Message, b: Message) returns (i: nat, j: nat)
    requires SortedFrom(sorted, messages) && a in messages && b in messages && a != b && MessageLe(a, b)
    ensures i < j < |sorted| && sorted[i] == a && sorted[j] == b
  {
    assert a in sorted && b in sorted;
    i :| i < |sorted| && sorted[i] == a;
    j :| j < |sorted| && sorted[j] == b;
    if j < i {
      assert ByMessage()(sorted[j], sorted[i]);
      TiesHaveOnePk(a, b);
    }
  }

  /** Of two messages whose equal Message-ID has the synthetic form, the earlier one is lost. */
  lemma EarlierImitatorIsLost(messages: seq<Message>, a: Message, b: Message)
    requires DistinctPks(messages) && a in messages && b in messages && a != b && MessageLe(a, b)
    requires KeyMessage(a).synthetic && KeyMessage(a).canonical == KeyMessage(b).canonical
    ensures !ThreadGuarantees.Contains(AllMessages(Build(messages)), a.messagePk)
  {
    var sorted := Sort(messages, ByMessage());
    SortedIsFrom(messages);
    KeyedIsFrom(sorted);
    var i, j := PositionsOf(messages, sorted, a, b);
    NodeKeyForm(KeyAll(sorted), i);
    NodeKeyForm(KeyAll(sorted), j);
    OvertakenInBuild(messages, KeyAll(sorted), i, j);
  }

  lemma BuildLists(messages: seq<Message>, ms: seq<Keyed>) returns (keys: seq<Key>)
    requires DistinctPks(messages) && ms == KeyAll(Sort(messages, ByMessage()))
    ensures DistinctKeyed(ms) && ListsAll(ForestOf(ms), AllMessages(Build(messages)), keys)
  {
    SortedKeepsPks(messages);
    SortedIsKeyed(messages);
    keys := ReturnedListsAll(ForestOf(ms), ms);
  }

  lemma OvertakenInBuild(messages: seq<Message>, ms: seq<Keyed>, i: nat, j: nat)
    requires DistinctPks(messages) && ms == KeyAll(Sort(messages, ByMessage()))
    requires i < j < |ms| && NodeKeyAt(ms, i) == NodeKeyAt(ms, j)
    ensures !ThreadGuarantees.Contains(AllMessages(Build(messages)), ms[i].message.messagePk)
  {
    var keys := BuildLists(messages, ms);
    OvertakenIsLost(ms, AllMessages(Build(messages)), keys, i, j);
  }

  predicate IsPlain(c: char) {
    !IsWhitespace(c) && c != '"' && c != '\'' && c != '<' && c != '>' && AsciiLowerChar(c) == c
  }

  lemma NothingToTrim(s: string, drop: char -> bool)
    requires s != "" && !drop(s[0]) && !drop(s[|s| - 1])
    ensures TrimMatches(s, drop) == s
  {
  }

  predicate AllPlain(s: string) {
    forall i | 0 <= i < |s| :: IsPlain(s[i])
  }

  /** Texts without markup are kept by `normalize_message_id_token`. */
  lemma PlainTokensStay(s: string)
    requires s != "" && AllPlain(s)
    ensures NormalizeToken(s) == s
  {
    LowerFixed(s);
    NothingToTrim(s, IsWhitespace);
    NothingToTrim(s, DropChar('"'));
    NothingToTrim(s, DropChar('\''));
    NothingToTrim(s, DropChar('<'));
    NothingToTrim(s, DropChar('>'));
    assert StripOnce(s) == s;
  }

  function Imitation(pk: int, token: string): Message {
    Message(pk, token, "patch", "patch", None, [], [])
  }

  lemma ImitationIsSynthetic(pk: int, rest: string)
    requires AllPlain(rest)
    ensures var k := KeyMessage(Imitation(pk, SYNTHETIC + rest));
            k.synthetic && k.canonical == Key(SYNTHETIC + rest)
  {
    var token := SYNTHETIC + rest;
    assert AllPlain(SYNTHETIC);
    PlainTokensStay(token);
    assert token[..|SYNTHETIC|] == SYNTHETIC;
  }

  lemma TwoMessages(messages: seq<Message>, a: Message, b: Message)
    requires messages == [a, b] && a.messagePk < b.messagePk
    ensures DistinctPks(messages) && a in messages && b in messages && a != b
  {
    assert messages[0] == a && messages[1] == b;
  }

  lemma EarlierOfTwoIsLost(messages: seq<Message>, a: Message, b: Message)
    requires messages == [a, b] && a.messagePk < b.messagePk && MessageLe(a, b)
    requires KeyMessage(a).synthetic && KeyMessage(a).canonical == KeyMessage(b).canonical
    ensures DistinctPks(messages) && !ThreadGuarantees.Contains(AllMessages(Build(messages)), a.messagePk)
  {
    TwoMessages(messages, a, b);
    EarlierImitatorIsLost(messages, a, b);
  }

  /** Two messages that were stored under one Message-ID such as `synthetic:msgpk:9`: only the
      later one comes back. */
  lemma SameImitationIsLost(messages: seq<Message>, pk: int, later: int, rest: string)
    requires AllPlain(rest) && pk < later
    requires messages == [Imitation(pk, SYNTHETIC + rest), Imitation(later, SYNTHETIC + rest)]
    ensures DistinctPks(messages) && !ThreadGuarantees.Contains(AllMessages(Build(messages)), pk)
  {
    ImitationIsSynthetic(pk, rest);
    ImitationIsSynthetic(later, rest);
    EarlierOfTwoIsLost(messages, Imitation(pk, SYNTHETIC + rest), Imitation(later, SYNTHETIC + rest));
  }
}
