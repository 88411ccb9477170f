/** `apply_subject_fallback`: reply-subject roots without usable references are attached to
    a root of the same normalised subject. */
module SubjectFallback {
  import opened Sorting
  import opened Text
  import opened ThreadForest
  import opened ThreadWalk
  import opened Wrappers

  predicate IsReplySubject(subject: string) {
    var normalized := AsciiLower(Trim(subject));
    || StartsWith(normalized, "re:") || StartsWith(normalized, "aw:")
    || StartsWith(normalized, "fwd:") || StartsWith(normalized, "fw:")
  }

  /** `s` begins with the text in small or capital letters. */
  ghost predicate Spells(s: string, small: string, capital: string) {
    |small| == |capital| <= |s| && forall i | 0 <= i < |small| :: s[i] == small[i] || s[i] == capital[i]
  }

  ghost predicate InBothCases(small: string, capital: string) {
    && |small| == |capital|
    && forall i, c: char | 0 <= i < |small| :: AsciiLowerChar(c) == small[i] <==> c == small[i] || c == capital[i]
  }

  lemma LowerSpells(s: string, small: string, capital: string)
    requires InBothCases(small, capital)
    ensures StartsWith(AsciiLower(s), small) <==> Spells(s, small, capital)
  {
    var lower := AsciiLower(s);
    forall i: nat | i < |s|
      ensures lower[i] == AsciiLowerChar(s[i])
    {
      AsciiLowerAt(s, i);
    }
    if Spells(s, small, capital) {
      assert lower[..|small|] == small;
    }
  }

  /** A reply's subject begins, behind white space, with one of four marks. */
  lemma ReplySubjectMeans(subject: string)
    ensures var s := Trim(subject);
            IsReplySubject(subject)
            <==> Spells(s, "re:", "RE:") || Spells(s, "aw:", "AW:")
                 || Spells(s, "fwd:", "FWD:") || Spells(s, "fw:", "FW:")
  {
    hide StartsWith;
    LowerSpells(Trim(subject), "re:", "RE:");
    LowerSpells(Trim(subject), "aw:", "AW:");
    LowerSpells(Trim(subject), "fwd:", "FWD:");
    LowerSpells(Trim(subject), "fw:", "FW:");
  }

  predicate IsReply(n: Nodes, k: Key) {
    k in n && IsReplySubject(n[k].content.subjectRaw)
  }

  /** A root that stands for a stored message, not a placeholder. */
  predicate IsRealRoot(n: Nodes, k: Key) {
    k in n && n[k].parent.None? && n[k].content.messagePk.Some?
  }

  function RealRoots(n: Nodes): set<Key> {
    set k | k in n && IsRealRoot(n, k)
  }

  ghost function SortedRealRoots(n: Nodes): seq<Key> {
    SortSet(RealRoots(n), ByTuple(n))
  }

  predicate SameSubject(n: Nodes, a: Key, b: Key) {
    a in n && b in n && n[a].content.subjectNorm == n[b].content.subjectNorm
  }

  /** The roots the loop tries to move: replies with a subject to match. */
  predicate Moves(n: Nodes, k: Key) {
    IsReply(n, k) && n[k].content.subjectNorm != ""
  }

  predicate IsCandidate(n: Nodes, child: Key, c: Key) {
    c != child && IsRealRoot(n, c) && SameSubject(n, c, child)
  }

  function Candidates(n: Nodes, roots: seq<Key>, child: Key): seq<Key> {
    if roots == [] then []
    else (if IsCandidate(n, child, roots[0]) then [roots[0]] else []) + Candidates(n, roots[1..], child)
  }

  /** Candidates without a reply subject come first. */
  function ByReplyThenTuple(n: Nodes): (Key, Key) -> bool {
    (a, b) =>
      if IsReply(n, a) != IsReply(n, b) then !IsReply(n, a)
      else TupleLe(TupleOf(n, a), TupleOf(n, b))
  }

  ghost function FallbackStep(n: NodeForest, roots: seq<Key>, child: Key): NodeForest {
    if !Moves(n, child) then n
    else
      var candidates := Sort(Candidates(n, roots, child), ByReplyThenTuple(n));
      if candidates == [] then n else Attach(n, candidates[0], child)
  }

  ghost function FallbackFrom(n: NodeForest, roots: seq<Key>, i: nat): NodeForest
    requires i <= |roots|
    decreases |roots| - i
  {
    if i == |roots| then n else FallbackFrom(FallbackStep(n, roots, roots[i]), roots, i + 1)
  }

  ghost function ApplySubjectFallback(n: NodeForest): NodeForest {
    FallbackFrom(n, SortedRealRoots(n), 0)
  }

  lemma {:induction false} FallbackFromGrows(n: NodeForest, roots: seq<Key>, i: nat)
    requires i <= |roots|
    ensures Grown(n, FallbackFrom(n, roots, i)) && FallbackFrom(n, roots, i).Keys == n.Keys
    decreases |roots| - i
  {
    if i < |roots| {
      var m := FallbackStep(n, roots, roots[i]);
      FallbackStepGrows(n, roots, roots[i]);
      FallbackFromGrows(m, roots, i + 1);
      GrownTransitive(n, m, FallbackFrom(m, roots, i + 1));
    }
  }

  lemma FallbackStepGrows(n: NodeForest, roots: seq<Key>, child: Key)
    ensures Grown(n, FallbackStep(n, roots, child)) && FallbackStep(n, roots, child).Keys == n.Keys
  {
    var candidates := Sort(Candidates(n, roots, child), ByReplyThenTuple(n));
    if Moves(n, child) && candidates != [] {
      AttachGrows(n, candidates[0], child);
    }
  }

  lemma FallbackGrows(n: NodeForest)
    ensures Grown(n, ApplySubjectFallback(n)) && ApplySubjectFallback(n).Keys == n.Keys
  {
    FallbackFromGrows(n, SortedRealRoots(n), 0);
  }

  // ---- the candidate that wins ----

  lemma {:induction false} CandidatesExactly(n: Nodes, roots: seq<Key>, child: Key, c: Key)
    ensures c in Candidates(n, roots, child) <==> c in roots && IsCandidate(n, child, c)
  {
    if roots != [] {
      CandidatesExactly(n, roots[1..], child, c);
      assert roots == [roots[0]] + roots[1..];
    }
  }

  lemma ByReplyOrder(n: Nodes)
    ensures Linear(ByReplyThenTuple(n))
    ensures forall a, b :: ByReplyThenTuple(n)(a, b) && ByReplyThenTuple(n)(b, a) ==> a == b
  {
    var le, tuple := ByReplyThenTuple(n), ByTuple(n);
    ByTupleOrder(n);
    forall a, b
      ensures le(a, b) || le(b, a)
      ensures le(a, b) && le(b, a) ==> a == b
    {
      assert tuple(a, b) || tuple(b, a);
    }
    forall a, b, c | le(a, b) && le(b, c)
      ensures le(a, c)
    {
      assert tuple(a, b) && tuple(b, c) ==> tuple(a, c);
    }
  }

  /** The head of the sorted candidates is the candidate that precedes all others. */
  lemma LeastWins(n: Nodes, q: seq<Key>, least: Key)
    requires least in q && forall c | c in q :: ByReplyThenTuple(n)(least, c)
    ensures var s := Sort(q, ByReplyThenTuple(n)); s != [] && s[0] == least
  {
    var le := ByReplyThenTuple(n);
    var s := Sort(q, le);
    ByReplyOrder(n);
    SortSorted(q, le);
    SortedElement(least, q, le);
    HeadIsLeast(s, least, le);
    SortedElement(s[0], q, le);
  }

  // ---- where every root ends up ----

  predicate Matches(n: Nodes, child: Key, onlyPlain: bool, k: Key) {
    SameSubject(n, k, child) && (onlyPlain ==> !IsReply(n, k))
  }

  /** The first root from `from` on with the child's subject, without a reply subject if
      `onlyPlain`; the number of roots if there is none. */
  function FirstMatch(n: Nodes, roots: seq<Key>, from: nat, child: Key, onlyPlain: bool): (j: nat)
    requires from <= |roots|
    ensures from <= j <= |roots|
    ensures j < |roots| ==> Matches(n, child, onlyPlain, roots[j])
    decreases |roots| - from
  {
    if from == |roots| || Matches(n, child, onlyPlain, roots[from]) then from
    else FirstMatch(n, roots, from + 1, child, onlyPlain)
  }

  lemma {:induction false} FirstMatchIsFirst(n: Nodes, roots: seq<Key>, from: nat, child: Key,
                                             onlyPlain: bool, x: nat)
    requires from <= x < |roots| && Matches(n, child, onlyPlain, roots[x])
    ensures FirstMatch(n, roots, from, child, onlyPlain) <= x
    decreases x - from
  {
    if !Matches(n, child, onlyPlain, roots[from]) {
      FirstMatchIsFirst(n, roots, from + 1, child, onlyPlain, x);
    }
  }

  /** The index of the root under which the `i`th root ends up; the number of roots if it
      stays a root. It is the earliest root of the subject that is not a reply; among
      replies only, it is the next one in order. */
  function TargetIndex(n: Nodes, roots: seq<Key>, i: nat): (t: nat)
    requires i < |roots|
    ensures t <= |roots|
  {
    if !Moves(n, roots[i]) then |roots|
    else
      var plain := FirstMatch(n, roots, 0, roots[i], true);
      if plain < |roots| then plain else FirstMatch(n, roots, i + 1, roots[i], false)
  }

  function Target(n: Nodes, roots: seq<Key>, i: nat): Option<Key>
    requires i < |roots|
  {
    var t := TargetIndex(n, roots, i);
    if t < |roots| then Some(roots[t]) else None
  }

  ghost predicate IsRootList(n: Nodes, roots: seq<Key>) {
    && NoDuplicates(roots) && SortedBy(roots, ByTuple(n))
    && (forall i | 0 <= i < |roots| :: IsRealRoot(n, roots[i]))
  }

  lemma SortedRealRootsList(n: Nodes)
    ensures IsRootList(n, SortedRealRoots(n))
    ensures forall k :: k in SortedRealRoots(n) <==> IsRealRoot(n, k)
  {
    var roots := SortedRealRoots(n);
    SortedKeysFacts(n, RealRoots(n));
    forall i | 0 <= i < |roots|
      ensures IsRealRoot(n, roots[i])
    {
      assert roots[i] in roots;
    }
  }

  /** The first `i` roots are where they end up; the others have not moved. */
  ghost predicate Settled(n: Nodes, m: Nodes, roots: seq<Key>, i: nat) {
    && Grown(n, m) && m.Keys == n.Keys
    && (forall j | 0 <= j < |roots| :: roots[j] in m &&
          m[roots[j]].parent == if j < i then Target(n, roots, j) else None)
    && (forall k | k in n && !IsRealRoot(n, k) :: m[k].parent == n[k].parent)
  }

  lemma SameContentFacts(n: Nodes, m: Nodes, k: Key)
    requires Grown(n, m) && m.Keys == n.Keys
    ensures TupleOf(m, k) == TupleOf(n, k) && IsReply(m, k) == IsReply(n, k)
    ensures Moves(m, k) == Moves(n, k)
    ensures forall c :: SameSubject(m, c, k) == SameSubject(n, c, k)
  {
  }

  /** A reply root that has a later root of its subject is moved. */
  lemma EarlierReplyMoved(n: Nodes, roots: seq<Key>, t: nat, i: nat)
    requires t < i < |roots| && Moves(n, roots[t]) && SameSubject(n, roots[i], roots[t])
    ensures Target(n, roots, t).Some?
  {
    FirstMatchIsFirst(n, roots, t + 1, roots[t], false, i);
  }

  lemma CandidateIndex(n: Nodes, m: Nodes, roots: seq<Key>, i: nat, t: nat)
    requires IsRootList(n, roots) && Settled(n, m, roots, i)
    requires i < |roots| && t < |roots| && Moves(n, roots[i])
    ensures IsCandidate(m, roots[i], roots[t]) <==>
            t != i && SameSubject(n, roots[t], roots[i]) && (t > i || !IsReply(n, roots[t]))
  {
    SameContentFacts(n, m, roots[i]);
    assert IsRealRoot(n, roots[t]);
    if t < i && SameSubject(n, roots[t], roots[i]) && IsReply(n, roots[t]) {
      EarlierReplyMoved(n, roots, t, i);
    }
  }

  /** The target is a plain root where the candidate is a reply, or comes no later. */
  lemma TargetComesFirst(n: Nodes, roots: seq<Key>, i: nat, t: nat)
    requires i < |roots| && t < |roots| && Moves(n, roots[i]) && t != i
    requires SameSubject(n, roots[t], roots[i]) && (t > i || !IsReply(n, roots[t]))
    ensures var p := TargetIndex(n, roots, i);
            p < |roots|
            && ((!IsReply(n, roots[p]) && IsReply(n, roots[t]))
                || (IsReply(n, roots[p]) == IsReply(n, roots[t]) && p <= t))
  {
    if !IsReply(n, roots[t]) {
      FirstMatchIsFirst(n, roots, 0, roots[i], true, t);
    } else {
      FirstMatchIsFirst(n, roots, i + 1, roots[i], false, t);
    }
  }

  lemma TargetBeatsCandidate(n: Nodes, m: Nodes, roots: seq<Key>, i: nat, t: nat)
    requires IsRootList(n, roots) && Settled(n, m, roots, i)
    requires i < |roots| && t < |roots| && IsCandidate(m, roots[i], roots[t])
    requires Moves(n, roots[i])
    ensures TargetIndex(n, roots, i) < |roots|
    ensures ByReplyThenTuple(m)(roots[TargetIndex(n, roots, i)], roots[t])
  {
    CandidateIndex(n, m, roots, i, t);
    TargetComesFirst(n, roots, i, t);
    var p := TargetIndex(n, roots, i);
    SameContentFacts(n, m, roots[p]);
    SameContentFacts(n, m, roots[t]);
    TupleLeTotal(TupleOf(n, roots[p]), TupleOf(n, roots[p]));
    assert p < t ==> ByTuple(n)(roots[p], roots[t]);
  }

  lemma TargetIsCandidate(n: Nodes, m: Nodes, roots: seq<Key>, i: nat)
    requires IsRootList(n, roots) && Settled(n, m, roots, i)
    requires i < |roots| && Moves(n, roots[i]) && TargetIndex(n, roots, i) < |roots|
    ensures IsCandidate(m, roots[i], roots[TargetIndex(n, roots, i)])
  {
    CandidateIndex(n, m, roots, i, TargetIndex(n, roots, i));
  }

  lemma RootCanAttach(m: NodeForest, p: Key, child: Key)
    requires IsRoot(m, p) && IsRoot(m, child) && p != child
    ensures CanAttach(m, p, child)
  {
    assert Chain(m, p) == [p];
  }

  /** One turn of the loop moves its root exactly to its target. */
  lemma StepReachesTarget(n: Nodes, m: NodeForest, roots: seq<Key>, i: nat)
    requires IsRootList(n, roots) && Settled(n, m, roots, i) && i < |roots|
    ensures FallbackStep(m, roots, roots[i]) ==
            if Target(n, roots, i).Some? then WithLink(m, Target(n, roots, i).value, roots[i]) else m
  {
    var child, candidates := roots[i], Candidates(m, roots, roots[i]);
    SameContentFacts(n, m, child);
    if Moves(n, child) {
      forall c | c in candidates
        ensures Target(n, roots, i).Some? && ByReplyThenTuple(m)(Target(n, roots, i).value, c)
      {
        CandidatesExactly(m, roots, child, c);
        var t :| 0 <= t < |roots| && roots[t] == c;
        TargetBeatsCandidate(n, m, roots, i, t);
      }
      if Target(n, roots, i).Some? {
        var p := Target(n, roots, i).value;
        TargetIsCandidate(n, m, roots, i);
        CandidatesExactly(m, roots, child, p);
        LeastWins(m, candidates, p);
        RootCanAttach(m, p, child);
      } else {
        assert forall j | 0 <= j < |candidates| :: candidates[j] in candidates;
      }
    }
  }

  lemma StepKeepsSettled(n: Nodes, m: NodeForest, roots: seq<Key>, i: nat)
    requires IsRootList(n, roots) && Settled(n, m, roots, i) && i < |roots|
    ensures Settled(n, FallbackStep(m, roots, roots[i]), roots, i + 1)
  {
    StepReachesTarget(n, m, roots, i);
    FallbackStepGrows(m, roots, roots[i]);
    GrownTransitive(n, m, FallbackStep(m, roots, roots[i]));
  }

  lemma {:induction false} FallbackSettles(n: Nodes, m: NodeForest, roots: seq<Key>, i: nat)
    requires IsRootList(n, roots) && Settled(n, m, roots, i) && i <= |roots|
    ensures Settled(n, FallbackFrom(m, roots, i), roots, |roots|)
    decreases |roots| - i
  {
    if i < |roots| {
      StepKeepsSettled(n, m, roots, i);
      FallbackSettles(n, FallbackStep(m, roots, roots[i]), roots, i + 1);
    }
  }

  /** Where the fallback leaves every root, and that it moves nothing else. */
  lemma FallbackResult(n: NodeForest)
    ensures var roots, r := SortedRealRoots(n), ApplySubjectFallback(n);
            && r.Keys == n.Keys
            && (forall i | 0 <= i < |roots| :: roots[i] in n && r[roots[i]].parent == Target(n, roots, i))
            && (forall k | k in n && !IsRealRoot(n, k) :: r[k].parent == n[k].parent)
  {
    SortedRealRootsList(n);
    FallbackSettles(n, n, SortedRealRoots(n), 0);
  }

  // ---- what that means for a subject ----

  /** `p` is the earliest of the roots of `k`'s subject that satisfy `onlyPlain`. */
  ghost predicate Earliest(n: Nodes, k: Key, onlyPlain: bool, p: Key) {
    && IsRealRoot(n, p) && Matches(n, k, onlyPlain, p)
    && forall q | IsRealRoot(n, q) && Matches(n, k, onlyPlain, q) :: ByTuple(n)(p, q)
  }

  ghost predicate AllReplies(n: Nodes, k: Key) {
    forall q | IsRealRoot(n, q) && SameSubject(n, q, k) :: IsReply(n, q)
  }

  lemma RootIndex(n: Nodes, k: Key) returns (i: nat)
    requires IsRealRoot(n, k)
    ensures i < |SortedRealRoots(n)| && SortedRealRoots(n)[i] == k
  {
    SortedRealRootsList(n);
    var roots := SortedRealRoots(n);
    i :| i < |roots| && roots[i] == k;
  }

  lemma IndexOrder(n: Nodes, i: nat, j: nat)
    requires i < |SortedRealRoots(n)| && j < |SortedRealRoots(n)|
    ensures var roots := SortedRealRoots(n);
            ByTuple(n)(roots[i], roots[j]) <==> i <= j
  {
    SortedRealRootsList(n);
    ByTupleOrder(n);
    var roots, le := SortedRealRoots(n), ByTuple(n);
    if i == j {
      assert le(roots[i], roots[i]);
    } else if j < i {
      assert roots[j] != roots[i];
    }
  }

  lemma EarliestPlainIsTarget(n: Nodes, k: Key, p: Key, i: nat, j: nat)
    requires i < |SortedRealRoots(n)| && SortedRealRoots(n)[i] == k
    requires j < |SortedRealRoots(n)| && SortedRealRoots(n)[j] == p
    requires Moves(n, k) && Earliest(n, k, true, p)
    ensures Target(n, SortedRealRoots(n), i) == Some(p)
    ensures Target(n, SortedRealRoots(n), j) == None
  {
    var roots := SortedRealRoots(n);
    SortedRealRootsList(n);
    var plain := FirstMatch(n, roots, 0, k, true);
    FirstMatchIsFirst(n, roots, 0, k, true, j);
    assert IsRealRoot(n, roots[plain]);
    IndexOrder(n, j, plain);
  }

  /** If the subject has a root that is not a reply, every reply root of the subject hangs
      directly under the earliest such root, which stays a root. */
  lemma RepliesUnderPlainRoot(n: NodeForest, k: Key, p: Key)
    requires IsRealRoot(n, k) && Moves(n, k) && Earliest(n, k, true, p)
    ensures var r := ApplySubjectFallback(n);
            && k in r && r[k].parent == Some(p)
            && IsRoot(r, p)
  {
    var i := RootIndex(n, k);
    var j := RootIndex(n, p);
    EarliestPlainIsTarget(n, k, p, i, j);
    FallbackResult(n);
  }

  /** `next` is the first root of `k`'s subject that comes after `k`. */
  ghost predicate NextOfSubject(n: Nodes, k: Key, next: Key) {
    && IsRealRoot(n, next) && SameSubject(n, next, k) && next != k && ByTuple(n)(k, next)
    && forall q | IsRealRoot(n, q) && SameSubject(n, q, k) && q != k && ByTuple(n)(k, q) ::
         ByTuple(n)(next, q)
  }

  lemma NextRootIsFirstMatch(n: Nodes, k: Key, next: Key, i: nat, j: nat)
    requires i < |SortedRealRoots(n)| && SortedRealRoots(n)[i] == k
    requires j < |SortedRealRoots(n)| && SortedRealRoots(n)[j] == next
    requires NextOfSubject(n, k, next)
    ensures FirstMatch(n, SortedRealRoots(n), i + 1, k, false) == j
  {
    var roots := SortedRealRoots(n);
    SortedRealRootsList(n);
    IndexOrder(n, i, j);
    var later := FirstMatch(n, roots, i + 1, k, false);
    FirstMatchIsFirst(n, roots, i + 1, k, false, j);
    assert IsRealRoot(n, roots[later]);
    IndexOrder(n, i, later);
    IndexOrder(n, j, later);
  }

  lemma NextReplyIsTarget(n: Nodes, k: Key, next: Key, i: nat, j: nat)
    requires i < |SortedRealRoots(n)| && SortedRealRoots(n)[i] == k
    requires j < |SortedRealRoots(n)| && SortedRealRoots(n)[j] == next
    requires Moves(n, k) && AllReplies(n, k) && NextOfSubject(n, k, next)
    ensures Target(n, SortedRealRoots(n), i) == Some(next)
  {
    var roots := SortedRealRoots(n);
    SortedRealRootsList(n);
    var plain := FirstMatch(n, roots, 0, k, true);
    assert plain == |roots|;
    NextRootIsFirstMatch(n, k, next, i, j);
  }

  /** If all roots of the subject are replies, each hangs under the next one in order, so
      the latest is the one that stays a root. */
  lemma RepliesUnderNextReply(n: NodeForest, k: Key, next: Key)
    requires IsRealRoot(n, k) && Moves(n, k) && AllReplies(n, k) && NextOfSubject(n, k, next)
    ensures var r := ApplySubjectFallback(n); k in r && r[k].parent == Some(next)
  {
    var i := RootIndex(n, k);
    var j := RootIndex(n, next);
    NextReplyIsTarget(n, k, next, i, j);
    FallbackResult(n);
  }

  lemma RootsWereRoots(n: NodeForest, r: NodeForest, k: Key)
    requires Grown(n, r) && r.Keys == n.Keys && IsRealRoot(r, k)
    ensures IsRealRoot(n, k)
  {
  }

  lemma RootLeftIsAlone(n: Nodes, roots: seq<Key>, i: nat, t: nat)
    requires i < |roots| && t < |roots| && Moves(n, roots[i]) && SameSubject(n, roots[t], roots[i])
    requires Target(n, roots, i).None? && Target(n, roots, t).None?
    ensures t == i
  {
    if !IsReply(n, roots[t]) {
      FirstMatchIsFirst(n, roots, 0, roots[i], true, t);
    } else if t < i {
      EarlierReplyMoved(n, roots, t, i);
    } else if i < t {
      EarlierReplyMoved(n, roots, i, t);
    }
  }

  /** A reply root with a subject is left only if it is the sole root of its subject. */
  lemma ReplyRootLeftIsAlone(n: NodeForest, k: Key, x: Key)
    requires IsRealRoot(ApplySubjectFallback(n), k) && IsRealRoot(ApplySubjectFallback(n), x)
    requires Moves(n, k) && SameSubject(n, x, k)
    ensures x == k
  {
    FallbackGrows(n);
    RootsWereRoots(n, ApplySubjectFallback(n), k);
    RootsWereRoots(n, ApplySubjectFallback(n), x);
    FallbackResult(n);
    var i := RootIndex(n, k);
    var t := RootIndex(n, x);
    RootLeftIsAlone(n, SortedRealRoots(n), i, t);
  }

  /** Replies without a subject and roots that are no replies stay where they are. */
  lemma OthersStay(n: NodeForest, k: Key)
    requires k in n && !(IsRealRoot(n, k) && Moves(n, k))
    ensures var r := ApplySubjectFallback(n); k in r && r[k].parent == n[k].parent
  {
    FallbackResult(n);
    if IsRealRoot(n, k) {
      var i := RootIndex(n, k);
    }
  }
}
