/** The arrival orders of versions under which the slots of a series never clash. */
module LogicalOrder {
  import opened LogicalRuns
  import opened LogicalSlots
  import opened Sorting

  /** A version of one patch. */
  function Other(id: int): seq<Item> {
    [Item(1, id, "F", "f")]
  }

  /** A series of four patches... */
  function Whole(id: int): seq<Item> {
    [Item(1, id, "D", "d"), Item(2, id + 1, "E", "e"), Item(3, id + 2, "B", "b"), Item(4, id + 3, "A", "a")]
  }

  /** ...of which a later version keeps two, in another order, and adds one. */
  function Reroll(id: int): seq<Item> {
    [Item(1, id, "A", "a"), Item(2, id + 1, "B", "b"), Item(3, id + 2, "C", "c")]
  }

  ghost predicate IsOther(g: Group) {
    exists id :: g.items == Other(id)
  }

  ghost predicate IsWhole(g: Group) {
    exists id :: g.items == Whole(id)
  }

  ghost predicate IsReroll(g: Group) {
    exists id :: g.items == Reroll(id)
  }

  ghost predicate Maps(m: map<string, int>, key: string, slot: int) {
    key in m && m[key] == slot
  }

  ghost predicate OneAtMost(m: map<string, int>, key: string) {
    key in m ==> m[key] == 1
  }

  /** Nothing is remembered but the patch of `Other`. */
  ghost predicate Before(s: Slots) {
    && s.byPatch.Keys <= {"F"} && OneAtMost(s.byPatch, "F")
    && s.byTitle.Keys <= {"f"} && OneAtMost(s.byTitle, "f")
  }

  /** The patches A and B are remembered and C is not. */
  ghost predicate Between(s: Slots) {
    && s.next == 4
    && Maps(s.byPatch, "A", 4) && Maps(s.byPatch, "B", 3) && "C" !in s.byPatch && OneAtMost(s.byPatch, "F")
    && "c" !in s.byTitle && OneAtMost(s.byTitle, "f")
  }

  lemma {:induction false} RunOther(s: Slots, g: Group)
    requires IsOther(g) && OneAtMost(s.byPatch, "F") && OneAtMost(s.byTitle, "f")
    ensures Run(s, g.items, |g.items|) == Progress(Slots(s.byPatch["F" := 1], s.byTitle["f" := 1], s.next), [1])
  {
    assert Run(s, g.items, 0) == Progress(s, []);
  }

  function Learn(s: Slots, i: Item, slot: int): Slots {
    Slots(s.byPatch[i.patchId := slot], s.byTitle[i.title := slot], s.next)
  }

  function Took(p: Progress, i: Item, slot: int): Progress {
    Progress(Learn(p.slots, i, slot), p.given + [slot])
  }

  /** An unknown patch takes its ordinal. */
  lemma {:induction false} TakesOrdinal(s: Slots, items: seq<Item>, n: nat, p: Progress, i: Item)
    requires n < |items| && i == items[n] && Run(s, items, n) == p
    requires i.patchId != "" && i.patchId !in p.slots.byPatch && i.title != "" && i.title !in p.slots.byTitle
    requires i.ordinal > 0 && i.ordinal !in p.given
    ensures Run(s, items, n + 1) == Took(p, i, i.ordinal)
  {
  }

  lemma {:induction false} RunTwo(s: Slots, items: seq<Item>, n: nat, p: Progress, i: Item, j: Item)
    requires n + 1 < |items| && i == items[n] && j == items[n + 1] && Run(s, items, n) == p
    requires i.patchId != "" && i.patchId !in p.slots.byPatch && i.title != "" && i.title !in p.slots.byTitle
    requires j.patchId != "" && j.patchId !in p.slots.byPatch && j.title != "" && j.title !in p.slots.byTitle
    requires i.patchId != j.patchId && i.title != j.title
    requires 0 < i.ordinal < j.ordinal && i.ordinal !in p.given && j.ordinal !in p.given
    ensures Run(s, items, n + 2) == Took(Took(p, i, i.ordinal), j, j.ordinal)
  {
    TakesOrdinal(s, items, n, p, i);
    TakesOrdinal(s, items, n + 1, Took(p, i, i.ordinal), j);
  }

  /** What the patches of `Whole` leave behind. */
  function WholeDone(s: Slots, items: seq<Item>): Progress
    requires |items| == 4
  {
    Took(Took(Took(Took(Progress(s, []), items[0], 1), items[1], 2), items[2], 3), items[3], 4)
  }

  lemma {:induction false} WholeIsBetween(s: Slots, g: Group)
    requires IsWhole(g) && Before(s) && s.next == 4
    ensures Between(WholeDone(s, g.items).slots)
  {
  }

  lemma {:induction false} RunWhole(s: Slots, g: Group)
    requires IsWhole(g) && Before(s) && s.next == 4
    ensures Run(s, g.items, |g.items|) == WholeDone(s, g.items)
  {
    var items, p := g.items, Progress(s, []);
    RunTwo(s, items, 0, p, items[0], items[1]);
    RunTwo(s, items, 2, Took(Took(p, items[0], 1), items[1], 2), items[2], items[3]);
  }

  /** When the later version is the first to arrive, its patches take their ordinals. */
  lemma {:induction false} RunRerollFirst(s: Slots, g: Group)
    requires IsReroll(g) && Before(s)
    ensures Run(s, g.items, |g.items|).given == [1, 2, 3]
  {
    var items, p := g.items, Progress(s, []);
    RunTwo(s, items, 0, p, items[0], items[1]);
    TakesOrdinal(s, items, 2, Took(Took(p, items[0], 1), items[1], 2), items[2]);
  }

  // ---- the later version again ----

  /** A known patch takes its slot. */
  lemma {:induction false} TakesKnown(s: Slots, items: seq<Item>, n: nat, p: Progress, i: Item, slot: int)
    requires n < |items| && i == items[n] && Run(s, items, n) == p
    requires i.patchId != "" && Maps(p.slots.byPatch, i.patchId, slot) && slot !in p.given && i.title != ""
    ensures Run(s, items, n + 1) == Took(p, i, slot)
  {
  }

  /** An unknown patch whose ordinal is used takes the next new slot. */
  lemma {:induction false} TakesNewSlot(p: Progress, i: Item)
    requires i.patchId !in p.slots.byPatch && i.title !in p.slots.byTitle && i.ordinal in p.given
    ensures Next(p, i).given == p.given + [p.slots.next]
  {
    var n: nat :| n < |p.given| && p.given[n] == i.ordinal;
    assert i.ordinal in Used(p.given);
  }

  /** A keeps slot 4, B keeps slot 3, and C gets the new slot 4. */
  lemma {:induction false} RunRerollAgain(s: Slots, g: Group)
    requires IsReroll(g) && Between(s)
    ensures Run(s, g.items, |g.items|).given == [4, 3, 4]
  {
    var items, p := g.items, Progress(s, []);
    var p1 := Took(p, items[0], 4);
    TakesKnown(s, items, 0, p, items[0], 4);
    TakesKnown(s, items, 1, p1, items[1], 3);
    TakesNewSlot(Took(p1, items[1], 3), items[2]);
  }

  // ---- histories that clash ----

  ghost predicate AllOther(groups: seq<Group>, n: nat)
    requires n <= |groups|
  {
    forall g | 0 <= g < n :: IsOther(groups[g])
  }

  lemma {:induction false} OthersBefore(next: int, groups: seq<Group>, n: nat)
    requires n <= |groups| && AllOther(groups, n)
    ensures Before(RunAll(Fresh(next), groups, n)) && RunAll(Fresh(next), groups, n).next == next
    ensures SlotsTaken(next, groups, n) <= {1}
  {
    if n > 0 {
      OthersBefore(next, groups, n - 1);
      RunOther(RunAll(Fresh(next), groups, n - 1), groups[n - 1]);
    }
  }

  lemma {:induction false} WholeLast(groups: seq<Group>, whole: Group)
    requires AllOther(groups, |groups|) && IsWhole(whole)
    ensures Between(RunAll(Fresh(4), groups + [whole], |groups| + 1))
  {
    var s := RunAll(Fresh(4), groups, |groups|);
    OthersBefore(4, groups, |groups|);
    RunAllSnoc(Fresh(4), groups, whole);
    WholeIsBetween(s, whole);
    RunWhole(s, whole);
  }

  lemma {:induction false} OtherLast(groups: seq<Group>, other: Group)
    requires Between(RunAll(Fresh(4), groups, |groups|)) && IsOther(other)
    ensures Between(RunAll(Fresh(4), groups + [other], |groups| + 1))
  {
    RunAllSnoc(Fresh(4), groups, other);
    RunOther(RunAll(Fresh(4), groups, |groups|), other);
  }

  /** The whole series arrives before the other versions or among them. */
  lemma {:induction false} PlacedBetween(groups: seq<Group>, whole: Group)
    requires AllOther(groups, |groups|) && IsWhole(whole)
    ensures Between(RunAll(Fresh(4), Place(groups, whole), |groups| + 1))
  {
    var n := |groups|;
    if n == 0 || groups[n - 1].versionNum < whole.versionNum {
      WholeLast(groups, whole);
    } else {
      PlacedBetween(groups[..n - 1], whole);
      OtherLast(Place(groups[..n - 1], whole), groups[n - 1]);
    }
  }

  /** The history in which the version before position `j` is the reroll of the one at `j`. */
  function Witness(ns: seq<int>, j: nat): (h: seq<Group>)
    ensures |h| == |ns|
  {
    seq(|ns|, i requires 0 <= i < |ns| =>
      Group(ns[i], if i == j then Whole(8 * i) else if i + 1 == j then Reroll(8 * i) else Other(8 * i)))
  }

  ghost predicate IsWitness(h: seq<Group>, j: nat) {
    && 1 <= j < |h| && InOrder(h, j) && h[j].versionNum < h[j - 1].versionNum
    && AllOther(h, j - 1) && IsReroll(h[j - 1]) && IsWhole(h[j])
  }

  lemma {:induction false} StoredOthers(h: seq<Group>, j: nat, n: nat)
    requires IsWitness(h, j) && n < j
    ensures Stored(h, n) <= {1}
  {
    if n > 0 {
      StoredOthers(h, j, n - 1);
      ArrivedInOrder(h, n);
      OthersBefore(NextAfter(h, n - 1), h[..n], n);
    }
  }

  lemma {:induction false} TakenByReroll(next: int, groups: seq<Group>, n: nat)
    requires |groups| == n + 1 && AllOther(groups, n) && IsReroll(groups[n])
    ensures {1, 2, 3} <= SlotsTaken(next, groups, n + 1) <= {1, 2, 3}
  {
    OthersBefore(next, groups, n);
    RunRerollFirst(RunAll(Fresh(next), groups, n), groups[n]);
    var given := SlotsOf(Fresh(next), groups, n);
    assert given[0] == 1 && given[1] == 2 && given[2] == 3;
  }

  lemma {:induction false} NextIsFour(stored: set<int>, taken: set<int>)
    requires stored <= {1} && {1, 2, 3} <= taken <= {1, 2, 3}
    ensures NextOver(stored + taken) == 4
  {
    var next := NextOver(stored + taken);
    assert stored + taken == {1, 2, 3} && IsNext({1, 2, 3}, next);
    assert next - 1 in {1, 2, 3} && 3 < next;
  }

  lemma {:induction false} StoredReroll(h: seq<Group>, j: nat)
    requires IsWitness(h, j)
    ensures NextAfter(h, j) == 4
  {
    StoredOthers(h, j, j - 1);
    ArrivedInOrder(h, j);
    var taken := SlotsTaken(NextAfter(h, j - 1), h[..j], j);
    TakenByReroll(NextAfter(h, j - 1), h[..j], j - 1);
    NextIsFour(Stored(h, j - 1), taken);
  }

  lemma {:induction false} RerollLast(groups: seq<Group>, reroll: Group)
    requires Between(RunAll(Fresh(4), groups, |groups|)) && IsReroll(reroll)
    ensures SlotsOf(Fresh(4), groups + [reroll], |groups|) == [4, 3, 4]
  {
    RunAllSnoc(Fresh(4), groups, reroll);
    RunRerollAgain(RunAll(Fresh(4), groups, |groups|), reroll);
  }

  lemma {:induction false} ArrivedWitness(h: seq<Group>, j: nat)
    requires IsWitness(h, j)
    ensures Arrived(h, j + 1) == Place(h[..j - 1], h[j]) + [h[j - 1]]
  {
    ArrivedInOrder(h, j);
    assert h[..j][..j - 1] == h[..j - 1];
  }

  lemma {:induction false} WitnessSlots(h: seq<Group>, j: nat)
    requires IsWitness(h, j)
    ensures SlotsOf(Fresh(NextAfter(h, j)), Arrived(h, j + 1), j) == [4, 3, 4]
  {
    StoredReroll(h, j);
    ArrivedWitness(h, j);
    PlacedBetween(h[..j - 1], h[j]);
    RerollLast(Place(h[..j - 1], h[j]), h[j - 1]);
  }

  lemma {:induction false} WitnessClashes(h: seq<Group>, j: nat)
    requires IsWitness(h, j)
    ensures !NeverClashes(h)
  {
    var given := SlotsOf(Fresh(NextAfter(h, j)), Arrived(h, j + 1), j);
    WitnessSlots(h, j);
    assert given[0] == given[2];
    assert !DistinctWithin(NextAfter(h, j), Arrived(h, j + 1));
  }

  // ---- exactly the increasing orders ----

  ghost predicate Increasing(ns: seq<int>) {
    forall i, j | 0 <= i < j < |ns| :: ns[i] < ns[j]
  }

  ghost predicate HasNumbers(h: seq<Group>, ns: seq<int>) {
    |h| == |ns| && forall i | 0 <= i < |h| :: h[i].versionNum == ns[i]
  }

  lemma {:induction false} PrefixIncreases(ns: seq<int>, n: nat, i: nat, j: nat)
    requires i <= j < n <= |ns| && Increasing(ns[..n])
    ensures ns[i] <= ns[j] && (i < j ==> ns[i] < ns[j])
  {
    assert i < j ==> ns[..n][i] < ns[..n][j];
  }

  lemma {:induction false} LastDescends(ns: seq<int>, n: nat)
    requires NoDuplicates(ns) && !Increasing(ns) && |ns| == n + 1 && Increasing(ns[..n])
    ensures n >= 1 && ns[n] < ns[n - 1]
  {
    var i: nat, j: nat :| i < j < |ns| && ns[i] >= ns[j];
    if j < n {
      PrefixIncreases(ns, n, i, j);
    } else {
      PrefixIncreases(ns, n, i, n - 1);
    }
  }

  lemma {:induction false} FirstDescent(ns: seq<int>) returns (j: nat)
    requires NoDuplicates(ns) && !Increasing(ns)
    ensures 1 <= j < |ns| && Increasing(ns[..j]) && ns[j] < ns[j - 1]
  {
    var n := |ns| - 1;
    if Increasing(ns[..n]) {
      j := n;
      LastDescends(ns, n);
    } else {
      j := FirstDescent(ns[..n]);
      assert ns[..n][..j] == ns[..j];
    }
  }

  lemma {:induction false} WitnessWritten(ns: seq<int>, j: nat)
    ensures AllWritten(Witness(ns, j))
  {
  }

  lemma {:induction false} WitnessIsOne(ns: seq<int>, j: nat)
    requires 1 <= j < |ns| && Increasing(ns[..j]) && ns[j] < ns[j - 1]
    ensures IsWitness(Witness(ns, j), j)
  {
    var h := Witness(ns, j);
    forall g: nat | g < j - 1
      ensures IsOther(h[g])
    {
      assert h[g].items == Other(8 * g);
    }
    assert h[j - 1].items == Reroll(8 * (j - 1)) && h[j].items == Whole(8 * j);
    forall a, b | 0 <= a < b < j
      ensures h[a].versionNum < h[b].versionNum
    {
      assert ns[..j][a] < ns[..j][b];
    }
  }

  /** An older version that arrives after a newer one can make their slots clash. */
  lemma {:induction false} OutOfOrderClashes(ns: seq<int>) returns (h: seq<Group>)
    requires NoDuplicates(ns) && !Increasing(ns)
    ensures HasNumbers(h, ns) && AllWritten(h) && !NeverClashes(h)
  {
    var j := FirstDescent(ns);
    h := Witness(ns, j);
    WitnessWritten(ns, j);
    WitnessIsOne(ns, j);
    WitnessClashes(h, j);
  }

  /** For all versions a series may have, slots stay distinct within every version exactly if
      the versions arrive in the order of their numbers. */
  lemma {:induction false} ArrivalOrderExactly(ns: seq<int>)
    requires NoDuplicates(ns)
    ensures (forall h | HasNumbers(h, ns) && AllWritten(h) :: NeverClashes(h)) <==> Increasing(ns)
  {
    if Increasing(ns) {
      forall h | HasNumbers(h, ns) && AllWritten(h)
        ensures NeverClashes(h)
      {
        InOrderNeverClashes(h);
      }
    } else {
      var h := OutOfOrderClashes(ns);
    }
  }
}
