/** `recompute_logical_mapping`: every patch of every version of a series gets a slot, so that
    the same patch keeps its slot from version to version. */
module LogicalSlots {
  import opened Sorting

  /** An assembled item; an absent patch id and an empty trimmed title say nothing. */
  datatype Item = Item(ordinal: int, itemId: int, patchId: string, title: string)

  /** The items of one version number in the order of their ordinals. */
  datatype Group = Group(versionNum: int, items: seq<Item>)

  datatype Mapping = Mapping(slot: int, versionNum: int, itemId: int)

  /** What carries over from item to item and from version to version. */
  datatype Slots = Slots(byPatch: map<string, int>, byTitle: map<string, int>, next: int)

  // ---- one item ----

  predicate Offers(m: map<string, int>, key: string, used: set<int>) {
    key != "" && key in m && m[key] !in used
  }

  /** A slot by patch id, else by title, else by ordinal, else a new one. */
  function SlotFor(s: Slots, used: set<int>, i: Item): int {
    if Offers(s.byPatch, i.patchId, used) then s.byPatch[i.patchId]
    else if Offers(s.byTitle, i.title, used) then s.byTitle[i.title]
    else if i.ordinal > 0 && i.ordinal !in used then i.ordinal
    else s.next
  }

  predicate TakesNew(s: Slots, used: set<int>, i: Item) {
    && !Offers(s.byPatch, i.patchId, used) && !Offers(s.byTitle, i.title, used)
    && !(i.ordinal > 0 && i.ordinal !in used)
  }

  function Remember(m: map<string, int>, key: string, slot: int): map<string, int> {
    if key == "" then m else m[key := slot]
  }

  function After(s: Slots, used: set<int>, i: Item): Slots {
    var slot := SlotFor(s, used, i);
    Slots(Remember(s.byPatch, i.patchId, slot), Remember(s.byTitle, i.title, slot),
          if TakesNew(s, used, i) then s.next + 1 else s.next)
  }

  // ---- one version ----

  /** The state and the slots after the first `n` items of a version. */
  datatype Progress = Progress(slots: Slots, given: seq<int>)

  function Used(given: seq<int>): set<int> {
    set i | 0 <= i < |given| :: given[i]
  }

  function Next(p: Progress, i: Item): Progress {
    Progress(After(p.slots, Used(p.given), i), p.given + [SlotFor(p.slots, Used(p.given), i)])
  }

  function Run(s: Slots, items: seq<Item>, n: nat): (p: Progress)
    requires n <= |items|
    ensures |p.given| == n
  {
    if n == 0 then Progress(s, []) else Next(Run(s, items, n - 1), items[n - 1])
  }

  lemma UsedSnoc(given: seq<int>, slot: int)
    ensures Used(given + [slot]) == Used(given) + {slot}
  {
    var more := given + [slot];
    assert more[|given|] == slot;
    assert forall i | 0 <= i < |given| :: more[i] == given[i];
  }

  // ---- all versions ----

  function RunAll(s: Slots, groups: seq<Group>, n: nat): Slots
    requires n <= |groups|
  {
    if n == 0 then s
    else Run(RunAll(s, groups, n - 1), groups[n - 1].items, |groups[n - 1].items|).slots
  }

  /** The slots that the items of the `g`th version get. */
  function SlotsOf(s: Slots, groups: seq<Group>, g: nat): (given: seq<int>)
    requires g < |groups|
    ensures |given| == |groups[g].items|
  {
    Run(RunAll(s, groups, g), groups[g].items, |groups[g].items|).given
  }

  function Fresh(next: int): Slots {
    Slots(map[], map[], next)
  }

  // ---- when slots are distinct ----

  /** Every remembered slot lies below the next new one. */
  ghost predicate Below(s: Slots) {
    && (forall k | k in s.byPatch :: s.byPatch[k] < s.next)
    && (forall k | k in s.byTitle :: s.byTitle[k] < s.next)
  }

  ghost predicate Bounded(s: Slots, m: int) {
    m < s.next && Below(s)
  }

  ghost predicate OrdinalsUpTo(items: seq<Item>, m: int) {
    forall i | 0 <= i < |items| :: items[i].ordinal <= m
  }

  lemma SlotIsNew(s: Slots, used: set<int>, i: Item, m: int)
    requires Bounded(s, m) && i.ordinal <= m && forall u | u in used :: u < s.next
    ensures SlotFor(s, used, i) !in used
    ensures Bounded(After(s, used, i), m) && SlotFor(s, used, i) < After(s, used, i).next
    ensures s.next <= After(s, used, i).next
  {
  }

  lemma {:induction false} RunDistinct(s: Slots, items: seq<Item>, n: nat, m: int)
    requires n <= |items| && Bounded(s, m) && OrdinalsUpTo(items, m)
    ensures Bounded(Run(s, items, n).slots, m) && NoDuplicates(Run(s, items, n).given)
    ensures forall u | u in Used(Run(s, items, n).given) :: u < Run(s, items, n).slots.next
  {
    if n > 0 {
      var p := Run(s, items, n - 1);
      RunDistinct(s, items, n - 1, m);
      SlotIsNew(p.slots, Used(p.given), items[n - 1], m);
      assert forall i | 0 <= i < |p.given| :: p.given[i] in Used(p.given);
    }
  }

  ghost predicate AllUpTo(groups: seq<Group>, m: int) {
    forall g | 0 <= g < |groups| :: OrdinalsUpTo(groups[g].items, m)
  }

  lemma {:induction false} RunAllBounded(s: Slots, groups: seq<Group>, n: nat, m: int)
    requires n <= |groups| && Bounded(s, m) && AllUpTo(groups, m)
    ensures Bounded(RunAll(s, groups, n), m)
  {
    if n > 0 {
      RunAllBounded(s, groups, n - 1, m);
      RunDistinct(RunAll(s, groups, n - 1), groups[n - 1].items, |groups[n - 1].items|, m);
    }
  }

  /** No two items of one version share a slot. */
  ghost predicate DistinctWithin(next: int, groups: seq<Group>) {
    forall g | 0 <= g < |groups| :: NoDuplicates(SlotsOf(Fresh(next), groups, g))
  }

  lemma AboveOrdinalsDistinct(next: int, groups: seq<Group>, m: int)
    requires next > m && AllUpTo(groups, m)
    ensures DistinctWithin(next, groups)
  {
    forall g: nat | g < |groups|
      ensures NoDuplicates(SlotsOf(Fresh(next), groups, g))
    {
      RunAllBounded(Fresh(next), groups, g, m);
      RunDistinct(RunAll(Fresh(next), groups, g), groups[g].items, |groups[g].items|, m);
    }
  }

  /** The assembled rows of one version: items are not repeated, ordinals increase from zero
      on, and only the cover, which has no patch id, stands at zero. */
  ghost predicate Written(items: seq<Item>) {
    && (forall i | 0 <= i < |items| :: items[i].ordinal >= 0 && (items[i].ordinal == 0 ==> items[i].patchId == ""))
    && (forall i, j | 0 <= i < j < |items| :: items[i].ordinal < items[j].ordinal && items[i].itemId != items[j].itemId)
  }

  ghost predicate AllWritten(groups: seq<Group>) {
    forall g | 0 <= g < |groups| :: Written(groups[g].items)
  }

  /** Two versions: the first has patch A at the ordinal `next`; the second has a cover of
      the same title, which gets the slot of A, and patch B at the ordinal `next`. */
  function Clash(next: int): seq<Group> {
    [Group(1, [Item(next, 1, "A", "a")]), Group(2, [Item(0, 2, "", "a"), Item(next, 3, "B", "b")])]
  }

  lemma ClashClashes(next: int)
    requires next >= 1
    ensures SlotsOf(Fresh(next), Clash(next), 1) == [next, next]
  {
    var first, second := Clash(next)[0].items, Clash(next)[1].items;
    var s := Fresh(next);
    assert Run(s, first, 1).slots == Slots(map["A" := next], map["a" := next], next);
    assert RunAll(s, Clash(next), 1) == Slots(map["A" := next], map["a" := next], next);
    var t := RunAll(s, Clash(next), 1);
    assert Run(t, second, 0) == Progress(t, []);
    assert Run(t, second, 1) == Progress(Slots(t.byPatch, map["a" := next], next), [next]);
  }

  /** One mapping of whatever versions a series has, with ordinals up to `m`, gives distinct
      slots within every version exactly if the first new slot lies above `m`. */
  lemma DistinctExactly(next: int, m: nat)
    requires next >= 1
    ensures (forall groups | AllWritten(groups) && AllUpTo(groups, m) :: DistinctWithin(next, groups)) <==> next > m
  {
    if next > m {
      forall groups | AllWritten(groups) && AllUpTo(groups, m)
        ensures DistinctWithin(next, groups)
      {
        AboveOrdinalsDistinct(next, groups, m);
      }
    } else {
      ClashClashes(next);
      var given := SlotsOf(Fresh(next), Clash(next), 1);
      assert given[0] == given[1];
      assert !NoDuplicates(given);
      assert AllWritten(Clash(next)) && AllUpTo(Clash(next), m) && !DistinctWithin(next, Clash(next));
    }
  }

  // ---- patches keep their slots ----

  ghost predicate DistinctPatches(items: seq<Item>) {
    && (forall i | 0 <= i < |items| :: items[i].patchId != "")
    && (forall i, j | 0 <= i < j < |items| :: items[i].patchId != items[j].patchId)
  }

  /** Every patch of the version is remembered under the slot it has in it. */
  lemma {:induction false} RunRemembers(s: Slots, items: seq<Item>, n: nat, i: nat)
    requires i < n <= |items| && DistinctPatches(items)
    ensures var p := Run(s, items, n);
            items[i].patchId in p.slots.byPatch && p.slots.byPatch[items[i].patchId] == p.given[i]
  {
    if i < n - 1 {
      RunRemembers(s, items, n - 1, i);
    }
  }

  /** `slots` remembers distinct slots for all patches of `items`. */
  ghost predicate Knows(s: Slots, items: seq<Item>, slotOf: map<string, int>) {
    && (forall i | 0 <= i < |items| :: items[i].patchId in s.byPatch && items[i].patchId in slotOf
          && s.byPatch[items[i].patchId] == slotOf[items[i].patchId])
    && (forall i, j | 0 <= i < j < |items| :: slotOf[items[i].patchId] != slotOf[items[j].patchId])
  }

  lemma KeepsOne(s: Slots, given: seq<int>, items: seq<Item>, n: nat, slotOf: map<string, int>)
    requires n < |items| && |given| == n && DistinctPatches(items) && Knows(s, items, slotOf)
    requires forall i | 0 <= i < n :: given[i] == slotOf[items[i].patchId]
    ensures SlotFor(s, Used(given), items[n]) == slotOf[items[n].patchId]
    ensures Knows(After(s, Used(given), items[n]), items, slotOf)
  {
    assert Offers(s.byPatch, items[n].patchId, Used(given));
  }

  lemma {:induction false} RunKeeps(s: Slots, items: seq<Item>, n: nat, slotOf: map<string, int>)
    requires n <= |items| && DistinctPatches(items) && Knows(s, items, slotOf)
    ensures var p := Run(s, items, n);
            Knows(p.slots, items, slotOf) && forall i | 0 <= i < n :: p.given[i] == slotOf[items[i].patchId]
  {
    if n > 0 {
      RunKeeps(s, items, n - 1, slotOf);
      var p := Run(s, items, n - 1);
      KeepsOne(p.slots, p.given, items, n - 1, slotOf);
    }
  }

  /** A version that repeats the patches of the one before, in any order and under any
      titles, gives every patch the slot it had. */
  lemma RepeatedPatchesKeepSlots(s: Slots, items: seq<Item>, again: seq<Item>, i: nat, j: nat)
    requires DistinctPatches(items) && DistinctPatches(again) && NoDuplicates(Run(s, items, |items|).given)
    requires forall x | x in again :: exists y :: y in items && y.patchId == x.patchId
    requires i < |items| && j < |again| && items[i].patchId == again[j].patchId
    ensures var p := Run(s, items, |items|);
            Run(p.slots, again, |again|).given[j] == p.given[i]
  {
    var p := Run(s, items, |items|);
    RunRemembersAll(s, items);
    RememberedAreKnown(p, items, again);
    RunKeeps(p.slots, again, |again|, p.slots.byPatch);
  }

  ghost predicate AllRemembered(p: Progress, items: seq<Item>)
    requires |p.given| == |items|
  {
    forall k | 0 <= k < |items| ::
      items[k].patchId in p.slots.byPatch && p.slots.byPatch[items[k].patchId] == p.given[k]
  }

  lemma RunRemembersAll(s: Slots, items: seq<Item>)
    requires DistinctPatches(items)
    ensures AllRemembered(Run(s, items, |items|), items)
  {
    forall k: nat | k < |items|
      ensures var p := Run(s, items, |items|);
              items[k].patchId in p.slots.byPatch && p.slots.byPatch[items[k].patchId] == p.given[k]
    {
      RunRemembers(s, items, |items|, k);
    }
  }

  lemma RememberedAreKnown(p: Progress, items: seq<Item>, again: seq<Item>)
    requires |p.given| == |items| && AllRemembered(p, items) && NoDuplicates(p.given) && DistinctPatches(again)
    requires forall x | x in again :: exists y :: y in items && y.patchId == x.patchId
    ensures Knows(p.slots, again, p.slots.byPatch)
  {
    forall a | 0 <= a < |again|
      ensures again[a].patchId in p.slots.byPatch
    {
      assert again[a] in again;
    }
    forall a, b | 0 <= a < b < |again|
      ensures p.slots.byPatch[again[a].patchId] != p.slots.byPatch[again[b].patchId]
    {
      assert again[a] in again && again[b] in again;
      var x :| 0 <= x < |items| && items[x].patchId == again[a].patchId;
      var y :| 0 <= y < |items| && items[y].patchId == again[b].patchId;
      assert p.given[x] != p.given[y];
    }
  }
}
