/** The logical mapping of one series, rewritten from the assembled items of its versions, and
    when it holds them all. */
module LogicalStore {
  import opened LogicalOrder
  import opened LogicalRuns
  import opened LogicalSlots
  import opened LogicalTables
  import opened Sorting
  import opened Wrappers

  ghost predicate DistinctMappings(ms: seq<Mapping>) {
    forall i, j | 0 <= i < j < |ms| :: ms[i].slot != ms[j].slot || ms[i].versionNum != ms[j].versionNum
  }

  /** Mappings of distinct slots and versions are all kept. */
  lemma {:induction false} AllKept(t: MapTable, ls: Logicals, ms: seq<Mapping>, n: nat, i: nat)
    requires i < n <= |ms| && HasSlots(ls, ms) && DistinctIds(ls) && DistinctMappings(ms)
    ensures KeyFor(ls, ms[i]) in PutMappings(t, ls, ms, n)
    ensures PutMappings(t, ls, ms, n)[KeyFor(ls, ms[i])] == ms[i].itemId
  {
    if i < n - 1 {
      AllKept(t, ls, ms, n - 1, i);
      assert KeyFor(ls, ms[i]) != KeyFor(ls, ms[n - 1]);
    }
  }

  ghost predicate VersionsDistinct(groups: seq<Group>) {
    forall g, h | 0 <= g < h < |groups| :: groups[g].versionNum != groups[h].versionNum
  }

  lemma {:induction false} DistinctSlotsMap(next: int, groups: seq<Group>, n: nat)
    requires n <= |groups| && DistinctWithin(next, groups) && VersionsDistinct(groups)
    ensures DistinctMappings(MappingsOf(next, groups, n))
  {
    hide SlotsOf;
    if n > 0 {
      DistinctSlotsMap(next, groups, n - 1);
      var before, given := MappingsOf(next, groups, n - 1), SlotsOf(Fresh(next), groups, n - 1);
      var ms := MappingsOf(next, groups, n);
      forall i, j | 0 <= i < j < |ms|
        ensures ms[i].slot != ms[j].slot || ms[i].versionNum != ms[j].versionNum
      {
        if i < |before| <= j {
          var g, k := MappingFrom(next, groups, n - 1, i);
          assert before[i].versionNum == groups[g].versionNum;
        } else if |before| <= i {
          assert given[i - |before|] != given[j - |before|];
        }
      }
    }
  }

  // ---- when every item is mapped ----

  /** Every mapping has its row. */
  ghost predicate AllMapped(t: MapTable, ls: Logicals, ms: seq<Mapping>) {
    forall i | 0 <= i < |ms| :: ms[i].slot in ls && KeyFor(ls, ms[i]) in t && t[KeyFor(ls, ms[i])] == ms[i].itemId
  }

  lemma DistinctAllMapped(t: MapTable, next: int, groups: seq<Group>, ls: Logicals)
    requires DistinctWithin(next, groups) && VersionsDistinct(groups) && DistinctIds(ls)
    requires HasSlots(ls, MappingsOf(next, groups, |groups|))
    ensures var ms := MappingsOf(next, groups, |groups|);
            AllMapped(PutMappings(t, ls, ms, |ms|), ls, ms)
  {
    var ms := MappingsOf(next, groups, |groups|);
    DistinctSlotsMap(next, groups, |groups|);
    forall i: nat | i < |ms|
      ensures KeyFor(ls, ms[i]) in PutMappings(t, ls, ms, |ms|)
      ensures PutMappings(t, ls, ms, |ms|)[KeyFor(ls, ms[i])] == ms[i].itemId
    {
      AllKept(t, ls, ms, |ms|, i);
    }
  }

  /** Every item of every version is mapped exactly if the slots are distinct within every
      version; otherwise an item takes the row of another one. */
  lemma EveryItemMapped(t: MapTable, next: int, groups: seq<Group>, ls: Logicals)
    requires VersionsDistinct(groups) && AllWritten(groups) && DistinctIds(ls)
    requires HasSlots(ls, MappingsOf(next, groups, |groups|))
    ensures var ms := MappingsOf(next, groups, |groups|);
            AllMapped(PutMappings(t, ls, ms, |ms|), ls, ms) <==> DistinctWithin(next, groups)
  {
    var ms := MappingsOf(next, groups, |groups|);
    if DistinctWithin(next, groups) {
      DistinctAllMapped(t, next, groups, ls);
    } else {
      var g: nat :| g < |groups| && !NoDuplicates(SlotsOf(Fresh(next), groups, g));
      var given := SlotsOf(Fresh(next), groups, g);
      var i: nat, j: nat :| i < j < |given| && given[i] == given[j];
      var a := MappingAt(next, groups, |groups|, g, i);
      var b := MappingAt(next, groups, |groups|, g, j);
      assert Written(groups[g].items);
      assert ms[a].itemId != ms[b].itemId && KeyFor(ls, ms[a]) == KeyFor(ls, ms[b]);
    }
  }

  // ---- the slots of a history ----

  lemma SlotsInConcat(a: seq<Mapping>, b: seq<Mapping>)
    ensures SlotsIn(a + b) == SlotsIn(a) + SlotsIn(b)
  {
    var ms := a + b;
    assert forall i | 0 <= i < |a| :: ms[i] == a[i];
    assert forall i | 0 <= i < |b| :: ms[|a| + i] == b[i];
  }

  lemma SlotsInRows(g: Group, given: seq<int>)
    requires |given| == |g.items|
    ensures SlotsIn(RowsOf(g, given)) == Used(given)
  {
    var rows := RowsOf(g, given);
    assert forall i | 0 <= i < |given| :: rows[i].slot == given[i];
  }

  lemma {:induction false} SlotsInMappings(next: int, groups: seq<Group>, n: nat)
    requires n <= |groups|
    ensures SlotsIn(MappingsOf(next, groups, n)) == SlotsTaken(next, groups, n)
  {
    hide SlotsOf;
    if n > 0 {
      var g, given := groups[n - 1], SlotsOf(Fresh(next), groups, n - 1);
      var before, rows := MappingsOf(next, groups, n - 1), RowsOf(g, given);
      SlotsInMappings(next, groups, n - 1);
      SlotsInConcat(before, rows);
      SlotsInRows(g, given);
      assert MappingsOf(next, groups, n) == before + rows;
    }
  }

  ghost predicate AwayFrom(groups: seq<Group>, versionNum: int) {
    forall g | g in groups :: g.versionNum != versionNum
  }

  lemma {:induction false} PlaceDistinct(groups: seq<Group>, g: Group)
    requires VersionsDistinct(groups) && AwayFrom(groups, g.versionNum)
    ensures VersionsDistinct(Place(groups, g)) && forall x | x in Place(groups, g) :: x == g || x in groups
  {
    var n := |groups|;
    if !(n == 0 || groups[n - 1].versionNum < g.versionNum) {
      var rest := groups[..n - 1];
      PlaceDistinct(rest, g);
      var placed := Place(rest, g);
      forall i | 0 <= i < |placed|
        ensures placed[i].versionNum != groups[n - 1].versionNum
      {
        assert placed[i] in placed;
        if placed[i] != g {
          var k :| 0 <= k < |rest| && rest[k] == placed[i];
        } else {
          assert groups[n - 1] in groups;
        }
      }
    }
  }

  lemma {:induction false} ArrivedDistinct(h: seq<Group>, n: nat)
    requires n <= |h| && VersionsDistinct(h)
    ensures VersionsDistinct(Arrived(h, n)) && forall x | x in Arrived(h, n) :: x in h[..n]
  {
    if n > 0 {
      ArrivedDistinct(h, n - 1);
      forall x | x in Arrived(h, n - 1)
        ensures x.versionNum != h[n - 1].versionNum
      {
        var k :| 0 <= k < n - 1 && h[..n - 1][k] == x;
      }
      hide Place;
      PlaceDistinct(Arrived(h, n - 1), h[n - 1]);
      assert h[..n] == h[..n - 1] + [h[n - 1]];
    }
  }

  // ---- the tables ----

  method NextSlot(ls: Logicals) returns (next: int)
    ensures IsNext(ls.Keys, next)
  {
    if ls == map[] {
      return 1;
    }
    assert ls.Keys != {};
    ghost var any := AnyOf(ls.Keys);
    var max :| max in ls.Keys;
    var rest := ls.Keys;
    while rest != {}
      invariant rest <= ls.Keys && max in ls
      invariant forall slot | slot in ls && slot !in rest :: slot <= max
      decreases rest
    {
      ghost var other := AnyOf(rest);
      var slot :| slot in rest;
      if slot > max {
        max := slot;
      }
      rest := rest - {slot};
    }
    return max + 1;
  }

  method ChooseSlot(slots: Slots, used: set<int>, item: Item) returns (slot: int, next: int)
    ensures slot == SlotFor(slots, used, item)
    ensures next == After(slots, used, item).next
  {
    var chosen := None;
    if item.patchId != "" && item.patchId in slots.byPatch && slots.byPatch[item.patchId] !in used {
      chosen := Some(slots.byPatch[item.patchId]);
    }
    if chosen.None? && item.title != "" && item.title in slots.byTitle && slots.byTitle[item.title] !in used {
      chosen := Some(slots.byTitle[item.title]);
    }
    if chosen.None? && item.ordinal > 0 && item.ordinal !in used {
      chosen := Some(item.ordinal);
    }
    if chosen.Some? {
      return chosen.value, slots.next;
    }
    return slots.next, slots.next + 1;
  }

  /** The slots of one version, item by item. */
  method MapVersion(s: Slots, items: seq<Item>, titles: map<int, string>)
      returns (slots: Slots, given: seq<int>, titled: map<int, string>)
    ensures Progress(slots, given) == Run(s, items, |items|)
    ensures titled == TitlesRun(s, items, titles, |items|)
  {
    slots, given, titled := s, [], titles;
    var used: set<int> := {};
    for n := 0 to |items|
      invariant Progress(slots, given) == Run(s, items, n) && used == Used(given)
      invariant titled == TitlesRun(s, items, titles, n)
    {
      var item := items[n];
      var slot, next := ChooseSlot(slots, used, item);
      UsedSnoc(given, slot);
      slots := Slots(Remember(slots.byPatch, item.patchId, slot), Remember(slots.byTitle, item.title, slot), next);
      used := used + {slot};
      given := given + [slot];
      assert Progress(slots, given) == Run(s, items, n + 1);
      titled := AddTitle(titled, slot, item.title);
    }
  }

  method MapAll(groups: seq<Group>, next: int) returns (mappings: seq<Mapping>, titles: map<int, string>)
    ensures mappings == MappingsOf(next, groups, |groups|)
    ensures titles == TitlesOf(next, groups, |groups|)
  {
    var slots := Fresh(next);
    mappings, titles := [], map[];
    for n := 0 to |groups|
      invariant slots == RunAll(Fresh(next), groups, n)
      invariant mappings == MappingsOf(next, groups, n)
      invariant titles == TitlesOf(next, groups, n)
    {
      var given;
      slots, given, titles := MapVersion(slots, groups[n].items, titles);
      mappings := mappings + RowsOf(groups[n], given);
    }
  }

  lemma UpsertedOneMore(before: Logicals, middle: Logicals, after: Logicals, done: set<int>, slot: int,
                        titles: map<int, string>)
    requires Upserted(before, middle, done, titles) && slot !in done
    requires after.Keys == middle.Keys + {slot} && TitledAs(middle, after, slot, TitleFor(titles, slot))
    requires forall s | s in middle && s != slot :: after[s] == middle[s]
    ensures Upserted(before, after, done + {slot}, titles)
  {
  }

  class Store {
    var logicals: Logicals
    var nextId: int
    var mapped: MapTable

    ghost predicate Valid()
      reads this
    {
      DistinctIds(logicals) && forall slot | slot in logicals :: logicals[slot].id < nextId
    }

    /** A slot keeps its title unless that is empty. */
    method UpsertPatchLogical(slot: int, title: string)
      requires Valid()
      modifies this`logicals, this`nextId
      ensures Valid() && logicals.Keys == old(logicals).Keys + {slot}
      ensures forall s | s in old(logicals) && s != slot :: logicals[s] == old(logicals)[s]
      ensures TitledAs(old(logicals), logicals, slot, title)
    {
      if slot in logicals {
        if logicals[slot].title == "" {
          logicals := logicals[slot := logicals[slot].(title := title)];
        }
      } else {
        logicals := logicals[slot := Logical(nextId, title)];
        nextId := nextId + 1;
      }
    }

    method UpsertSlots(mappings: seq<Mapping>, titles: map<int, string>)
      requires Valid()
      modifies this`logicals, this`nextId
      ensures Valid() && HasSlots(logicals, mappings)
      ensures Upserted(old(logicals), logicals, SlotsIn(mappings), titles)
    {
      var rest := SlotsIn(mappings);
      ghost var before, done := logicals, {};
      while rest != {}
        invariant Valid() && rest !! done && rest + done == SlotsIn(mappings)
        invariant Upserted(before, logicals, done, titles)
        decreases rest
      {
        ghost var any := AnyOf(rest);
        var slot :| slot in rest;
        ghost var middle := logicals;
        UpsertPatchLogical(slot, TitleFor(titles, slot));
        UpsertedOneMore(before, middle, logicals, done, slot, titles);
        rest, done := rest - {slot}, done + {slot};
      }
      assert done == SlotsIn(mappings);
      forall i | 0 <= i < |mappings|
        ensures mappings[i].slot in logicals
      {
        assert mappings[i].slot in SlotsIn(mappings);
      }
    }

    /** Deletes the rows of the series' slots and inserts the mappings. */
    method ReplacePatchLogicalVersions(mappings: seq<Mapping>)
      requires HasSlots(logicals, mappings)
      modifies this`mapped
      ensures mapped == PutMappings(OtherSeries(old(mapped), logicals), logicals, mappings, |mappings|)
    {
      mapped := OtherSeries(mapped, logicals);
      ghost var others := mapped;
      for i := 0 to |mappings|
        invariant mapped == PutMappings(others, logicals, mappings, i)
      {
        var m := mappings[i];
        if m.slot in logicals {
          mapped := mapped[MapKey(logicals[m.slot].id, m.versionNum) := m.itemId];
        }
      }
    }

    method RecomputeLogicalMapping(groups: seq<Group>) returns (ghost next: int)
      requires Valid() && VersionsDistinct(groups)
      modifies this
      ensures Valid() && IsNext(old(logicals).Keys, next)
      ensures forall slot | slot in old(logicals) :: slot < next
      ensures if old(logicals) == map[] then next == 1 else next - 1 in old(logicals)
      ensures NoItems(groups) ==> mapped == old(mapped) && logicals == old(logicals)
      ensures !NoItems(groups) ==> MappingMeans(next, groups, old(logicals), logicals, old(mapped), mapped)
      ensures !NoItems(groups) ==>
                var ms := MappingsOf(next, groups, |groups|);
                HasSlots(logicals, ms)
                && mapped == PutMappings(OtherSeries(old(mapped), logicals), logicals, ms, |ms|)
                && Upserted(old(logicals), logicals, SlotsIn(ms), TitlesOf(next, groups, |groups|))
    {
      var first := NextSlot(logicals);
      next := first;
      if NoItems(groups) {
        return;
      }
      var mappings, titles := MapAll(groups, first);
      UpsertSlots(mappings, titles);
      ReplacePatchLogicalVersions(mappings);
      MappingIsRight(next, groups, old(logicals), logicals, old(mapped));
    }

    /** The mapping after version `n` of a history was written. */
    method RecomputeAfter(ghost h: seq<Group>, ghost n: nat, groups: seq<Group>)
      requires Valid() && n < |h| && VersionsDistinct(h)
      requires groups == Arrived(h, n + 1) && logicals.Keys == Stored(h, n)
      modifies this
      ensures Valid() && logicals.Keys == Stored(h, n + 1)
      ensures MappedAsDistinct(mapped, logicals, NextAfter(h, n), groups)
    {
      ArrivedDistinct(h, n + 1);
      ghost var stored, t := logicals.Keys, mapped;
      ghost var next := RecomputeLogicalMapping(groups);
      NextIsUnique(stored, next, NextAfter(h, n));
      SlotsInMappings(next, groups, n + 1);
      if NoItems(groups) {
        NothingMapped(mapped, logicals, next, groups, n + 1);
      } else {
        IfDistinctMapped(OtherSeries(t, logicals), next, groups, logicals);
      }
    }

    /** Writes the versions of a new series one by one and maps the whole series after each. */
    method WriteVersions(h: seq<Group>) returns (groups: seq<Group>)
      requires Valid() && logicals == map[] && VersionsDistinct(h)
      modifies this
      ensures Valid() && groups == Arrived(h, |h|) && logicals.Keys == Stored(h, |h|)
      ensures h != [] ==> MappedAsDistinct(mapped, logicals, NextAfter(h, |h| - 1), groups)
      ensures h != [] && AllWritten(h) && InOrder(h, |h|) ==>
                AllMapped(mapped, logicals, MappingsOf(NextAfter(h, |h| - 1), groups, |groups|))
    {
      groups := [];
      for n := 0 to |h|
        invariant Valid() && groups == Arrived(h, n) && logicals.Keys == Stored(h, n)
        invariant n > 0 ==> MappedAsDistinct(mapped, logicals, NextAfter(h, n - 1), groups)
      {
        groups := Place(groups, h[n]);
        RecomputeAfter(h, n, groups);
      }
      InOrderMapped(mapped, logicals, h, groups);
    }
  }

  lemma ArrivedWritten(h: seq<Group>, n: nat)
    requires n <= |h| && VersionsDistinct(h) && AllWritten(h)
    ensures AllWritten(Arrived(h, n))
  {
    ArrivedDistinct(h, n);
    var groups := Arrived(h, n);
    forall g | 0 <= g < n
      ensures Written(groups[g].items)
    {
      assert groups[g] in h[..n];
    }
  }

  /** The mappings of all items are stored exactly if slots are distinct within every version. */
  ghost predicate MappedAsDistinct(t: MapTable, ls: Logicals, next: int, groups: seq<Group>) {
    AllWritten(groups) ==> (AllMapped(t, ls, MappingsOf(next, groups, |groups|)) <==> DistinctWithin(next, groups))
  }

  lemma InOrderMapped(t: MapTable, ls: Logicals, h: seq<Group>, groups: seq<Group>)
    requires groups == Arrived(h, |h|) && VersionsDistinct(h)
    requires h != [] ==> MappedAsDistinct(t, ls, NextAfter(h, |h| - 1), groups)
    ensures h != [] && AllWritten(h) && InOrder(h, |h|) ==>
              AllMapped(t, ls, MappingsOf(NextAfter(h, |h| - 1), groups, |groups|))
  {
    hide AllMapped, MappingsOf, DistinctWithin, InOrder, Arrived;
    if h != [] && AllWritten(h) && InOrder(h, |h|) {
      var n := |h| - 1;
      ArrivedWritten(h, n + 1);
      InOrderNeverClashes(h);
      assert DistinctWithin(NextAfter(h, n), Arrived(h, n + 1));
    }
  }

  // ---- the arrival orders that lose no mapping ----

  /** After version `n` every mapping is stored, whatever rows the table held. */
  ghost predicate MappedAfter(h: seq<Group>, n: nat, t: MapTable, ls: Logicals)
    requires n < |h|
  {
    var ms := MappingsOf(NextAfter(h, n), Arrived(h, n + 1), n + 1);
    DistinctIds(ls) && HasSlots(ls, ms) ==> AllMapped(PutMappings(t, ls, ms, |ms|), ls, ms)
  }

  ghost predicate AlwaysMapped(h: seq<Group>) {
    forall n: nat, t, ls | n < |h| :: MappedAfter(h, n, t, ls)
  }

  lemma LogicalsFor(ms: seq<Mapping>) returns (ls: Logicals)
    ensures DistinctIds(ls) && HasSlots(ls, ms)
  {
    ls := map slot | slot in SlotsIn(ms) :: Logical(slot, "");
    forall i | 0 <= i < |ms|
      ensures ms[i].slot in ls
    {
      assert ms[i].slot in SlotsIn(ms);
    }
  }

  lemma MappedIfDistinct(h: seq<Group>, n: nat, t: MapTable, ls: Logicals)
    requires n < |h| && VersionsDistinct(h) && AllWritten(h)
    requires DistinctWithin(NextAfter(h, n), Arrived(h, n + 1))
    ensures MappedAfter(h, n, t, ls)
  {
    var ms := MappingsOf(NextAfter(h, n), Arrived(h, n + 1), n + 1);
    ArrivedDistinct(h, n + 1);
    if DistinctIds(ls) && HasSlots(ls, ms) {
      DistinctAllMapped(t, NextAfter(h, n), Arrived(h, n + 1), ls);
    }
  }

  lemma InOrderAlwaysMapped(h: seq<Group>)
    requires AllWritten(h) && InOrder(h, |h|)
    ensures AlwaysMapped(h)
  {
    InOrderNeverClashes(h);
    forall n: nat, t, ls | n < |h|
      ensures MappedAfter(h, n, t, ls)
    {
      MappedIfDistinct(h, n, t, ls);
    }
  }

  /** A mapping that gives one slot twice loses a row. */
  lemma ClashIsUnmapped(h: seq<Group>, n: nat)
    requires n < |h| && VersionsDistinct(h) && AllWritten(h)
    requires !DistinctWithin(NextAfter(h, n), Arrived(h, n + 1))
    ensures !AlwaysMapped(h)
  {
    var groups, ms := Arrived(h, n + 1), MappingsOf(NextAfter(h, n), Arrived(h, n + 1), n + 1);
    var ls := LogicalsFor(ms);
    ArrivedDistinct(h, n + 1);
    ArrivedWritten(h, n + 1);
    EveryItemMapped(map[], NextAfter(h, n), groups, ls);
    assert !MappedAfter(h, n, map[], ls);
  }

  /** All histories whose versions arrive in the order `ns` always have every item of every
      version mapped exactly if the order is increasing; otherwise items lose their rows. */
  lemma {:induction false} ArrivalOrderMaps(ns: seq<int>)
    requires NoDuplicates(ns)
    ensures (forall h | HasNumbers(h, ns) && AllWritten(h) :: AlwaysMapped(h)) <==> Increasing(ns)
  {
    if Increasing(ns) {
      forall h | HasNumbers(h, ns) && AllWritten(h)
        ensures AlwaysMapped(h)
      {
        InOrderAlwaysMapped(h);
      }
    } else {
      var h := OutOfOrderClashes(ns);
      var n: nat :| n < |h| && !DistinctWithin(NextAfter(h, n), Arrived(h, n + 1));
      ClashIsUnmapped(h, n);
    }
  }

  lemma NextIsUnique(stored: set<int>, a: int, b: int)
    requires IsNext(stored, a) && IsNext(stored, b)
    ensures a == b
  {
  }

  lemma {:induction false} NothingMapped(t: MapTable, ls: Logicals, next: int, groups: seq<Group>, n: nat)
    requires n <= |groups| && NoItems(groups)
    ensures MappingsOf(next, groups, n) == []
    ensures n == |groups| ==> MappedAsDistinct(t, ls, next, groups)
  {
    if n > 0 {
      NothingMapped(t, ls, next, groups, n - 1);
    }
  }

  lemma IfDistinctMapped(t: MapTable, next: int, groups: seq<Group>, ls: Logicals)
    requires VersionsDistinct(groups) && DistinctIds(ls) && HasSlots(ls, MappingsOf(next, groups, |groups|))
    ensures var ms := MappingsOf(next, groups, |groups|);
            MappedAsDistinct(PutMappings(t, ls, ms, |ms|), ls, next, groups)
  {
    if AllWritten(groups) {
      EveryItemMapped(t, next, groups, ls);
    }
  }
}
