/** The tables behind the logical mapping of one series: the rows and titles that one mapping
    writes. */
module LogicalTables {
  import opened LogicalFacts
  import opened LogicalRuns
  import opened LogicalSlots
  import opened Text

  datatype Logical = Logical(id: int, title: string)

  type Logicals = map<int, Logical>

  /** The primary key of `patch_logical_versions`. */
  datatype MapKey = MapKey(logicalId: int, versionNum: int)

  type MapTable = map<MapKey, int>

  ghost predicate DistinctIds(ls: Logicals) {
    forall a, b | a in ls && b in ls && a != b :: ls[a].id != ls[b].id
  }

  // ---- the mappings of all versions ----

  function RowsOf(g: Group, given: seq<int>): (r: seq<Mapping>)
    requires |given| == |g.items|
    ensures |r| == |g.items|
  {
    seq(|given|, i requires 0 <= i < |given| => Mapping(given[i], g.versionNum, g.items[i].itemId))
  }

  function MappingsOf(next: int, groups: seq<Group>, n: nat): seq<Mapping>
    requires n <= |groups|
  {
    if n == 0 then []
    else MappingsOf(next, groups, n - 1) + RowsOf(groups[n - 1], SlotsOf(Fresh(next), groups, n - 1))
  }

  function KeyFor(ls: Logicals, m: Mapping): MapKey
    requires m.slot in ls
  {
    MapKey(ls[m.slot].id, m.versionNum)
  }

  ghost predicate HasSlots(ls: Logicals, ms: seq<Mapping>) {
    forall i | 0 <= i < |ms| :: ms[i].slot in ls
  }

  /** The rows after inserting the first `n` mappings; a later one replaces one of its key. */
  function PutMappings(t: MapTable, ls: Logicals, ms: seq<Mapping>, n: nat): MapTable
    requires n <= |ms| && HasSlots(ls, ms)
  {
    if n == 0 then t else PutMappings(t, ls, ms, n - 1)[KeyFor(ls, ms[n - 1]) := ms[n - 1].itemId]
  }

  // ---- where a mapping comes from ----

  /** The version whose mapping stands at a position. */
  lemma {:induction false} MappingFrom(next: int, groups: seq<Group>, n: nat, i: nat) returns (g: nat, k: nat)
    requires n <= |groups| && i < |MappingsOf(next, groups, n)|
    ensures g < n && k < |groups[g].items|
    ensures MappingsOf(next, groups, n)[i]
            == Mapping(SlotsOf(Fresh(next), groups, g)[k], groups[g].versionNum, groups[g].items[k].itemId)
  {
    hide SlotsOf;
    var before := MappingsOf(next, groups, n - 1);
    if i < |before| {
      g, k := MappingFrom(next, groups, n - 1, i);
    } else {
      g, k := n - 1, i - |before|;
    }
  }

  /** Where the mapping of an item stands. */
  lemma {:induction false} MappingAt(next: int, groups: seq<Group>, n: nat, g: nat, k: nat) returns (i: nat)
    requires g < n <= |groups| && k < |groups[g].items|
    ensures i == |MappingsOf(next, groups, g)| + k < |MappingsOf(next, groups, n)|
    ensures MappingsOf(next, groups, n)[i]
            == Mapping(SlotsOf(Fresh(next), groups, g)[k], groups[g].versionNum, groups[g].items[k].itemId)
  {
    hide SlotsOf;
    if g < n - 1 {
      i := MappingAt(next, groups, n - 1, g, k);
    } else {
      i := |MappingsOf(next, groups, n - 1)| + k;
    }
  }

  function SlotsIn(ms: seq<Mapping>): set<int> {
    set i | 0 <= i < |ms| :: ms[i].slot
  }

  // ---- titles ----

  function AddTitle(titles: map<int, string>, slot: int, title: string): map<int, string> {
    if title != "" && slot !in titles then titles[slot := title] else titles
  }

  /** The titles of slots after the first `n` items of a version; the first title stays. */
  function TitlesRun(s: Slots, items: seq<Item>, titles: map<int, string>, n: nat): map<int, string>
    requires n <= |items|
  {
    if n == 0 then titles
    else
      AddTitle(TitlesRun(s, items, titles, n - 1), Run(s, items, n).given[n - 1], items[n - 1].title)
  }

  function TitlesOf(next: int, groups: seq<Group>, n: nat): map<int, string>
    requires n <= |groups|
  {
    if n == 0 then map[]
    else
      var items := groups[n - 1].items;
      TitlesRun(RunAll(Fresh(next), groups, n - 1), items, TitlesOf(next, groups, n - 1), |items|)
  }

  function TitleFor(titles: map<int, string>, slot: int): string {
    if slot in titles then titles[slot] else "slot-" + IntText(slot)
  }

  /** The slot keeps its id and its title; it takes `title` if it is new or has none. */
  ghost predicate TitledAs(before: Logicals, after: Logicals, slot: int, title: string) {
    && slot in after
    && (slot in before ==> after[slot].id == before[slot].id)
    && after[slot].title == if slot in before && before[slot].title != "" then before[slot].title else title
  }

  /** What upserting the slots of `done` makes of the logical patches. */
  ghost predicate Upserted(before: Logicals, after: Logicals, done: set<int>, titles: map<int, string>) {
    && after.Keys == before.Keys + done
    && (forall s | s in done :: TitledAs(before, after, s, TitleFor(titles, s)))
    && (forall s | s in before && s !in done :: after[s] == before[s])
  }

  predicate NoItems(groups: seq<Group>) {
    forall g | 0 <= g < |groups| :: groups[g].items == []
  }

  function OtherSeries(t: MapTable, ls: Logicals): MapTable {
    map key | key in t && forall slot | slot in ls :: ls[slot].id != key.logicalId :: t[key]
  }

  // ---- the titles, told from the items ----

  ghost predicate HasTitle(groups: seq<Group>, given: seq<seq<int>>, slot: int, b: Spot, a: Spot)
    requires Fits(groups, given)
  {
    InRange(groups, a) && Earlier(a, b) && SlotAt(groups, given, a) == slot && ItemAt(groups, a).title != ""
  }

  /** `a` is the first item before `b` that has the slot and a title. */
  ghost predicate FirstTitled(groups: seq<Group>, given: seq<seq<int>>, slot: int, b: Spot, a: Spot)
    requires Fits(groups, given)
  {
    HasTitle(groups, given, slot, b, a) && forall c | HasTitle(groups, given, slot, b, c) && c != a :: Earlier(a, c)
  }

  /** The slot has the title of the first such item, or none if there is no such item. */
  ghost predicate TitleRight(groups: seq<Group>, given: seq<seq<int>>, b: Spot, titles: map<int, string>, slot: int)
    requires Fits(groups, given)
  {
    if slot in titles then exists a :: FirstTitled(groups, given, slot, b, a) && titles[slot] == ItemAt(groups, a).title
    else forall c :: !HasTitle(groups, given, slot, b, c)
  }

  ghost predicate TitlesRight(groups: seq<Group>, given: seq<seq<int>>, b: Spot, titles: map<int, string>)
    requires Fits(groups, given)
  {
    forall slot: int :: TitleRight(groups, given, b, titles, slot)
  }

  lemma TitleStep(groups: seq<Group>, given: seq<seq<int>>, b: Spot, titles: map<int, string>, slot: int)
    requires Fits(groups, given) && InRange(groups, b) && TitleRight(groups, given, b, titles, slot)
    ensures TitleRight(groups, given, Spot(b.g, b.k + 1),
                       AddTitle(titles, SlotAt(groups, given, b), ItemAt(groups, b).title), slot)
  {
    var after := Spot(b.g, b.k + 1);
    forall c
      ensures HasTitle(groups, given, slot, after, c)
              <==> HasTitle(groups, given, slot, b, c) || (c == b && HasTitle(groups, given, slot, after, b))
    {
    }
    if slot in titles {
      var a :| FirstTitled(groups, given, slot, b, a) && titles[slot] == ItemAt(groups, a).title;
      assert FirstTitled(groups, given, slot, after, a);
    } else if HasTitle(groups, given, slot, after, b) {
      assert FirstTitled(groups, given, slot, after, b);
    }
  }

  lemma TitleWrap(groups: seq<Group>, given: seq<seq<int>>, g: nat, titles: map<int, string>, slot: int)
    requires Fits(groups, given) && g < |groups|
    requires TitleRight(groups, given, Spot(g, |groups[g].items|), titles, slot)
    ensures TitleRight(groups, given, Spot(g + 1, 0), titles, slot)
  {
    var start, end := Spot(g + 1, 0), Spot(g, |groups[g].items|);
    forall c
      ensures HasTitle(groups, given, slot, start, c) <==> HasTitle(groups, given, slot, end, c)
    {
    }
    if slot in titles {
      var a :| FirstTitled(groups, given, slot, end, a) && titles[slot] == ItemAt(groups, a).title;
      assert FirstTitled(groups, given, slot, start, a);
    }
  }

  lemma TitlesStep(groups: seq<Group>, given: seq<seq<int>>, b: Spot, titles: map<int, string>)
    requires Fits(groups, given) && InRange(groups, b) && TitlesRight(groups, given, b, titles)
    ensures TitlesRight(groups, given, Spot(b.g, b.k + 1),
                        AddTitle(titles, SlotAt(groups, given, b), ItemAt(groups, b).title))
  {
    hide TitleRight, AddTitle;
    var more := AddTitle(titles, SlotAt(groups, given, b), ItemAt(groups, b).title);
    var after := Spot(b.g, b.k + 1);
    forall slot: int
      ensures TitleRight(groups, given, after, more, slot)
    {
      TitleStep(groups, given, b, titles, slot);
    }
  }

  lemma TitlesWrap(groups: seq<Group>, given: seq<seq<int>>, g: nat, titles: map<int, string>)
    requires Fits(groups, given) && g < |groups|
    requires TitlesRight(groups, given, Spot(g, |groups[g].items|), titles)
    ensures TitlesRight(groups, given, Spot(g + 1, 0), titles)
  {
    hide TitleRight;
    var start := Spot(g + 1, 0);
    forall slot: int
      ensures TitleRight(groups, given, start, titles, slot)
    {
      TitleWrap(groups, given, g, titles, slot);
    }
  }

  /** The titles before the `k`th item of the `g`th version. */
  ghost function TitlesBefore(next: int, groups: seq<Group>, b: Spot): map<int, string>
    requires b.g < |groups| && b.k <= |groups[b.g].items|
  {
    TitlesRun(RunAll(Fresh(next), groups, b.g), groups[b.g].items, TitlesOf(next, groups, b.g), b.k)
  }

  lemma TitleAdded(next: int, groups: seq<Group>, b: Spot)
    requires InRange(groups, b)
    ensures var slot := SlotAt(groups, AllSlots(next, groups), b);
            TitlesBefore(next, groups, Spot(b.g, b.k + 1))
            == AddTitle(TitlesBefore(next, groups, b), slot, ItemAt(groups, b).title)
  {
    RunPrefix(RunAll(Fresh(next), groups, b.g), groups[b.g].items, b.k + 1, |groups[b.g].items|);
  }

  lemma TitlesAtStart(next: int, groups: seq<Group>, g: nat)
    requires g < |groups|
    ensures TitlesBefore(next, groups, Spot(g, 0)) == TitlesOf(next, groups, g)
    ensures TitlesBefore(next, groups, Spot(g, |groups[g].items|)) == TitlesOf(next, groups, g + 1)
  {
  }

  lemma {:induction false} TitlesWithin(next: int, groups: seq<Group>, b: Spot)
    requires b.g < |groups| && b.k <= |groups[b.g].items|
    requires TitlesRight(groups, AllSlots(next, groups), Spot(b.g, 0), TitlesOf(next, groups, b.g))
    ensures TitlesRight(groups, AllSlots(next, groups), b, TitlesBefore(next, groups, b))
    decreases b.k
  {
    hide TitlesRight, AllSlots, TitlesBefore, TitlesOf, AddTitle;
    if b.k == 0 {
      TitlesAtStart(next, groups, b.g);
    } else {
      var a := Spot(b.g, b.k - 1);
      TitlesWithin(next, groups, a);
      TitleAdded(next, groups, a);
      TitlesStep(groups, AllSlots(next, groups), a, TitlesBefore(next, groups, a));
    }
  }

  lemma NoTitles(next: int, groups: seq<Group>)
    ensures TitlesRight(groups, AllSlots(next, groups), Spot(0, 0), TitlesOf(next, groups, 0))
  {
  }

  lemma {:induction false} TitlesAreRight(next: int, groups: seq<Group>, g: nat)
    requires g <= |groups|
    ensures TitlesRight(groups, AllSlots(next, groups), Spot(g, 0), TitlesOf(next, groups, g))
  {
    hide TitlesRight, AllSlots, TitlesBefore, TitlesOf;
    if g == 0 {
      NoTitles(next, groups);
    } else {
      TitlesAreRight(next, groups, g - 1);
      TitlesWithin(next, groups, Spot(g - 1, |groups[g - 1].items|));
      TitlesAtStart(next, groups, g - 1);
      TitlesWrap(groups, AllSlots(next, groups), g - 1, TitlesOf(next, groups, g));
    }
  }

  // ---- the rows, told from the items ----

  /** The item has its row under the key. */
  ghost predicate HasRow(groups: seq<Group>, given: seq<seq<int>>, ls: Logicals, key: MapKey, b: Spot, a: Spot)
    requires Fits(groups, given)
  {
    && InRange(groups, a) && Earlier(a, b) && groups[a.g].versionNum == key.versionNum
    && SlotAt(groups, given, a) in ls && ls[SlotAt(groups, given, a)].id == key.logicalId
  }

  ghost predicate LastRow(groups: seq<Group>, given: seq<seq<int>>, ls: Logicals, key: MapKey, b: Spot, a: Spot)
    requires Fits(groups, given)
  {
    && HasRow(groups, given, ls, key, b, a)
    && forall c | HasRow(groups, given, ls, key, b, c) && c != a :: Earlier(c, a)
  }

  ghost predicate RowTaken(groups: seq<Group>, given: seq<seq<int>>, ls: Logicals, b: Spot, t: MapTable, key: MapKey)
    requires Fits(groups, given)
  {
    exists a :: LastRow(groups, given, ls, key, b, a) && key in t && t[key] == ItemAt(groups, a).itemId
  }

  ghost predicate RowKept(groups: seq<Group>, given: seq<seq<int>>, ls: Logicals, b: Spot, was: MapTable, t: MapTable,
                          key: MapKey)
    requires Fits(groups, given)
  {
    && (forall c :: !HasRow(groups, given, ls, key, b, c))
    && (key in t <==> key in was) && (key in t ==> t[key] == was[key])
  }

  ghost predicate RowRight(groups: seq<Group>, given: seq<seq<int>>, ls: Logicals, b: Spot, was: MapTable, t: MapTable,
                           key: MapKey)
    requires Fits(groups, given)
  {
    RowTaken(groups, given, ls, b, t, key) || RowKept(groups, given, ls, b, was, t, key)
  }

  ghost predicate RowsRight(groups: seq<Group>, given: seq<seq<int>>, ls: Logicals, b: Spot, was: MapTable, t: MapTable)
    requires Fits(groups, given)
  {
    forall key: MapKey :: RowRight(groups, given, ls, b, was, t, key)
  }

  lemma RowStep(groups: seq<Group>, given: seq<seq<int>>, ls: Logicals, b: Spot, was: MapTable, t: MapTable,
                own: MapKey, key: MapKey)
    requires Fits(groups, given) && InRange(groups, b) && RowRight(groups, given, ls, b, was, t, key)
    requires HasRow(groups, given, ls, own, Spot(b.g, b.k + 1), b)
    ensures RowRight(groups, given, ls, Spot(b.g, b.k + 1), was, t[own := ItemAt(groups, b).itemId], key)
  {
    var after := Spot(b.g, b.k + 1);
    forall c
      ensures HasRow(groups, given, ls, key, after, c)
              <==> HasRow(groups, given, ls, key, b, c) || (c == b && key == own)
    {
    }
    if key == own {
      assert LastRow(groups, given, ls, key, after, b);
    } else if RowTaken(groups, given, ls, b, t, key) {
      var a :| LastRow(groups, given, ls, key, b, a) && key in t && t[key] == ItemAt(groups, a).itemId;
      assert LastRow(groups, given, ls, key, after, a);
    }
  }

  lemma RowWrap(groups: seq<Group>, given: seq<seq<int>>, ls: Logicals, g: nat, was: MapTable, t: MapTable, key: MapKey)
    requires Fits(groups, given) && g < |groups|
    requires RowRight(groups, given, ls, Spot(g, |groups[g].items|), was, t, key)
    ensures RowRight(groups, given, ls, Spot(g + 1, 0), was, t, key)
  {
    var start, end := Spot(g + 1, 0), Spot(g, |groups[g].items|);
    forall c
      ensures HasRow(groups, given, ls, key, start, c) <==> HasRow(groups, given, ls, key, end, c)
    {
    }
    if RowTaken(groups, given, ls, end, t, key) {
      var a :| LastRow(groups, given, ls, key, end, a) && key in t && t[key] == ItemAt(groups, a).itemId;
      assert LastRow(groups, given, ls, key, start, a);
    }
  }

  lemma RowsStep(groups: seq<Group>, given: seq<seq<int>>, ls: Logicals, b: Spot, was: MapTable, t: MapTable,
                 own: MapKey)
    requires Fits(groups, given) && InRange(groups, b) && RowsRight(groups, given, ls, b, was, t)
    requires HasRow(groups, given, ls, own, Spot(b.g, b.k + 1), b)
    ensures RowsRight(groups, given, ls, Spot(b.g, b.k + 1), was, t[own := ItemAt(groups, b).itemId])
  {
    hide RowRight, HasRow;
    var after := Spot(b.g, b.k + 1);
    var more := t[own := ItemAt(groups, b).itemId];
    forall key: MapKey
      ensures RowRight(groups, given, ls, after, was, more, key)
    {
      RowStep(groups, given, ls, b, was, t, own, key);
    }
  }

  lemma RowsWrap(groups: seq<Group>, given: seq<seq<int>>, ls: Logicals, g: nat, was: MapTable, t: MapTable)
    requires Fits(groups, given) && g < |groups|
    requires RowsRight(groups, given, ls, Spot(g, |groups[g].items|), was, t)
    ensures RowsRight(groups, given, ls, Spot(g + 1, 0), was, t)
  {
    hide RowRight;
    var start := Spot(g + 1, 0);
    forall key: MapKey
      ensures RowRight(groups, given, ls, start, was, t, key)
    {
      RowWrap(groups, given, ls, g, was, t, key);
    }
  }

  /** The position of the mapping of the `k`th item of the `g`th version. */
  ghost function Position(next: int, groups: seq<Group>, b: Spot): nat
    requires b.g < |groups| && b.k <= |groups[b.g].items|
  {
    |MappingsOf(next, groups, b.g)| + b.k
  }

  lemma {:induction false} PositionsFit(next: int, groups: seq<Group>, g: nat, n: nat)
    requires g < n <= |groups|
    ensures Position(next, groups, Spot(g, |groups[g].items|)) == |MappingsOf(next, groups, g + 1)|
    ensures |MappingsOf(next, groups, g + 1)| <= |MappingsOf(next, groups, n)|
  {
    hide SlotsOf;
    if g < n - 1 {
      PositionsFit(next, groups, g, n - 1);
    }
  }

  /** The table before the item. */
  ghost function TableBefore(next: int, groups: seq<Group>, ls: Logicals, was: MapTable, b: Spot): MapTable
    requires b.g < |groups| && b.k <= |groups[b.g].items|
    requires HasSlots(ls, MappingsOf(next, groups, |groups|))
  {
    PositionsFit(next, groups, b.g, |groups|);
    PutMappings(was, ls, MappingsOf(next, groups, |groups|), Position(next, groups, b))
  }

  lemma RowAdded(next: int, groups: seq<Group>, ls: Logicals, was: MapTable, b: Spot) returns (own: MapKey)
    requires InRange(groups, b) && HasSlots(ls, MappingsOf(next, groups, |groups|))
    ensures HasRow(groups, AllSlots(next, groups), ls, own, Spot(b.g, b.k + 1), b)
    ensures TableBefore(next, groups, ls, was, Spot(b.g, b.k + 1))
            == TableBefore(next, groups, ls, was, b)[own := ItemAt(groups, b).itemId]
  {
    hide MappingsOf;
    var i := MappingAt(next, groups, |groups|, b.g, b.k);
    own := KeyFor(ls, MappingsOf(next, groups, |groups|)[i]);
  }

  lemma TableAtStart(next: int, groups: seq<Group>, ls: Logicals, was: MapTable, g: nat)
    requires g + 1 < |groups| && HasSlots(ls, MappingsOf(next, groups, |groups|))
    ensures TableBefore(next, groups, ls, was, Spot(g, |groups[g].items|))
            == TableBefore(next, groups, ls, was, Spot(g + 1, 0))
  {
    PositionsFit(next, groups, g, |groups|);
  }

  lemma {:induction false} RowsWithin(next: int, groups: seq<Group>, ls: Logicals, was: MapTable, b: Spot)
    requires b.g < |groups| && b.k <= |groups[b.g].items| && HasSlots(ls, MappingsOf(next, groups, |groups|))
    ensures RowsRight(groups, AllSlots(next, groups), ls, b, was, TableBefore(next, groups, ls, was, b))
    decreases b.g, b.k
  {
    hide RowsRight, AllSlots, TableBefore, MappingsOf, HasRow;
    if b.k > 0 {
      var a := Spot(b.g, b.k - 1);
      RowsWithin(next, groups, ls, was, a);
      var own := RowAdded(next, groups, ls, was, a);
      RowsStep(groups, AllSlots(next, groups), ls, a, was, TableBefore(next, groups, ls, was, a), own);
    } else if b.g > 0 {
      var end := Spot(b.g - 1, |groups[b.g - 1].items|);
      RowsWithin(next, groups, ls, was, end);
      TableAtStart(next, groups, ls, was, b.g - 1);
      RowsWrap(groups, AllSlots(next, groups), ls, b.g - 1, was, TableBefore(next, groups, ls, was, end));
    } else {
      NoRows(next, groups, ls, was);
    }
  }

  lemma NoRows(next: int, groups: seq<Group>, ls: Logicals, was: MapTable)
    requires groups != [] && HasSlots(ls, MappingsOf(next, groups, |groups|))
    ensures RowsRight(groups, AllSlots(next, groups), ls, Spot(0, 0), was,
                      TableBefore(next, groups, ls, was, Spot(0, 0)))
  {
  }

  // ---- one mapping of a series ----

  ghost predicate GivenTo(groups: seq<Group>, given: seq<seq<int>>, slot: int, a: Spot)
    requires Fits(groups, given)
  {
    InRange(groups, a) && SlotAt(groups, given, a) == slot
  }

  /** A title that is not empty stays; else the first title among the slot's items is taken,
      else a made-up one. */
  ghost predicate TitleMeans(groups: seq<Group>, given: seq<seq<int>>, before: Logicals, slot: int, title: string)
    requires Fits(groups, given)
  {
    var all := Spot(|groups|, 0);
    if slot in before && before[slot].title != "" then title == before[slot].title
    else
      || (exists a :: FirstTitled(groups, given, slot, all, a) && title == ItemAt(groups, a).title)
      || ((forall a :: !HasTitle(groups, given, slot, all, a)) && title == "slot-" + IntText(slot))
  }

  /** The slots of the items are there, under the ids that they had; the others stay. */
  ghost predicate LogicalMeans(groups: seq<Group>, given: seq<seq<int>>, before: Logicals, after: Logicals, slot: int)
    requires Fits(groups, given)
  {
    if exists a :: GivenTo(groups, given, slot, a) then
      && slot in after && (slot in before ==> after[slot].id == before[slot].id)
      && TitleMeans(groups, given, before, slot, after[slot].title)
    else
      (slot in after <==> slot in before) && (slot in after ==> after[slot] == before[slot])
  }

  ghost predicate OfSeries(ls: Logicals, key: MapKey) {
    exists slot :: slot in ls && ls[slot].id == key.logicalId
  }

  /** A row of the series is that of the last item with its slot and version, and there are no
      others; rows of other series stay. */
  ghost predicate RowMeans(groups: seq<Group>, given: seq<seq<int>>, ls: Logicals, was: MapTable, t: MapTable,
                           key: MapKey)
    requires Fits(groups, given)
  {
    var all := Spot(|groups|, 0);
    if OfSeries(ls, key) then
      || RowTaken(groups, given, ls, all, t, key)
      || (key !in t && forall a :: !HasRow(groups, given, ls, key, all, a))
    else (key in t <==> key in was) && (key in t ==> t[key] == was[key])
  }

  ghost predicate WritesSlots(groups: seq<Group>, given: seq<seq<int>>, before: Logicals, after: Logicals,
                              was: MapTable, t: MapTable)
    requires Fits(groups, given)
  {
    && (forall slot: int :: LogicalMeans(groups, given, before, after, slot))
    && (forall key: MapKey :: RowMeans(groups, given, after, was, t, key))
  }

  ghost predicate MappingMeans(next: int, groups: seq<Group>, before: Logicals, after: Logicals, was: MapTable,
                               t: MapTable)
  {
    exists given :: SlotsMean(next, groups, given) && WritesSlots(groups, given, before, after, was, t)
  }

  lemma GivenSlots(next: int, groups: seq<Group>, slot: int)
    ensures slot in SlotsIn(MappingsOf(next, groups, |groups|))
            <==> exists a :: GivenTo(groups, AllSlots(next, groups), slot, a)
  {
    hide MappingsOf, SlotsOf;
    var ms := MappingsOf(next, groups, |groups|);
    if slot in SlotsIn(ms) {
      var i: nat :| i < |ms| && ms[i].slot == slot;
      var g, k := MappingFrom(next, groups, |groups|, i);
      assert GivenTo(groups, AllSlots(next, groups), slot, Spot(g, k));
    }
    if a :| GivenTo(groups, AllSlots(next, groups), slot, a) {
      var i := MappingAt(next, groups, |groups|, a.g, a.k);
      assert ms[i].slot == slot;
    }
  }

  lemma TitleForMeans(groups: seq<Group>, given: seq<seq<int>>, before: Logicals, titles: map<int, string>, slot: int)
    requires Fits(groups, given) && TitleRight(groups, given, Spot(|groups|, 0), titles, slot)
    ensures var keeps := slot in before && before[slot].title != "";
            TitleMeans(groups, given, before, slot, if keeps then before[slot].title else TitleFor(titles, slot))
  {
    hide HasTitle, FirstTitled, IntText;
  }

  lemma LogicalRight(next: int, groups: seq<Group>, before: Logicals, after: Logicals, slot: int)
    requires Upserted(before, after, SlotsIn(MappingsOf(next, groups, |groups|)), TitlesOf(next, groups, |groups|))
    ensures LogicalMeans(groups, AllSlots(next, groups), before, after, slot)
  {
    hide MappingsOf, TitlesOf, AllSlots, SlotsIn, TitleMeans, TitleFor, TitleRight, GivenTo;
    GivenSlots(next, groups, slot);
    TitlesAreRight(next, groups, |groups|);
    TitleForMeans(groups, AllSlots(next, groups), before, TitlesOf(next, groups, |groups|), slot);
  }

  lemma RowsAreRight(next: int, groups: seq<Group>, ls: Logicals, was: MapTable)
    requires groups != [] && HasSlots(ls, MappingsOf(next, groups, |groups|))
    ensures var ms := MappingsOf(next, groups, |groups|);
            RowsRight(groups, AllSlots(next, groups), ls, Spot(|groups|, 0), was, PutMappings(was, ls, ms, |ms|))
  {
    hide RowsRight, AllSlots, MappingsOf, PutMappings;
    var g := |groups| - 1;
    var end := Spot(g, |groups[g].items|);
    RowsWithin(next, groups, ls, was, end);
    RowsWrap(groups, AllSlots(next, groups), ls, g, was, TableBefore(next, groups, ls, was, end));
    PositionsFit(next, groups, g, |groups|);
  }

  lemma RowRightMeans(groups: seq<Group>, given: seq<seq<int>>, ls: Logicals, was: MapTable, t: MapTable, key: MapKey)
    requires Fits(groups, given) && RowRight(groups, given, ls, Spot(|groups|, 0), OtherSeries(was, ls), t, key)
    ensures RowMeans(groups, given, ls, was, t, key)
  {
  }

  lemma MappingIsRight(next: int, groups: seq<Group>, before: Logicals, after: Logicals, was: MapTable)
    requires groups != [] && HasSlots(after, MappingsOf(next, groups, |groups|))
    requires Upserted(before, after, SlotsIn(MappingsOf(next, groups, |groups|)), TitlesOf(next, groups, |groups|))
    ensures var ms := MappingsOf(next, groups, |groups|);
            MappingMeans(next, groups, before, after, was, PutMappings(OtherSeries(was, after), after, ms, |ms|))
  {
    hide LogicalMeans, RowMeans, RowRight, AllSlots, MappingsOf, PutMappings, SlotsMean, Upserted;
    var ms := MappingsOf(next, groups, |groups|);
    var t := PutMappings(OtherSeries(was, after), after, ms, |ms|);
    SlotsAreRight(next, groups);
    RowsAreRight(next, groups, after, OtherSeries(was, after));
    forall slot: int
      ensures LogicalMeans(groups, AllSlots(next, groups), before, after, slot)
    {
      LogicalRight(next, groups, before, after, slot);
    }
    forall key: MapKey
      ensures RowMeans(groups, AllSlots(next, groups), after, was, t, key)
    {
      RowRightMeans(groups, AllSlots(next, groups), after, was, t, key);
    }
    assert WritesSlots(groups, AllSlots(next, groups), before, after, was, t);
  }
}
