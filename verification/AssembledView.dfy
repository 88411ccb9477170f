/** `apply_assembled_view`: the patches of a version, completed by those that a partial
    reroll left out and an earlier version still has. */
module AssembledView {
  import opened LineageItems
  import opened Sorting
  import opened Wrappers

  /** A patch item as it was written for the version at hand. */
  datatype Record = Record(id: int, ordinal: int, itemType: ItemType, total: Option<int>)

  datatype Version = Version(seriesId: int, num: int, sentAt: int)

  datatype StoredItem = StoredItem(versionId: int, ordinal: int, itemType: ItemType)

  datatype Database = Database(versions: map<int, Version>, items: map<int, StoredItem>)

  // ---- inheriting ----

  /** A patch with the ordinal in a lower version of the series. */
  predicate IsDonor(db: Database, series: int, num: int, ordinal: int, i: int) {
    && i in db.items && db.items[i].itemType == Patch && db.items[i].ordinal == ordinal
    && db.items[i].versionId in db.versions
    && db.versions[db.items[i].versionId].seriesId == series && db.versions[db.items[i].versionId].num < num
  }

  /** `ORDER BY version_num DESC, sent_at DESC, id DESC` */
  predicate NotBefore(db: Database, i: int, j: int)
    requires i in db.items && db.items[i].versionId in db.versions
    requires j in db.items && db.items[j].versionId in db.versions
  {
    var v, w := db.items[i].versionId, db.items[j].versionId;
    var a, b := db.versions[v], db.versions[w];
    if a.num != b.num then a.num > b.num else if a.sentAt != b.sentAt then a.sentAt > b.sentAt else v >= w
  }

  function Donors(db: Database, series: int, num: int, ordinal: int): set<int> {
    set i | i in db.items && IsDonor(db, series, num, ordinal, i)
  }

  /** The donor in the highest lower version; among versions of one number the latest. */
  ghost predicate Inherits(db: Database, series: int, num: int, ordinal: int, i: int, from: int) {
    && IsDonor(db, series, num, ordinal, i) && from == db.versions[db.items[i].versionId].num
    && forall j | j in Donors(db, series, num, ordinal) :: NotBefore(db, i, j)
  }

  method FindInherited(db: Database, series: int, num: int, ordinal: int) returns (r: Option<(int, int)>)
    ensures r.None? <==> Donors(db, series, num, ordinal) == {}
    ensures r.Some? ==> Inherits(db, series, num, ordinal, r.value.0, r.value.1)
  {
    var donors := Donors(db, series, num, ordinal);
    if donors == {} {
      return None;
    }
    ghost var any := AnyOf(donors);
    var best :| best in donors;
    var rest := donors;
    while rest != {}
      invariant rest <= donors && best in donors
      invariant forall j | j in donors && j !in rest :: NotBefore(db, best, j)
      decreases rest
    {
      ghost var other := AnyOf(rest);
      var j :| j in rest;
      if NotBefore(db, j, best) {
        best := j;
      }
      rest := rest - {j};
    }
    return Some((best, db.versions[db.items[best].versionId].num));
  }

  // ---- the range of ordinals ----

  function PatchTotals(current: seq<Record>): set<int> {
    set i | 0 <= i < |current| && current[i].itemType == Patch && current[i].total.Some? :: current[i].total.value
  }

  function PatchOrdinals(current: seq<Record>): set<int> {
    set i | 0 <= i < |current| && current[i].itemType == Patch :: current[i].ordinal
  }

  ghost predicate IsGreatest(s: set<int>, m: int) {
    m in s && forall x | x in s :: x <= m
  }

  /** The greatest total of a patch; without totals the greatest ordinal; else zero. */
  ghost predicate IsMaxTotal(current: seq<Record>, m: int) {
    if PatchTotals(current) != {} then IsGreatest(PatchTotals(current), m)
    else if PatchOrdinals(current) != {} then IsGreatest(PatchOrdinals(current), m)
    else m == 0
  }

  method Greatest(s: set<int>) returns (m: int)
    requires s != {}
    ensures IsGreatest(s, m)
  {
    ghost var any := AnyOf(s);
    m :| m in s;
    var rest := s;
    while rest != {}
      invariant rest <= s && m in s
      invariant forall x | x in s && x !in rest :: x <= m
      decreases rest
    {
      ghost var other := AnyOf(rest);
      var x :| x in rest;
      if x > m {
        m := x;
      }
      rest := rest - {x};
    }
  }

  method MaxTotal(current: seq<Record>) returns (m: int)
    ensures IsMaxTotal(current, m)
  {
    if PatchTotals(current) != {} {
      m := Greatest(PatchTotals(current));
    } else if PatchOrdinals(current) != {} {
      m := Greatest(PatchOrdinals(current));
    } else {
      m := 0;
    }
  }

  // ---- the view ----

  /** A row of the assembled items of a version, under its ordinal. */
  datatype Entry = Entry(itemId: int, inheritedFrom: Option<int>)

  /** The patch that the version itself has at an ordinal. */
  ghost predicate HasAt(current: seq<Record>, ordinal: int, id: int) {
    exists i :: 0 <= i < |current| && current[i].itemType == Patch && current[i].ordinal == ordinal
      && current[i].id == id
  }

  ghost predicate MissesAt(current: seq<Record>, ordinal: int) {
    ordinal !in PatchOrdinals(current)
  }

  ghost predicate IsCover(current: seq<Record>, id: int) {
    exists i :: 0 <= i < |current| && current[i].itemType == Cover && current[i].ordinal == 0 && current[i].id == id
  }

  ghost predicate HasCover(current: seq<Record>) {
    exists i :: 0 <= i < |current| && current[i].itemType == Cover && current[i].ordinal == 0
  }

  /** What may stand at an ordinal, given the series and number of the version. */
  ghost predicate EntryOk(db: Database, v: Version, current: seq<Record>, ordinal: int, e: Entry) {
    if ordinal == 0 then IsCover(current, e.itemId) && e.inheritedFrom == None
    else if !MissesAt(current, ordinal) then HasAt(current, ordinal, e.itemId) && e.inheritedFrom == None
    else e.inheritedFrom.Some? && Inherits(db, v.seriesId, v.num, ordinal, e.itemId, e.inheritedFrom.value)
  }

  /** Which ordinals have an entry. */
  ghost predicate Occupied(db: Database, v: Version, current: seq<Record>, m: int, ordinal: int) {
    || (ordinal == 0 && HasCover(current))
    || (1 <= ordinal <= m && (!MissesAt(current, ordinal) || Donors(db, v.seriesId, v.num, ordinal) != {}))
  }

  ghost predicate IsView(db: Database, v: Version, current: seq<Record>, m: int, view: map<int, Entry>) {
    && (forall o :: o in view <==> Occupied(db, v, current, m, o))
    && (forall o | o in view :: EntryOk(db, v, current, o, view[o]))
  }

  /** The ordinals distinguish the patches of one version. */
  ghost predicate OneEach(current: seq<Record>) {
    forall i, j | 0 <= i < j < |current| && current[i].itemType == Patch && current[j].itemType == Patch ::
      current[i].ordinal != current[j].ordinal
  }

  /** A patch of the version keeps its place exactly when its ordinal is in range. */
  lemma KeptExactly(db: Database, v: Version, current: seq<Record>, m: int, view: map<int, Entry>, i: nat)
    requires IsView(db, v, current, m, view) && OneEach(current)
    requires i < |current| && current[i].itemType == Patch && current[i].ordinal != 0
    ensures current[i].ordinal in view && view[current[i].ordinal] == Entry(current[i].id, None)
            <==> 1 <= current[i].ordinal <= m
  {
    var o := current[i].ordinal;
    assert o in PatchOrdinals(current);
    if 1 <= o <= m {
      assert Occupied(db, v, current, m, o) && EntryOk(db, v, current, o, view[o]);
      var j :| 0 <= j < |current| && current[j].itemType == Patch && current[j].ordinal == o
        && current[j].id == view[o].itemId;
    }
  }

  /** Entries that are marked as inherited stand where the version has no patch, and come
      from the highest lower version that holds the ordinal; where there is such a version,
      the ordinal is filled. */
  lemma InheritedExactly(db: Database, v: Version, current: seq<Record>, m: int, view: map<int, Entry>, o: int)
    requires IsView(db, v, current, m, view)
    ensures o in view && view[o].inheritedFrom.Some?
            <==> 1 <= o <= m && MissesAt(current, o) && Donors(db, v.seriesId, v.num, o) != {}
    ensures o in view && view[o].inheritedFrom.Some? ==>
              Inherits(db, v.seriesId, v.num, o, view[o].itemId, view[o].inheritedFrom.value)
  {
    assert o in view ==> EntryOk(db, v, current, o, view[o]);
  }

  // ---- the view, row by row ----

  ghost predicate IsPatchTotal(current: seq<Record>, m: int) {
    exists i :: 0 <= i < |current| && current[i].itemType.Patch? && current[i].total == Some(m)
  }

  ghost predicate IsPatchOrdinal(current: seq<Record>, o: int) {
    exists i :: 0 <= i < |current| && current[i].itemType.Patch? && current[i].ordinal == o
  }

  ghost predicate EndsAt(current: seq<Record>, m: int) {
    if exists t :: IsPatchTotal(current, t) then
      IsPatchTotal(current, m) && forall t | IsPatchTotal(current, t) :: t <= m
    else if exists o :: IsPatchOrdinal(current, o) then
      IsPatchOrdinal(current, m) && forall o | IsPatchOrdinal(current, o) :: o <= m
    else m == 0
  }

  /** The item is a patch with the ordinal, in the version `w` of the series, below `num`. */
  ghost predicate StoredBelow(db: Database, v: Version, ordinal: int, i: int, id: int, w: Version) {
    && i in db.items && db.items[i] == StoredItem(id, ordinal, Patch)
    && id in db.versions && db.versions[id] == w && w.seriesId == v.seriesId && w.num < v.num
  }

  /** The item, and of all such items it is in the last version. */
  ghost predicate TakenFrom(db: Database, v: Version, ordinal: int, i: int, num: int) {
    exists id, w :: StoredBelow(db, v, ordinal, i, id, w) && w.num == num
      && forall i', id', w' | StoredBelow(db, v, ordinal, i', id', w') :: NotLater(id', w', id, w)
  }

  ghost predicate NotLater(id: int, v: Version, id': int, v': Version) {
    || v.num < v'.num
    || (v.num == v'.num && v.sentAt < v'.sentAt)
    || (v.num == v'.num && v.sentAt == v'.sentAt && id <= id')
  }

  ghost predicate Stands(current: seq<Record>, t: ItemType, ordinal: int, e: Entry) {
    exists i :: 0 <= i < |current| && current[i].itemType == t && current[i].ordinal == ordinal
      && e == Entry(current[i].id, None)
  }

  /** A cover stands at zero. At an ordinal in range stands the version's own patch; if it has
      none, that of the last lower version which has one, with that version's number. */
  ghost predicate RowMeans(db: Database, v: Version, current: seq<Record>, m: int, view: map<int, Entry>, o: int) {
    if o == 0 then
      && (o in view <==> exists e :: Stands(current, Cover, 0, e))
      && (o in view ==> Stands(current, Cover, 0, view[o]))
    else if o < 1 || o > m then o !in view
    else if IsPatchOrdinal(current, o) then o in view && Stands(current, Patch, o, view[o])
    else
      && (o in view <==> exists i, id, w :: StoredBelow(db, v, o, i, id, w))
      && (o in view ==> view[o].inheritedFrom.Some?
                        && TakenFrom(db, v, o, view[o].itemId, view[o].inheritedFrom.value))
  }

  ghost predicate ViewMeans(db: Database, v: Version, current: seq<Record>, m: int, view: map<int, Entry>) {
    EndsAt(current, m) && forall o: int :: RowMeans(db, v, current, m, view, o)
  }

  lemma MaxTotalEnds(current: seq<Record>, m: int)
    requires IsMaxTotal(current, m)
    ensures EndsAt(current, m)
  {
    assert forall t :: t in PatchTotals(current) <==> IsPatchTotal(current, t);
    assert forall o :: o in PatchOrdinals(current) <==> IsPatchOrdinal(current, o);
    if PatchTotals(current) != {} {
      var t := AnyOf(PatchTotals(current));
      assert IsPatchTotal(current, t);
    } else if PatchOrdinals(current) != {} {
      var o := AnyOf(PatchOrdinals(current));
      assert IsPatchOrdinal(current, o);
    }
  }

  lemma DonorIsStored(db: Database, v: Version, o: int, i: int)
    requires i in Donors(db, v.seriesId, v.num, o)
    ensures StoredBelow(db, v, o, i, db.items[i].versionId, db.versions[db.items[i].versionId])
  {
  }

  lemma StoredIsDonor(db: Database, v: Version, o: int, i: int, id: int, w: Version)
    requires StoredBelow(db, v, o, i, id, w)
    ensures i in Donors(db, v.seriesId, v.num, o)
  {
  }

  lemma InheritedIsTaken(db: Database, v: Version, o: int, i: int, num: int)
    requires Inherits(db, v.seriesId, v.num, o, i, num)
    ensures TakenFrom(db, v, o, i, num)
  {
    DonorIsStored(db, v, o, i);
    var id := db.items[i].versionId;
    var w := db.versions[id];
    forall i', id', w' | StoredBelow(db, v, o, i', id', w')
      ensures NotLater(id', w', id, w)
    {
      StoredIsDonor(db, v, o, i', id', w');
      assert NotBefore(db, i, i');
    }
  }

  lemma RowsMean(db: Database, v: Version, current: seq<Record>, m: int, view: map<int, Entry>, o: int)
    requires IsView(db, v, current, m, view)
    ensures RowMeans(db, v, current, m, view, o)
  {
    hide TakenFrom, Inherits, StoredBelow;
    assert o in PatchOrdinals(current) <==> IsPatchOrdinal(current, o);
    assert o in view <==> Occupied(db, v, current, m, o);
    assert o in view ==> EntryOk(db, v, current, o, view[o]);
    if o == 0 {
      CoverStands(current);
    } else if 1 <= o <= m && !IsPatchOrdinal(current, o) {
      DonorsExist(db, v, o);
      if o in view {
        InheritedIsTaken(db, v, o, view[o].itemId, view[o].inheritedFrom.value);
      }
    }
  }

  lemma CoverStands(current: seq<Record>)
    ensures HasCover(current) <==> exists e :: Stands(current, Cover, 0, e)
  {
    if i :| 0 <= i < |current| && current[i].itemType == Cover && current[i].ordinal == 0 {
      assert Stands(current, Cover, 0, Entry(current[i].id, None));
    }
  }

  lemma DonorsExist(db: Database, v: Version, o: int)
    ensures Donors(db, v.seriesId, v.num, o) != {} <==> exists i, id, w :: StoredBelow(db, v, o, i, id, w)
  {
    if Donors(db, v.seriesId, v.num, o) != {} {
      var i := AnyOf(Donors(db, v.seriesId, v.num, o));
      DonorIsStored(db, v, o, i);
    }
    if i, id, w :| StoredBelow(db, v, o, i, id, w) {
      StoredIsDonor(db, v, o, i, id, w);
    }
  }

  lemma ViewsMean(db: Database, v: Version, current: seq<Record>, m: int, view: map<int, Entry>)
    requires IsMaxTotal(current, m) && IsView(db, v, current, m, view)
    ensures ViewMeans(db, v, current, m, view)
  {
    hide IsMaxTotal, IsView, RowMeans, EndsAt;
    MaxTotalEnds(current, m);
    forall o: int
      ensures RowMeans(db, v, current, m, view, o)
    {
      RowsMean(db, v, current, m, view, o);
    }
  }

  // ---- with normalised items nothing is lost ----

  /** The records written for normalised items. */
  ghost predicate WrittenFrom(items: seq<Item>, current: seq<Record>) {
    && (forall r | r in current && r.itemType == Patch :: exists i :: i in items && IsRecordOf(i, r))
    && (forall i | i in items && i.itemType == Patch :: exists r :: r in current && IsRecordOf(i, r))
  }

  predicate IsRecordOf(i: Item, r: Record) {
    i.itemType == r.itemType && i.ordinal.GetOr(0) == r.ordinal && i.total == r.total
  }

  ghost predicate PositivePatches(items: seq<Item>) {
    forall i | 0 <= i < |items| && items[i].itemType == Patch :: items[i].ordinal.Some? && items[i].ordinal.value >= 1
  }

  lemma TotalsReach(items: seq<Item>, current: seq<Record>, m: int, k: nat)
    requires TotalsCover(items) && PositivePatches(items) && WrittenFrom(items, current) && IsMaxTotal(current, m)
    requires k < |current| && current[k].itemType == Patch
    ensures 1 <= current[k].ordinal <= m
  {
    var r := current[k];
    assert r in current;
    var item :| item in items && IsRecordOf(item, r);
    var x :| 0 <= x < |items| && items[x] == item;
    assert items[x].total.Some? && items[x].ordinal.value <= items[x].total.value;
    assert r.total.value in PatchTotals(current);
  }

  /** After `normalize_item_ordinals` no patch written for the version is lost. */
  lemma NothingIsLost(db: Database, v: Version, before: seq<Item>, items: seq<Item>, current: seq<Record>, m: int,
                      view: map<int, Entry>, k: nat)
    requires Normalized(before, items) && PatchOrdinalsDistinct(before)
    requires forall i | 0 <= i < |before| && before[i].ordinal.Some? :: before[i].ordinal.value >= 0
    requires WrittenFrom(items, current) && OneEach(current)
    requires IsMaxTotal(current, m) && IsView(db, v, current, m, view)
    requires k < |current| && current[k].itemType == Patch
    ensures current[k].ordinal in view && view[current[k].ordinal] == Entry(current[k].id, None)
  {
    NormalizedTotalsCover(before, items);
    NormalizedKeepsDistinct(before, items);
    TotalsReach(items, current, m, k);
    KeptExactly(db, v, current, m, view, k);
  }

  // ---- the tables ----

  datatype RowKey = RowKey(versionId: int, ordinal: int)

  datatype Listed = Listed(ordinal: int, entry: Entry)

  ghost predicate Ascending(rows: seq<Listed>) {
    forall i, j | 0 <= i < j < |rows| :: rows[i].ordinal < rows[j].ordinal
  }

  ghost function AsMap(rows: seq<Listed>): map<int, Entry>
    requires Ascending(rows)
  {
    map i | 0 <= i < |rows| :: rows[i].ordinal := rows[i].entry
  }

  type AssembledTable = map<RowKey, Entry>

  ghost function ViewIn(t: AssembledTable, versionId: int): map<int, Entry> {
    map key | key in t && key.versionId == versionId :: key.ordinal := t[key]
  }

  function Without(t: AssembledTable, versionId: int): AssembledTable {
    map key | key in t && key.versionId != versionId :: t[key]
  }

  function PutRows(t: AssembledTable, versionId: int, rows: seq<Listed>, n: nat): AssembledTable
    requires n <= |rows|
  {
    if n == 0 then t
    else PutRows(t, versionId, rows, n - 1)[RowKey(versionId, rows[n - 1].ordinal) := rows[n - 1].entry]
  }

  lemma {:induction false} PutRowsAt(t: AssembledTable, versionId: int, rows: seq<Listed>, n: nat, key: RowKey)
    requires n <= |rows| && Ascending(rows)
    ensures var r := PutRows(t, versionId, rows, n);
            && (key.versionId != versionId ==> (key in r <==> key in t) && (key in t ==> r[key] == t[key]))
            && (key.versionId == versionId && key !in t ==>
                  (key in r <==> exists j :: 0 <= j < n && rows[j].ordinal == key.ordinal))
            && (forall j | 0 <= j < n && key == RowKey(versionId, rows[j].ordinal)
              :: key in r && r[key] == rows[j].entry)
  {
    if n > 0 {
      PutRowsAt(t, versionId, rows, n - 1, key);
    }
  }

  lemma PutRowsView(t: AssembledTable, versionId: int, rows: seq<Listed>)
    requires Ascending(rows)
    ensures ViewIn(PutRows(Without(t, versionId), versionId, rows, |rows|), versionId) == AsMap(rows)
  {
    var r := PutRows(Without(t, versionId), versionId, rows, |rows|);
    forall o
      ensures o in ViewIn(r, versionId) <==> o in AsMap(rows)
      ensures o in AsMap(rows) ==> ViewIn(r, versionId)[o] == AsMap(rows)[o]
    {
      PutRowsAt(Without(t, versionId), versionId, rows, |rows|, RowKey(versionId, o));
      assert o in ViewIn(r, versionId) <==> RowKey(versionId, o) in r;
    }
  }

  ghost predicate SomeInherited(rows: seq<Listed>) {
    exists i :: 0 <= i < |rows| && rows[i].entry.inheritedFrom.Some?
  }

  lemma FlagInView(rows: seq<Listed>)
    requires Ascending(rows)
    ensures SomeInherited(rows) <==> Inherited(AsMap(rows))
  {
    if i :| 0 <= i < |rows| && rows[i].entry.inheritedFrom.Some? {
      assert rows[i].ordinal in AsMap(rows);
    }
  }

  class Store {
    var assembled: AssembledTable
    var partialReroll: map<int, bool>

    /** Deletes the version's rows and inserts the new ones; no two have the same key. */
    method ReplaceAssembledItems(versionId: int, rows: seq<Listed>)
      requires Ascending(rows)
      modifies this`assembled
      ensures assembled == PutRows(Without(old(assembled), versionId), versionId, rows, |rows|)
    {
      assembled := Without(assembled, versionId);
      ghost var others := assembled;
      for i := 0 to |rows|
        invariant assembled == PutRows(others, versionId, rows, i)
      {
        PutRowsAt(others, versionId, rows, i, RowKey(versionId, rows[i].ordinal));
        assert RowKey(versionId, rows[i].ordinal) !in assembled;
        assembled := assembled[RowKey(versionId, rows[i].ordinal) := rows[i].entry];
      }
    }

    method SetPartialReroll(versionId: int, flag: bool)
      modifies this`partialReroll
      ensures partialReroll == old(partialReroll)[versionId := flag]
    {
      partialReroll := partialReroll[versionId := flag];
    }

    /** The view of the version, and the flag that says whether anything was inherited; the
        rows of other versions stay. */
    method ApplyAssembledView(db: Database, versionId: int, v: Version, current: seq<Record>) returns (ghost m: int)
      modifies this
      ensures IsMaxTotal(current, m) && IsView(db, v, current, m, ViewIn(assembled, versionId))
      ensures ViewMeans(db, v, current, m, ViewIn(assembled, versionId))
      ensures Without(assembled, versionId) == Without(old(assembled), versionId)
      ensures partialReroll == old(partialReroll)[versionId := Inherited(ViewIn(assembled, versionId))]
    {
      ghost var before := assembled;
      var rows, found;
      rows, found, m := Assemble(db, v, current);
      ReplaceAssembledItems(versionId, rows);
      RowsReplaced(before, assembled, versionId, rows);
      SetPartialReroll(versionId, found);
      ViewsMean(db, v, current, m, ViewIn(assembled, versionId));
    }
  }

  ghost predicate Inherited(view: map<int, Entry>) {
    exists o :: o in view && view[o].inheritedFrom.Some?
  }

  lemma PutRowsElsewhere(t: AssembledTable, versionId: int, rows: seq<Listed>)
    requires Ascending(rows)
    ensures Without(PutRows(Without(t, versionId), versionId, rows, |rows|), versionId) == Without(t, versionId)
  {
    var r := PutRows(Without(t, versionId), versionId, rows, |rows|);
    forall key: RowKey | key.versionId != versionId
      ensures (key in r <==> key in t) && (key in t ==> r[key] == t[key])
    {
      PutRowsAt(Without(t, versionId), versionId, rows, |rows|, key);
    }
  }

  lemma RowsReplaced(t: AssembledTable, t': AssembledTable, versionId: int, rows: seq<Listed>)
    requires Ascending(rows) && t' == PutRows(Without(t, versionId), versionId, rows, |rows|)
    ensures ViewIn(t', versionId) == AsMap(rows) && Without(t', versionId) == Without(t, versionId)
    ensures SomeInherited(rows) <==> Inherited(ViewIn(t', versionId))
  {
    PutRowsView(t, versionId, rows);
    PutRowsElsewhere(t, versionId, rows);
    FlagInView(rows);
  }

  method CurrentByOrdinal(current: seq<Record>) returns (byOrdinal: map<int, int>)
    ensures byOrdinal.Keys == PatchOrdinals(current)
    ensures forall o | o in byOrdinal :: HasAt(current, o, byOrdinal[o])
  {
    byOrdinal := map[];
    for i := 0 to |current|
      invariant byOrdinal.Keys == PatchOrdinals(current[..i])
      invariant forall o | o in byOrdinal :: HasAt(current, o, byOrdinal[o])
    {
      OrdinalsSnoc(current, i);
      if current[i].itemType == Patch {
        byOrdinal := byOrdinal[current[i].ordinal := current[i].id];
        assert HasAt(current, current[i].ordinal, current[i].id);
      }
    }
    assert current[..|current|] == current;
  }

  lemma OrdinalsSnoc(current: seq<Record>, i: nat)
    requires i < |current|
    ensures PatchOrdinals(current[..i + 1])
            == PatchOrdinals(current[..i]) + (if current[i].itemType == Patch then {current[i].ordinal} else {})
  {
    var a, b := current[..i + 1], current[..i];
    assert a == b + [current[i]];
    forall o | o in PatchOrdinals(b)
      ensures o in PatchOrdinals(a)
    {
      var j :| 0 <= j < |b| && b[j].itemType == Patch && b[j].ordinal == o;
      assert a[j] == b[j];
    }
    assert a[i] == current[i];
  }

  method FindCover(current: seq<Record>) returns (rows: seq<Listed>)
    ensures rows == [] || exists id :: rows == [Listed(0, Entry(id, None))] && IsCover(current, id)
    ensures rows == [] <==> !HasCover(current)
  {
    for i := 0 to |current|
      invariant forall j | 0 <= j < i :: !(current[j].itemType == Cover && current[j].ordinal == 0)
    {
      if current[i].itemType == Cover && current[i].ordinal == 0 {
        assert IsCover(current, current[i].id);
        return [Listed(0, Entry(current[i].id, None))];
      }
    }
    return [];
  }

  /** The rows for the ordinals up to `n`. */
  ghost predicate Assembles(db: Database, v: Version, current: seq<Record>, n: int, rows: seq<Listed>, found: bool) {
    && Ascending(rows) && (rows != [] ==> rows[|rows| - 1].ordinal <= Max(n, 0))
    && IsView(db, v, current, n, AsMap(rows))
    && (found <==> SomeInherited(rows))
  }

  method Assemble(db: Database, v: Version, current: seq<Record>) returns (rows: seq<Listed>, found: bool, m: int)
    ensures IsMaxTotal(current, m) && Ascending(rows) && IsView(db, v, current, m, AsMap(rows))
    ensures found <==> SomeInherited(rows)
  {
    m := MaxTotal(current);
    rows := FindCover(current);
    found := false;
    var byOrdinal := CurrentByOrdinal(current);
    CoverFirst(db, v, current, rows, m);
    var ordinal := 1;
    while ordinal <= m
      invariant ordinal >= 1 && (m >= 1 ==> ordinal <= m + 1)
      invariant Assembles(db, v, current, if m < 1 then m else ordinal - 1, rows, found)
      decreases m - ordinal
    {
      if ordinal in byOrdinal {
        var e := Entry(byOrdinal[ordinal], None);
        AddRow(db, v, current, ordinal, rows, found, e);
        rows := rows + [Listed(ordinal, e)];
      } else {
        var inherited := FindInherited(db, v.seriesId, v.num, ordinal);
        if inherited.Some? {
          var e := Entry(inherited.value.0, Some(inherited.value.1));
          AddRow(db, v, current, ordinal, rows, found, e);
          rows := rows + [Listed(ordinal, e)];
          found := true;
        } else {
          SkipRow(db, v, current, ordinal, rows, found);
        }
      }
      ordinal := ordinal + 1;
    }
  }

  lemma CoverFirst(db: Database, v: Version, current: seq<Record>, rows: seq<Listed>, m: int)
    requires rows == [] || exists id :: rows == [Listed(0, Entry(id, None))] && IsCover(current, id)
    requires rows == [] <==> !HasCover(current)
    ensures Assembles(db, v, current, if m < 1 then m else 0, rows, false)
  {
  }

  lemma AsMapSnoc(rows: seq<Listed>, o: int, e: Entry)
    requires Ascending(rows) && forall i | 0 <= i < |rows| :: rows[i].ordinal < o
    ensures Ascending(rows + [Listed(o, e)]) && AsMap(rows + [Listed(o, e)]) == AsMap(rows)[o := e]
  {
    var more := rows + [Listed(o, e)];
    assert more[|rows|] == Listed(o, e);
    assert forall i | 0 <= i < |rows| :: more[i] == rows[i];
  }

  lemma FlagSnoc(rows: seq<Listed>, row: Listed)
    ensures SomeInherited(rows + [row]) <==> SomeInherited(rows) || row.entry.inheritedFrom.Some?
  {
    var more := rows + [row];
    assert forall i | 0 <= i < |rows| :: more[i] == rows[i];
    assert more[|rows|] == row;
  }

  lemma ViewSnoc(db: Database, v: Version, current: seq<Record>, o: int, view: map<int, Entry>, e: Entry)
    requires o >= 1 && IsView(db, v, current, o - 1, view)
    requires Occupied(db, v, current, o, o) && EntryOk(db, v, current, o, e)
    ensures IsView(db, v, current, o, view[o := e])
  {
  }

  lemma {:induction false} AddRow(db: Database, v: Version, current: seq<Record>, o: int, rows: seq<Listed>,
                                  found: bool, e: Entry)
    requires o >= 1 && Assembles(db, v, current, o - 1, rows, found)
    requires Occupied(db, v, current, o, o) && EntryOk(db, v, current, o, e)
    ensures Assembles(db, v, current, o, rows + [Listed(o, e)], found || e.inheritedFrom.Some?)
  {
    AsMapSnoc(rows, o, e);
    FlagSnoc(rows, Listed(o, e));
    ViewSnoc(db, v, current, o, AsMap(rows), e);
  }

  lemma SkipRow(db: Database, v: Version, current: seq<Record>, o: int, rows: seq<Listed>, found: bool)
    requires o >= 1 && Assembles(db, v, current, o - 1, rows, found)
    requires MissesAt(current, o) && Donors(db, v.seriesId, v.num, o) == {}
    ensures Assembles(db, v, current, o, rows, found)
  {
  }
}
