/** The slots and titles that one mapping gives, told from the items alone: which earlier item
    a slot comes from, and where every new slot lies. */
module LogicalFacts {
  import opened LogicalRuns
  import opened LogicalSlots

  /** The `k`th item of the `g`th version. */
  datatype Spot = Spot(g: nat, k: nat)

  ghost predicate Earlier(a: Spot, b: Spot) {
    a.g < b.g || (a.g == b.g && a.k < b.k)
  }

  ghost predicate InRange(groups: seq<Group>, a: Spot) {
    a.g < |groups| && a.k < |groups[a.g].items|
  }

  /** One slot for every item. */
  ghost predicate Fits(groups: seq<Group>, given: seq<seq<int>>) {
    |given| == |groups| && forall g | 0 <= g < |groups| :: |given[g]| == |groups[g].items|
  }

  ghost function ItemAt(groups: seq<Group>, a: Spot): Item
    requires InRange(groups, a)
  {
    groups[a.g].items[a.k]
  }

  ghost function SlotAt(groups: seq<Group>, given: seq<seq<int>>, a: Spot): int
    requires Fits(groups, given) && InRange(groups, a)
  {
    given[a.g][a.k]
  }

  datatype Kind = ByPatch | ByTitle

  ghost function KeyOf(kind: Kind, i: Item): string {
    if kind.ByPatch? then i.patchId else i.title
  }

  ghost predicate HasKey(groups: seq<Group>, kind: Kind, key: string, b: Spot, a: Spot) {
    InRange(groups, a) && Earlier(a, b) && KeyOf(kind, ItemAt(groups, a)) == key && key != ""
  }

  /** `a` is the last item before `b` with that patch id, or that title. */
  ghost predicate LastWith(groups: seq<Group>, kind: Kind, key: string, b: Spot, a: Spot) {
    HasKey(groups, kind, key, b, a) && forall c | HasKey(groups, kind, key, b, c) && c != a :: Earlier(c, a)
  }

  /** An earlier item of the same version has the slot. */
  ghost predicate UsedAt(groups: seq<Group>, given: seq<seq<int>>, b: Spot, slot: int) {
    exists k: nat :: UsedBy(groups, given, b, slot, k)
  }

  ghost predicate UsedBy(groups: seq<Group>, given: seq<seq<int>>, b: Spot, slot: int, k: nat) {
    k < b.k && b.g < |given| && k < |given[b.g]| && given[b.g][k] == slot
  }

  /** The last item of the same key has the slot, and the version does not use it yet. */
  ghost predicate Recalls(groups: seq<Group>, given: seq<seq<int>>, kind: Kind, b: Spot, slot: int)
    requires Fits(groups, given) && InRange(groups, b)
  {
    && !UsedAt(groups, given, b, slot)
    && exists a :: LastWith(groups, kind, KeyOf(kind, ItemAt(groups, b)), b, a) && SlotAt(groups, given, a) == slot
  }

  ghost predicate CanRecall(groups: seq<Group>, given: seq<seq<int>>, kind: Kind, b: Spot)
    requires Fits(groups, given) && InRange(groups, b)
  {
    exists slot :: Recalls(groups, given, kind, b, slot)
  }

  ghost predicate OrdinalFree(groups: seq<Group>, given: seq<seq<int>>, b: Spot)
    requires Fits(groups, given) && InRange(groups, b)
  {
    ItemAt(groups, b).ordinal > 0 && !UsedAt(groups, given, b, ItemAt(groups, b).ordinal)
  }

  ghost predicate IsNew(groups: seq<Group>, given: seq<seq<int>>, b: Spot) {
    && Fits(groups, given) && InRange(groups, b)
    && !CanRecall(groups, given, ByPatch, b) && !CanRecall(groups, given, ByTitle, b)
    && !OrdinalFree(groups, given, b)
  }

  ghost predicate NewWith(groups: seq<Group>, given: seq<seq<int>>, b: Spot, slot: int, a: Spot) {
    Earlier(a, b) && IsNew(groups, given, a) && SlotAt(groups, given, a) == slot
  }

  ghost predicate TakenAsNew(groups: seq<Group>, given: seq<seq<int>>, b: Spot, slot: int) {
    exists a :: NewWith(groups, given, b, slot, a)
  }

  /** The least slot from `next` on that no earlier item got as a new one. */
  ghost predicate IsNextNew(next: int, groups: seq<Group>, given: seq<seq<int>>, b: Spot, slot: int) {
    && next <= slot
    && (forall a, x | NewWith(groups, given, b, x, a) :: next <= x < slot)
    && (forall x | next <= x < slot :: TakenAsNew(groups, given, b, x))
  }

  /** The slot of the last item with the patch id, else of the last one with the title, else
      the ordinal, unless the version uses it already; else a new slot. */
  ghost predicate SlotMeans(next: int, groups: seq<Group>, given: seq<seq<int>>, b: Spot)
    requires Fits(groups, given) && InRange(groups, b)
  {
    var slot := SlotAt(groups, given, b);
    if CanRecall(groups, given, ByPatch, b) then Recalls(groups, given, ByPatch, b, slot)
    else if CanRecall(groups, given, ByTitle, b) then Recalls(groups, given, ByTitle, b, slot)
    else if OrdinalFree(groups, given, b) then slot == ItemAt(groups, b).ordinal
    else IsNextNew(next, groups, given, b, slot)
  }

  ghost predicate SlotsMean(next: int, groups: seq<Group>, given: seq<seq<int>>) {
    Fits(groups, given) && forall b | InRange(groups, b) :: SlotMeans(next, groups, given, b)
  }

  // ---- what is remembered ----

  ghost function AllSlots(next: int, groups: seq<Group>): (given: seq<seq<int>>)
    ensures Fits(groups, given)
  {
    seq(|groups|, g requires 0 <= g < |groups| => SlotsOf(Fresh(next), groups, g))
  }

  ghost predicate RemembersKey(groups: seq<Group>, given: seq<seq<int>>, kind: Kind, b: Spot, m: map<string, int>,
                               key: string)
    requires Fits(groups, given)
  {
    && (key in m ==> exists a :: LastWith(groups, kind, key, b, a))
    && (forall a | LastWith(groups, kind, key, b, a) :: key in m && m[key] == SlotAt(groups, given, a))
  }

  ghost predicate Remembers(groups: seq<Group>, given: seq<seq<int>>, kind: Kind, b: Spot, m: map<string, int>)
    requires Fits(groups, given)
  {
    forall key: string :: RemembersKey(groups, given, kind, b, m, key)
  }

  ghost predicate Knowing(next: int, groups: seq<Group>, given: seq<seq<int>>, b: Spot, s: Slots)
    requires Fits(groups, given)
  {
    && Remembers(groups, given, ByPatch, b, s.byPatch) && Remembers(groups, given, ByTitle, b, s.byTitle)
    && IsNextNew(next, groups, given, b, s.next)
  }

  lemma LastStays(groups: seq<Group>, kind: Kind, key: string, b: Spot, a: Spot)
    requires InRange(groups, b) && KeyOf(kind, ItemAt(groups, b)) != key
    ensures LastWith(groups, kind, key, Spot(b.g, b.k + 1), a) <==> LastWith(groups, kind, key, b, a)
  {
    forall c
      ensures HasKey(groups, kind, key, Spot(b.g, b.k + 1), c) <==> HasKey(groups, kind, key, b, c)
    {
    }
  }

  lemma LastIsNew(groups: seq<Group>, kind: Kind, key: string, b: Spot, a: Spot)
    requires InRange(groups, b) && KeyOf(kind, ItemAt(groups, b)) == key && key != ""
    ensures LastWith(groups, kind, key, Spot(b.g, b.k + 1), a) <==> a == b
  {
    assert HasKey(groups, kind, key, Spot(b.g, b.k + 1), b);
  }

  lemma RemembersStep(groups: seq<Group>, given: seq<seq<int>>, kind: Kind, b: Spot, m: map<string, int>)
    requires Fits(groups, given) && InRange(groups, b) && Remembers(groups, given, kind, b, m)
    ensures Remembers(groups, given, kind, Spot(b.g, b.k + 1),
                      Remember(m, KeyOf(kind, ItemAt(groups, b)), SlotAt(groups, given, b)))
  {
    hide RemembersKey, Remember;
    var after := Spot(b.g, b.k + 1);
    var own := KeyOf(kind, ItemAt(groups, b));
    forall key: string
      ensures RemembersKey(groups, given, kind, after, Remember(m, own, SlotAt(groups, given, b)), key)
    {
      if own == key && key != "" {
        RemembersOwn(groups, given, kind, b, m);
      } else {
        RemembersOther(groups, given, kind, b, m, key);
      }
    }
  }

  lemma RemembersOwn(groups: seq<Group>, given: seq<seq<int>>, kind: Kind, b: Spot, m: map<string, int>)
    requires Fits(groups, given) && InRange(groups, b) && KeyOf(kind, ItemAt(groups, b)) != ""
    ensures var own := KeyOf(kind, ItemAt(groups, b));
            RemembersKey(groups, given, kind, Spot(b.g, b.k + 1), Remember(m, own, SlotAt(groups, given, b)), own)
  {
    hide LastWith;
    var after := Spot(b.g, b.k + 1);
    var own := KeyOf(kind, ItemAt(groups, b));
    forall a
      ensures LastWith(groups, kind, own, after, a) <==> a == b
    {
      LastIsNew(groups, kind, own, b, a);
    }
    assert LastWith(groups, kind, own, after, b);
  }

  lemma RemembersOther(groups: seq<Group>, given: seq<seq<int>>, kind: Kind, b: Spot, m: map<string, int>, key: string)
    requires Fits(groups, given) && InRange(groups, b)
    requires KeyOf(kind, ItemAt(groups, b)) != key || key == ""
    requires RemembersKey(groups, given, kind, b, m, key)
    ensures RemembersKey(groups, given, kind, Spot(b.g, b.k + 1),
                         Remember(m, KeyOf(kind, ItemAt(groups, b)), SlotAt(groups, given, b)), key)
  {
    hide LastWith;
    var after := Spot(b.g, b.k + 1);
    EmptyKey(groups, kind, b);
    EmptyKey(groups, kind, after);
    forall a
      ensures LastWith(groups, kind, key, after, a) <==> LastWith(groups, kind, key, b, a)
    {
      if key != "" {
        LastStays(groups, kind, key, b, a);
      }
    }
  }

  lemma EmptyKey(groups: seq<Group>, kind: Kind, b: Spot)
    ensures forall a :: !LastWith(groups, kind, "", b, a)
  {
  }

  lemma LastWraps(groups: seq<Group>, kind: Kind, key: string, g: nat, a: Spot)
    requires g < |groups|
    ensures LastWith(groups, kind, key, Spot(g + 1, 0), a)
            <==> LastWith(groups, kind, key, Spot(g, |groups[g].items|), a)
  {
    forall c
      ensures HasKey(groups, kind, key, Spot(g + 1, 0), c)
              <==> HasKey(groups, kind, key, Spot(g, |groups[g].items|), c)
    {
    }
  }

  /** The end of a version is the beginning of the next one. */
  lemma RemembersWrap(groups: seq<Group>, given: seq<seq<int>>, kind: Kind, g: nat, m: map<string, int>)
    requires Fits(groups, given) && g < |groups|
    requires Remembers(groups, given, kind, Spot(g, |groups[g].items|), m)
    ensures Remembers(groups, given, kind, Spot(g + 1, 0), m)
  {
    hide LastWith;
    var start := Spot(g + 1, 0);
    var end := Spot(g, |groups[g].items|);
    forall key: string
      ensures RemembersKey(groups, given, kind, start, m, key)
    {
      assert RemembersKey(groups, given, kind, end, m, key);
      forall a
        ensures LastWith(groups, kind, key, start, a) <==> LastWith(groups, kind, key, end, a)
      {
        LastWraps(groups, kind, key, g, a);
      }
    }
  }

  lemma NewWraps(next: int, groups: seq<Group>, given: seq<seq<int>>, g: nat, n: int)
    requires Fits(groups, given) && g < |groups|
    requires IsNextNew(next, groups, given, Spot(g, |groups[g].items|), n)
    ensures IsNextNew(next, groups, given, Spot(g + 1, 0), n)
  {
    var end := Spot(g, |groups[g].items|);
    var start := Spot(g + 1, 0);
    hide IsNew;
    forall x, a
      ensures NewWith(groups, given, start, x, a)
              <==> NewWith(groups, given, end, x, a)
    {
      NewInRange(groups, given, a);
    }
    forall x | next <= x < n
      ensures TakenAsNew(groups, given, start, x)
    {
      assert TakenAsNew(groups, given, end, x);
      var a :| NewWith(groups, given, end, x, a);
      assert NewWith(groups, given, start, x, a);
    }
  }

  lemma NewInRange(groups: seq<Group>, given: seq<seq<int>>, a: Spot)
    ensures IsNew(groups, given, a) ==> InRange(groups, a)
  {
  }

  lemma NewStep(next: int, groups: seq<Group>, given: seq<seq<int>>, b: Spot, n: int)
    requires Fits(groups, given) && InRange(groups, b) && IsNextNew(next, groups, given, b, n)
    requires IsNew(groups, given, b) ==> SlotAt(groups, given, b) == n
    ensures IsNextNew(next, groups, given, Spot(b.g, b.k + 1), if IsNew(groups, given, b) then n + 1 else n)
  {
    var after := Spot(b.g, b.k + 1);
    hide IsNew;
    forall x, a
      ensures NewWith(groups, given, after, x, a)
              <==> NewWith(groups, given, b, x, a)
                   || (a == b && IsNew(groups, given, b) && x == SlotAt(groups, given, b))
    {
      NewInRange(groups, given, a);
    }
    forall x | next <= x < n || (x == n && IsNew(groups, given, b))
      ensures TakenAsNew(groups, given, after, x)
    {
      if x < n {
        assert TakenAsNew(groups, given, b, x);
        var a :| NewWith(groups, given, b, x, a);
        assert NewWith(groups, given, after, x, a);
      } else {
        assert NewWith(groups, given, after, x, b);
      }
    }
  }

  // ---- one item ----

  ghost predicate UsedIs(groups: seq<Group>, given: seq<seq<int>>, b: Spot, used: set<int>) {
    forall slot :: slot in used <==> UsedAt(groups, given, b, slot)
  }

  lemma OffersRecall(groups: seq<Group>, given: seq<seq<int>>, kind: Kind, b: Spot, m: map<string, int>,
                     used: set<int>)
    requires Fits(groups, given) && InRange(groups, b) && Remembers(groups, given, kind, b, m)
    requires UsedIs(groups, given, b, used)
    ensures var key := KeyOf(kind, ItemAt(groups, b));
            && (Offers(m, key, used) <==> CanRecall(groups, given, kind, b))
            && (Offers(m, key, used) ==> Recalls(groups, given, kind, b, m[key]))
  {
    hide LastWith, UsedAt;
    var key := KeyOf(kind, ItemAt(groups, b));
    EmptyKey(groups, kind, b);
    assert RemembersKey(groups, given, kind, b, m, key);
    if Offers(m, key, used) {
      var a :| LastWith(groups, kind, key, b, a);
      assert Recalls(groups, given, kind, b, m[key]);
    }
  }

  lemma ItemStep(next: int, groups: seq<Group>, given: seq<seq<int>>, b: Spot, s: Slots, used: set<int>)
    requires Fits(groups, given) && InRange(groups, b) && Knowing(next, groups, given, b, s)
    requires UsedIs(groups, given, b, used) && SlotAt(groups, given, b) == SlotFor(s, used, ItemAt(groups, b))
    ensures SlotMeans(next, groups, given, b)
    ensures Knowing(next, groups, given, Spot(b.g, b.k + 1), After(s, used, ItemAt(groups, b)))
  {
    hide Remembers, CanRecall, Recalls, IsNextNew;
    var item := ItemAt(groups, b);
    OffersRecall(groups, given, ByPatch, b, s.byPatch, used);
    OffersRecall(groups, given, ByTitle, b, s.byTitle, used);
    assert TakesNew(s, used, item) <==> IsNew(groups, given, b);
    NewStep(next, groups, given, b, s.next);
    RemembersStep(groups, given, ByPatch, b, s.byPatch);
    RemembersStep(groups, given, ByTitle, b, s.byTitle);
  }

  // ---- all items ----

  /** The slot of an item is the one chosen in the state before it. */
  lemma SlotOfItem(next: int, groups: seq<Group>, b: Spot)
    requires InRange(groups, b)
    ensures var given := AllSlots(next, groups);
            var p := Run(RunAll(Fresh(next), groups, b.g), groups[b.g].items, b.k);
            && SlotAt(groups, given, b) == SlotFor(p.slots, Used(p.given), ItemAt(groups, b))
            && UsedIs(groups, given, b, Used(p.given))
  {
    hide SlotFor, After;
    var s := RunAll(Fresh(next), groups, b.g);
    var items := groups[b.g].items;
    var p := Run(s, items, b.k);
    RunPrefix(s, items, b.k, |items|);
    RunPrefix(s, items, b.k + 1, |items|);
    var all := Run(s, items, |items|).given;
    assert AllSlots(next, groups)[b.g] == all;
    assert all[b.k] == all[..b.k + 1][b.k];
    forall slot
      ensures slot in Used(p.given) <==> UsedAt(groups, AllSlots(next, groups), b, slot)
    {
      assert forall k: nat | k < b.k :: p.given[k] == all[k];
      if slot in Used(p.given) {
        var k: nat :| k < |p.given| && p.given[k] == slot;
        assert UsedBy(groups, AllSlots(next, groups), b, slot, k);
      }
    }
  }

  lemma {:induction false} RunKnows(next: int, groups: seq<Group>, b: Spot)
    requires b.g < |groups| && b.k <= |groups[b.g].items|
    requires Knowing(next, groups, AllSlots(next, groups), Spot(b.g, 0), RunAll(Fresh(next), groups, b.g))
    ensures Knowing(next, groups, AllSlots(next, groups), b,
                    Run(RunAll(Fresh(next), groups, b.g), groups[b.g].items, b.k).slots)
    ensures forall k | 0 <= k < b.k :: SlotMeans(next, groups, AllSlots(next, groups), Spot(b.g, k))
    decreases b.k
  {
    hide Knowing, SlotMeans, SlotFor, After;
    if b.k > 0 {
      var a := Spot(b.g, b.k - 1);
      RunKnows(next, groups, a);
      SlotOfItem(next, groups, a);
      var p := Run(RunAll(Fresh(next), groups, b.g), groups[b.g].items, a.k);
      ItemStep(next, groups, AllSlots(next, groups), a, p.slots, Used(p.given));
    }
  }

  lemma NothingKnown(next: int, groups: seq<Group>)
    ensures Knowing(next, groups, AllSlots(next, groups), Spot(0, 0), Fresh(next))
  {
  }

  lemma {:induction false} RunAllKnows(next: int, groups: seq<Group>, g: nat)
    requires g <= |groups|
    ensures Knowing(next, groups, AllSlots(next, groups), Spot(g, 0), RunAll(Fresh(next), groups, g))
    ensures forall b: Spot | b.g < g && InRange(groups, b) :: SlotMeans(next, groups, AllSlots(next, groups), b)
  {
    hide SlotMeans, Remembers, IsNextNew, Run;
    if g == 0 {
      NothingKnown(next, groups);
    } else {
      RunAllKnows(next, groups, g - 1);
      var end := Spot(g - 1, |groups[g - 1].items|);
      RunKnows(next, groups, end);
      var s := RunAll(Fresh(next), groups, g);
      RemembersWrap(groups, AllSlots(next, groups), ByPatch, g - 1, s.byPatch);
      RemembersWrap(groups, AllSlots(next, groups), ByTitle, g - 1, s.byTitle);
      NewWraps(next, groups, AllSlots(next, groups), g - 1, s.next);
      assert forall b: Spot | b.g == g - 1 :: b == Spot(g - 1, b.k);
    }
  }

  /** One mapping gives every item its slot as told from the items. */
  lemma SlotsAreRight(next: int, groups: seq<Group>)
    ensures SlotsMean(next, groups, AllSlots(next, groups))
  {
    RunAllKnows(next, groups, |groups|);
  }
}
