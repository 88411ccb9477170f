/** The items of a candidate version: at most one per ordinal, every patch with a positive
    ordinal and a total that covers all of them. */
module LineageItems {
  import opened Sorting
  import opened Wrappers

  datatype ItemType = Cover | Patch

  datatype Item = Item(
    messagePk: int, threadOrder: nat, ordinal: Option<int>, total: Option<int>, itemType: ItemType, hasDiff: bool)

  // ---- deduplication ----

  datatype Rank = Rank(notPatch: nat, noDiff: nat, threadOrder: nat, messagePk: int)

  function RankOf(i: Item): Rank {
    Rank(if i.itemType == Patch then 0 else 1, if i.hasDiff then 0 else 1, i.threadOrder, i.messagePk)
  }

  predicate RankLess(a: Rank, b: Rank) {
    if a.notPatch != b.notPatch then a.notPatch < b.notPatch
    else if a.noDiff != b.noDiff then a.noDiff < b.noDiff
    else if a.threadOrder != b.threadOrder then a.threadOrder < b.threadOrder
    else a.messagePk < b.messagePk
  }

  /** `is_better_candidate_item` */
  predicate Better(candidate: Item, existing: Item) {
    RankLess(RankOf(candidate), RankOf(existing))
  }

  /** One item for every ordinal that occurs, and none of that ordinal is better. */
  ghost predicate BestByOrdinal(items: seq<Item>, best: map<int, Item>) {
    && (forall i | i in items && i.ordinal.Some? :: i.ordinal.value in best && !Better(i, best[i.ordinal.value]))
    && (forall o | o in best :: best[o] in items && best[o].ordinal == Some(o))
  }

  ghost predicate OrdinalsIncrease(items: seq<Item>) {
    && (forall i | 0 <= i < |items| :: items[i].ordinal.Some?)
    && (forall i, j | 0 <= i < j < |items| :: items[i].ordinal.value < items[j].ordinal.value)
  }

  method KeepBest(items: seq<Item>) returns (best: map<int, Item>)
    ensures BestByOrdinal(items, best)
  {
    best := map[];
    for n := 0 to |items|
      invariant BestByOrdinal(items[..n], best)
    {
      assert items[..n + 1] == items[..n] + [items[n]];
      if items[n].ordinal.Some? {
        var o := items[n].ordinal.value;
        if o !in best || Better(items[n], best[o]) {
          best := best[o := items[n]];
        }
      }
    }
    assert items[..|items|] == items;
  }

  /** The values of an ordered map, in the order of its keys. */
  method InKeyOrder(best: map<int, Item>) returns (sorted: seq<Item>)
    requires forall o | o in best :: best[o].ordinal == Some(o)
    ensures OrdinalsIncrease(sorted)
    ensures forall i :: i in sorted <==> i.ordinal.Some? && i.ordinal.value in best && best[i.ordinal.value] == i
  {
    sorted := [];
    var rest := best.Keys;
    while rest != {}
      invariant rest <= best.Keys && OrdinalsIncrease(sorted)
      invariant forall i | i in sorted ::
                  i.ordinal.Some? && i.ordinal.value in best.Keys - rest && best[i.ordinal.value] == i
      invariant forall o | o in best && o !in rest :: best[o] in sorted
      invariant forall i, o | i in sorted && o in rest :: i.ordinal.value < o
      decreases rest
    {
      var least := Least(rest);
      assert forall i | 0 <= i < |sorted| :: sorted[i] in sorted;
      sorted := sorted + [best[least]];
      rest := rest - {least};
    }
    forall i: Item | i.ordinal.Some? && i.ordinal.value in best && best[i.ordinal.value] == i
      ensures i in sorted
    {
      var o := i.ordinal.value;
      assert o !in rest;
      assert best[o] in sorted;
    }
  }

  method Least(s: set<int>) returns (least: int)
    requires s != {}
    ensures least in s && forall x | x in s :: least <= x
  {
    ghost var any := AnyOf(s);
    least :| least in s;
    var rest := s;
    while rest != {}
      invariant rest <= s && least in s
      invariant forall x | x in s && x !in rest :: least <= x
      decreases rest
    {
      ghost var other := AnyOf(rest);
      var x :| x in rest;
      if x < least {
        least := x;
      }
      rest := rest - {x};
    }
  }

  /** A patch before any other item, then one with a diff, then the earlier one in the thread,
      then the lower row. */
  ghost predicate Preferred(a: Item, b: Item) {
    if a.itemType.Patch? != b.itemType.Patch? then a.itemType.Patch?
    else if a.hasDiff != b.hasDiff then a.hasDiff
    else a.threadOrder < b.threadOrder || (a.threadOrder == b.threadOrder && a.messagePk <= b.messagePk)
  }

  /** Every ordinal keeps its preferred item. */
  ghost predicate KeepsPreferred(items: seq<Item>, deduped: seq<Item>) {
    && (forall d | d in deduped :: d in items)
    && (forall i | i in items && i.ordinal.Some? :: KeepsFor(deduped, i))
  }

  ghost predicate KeepsFor(deduped: seq<Item>, i: Item) {
    exists d :: d in deduped && d.ordinal == i.ordinal && Preferred(d, i)
  }

  /** `dedupe_items_by_ordinal` */
  method DedupeItems(items: seq<Item>) returns (deduped: seq<Item>)
    ensures OrdinalsIncrease(deduped) && KeepsPreferred(items, deduped)
    ensures exists best :: BestByOrdinal(items, best) &&
              forall i :: i in deduped <==> i.ordinal.Some? && i.ordinal.value in best && best[i.ordinal.value] == i
  {
    var best := KeepBest(items);
    deduped := InKeyOrder(best);
    forall i | i in items && i.ordinal.Some?
      ensures KeepsFor(deduped, i)
    {
      assert best[i.ordinal.value] in deduped && Preferred(best[i.ordinal.value], i);
    }
  }

  // ---- ordinals and totals ----

  predicate NeedsOrdinal(i: Item) {
    i.itemType == Patch && (i.ordinal == None || i.ordinal == Some(0))
  }

  /** What the assignment pass makes of one item; `given` is used if it needs an ordinal. */
  function WithOrdinal(i: Item, given: int): Item {
    if NeedsOrdinal(i) then i.(ordinal := Some(given))
    else if i.itemType == Cover && i.ordinal == None then i.(ordinal := Some(0))
    else i
  }

  predicate PositiveAt(items: seq<Item>, o: int) {
    o > 0 && exists i :: 0 <= i < |items| && items[i].ordinal == Some(o)
  }

  predicate GivenAt(items: seq<Item>, n: nat, given: seq<int>, o: int)
    requires n <= |items| && n <= |given|
  {
    exists i :: 0 <= i < n && NeedsOrdinal(items[i]) && given[i] == o
  }

  /** Every lower ordinal was used when the `i`th item got its own. */
  ghost predicate LeavesNoGap(items: seq<Item>, i: nat, given: seq<int>)
    requires i < |items| && i < |given|
  {
    forall o | 1 <= o < given[i] :: PositiveAt(items, o) || GivenAt(items, i, given, o)
  }

  /** The ordinals of the patches after the pass: none changes but those that are missing or
      zero, and these get distinct positive ones, each the least that nothing else has. */
  ghost predicate Assigned(items: seq<Item>, n: nat, given: seq<int>)
    requires n <= |items|
  {
    && |given| == n
    && (forall i | 0 <= i < n && NeedsOrdinal(items[i]) :: given[i] > 0 && !PositiveAt(items, given[i]))
    && (forall i, j | 0 <= i < j < n && NeedsOrdinal(items[i]) && NeedsOrdinal(items[j]) :: given[i] < given[j])
    && (forall i | 0 <= i < n && NeedsOrdinal(items[i]) :: LeavesNoGap(items, i, given))
  }

  function Max(a: int, b: int): int {
    if a < b then b else a
  }

  /** The greatest ordinal of a patch, or zero. */
  function GreatestOrdinal(items: seq<Item>, n: nat): int
    requires n <= |items|
  {
    if n == 0 then 0
    else
      var rest := GreatestOrdinal(items, n - 1);
      if items[n - 1].itemType == Patch && items[n - 1].ordinal.Some? then
        (if HasPatchOrdinal(items, n - 1) then Max(rest, items[n - 1].ordinal.value) else items[n - 1].ordinal.value)
      else rest
  }

  predicate HasPatchOrdinal(items: seq<Item>, n: nat)
    requires n <= |items|
  {
    exists i :: 0 <= i < n && items[i].itemType == Patch && items[i].ordinal.Some?
  }

  lemma {:induction false} GreatestIsGreatestOrdinal(items: seq<Item>, n: nat, i: nat)
    requires i < n <= |items| && items[i].itemType == Patch && items[i].ordinal.Some?
    ensures items[i].ordinal.value <= GreatestOrdinal(items, n)
  {
    if i < n - 1 {
      GreatestIsGreatestOrdinal(items, n - 1, i);
    }
  }

  function WithTotal(i: Item, inferred: int): Item {
    if i.itemType == Patch then i.(total := Some(Max(i.total.GetOr(inferred), inferred))) else i
  }

  function WithOrdinals(items: seq<Item>, given: seq<int>): (r: seq<Item>)
    requires |given| == |items|
    ensures |r| == |items|
  {
    seq(|items|, i requires 0 <= i < |items| => WithOrdinal(items[i], given[i]))
  }

  function WithTotals(items: seq<Item>, inferred: int): (r: seq<Item>)
    ensures |r| == |items|
  {
    seq(|items|, i requires 0 <= i < |items| => WithTotal(items[i], inferred))
  }

  /** The array after the whole of `normalize_item_ordinals`. */
  ghost predicate Normalized(before: seq<Item>, after: seq<Item>) {
    exists given :: Assigned(before, |before|, given)
      && (var named := WithOrdinals(before, given);
          after == WithTotals(named, GreatestOrdinal(named, |named|)))
  }

  /** The first ordinal from `from` on that is not used. */
  method NextFree(used: set<int>, from: int) returns (free: int)
    ensures free >= from && free !in used && forall o | from <= o < free :: o in used
  {
    free := from;
    var ahead := set o | o in used && o >= free;
    while free in used
      invariant free >= from && forall o | from <= o < free :: o in used
      invariant ahead == set o | o in used && o >= free
      decreases ahead
    {
      ahead := ahead - {free};
      free := free + 1;
    }
  }

  lemma GapsStayClosed(items: seq<Item>, n: nat, given: seq<int>, x: int, i: nat)
    requires n < |items| && |given| == n && i < n && LeavesNoGap(items, i, given)
    ensures LeavesNoGap(items, i, given + [x])
  {
    forall o | 1 <= o < given[i]
      ensures PositiveAt(items, o) || GivenAt(items, i, given + [x], o)
    {
      if GivenAt(items, i, given, o) {
        var j :| 0 <= j < i && NeedsOrdinal(items[j]) && given[j] == o;
        assert (given + [x])[j] == o;
      }
    }
  }

  lemma AssignedStep(items: seq<Item>, n: nat, given: seq<int>, x: int)
    requires n < |items| && Assigned(items, n, given)
    requires NeedsOrdinal(items[n]) ==> x > 0 && !PositiveAt(items, x)
    requires NeedsOrdinal(items[n]) ==> forall i | 0 <= i < n && NeedsOrdinal(items[i]) :: given[i] < x
    requires NeedsOrdinal(items[n]) ==> forall o | 1 <= o < x :: PositiveAt(items, o) || GivenAt(items, n, given, o)
    ensures Assigned(items, n + 1, given + [x])
  {
    var more := given + [x];
    forall i | 0 <= i < n + 1 && NeedsOrdinal(items[i])
      ensures LeavesNoGap(items, i, more)
    {
      if i < n {
        GapsStayClosed(items, n, given, x, i);
      } else {
        forall o | 1 <= o < x
          ensures PositiveAt(items, o) || GivenAt(items, n, more, o)
        {
          if GivenAt(items, n, given, o) {
            var j :| 0 <= j < n && NeedsOrdinal(items[j]) && given[j] == o;
            assert more[j] == o;
          }
        }
      }
    }
  }

  ghost predicate UsedUp(items: seq<Item>, n: nat, given: seq<int>, used: set<int>, next: int)
    requires n <= |items|
  {
    && Assigned(items, n, given) && next >= 1
    && (forall o :: o in used <==> PositiveAt(items, o) || GivenAt(items, n, given, o))
    && (forall i | 0 <= i < n && NeedsOrdinal(items[i]) :: given[i] < next)
    && (forall o | 1 <= o < next :: o in used)
  }

  lemma GivenSnoc(items: seq<Item>, n: nat, given: seq<int>, x: int, o: int)
    requires n < |items| && |given| == n
    ensures GivenAt(items, n + 1, given + [x], o)
            <==> GivenAt(items, n, given, o) || (NeedsOrdinal(items[n]) && o == x)
  {
    var more := given + [x];
    assert more[n] == x;
    if GivenAt(items, n, given, o) {
      var j :| 0 <= j < n && NeedsOrdinal(items[j]) && given[j] == o;
      assert more[j] == o;
    }
  }

  lemma UsedUpStep(items: seq<Item>, n: nat, given: seq<int>, used: set<int>, next: int, x: int)
    requires n < |items| && UsedUp(items, n, given, used, next)
    requires NeedsOrdinal(items[n]) ==> x >= next && x !in used && forall o | next <= o < x :: o in used
    ensures if NeedsOrdinal(items[n]) then UsedUp(items, n + 1, given + [x], used + {x}, x + 1)
            else UsedUp(items, n + 1, given + [x], used, next)
  {
    AssignedStep(items, n, given, x);
    forall o
      ensures GivenAt(items, n + 1, given + [x], o)
              <==> GivenAt(items, n, given, o) || (NeedsOrdinal(items[n]) && o == x)
    {
      GivenSnoc(items, n, given, x, o);
    }
  }

  /** The pass at one item, which takes the next free ordinal if it needs one. */
  method AssignOne(ghost items: seq<Item>, ghost n: nat, ghost given: seq<int>, item: Item, used: set<int>, next: int)
      returns (changed: Item, usedNow: set<int>, nextNow: int, ghost x: int)
    requires n < |items| && items[n] == item && UsedUp(items, n, given, used, next)
    ensures UsedUp(items, n + 1, given + [x], usedNow, nextNow) && changed == WithOrdinal(item, x)
  {
    changed, usedNow, nextNow, x := item, used, next, 0;
    if item.itemType != Patch {
      if item.itemType == Cover && item.ordinal.None? {
        changed := item.(ordinal := Some(0));
      }
    } else if item.ordinal == None || item.ordinal == Some(0) {
      var free := NextFree(used, next);
      changed, usedNow, nextNow, x := item.(ordinal := Some(free)), used + {free}, free + 1, free;
    }
    UsedUpStep(items, n, given, used, next, x);
  }

  lemma NothingGiven(items: seq<Item>, used: set<int>)
    requires forall o :: o in used <==> PositiveAt(items, o)
    ensures UsedUp(items, 0, [], used, 1)
  {
  }

  /** The first `n` items have their ordinals; the others are as they were. */
  ghost predicate Rewritten(before: seq<Item>, now: seq<Item>, given: seq<int>, n: nat) {
    && n <= |before| == |now| && |given| == n
    && (forall i | 0 <= i < n :: now[i] == WithOrdinal(before[i], given[i]))
    && (forall i | n <= i < |now| :: now[i] == before[i])
  }

  lemma RewrittenStep(before: seq<Item>, now: seq<Item>, given: seq<int>, n: nat, x: int)
    requires Rewritten(before, now, given, n) && n < |now|
    ensures Rewritten(before, now[n := WithOrdinal(before[n], x)], given + [x], n + 1)
  {
  }

  method AssignOrdinals(a: array<Item>) returns (ghost given: seq<int>)
    modifies a
    ensures Assigned(old(a[..]), a.Length, given) && a[..] == WithOrdinals(old(a[..]), given)
  {
    ghost var before := a[..];
    var used := set i | 0 <= i < a.Length && a[i].ordinal.Some? && a[i].ordinal.value > 0 :: a[i].ordinal.value;
    var next := 1;
    given := [];
    NothingGiven(before, used);
    for n := 0 to a.Length
      invariant UsedUp(before, n, given, used, next)
      invariant Rewritten(before, a[..], given, n)
    {
      ghost var now := a[..];
      ghost var x;
      RewrittenAt(before, now, given, n);
      a[n], used, next, x := AssignOne(before, n, given, a[n], used, next);
      RewrittenStep(before, now, given, n, x);
      assert a[..] == now[n := WithOrdinal(before[n], x)];
      given := given + [x];
    }
  }

  lemma RewrittenAt(before: seq<Item>, now: seq<Item>, given: seq<int>, n: nat)
    requires Rewritten(before, now, given, n) && n < |now|
    ensures now[n] == before[n]
  {
  }

  method RaiseTotals(a: array<Item>)
    modifies a
    ensures a[..] == WithTotals(old(a[..]), GreatestOrdinal(old(a[..]), a.Length))
  {
    ghost var before := a[..];
    var inferred := GreatestOrdinal(a[..], a.Length);
    for n := 0 to a.Length
      invariant forall i | 0 <= i < n :: a[i] == WithTotal(before[i], inferred)
      invariant forall i | n <= i < a.Length :: a[i] == before[i]
    {
      if a[n].itemType == Patch {
        a[n] := a[n].(total := Some(Max(a[n].total.GetOr(inferred), inferred)));
      }
    }
  }

  method NormalizeItemOrdinals(a: array<Item>)
    modifies a
    ensures Normalized(old(a[..]), a[..]) && IsNormalForm(old(a[..]), a[..])
  {
    ghost var given := AssignOrdinals(a);
    RaiseTotals(a);
    NormalizedMeans(old(a[..]), a[..]);
  }

  // ---- the normal form, item by item ----

  ghost predicate LacksOrdinal(i: Item) {
    i.itemType.Patch? && (i.ordinal.None? || i.ordinal.value == 0)
  }

  /** A patch that lacks its ordinal gets the least positive one that no item had and that no
      patch before it got. */
  ghost predicate GotLeast(before: seq<Item>, after: seq<Item>, i: nat)
    requires i < |before| == |after|
  {
    && after[i].ordinal.Some? && after[i].ordinal.value >= 1
    && (forall j | 0 <= j < |before| :: before[j].ordinal != after[i].ordinal)
    && (forall j | 0 <= j < i && LacksOrdinal(before[j]) :: after[j].ordinal != after[i].ordinal)
    && (forall o | 1 <= o < after[i].ordinal.value :: IsUsed(before, after, i, o))
  }

  ghost predicate IsUsed(before: seq<Item>, after: seq<Item>, i: nat, o: int)
    requires i < |before| == |after|
  {
    || (exists j :: 0 <= j < |before| && before[j].ordinal == Some(o))
    || (exists j :: 0 <= j < i && LacksOrdinal(before[j]) && after[j].ordinal == Some(o))
  }

  /** Covers are numbered zero unless they have a number; what a patch has is kept. */
  ghost predicate OrdinalIsNormal(before: seq<Item>, after: seq<Item>, i: nat)
    requires i < |before| == |after|
  {
    if LacksOrdinal(before[i]) then GotLeast(before, after, i)
    else if before[i].itemType.Cover? && before[i].ordinal.None? then after[i].ordinal == Some(0)
    else after[i].ordinal == before[i].ordinal
  }

  /** `g` is the greatest ordinal of a patch, and zero if there is no patch. */
  ghost predicate IsGreatestOrdinal(items: seq<Item>, g: int) {
    && (forall i | 0 <= i < |items| && items[i].itemType.Patch? ::
         items[i].ordinal.Some? && items[i].ordinal.value <= g)
    && ((g == 0 && forall i | 0 <= i < |items| :: items[i].itemType.Cover?)
        || exists i :: 0 <= i < |items| && items[i].itemType.Patch? && items[i].ordinal == Some(g))
  }

  ghost predicate TotalIsNormal(before: Item, after: Item, g: int) {
    if before.itemType.Cover? then after.total == before.total
    else if before.total.Some? && before.total.value > g then after.total == before.total
    else after.total == Some(g)
  }

  ghost predicate SameOtherwise(before: Item, after: Item) {
    && after.messagePk == before.messagePk && after.threadOrder == before.threadOrder
    && after.itemType == before.itemType && after.hasDiff == before.hasDiff
  }

  ghost predicate IsNormalForm(before: seq<Item>, after: seq<Item>) {
    && |after| == |before|
    && (forall i | 0 <= i < |before| :: SameOtherwise(before[i], after[i]) && OrdinalIsNormal(before, after, i))
    && exists g :: IsGreatestOrdinal(after, g) && forall i | 0 <= i < |before| :: TotalIsNormal(before[i], after[i], g)
  }

  lemma {:induction false} GreatestIsAmong(items: seq<Item>, n: nat)
    requires n <= |items| && HasPatchOrdinal(items, n)
    ensures exists i :: 0 <= i < n && items[i].itemType.Patch? && items[i].ordinal == Some(GreatestOrdinal(items, n))
  {
    if HasPatchOrdinal(items, n - 1) {
      GreatestIsAmong(items, n - 1);
    }
  }

  lemma {:induction false} NoGreatest(items: seq<Item>, n: nat)
    requires n <= |items| && !HasPatchOrdinal(items, n)
    ensures GreatestOrdinal(items, n) == 0
  {
    if n > 0 {
      assert !HasPatchOrdinal(items, n - 1);
      NoGreatest(items, n - 1);
    }
  }

  /** The items as the two passes leave them. */
  ghost predicate Passed(before: seq<Item>, after: seq<Item>, given: seq<int>, g: int) {
    && Assigned(before, |before|, given) && |after| == |before| == |given|
    && (forall i | 0 <= i < |before| :: after[i] == WithTotal(WithOrdinal(before[i], given[i]), g))
  }

  lemma GreatestIsOrdinal(named: seq<Item>)
    requires forall i | 0 <= i < |named| && named[i].itemType.Patch? :: named[i].ordinal.Some?
    ensures IsGreatestOrdinal(named, GreatestOrdinal(named, |named|))
  {
    forall i | 0 <= i < |named| && named[i].itemType.Patch?
      ensures named[i].ordinal.value <= GreatestOrdinal(named, |named|)
    {
      GreatestIsGreatestOrdinal(named, |named|, i);
    }
    if HasPatchOrdinal(named, |named|) {
      GreatestIsAmong(named, |named|);
    } else {
      NoGreatest(named, |named|);
    }
  }

  lemma TotalsKeepGreatest(named: seq<Item>, g: int, raised: int)
    requires IsGreatestOrdinal(named, g)
    ensures IsGreatestOrdinal(WithTotals(named, raised), g)
  {
    var after := WithTotals(named, raised);
    assert forall i | 0 <= i < |named| ::
        after[i].itemType == named[i].itemType && after[i].ordinal == named[i].ordinal;
  }

  lemma PassedGreatest(before: seq<Item>, after: seq<Item>) returns (given: seq<int>, g: int)
    requires Normalized(before, after)
    ensures Passed(before, after, given, g) && IsGreatestOrdinal(after, g)
  {
    given :| Assigned(before, |before|, given) && (var named := WithOrdinals(before, given);
      after == WithTotals(named, GreatestOrdinal(named, |named|)));
    hide Assigned, IsGreatestOrdinal, GreatestOrdinal;
    var named := WithOrdinals(before, given);
    g := GreatestOrdinal(named, |named|);
    GreatestIsOrdinal(named);
    TotalsKeepGreatest(named, g, g);
  }

  lemma PassedGotLeast(before: seq<Item>, after: seq<Item>, given: seq<int>, g: int, i: nat)
    requires Passed(before, after, given, g) && i < |before| && LacksOrdinal(before[i])
    ensures GotLeast(before, after, i)
  {
    hide Assigned, LeavesNoGap;
    GivenIsFree(before, given, i);
    forall o | 1 <= o < after[i].ordinal.value
      ensures IsUsed(before, after, i, o)
    {
      GapIsUsed(before, given, i, o);
      if !PositiveAt(before, o) {
        var j :| 0 <= j < i && NeedsOrdinal(before[j]) && given[j] == o;
        assert after[j].ordinal == Some(o);
      }
    }
  }

  lemma GivenIsFree(items: seq<Item>, given: seq<int>, i: nat)
    requires Assigned(items, |items|, given) && i < |items| && NeedsOrdinal(items[i])
    ensures given[i] >= 1 && !PositiveAt(items, given[i])
    ensures forall j | 0 <= j < i && NeedsOrdinal(items[j]) :: given[j] != given[i]
  {
  }

  lemma GapIsUsed(items: seq<Item>, given: seq<int>, i: nat, o: int)
    requires Assigned(items, |items|, given) && i < |items| && NeedsOrdinal(items[i]) && 1 <= o < given[i]
    ensures PositiveAt(items, o) || GivenAt(items, i, given, o)
  {
    assert LeavesNoGap(items, i, given);
  }

  lemma PassedItem(before: seq<Item>, after: seq<Item>, given: seq<int>, g: int, i: nat)
    requires Passed(before, after, given, g) && i < |before|
    ensures SameOtherwise(before[i], after[i]) && OrdinalIsNormal(before, after, i)
    ensures TotalIsNormal(before[i], after[i], g)
  {
    hide Assigned, GotLeast;
    if LacksOrdinal(before[i]) {
      PassedGotLeast(before, after, given, g, i);
    }
  }

  lemma NormalizedMeans(before: seq<Item>, after: seq<Item>)
    requires Normalized(before, after)
    ensures IsNormalForm(before, after)
  {
    hide Assigned, OrdinalIsNormal, SameOtherwise, TotalIsNormal, IsGreatestOrdinal;
    var given, g := PassedGreatest(before, after);
    forall i | 0 <= i < |before|
      ensures SameOtherwise(before[i], after[i]) && OrdinalIsNormal(before, after, i)
      ensures TotalIsNormal(before[i], after[i], g)
    {
      PassedItem(before, after, given, g, i);
    }
  }

  // ---- what the rest of the lineage relies on ----

  ghost predicate PatchOrdinalsDistinct(items: seq<Item>) {
    forall i, j | 0 <= i < j < |items| && items[i].itemType == Patch && items[j].itemType == Patch
                  && items[i].ordinal.Some? && items[i].ordinal != Some(0) ::
      items[i].ordinal != items[j].ordinal
  }

  /** Every patch total is at least every patch ordinal. */
  ghost predicate TotalsCover(items: seq<Item>) {
    forall i, j | 0 <= i < |items| && 0 <= j < |items| && items[i].itemType == Patch && items[j].itemType == Patch ::
      items[i].total.Some? && items[j].ordinal.Some? && items[j].ordinal.value <= items[i].total.value
  }

  lemma NormalizedTotalsCover(before: seq<Item>, after: seq<Item>)
    requires Normalized(before, after)
    ensures TotalsCover(after)
  {
    var given :| Assigned(before, |before|, given) && (var named := WithOrdinals(before, given);
      after == WithTotals(named, GreatestOrdinal(named, |named|)));
    var named := WithOrdinals(before, given);
    forall i, j | 0 <= i < |after| && 0 <= j < |after| && after[i].itemType == Patch && after[j].itemType == Patch
      ensures after[i].total.Some? && after[j].ordinal.Some? && after[j].ordinal.value <= after[i].total.value
    {
      assert after[j] == WithTotal(named[j], GreatestOrdinal(named, |named|));
      assert named[j] == WithOrdinal(before[j], given[j]);
      GreatestIsGreatestOrdinal(named, |named|, j);
    }
  }

  lemma NormalizedKeepsDistinct(before: seq<Item>, after: seq<Item>)
    requires Normalized(before, after) && PatchOrdinalsDistinct(before)
    requires forall i | 0 <= i < |before| && before[i].ordinal.Some? :: before[i].ordinal.value >= 0
    ensures PatchOrdinalsDistinct(after)
    ensures forall i | 0 <= i < |after| && after[i].itemType == Patch
      :: after[i].ordinal.Some? && after[i].ordinal.value >= 1
  {
    var given :| Assigned(before, |before|, given) && (var named := WithOrdinals(before, given);
      after == WithTotals(named, GreatestOrdinal(named, |named|)));
    forall i | 0 <= i < |after|
      ensures after[i].itemType == before[i].itemType && after[i].ordinal == WithOrdinal(before[i], given[i]).ordinal
    {
      assert after[i] == WithTotal(WithOrdinals(before, given)[i],
        GreatestOrdinal(WithOrdinals(before, given), |before|));
    }
    forall i, j | 0 <= i < j < |after| && after[i].itemType == Patch && after[j].itemType == Patch
      ensures after[i].ordinal != after[j].ordinal
    {
      AssignedApart(before, given, i, j);
    }
    forall i | 0 <= i < |after| && after[i].itemType == Patch
      ensures after[i].ordinal.Some? && after[i].ordinal.value >= 1
    {
      assert NeedsOrdinal(before[i]) ==> given[i] > 0;
    }
  }

  lemma AssignedApart(items: seq<Item>, given: seq<int>, i: nat, j: nat)
    requires Assigned(items, |items|, given) && PatchOrdinalsDistinct(items) && i < j < |items|
    requires items[i].itemType == Patch && items[j].itemType == Patch
    requires items[i].ordinal.Some? ==> items[i].ordinal.value >= 0
    requires items[j].ordinal.Some? ==> items[j].ordinal.value >= 0
    ensures WithOrdinal(items[i], given[i]).ordinal != WithOrdinal(items[j], given[j]).ordinal
  {
    assert !NeedsOrdinal(items[i]) ==> PositiveAt(items, items[i].ordinal.value);
    assert !NeedsOrdinal(items[j]) ==> PositiveAt(items, items[j].ordinal.value);
  }
}
