/** Versions of a series arrive one by one, and after each one the mapping of the whole series
    is computed again, with new slots above all slots that were ever stored. */
module LogicalRuns {
  import opened LogicalSlots
  import opened Sorting

  // ---- one version after settled ones ----

  ghost predicate UsedOrBelow(m: map<string, int>, used: set<int>, next: int) {
    forall k | k in m :: m[k] in used || m[k] < next
  }

  /** Within a version whose last ordinal was `last`. */
  ghost predicate Ordered(p: Progress, last: int) {
    && p.slots.next >= 1
    && NoDuplicates(p.given)
    && (forall u | u in Used(p.given) :: u < p.slots.next || u <= last)
    && UsedOrBelow(p.slots.byPatch, Used(p.given), p.slots.next)
    && UsedOrBelow(p.slots.byTitle, Used(p.given), p.slots.next)
  }

  /** The fallback is new: an ordinal is blocked only by a remembered slot, and that one lies
      below the next new slot. */
  lemma SlotIsUnused(p: Progress, last: int, i: Item)
    requires Ordered(p, last) && last < i.ordinal
    ensures SlotFor(p.slots, Used(p.given), i) !in Used(p.given)
  {
  }

  lemma OrderedStep(p: Progress, last: int, i: Item)
    requires Ordered(p, last) && last < i.ordinal
    ensures Ordered(Next(p, i), i.ordinal)
  {
    var slot := SlotFor(p.slots, Used(p.given), i);
    SlotIsUnused(p, last, i);
    UsedSnoc(p.given, slot);
    assert forall k | 0 <= k < |p.given| :: p.given[k] in Used(p.given);
  }

  lemma {:induction false} RunOrdered(s: Slots, items: seq<Item>, n: nat)
    requires n <= |items| && Written(items) && Below(s) && s.next >= 1
    ensures Ordered(Run(s, items, n), if n == 0 then -1 else items[n - 1].ordinal)
  {
    if n > 0 {
      RunOrdered(s, items, n - 1);
      OrderedStep(Run(s, items, n - 1), if n == 1 then -1 else items[n - 2].ordinal, items[n - 1]);
    }
  }

  /** The first version of a series always gets distinct slots. */
  lemma LoneVersionDistinct(next: int, g: Group)
    requires next >= 1 && Written(g.items)
    ensures DistinctWithin(next, [g])
  {
    RunOrdered(Fresh(next), g.items, |g.items|);
  }

  // ---- settled versions ----

  /** The item gets a slot by patch id or by title. */
  predicate Recalled(p: Progress, i: Item) {
    Offers(p.slots.byPatch, i.patchId, Used(p.given)) || Offers(p.slots.byTitle, i.title, Used(p.given))
  }

  /** No item gets a slot of `limit` or more by its ordinal. */
  ghost predicate Settled(s: Slots, items: seq<Item>, limit: int) {
    forall i | 0 <= i < |items| && items[i].ordinal >= limit :: Recalled(Run(s, items, i), items[i])
  }

  /** In a mapping that starts at `next`, the first `n` versions are settled. */
  ghost predicate AllSettled(next: int, groups: seq<Group>, n: nat)
    requires n <= |groups|
  {
    n == 0
    || (AllSettled(next, groups, n - 1) && Settled(RunAll(Fresh(next), groups, n - 1), groups[n - 1].items, next))
  }

  lemma {:induction false} EarlierSettled(next: int, groups: seq<Group>, n: nat, g: nat)
    requires g <= n <= |groups| && AllSettled(next, groups, n)
    ensures AllSettled(next, groups, g)
  {
    if g < n {
      EarlierSettled(next, groups, n - 1, g);
    }
  }

  lemma NextBelow(p: Progress, i: Item, limit: int)
    requires Below(p.slots) && limit <= p.slots.next && (i.ordinal >= limit ==> Recalled(p, i))
    ensures Below(Next(p, i).slots) && p.slots.next <= Next(p, i).slots.next
  {
  }

  lemma {:induction false} RunStaysBelow(s: Slots, items: seq<Item>, n: nat, limit: int)
    requires n <= |items| && Below(s) && Settled(s, items, limit) && limit <= s.next
    ensures Below(Run(s, items, n).slots) && s.next <= Run(s, items, n).slots.next
  {
    if n > 0 {
      RunStaysBelow(s, items, n - 1, limit);
      NextBelow(Run(s, items, n - 1), items[n - 1], limit);
    }
  }

  lemma {:induction false} SettledBelow(next: int, groups: seq<Group>, n: nat)
    requires n <= |groups| && AllSettled(next, groups, n)
    ensures Below(RunAll(Fresh(next), groups, n)) && next <= RunAll(Fresh(next), groups, n).next
  {
    if n > 0 {
      var s, items := RunAll(Fresh(next), groups, n - 1), groups[n - 1].items;
      SettledBelow(next, groups, n - 1);
      RunStaysBelow(s, items, |items|, next);
    }
  }

  /** After settled versions every version gets distinct slots. */
  lemma SettledDistinct(next: int, groups: seq<Group>, n: nat)
    requires next >= 1 && |groups| == n + 1 && AllWritten(groups) && AllSettled(next, groups, n)
    ensures DistinctWithin(next, groups)
  {
    forall g: nat | g < |groups|
      ensures NoDuplicates(SlotsOf(Fresh(next), groups, g))
    {
      EarlierSettled(next, groups, n, g);
      SettledBelow(next, groups, g);
      RunOrdered(RunAll(Fresh(next), groups, g), groups[g].items, |groups[g].items|);
    }
  }

  // ---- the same versions again, with later new slots ----

  /** New slots start at `next` in one mapping and at `later` in the other. */
  function Moved(slot: int, next: int, later: int): int {
    if slot >= next then slot + (later - next) else slot
  }

  function MovedMap(m: map<string, int>, next: int, later: int): map<string, int> {
    map k | k in m :: Moved(m[k], next, later)
  }

  function MovedSlots(s: Slots, next: int, later: int): Slots {
    Slots(MovedMap(s.byPatch, next, later), MovedMap(s.byTitle, next, later), s.next + (later - next))
  }

  function MovedSeq(given: seq<int>, next: int, later: int): seq<int> {
    seq(|given|, i requires 0 <= i < |given| => Moved(given[i], next, later))
  }

  lemma UsedMoved(given: seq<int>, slot: int, next: int, later: int)
    requires next <= later
    ensures Moved(slot, next, later) in Used(MovedSeq(given, next, later)) <==> slot in Used(given)
  {
    var moved := MovedSeq(given, next, later);
    if slot in Used(given) {
      var i :| 0 <= i < |given| && given[i] == slot;
      assert moved[i] == Moved(slot, next, later);
    }
    if Moved(slot, next, later) in Used(moved) {
      var i :| 0 <= i < |moved| && moved[i] == Moved(slot, next, later);
      assert given[i] == slot;
    }
  }

  function MovedProgress(p: Progress, next: int, later: int): Progress {
    Progress(MovedSlots(p.slots, next, later), MovedSeq(p.given, next, later))
  }

  lemma OffersMoved(m: map<string, int>, key: string, given: seq<int>, next: int, later: int)
    requires next <= later
    ensures Offers(MovedMap(m, next, later), key, Used(MovedSeq(given, next, later))) <==> Offers(m, key, Used(given))
  {
    if key in m {
      UsedMoved(given, m[key], next, later);
    }
  }

  lemma SlotMoved(p: Progress, i: Item, next: int, later: int)
    requires next <= later && next <= p.slots.next && (i.ordinal >= next ==> Recalled(p, i))
    ensures var p' := MovedProgress(p, next, later);
            && SlotFor(p'.slots, Used(p'.given), i) == Moved(SlotFor(p.slots, Used(p.given), i), next, later)
            && (TakesNew(p'.slots, Used(p'.given), i) <==> TakesNew(p.slots, Used(p.given), i))
            && (Recalled(p', i) <==> Recalled(p, i))
  {
    OffersMoved(p.slots.byPatch, i.patchId, p.given, next, later);
    OffersMoved(p.slots.byTitle, i.title, p.given, next, later);
    UsedMoved(p.given, i.ordinal, next, later);
  }

  lemma RememberMoved(m: map<string, int>, key: string, slot: int, next: int, later: int)
    ensures Remember(MovedMap(m, next, later), key, Moved(slot, next, later))
            == MovedMap(Remember(m, key, slot), next, later)
  {
  }

  lemma NextMoved(p: Progress, i: Item, next: int, later: int)
    requires next <= later && next <= p.slots.next && (i.ordinal >= next ==> Recalled(p, i))
    ensures Next(MovedProgress(p, next, later), i) == MovedProgress(Next(p, i), next, later)
  {
    var slot := SlotFor(p.slots, Used(p.given), i);
    SlotMoved(p, i, next, later);
    RememberMoved(p.slots.byPatch, i.patchId, slot, next, later);
    RememberMoved(p.slots.byTitle, i.title, slot, next, later);
    assert MovedSeq(p.given + [slot], next, later) == MovedSeq(p.given, next, later) + [Moved(slot, next, later)];
  }

  lemma {:induction false} RunMoved(s: Slots, items: seq<Item>, n: nat, next: int, later: int)
    requires n <= |items| && Below(s) && Settled(s, items, next) && next <= s.next && next <= later
    ensures Run(MovedSlots(s, next, later), items, n) == MovedProgress(Run(s, items, n), next, later)
  {
    if n > 0 {
      RunMoved(s, items, n - 1, next, later);
      RunStaysBelow(s, items, n - 1, next);
      NextMoved(Run(s, items, n - 1), items[n - 1], next, later);
    }
  }

  lemma FreshMoved(next: int, later: int)
    requires next <= later
    ensures Fresh(later) == MovedSlots(Fresh(next), next, later)
  {
    assert MovedMap(map[], next, later) == map[];
  }

  lemma {:induction false} RunAllMoved(groups: seq<Group>, n: nat, next: int, later: int)
    requires n <= |groups| && AllSettled(next, groups, n) && next <= later
    ensures RunAll(Fresh(later), groups, n) == MovedSlots(RunAll(Fresh(next), groups, n), next, later)
  {
    if n == 0 {
      FreshMoved(next, later);
    } else {
      var s, items := RunAll(Fresh(next), groups, n - 1), groups[n - 1].items;
      RunAllMoved(groups, n - 1, next, later);
      SettledBelow(next, groups, n - 1);
      RunMoved(s, items, |items|, next, later);
    }
  }

  lemma MovedSettled(s: Slots, items: seq<Item>, next: int, later: int)
    requires Below(s) && Settled(s, items, next) && next <= s.next && next <= later
    ensures Settled(MovedSlots(s, next, later), items, later)
  {
    forall i | 0 <= i < |items| && items[i].ordinal >= later
      ensures Recalled(Run(MovedSlots(s, next, later), items, i), items[i])
    {
      RunMoved(s, items, i, next, later);
      RunStaysBelow(s, items, i, next);
      SlotMoved(Run(s, items, i), items[i], next, later);
    }
  }

  // ---- the last version again ----

  /** Remembered by an earlier version in both mappings, or used in both. */
  ghost predicate Alike(m: map<string, int>, p: map<string, int>, p': map<string, int>, used: set<int>, used': set<int>,
                        next: int, later: int)
  {
    && p.Keys == p'.Keys
    && forall k | k in p :: (p[k] in used && p'[k] in used')
                            || (k in m && p[k] == m[k] && p'[k] == Moved(m[k], next, later))
  }

  /** What the later mapping has used of the remembered slots, the earlier one has used too. */
  ghost predicate UsesLess(limit: int, used: set<int>, used': set<int>, next: int, later: int) {
    forall slot | slot < limit && Moved(slot, next, later) in used' :: slot in used
  }

  ghost predicate Close(s: Slots, p: Progress, p': Progress, next: int, later: int) {
    && Alike(s.byPatch, p.slots.byPatch, p'.slots.byPatch, Used(p.given), Used(p'.given), next, later)
    && Alike(s.byTitle, p.slots.byTitle, p'.slots.byTitle, Used(p.given), Used(p'.given), next, later)
    && UsesLess(s.next, Used(p.given), Used(p'.given), next, later)
    && p.slots.next >= s.next && p'.slots.next >= Moved(s.next, next, later)
  }

  lemma StillOffers(m: map<string, int>, p: map<string, int>, p': map<string, int>, key: string,
                    used: set<int>, used': set<int>, limit: int, next: int, later: int)
    requires Alike(m, p, p', used, used', next, later) && UsesLess(limit, used, used', next, later)
    requires forall k | k in m :: m[k] < limit
    ensures Offers(p, key, used) ==> Offers(p', key, used')
    ensures Offers(p', key, used') ==> p'[key] == Moved(p[key], next, later)
  {
  }

  /** The hypotheses on the mapping of a last version whose slots all lie below `later`. */
  ghost predicate Repeats(s: Slots, p: Progress, p': Progress, i: Item, next: int, later: int) {
    && Below(s) && 1 <= next <= s.next && next <= later && Close(s, p, p', next, later)
    && SlotFor(p.slots, Used(p.given), i) < later && forall u | u in Used(p.given) :: u < later
  }

  /** What the earlier mapping recalls, the later one recalls too. */
  lemma StillRecalled(s: Slots, p: Progress, p': Progress, i: Item, next: int, later: int)
    requires Repeats(s, p, p', i, next, later)
    ensures Recalled(p, i) ==> Recalled(p', i)
    ensures i.ordinal >= later ==> Recalled(p', i)
  {
    StillOffers(s.byPatch, p.slots.byPatch, p'.slots.byPatch, i.patchId, Used(p.given), Used(p'.given), s.next, next,
                later);
    StillOffers(s.byTitle, p.slots.byTitle, p'.slots.byTitle, i.title, Used(p.given), Used(p'.given), s.next, next,
                later);
  }

  lemma SlotUsedInBoth(s: Slots, p: Progress, p': Progress, i: Item, next: int, later: int, slot: int)
    requires Repeats(s, p, p', i, next, later) && slot < s.next
    requires Moved(slot, next, later) == SlotFor(p'.slots, Used(p'.given), i)
    ensures slot in Used(p.given) || slot == SlotFor(p.slots, Used(p.given), i)
  {
    StillRecalled(s, p, p', i, next, later);
    StillOffers(s.byPatch, p.slots.byPatch, p'.slots.byPatch, i.patchId, Used(p.given), Used(p'.given), s.next, next,
                later);
    StillOffers(s.byTitle, p.slots.byTitle, p'.slots.byTitle, i.title, Used(p.given), Used(p'.given), s.next, next,
                later);
  }

  lemma NextUsesLess(s: Slots, p: Progress, p': Progress, i: Item, next: int, later: int)
    requires Repeats(s, p, p', i, next, later)
    ensures UsesLess(s.next, Used(Next(p, i).given), Used(Next(p', i).given), next, later)
  {
    var given, given' := SlotFor(p.slots, Used(p.given), i), SlotFor(p'.slots, Used(p'.given), i);
    UsedSnoc(p.given, given);
    UsedSnoc(p'.given, given');
    forall slot | slot < s.next && Moved(slot, next, later) in Used(p'.given) + {given'}
      ensures slot in Used(p.given) + {given}
    {
      if Moved(slot, next, later) !in Used(p'.given) {
        SlotUsedInBoth(s, p, p', i, next, later, slot);
      }
    }
  }

  lemma RememberAlike(m: map<string, int>, p: map<string, int>, p': map<string, int>, used: set<int>, used': set<int>,
                      next: int, later: int, key: string, slot: int, slot': int)
    requires Alike(m, p, p', used, used', next, later)
    ensures Alike(m, Remember(p, key, slot), Remember(p', key, slot'), used + {slot}, used' + {slot'}, next, later)
  {
  }

  lemma NextClose(s: Slots, p: Progress, p': Progress, i: Item, next: int, later: int)
    requires Repeats(s, p, p', i, next, later)
    ensures Close(s, Next(p, i), Next(p', i), next, later)
  {
    var slot, slot' := SlotFor(p.slots, Used(p.given), i), SlotFor(p'.slots, Used(p'.given), i);
    NextUsesLess(s, p, p', i, next, later);
    RememberAlike(s.byPatch, p.slots.byPatch, p'.slots.byPatch, Used(p.given), Used(p'.given), next, later, i.patchId,
                  slot, slot');
    RememberAlike(s.byTitle, p.slots.byTitle, p'.slots.byTitle, Used(p.given), Used(p'.given), next, later, i.title,
                  slot, slot');
    UsedSnoc(p.given, slot);
    UsedSnoc(p'.given, slot');
  }

  ghost predicate AllBelow(given: seq<int>, limit: int) {
    forall i | 0 <= i < |given| :: given[i] < limit
  }

  ghost predicate RunBelow(s: Slots, items: seq<Item>, limit: int) {
    AllBelow(Run(s, items, |items|).given, limit)
  }

  lemma {:induction false} RunPrefix(s: Slots, items: seq<Item>, n: nat, k: nat)
    requires n <= k <= |items|
    ensures Run(s, items, n).given == Run(s, items, k).given[..n]
  {
    if n < k {
      RunPrefix(s, items, n, k - 1);
    }
  }

  lemma SlotsBelow(s: Slots, items: seq<Item>, n: nat, limit: int)
    requires n < |items| && RunBelow(s, items, limit)
    ensures AllBelow(Run(s, items, n).given, limit)
    ensures SlotFor(Run(s, items, n).slots, Used(Run(s, items, n).given), items[n]) < limit
  {
    var given := Run(s, items, |items|).given;
    RunPrefix(s, items, n, |items|);
    RunPrefix(s, items, n + 1, |items|);
    var p := Run(s, items, n);
    assert Run(s, items, n + 1) == Next(p, items[n]);
    assert Next(p, items[n]).given[n] == given[n];
  }

  lemma NowRepeats(s: Slots, p: Progress, p': Progress, i: Item, next: int, later: int)
    requires Below(s) && 1 <= next <= s.next && next <= later && Close(s, p, p', next, later)
    requires AllBelow(p.given, later) && SlotFor(p.slots, Used(p.given), i) < later
    ensures Repeats(s, p, p', i, next, later)
  {
  }

  lemma {:induction false} RunClose(s: Slots, items: seq<Item>, n: nat, next: int, later: int)
    requires n <= |items| && Below(s) && 1 <= next <= s.next && next <= later
    requires RunBelow(s, items, later)
    ensures Close(s, Run(s, items, n), Run(MovedSlots(s, next, later), items, n), next, later)
  {
    if n > 0 {
      RunClose(s, items, n - 1, next, later);
      var p, p' := Run(s, items, n - 1), Run(MovedSlots(s, next, later), items, n - 1);
      SlotsBelow(s, items, n - 1, later);
      NowRepeats(s, p, p', items[n - 1], next, later);
      NextClose(s, p, p', items[n - 1], next, later);
    }
  }

  lemma LastRecalled(s: Slots, items: seq<Item>, n: nat, next: int, later: int)
    requires n < |items| && Below(s) && 1 <= next <= s.next && next <= later
    requires RunBelow(s, items, later) && items[n].ordinal >= later
    ensures Recalled(Run(MovedSlots(s, next, later), items, n), items[n])
  {
    var p, p' := Run(s, items, n), Run(MovedSlots(s, next, later), items, n);
    RunClose(s, items, n, next, later);
    SlotsBelow(s, items, n, later);
    NowRepeats(s, p, p', items[n], next, later);
    StillRecalled(s, p, p', items[n], next, later);
  }

  /** Once all slots of the last version are stored, it is settled. */
  lemma LastSettled(s: Slots, items: seq<Item>, next: int, later: int)
    requires Below(s) && 1 <= next <= s.next && next <= later && RunBelow(s, items, later)
    ensures Settled(MovedSlots(s, next, later), items, later)
  {
    forall i: nat | i < |items| && items[i].ordinal >= later
      ensures Recalled(Run(MovedSlots(s, next, later), items, i), items[i])
    {
      LastRecalled(s, items, i, next, later);
    }
  }

  lemma {:induction false} SettledAgain(groups: seq<Group>, n: nat, next: int, later: int)
    requires n <= |groups| && AllSettled(next, groups, n) && 1 <= next <= later
    ensures AllSettled(later, groups, n)
  {
    if n > 0 {
      SettledAgain(groups, n - 1, next, later);
      SettledBelow(next, groups, n - 1);
      RunAllMoved(groups, n - 1, next, later);
      MovedSettled(RunAll(Fresh(next), groups, n - 1), groups[n - 1].items, next, later);
    }
  }

  ghost predicate VersionBelow(next: int, groups: seq<Group>, n: nat, limit: int)
    requires n < |groups|
  {
    AllBelow(SlotsOf(Fresh(next), groups, n), limit)
  }

  lemma VersionSettled(groups: seq<Group>, n: nat, next: int, later: int)
    requires n < |groups| && AllSettled(next, groups, n) && 1 <= next <= later
    requires VersionBelow(next, groups, n, later)
    ensures Settled(RunAll(Fresh(later), groups, n), groups[n].items, later)
  {
    var s, items := RunAll(Fresh(next), groups, n), groups[n].items;
    SettledBelow(next, groups, n);
    RunAllMoved(groups, n, next, later);
    assert RunBelow(s, items, later);
    LastSettled(s, items, next, later);
  }

  lemma OneMoreSettled(groups: seq<Group>, n: nat, next: int, later: int)
    requires 1 <= n <= |groups| && AllSettled(next, groups, n - 1) && 1 <= next <= later
    requires VersionBelow(next, groups, n - 1, later)
    ensures AllSettled(later, groups, n)
  {
    SettledAgain(groups, n - 1, next, later);
    VersionSettled(groups, n - 1, next, later);
  }

  // ---- histories ----

  /** The versions stand in the order of their numbers. */
  function Place(groups: seq<Group>, g: Group): (placed: seq<Group>)
    ensures |placed| == |groups| + 1
  {
    var n := |groups|;
    if n == 0 || groups[n - 1].versionNum < g.versionNum then groups + [g]
    else Place(groups[..n - 1], g) + [groups[n - 1]]
  }

  /** The series after the first `n` versions of a history. */
  function Arrived(h: seq<Group>, n: nat): (groups: seq<Group>)
    requires n <= |h|
    ensures |groups| == n
  {
    if n == 0 then [] else Place(Arrived(h, n - 1), h[n - 1])
  }

  function SlotsTaken(next: int, groups: seq<Group>, n: nat): set<int>
    requires n <= |groups|
  {
    if n == 0 then {} else SlotsTaken(next, groups, n - 1) + Used(SlotsOf(Fresh(next), groups, n - 1))
  }

  lemma {:induction false} HasMax(s: set<int>) returns (max: int)
    requires s != {}
    ensures max in s && forall x | x in s :: x <= max
  {
    max := AnyOf(s);
    var rest := s - {max};
    if rest != {} {
      var other := HasMax(rest);
      assert s == rest + {max};
      max := if other > max then other else max;
    }
  }

  ghost predicate IsNext(stored: set<int>, next: int) {
    if stored == {} then next == 1
    else next - 1 in stored && forall slot | slot in stored :: slot < next
  }

  lemma HasNext(stored: set<int>)
    ensures exists next :: IsNext(stored, next)
  {
    if stored == {} {
      assert IsNext(stored, 1);
    } else {
      var max := HasMax(stored);
      assert IsNext(stored, max + 1);
    }
  }

  ghost function NextOver(stored: set<int>): (next: int)
    ensures IsNext(stored, next)
  {
    HasNext(stored);
    var next :| IsNext(stored, next);
    next
  }

  /** The slots of the series after `n` versions were written and mapped; none is deleted. */
  ghost function Stored(h: seq<Group>, n: nat): set<int>
    requires n <= |h|
  {
    if n == 0 then {}
    else Stored(h, n - 1) + SlotsTaken(NextOver(Stored(h, n - 1)), Arrived(h, n), n)
  }

  /** The first new slot of the mapping after the next version. */
  ghost function NextAfter(h: seq<Group>, n: nat): int
    requires n <= |h|
  {
    NextOver(Stored(h, n))
  }

  /** No mapping of the history gives two patches of one version the same slot. */
  ghost predicate NeverClashes(h: seq<Group>) {
    forall n: nat | n < |h| :: DistinctWithin(NextAfter(h, n), Arrived(h, n + 1))
  }

  // ---- slots are positive ----

  ghost predicate Positive(s: Slots) {
    && s.next >= 1
    && (forall k | k in s.byPatch :: s.byPatch[k] >= 1)
    && (forall k | k in s.byTitle :: s.byTitle[k] >= 1)
  }

  ghost predicate AllPositive(s: set<int>) {
    forall x | x in s :: x >= 1
  }

  lemma NextPositive(p: Progress, i: Item)
    requires Positive(p.slots) && AllPositive(Used(p.given))
    ensures Positive(Next(p, i).slots) && AllPositive(Used(Next(p, i).given))
  {
    UsedSnoc(p.given, SlotFor(p.slots, Used(p.given), i));
  }

  lemma {:induction false} RunPositive(s: Slots, items: seq<Item>, n: nat)
    requires n <= |items| && Positive(s)
    ensures Positive(Run(s, items, n).slots) && AllPositive(Used(Run(s, items, n).given))
  {
    if n > 0 {
      RunPositive(s, items, n - 1);
      NextPositive(Run(s, items, n - 1), items[n - 1]);
    }
  }

  lemma {:induction false} TakenPositive(next: int, groups: seq<Group>, n: nat)
    requires n <= |groups| && next >= 1
    ensures Positive(RunAll(Fresh(next), groups, n)) && AllPositive(SlotsTaken(next, groups, n))
  {
    if n > 0 {
      TakenPositive(next, groups, n - 1);
      RunPositive(RunAll(Fresh(next), groups, n - 1), groups[n - 1].items, |groups[n - 1].items|);
    }
  }

  lemma {:induction false} StoredPositive(h: seq<Group>, n: nat)
    requires n <= |h|
    ensures AllPositive(Stored(h, n)) && NextAfter(h, n) >= 1
  {
    if n > 0 {
      StoredPositive(h, n - 1);
      TakenPositive(NextAfter(h, n - 1), Arrived(h, n), n);
    }
  }

  // ---- versions that arrive in order ----

  ghost predicate InOrder(h: seq<Group>, n: nat)
    requires n <= |h|
  {
    forall i, j | 0 <= i < j < n :: h[i].versionNum < h[j].versionNum
  }

  lemma {:induction false} ArrivedInOrder(h: seq<Group>, n: nat)
    requires n <= |h| && InOrder(h, n)
    ensures Arrived(h, n) == h[..n]
  {
    if n > 0 {
      ArrivedInOrder(h, n - 1);
      assert h[..n] == h[..n - 1] + [h[n - 1]];
    }
  }

  lemma {:induction false} RunAllPrefix(s: Slots, groups: seq<Group>, more: seq<Group>, n: nat)
    requires n <= |groups| <= |more| && groups == more[..|groups|]
    ensures RunAll(s, groups, n) == RunAll(s, more, n)
    ensures n < |groups| ==> SlotsOf(s, groups, n) == SlotsOf(s, more, n)
  {
    if n > 0 {
      RunAllPrefix(s, groups, more, n - 1);
      assert groups[n - 1] == more[n - 1];
    }
    if n < |groups| {
      assert groups[n] == more[n];
    }
  }

  lemma RunAllSnoc(s: Slots, groups: seq<Group>, g: Group)
    ensures SlotsOf(s, groups + [g], |groups|) == Run(RunAll(s, groups, |groups|), g.items, |g.items|).given
    ensures RunAll(s, groups + [g], |groups| + 1) == Run(RunAll(s, groups, |groups|), g.items, |g.items|).slots
  {
    RunAllPrefix(s, groups, groups + [g], |groups|);
  }

  ghost predicate SetBelow(s: set<int>, limit: int) {
    forall slot | slot in s :: slot < limit
  }

  lemma NextsGrow(stored: set<int>, more: set<int>)
    requires AllPositive(stored + more)
    ensures 1 <= NextOver(stored) <= NextOver(stored + more)
    ensures SetBelow(more, NextOver(stored + more))
  {
    assert IsNext(stored, NextOver(stored)) && IsNext(stored + more, NextOver(stored + more));
  }

  lemma TakenBelow(next: int, groups: seq<Group>, more: seq<Group>, n: nat, limit: int)
    requires n < |groups| <= |more| && groups == more[..|groups|]
    requires SetBelow(SlotsTaken(next, groups, n + 1), limit)
    ensures VersionBelow(next, more, n, limit)
  {
    var given := SlotsOf(Fresh(next), groups, n);
    RunAllPrefix(Fresh(next), groups, more, n);
    assert forall i | 0 <= i < |given| :: given[i] in Used(given);
  }

  /** The next new slot lies above all slots of the mapping before. */
  lemma NextIsAbove(h: seq<Group>, n: nat)
    requires 1 <= n <= |h| && InOrder(h, n)
    ensures 1 <= NextAfter(h, n - 1) <= NextAfter(h, n)
    ensures VersionBelow(NextAfter(h, n - 1), h, n - 1, NextAfter(h, n))
  {
    var next := NextAfter(h, n - 1);
    StoredPositive(h, n);
    NextsGrow(Stored(h, n - 1), SlotsTaken(next, Arrived(h, n), n));
    ArrivedInOrder(h, n);
    TakenBelow(next, h[..n], h, n - 1, NextAfter(h, n));
  }

  /** The first `n` versions are settled in the mapping after the next one. */
  ghost predicate SettledAfter(h: seq<Group>, n: nat)
    requires n <= |h|
  {
    AllSettled(NextAfter(h, n), h, n)
  }

  lemma SettledStep(h: seq<Group>, n: nat)
    requires 1 <= n <= |h| && InOrder(h, n) && SettledAfter(h, n - 1)
    ensures SettledAfter(h, n)
  {
    NextIsAbove(h, n);
    OneMoreSettled(h, n, NextAfter(h, n - 1), NextAfter(h, n));
  }

  lemma {:induction false} HistorySettled(h: seq<Group>, n: nat)
    requires n <= |h| && InOrder(h, n)
    ensures SettledAfter(h, n)
  {
    if n > 0 {
      HistorySettled(h, n - 1);
      SettledStep(h, n);
    }
  }

  lemma {:induction false} SettledPrefix(next: int, groups: seq<Group>, more: seq<Group>, n: nat)
    requires n <= |groups| <= |more| && groups == more[..|groups|] && AllSettled(next, more, n)
    ensures AllSettled(next, groups, n)
  {
    if n > 0 {
      SettledPrefix(next, groups, more, n - 1);
      RunAllPrefix(Fresh(next), groups, more, n - 1);
      assert groups[n - 1] == more[n - 1];
    }
  }

  lemma PrefixDistinct(next: int, groups: seq<Group>, h: seq<Group>, n: nat)
    requires n < |h| && groups == h[..n + 1] && AllWritten(h) && next >= 1 && AllSettled(next, h, n)
    ensures DistinctWithin(next, groups)
  {
    SettledPrefix(next, groups, h, n);
    assert AllWritten(groups);
    SettledDistinct(next, groups, n);
  }

  lemma DistinctAfter(h: seq<Group>, n: nat)
    requires n < |h| && AllWritten(h) && InOrder(h, |h|)
    ensures DistinctWithin(NextAfter(h, n), Arrived(h, n + 1))
  {
    var groups := Arrived(h, n + 1);
    StoredPositive(h, n);
    HistorySettled(h, n);
    ArrivedInOrder(h, n + 1);
    PrefixDistinct(NextAfter(h, n), groups, h, n);
  }

  /** If the versions of a series arrive in the order of their numbers, no mapping ever gives
      two patches of one version the same slot. */
  lemma {:induction false} InOrderNeverClashes(h: seq<Group>)
    requires AllWritten(h) && InOrder(h, |h|)
    ensures NeverClashes(h)
  {
    forall n: nat | n < |h|
      ensures DistinctWithin(NextAfter(h, n), Arrived(h, n + 1))
    {
      DistinctAfter(h, n);
    }
  }
}
