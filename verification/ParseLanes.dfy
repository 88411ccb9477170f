/** `parse_commit_rows`: the commits of a batch are dealt to lanes that parse in parallel,
    and what the lanes return, in whatever order they finish, is put together again. */
module ParseLanes {
  import opened Sorting
  import opened Wrappers

  datatype SkipKind = MissingHeaders | InvalidDate | Sanitization | OtherReason

  /** What reading and parsing one commit gives. */
  datatype Blob<R> = Unreadable | NoMail | Mail(size: nat, parsed: ParseResult<R>)

  datatype ParseResult<R> = Parsed(row: R) | Skipped(kind: SkipKind)

  datatype Counts = Counts(
    parseErrors: nat, nonMail: nat, bytes: nat, headers: nat, dates: nat, sanitization: nat, others: nat)

  function NoCounts(): Counts {
    Counts(0, 0, 0, 0, 0, 0, 0)
  }

  function Plus(a: Counts, b: Counts): Counts {
    Counts(a.parseErrors + b.parseErrors, a.nonMail + b.nonMail, a.bytes + b.bytes, a.headers + b.headers,
           a.dates + b.dates, a.sanitization + b.sanitization, a.others + b.others)
  }

  function CountsOf<R>(b: Blob<R>): Counts {
    match b
    case Unreadable => NoCounts()
    case NoMail => NoCounts().(nonMail := 1)
    case Mail(size, Parsed(_)) => NoCounts().(bytes := size)
    case Mail(size, Skipped(MissingHeaders)) => NoCounts().(bytes := size, parseErrors := 1, headers := 1)
    case Mail(size, Skipped(InvalidDate)) => NoCounts().(bytes := size, parseErrors := 1, dates := 1)
    case Mail(size, Skipped(Sanitization)) => NoCounts().(bytes := size, parseErrors := 1, sanitization := 1)
    case Mail(size, Skipped(OtherReason)) => NoCounts().(bytes := size, parseErrors := 1, others := 1)
  }

  datatype Oid = Oid(hex: string)

  datatype IndexedOid = IndexedOid(index: nat, oid: Oid)

  datatype IndexedRow<R> = IndexedRow(index: nat, row: R)

  function RowsOf<R>(index: nat, b: Blob<R>): seq<IndexedRow<R>> {
    if b.Mail? && b.parsed.Parsed? then [IndexedRow(index, b.parsed.row)] else []
  }

  datatype Outcome<R> = Outcome(rows: seq<IndexedRow<R>>, counts: Counts)

  // ---- one after the other ----

  ghost predicate AllReadable<R>(oids: seq<Oid>, parse: Oid -> Blob<R>) {
    forall i | 0 <= i < |oids| :: parse(oids[i]) != Unreadable
  }

  /** The rows of the first `n` commits, parsed in order. */
  function RowsInOrder<R>(oids: seq<Oid>, parse: Oid -> Blob<R>, n: nat): seq<IndexedRow<R>>
    requires n <= |oids|
  {
    if n == 0 then [] else RowsInOrder(oids, parse, n - 1) + RowsOf(n - 1, parse(oids[n - 1]))
  }

  function CountsInOrder<R>(oids: seq<Oid>, parse: Oid -> Blob<R>, n: nat): Counts
    requires n <= |oids|
  {
    if n == 0 then NoCounts() else Plus(CountsInOrder(oids, parse, n - 1), CountsOf(parse(oids[n - 1])))
  }

  // ---- dealing ----

  function LaneCount(oids: seq<Oid>, workers: nat): (lanes: nat)
    ensures lanes > 0
  {
    var w := if workers > 1 then workers else 1;
    var c := if |oids| > 1 then |oids| else 1;
    if w < c then w else c
  }

  /** The commits among the first `n` that lane `l` gets. */
  function Lane(oids: seq<Oid>, lanes: nat, l: nat, n: nat): seq<IndexedOid>
    requires lanes > 0 && n <= |oids|
  {
    if n == 0 then []
    else if (n - 1) % lanes == l then Lane(oids, lanes, l, n - 1) + [IndexedOid(n - 1, oids[n - 1])]
    else Lane(oids, lanes, l, n - 1)
  }

  /** `partition_commit_oids` */
  method PartitionOids(oids: seq<Oid>, workers: nat) returns (lanes: seq<seq<IndexedOid>>)
    ensures |lanes| == LaneCount(oids, workers)
    ensures forall l | 0 <= l < |lanes| :: lanes[l] == Lane(oids, |lanes|, l, |oids|)
  {
    var count := LaneCount(oids, workers);
    lanes := seq(count, _ => []);
    for n := 0 to |oids|
      invariant |lanes| == count
      invariant forall l | 0 <= l < count :: lanes[l] == Lane(oids, count, l, n)
    {
      var l := n % count;
      lanes := lanes[l := lanes[l] + [IndexedOid(n, oids[n])]];
    }
  }

  // ---- one lane ----

  function LaneRows<R>(part: seq<IndexedOid>, parse: Oid -> Blob<R>, n: nat): seq<IndexedRow<R>>
    requires n <= |part|
  {
    if n == 0 then [] else LaneRows(part, parse, n - 1) + RowsOf(part[n - 1].index, parse(part[n - 1].oid))
  }

  function LaneCounts<R>(part: seq<IndexedOid>, parse: Oid -> Blob<R>, n: nat): Counts
    requires n <= |part|
  {
    if n == 0 then NoCounts() else Plus(LaneCounts(part, parse, n - 1), CountsOf(parse(part[n - 1].oid)))
  }

  method CountSkip<R>(before: Counts, size: nat, kind: SkipKind) returns (counts: Counts)
    ensures counts == Plus(before, CountsOf<R>(Mail(size, Skipped(kind))))
  {
    counts := before.(bytes := before.bytes + size, parseErrors := before.parseErrors + 1);
    match kind
    case MissingHeaders => counts := counts.(headers := counts.headers + 1);
    case InvalidDate => counts := counts.(dates := counts.dates + 1);
    case Sanitization => counts := counts.(sanitization := counts.sanitization + 1);
    case OtherReason => counts := counts.(others := counts.others + 1);
  }

  /** `parse_commit_partition`; an unreadable blob ends the lane. */
  method ParsePartition<R(==)>(part: seq<IndexedOid>, parse: Oid -> Blob<R>) returns (r: Option<Outcome<R>>)
    ensures r.None? <==> exists i :: 0 <= i < |part| && parse(part[i].oid) == Unreadable
    ensures r.Some? ==> r.value == Outcome(LaneRows(part, parse, |part|), LaneCounts(part, parse, |part|))
  {
    var rows, counts := [], NoCounts();
    for n := 0 to |part|
      invariant forall i | 0 <= i < n :: parse(part[i].oid) != Unreadable
      invariant rows == LaneRows(part, parse, n) && counts == LaneCounts(part, parse, n)
    {
      var blob := parse(part[n].oid);
      ghost var before := counts;
      if blob == Unreadable {
        return None;
      } else if blob == NoMail {
        counts := counts.(nonMail := counts.nonMail + 1);
      } else if blob.parsed.Parsed? {
        rows := rows + [IndexedRow(part[n].index, blob.parsed.row)];
        counts := counts.(bytes := counts.bytes + blob.size);
      } else {
        counts := CountSkip<R>(counts, blob.size, blob.parsed.kind);
      }
      assert counts == Plus(before, CountsOf(blob));
    }
    return Some(Outcome(rows, counts));
  }

  // ---- putting lanes together ----

  function CountsIf(c: Counts, here: bool): Counts {
    if here then c else NoCounts()
  }

  /** The counts of those of the first `n` commits whose lane is in `done`. */
  function DoneCounts<R>(oids: seq<Oid>, parse: Oid -> Blob<R>, lanes: nat, done: set<nat>, n: nat): Counts
    requires lanes > 0 && n <= |oids|
  {
    if n == 0 then NoCounts()
    else Plus(DoneCounts(oids, parse, lanes, done, n - 1),
      CountsIf(CountsOf(parse(oids[n - 1])), (n - 1) % lanes in done))
  }

  lemma {:induction false} LaneCountsDone<R>(oids: seq<Oid>, parse: Oid -> Blob<R>, lanes: nat, l: nat, n: nat)
    requires lanes > 0 && n <= |oids|
    ensures var part := Lane(oids, lanes, l, n);
            LaneCounts(part, parse, |part|) == DoneCounts(oids, parse, lanes, {l}, n)
  {
    if n > 0 {
      LaneCountsDone(oids, parse, lanes, l, n - 1);
      if (n - 1) % lanes == l {
        LaneSnoc(Lane(oids, lanes, l, n - 1), IndexedOid(n - 1, oids[n - 1]), parse);
      }
    }
  }

  lemma {:induction false} LanePrefix<R>(part: seq<IndexedOid>, x: IndexedOid, parse: Oid -> Blob<R>, n: nat)
    requires n <= |part|
    ensures LaneRows(part + [x], parse, n) == LaneRows(part, parse, n)
    ensures LaneCounts(part + [x], parse, n) == LaneCounts(part, parse, n)
  {
    if n > 0 {
      LanePrefix(part, x, parse, n - 1);
    }
  }

  lemma LaneSnoc<R>(part: seq<IndexedOid>, x: IndexedOid, parse: Oid -> Blob<R>)
    ensures LaneRows(part + [x], parse, |part| + 1) == LaneRows(part, parse, |part|) + RowsOf(x.index, parse(x.oid))
    ensures LaneCounts(part + [x], parse, |part| + 1) == Plus(LaneCounts(part, parse, |part|), CountsOf(parse(x.oid)))
  {
    LanePrefix(part, x, parse, |part|);
  }

  lemma PlusInterchange(a: Counts, b: Counts, c: Counts, d: Counts)
    ensures Plus(Plus(a, b), Plus(c, d)) == Plus(Plus(a, c), Plus(b, d))
  {
  }

  lemma CountedOnce(b: Counts, here: bool, there: bool)
    requires !(here && there)
    ensures CountsIf(b, here || there) == Plus(CountsIf(b, here), CountsIf(b, there))
  {
  }

  lemma JoinCounts(a: Counts, c: Counts, all: Counts, b: Counts, here: bool, there: bool)
    requires !(here && there) && all == Plus(a, c)
    ensures Plus(all, CountsIf(b, here || there)) == Plus(Plus(a, CountsIf(b, here)), Plus(c, CountsIf(b, there)))
  {
    CountedOnce(b, here, there);
    PlusInterchange(a, c, CountsIf(b, here), CountsIf(b, there));
  }

  lemma {:induction false} MoreLanes<R>(oids: seq<Oid>, parse: Oid -> Blob<R>, lanes: nat,
    done: set<nat>, l: nat, n: nat)
    requires lanes > 0 && n <= |oids| && l !in done
    ensures DoneCounts(oids, parse, lanes, done + {l}, n)
            == Plus(DoneCounts(oids, parse, lanes, done, n), DoneCounts(oids, parse, lanes, {l}, n))
  {
    if n > 0 {
      MoreLanes(oids, parse, lanes, done, l, n - 1);
      var b, x := CountsOf(parse(oids[n - 1])), (n - 1) % lanes;
      JoinCounts(DoneCounts(oids, parse, lanes, done, n - 1), DoneCounts(oids, parse, lanes, {l}, n - 1),
                 DoneCounts(oids, parse, lanes, done + {l}, n - 1), b, x in done, x in {l});
    }
  }

  lemma {:induction false} NoLanes<R>(oids: seq<Oid>, parse: Oid -> Blob<R>, lanes: nat, n: nat)
    requires lanes > 0 && n <= |oids|
    ensures DoneCounts(oids, parse, lanes, {}, n) == NoCounts()
  {
    if n > 0 {
      NoLanes(oids, parse, lanes, n - 1);
    }
  }

  lemma NoLaneRows<R(!new)>(oids: seq<Oid>, parse: Oid -> Blob<R>, lanes: nat)
    requires lanes > 0
    ensures HoldsRows(oids, parse, lanes, {}, |oids|, [])
  {
  }

  predicate IsLane(lanes: nat, l: nat) {
    l < lanes
  }

  function AllLanes(lanes: nat): set<nat> {
    set l: nat | l < lanes && IsLane(lanes, l)
  }

  lemma {:induction false} EveryLane<R>(oids: seq<Oid>, parse: Oid -> Blob<R>, lanes: nat, n: nat)
    requires lanes > 0 && n <= |oids|
    ensures DoneCounts(oids, parse, lanes, AllLanes(lanes), n) == CountsInOrder(oids, parse, n)
  {
    if n > 0 {
      EveryLane(oids, parse, lanes, n - 1);
    }
  }

  /** A row is that of the commit at its index, and its lane is done. */
  ghost predicate RowOf<R>(oids: seq<Oid>, parse: Oid -> Blob<R>, lanes: nat, done: set<nat>, n: nat, r: IndexedRow<R>)
    requires lanes > 0 && n <= |oids|
  {
    && r.index < n && r.index % lanes in done
    && parse(oids[r.index]).Mail? && parse(oids[r.index]).parsed == Parsed(r.row)
  }

  ghost predicate HoldsRows<R(!new)>(oids: seq<Oid>, parse: Oid -> Blob<R>, lanes: nat, done: set<nat>, n: nat,
                               rows: seq<IndexedRow<R>>)
    requires lanes > 0 && n <= |oids|
  {
    NoDuplicates(rows) && forall r :: r in rows <==> RowOf(oids, parse, lanes, done, n, r)
  }

  lemma NoMoreRow<R(!new)>(oids: seq<Oid>, parse: Oid -> Blob<R>, lanes: nat, done: set<nat>, n: nat,
                     rows: seq<IndexedRow<R>>)
    requires lanes > 0 && n < |oids| && n % lanes !in done && HoldsRows(oids, parse, lanes, done, n, rows)
    ensures HoldsRows(oids, parse, lanes, done, n + 1, rows)
  {
    forall r
      ensures RowOf(oids, parse, lanes, done, n + 1, r) <==> RowOf(oids, parse, lanes, done, n, r)
    {
    }
  }

  lemma {:induction false} LaneHoldsRows<R(!new)>(oids: seq<Oid>, parse: Oid -> Blob<R>, lanes: nat, l: nat, n: nat)
    requires lanes > 0 && n <= |oids|
    ensures var part := Lane(oids, lanes, l, n);
            HoldsRows(oids, parse, lanes, {l}, n, LaneRows(part, parse, |part|))
  {
    if n > 0 {
      LaneHoldsRows(oids, parse, lanes, l, n - 1);
      var part := Lane(oids, lanes, l, n - 1);
      var before := LaneRows(part, parse, |part|);
      if (n - 1) % lanes == l {
        LaneSnoc(part, IndexedOid(n - 1, oids[n - 1]), parse);
        OneMoreRow(oids, parse, lanes, {l}, n - 1, before);
      } else {
        NoMoreRow(oids, parse, lanes, {l}, n - 1, before);
      }
    }
  }

  lemma OneMoreRow<R(!new)>(oids: seq<Oid>, parse: Oid -> Blob<R>, lanes: nat, done: set<nat>, n: nat,
                      rows: seq<IndexedRow<R>>)
    requires lanes > 0 && n < |oids| && n % lanes in done && HoldsRows(oids, parse, lanes, done, n, rows)
    ensures HoldsRows(oids, parse, lanes, done, n + 1, rows + RowsOf(n, parse(oids[n])))
  {
    var more := RowsOf(n, parse(oids[n]));
    forall r
      ensures r in rows + more <==> RowOf(oids, parse, lanes, done, n + 1, r)
    {
      assert r in more <==> more != [] && r == more[0];
      assert RowOf(oids, parse, lanes, done, n + 1, r) <==> RowOf(oids, parse, lanes, done, n, r) || r in more;
    }
    assert forall i | 0 <= i < |rows| :: rows[i] in rows;
  }

  lemma {:induction false} SequentialRows<R(!new)>(oids: seq<Oid>, parse: Oid -> Blob<R>, lanes: nat, n: nat)
    requires lanes > 0 && n <= |oids|
    ensures HoldsRows(oids, parse, lanes, AllLanes(lanes), n, RowsInOrder(oids, parse, n))
  {
    if n > 0 {
      SequentialRows(oids, parse, lanes, n - 1);
      OneMoreRow(oids, parse, lanes, AllLanes(lanes), n - 1, RowsInOrder(oids, parse, n - 1));
    }
  }

  lemma JoinRows<R(!new)>(oids: seq<Oid>, parse: Oid -> Blob<R>, lanes: nat, done: set<nat>, l: nat, n: nat,
                    a: seq<IndexedRow<R>>, b: seq<IndexedRow<R>>)
    requires lanes > 0 && n <= |oids| && l !in done
    requires HoldsRows(oids, parse, lanes, done, n, a) && HoldsRows(oids, parse, lanes, {l}, n, b)
    ensures HoldsRows(oids, parse, lanes, done + {l}, n, a + b)
  {
    forall r
      ensures r in a + b <==> RowOf(oids, parse, lanes, done + {l}, n, r)
    {
      assert r in a + b <==> r in a || r in b;
    }
    forall i, j | 0 <= i < |a| && 0 <= j < |b|
      ensures a[i] != b[j]
    {
      assert a[i] in a && b[j] in b;
    }
  }

  // ---- the order of the rows ----

  function ByIndex<R>(): (IndexedRow<R>, IndexedRow<R>) -> bool {
    (a: IndexedRow<R>, b: IndexedRow<R>) => a.index <= b.index
  }

  lemma {:induction false} SequentialSorted<R(!new)>(oids: seq<Oid>, parse: Oid -> Blob<R>, n: nat)
    requires n <= |oids|
    ensures SortedBy(RowsInOrder(oids, parse, n), ByIndex())
  {
    if n > 0 {
      SequentialSorted(oids, parse, n - 1);
      SequentialRows(oids, parse, 1, n - 1);
      var rows := RowsInOrder(oids, parse, n - 1);
      forall i | 0 <= i < |rows|
        ensures rows[i].index < n - 1
      {
        assert rows[i] in rows && RowOf(oids, parse, 1, AllLanes(1), n - 1, rows[i]);
      }
    }
  }

  /** Rows of equal index are equal, so sorting by index leaves only one order. */
  lemma SortedRowsAreSequential<R(!new)>(oids: seq<Oid>, parse: Oid -> Blob<R>, lanes: nat, rows: seq<IndexedRow<R>>)
    requires lanes > 0 && HoldsRows(oids, parse, lanes, AllLanes(lanes), |oids|, rows)
    ensures Sort(rows, ByIndex()) == RowsInOrder(oids, parse, |oids|)
  {
    var s := RowsInOrder(oids, parse, |oids|);
    var elements := set r | r in s;
    SequentialRows(oids, parse, lanes, |oids|);
    SequentialSorted(oids, parse, |oids|);
    DistinctSeqIsSet(s, elements);
    DistinctSeqIsSet(rows, elements);
    var le := ByIndex<R>();
    assert Linear(le);
    forall x, y | x in rows && y in rows && le(x, y) && le(y, x)
      ensures x == y
    {
      assert RowOf(oids, parse, lanes, AllLanes(lanes), |oids|, x)
        && RowOf(oids, parse, lanes, AllLanes(lanes), |oids|, y);
    }
    SortSorted(rows, le);
    SortMultiset(rows, le);
    SameElements(rows, Sort(rows, le));
    SortedUnique(Sort(rows, le), s, le);
  }

  // ---- the whole ----

  lemma {:induction false} LaneHoldsIndexes(oids: seq<Oid>, lanes: nat, l: nat, n: nat, i: nat)
    requires lanes > 0 && i < n <= |oids| && i % lanes == l
    ensures IndexedOid(i, oids[i]) in Lane(oids, lanes, l, n)
  {
    if i < n - 1 {
      LaneHoldsIndexes(oids, lanes, l, n - 1, i);
    }
  }

  lemma {:induction false} LaneIsFromOids(oids: seq<Oid>, lanes: nat, l: nat, n: nat, x: IndexedOid)
    requires lanes > 0 && n <= |oids| && x in Lane(oids, lanes, l, n)
    ensures x.index < n && x.oid == oids[x.index]
  {
    if n > 0 && x != IndexedOid(n - 1, oids[n - 1]) {
      LaneIsFromOids(oids, lanes, l, n - 1, x);
    }
  }

  /** All lanes are parsed exactly when all commits can be read. */
  lemma ReadableByLane<R>(oids: seq<Oid>, parse: Oid -> Blob<R>, lanes: seq<seq<IndexedOid>>)
    requires |lanes| > 0 && forall l | 0 <= l < |lanes| :: lanes[l] == Lane(oids, |lanes|, l, |oids|)
    ensures AllReadable(oids, parse)
            <==> forall l, i | 0 <= l < |lanes| && 0 <= i < |lanes[l]| :: parse(lanes[l][i].oid) != Unreadable
  {
    forall l, i | 0 <= l < |lanes| && 0 <= i < |lanes[l]|
      ensures exists j :: 0 <= j < |oids| && oids[j] == lanes[l][i].oid
    {
      LaneIsFromOids(oids, |lanes|, l, |oids|, lanes[l][i]);
    }
    forall j: nat | j < |oids|
      ensures exists l, i :: 0 <= l < |lanes| && 0 <= i < |lanes[l]| && lanes[l][i].oid == oids[j]
    {
      LaneHoldsIndexes(oids, |lanes|, j % |lanes|, |oids|, j);
      var part := lanes[j % |lanes|];
      var i :| 0 <= i < |part| && part[i] == IndexedOid(j, oids[j]);
    }
  }

  // ---- rows and counts, told from the commits ----

  ghost function SkippedAs<R>(oids: seq<Oid>, parse: Oid -> Blob<R>, kind: SkipKind, n: nat): set<nat>
    requires n <= |oids|
  {
    set i: nat | i < n && parse(oids[i]).Mail? && parse(oids[i]).parsed == Skipped(kind)
  }

  ghost function WithoutMail<R>(oids: seq<Oid>, parse: Oid -> Blob<R>, n: nat): set<nat>
    requires n <= |oids|
  {
    set i: nat | i < n && parse(oids[i]).NoMail?
  }

  ghost function MailSizes<R>(oids: seq<Oid>, parse: Oid -> Blob<R>, n: nat): nat
    requires n <= |oids|
  {
    if n == 0 then 0
    else MailSizes(oids, parse, n - 1) + (if parse(oids[n - 1]).Mail? then parse(oids[n - 1]).size else 0)
  }

  /** Every commit without a mail and every skipped mail is counted once, by its reason; the
      sizes of all mails add up. */
  ghost predicate CountsMean<R>(oids: seq<Oid>, parse: Oid -> Blob<R>, n: nat, c: Counts)
    requires n <= |oids|
  {
    && c.nonMail == |WithoutMail(oids, parse, n)|
    && c.headers == |SkippedAs(oids, parse, MissingHeaders, n)|
    && c.dates == |SkippedAs(oids, parse, InvalidDate, n)|
    && c.sanitization == |SkippedAs(oids, parse, Sanitization, n)|
    && c.others == |SkippedAs(oids, parse, OtherReason, n)|
    && c.parseErrors == c.headers + c.dates + c.sanitization + c.others
    && c.bytes == MailSizes(oids, parse, n)
  }

  /** Exactly the parsed mails, each under the index of its commit, in the order of these. */
  ghost predicate RowsMean<R(!new)>(oids: seq<Oid>, parse: Oid -> Blob<R>, rows: seq<IndexedRow<R>>) {
    && (forall i, j | 0 <= i < j < |rows| :: rows[i].index < rows[j].index)
    && forall r: IndexedRow<R> :: r in rows <==>
         r.index < |oids| && parse(oids[r.index]).Mail? && parse(oids[r.index]).parsed == Parsed(r.row)
  }

  lemma SkippedStep<R>(oids: seq<Oid>, parse: Oid -> Blob<R>, kind: SkipKind, n: nat)
    requires 0 < n <= |oids|
    ensures var b := parse(oids[n - 1]);
            |SkippedAs(oids, parse, kind, n)|
            == |SkippedAs(oids, parse, kind, n - 1)| + (if b.Mail? && b.parsed == Skipped(kind) then 1 else 0)
  {
    var b := parse(oids[n - 1]);
    var rest := SkippedAs(oids, parse, kind, n - 1);
    assert SkippedAs(oids, parse, kind, n) == if b.Mail? && b.parsed == Skipped(kind) then rest + {n - 1} else rest;
  }

  lemma WithoutMailStep<R>(oids: seq<Oid>, parse: Oid -> Blob<R>, n: nat)
    requires 0 < n <= |oids|
    ensures |WithoutMail(oids, parse, n)|
            == |WithoutMail(oids, parse, n - 1)| + (if parse(oids[n - 1]).NoMail? then 1 else 0)
  {
    var rest := WithoutMail(oids, parse, n - 1);
    assert WithoutMail(oids, parse, n) == if parse(oids[n - 1]).NoMail? then rest + {n - 1} else rest;
  }

  lemma {:induction false} CountsAreRight<R>(oids: seq<Oid>, parse: Oid -> Blob<R>, n: nat)
    requires n <= |oids|
    ensures CountsMean(oids, parse, n, CountsInOrder(oids, parse, n))
  {
    hide SkippedAs, WithoutMail;
    if n == 0 {
      NothingCounted(oids, parse);
    } else {
      CountsAreRight(oids, parse, n - 1);
      SkippedStep(oids, parse, MissingHeaders, n);
      SkippedStep(oids, parse, InvalidDate, n);
      SkippedStep(oids, parse, Sanitization, n);
      SkippedStep(oids, parse, OtherReason, n);
      WithoutMailStep(oids, parse, n);
    }
  }

  lemma NothingCounted<R>(oids: seq<Oid>, parse: Oid -> Blob<R>)
    ensures CountsMean(oids, parse, 0, NoCounts())
  {
  }

  lemma SequentialHolds<R(!new)>(oids: seq<Oid>, parse: Oid -> Blob<R>, r: IndexedRow<R>)
    ensures r in RowsInOrder(oids, parse, |oids|)
            <==> r.index < |oids| && parse(oids[r.index]).Mail? && parse(oids[r.index]).parsed == Parsed(r.row)
  {
    SequentialRows(oids, parse, 1, |oids|);
    assert r in RowsInOrder(oids, parse, |oids|) <==> RowOf(oids, parse, 1, AllLanes(1), |oids|, r);
  }

  lemma IndexesDiffer<R(!new)>(oids: seq<Oid>, parse: Oid -> Blob<R>, i: nat, j: nat)
    requires i < j < |RowsInOrder(oids, parse, |oids|)|
    ensures RowsInOrder(oids, parse, |oids|)[i].index < RowsInOrder(oids, parse, |oids|)[j].index
  {
    hide RowsInOrder;
    var rows := RowsInOrder(oids, parse, |oids|);
    SequentialRows(oids, parse, 1, |oids|);
    SequentialSorted(oids, parse, |oids|);
    assert ByIndex()(rows[i], rows[j]);
    SequentialHolds(oids, parse, rows[i]);
    SequentialHolds(oids, parse, rows[j]);
    assert rows[i] != rows[j];
  }

  lemma RowsAreRight<R(!new)>(oids: seq<Oid>, parse: Oid -> Blob<R>)
    ensures RowsMean(oids, parse, RowsInOrder(oids, parse, |oids|))
  {
    hide RowsInOrder;
    var rows := RowsInOrder(oids, parse, |oids|);
    forall r: IndexedRow<R>
      ensures r in rows <==> r.index < |oids| && parse(oids[r.index]).Mail?
                             && parse(oids[r.index]).parsed == Parsed(r.row)
    {
      SequentialHolds(oids, parse, r);
    }
    forall i, j | 0 <= i < j < |rows|
      ensures rows[i].index < rows[j].index
    {
      IndexesDiffer(oids, parse, i, j);
    }
  }

  /** For every number of workers and every order in which the lanes finish: the rows and the
      counts are those of parsing one commit after the other. */
  method ParseCommitRows<R(!new,==)>(oids: seq<Oid>, workers: nat, parse: Oid -> Blob<R>)
    returns (r: Option<Outcome<R>>)
    ensures r.Some? <==> AllReadable(oids, parse)
    ensures r.Some? ==> r.value == Outcome(RowsInOrder(oids, parse, |oids|), CountsInOrder(oids, parse, |oids|))
    ensures r.Some? ==> RowsMean(oids, parse, r.value.rows) && CountsMean(oids, parse, |oids|, r.value.counts)
  {
    hide RowsMean, CountsMean, DoneCounts, HoldsRows;
    RowsAreRight(oids, parse);
    CountsAreRight(oids, parse, |oids|);
    if oids == [] {
      return Some(Outcome([], NoCounts()));
    }
    var lanes := PartitionOids(oids, workers);
    ReadableByLane(oids, parse, lanes);
    var rows: seq<IndexedRow<R>> := [];
    var counts := NoCounts();
    var running := AllLanes(|lanes|);
    ghost var done: set<nat> := {};
    NoLanes(oids, parse, |lanes|, |oids|);
    NoLaneRows(oids, parse, |lanes|);
    while running != {}
      invariant running + done == AllLanes(|lanes|) && running !! done
      invariant forall l, i | l in done && 0 <= i < |lanes[l]| :: parse(lanes[l][i].oid) != Unreadable
      invariant HoldsRows(oids, parse, |lanes|, done, |oids|, rows)
      invariant counts == DoneCounts(oids, parse, |lanes|, done, |oids|)
      decreases running
    {
      ghost var any := AnyOf(running);
      var l :| l in running;
      var outcome := ParsePartition(lanes[l], parse);
      if outcome.None? {
        return None;
      }
      LaneHoldsRows(oids, parse, |lanes|, l, |oids|);
      LaneCountsDone(oids, parse, |lanes|, l, |oids|);
      JoinRows(oids, parse, |lanes|, done, l, |oids|, rows, outcome.value.rows);
      MoreLanes(oids, parse, |lanes|, done, l, |oids|);
      rows := rows + outcome.value.rows;
      counts := Plus(counts, outcome.value.counts);
      running, done := running - {l}, done + {l};
    }
    assert done == AllLanes(|lanes|);
    SortedRowsAreSequential(oids, parse, |lanes|, rows);
    EveryLane(oids, parse, |lanes|, |oids|);
    return Some(Outcome(Sort(rows, ByIndex()), counts));
  }
}
