/** Stable sorting (Rust's `sort_by_key`) and the enumeration of hash collections.
    The facts proved here are the ones that make a result independent of the order in
    which a `HashMap` or `HashSet` happens to be iterated. */
module Sorting {

  ghost predicate Linear<T(!new)>(le: (T, T) -> bool) {
    && (forall x, y :: le(x, y) || le(y, x))
    && (forall x, y, z :: le(x, y) && le(y, z) ==> le(x, z))
  }

  ghost predicate TiesAreEqual<T>(le: (T, T) -> bool, s: seq<T>) {
    forall x, y | x in s && y in s && le(x, y) && le(y, x) :: x == y
  }

  predicate SortedBy<T>(s: seq<T>, le: (T, T) -> bool) {
    forall i, j {:trigger le(s[i], s[j])} | 0 <= i < j < |s| :: le(s[i], s[j])
  }

  ghost predicate NoDuplicates<T>(s: seq<T>) {
    forall i, j | 0 <= i < j < |s| :: s[i] != s[j]
  }

  /** Puts `x` in front of the first element it does not exceed, so that an earlier
      element stays in front of the equal ones that follow it. */
  function Insert<T>(x: T, s: seq<T>, le: (T, T) -> bool): seq<T> {
    if s == [] then [x]
    else if le(x, s[0]) then [x] + s
    else [s[0]] + Insert(x, s[1..], le)
  }

  /** `sort_by_key` */
  function Sort<T>(s: seq<T>, le: (T, T) -> bool): seq<T> {
    if s == [] then [] else Insert(s[0], Sort(s[1..], le), le)
  }

  lemma {:induction false} InsertMultiset<T>(x: T, s: seq<T>, le: (T, T) -> bool)
    ensures multiset(Insert(x, s, le)) == multiset(s) + multiset{x}
  {
    if s != [] && !le(x, s[0]) {
      InsertMultiset(x, s[1..], le);
      assert s == [s[0]] + s[1..];
    }
  }

  lemma {:induction false} SortMultiset<T>(s: seq<T>, le: (T, T) -> bool)
    ensures multiset(Sort(s, le)) == multiset(s)
    ensures |Sort(s, le)| == |s|
  {
    if s != [] {
      SortMultiset(s[1..], le);
      InsertMultiset(s[0], Sort(s[1..], le), le);
      assert s == [s[0]] + s[1..];
    }
    SameElements(s, Sort(s, le));
  }

  lemma ConcatAssociative<T>(a: seq<T>, b: seq<T>, c: seq<T>)
    ensures a + b + c == a + (b + c)
  {
  }

  lemma InMultiset<T>(x: T, s: seq<T>)
    ensures x in s <==> x in multiset(s)
  {
  }

  lemma {:induction false} InsertSorted<T(!new)>(x: T, s: seq<T>, le: (T, T) -> bool)
    requires Linear(le) && SortedBy(s, le)
    ensures SortedBy(Insert(x, s, le), le)
  {
    if s != [] && !le(x, s[0]) {
      InsertSorted(x, s[1..], le);
      var rest := Insert(x, s[1..], le);
      InsertMultiset(x, s[1..], le);
      forall y | y in rest
        ensures le(s[0], y)
      {
        InMultiset(y, rest);
        if y != x {
          assert y in multiset(s[1..]);
          InMultiset(y, s[1..]);
        }
      }
    } else if s != [] {
      forall j | 0 <= j < |s|
        ensures le(x, s[j])
      {
        assert j == 0 || le(s[0], s[j]);
      }
    }
  }

  lemma {:induction false} SortSorted<T(!new)>(s: seq<T>, le: (T, T) -> bool)
    requires Linear(le)
    ensures SortedBy(Sort(s, le), le)
  {
    if s != [] {
      SortSorted(s[1..], le);
      InsertSorted(s[0], Sort(s[1..], le), le);
    }
  }

  lemma SameElements<T>(a: seq<T>, b: seq<T>)
    requires multiset(a) == multiset(b)
    ensures |a| == |b|
    ensures forall x :: x in a <==> x in b
  {
    assert |multiset(a)| == |a| && |multiset(b)| == |b|;
    forall x
      ensures x in a <==> x in b
    {
      InMultiset(x, a);
      InMultiset(x, b);
    }
  }

  lemma TailMultiset<T>(s: seq<T>)
    requires s != []
    ensures multiset(s[1..]) == multiset(s) - multiset{s[0]}
  {
    assert s == [s[0]] + s[1..];
  }

  lemma HeadIsLeast<T>(s: seq<T>, x: T, le: (T, T) -> bool)
    requires SortedBy(s, le) && s != [] && x in s && le(x, x)
    ensures le(s[0], x)
  {
    var i :| 0 <= i < |s| && s[i] == x;
  }

  /** A sorted sequence without ties is determined by its elements alone. */
  lemma {:induction false} SortedUnique<T>(a: seq<T>, b: seq<T>, le: (T, T) -> bool)
    requires TiesAreEqual(le, a) && forall x | x in a :: le(x, x)
    requires SortedBy(a, le) && SortedBy(b, le)
    requires multiset(a) == multiset(b)
    ensures a == b
  {
    SameElements(a, b);
    if a != [] {
      HeadIsLeast(a, b[0], le);
      HeadIsLeast(b, a[0], le);
      assert a[0] == b[0];
      TailMultiset(a);
      TailMultiset(b);
      SortedUnique(a[1..], b[1..], le);
      assert a == [a[0]] + a[1..] && b == [b[0]] + b[1..];
    }
  }

  /** Sorting forgets the input order when no two elements tie. */
  lemma SortPermutation<T(!new)>(a: seq<T>, b: seq<T>, le: (T, T) -> bool)
    requires Linear(le) && TiesAreEqual(le, a)
    requires multiset(a) == multiset(b)
    ensures Sort(a, le) == Sort(b, le)
  {
    SortSorted(a, le);
    SortSorted(b, le);
    SortMultiset(a, le);
    SortMultiset(b, le);
    SameElements(a, Sort(a, le));
    SortedUnique(Sort(a, le), Sort(b, le), le);
  }

  lemma {:induction false} InsertAgree<T>(x: T, s: seq<T>, le: (T, T) -> bool, le': (T, T) -> bool)
    requires forall y | y in s :: le(x, y) == le'(x, y)
    ensures Insert(x, s, le) == Insert(x, s, le')
  {
    if s != [] {
      InsertAgree(x, s[1..], le, le');
    }
  }

  lemma SortedElement<T>(x: T, s: seq<T>, le: (T, T) -> bool)
    ensures x in Sort(s, le) <==> x in s
  {
    SortMultiset(s, le);
    SameElements(s, Sort(s, le));
  }

  ghost predicate AgreeOn<T>(s: seq<T>, le: (T, T) -> bool, le': (T, T) -> bool) {
    forall i, j | 0 <= i < |s| && 0 <= j < |s| :: le(s[i], s[j]) == le'(s[i], s[j])
  }

  /** Only the order among the elements themselves matters. */
  lemma {:induction false} SortAgree<T>(s: seq<T>, le: (T, T) -> bool, le': (T, T) -> bool)
    requires AgreeOn(s, le, le')
    ensures Sort(s, le) == Sort(s, le')
  {
    if s != [] {
      var rest := Sort(s[1..], le);
      assert AgreeOn(s[1..], le, le') by {
        forall i, j | 0 <= i < |s[1..]| && 0 <= j < |s[1..]|
          ensures le(s[1..][i], s[1..][j]) == le'(s[1..][i], s[1..][j])
        {
          assert s[1..][i] == s[i+1] && s[1..][j] == s[j+1];
        }
      }
      SortAgree(s[1..], le, le');
      forall y | y in rest
        ensures le(s[0], y) == le'(s[0], y)
      {
        SortedElement(y, s[1..], le);
        var j :| 0 <= j < |s[1..]| && s[1..][j] == y;
        assert s[j+1] == y;
      }
      InsertAgree(s[0], rest, le, le');
    }
  }

  lemma AnyOf<T>(s: set<T>) returns (x: T)
    requires s != {}
    ensures x in s
  {
    x :| x in s;
  }

  /** Some order of iterating a hash collection. */
  ghost function Enumerate<T(!new)>(s: set<T>): seq<T> {
    if s == {} then [] else var x :| x in s; [x] + Enumerate(s - {x})
  }

  lemma {:induction false} EnumerateMultiset<T(!new)>(s: set<T>)
    ensures multiset(Enumerate(s)) == multiset(s)
  {
    if s != {} {
      var q := Enumerate(s);
      assert q[0] in s && q[1..] == Enumerate(s - {q[0]});
      EnumerateMultiset(s - {q[0]});
      assert q == [q[0]] + q[1..];
      assert multiset(s) == multiset(s - {q[0]}) + multiset{q[0]};
    }
  }

  ghost predicate IsSorting<T(!new)>(s: set<T>, le: (T, T) -> bool, r: seq<T>) {
    multiset(r) == multiset(s) && SortedBy(r, le)
  }

  /** The elements of a hash collection in sorted order. */
  ghost function SortSet<T(!new)>(s: set<T>, le: (T, T) -> bool): seq<T> {
    if Linear(le) then
      SortingExists(s, le);
      var r :| IsSorting(s, le, r); r
    else []
  }

  lemma SortingExists<T(!new)>(s: set<T>, le: (T, T) -> bool)
    requires Linear(le)
    ensures exists r :: IsSorting(s, le, r)
  {
    EnumerateMultiset(s);
    SortMultiset(Enumerate(s), le);
    SortSorted(Enumerate(s), le);
    assert IsSorting(s, le, Sort(Enumerate(s), le));
  }

  lemma SetSeqFacts<T>(s: set<T>, q: seq<T>)
    requires multiset(q) == multiset(s)
    ensures NoDuplicates(q) && |q| == |s|
    ensures forall x :: x in q <==> x in s
  {
    assert |multiset(q)| == |q|;
    forall x
      ensures x in q <==> x in s
    {
      InMultiset(x, q);
    }
    forall i, j | 0 <= i < j < |q|
      ensures q[i] != q[j]
    {
      assert q == q[..j] + q[j..] && q[..j][i] == q[i] && q[j..][0] == q[j];
      assert multiset(q) == multiset(q[..j]) + multiset(q[j..]);
      assert q[i] in multiset(q[..j]) && q[j] in multiset(q[j..]);
      assert multiset(q)[q[i]] <= 1;
    }
  }

  lemma SortSetFacts<T(!new)>(s: set<T>, le: (T, T) -> bool)
    requires Linear(le)
    ensures var r := SortSet(s, le);
            && NoDuplicates(r) && |r| == |s| && SortedBy(r, le)
            && forall x :: x in r <==> x in s
  {
    SortingExists(s, le);
    SetSeqFacts(s, SortSet(s, le));
  }

  lemma {:induction false} DistinctSeqIsSet<T>(q: seq<T>, s: set<T>)
    requires NoDuplicates(q) && forall x :: x in q <==> x in s
    ensures multiset(q) == multiset(s)
  {
    if q != [] {
      assert q[0] in q && q[0] in s;
      assert forall x :: x in q[1..] <==> x in s - {q[0]} by {
        forall x
          ensures x in q[1..] <==> x in s - {q[0]}
        {
          assert q == [q[0]] + q[1..];
          if x in q[1..] {
            var i :| 0 <= i < |q[1..]| && q[1..][i] == x;
            assert q[i+1] == x;
          }
        }
      }
      DistinctSeqIsSet(q[1..], s - {q[0]});
      assert q == [q[0]] + q[1..];
      assert multiset(s) == multiset(s - {q[0]}) + multiset{q[0]};
    } else {
      assert s == {};
    }
  }

  /** Whatever the iteration order, collecting and sorting gives `SortSet`. */
  lemma SortSetOf<T(!new)>(q: seq<T>, s: set<T>, le: (T, T) -> bool)
    requires Linear(le) && multiset(q) == multiset(s) && TiesAreEqual(le, q)
    ensures Sort(q, le) == SortSet(s, le)
  {
    SortingExists(s, le);
    SortMultiset(q, le);
    SortSorted(q, le);
    SameElements(q, Sort(q, le));
    SortedUnique(Sort(q, le), SortSet(s, le), le);
  }
}
