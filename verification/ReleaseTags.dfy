/** `assign_release_tags`: the first release that contains each commit, found by one walk of
    the history that all releases share. */
module ReleaseTags {
  import opened KernelTags
  import opened Sorting
  import opened Text
  import opened Wrappers

  datatype ObjectId = ObjectId(hex: string)

  /** What the object database holds under an id. */
  datatype GitObject = Commit(parents: seq<ObjectId>) | Other

  type Objects = map<ObjectId, GitObject>

  /** A reference under `refs/tags`, peeled; `parsed` is set if its name is a kernel tag. */
  datatype TagRef = TagRef(name: string, target: ObjectId, parsed: Option<KernelTag>)

  datatype ReleaseTag = ReleaseTag(name: string, target: ObjectId, parsed: KernelTag)

  datatype TagInfo = TagInfo(firstContainingTag: string, firstFinalRelease: string,
                             firstTagSortKey: int, firstReleaseSortKey: int)

  function InfoOf(t: ReleaseTag): TagInfo {
    TagInfo(t.name, t.parsed.FormatRelease(), t.parsed.TagSortKey(), t.parsed.ReleaseSortKey())
  }

  // ---- reachability ----

  function ParentsOf(g: Objects, c: ObjectId): seq<ObjectId> {
    if c in g && g[c].Commit? then g[c].parents else []
  }

  ghost predicate IsPath(g: Objects, p: seq<ObjectId>) {
    p != [] && forall i | 0 < i < |p| :: p[i] in ParentsOf(g, p[i - 1])
  }

  ghost predicate IsPathFromTo(g: Objects, p: seq<ObjectId>, a: ObjectId, c: ObjectId) {
    IsPath(g, p) && p[0] == a && p[|p| - 1] == c
  }

  /** `c` is `a` or an ancestor of `a`. */
  ghost predicate Reachable(g: Objects, a: ObjectId, c: ObjectId) {
    exists p :: IsPathFromTo(g, p, a, c)
  }

  lemma ReachesItself(g: Objects, a: ObjectId)
    ensures Reachable(g, a, a)
  {
    assert IsPathFromTo(g, [a], a, a);
  }

  lemma ReachesParent(g: Objects, a: ObjectId, c: ObjectId, parent: ObjectId)
    requires Reachable(g, a, c) && parent in ParentsOf(g, c)
    ensures Reachable(g, a, parent)
  {
    var p :| IsPathFromTo(g, p, a, c);
    assert IsPathFromTo(g, p + [parent], a, parent);
  }

  lemma ReachesTransitively(g: Objects, a: ObjectId, b: ObjectId, c: ObjectId)
    requires Reachable(g, a, b) && Reachable(g, b, c)
    ensures Reachable(g, a, c)
  {
    var p :| IsPathFromTo(g, p, a, b);
    var q :| IsPathFromTo(g, q, b, c);
    var r := p + q[1..];
    forall i | 0 < i < |r|
      ensures r[i] in ParentsOf(g, r[i - 1])
    {
      if i >= |p| {
        assert r[i] == q[i - |p| + 1] && r[i - 1] == q[i - |p|];
      }
    }
    assert IsPathFromTo(g, r, a, c);
  }

  /** A commit reaches itself and what its parents reach, and nothing else. */
  lemma ReachesByParents(g: Objects, a: ObjectId, c: ObjectId)
    ensures Reachable(g, a, c)
            <==> a == c || (a in g && g[a].Commit? && exists p :: p in g[a].parents && Reachable(g, p, c))
  {
    if a == c {
      ReachesItself(g, a);
    } else if Reachable(g, a, c) {
      var p :| IsPathFromTo(g, p, a, c);
      assert p[1] in ParentsOf(g, p[0]);
      assert IsPathFromTo(g, p[1..], p[1], c);
    } else if a in g && g[a].Commit? {
      forall p | p in g[a].parents
        ensures !Reachable(g, p, c)
      {
        ReachesItself(g, a);
        ReachesParent(g, a, a, p);
        if Reachable(g, p, c) {
          ReachesTransitively(g, a, p, c);
        }
      }
    }
  }

  /** Every parent of a member is a member or still to be visited. */
  ghost predicate ClosedBut(g: Objects, covered: set<ObjectId>, stack: seq<ObjectId>) {
    forall c, p | c in covered && p in ParentsOf(g, c) :: p in covered || p in stack
  }

  lemma {:induction false} ClosedHoldsPath(g: Objects, covered: set<ObjectId>, p: seq<ObjectId>, i: nat)
    requires ClosedBut(g, covered, []) && IsPath(g, p) && p[0] in covered && i < |p|
    ensures p[i] in covered
  {
    if i > 0 {
      ClosedHoldsPath(g, covered, p, i - 1);
      assert p[i] in ParentsOf(g, p[i - 1]);
    }
  }

  lemma ClosedHoldsReachable(g: Objects, covered: set<ObjectId>, a: ObjectId, c: ObjectId)
    requires ClosedBut(g, covered, []) && a in covered && Reachable(g, a, c)
    ensures c in covered
  {
    var p :| IsPathFromTo(g, p, a, c);
    ClosedHoldsPath(g, covered, p, |p| - 1);
  }

  // ---- the first tag that contains a commit ----

  /** `c` is reachable from one of the first `n` tags. */
  ghost predicate InOneOf(g: Objects, tags: seq<ReleaseTag>, n: nat, c: ObjectId)
    requires n <= |tags|
  {
    exists j: nat :: j < n && Reachable(g, tags[j].target, c)
  }

  /** The `i`th tag is the first of all from which `c` is reachable. */
  ghost predicate FirstTag(g: Objects, tags: seq<ReleaseTag>, i: nat, c: ObjectId) {
    i < |tags| && Reachable(g, tags[i].target, c) && !InOneOf(g, tags, i, c)
  }

  ghost predicate HasFirstTag(g: Objects, tags: seq<ReleaseTag>, c: ObjectId, info: TagInfo) {
    exists i: nat :: FirstTag(g, tags, i, c) && info == InfoOf(tags[i])
  }

  /** Exactly the targets in one of the first `n` tags are tagged, each with its first tag. */
  ghost predicate TagsFirst(g: Objects, tags: seq<ReleaseTag>, n: nat, targets: set<ObjectId>,
                            m: map<ObjectId, TagInfo>)
    requires n <= |tags|
  {
    && (forall c :: c in m <==> c in targets && InOneOf(g, tags, n, c))
    && (forall c | c in m :: HasFirstTag(g, tags, c, m[c]))
  }

  ghost predicate MissingObject(g: Objects, tags: seq<ReleaseTag>) {
    exists c :: InOneOf(g, tags, |tags|, c) && c !in g
  }

  /** What holds within the walk of one tag. `done` was covered before it. */
  ghost predicate Walking(g: Objects, tag: ReleaseTag, done: set<ObjectId>, covered: set<ObjectId>,
                          stack: seq<ObjectId>) {
    && done <= covered <= g.Keys
    && (forall c | c in covered - done :: Reachable(g, tag.target, c))
    && (forall c | c in stack :: Reachable(g, tag.target, c))
    && (tag.target in covered || tag.target in stack)
    && ClosedBut(g, covered, stack)
  }

  lemma VisitStep(g: Objects, tag: ReleaseTag, done: set<ObjectId>, covered: set<ObjectId>,
                  stack: seq<ObjectId>, c: ObjectId)
    requires Walking(g, tag, done, covered, stack + [c]) && c in g
    ensures Walking(g, tag, done, covered + {c}, if c in covered then stack else stack + ParentsOf(g, c))
  {
    var stack' := if c in covered then stack else stack + ParentsOf(g, c);
    var covered' := covered + {c};
    assert c in stack + [c];
    forall x | x in stack'
      ensures Reachable(g, tag.target, x)
    {
      if x in stack {
        assert x in stack + [c];
      } else {
        ReachesParent(g, tag.target, c, x);
      }
    }
    forall x, p | x in covered' && p in ParentsOf(g, x)
      ensures p in covered' || p in stack'
    {
      if x != c || c in covered {
        assert p in covered || p in stack + [c];
      }
    }
  }

  lemma WalkEnds(g: Objects, tag: ReleaseTag, done: set<ObjectId>, covered: set<ObjectId>, c: ObjectId)
    requires Walking(g, tag, done, covered, [])
    ensures c in covered <==> c in done || Reachable(g, tag.target, c)
  {
    if Reachable(g, tag.target, c) {
      ClosedHoldsReachable(g, covered, tag.target, c);
    }
  }

  lemma OneMore(g: Objects, tags: seq<ReleaseTag>, n: nat, c: ObjectId)
    requires n < |tags|
    ensures InOneOf(g, tags, n + 1, c) <==> InOneOf(g, tags, n, c) || Reachable(g, tags[n].target, c)
  {
  }

  /** The walk of one tag. A commit that an earlier tag covered is not visited again. */
  method CoverTag(g: Objects, tag: ReleaseTag, targets: set<ObjectId>, done: set<ObjectId>,
                  before: map<ObjectId, TagInfo>)
      returns (ok: bool, covered: set<ObjectId>, tagMap: map<ObjectId, TagInfo>)
    requires done <= g.Keys && ClosedBut(g, done, []) && before.Keys <= done
    ensures !ok ==> exists c :: Reachable(g, tag.target, c) && c !in g
    ensures ok ==> covered <= g.Keys && ClosedBut(g, covered, [])
    ensures ok ==> forall c :: c in covered <==> c in done || Reachable(g, tag.target, c)
    ensures ok ==> tagMap.Keys == before.Keys + (covered - done) * targets
    ensures ok ==> forall c | c in tagMap :: tagMap[c] == if c in before then before[c] else InfoOf(tag)
  {
    var info := InfoOf(tag);
    var stack := [tag.target];
    ok, covered, tagMap := true, done, before;
    ReachesItself(g, tag.target);
    while stack != []
      invariant Walking(g, tag, done, covered, stack)
      invariant tagMap.Keys == before.Keys + (covered - done) * targets
      invariant forall c | c in tagMap :: tagMap[c] == if c in before then before[c] else info
      decreases g.Keys - covered, |stack|
    {
      var c := stack[|stack| - 1];
      ghost var popped := stack;
      stack := stack[..|stack| - 1];
      assert popped == stack + [c];
      if c in covered {
        VisitStep(g, tag, done, covered, stack, c);
        assert covered + {c} == covered;
        continue;
      }
      if c !in g {
        return false, covered, tagMap;
      }
      VisitStep(g, tag, done, covered, stack, c);
      covered := covered + {c};
      if c in targets {
        tagMap := tagMap[c := info];
      }
      if g[c].Commit? {
        stack := stack + g[c].parents;
      } else {
        assert stack + [] == stack;
      }
    }
    forall c
      ensures c in covered <==> c in done || Reachable(g, tag.target, c)
    {
      WalkEnds(g, tag, done, covered, c);
    }
  }

  lemma TagsOneMore(g: Objects, tags: seq<ReleaseTag>, n: nat, targets: set<ObjectId>, done: set<ObjectId>,
                    before: map<ObjectId, TagInfo>, m: map<ObjectId, TagInfo>)
    requires n < |tags| && TagsFirst(g, tags, n, targets, before)
    requires forall c :: c in done <==> InOneOf(g, tags, n, c)
    requires forall c :: c in m <==> c in before || (c in targets && c !in done && Reachable(g, tags[n].target, c))
    requires forall c | c in m :: m[c] == if c in before then before[c] else InfoOf(tags[n])
    ensures TagsFirst(g, tags, n + 1, targets, m)
  {
    forall c
      ensures c in m <==> c in targets && InOneOf(g, tags, n + 1, c)
    {
      OneMore(g, tags, n, c);
    }
    forall c | c in m
      ensures HasFirstTag(g, tags, c, m[c])
    {
      assert c !in before ==> FirstTag(g, tags, n, c);
    }
  }

  /** Every target gets the first tag in order that contains it, and only targets that some
      tag contains get one; it fails exactly when the walk needs an object that is missing. */
  method AssignReleaseTags(g: Objects, tags: seq<ReleaseTag>, targets: set<ObjectId>)
      returns (r: Option<map<ObjectId, TagInfo>>)
    ensures r.None? <==> MissingObject(g, tags)
    ensures r.Some? ==> TagsFirst(g, tags, |tags|, targets, r.value)
  {
    var tagMap: map<ObjectId, TagInfo> := map[];
    var covered: set<ObjectId> := {};
    for i := 0 to |tags|
      invariant covered <= g.Keys && ClosedBut(g, covered, []) && tagMap.Keys <= covered
      invariant forall c :: c in covered <==> InOneOf(g, tags, i, c)
      invariant TagsFirst(g, tags, i, targets, tagMap)
    {
      ghost var done, before := covered, tagMap;
      var ok;
      ok, covered, tagMap := CoverTag(g, tags[i], targets, covered, tagMap);
      if !ok {
        return None;
      }
      forall c
        ensures c in covered <==> InOneOf(g, tags, i + 1, c)
      {
        OneMore(g, tags, i, c);
      }
      TagsOneMore(g, tags, i, targets, done, before, tagMap);
    }
    return Some(tagMap);
  }

  // ---- the releases themselves ----

  function ByKeyThenName(): (ReleaseTag, ReleaseTag) -> bool {
    (a: ReleaseTag, b: ReleaseTag) =>
      if a.parsed.TagSortKey() != b.parsed.TagSortKey() then a.parsed.TagSortKey() < b.parsed.TagSortKey()
      else StringLe(a.name, b.name)
  }

  lemma ByKeyThenNameOrder()
    ensures Linear(ByKeyThenName())
  {
    var le := ByKeyThenName();
    forall a, b
      ensures le(a, b) || le(b, a)
    {
      StringLeTotal(a.name, b.name);
    }
    forall a, b, c | le(a, b) && le(b, c)
      ensures le(a, c)
    {
      if a.parsed.TagSortKey() == b.parsed.TagSortKey() == c.parsed.TagSortKey() {
        StringLeTransitive(a.name, b.name, c.name);
      }
    }
  }

  predicate IsRelease(g: Objects, r: TagRef) {
    r.parsed.Some? && r.target in g && g[r.target].Commit?
  }

  function ReleaseOf(r: TagRef): ReleaseTag
    requires r.parsed.Some?
  {
    ReleaseTag(r.name, r.target, r.parsed.value)
  }

  /** Exactly the references that name a kernel release and point to a commit. */
  ghost predicate ListsReleases(g: Objects, refs: seq<TagRef>, n: nat, tags: seq<ReleaseTag>)
    requires n <= |refs|
  {
    && (forall t | t in tags :: exists i: nat :: i < n && IsRelease(g, refs[i]) && t == ReleaseOf(refs[i]))
    && (forall i | 0 <= i < n && IsRelease(g, refs[i]) :: ReleaseOf(refs[i]) in tags)
  }

  method CollectReleaseTags(g: Objects, refs: seq<TagRef>) returns (r: Option<seq<ReleaseTag>>)
    ensures r.None? <==> exists i :: 0 <= i < |refs| && refs[i].parsed.Some? && refs[i].target !in g
    ensures r.Some? ==> ListsReleases(g, refs, |refs|, r.value) && SortedBy(r.value, ByKeyThenName())
  {
    var tags: seq<ReleaseTag> := [];
    for i := 0 to |refs|
      invariant forall j | 0 <= j < i && refs[j].parsed.Some? :: refs[j].target in g
      invariant ListsReleases(g, refs, i, tags)
    {
      if refs[i].parsed.None? {
        continue;
      }
      if refs[i].target !in g {
        return None;
      }
      if !g[refs[i].target].Commit? {
        continue;
      }
      tags := tags + [ReleaseTag(refs[i].name, refs[i].target, refs[i].parsed.value)];
    }
    var sorted := Sort(tags, ByKeyThenName());
    ByKeyThenNameOrder();
    SortSorted(tags, ByKeyThenName());
    SortMultiset(tags, ByKeyThenName());
    SameElements(tags, sorted);
    return Some(sorted);
  }

  /** `info` is that of a release which contains `c` and precedes every other one that does. */
  ghost predicate LeastRelease(g: Objects, refs: seq<TagRef>, c: ObjectId, info: TagInfo) {
    exists i :: 0 <= i < |refs| && IsLeast(g, refs, c, refs[i]) && info == InfoOf(ReleaseOf(refs[i]))
  }

  ghost predicate Contains(g: Objects, r: TagRef, c: ObjectId) {
    IsRelease(g, r) && Reachable(g, r.target, c)
  }

  ghost predicate IsLeast(g: Objects, refs: seq<TagRef>, c: ObjectId, r: TagRef) {
    && Contains(g, r, c)
    && forall q | q in refs && Contains(g, q, c) :: ByKeyThenName()(ReleaseOf(r), ReleaseOf(q))
  }

  lemma FirstIsLeast(g: Objects, refs: seq<TagRef>, tags: seq<ReleaseTag>, i: nat, c: ObjectId)
    requires ListsReleases(g, refs, |refs|, tags) && SortedBy(tags, ByKeyThenName())
    requires FirstTag(g, tags, i, c)
    ensures LeastRelease(g, refs, c, InfoOf(tags[i]))
  {
    var le := ByKeyThenName();
    ByKeyThenNameOrder();
    assert tags[i] in tags;
    var k: nat :| k < |refs| && IsRelease(g, refs[k]) && tags[i] == ReleaseOf(refs[k]);
    forall q | q in refs && Contains(g, q, c)
      ensures le(ReleaseOf(refs[k]), ReleaseOf(q))
    {
      var l :| 0 <= l < |refs| && refs[l] == q;
      var j: nat :| j < |tags| && tags[j] == ReleaseOf(q);
      assert j >= i;
      assert le(tags[i], tags[i]);
    }
    assert IsLeast(g, refs, c, refs[k]);
  }

  lemma SomeRelease(g: Objects, refs: seq<TagRef>, tags: seq<ReleaseTag>, c: ObjectId)
    requires ListsReleases(g, refs, |refs|, tags)
    ensures InOneOf(g, tags, |tags|, c) <==> exists q :: q in refs && Contains(g, q, c)
  {
    if InOneOf(g, tags, |tags|, c) {
      var j: nat :| j < |tags| && Reachable(g, tags[j].target, c);
      assert tags[j] in tags;
      var k: nat :| k < |refs| && IsRelease(g, refs[k]) && tags[j] == ReleaseOf(refs[k]);
      assert refs[k] in refs && Contains(g, refs[k], c);
    }
    if q :| q in refs && Contains(g, q, c) {
      var l :| 0 <= l < |refs| && refs[l] == q;
      var j: nat :| j < |tags| && tags[j] == ReleaseOf(q);
    }
  }

  /** Some reference that names a kernel release points to an object that is missing. */
  ghost predicate MissingTarget(g: Objects, refs: seq<TagRef>) {
    exists i :: 0 <= i < |refs| && refs[i].parsed.Some? && refs[i].target !in g
  }

  ghost predicate MissingAncestor(g: Objects, refs: seq<TagRef>) {
    exists c, q :: q in refs && Contains(g, q, c) && c !in g
  }

  /** What is recorded for a reference: the weighted sum of the version's digits, where a final
      release counts as candidate 999, and the version without its candidate. */
  ghost predicate Describes(info: TagInfo, name: string, t: KernelTag) {
    && info.firstContainingTag == name
    && info.firstReleaseSortKey == 1000 * (1000 * (1000 * t.major + t.minor) + t.patch)
    && info.firstTagSortKey == info.firstReleaseSortKey + (if t.rc.Some? then t.rc.value else 999)
    && info.firstFinalRelease == "v" + IntText(t.major) + "." + IntText(t.minor)
       + (if t.patch == 0 then "" else "." + IntText(t.patch))
  }

  /** `r` is not later than `q`, by the sums, and by the names if these are equal. */
  ghost predicate NotLater(r: TagRef, q: TagRef)
    requires r.parsed.Some? && q.parsed.Some?
  {
    forall a, b | Describes(a, r.name, r.parsed.value) && Describes(b, q.name, q.parsed.value) ::
      a.firstTagSortKey < b.firstTagSortKey || (a.firstTagSortKey == b.firstTagSortKey && TextLe(r.name, q.name))
  }

  ghost predicate TaggedWith(g: Objects, refs: seq<TagRef>, c: ObjectId, info: TagInfo, r: TagRef) {
    && r in refs && r.parsed.Some? && Reachable(g, r.target, c)
    && Describes(info, r.name, r.parsed.value)
    && forall q | q in refs && q.parsed.Some? && Reachable(g, q.target, c) && q.target in g && g[q.target].Commit? ::
         NotLater(r, q)
  }

  ghost predicate WellTagged(g: Objects, refs: seq<TagRef>, c: ObjectId, info: TagInfo) {
    exists r :: TaggedWith(g, refs, c, info, r)
  }

  lemma BeforeIsNotLater(r: TagRef, q: TagRef)
    requires r.parsed.Some? && q.parsed.Some? && ByKeyThenName()(ReleaseOf(r), ReleaseOf(q))
    ensures NotLater(r, q)
  {
    hide TextLe, IntText, StringLe;
    StringLeMeans(r.name, q.name);
  }

  lemma InfoDescribes(r: TagRef)
    requires r.parsed.Some?
    ensures Describes(InfoOf(ReleaseOf(r)), r.name, r.parsed.value)
  {
    hide IntText;
  }

  lemma LeastIsNotLater(g: Objects, refs: seq<TagRef>, c: ObjectId, r: TagRef, q: TagRef)
    requires IsLeast(g, refs, c, r) && q in refs && Contains(g, q, c)
    ensures NotLater(r, q)
  {
    hide NotLater, Reachable;
    BeforeIsNotLater(r, q);
  }

  lemma LeastIsWellTagged(g: Objects, refs: seq<TagRef>, c: ObjectId, info: TagInfo)
    requires LeastRelease(g, refs, c, info)
    ensures WellTagged(g, refs, c, info)
  {
    hide NotLater, Reachable, Describes, InfoOf;
    var i :| 0 <= i < |refs| && IsLeast(g, refs, c, refs[i]) && info == InfoOf(ReleaseOf(refs[i]));
    var r := refs[i];
    InfoDescribes(r);
    forall q | q in refs && q.parsed.Some? && Reachable(g, q.target, c) && q.target in g && g[q.target].Commit?
      ensures NotLater(r, q)
    {
      assert Contains(g, q, c);
      LeastIsNotLater(g, refs, c, r, q);
    }
    assert TaggedWith(g, refs, c, info, r);
  }

  /** Collecting and assigning together: it fails exactly if an object is missing that some
      release leads to; otherwise a target is tagged exactly if some release contains it, and
      then with the least such release. */
  method TagCommits(g: Objects, refs: seq<TagRef>, targets: set<ObjectId>)
      returns (r: Option<map<ObjectId, TagInfo>>)
    ensures r.None? <==> MissingTarget(g, refs) || MissingAncestor(g, refs)
    ensures r.Some? ==> forall c :: c in r.value <==> c in targets && exists q :: q in refs && Contains(g, q, c)
    ensures r.Some? ==> forall c | c in r.value ::
                          LeastRelease(g, refs, c, r.value[c]) && WellTagged(g, refs, c, r.value[c])
  {
    var tags := CollectReleaseTags(g, refs);
    if tags.None? {
      return None;
    }
    r := AssignReleaseTags(g, tags.value, targets);
    forall c
      ensures InOneOf(g, tags.value, |tags.value|, c) <==> exists q :: q in refs && Contains(g, q, c)
    {
      SomeRelease(g, refs, tags.value, c);
    }
    if r.Some? {
      forall c | c in r.value
        ensures LeastRelease(g, refs, c, r.value[c]) && WellTagged(g, refs, c, r.value[c])
      {
        assert HasFirstTag(g, tags.value, c, r.value[c]);
        var i: nat :| FirstTag(g, tags.value, i, c) && r.value[c] == InfoOf(tags.value[i]);
        FirstIsLeast(g, refs, tags.value, i, c);
        LeastIsWellTagged(g, refs, c, r.value[c]);
      }
    }
  }

  /** For tags whose parts fit the key (`OrderedExactlyIfFitting`), the tag of a commit is the
      least kernel version that contains it. */
  lemma LeastVersion(g: Objects, refs: seq<TagRef>, c: ObjectId, r: TagRef, q: TagRef)
    requires IsLeast(g, refs, c, r) && q in refs && Contains(g, q, c)
    requires r.parsed.value.Fits() && q.parsed.value.Fits()
    ensures r.parsed == q.parsed || VersionLess(r.parsed.value, q.parsed.value)
  {
    KeyOrder(r.parsed.value, q.parsed.value);
    assert ByKeyThenName()(ReleaseOf(r), ReleaseOf(q));
  }

  lemma KeysGrow(tags: seq<ReleaseTag>, j: nat, i: nat)
    requires SortedBy(tags, ByKeyThenName()) && j <= i < |tags|
    ensures tags[j].parsed.TagSortKey() <= tags[i].parsed.TagSortKey()
  {
    assert j < i ==> ByKeyThenName()(tags[j], tags[i]);
  }

  lemma TagOf(g: Objects, tags: seq<ReleaseTag>, targets: set<ObjectId>, m: map<ObjectId, TagInfo>, c: ObjectId)
      returns (i: nat)
    requires TagsFirst(g, tags, |tags|, targets, m) && c in m
    ensures FirstTag(g, tags, i, c) && m[c].firstTagSortKey == tags[i].parsed.TagSortKey()
  {
    assert HasFirstTag(g, tags, c, m[c]);
    i :| FirstTag(g, tags, i, c) && m[c] == InfoOf(tags[i]);
  }

  /** An ancestor of a tagged target is never tagged with a later tag. */
  lemma AncestorsAreNotLater(g: Objects, tags: seq<ReleaseTag>, targets: set<ObjectId>, m: map<ObjectId, TagInfo>,
                             c: ObjectId, a: ObjectId)
    requires TagsFirst(g, tags, |tags|, targets, m) && SortedBy(tags, ByKeyThenName())
    requires c in m && a in targets && Reachable(g, c, a)
    ensures a in m && m[a].firstTagSortKey <= m[c].firstTagSortKey
  {
    var i := TagOf(g, tags, targets, m, c);
    ReachesTransitively(g, tags[i].target, c, a);
    assert InOneOf(g, tags, |tags|, a);
    var j := TagOf(g, tags, targets, m, a);
    KeysGrow(tags, j, i);
  }
}
