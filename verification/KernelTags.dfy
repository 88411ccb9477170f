/** Kernel release tags: the integer keys they are sorted by and the order of versions. */
module KernelTags {
  import opened Text
  import opened Wrappers

  datatype KernelTag = KernelTag(major: nat, minor: nat, patch: nat, rc: Option<nat>) {
    function ReleaseSortKey(): int {
      major * 1_000_000_000 + minor * 1_000_000 + patch * 1_000
    }

    function TagSortKey(): int {
      ReleaseSortKey() + rc.GetOr(999)
    }

    function FormatRelease(): string {
      if patch == 0 then "v" + IntText(major) + "." + IntText(minor)
      else "v" + IntText(major) + "." + IntText(minor) + "." + IntText(patch)
    }

    /** The components have room in the key; `rc` 999 is what a final release counts as. */
    predicate Fits() {
      minor <= 999 && patch <= 999 && rc.GetOr(0) <= 998
    }

    /** Beyond this the key overflows 64 bits. */
    predicate KeyFitsI64() {
      TagSortKey() <= 0x7FFF_FFFF_FFFF_FFFF
    }
  }

  /** Versions in the order of their releases: candidates before the final release. */
  predicate VersionLess(a: KernelTag, b: KernelTag) {
    if a.major != b.major then a.major < b.major
    else if a.minor != b.minor then a.minor < b.minor
    else if a.patch != b.patch then a.patch < b.patch
    else if a.rc.Some? && b.rc.Some? then a.rc.value < b.rc.value
    else a.rc.Some? && b.rc.None?
  }

  /** One weighted sum of digits below the base orders as its digits do. */
  lemma DigitOrder(high: int, low: int, high': int, low': int)
    requires 0 <= low < 1000 && 0 <= low' < 1000
    ensures 1000 * high + low < 1000 * high' + low' <==> high < high' || (high == high' && low < low')
  {
  }

  /** The key order is the version order, also between equal versions. */
  lemma KeyOrder(a: KernelTag, b: KernelTag)
    requires a.Fits() && b.Fits()
    ensures a.TagSortKey() < b.TagSortKey() <==> VersionLess(a, b)
    ensures a.TagSortKey() == b.TagSortKey() <==> a == b
  {
    var p, q := a.rc.GetOr(999), b.rc.GetOr(999);
    var x, y := 1000 * a.major + a.minor, 1000 * b.major + b.minor;
    var u, v := 1000 * x + a.patch, 1000 * y + b.patch;
    DigitOrder(a.major, a.minor, b.major, b.minor);
    DigitOrder(b.major, b.minor, a.major, a.minor);
    DigitOrder(x, a.patch, y, b.patch);
    DigitOrder(y, b.patch, x, a.patch);
    DigitOrder(u, p, v, q);
    DigitOrder(v, q, u, p);
    assert a.TagSortKey() == 1000 * u + p && b.TagSortKey() == 1000 * v + q;
  }

  /** Against every fitting tag, the key order is the version order. */
  ghost predicate OrderedAmongFitting(t: KernelTag) {
    forall u: KernelTag | u.Fits() ::
      && (t.TagSortKey() < u.TagSortKey() <==> VersionLess(t, u))
      && (u.TagSortKey() < t.TagSortKey() <==> VersionLess(u, t))
  }

  /** A fitting tag that is misplaced when a component has no room in the key. */
  function Misplaced(t: KernelTag): KernelTag {
    if t.minor > 999 || (t.patch > 999 && t.minor == 999) then KernelTag(t.major + 1, 0, 0, Some(0))
    else if t.patch > 999 then KernelTag(t.major, t.minor + 1, 0, Some(0))
    else t.(rc := None)
  }

  lemma MisplacedIsLater(t: KernelTag)
    requires !t.Fits()
    ensures Misplaced(t).Fits() && VersionLess(t, Misplaced(t))
    ensures Misplaced(t).TagSortKey() <= t.TagSortKey()
  {
  }

  /** The keys order a tag correctly exactly if all its components have room in the key. */
  lemma OrderedExactlyIfFitting(t: KernelTag)
    ensures t.Fits() <==> OrderedAmongFitting(t)
  {
    if t.Fits() {
      forall u: KernelTag | u.Fits()
        ensures t.TagSortKey() < u.TagSortKey() <==> VersionLess(t, u)
        ensures u.TagSortKey() < t.TagSortKey() <==> VersionLess(u, t)
      {
        KeyOrder(t, u);
        KeyOrder(u, t);
      }
    } else {
      MisplacedIsLater(t);
    }
  }

  /** Every candidate numbered 999 has the key of its final release, and every one with a
      greater number follows it. */
  lemma LargeCandidateBreaksOrder(t: KernelTag)
    requires t.rc.Some?
    ensures var final := t.(rc := None);
            && VersionLess(t, final)
            && (t.TagSortKey() == final.TagSortKey() <==> t.rc.value == 999)
            && (final.TagSortKey() < t.TagSortKey() <==> t.rc.value > 999)
  {
  }

  /** Up to this major, and no further, the keys of all fitting tags stay within 64 bits. */
  lemma KeyStaysInI64(major: nat)
    ensures (forall t: KernelTag | t.Fits() && t.major == major :: t.KeyFitsI64()) <==> major <= 9_223_372_035
  {
    var largest := KernelTag(major, 999, 999, None);
    assert largest.Fits() && (largest.KeyFitsI64() <==> major <= 9_223_372_035);
  }
}
