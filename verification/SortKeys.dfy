/** Paths of sibling positions and their byte encoding, `encode_sort_key`. */
module SortKeys {

  const SEGMENT_LIMIT: nat := 0x1_0000_0000

  /** Lexicographic order; a proper prefix comes first. Used for paths and for bytes. */
  predicate LexLess(a: seq<nat>, b: seq<nat>) {
    b != [] && (a == [] || a[0] < b[0] || (a[0] == b[0] && LexLess(a[1..], b[1..])))
  }

  /** `u32::to_be_bytes` of a position cast with `as u32`, which wraps. */
  function SegmentBytes(segment: nat): (b: seq<nat>)
    ensures |b| == 4 && forall i | 0 <= i < 4 :: b[i] < 256
  {
    var x := segment % SEGMENT_LIMIT;
    var y := x / 256;
    var z := y / 256;
    [z / 256, z % 256, y % 256, x % 256]
  }

  function EncodeSortKey(path: seq<nat>): (b: seq<nat>)
    ensures |b| == 4 * |path|
  {
    if path == [] then [] else SegmentBytes(path[0]) + EncodeSortKey(path[1..])
  }

  predicate Encodable(path: seq<nat>) {
    forall i | 0 <= i < |path| :: path[i] < SEGMENT_LIMIT
  }

  lemma {:induction false} LexLessPrefix(p: seq<nat>, a: seq<nat>, b: seq<nat>)
    ensures LexLess(p + a, p + b) <==> LexLess(a, b)
  {
    if p == [] {
      assert p + a == a && p + b == b;
    } else {
      LexLessPrefix(p[1..], a, b);
      assert (p + a)[1..] == p[1..] + a && (p + b)[1..] == p[1..] + b;
    }
  }

  lemma {:induction false} LexLessAsymmetric(a: seq<nat>, b: seq<nat>)
    requires LexLess(a, b)
    ensures !LexLess(b, a) && a != b
  {
    if a != [] && a[0] == b[0] {
      LexLessAsymmetric(a[1..], b[1..]);
    }
  }

  lemma {:induction false} LexLessTotal(a: seq<nat>, b: seq<nat>)
    ensures LexLess(a, b) || LexLess(b, a) || a == b
  {
    if a != [] && b != [] && a[0] == b[0] {
      LexLessTotal(a[1..], b[1..]);
      assert a == [a[0]] + a[1..] && b == [b[0]] + b[1..];
    }
  }

  lemma SegmentValue(x: nat)
    requires x < SEGMENT_LIMIT
    ensures var b := SegmentBytes(x);
            x == ((b[0] * 256 + b[1]) * 256 + b[2]) * 256 + b[3]
  {
  }

  lemma FirstDifference(u: seq<nat>, v: seq<nat>, i: nat, a: seq<nat>, b: seq<nat>)
    requires i < |u| && i < |v| && u[..i] == v[..i] && u[i] != v[i]
    ensures LexLess(u + a, v + b) <==> u[i] < v[i]
  {
    LexLessPrefix(u[..i], u[i..] + a, v[i..] + b);
    assert u + a == u[..i] + (u[i..] + a) && v + b == v[..i] + (v[i..] + b);
  }

  /** The first differing byte of two big-endian segments decides as the segments do. */
  lemma SegmentOrder(x: nat, y: nat, a: seq<nat>, b: seq<nat>)
    requires x < SEGMENT_LIMIT && y < SEGMENT_LIMIT
    ensures LexLess(SegmentBytes(x) + a, SegmentBytes(y) + b) <==> x < y || (x == y && LexLess(a, b))
  {
    var u, v := SegmentBytes(x), SegmentBytes(y);
    SegmentValue(x);
    SegmentValue(y);
    if x == y {
      LexLessPrefix(u, a, b);
    } else {
      var i := if u[0] != v[0] then 0 else if u[1] != v[1] then 1 else if u[2] != v[2] then 2 else 3;
      FirstDifference(u, v, i, a, b);
    }
  }

  /** Bytewise order of sort keys is the order of paths. */
  lemma {:induction false} EncodeKeepsOrder(p: seq<nat>, q: seq<nat>)
    requires Encodable(p) && Encodable(q)
    ensures LexLess(EncodeSortKey(p), EncodeSortKey(q)) <==> LexLess(p, q)
  {
    if p != [] && q != [] {
      SegmentOrder(p[0], q[0], EncodeSortKey(p[1..]), EncodeSortKey(q[1..]));
      EncodeKeepsOrder(p[1..], q[1..]);
    }
  }

  lemma SegmentsEqual(x: nat, y: nat)
    requires x < SEGMENT_LIMIT && y < SEGMENT_LIMIT && SegmentBytes(x) == SegmentBytes(y)
    ensures x == y
  {
    SegmentValue(x);
    SegmentValue(y);
  }

  /** One sort key is a prefix of another exactly when the paths are. */
  lemma {:induction false} EncodeKeepsPrefix(p: seq<nat>, q: seq<nat>)
    requires Encodable(p) && Encodable(q)
    ensures EncodeSortKey(p) <= EncodeSortKey(q) <==> p <= q
  {
    var u, v := EncodeSortKey(p), EncodeSortKey(q);
    if p != [] && q != [] {
      EncodeKeepsPrefix(p[1..], q[1..]);
      assert u[..4] == SegmentBytes(p[0]) && v[..4] == SegmentBytes(q[0]);
      assert u[4..] == EncodeSortKey(p[1..]) && v[4..] == EncodeSortKey(q[1..]);
      if u <= v {
        assert u[..4] == v[..4];
        SegmentsEqual(p[0], q[0]);
        assert u[4..] <= v[4..];
      }
      if p <= q {
        assert p[1..] <= q[1..];
        assert u == u[..4] + u[4..] && v == v[..4] + v[4..];
      }
    }
  }

  lemma {:induction false} EncodeConcat(p: seq<nat>, q: seq<nat>)
    ensures EncodeSortKey(p + q) == EncodeSortKey(p) + EncodeSortKey(q)
  {
    if p == [] {
      assert p + q == q;
    } else {
      assert (p + q)[1..] == p[1..] + q;
      EncodeConcat(p[1..], q);
    }
  }
}
