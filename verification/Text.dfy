/** The text primitives that several components share: Rust's order on strings, trimming,
    ASCII lowering and decimal rendering. */
module Text {

  /** Rust's `str` order: bytewise on UTF-8, which is the order of code points. */
  predicate StringLe(a: string, b: string) {
    a == [] || (b != [] && (a[0] < b[0] || (a[0] == b[0] && StringLe(a[1..], b[1..]))))
  }

  lemma {:induction false} StringLeTotal(a: string, b: string)
    ensures StringLe(a, b) || StringLe(b, a)
  {
    if a != [] && b != [] {
      StringLeTotal(a[1..], b[1..]);
    }
  }

  lemma {:induction false} StringLeTransitive(a: string, b: string, c: string)
    requires StringLe(a, b) && StringLe(b, c)
    ensures StringLe(a, c)
  {
    if a != [] && a[0] == b[0] == c[0] {
      StringLeTransitive(a[1..], b[1..], c[1..]);
    }
  }

  lemma {:induction false} StringLeAntisymmetric(a: string, b: string)
    requires StringLe(a, b) && StringLe(b, a)
    ensures a == b
  {
    if a != [] {
      StringLeAntisymmetric(a[1..], b[1..]);
      assert a == [a[0]] + a[1..] && b == [b[0]] + b[1..];
    }
  }

  /** The order of texts: a prefix comes first, and otherwise the first character that differs
      decides. */
  ghost predicate TextLe(a: string, b: string) {
    a <= b || exists i: nat :: LowerAt(a, b, i)
  }

  ghost predicate LowerAt(a: string, b: string, i: nat) {
    i < |a| && i < |b| && a[..i] == b[..i] && a[i] < b[i]
  }

  lemma LowerBehind(a: string, b: string, i: nat)
    requires a != [] && b != [] && a[0] == b[0]
    ensures LowerAt(a, b, i + 1) <==> LowerAt(a[1..], b[1..], i)
  {
    if i < |a[1..]| && i < |b[1..]| {
      assert a[..i + 1] == [a[0]] + a[1..][..i] && b[..i + 1] == [b[0]] + b[1..][..i];
      assert a[1..][..i] == a[..i + 1][1..] && b[1..][..i] == b[..i + 1][1..];
    }
  }

  lemma LowerFirst(a: string, b: string, i: nat)
    requires a != [] && b != []
    ensures LowerAt(a, b, 0) <==> a[0] < b[0]
    ensures LowerAt(a, b, i) && i > 0 ==> a[0] == b[0]
  {
    assert a[..0] == b[..0];
    if LowerAt(a, b, i) && i > 0 {
      assert a[..i][0] == b[..i][0];
    }
  }

  lemma PrefixBehind(a: string, b: string)
    requires a != [] && b != []
    ensures a <= b <==> a[0] == b[0] && a[1..] <= b[1..]
  {
    assert a == [a[0]] + a[1..] && b == [b[0]] + b[1..];
  }

  lemma {:induction false} StringLeMeans(a: string, b: string)
    ensures StringLe(a, b) <==> TextLe(a, b)
  {
    hide LowerAt;
    if a != [] && b != [] {
      PrefixBehind(a, b);
      LowerFirst(a, b, 0);
      if a[0] == b[0] {
        StringLeMeans(a[1..], b[1..]);
        if i: nat :| LowerAt(a[1..], b[1..], i) {
          LowerBehind(a, b, i);
        }
        if i: nat :| LowerAt(a, b, i) {
          LowerBehind(a, b, i - 1);
        }
      } else if i: nat :| LowerAt(a, b, i) {
        LowerFirst(a, b, i);
      }
    } else {
      EndsAreNotLower(a, b);
    }
  }

  lemma EndsAreNotLower(a: string, b: string)
    requires a == [] || b == []
    ensures forall i: nat :: !LowerAt(a, b, i)
  {
  }

  /** The characters of Unicode's White_Space property, which Rust's `trim` removes. */
  predicate IsWhitespace(c: char) {
    || '\U{0009}' <= c <= '\U{000D}' || c == '\U{0020}' || c == '\U{0085}' || c == '\U{00A0}'
    || c == '\U{1680}' || '\U{2000}' <= c <= '\U{200A}' || c == '\U{2028}' || c == '\U{2029}'
    || c == '\U{202F}' || c == '\U{205F}' || c == '\U{3000}'
  }

  function TrimStart(s: string, drop: char -> bool): (r: string)
    ensures |r| <= |s| && (|r| == |s| ==> r == s)
    ensures r == [] || !drop(r[0])
  {
    if s != [] && drop(s[0]) then TrimStart(s[1..], drop) else s
  }

  function TrimEnd(s: string, drop: char -> bool): (r: string)
    ensures |r| <= |s| && r <= s
    ensures r == [] || !drop(r[|r| - 1])
  {
    if s != [] && drop(s[|s| - 1]) then TrimEnd(s[..|s| - 1], drop) else s
  }

  /** `trim_matches`: removes matching characters at both ends. */
  function TrimMatches(s: string, drop: char -> bool): (r: string)
    ensures |r| <= |s| && (|r| == |s| ==> r == s)
    ensures r == [] || (!drop(r[0]) && !drop(r[|r| - 1]))
  {
    var t := TrimStart(s, drop);
    var r := TrimEnd(t, drop);
    assert r != [] ==> r[0] == t[0];
    r
  }

  function Trim(s: string): (r: string)
    ensures |r| <= |s| && (|r| == |s| ==> r == s)
  {
    TrimMatches(s, IsWhitespace)
  }

  ghost predicate AllDropped(s: string, drop: char -> bool) {
    forall i | 0 <= i < |s| :: drop(s[i])
  }

  lemma {:induction false} TrimStartMeans(s: string, drop: char -> bool) returns (start: string)
    ensures s == start + TrimStart(s, drop) && AllDropped(start, drop)
  {
    start := [];
    if s != [] && drop(s[0]) {
      var rest := TrimStartMeans(s[1..], drop);
      start := [s[0]] + rest;
      assert s == [s[0]] + s[1..];
    }
  }

  lemma {:induction false} TrimEndMeans(s: string, drop: char -> bool) returns (end: string)
    ensures s == TrimEnd(s, drop) + end && AllDropped(end, drop)
  {
    end := [];
    if s != [] && drop(s[|s| - 1]) {
      var rest := TrimEndMeans(s[..|s| - 1], drop);
      end := rest + [s[|s| - 1]];
      assert s == s[..|s| - 1] + [s[|s| - 1]];
    }
  }

  /** Trimming takes away matching characters at both ends, all of them and nothing else. */
  ghost predicate IsTrimmed(s: string, drop: char -> bool, r: string) {
    && (r == [] || (!drop(r[0]) && !drop(r[|r| - 1])))
    && exists start, end :: s == start + r + end && AllDropped(start, drop) && AllDropped(end, drop)
  }

  lemma TrimMeans(s: string, drop: char -> bool)
    ensures IsTrimmed(s, drop, TrimMatches(s, drop))
  {
    var start := TrimStartMeans(s, drop);
    var end := TrimEndMeans(TrimStart(s, drop), drop);
    assert s == start + TrimMatches(s, drop) + end;
  }

  lemma {:induction false} TrimStartDrops(s: string, drop: char -> bool)
    ensures exists i: nat :: i <= |s| && TrimStart(s, drop) == s[i..]
  {
    if s != [] && drop(s[0]) {
      TrimStartDrops(s[1..], drop);
      var i: nat :| i <= |s[1..]| && TrimStart(s[1..], drop) == s[1..][i..];
      assert s[1..][i..] == s[i + 1..];
    } else {
      assert s == s[0..];
    }
  }

  /** Trimming keeps a stretch of the text, so it brings in no new characters. */
  lemma TrimMatchesKeepsChars(s: string, drop: char -> bool)
    ensures forall c | c in TrimMatches(s, drop) :: c in s
  {
    TrimStartDrops(s, drop);
  }

  function AsciiLowerChar(c: char): char {
    if 'A' <= c <= 'Z' then (c as int + 32) as char else c
  }

  /** `to_ascii_lowercase` */
  function AsciiLower(s: string): (r: string)
    ensures |r| == |s|
  {
    if s == [] then [] else [AsciiLowerChar(s[0])] + AsciiLower(s[1..])
  }

  lemma {:induction false} AsciiLowerAt(s: string, i: nat)
    requires i < |s|
    ensures AsciiLower(s)[i] == AsciiLowerChar(s[i])
  {
    if i > 0 {
      AsciiLowerAt(s[1..], i - 1);
    }
  }

  lemma LoweredChars(s: string)
    ensures forall c | c in AsciiLower(s) :: AsciiLowerChar(c) == c
  {
    forall i | 0 <= i < |s|
      ensures AsciiLower(s)[i] == AsciiLowerChar(s[i])
    {
      AsciiLowerAt(s, i);
    }
  }

  lemma LowerFixed(s: string)
    requires forall c | c in s :: AsciiLowerChar(c) == c
    ensures AsciiLower(s) == s
  {
    forall i | 0 <= i < |s|
      ensures AsciiLower(s)[i] == s[i]
    {
      assert s[i] in s;
      AsciiLowerAt(s, i);
    }
  }

  predicate StartsWith(s: string, prefix: string) {
    prefix <= s
  }

  // ---- `str::replace` ----

  /** Replaces the leftmost occurrences of `pat` that do not overlap. */
  function ReplaceAll(s: string, pat: string, sub: string): string
    requires pat != ""
  {
    if s == "" then ""
    else if pat <= s then sub + ReplaceAll(s[|pat|..], pat, sub)
    else [s[0]] + ReplaceAll(s[1..], pat, sub)
  }

  predicate Contains(s: string, pat: string) {
    s != "" && (pat <= s || Contains(s[1..], pat))
  }

  lemma PrefixAcross(a: string, c: char, b: string, pat: string)
    requires c !in pat && pat <= a + [c] + b
    ensures pat <= a
  {
    var s := a + [c] + b;
    assert s[|a|] == c && pat == s[..|pat|];
  }

  lemma ReplaceHit(rest: string, pat: string, sub: string)
    requires pat != ""
    ensures ReplaceAll(pat + rest, pat, sub) == sub + ReplaceAll(rest, pat, sub)
  {
    assert (pat + rest)[|pat|..] == rest;
  }

  lemma ReplaceMiss(x: char, rest: string, pat: string, sub: string)
    requires pat != "" && !(pat <= [x] + rest)
    ensures ReplaceAll([x] + rest, pat, sub) == [x] + ReplaceAll(rest, pat, sub)
  {
    assert ([x] + rest)[1..] == rest;
  }

  lemma JoinLeft(a: string, b: string, c: string, d: string)
    ensures a + b + c + d == a + (b + c + d)
  {
  }

  /** A character that does not occur in the pattern separates the text. */
  lemma {:induction false} ReplaceAcross(a: string, c: char, b: string, pat: string, sub: string)
    requires pat != "" && c !in pat
    ensures ReplaceAll(a + [c] + b, pat, sub) == ReplaceAll(a, pat, sub) + [c] + ReplaceAll(b, pat, sub)
  {
    if a == "" {
      assert a + [c] + b == [c] + b;
      if pat <= a + [c] + b {
        PrefixAcross(a, c, b, pat);
      }
      ReplaceMiss(c, b, pat, sub);
    } else if pat <= a {
      var rest := a[|pat|..];
      assert a == pat + rest;
      ReplaceAcross(rest, c, b, pat, sub);
      ReplaceHit(rest, pat, sub);
      ReplaceHit(rest + [c] + b, pat, sub);
      JoinLeft(pat, rest, [c], b);
      JoinLeft(sub, ReplaceAll(rest, pat, sub), [c], ReplaceAll(b, pat, sub));
    } else {
      var rest := a[1..];
      assert a == [a[0]] + rest;
      ReplaceAcross(rest, c, b, pat, sub);
      JoinLeft([a[0]], rest, [c], b);
      if pat <= a + [c] + b {
        PrefixAcross(a, c, b, pat);
      }
      ReplaceMiss(a[0], rest, pat, sub);
      ReplaceMiss(a[0], rest + [c] + b, pat, sub);
      JoinLeft([a[0]], ReplaceAll(rest, pat, sub), [c], ReplaceAll(b, pat, sub));
    }
  }

  lemma {:induction false} ReplaceNothing(s: string, pat: string, sub: string)
    requires pat != "" && !Contains(s, pat)
    ensures ReplaceAll(s, pat, sub) == s
  {
    if s != "" {
      ReplaceNothing(s[1..], pat, sub);
    }
  }

  function Count(s: string, c: char): nat {
    if s == "" then 0 else Count(s[1..], c) + (if s[0] == c then 1 else 0)
  }

  lemma {:induction false} CountConcat(a: string, b: string, c: char)
    ensures Count(a + b, c) == Count(a, c) + Count(b, c)
  {
    if a == "" {
      assert a + b == b;
    } else {
      assert (a + b)[1..] == a[1..] + b;
      CountConcat(a[1..], b, c);
    }
  }

  /** Replacing loses occurrences of a character of the pattern. */
  lemma {:induction false} ReplaceCount(s: string, pat: string, sub: string, c: char)
    requires pat != "" && Count(sub, c) < Count(pat, c)
    ensures Count(ReplaceAll(s, pat, sub), c) <= Count(s, c)
    ensures Contains(s, pat) ==> Count(ReplaceAll(s, pat, sub), c) < Count(s, c)
  {
    if s == "" {
    } else if pat <= s {
      ReplaceCount(s[|pat|..], pat, sub, c);
      assert s == pat + s[|pat|..];
      CountConcat(pat, s[|pat|..], c);
      CountConcat(sub, ReplaceAll(s[|pat|..], pat, sub), c);
    } else {
      ReplaceCount(s[1..], pat, sub, c);
    }
  }

  lemma PrefixHasChars(s: string, pat: string, c: char)
    requires pat <= s && c in pat
    ensures c in s
  {
    var i :| 0 <= i < |pat| && pat[i] == c;
    assert s[i] == c;
  }

  lemma {:induction false} MissingCharNoPattern(s: string, pat: string, c: char)
    requires c in pat && c !in s
    ensures !Contains(s, pat)
  {
    if s != "" {
      if pat <= s {
        PrefixHasChars(s, pat, c);
      }
      MissingCharNoPattern(s[1..], pat, c);
    }
  }

  // ---- decimal rendering of integers ----

  predicate IsDigit(c: char) {
    '0' <= c <= '9'
  }

  function DigitChar(d: nat): (c: char)
    requires d < 10
    ensures IsDigit(c)
  {
    ('0' as int + d) as char
  }

  function NatText(n: nat): (r: string)
    ensures r != []
  {
    if n < 10 then [DigitChar(n)] else NatText(n / 10) + [DigitChar(n % 10)]
  }

  function IntText(n: int): string {
    if n < 0 then "-" + NatText(-n) else NatText(n)
  }

  predicate AllDigits(s: string) {
    forall i | 0 <= i < |s| :: IsDigit(s[i])
  }

  lemma {:induction false} NatTextDigits(n: nat)
    ensures AllDigits(NatText(n))
  {
    if n >= 10 {
      NatTextDigits(n / 10);
    }
  }

  function ParseNat(s: string): nat
    requires AllDigits(s)
  {
    if s == [] then 0
    else 10 * ParseNat(s[..|s| - 1]) + (s[|s| - 1] as int - '0' as int)
  }

  function Unsigned(s: string): string {
    if s != [] && s[0] == '-' then s[1..] else s
  }

  predicate IsIntText(s: string) {
    Unsigned(s) != [] && AllDigits(Unsigned(s))
  }

  function ParseInt(s: string): int
    requires IsIntText(s)
  {
    if s[0] == '-' then 0 - (ParseNat(s[1..]) as int) else ParseNat(s)
  }

  lemma {:induction false} ParseNatText(n: nat)
    ensures AllDigits(NatText(n)) && ParseNat(NatText(n)) == n
  {
    NatTextDigits(n);
    if n >= 10 {
      var s := NatText(n);
      assert s[..|s| - 1] == NatText(n / 10);
      ParseNatText(n / 10);
    }
  }

  lemma ParseIntText(n: int)
    ensures IsIntText(IntText(n)) && ParseInt(IntText(n)) == n
  {
    if n < 0 {
      ParseNatText(-n);
      assert IntText(n)[1..] == NatText(-n);
    } else {
      ParseNatText(n);
      assert IsDigit(NatText(n)[0]);
    }
  }

  lemma IntTextInjective(a: int, b: int)
    requires IntText(a) == IntText(b)
    ensures a == b
  {
    ParseIntText(a);
    ParseIntText(b);
  }
}
