/** Message-ID tokens and the node keys of the thread builder. */
module MessageIds {
  import opened Text
  import opened Wrappers

  datatype Message = Message(
    messagePk: int,
    messageIdPrimary: string,
    subjectRaw: string,
    subjectNorm: string,
    dateUtc: Option<int>,
    referencesIds: seq<string>,
    inReplyToIds: seq<string>)

  function DropChar(c: char): char -> bool {
    x => x == c
  }

  function StripOnce(s: string): (r: string)
    ensures |r| < |s| || r == s
    ensures r == s ==> Trim(s) == s
  {
    var a := Trim(s);
    var b := TrimMatches(a, DropChar('"'));
    var d := TrimMatches(b, DropChar('\''));
    var e := TrimMatches(d, DropChar('<'));
    var f := TrimMatches(e, DropChar('>'));
    Trim(f)
  }

  function StripAll(s: string): (r: string)
    ensures StripOnce(r) == r
    decreases |s|
  {
    var t := StripOnce(s);
    if t == s then s else StripAll(t)
  }

  lemma StripOnceKeepsChars(s: string)
    ensures forall c | c in StripOnce(s) :: c in s
  {
    var a := Trim(s);
    var b := TrimMatches(a, DropChar('"'));
    var d := TrimMatches(b, DropChar('\''));
    var e := TrimMatches(d, DropChar('<'));
    var f := TrimMatches(e, DropChar('>'));
    TrimMatchesKeepsChars(s, IsWhitespace);
    TrimMatchesKeepsChars(a, DropChar('"'));
    TrimMatchesKeepsChars(b, DropChar('\''));
    TrimMatchesKeepsChars(d, DropChar('<'));
    TrimMatchesKeepsChars(e, DropChar('>'));
    TrimMatchesKeepsChars(f, IsWhitespace);
  }

  lemma {:induction false} StripAllKeepsChars(s: string)
    ensures forall c | c in StripAll(s) :: c in s
    decreases |s|
  {
    var t := StripOnce(s);
    if t != s {
      StripOnceKeepsChars(s);
      StripAllKeepsChars(t);
    }
  }

  // ---- what normalising takes away ----

  /** White space, quotes and angle brackets. */
  predicate IsMarkup(c: char) {
    IsWhitespace(c) || c == '"' || c == '\'' || c == '<' || c == '>'
  }

  /** Everything before `i` and from `j` on is markup. */
  ghost predicate MarkupAround(s: string, i: nat, j: nat) {
    i <= j <= |s| && forall k | 0 <= k < |s| && (k < i || j <= k) :: IsMarkup(s[k])
  }

  /** `r` is `s` without some markup at both ends. */
  ghost predicate IsCore(s: string, r: string) {
    exists i: nat, j: nat :: MarkupAround(s, i, j) && r == s[i..j]
  }

  lemma CoreOfCore(s: string, r: string, q: string)
    requires IsCore(s, r) && IsCore(r, q)
    ensures IsCore(s, q)
  {
    var i: nat, j: nat :| MarkupAround(s, i, j) && r == s[i..j];
    var k: nat, l: nat :| MarkupAround(r, k, l) && q == r[k..l];
    forall x | 0 <= x < |s| && (x < i + k || i + l <= x)
      ensures IsMarkup(s[x])
    {
      if i <= x < j {
        assert r[x - i] == s[x];
      }
    }
    assert MarkupAround(s, i + k, i + l);
    assert forall x | 0 <= x < |q| :: q[x] == r[k + x] == s[i + k + x];
    assert s[i + k..i + l] == q;
  }

  lemma TrimIsCore(s: string, drop: char -> bool)
    requires forall c :: drop(c) ==> IsMarkup(c)
    ensures IsCore(s, TrimMatches(s, drop))
  {
    TrimMeans(s, drop);
    var r := TrimMatches(s, drop);
    var start, end :| s == start + r + end && AllDropped(start, drop) && AllDropped(end, drop);
    var i, j := |start|, |start| + |r|;
    forall k | 0 <= k < |s| && (k < i || j <= k)
      ensures IsMarkup(s[k])
    {
      assert s[k] == if k < i then start[k] else end[k - j];
      assert drop(s[k]);
    }
    assert MarkupAround(s, i, j) && s[i..j] == r;
  }

  lemma StripOnceIsCore(s: string)
    ensures IsCore(s, StripOnce(s))
  {
    var a := Trim(s);
    var b := TrimMatches(a, DropChar('"'));
    var d := TrimMatches(b, DropChar('\''));
    var e := TrimMatches(d, DropChar('<'));
    var f := TrimMatches(e, DropChar('>'));
    TrimIsCore(s, IsWhitespace);
    TrimIsCore(a, DropChar('"'));
    TrimIsCore(b, DropChar('\''));
    TrimIsCore(d, DropChar('<'));
    TrimIsCore(e, DropChar('>'));
    TrimIsCore(f, IsWhitespace);
    CoreOfCore(s, a, b);
    CoreOfCore(s, b, d);
    CoreOfCore(s, d, e);
    CoreOfCore(s, e, f);
    CoreOfCore(s, f, StripOnce(s));
  }

  lemma {:induction false} StripAllIsCore(s: string)
    ensures IsCore(s, StripAll(s))
    decreases |s|
  {
    var t := StripOnce(s);
    StripOnceIsCore(s);
    if t != s {
      StripAllIsCore(t);
      CoreOfCore(s, t, StripAll(s));
    }
  }

  /** A fixed point of stripping has no markup at its ends. */
  lemma StrippedEnds(r: string)
    requires StripOnce(r) == r && r != ""
    ensures !IsMarkup(r[0]) && !IsMarkup(r[|r| - 1])
  {
    var a := Trim(r);
    var b := TrimMatches(a, DropChar('"'));
    var d := TrimMatches(b, DropChar('\''));
    var e := TrimMatches(d, DropChar('<'));
    var f := TrimMatches(e, DropChar('>'));
    assert r == a == b == d == e == f;
    TrimMeans(r, IsWhitespace);
    TrimMeans(r, DropChar('"'));
    TrimMeans(r, DropChar('\''));
    TrimMeans(r, DropChar('<'));
    TrimMeans(r, DropChar('>'));
  }

  lemma MarkupIsLower(c: char)
    ensures IsMarkup(AsciiLowerChar(c)) ==> AsciiLowerChar(c) == c
  {
  }

  lemma LoweredCore(s: string, r: string)
    requires IsCore(AsciiLower(s), r)
    ensures exists mid :: IsCore(s, mid) && AsciiLower(mid) == r
  {
    var i: nat, j: nat :| MarkupAround(AsciiLower(s), i, j) && r == AsciiLower(s)[i..j];
    var mid := s[i..j];
    forall k | 0 <= k < |s| && (k < i || j <= k)
      ensures IsMarkup(s[k])
    {
      AsciiLowerAt(s, k);
      MarkupIsLower(s[k]);
    }
    assert MarkupAround(s, i, j) && IsCore(s, mid);
    forall k | 0 <= k < |r|
      ensures AsciiLower(mid)[k] == r[k]
    {
      AsciiLowerAt(mid, k);
      AsciiLowerAt(s, i + k);
    }
    assert AsciiLower(mid) == r;
  }

  /** The normal form is the Message-ID in lower case without the markup at its ends. */
  lemma NormalizeMeans(raw: string)
    ensures var r := NormalizeToken(raw);
            && (r != "" ==> !IsMarkup(r[0]) && !IsMarkup(r[|r| - 1]))
            && exists mid :: IsCore(raw, mid) && AsciiLower(mid) == r
  {
    var r := NormalizeToken(raw);
    if r != "" {
      StrippedEnds(r);
    }
    StripAllIsCore(AsciiLower(Trim(raw)));
    LoweredCore(Trim(raw), r);
    var mid :| IsCore(Trim(raw), mid) && AsciiLower(mid) == r;
    TrimIsCore(raw, IsWhitespace);
    CoreOfCore(raw, Trim(raw), mid);
  }

  /** `normalize_message_id_token` */
  function NormalizeToken(raw: string): string {
    StripAll(AsciiLower(Trim(raw)))
  }

  /** The loop of `normalize_message_id_token`. */
  method Normalize(raw: string) returns (value: string)
    ensures value == NormalizeToken(raw)
  {
    value := AsciiLower(Trim(raw));
    while true
      invariant StripAll(value) == NormalizeToken(raw)
      decreases |value|
    {
      var before := value;
      value := StripOnce(value);
      if before == value {
        break;
      }
    }
  }

  lemma NormalizedIsLower(raw: string)
    ensures AsciiLower(NormalizeToken(raw)) == NormalizeToken(raw)
  {
    var low := AsciiLower(Trim(raw));
    LoweredChars(Trim(raw));
    StripAllKeepsChars(low);
    LowerFixed(StripAll(low));
  }

  /** Normalising again changes nothing, so a stored token is found by its own text. */
  lemma NormalizeIdempotent(raw: string)
    ensures NormalizeToken(NormalizeToken(raw)) == NormalizeToken(raw)
  {
    NormalizedIsLower(raw);
    var r := NormalizeToken(raw);
    assert StripOnce(r) == r && Trim(r) == r;
    assert StripAll(r) == r;
  }

  const SYNTHETIC: string := "synthetic:msgpk:"
  const DUPLICATE: string := "duplicate:"
  const MSGPK: string := ":msgpk:"

  /** `canonical_message_key` */
  function CanonicalKey(m: Message): string {
    var normalized := NormalizeToken(m.messageIdPrimary);
    if normalized == "" then SYNTHETIC + IntText(m.messagePk) else normalized
  }

  function DuplicateKey(canonical: string, pk: int): string {
    DUPLICATE + canonical + MSGPK + IntText(pk)
  }

  function NonEmptyTokens(ids: seq<string>): seq<string> {
    if ids == [] then []
    else
      var token := NormalizeToken(ids[0]);
      (if token == "" then [] else [token]) + NonEmptyTokens(ids[1..])
  }

  /** `build_reference_chain`: all references, or else the first in-reply-to id. */
  function ReferenceChain(m: Message): seq<string> {
    if m.referencesIds != [] then NonEmptyTokens(m.referencesIds)
    else if m.inReplyToIds != [] then NonEmptyTokens([m.inReplyToIds[0]])
    else []
  }

  // ---- keys do not collide ----

  lemma IntTextHasNoColon(n: int)
    ensures forall i | 0 <= i < |IntText(n)| :: IntText(n)[i] != ':'
  {
    NatTextDigits(if n < 0 then -n else n);
  }

  /** What follows the last colon is determined by the whole text. */
  lemma AfterLastColon(a: string, s: string, b: string, t: string)
    requires a + ":" + s == b + ":" + t
    requires forall i | 0 <= i < |s| :: s[i] != ':'
    requires forall i | 0 <= i < |t| :: t[i] != ':'
    ensures s == t
  {
    var u, v := a + ":" + s, b + ":" + t;
    assert u[|a|] == ':' && v[|b|] == ':';
    assert |a| == |b|;
    assert s == u[|a| + 1..] && t == v[|b| + 1..];
  }

  lemma DuplicateKeysDiffer(c: string, pk: int, c': string, pk': int)
    requires DuplicateKey(c, pk) == DuplicateKey(c', pk')
    ensures pk == pk'
  {
    IntTextHasNoColon(pk);
    IntTextHasNoColon(pk');
    var a, a' := DUPLICATE + c + ":msgpk", DUPLICATE + c' + ":msgpk";
    assert DuplicateKey(c, pk) == a + ":" + IntText(pk);
    assert DuplicateKey(c', pk') == a' + ":" + IntText(pk');
    AfterLastColon(a, IntText(pk), a', IntText(pk'));
    IntTextInjective(pk, pk');
  }

  lemma SyntheticKeysDiffer(pk: int, pk': int)
    requires SYNTHETIC + IntText(pk) == SYNTHETIC + IntText(pk')
    ensures pk == pk'
  {
    assert IntText(pk) == (SYNTHETIC + IntText(pk))[|SYNTHETIC|..];
    assert IntText(pk') == (SYNTHETIC + IntText(pk'))[|SYNTHETIC|..];
    IntTextInjective(pk, pk');
  }
}
