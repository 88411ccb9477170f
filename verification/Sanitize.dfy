/** `sanitize_text` and the check that a parsed message holds sanitised texts only. */
module Sanitize {
  import opened IngestTables
  import opened Text
  import opened Wrappers

  /** Unicode's general category Cc. */
  predicate IsControl(c: char) {
    c <= '\U{001F}' || '\U{007F}' <= c <= '\U{009F}'
  }

  predicate IsDisallowed(c: char) {
    c == '\0' || (IsControl(c) && c != '\n' && c != '\t')
  }

  predicate CleanText(s: string) {
    forall i | 0 <= i < |s| :: !IsDisallowed(s[i])
  }

  function NormalizeLineEndings(s: string): string {
    ReplaceAll(ReplaceAll(s, "\r\n", "\n"), "\r", "\n")
  }

  /** The first `n` characters without the disallowed ones. */
  function Kept(s: string, n: nat): string
    requires n <= |s|
  {
    if n == 0 then ""
    else if IsDisallowed(s[n - 1]) then Kept(s, n - 1)
    else Kept(s, n - 1) + [s[n - 1]]
  }

  function Cleaned(s: string): string {
    var normalized := NormalizeLineEndings(s);
    Kept(normalized, |normalized|)
  }

  function Sanitized(s: string): string {
    Trim(Cleaned(s))
  }

  method SanitizeText(value: string) returns (text: string)
    ensures text == Sanitized(value)
  {
    var normalized := NormalizeLineEndings(value);
    var out := "";
    for i := 0 to |normalized|
      invariant out == Kept(normalized, i)
    {
      var ch := normalized[i];
      if ch == '\0' {
        continue;
      }
      if ch == '\n' || ch == '\t' || !IsControl(ch) {
        out := out + [ch];
      }
    }
    return Trim(out);
  }

  // ---- character by character ----

  /** NUL and the control characters but for line feeds and tabs. */
  ghost predicate IsDropped(c: char) {
    c != '\n' && c != '\t' && (c < ' ' || ('\U{007F}' <= c && c <= '\U{009F}'))
  }

  lemma DroppedExactly(c: char)
    ensures IsDropped(c) <==> IsDisallowed(c)
  {
  }

  lemma {:induction false} KeptCons(c: char, s: string, n: nat)
    requires n <= |s|
    ensures Kept([c] + s, n + 1) == (if IsDropped(c) then "" else [c]) + Kept(s, n)
  {
    hide IsDropped, IsDisallowed;
    if n == 0 {
      DroppedExactly(c);
      assert Kept([c] + s, 0) == "";
    } else {
      KeptCons(c, s, n - 1);
      assert ([c] + s)[n] == s[n - 1];
    }
  }

  lemma BreakBegins(c: char, s: string)
    ensures "\r\n" <= [c] + s <==> c == '\r' && "\n" <= s
  {
    var t := [c] + s;
    if "\r\n" <= t {
      assert t[0] == "\r\n"[0] && t[1] == "\r\n"[1];
    }
  }

  lemma EndingsCons(c: char, s: string)
    requires !(c == '\r' && "\n" <= s)
    ensures NormalizeLineEndings([c] + s) == [if c == '\r' then '\n' else c] + NormalizeLineEndings(s)
  {
    var rest := ReplaceAll(s, "\r\n", "\n");
    BreakBegins(c, s);
    ReplaceMiss(c, s, "\r\n", "\n");
    if c == '\r' {
      assert [c] + rest == "\r" + rest;
      ReplaceHit(rest, "\r", "\n");
    } else {
      ReplaceMiss(c, rest, "\r", "\n");
    }
  }

  lemma EndingsBreak(s: string)
    ensures NormalizeLineEndings("\r\n" + s) == "\n" + NormalizeLineEndings(s)
  {
    var rest := ReplaceAll(s, "\r\n", "\n");
    ReplaceHit(s, "\r\n", "\n");
    assert "\n" + rest == ['\n'] + rest && (['\n'] + rest)[0] == '\n';
    ReplaceMiss('\n', rest, "\r", "\n");
  }

  /** Text is sanitised character by character and then trimmed: line breaks of every kind
      become line feeds, other control characters but tabs go, and the rest stays. */
  lemma SanitizedMeans(c: char, s: string)
    ensures Sanitized(s) == Trim(Cleaned(s)) && Cleaned("") == ""
    ensures Cleaned("\r\n" + s) == "\n" + Cleaned(s)
    ensures !("\n" <= s) ==> Cleaned("\r" + s) == "\n" + Cleaned(s)
    ensures c != '\r' ==> Cleaned([c] + s) == (if IsDropped(c) then "" else [c]) + Cleaned(s)
  {
    var rest := NormalizeLineEndings(s);
    EndingsBreak(s);
    KeptCons('\n', rest, |rest|);
    assert ['\n'] + rest == "\n" + rest;
    if !("\n" <= s) {
      EndingsCons('\r', s);
      assert ['\r'] + s == "\r" + s;
    }
    if c != '\r' {
      EndingsCons(c, s);
      KeptCons(c, rest, |rest|);
    }
  }

  // ---- what sanitised text is ----

  lemma {:induction false} KeptIsClean(s: string, n: nat)
    requires n <= |s|
    ensures CleanText(Kept(s, n))
  {
    if n > 0 {
      KeptIsClean(s, n - 1);
    }
  }

  lemma {:induction false} KeptCleanText(s: string, n: nat)
    requires n <= |s| && CleanText(s)
    ensures Kept(s, n) == s[..n]
  {
    if n > 0 {
      KeptCleanText(s, n - 1);
      assert s[..n] == s[..n - 1] + [s[n - 1]];
    }
  }

  /** Sanitised text passes the check ... */
  lemma SanitizedIsClean(s: string)
    ensures CleanText(Sanitized(s))
  {
    var normalized := NormalizeLineEndings(s);
    var kept := Kept(normalized, |normalized|);
    KeptIsClean(normalized, |normalized|);
    TrimMatchesKeepsChars(kept, IsWhitespace);
    forall i | 0 <= i < |Sanitized(s)|
      ensures !IsDisallowed(Sanitized(s)[i])
    {
      assert Sanitized(s)[i] in kept;
    }
  }

  lemma CleanKeepsLineEndings(s: string)
    requires CleanText(s)
    ensures NormalizeLineEndings(s) == s
  {
    MissingCharNoPattern(s, "\r\n", '\r');
    ReplaceNothing(s, "\r\n", "\n");
    MissingCharNoPattern(s, "\r", '\r');
    ReplaceNothing(s, "\r", "\n");
  }

  /** ... and sanitising it again changes nothing. */
  lemma SanitizeIdempotent(s: string)
    ensures Sanitized(Sanitized(s)) == Sanitized(s)
  {
    var t := Sanitized(s);
    SanitizedIsClean(s);
    CleanKeepsLineEndings(t);
    KeptCleanText(t, |t|);
    assert t[..|t|] == t;
  }

  // ---- the check on a parsed message ----

  datatype NamedText = NamedText(field: string, text: string)

  function Optional(field: string, text: Option<string>): seq<NamedText> {
    if text.Some? then [NamedText(field, text.value)] else []
  }

  function Listed(field: string, texts: seq<string>): seq<NamedText> {
    seq(|texts|, i requires 0 <= i < |texts| => NamedText(field, texts[i]))
  }

  function IdTexts(ids: seq<MessageId>): seq<string> {
    seq(|ids|, i requires 0 <= i < |ids| => ids[i].text)
  }

  function RequiredTexts(p: Parsed): seq<NamedText> {
    [NamedText("subject_raw", p.header.subjectRaw), NamedText("subject_norm", p.header.subjectNorm),
     NamedText("from_email", p.header.fromEmail), NamedText("message_id_primary", p.primary.text),
     NamedText("search_text", p.body.searchText)]
  }

  function OptionalTexts(p: Parsed): seq<NamedText> {
    Optional("from_name", p.header.fromName) + Optional("to_raw", p.header.toRaw)
    + Optional("cc_raw", p.header.ccRaw) + Optional("body_text", p.body.bodyText)
    + Optional("diff_text", p.body.diffText) + Optional("mime_type", p.header.mimeType)
  }

  /** The texts in the order in which they are checked. */
  function CheckedTexts(p: Parsed): seq<NamedText> {
    RequiredTexts(p) + OptionalTexts(p)
    + Listed("message_ids", IdTexts(p.messageIds))
    + Listed("in_reply_to_ids", p.header.inReplyToIds)
    + Listed("references_ids", p.header.referencesIds)
  }

  ghost predicate AllClean(texts: seq<NamedText>) {
    forall i | 0 <= i < |texts| :: CleanText(texts[i].text)
  }

  ghost predicate PassesCheck(p: Parsed) {
    AllClean(CheckedTexts(p))
  }

  ghost predicate FirstViolation(texts: seq<NamedText>, i: nat) {
    && i < |texts| && !CleanText(texts[i].text)
    && forall j | 0 <= j < i :: CleanText(texts[j].text)
  }

  /** `assert_parse_outcome_invariants` */
  method IsClean(text: string) returns (clean: bool)
    ensures clean <==> CleanText(text)
  {
    for j := 0 to |text|
      invariant forall l | 0 <= l < j :: !IsDisallowed(text[l])
    {
      if IsDisallowed(text[j]) {
        return false;
      }
    }
    return true;
  }

  method CheckInvariants(p: Parsed) returns (r: Result<(), string>)
    ensures r.Success? <==> PassesCheck(p)
    ensures r.Failure? ==> exists i: nat ::
              FirstViolation(CheckedTexts(p), i) && r.error == CheckedTexts(p)[i].field
  {
    var texts := CheckedTexts(p);
    for i := 0 to |texts|
      invariant forall j | 0 <= j < i :: CleanText(texts[j].text)
    {
      var clean := IsClean(texts[i].text);
      if !clean {
        assert FirstViolation(texts, i);
        return Failure(texts[i].field);
      }
    }
    return Success(());
  }
}
