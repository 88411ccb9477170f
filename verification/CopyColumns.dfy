/** The column encoders of the COPY payloads, each with the reader that PostgreSQL applies
    to its column type. */
module CopyColumns {
  import opened CopyFormat
  import opened IngestTables
  import opened Text
  import opened Wrappers

  // ---- integers and booleans ----

  function DecodeInt(s: string): Option<int> {
    if IsIntText(s) then Some(ParseInt(s)) else None
  }

  function EncodeBool(b: bool): string {
    if b then "t" else "f"
  }

  function DecodeBool(s: string): Option<bool> {
    if s == "t" then Some(true) else if s == "f" then Some(false) else None
  }

  // ---- bytea ----

  function HexChar(d: nat): char
    requires d < 16
  {
    if d < 10 then ('0' as int + d) as char else ('a' as int + d - 10) as char
  }

  function HexValue(c: char): Option<nat> {
    if '0' <= c <= '9' then Some(c as int - '0' as int)
    else if 'a' <= c <= 'f' then Some(c as int - 'a' as int + 10)
    else None
  }

  function HexDigits(bytes: seq<Byte>): string {
    if bytes == [] then ""
    else HexDigits(bytes[..|bytes| - 1]) + ByteText(bytes[|bytes| - 1])
  }

  function ByteText(b: Byte): string {
    [HexChar(b as int / 16), HexChar(b as int % 16)]
  }

  function EncodeHex(bytes: seq<Byte>): string {
    "\\x" + HexDigits(bytes)
  }

  function DecodeDigits(s: string): Option<seq<Byte>> {
    if s == "" then Some([])
    else if |s| == 1 then None
    else
      var high, low, rest := HexValue(s[|s| - 2]), HexValue(s[|s| - 1]), DecodeDigits(s[..|s| - 2]);
      if high.None? || low.None? || rest.None? then None
      else Some(rest.value + [(16 * high.value + low.value) as Byte])
  }

  function DecodeHex(s: string): Option<seq<Byte>> {
    if "\\x" <= s then DecodeDigits(s[2..]) else None
  }

  method WriteHex(bytes: seq<Byte>) returns (text: string)
    ensures text == EncodeHex(bytes)
  {
    text := "\\x";
    for i := 0 to |bytes|
      invariant text == EncodeHex(bytes[..i])
    {
      assert bytes[..i + 1][..i] == bytes[..i];
      text := text + ByteText(bytes[i]);
    }
    assert bytes[..|bytes|] == bytes;
  }

  lemma HexCharValue(d: nat)
    requires d < 16
    ensures HexValue(HexChar(d)) == Some(d)
  {
  }

  lemma LastDigits(before: string, bytes: seq<Byte>, b: Byte)
    requires DecodeDigits(before) == Some(bytes)
    ensures DecodeDigits(before + ByteText(b)) == Some(bytes + [b])
  {
    var s := before + ByteText(b);
    HexCharValue(b as int / 16);
    HexCharValue(b as int % 16);
    assert s[..|s| - 2] == before && s[|s| - 2..] == ByteText(b);
  }

  lemma {:induction false} DigitsRoundTrip(bytes: seq<Byte>)
    ensures DecodeDigits(HexDigits(bytes)) == Some(bytes)
  {
    if bytes != [] {
      var n := |bytes| - 1;
      DigitsRoundTrip(bytes[..n]);
      LastDigits(HexDigits(bytes[..n]), bytes[..n], bytes[n]);
      assert bytes == bytes[..n] + [bytes[n]];
    }
  }

  lemma HexRoundTrip(bytes: seq<Byte>)
    ensures DecodeHex(EncodeHex(bytes)) == Some(bytes)
  {
    DigitsRoundTrip(bytes);
    assert EncodeHex(bytes)[2..] == HexDigits(bytes);
  }

  // ---- text[] ----

  predicate Escaped(c: char) {
    c == '\\' || c == '"'
  }

  function EscapedChar(c: char): string {
    if Escaped(c) then ['\\', c] else [c]
  }

  function EscapeElement(s: string): string {
    if s == "" then ""
    else EscapeElement(s[..|s| - 1]) + EscapedChar(s[|s| - 1])
  }

  function Element(s: string): string {
    "\"" + EscapeElement(s) + "\""
  }

  /** The first `n` elements separated by commas. */
  function Elements(values: seq<string>, n: nat): string
    requires n <= |values|
  {
    if n == 0 then ""
    else Elements(values, n - 1) + (if n > 1 then "," else "") + Element(values[n - 1])
  }

  function EncodeArray(values: seq<string>): string {
    "{" + Elements(values, |values|) + "}"
  }

  method PushElement(before: string, value: string) returns (out: string)
    ensures out == before + Element(value)
  {
    out := before + "\"";
    for j := 0 to |value|
      invariant out == before + "\"" + EscapeElement(value[..j])
    {
      assert value[..j + 1][..j] == value[..j];
      if Escaped(value[j]) {
        out := out + "\\";
      }
      out := out + [value[j]];
    }
    assert value[..|value|] == value;
    out := out + "\"";
  }

  /** `encode_text_array` */
  method WriteArray(values: seq<string>) returns (out: string)
    ensures out == EncodeArray(values)
  {
    if values == [] {
      return "{}";
    }
    out := "{";
    for i := 0 to |values|
      invariant out == "{" + Elements(values, i)
    {
      ghost var comma := if i > 0 then "," else "";
      if i > 0 {
        out := out + ",";
      }
      out := PushElement(out, values[i]);
      JoinLeft("{", Elements(values, i), comma, Element(values[i]));
      assert Elements(values, i + 1) == Elements(values, i) + comma + Element(values[i]);
    }
    out := out + "}";
  }

  /** The text of a quoted array element, from behind its opening quote. */
  function ScanElement(s: string): (r: Parse<string>)
    ensures r.Good? ==> |r.rest| < |s|
  {
    if s == "" then Bad
    else if s[0] == '"' then Good("", s[1..])
    else if s[0] != '\\' then Prepend(s[0], ScanElement(s[1..]))
    else if |s| == 1 then Bad
    else Prepend(s[1], ScanElement(s[2..]))
  }

  /** The elements that follow, up to the closing brace that ends the text. */
  function ScanElements(s: string): Option<seq<string>>
    decreases |s|
  {
    if s == "" || s[0] != '"' then None
    else
      match ScanElement(s[1..])
      case Bad => None
      case Good(value, rest) =>
        if rest == "}" then Some([value])
        else if rest == "" || rest[0] != ',' then None
        else
          match ScanElements(rest[1..])
          case None => None
          case Some(values) => Some([value] + values)
  }

  function DecodeArray(s: string): Option<seq<string>> {
    if s == "{}" then Some([])
    else if s == "" || s[0] != '{' then None
    else ScanElements(s[1..])
  }

  // reading an escaped text from its front

  function EscapeFront(s: string): string {
    if s == "" then "" else EscapedChar(s[0]) + EscapeFront(s[1..])
  }

  lemma {:induction false} EscapeFrontSnoc(s: string, c: char)
    ensures EscapeFront(s + [c]) == EscapeFront(s) + EscapedChar(c)
  {
    if s == "" {
      assert s + [c] == [c] && [c][1..] == "";
    } else {
      assert (s + [c])[1..] == s[1..] + [c];
      EscapeFrontSnoc(s[1..], c);
    }
  }

  lemma {:induction false} EscapeBothWays(s: string)
    ensures EscapeElement(s) == EscapeFront(s)
  {
    if s != "" {
      var n := |s| - 1;
      EscapeBothWays(s[..n]);
      EscapeFrontSnoc(s[..n], s[n]);
      assert s == s[..n] + [s[n]];
    }
  }

  lemma ScanChar(c: char, rest: string)
    ensures ScanElement(EscapedChar(c) + rest) == Prepend(c, ScanElement(rest))
  {
    var t := EscapedChar(c) + rest;
    assert t[|EscapedChar(c)|..] == rest;
  }

  lemma {:induction false} ScanEscaped(s: string, tail: string)
    ensures ScanElement(EscapeFront(s) + "\"" + tail) == Good(s, tail)
  {
    if s == "" {
      assert (EscapeFront(s) + "\"" + tail)[1..] == tail;
    } else {
      var rest := EscapeFront(s[1..]);
      assert s == [s[0]] + s[1..];
      ScanEscaped(s[1..], tail);
      ScanChar(s[0], rest + "\"" + tail);
      assert EscapedChar(s[0]) + rest + "\"" + tail == EscapedChar(s[0]) + (rest + "\"" + tail);
    }
  }

  /** The elements from `i` on. */
  function ElementsFrom(values: seq<string>, i: nat): string
    requires i <= |values|
    decreases |values| - i
  {
    if i == |values| then "" else (if i > 0 then "," else "") + Element(values[i]) + ElementsFrom(values, i + 1)
  }

  lemma {:induction false} ElementsJoin(values: seq<string>, i: nat)
    requires i <= |values|
    ensures Elements(values, |values|) == Elements(values, i) + ElementsFrom(values, i)
    decreases |values| - i
  {
    if i < |values| {
      ElementsJoin(values, i + 1);
      var comma := if i > 0 then "," else "";
      JoinLeft(Elements(values, i), comma, Element(values[i]), ElementsFrom(values, i + 1));
      assert Elements(values, i + 1) == Elements(values, i) + comma + Element(values[i]);
    }
  }

  lemma ScanOne(s: string, tail: string)
    ensures var t := Element(s) + tail; t[0] == '"' && ScanElement(t[1..]) == Good(s, tail)
  {
    EscapeBothWays(s);
    ScanEscaped(s, tail);
    assert (Element(s) + tail)[1..] == EscapeFront(s) + "\"" + tail;
  }

  /** The elements from `i` on as they stand behind the comma, with the closing brace. */
  function Rest(values: seq<string>, i: nat): string
    requires i < |values|
  {
    Element(values[i]) + (ElementsFrom(values, i + 1) + "}")
  }

  lemma RestSplits(values: seq<string>, i: nat)
    requires i < |values|
    ensures ElementsFrom(values, i + 1) + "}" == if i + 1 == |values| then "}" else "," + Rest(values, i + 1)
  {
  }

  lemma ScanLast(value: string)
    ensures ScanElements(Element(value) + "}") == Some([value])
  {
    ScanOne(value, "}");
  }

  lemma ScanNext(value: string, next: string)
    requires ScanElements(next).Some?
    ensures ScanElements(Element(value) + ("," + next)) == Some([value] + ScanElements(next).value)
  {
    ScanOne(value, "," + next);
    assert ("," + next)[1..] == next && ScanElements("") == None;
  }

  lemma {:induction false} ScanFrom(values: seq<string>, i: nat)
    requires i < |values|
    ensures ScanElements(Rest(values, i)) == Some(values[i..])
    decreases |values| - i
  {
    RestSplits(values, i);
    if i + 1 < |values| {
      ScanFrom(values, i + 1);
      ScanNext(values[i], Rest(values, i + 1));
      assert values[i..] == [values[i]] + values[i + 1..];
    } else {
      ScanLast(values[i]);
      assert values[i..] == [values[i]];
    }
  }

  lemma ArrayOpens(values: seq<string>)
    requires values != []
    ensures EncodeArray(values) == "{" + Rest(values, 0)
  {
    ElementsJoin(values, 0);
  }

  lemma ArrayRoundTrip(values: seq<string>)
    ensures DecodeArray(EncodeArray(values)) == Some(values)
  {
    if values != [] {
      ArrayOpens(values);
      ScanFrom(values, 0);
      assert ("{" + Rest(values, 0))[1..] == Rest(values, 0);
      assert ("{" + Rest(values, 0))[1] == '"';
      assert values[0..] == values;
    }
  }
}
