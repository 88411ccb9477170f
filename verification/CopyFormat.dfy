/** The CSV payload of `COPY ... FROM STDIN`: `write_copy_record` quotes every field and
    writes a sentinel for NULL, `finish_copy_payload` replaces the quoted sentinel by an
    unquoted `\N`; and the reader that takes it apart again (section 2 of RFC 4180). */
module CopyFormat {
  import opened Text
  import opened Wrappers

  // ---- writing ----

  const UNIT_SEPARATOR: char := '\U{001F}'

  /** `COPY_NULL_SENTINEL` */
  const SENTINEL: string := [UNIT_SEPARATOR] + "NEXUS_NULL" + [UNIT_SEPARATOR]

  const QUOTED_SENTINEL: string := "\"" + SENTINEL + "\""

  const NULL: string := "\\N"

  type Field = Option<string>

  /** A record has at least one field. */
  predicate NonEmptyRows(rows: seq<seq<Field>>) {
    forall i | 0 <= i < |rows| :: rows[i] != []
  }

  function Escape(s: string): string {
    if s == "" then "" else (if s[0] == '"' then "\"\"" else [s[0]]) + Escape(s[1..])
  }

  function Quote(s: string): string {
    "\"" + Escape(s) + "\""
  }

  function FieldText(f: Field): string {
    match f
    case Some(text) => text
    case None => SENTINEL
  }

  function Terminator(last: bool): char {
    if last then '\n' else ','
  }

  /** Every field through `enc`, separated by commas and ended by a line feed. */
  function Record(fields: seq<Field>, enc: Field -> string): string {
    if fields == [] then ""
    else enc(fields[0]) + [Terminator(|fields| == 1)] + Record(fields[1..], enc)
  }

  function Records(rows: seq<seq<Field>>, enc: Field -> string): string {
    if rows == [] then "" else Record(rows[0], enc) + Records(rows[1..], enc)
  }

  function Written(f: Field): string {
    Quote(FieldText(f))
  }

  function Finished(f: Field): string {
    ReplaceAll(Written(f), QUOTED_SENTINEL, NULL)
  }

  const BY_WRITING: Field -> string := f => Written(f)

  const BY_FINISHING: Field -> string := f => Finished(f)

  /** The payload of a list of rows. */
  function Payload(rows: seq<seq<Field>>): string {
    ReplaceAll(Records(rows, BY_WRITING), QUOTED_SENTINEL, NULL)
  }

  // ---- reading ----

  datatype Parse<T> = Bad | Good(value: T, rest: string)

  /** The text of a quoted field, from behind its opening quote. */
  function ParseQuoted(s: string): (r: Parse<string>)
    ensures r.Good? ==> |r.rest| < |s|
  {
    if s == "" then Bad
    else if s[0] != '"' then Prepend(s[0], ParseQuoted(s[1..]))
    else if |s| > 1 && s[1] == '"' then Prepend('"', ParseQuoted(s[2..]))
    else Good("", s[1..])
  }

  function Prepend(c: char, p: Parse<string>): (r: Parse<string>)
    ensures r.Good? <==> p.Good?
    ensures r.Good? ==> r.rest == p.rest
  {
    match p
    case Bad => Bad
    case Good(text, rest) => Good([c] + text, rest)
  }

  predicate EndsField(s: string) {
    s == "" || s[0] == ',' || s[0] == '\n'
  }

  function ParseUnquoted(s: string): (r: Parse<string>)
    ensures r.Good? ==> |r.rest| <= |s|
  {
    if EndsField(s) then Good("", s)
    else if s[0] == '"' then Bad
    else Prepend(s[0], ParseUnquoted(s[1..]))
  }

  /** An unquoted `\N` is NULL; a quoted one is text. */
  function ParseField(s: string): (r: Parse<Field>)
    ensures r.Good? ==> |r.rest| <= |s|
  {
    if s != "" && s[0] == '"' then
      match ParseQuoted(s[1..])
      case Bad => Bad
      case Good(text, rest) => Good(Some(text), rest)
    else
      match ParseUnquoted(s)
      case Bad => Bad
      case Good(text, rest) => Good(if text == NULL then None else Some(text), rest)
  }

  function ParseRecord(s: string): (r: Parse<seq<Field>>)
    ensures r.Good? ==> |r.rest| < |s|
    decreases |s|
  {
    var f := ParseField(s);
    if f.Bad? || f.rest == "" then Bad
    else if f.rest[0] == '\n' then Good([f.value], f.rest[1..])
    else if f.rest[0] != ',' then Bad
    else
      match ParseRecord(f.rest[1..])
      case Bad => Bad
      case Good(fields, rest) => Good([f.value] + fields, rest)
  }

  function ParseRows(s: string): Option<seq<seq<Field>>>
    decreases |s|
  {
    if s == "" then Some([])
    else
      match ParseRecord(s)
      case Bad => None
      case Good(fields, rest) =>
        match ParseRows(rest)
        case None => None
        case Some(rows) => Some([fields] + rows)
  }
}
