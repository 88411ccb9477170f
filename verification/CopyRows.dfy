/** The payloads of the four tables that the batch copies: how a row becomes a record, and
    that reading the payload gives the rows back. */
module CopyRows {
  import opened CopyColumns
  import opened CopyFormat
  import opened CopyRoundTrip
  import opened IngestPasses
  import opened IngestRefinement
  import opened IngestTables
  import opened Sanitize
  import opened Text
  import opened Wrappers

  /** The CSV writer behind a payload. */
  class CopyWriter {
    var buffer: string

    constructor ()
      ensures buffer == ""
    {
      buffer := "";
    }

    /** `write_copy_record`; every field is quoted. */
    method WriteRecord(fields: seq<Field>)
      modifies this
      ensures buffer == old(buffer) + Record(fields, BY_WRITING)
    {
      for i := 0 to |fields|
        invariant buffer + Record(fields[i..], BY_WRITING) == old(buffer) + Record(fields, BY_WRITING)
      {
        ghost var rest := fields[i..];
        assert rest[0] == fields[i] && rest[1..] == fields[i + 1..];
        var text := if fields[i].Some? then fields[i].value else SENTINEL;
        var last := i == |fields| - 1;
        RecordStep(buffer, rest, last);
        buffer := buffer + Quote(text) + [if last then '\n' else ','];
      }
      assert fields[|fields|..] == [];
      assert buffer + "" == buffer;
    }

    /** `finish_copy_payload` */
    method Finish() returns (payload: string)
      ensures payload == ReplaceAll(buffer, QUOTED_SENTINEL, NULL)
    {
      payload := ReplaceAll(buffer, QUOTED_SENTINEL, NULL);
    }
  }

  lemma RecordStep(before: string, rest: seq<Field>, last: bool)
    requires rest != [] && (last <==> |rest| == 1)
    ensures before + Written(rest[0]) + [Terminator(last)] + Record(rest[1..], BY_WRITING)
            == before + Record(rest, BY_WRITING)
  {
    var w, c, r := Written(rest[0]), [Terminator(last)], Record(rest[1..], BY_WRITING);
    assert Record(rest, BY_WRITING) == w + c + r;
    JoinLeft(before, w, c, r);
  }

  lemma {:induction false} RecordsSnoc(rows: seq<seq<Field>>, row: seq<Field>)
    ensures Records(rows + [row], BY_WRITING) == Records(rows, BY_WRITING) + Record(row, BY_WRITING)
  {
    if rows == [] {
      assert rows + [row] == [row] && [row][1..] == [];
    } else {
      assert (rows + [row])[1..] == rows[1..] + [row];
      RecordsSnoc(rows[1..], row);
      assert Record(rows[0], BY_WRITING) + (Records(rows[1..], BY_WRITING) + Record(row, BY_WRITING))
             == Records(rows, BY_WRITING) + Record(row, BY_WRITING);
    }
  }

  method BuildPayload(records: seq<seq<Field>>) returns (payload: string)
    ensures payload == Payload(records)
  {
    var writer := new CopyWriter();
    for i := 0 to |records|
      invariant fresh(writer) && writer.buffer == Records(records[..i], BY_WRITING)
    {
      RecordsSnoc(records[..i], records[i]);
      assert records[..i + 1] == records[..i] + [records[i]];
      writer.WriteRecord(records[i]);
    }
    assert records[..|records|] == records;
    payload := writer.Finish();
  }

  // ---- columns ----

  function IntField(n: int): Field {
    Some(IntText(n))
  }

  function BoolField(b: bool): Field {
    Some(EncodeBool(b))
  }

  function HexField(bytes: seq<Byte>): Field {
    Some(EncodeHex(bytes))
  }

  function ArrayField(values: seq<string>): Field {
    Some(EncodeArray(values))
  }

  function ReadInt(f: Field): Option<int> {
    if f.None? then None else DecodeInt(f.value)
  }

  function ReadBool(f: Field): Option<bool> {
    if f.None? then None else DecodeBool(f.value)
  }

  function ReadHex(f: Field): Option<seq<Byte>> {
    if f.None? then None else DecodeHex(f.value)
  }

  function ReadArray(f: Field): Option<seq<string>> {
    if f.None? then None else DecodeArray(f.value)
  }

  lemma IntColumn(n: int)
    ensures ReadInt(IntField(n)) == Some(n)
  {
    ParseIntText(n);
  }

  lemma HexColumn(bytes: seq<Byte>)
    ensures ReadHex(HexField(bytes)) == Some(bytes)
  {
    HexRoundTrip(bytes);
  }

  lemma ArrayColumn(values: seq<string>)
    ensures ReadArray(ArrayField(values)) == Some(values)
  {
    ArrayRoundTrip(values);
  }

  // ---- rows ----

  function WrapIds(texts: seq<string>): seq<MessageId> {
    seq(|texts|, i requires 0 <= i < |texts| => MessageId(texts[i]))
  }

  function BodyRecord(b: BodyCopy): seq<Field> {
    [IntField(b.id), b.body.bodyText, b.body.diffText, Some(b.body.searchText),
     BoolField(b.body.hasDiff), BoolField(b.body.hasAttachments)]
  }

  /** The fields of a message, around its encoded columns. */
  function MessageFields(m: MessageRow, id: Field, hash: Field, ids: Field, replies: Field, references: Field,
                         bodyId: Field): seq<Field> {
    var h := m.header;
    [id, hash, Some(h.subjectRaw), Some(h.subjectNorm), h.fromName, Some(h.fromEmail), h.dateUtc, h.toRaw, h.ccRaw,
     ids, Some(m.primary.text), replies, references, h.mimeType, bodyId]
  }

  function MessageRecord(m: MessageCopy): seq<Field> {
    MessageFields(m.row, IntField(m.row.id), HexField(m.hash.bytes), ArrayField(IdTexts(m.row.messageIds)),
                  ArrayField(m.row.header.inReplyToIds), ArrayField(m.row.header.referencesIds),
                  IntField(m.row.bodyId))
  }

  function IdRecord(r: IdRow): seq<Field> {
    [Some(r.key.messageId.text), IntField(r.key.messagePk), BoolField(r.isPrimary)]
  }

  function InstanceRecord(r: InstanceCopy): seq<Field> {
    [IntField(r.key.listId), IntField(r.instance.messagePk), IntField(r.instance.repoId), Some(r.key.oid.text)]
  }

  function ReadBody(f: seq<Field>): Option<BodyCopy> {
    if |f| != 6 then None
    else
      var id, hasDiff, hasAttachments := ReadInt(f[0]), ReadBool(f[4]), ReadBool(f[5]);
      if id.None? || f[3].None? || hasDiff.None? || hasAttachments.None? then None
      else Some(BodyCopy(id.value, Body(f[1], f[2], f[3].value, hasDiff.value, hasAttachments.value)))
  }

  function ReadMessage(f: seq<Field>): Option<MessageCopy> {
    if |f| != 15 then None
    else
      var id, hash, bodyId := ReadInt(f[0]), ReadHex(f[1]), ReadInt(f[14]);
      var ids, inReplyTo, references := ReadArray(f[9]), ReadArray(f[11]), ReadArray(f[12]);
      if id.None? || hash.None? || bodyId.None? || ids.None? || inReplyTo.None? || references.None?
         || f[2].None? || f[3].None? || f[5].None? || f[10].None? then None
      else
        var header := Header(f[2].value, f[3].value, f[4], f[5].value, f[6], f[7], f[8],
                             inReplyTo.value, references.value, f[13]);
        Some(MessageCopy(Hash(hash.value),
                         MessageRow(id.value, header, WrapIds(ids.value), MessageId(f[10].value), bodyId.value)))
  }

  function ReadId(f: seq<Field>): Option<IdRow> {
    if |f| != 3 then None
    else
      var pk, isPrimary := ReadInt(f[1]), ReadBool(f[2]);
      if f[0].None? || pk.None? || isPrimary.None? then None
      else Some(IdRow(IdKey(MessageId(f[0].value), pk.value), isPrimary.value))
  }

  function ReadInstance(f: seq<Field>): Option<InstanceCopy> {
    if |f| != 4 then None
    else
      var listId, pk, repoId := ReadInt(f[0]), ReadInt(f[1]), ReadInt(f[2]);
      if listId.None? || pk.None? || repoId.None? || f[3].None? then None
      else Some(InstanceCopy(InstanceKey(listId.value, Oid(f[3].value)), Instance(pk.value, repoId.value)))
  }

  lemma WrapIdTexts(ids: seq<MessageId>)
    ensures WrapIds(IdTexts(ids)) == ids
  {
  }

  lemma BodyColumns(b: BodyCopy)
    ensures ReadBody(BodyRecord(b)) == Some(b)
  {
    IntColumn(b.id);
  }

  lemma ReadFields(m: MessageCopy, id: Field, hash: Field, ids: Field, replies: Field, references: Field,
                   bodyId: Field)
    requires ReadInt(id) == Some(m.row.id) && ReadHex(hash) == Some(m.hash.bytes)
    requires ReadArray(ids) == Some(IdTexts(m.row.messageIds))
    requires ReadArray(replies) == Some(m.row.header.inReplyToIds)
    requires ReadArray(references) == Some(m.row.header.referencesIds)
    requires ReadInt(bodyId) == Some(m.row.bodyId)
    ensures ReadMessage(MessageFields(m.row, id, hash, ids, replies, references, bodyId)) == Some(m)
  {
    WrapIdTexts(m.row.messageIds);
  }

  lemma MessageColumns(m: MessageCopy)
    ensures ReadMessage(MessageRecord(m)) == Some(m)
  {
    IntColumn(m.row.id);
    IntColumn(m.row.bodyId);
    HexColumn(m.hash.bytes);
    ArrayColumn(IdTexts(m.row.messageIds));
    ArrayColumn(m.row.header.inReplyToIds);
    ArrayColumn(m.row.header.referencesIds);
    ReadFields(m, IntField(m.row.id), HexField(m.hash.bytes), ArrayField(IdTexts(m.row.messageIds)),
               ArrayField(m.row.header.inReplyToIds), ArrayField(m.row.header.referencesIds),
               IntField(m.row.bodyId));
  }

  lemma IdColumns(r: IdRow)
    ensures ReadId(IdRecord(r)) == Some(r)
  {
    IntColumn(r.key.messagePk);
  }

  lemma InstanceColumns(r: InstanceCopy)
    ensures ReadInstance(InstanceRecord(r)) == Some(r)
  {
    IntColumn(r.key.listId);
    IntColumn(r.instance.messagePk);
    IntColumn(r.instance.repoId);
  }

  // ---- payloads of rows ----

  function Encoded<T>(rows: seq<T>, enc: T -> seq<Field>): (r: seq<seq<Field>>)
    ensures |r| == |rows|
  {
    seq(|rows|, i requires 0 <= i < |rows| => enc(rows[i]))
  }

  function ReadAll<T>(records: seq<seq<Field>>, dec: seq<Field> -> Option<T>): Option<seq<T>> {
    if records == [] then Some([])
    else
      var first, rest := dec(records[0]), ReadAll(records[1..], dec);
      if first.None? || rest.None? then None else Some([first.value] + rest.value)
  }

  function ReadPayload<T>(payload: string, dec: seq<Field> -> Option<T>): Option<seq<T>> {
    var records := ParseRows(payload);
    if records.None? then None else ReadAll(records.value, dec)
  }

  ghost predicate Inverse<T>(rows: seq<T>, enc: T -> seq<Field>, dec: seq<Field> -> Option<T>) {
    forall i | 0 <= i < |rows| :: enc(rows[i]) != [] && dec(enc(rows[i])) == Some(rows[i])
  }

  lemma {:induction false} ReadEncoded<T>(rows: seq<T>, enc: T -> seq<Field>, dec: seq<Field> -> Option<T>)
    requires Inverse(rows, enc, dec)
    ensures ReadAll(Encoded(rows, enc), dec) == Some(rows)
  {
    if rows != [] {
      assert Inverse(rows[1..], enc, dec) by {
        forall i | 0 <= i < |rows[1..]|
          ensures enc(rows[1..][i]) != [] && dec(enc(rows[1..][i])) == Some(rows[1..][i])
        {
          assert rows[1..][i] == rows[i + 1];
        }
      }
      ReadEncoded(rows[1..], enc, dec);
      assert Encoded(rows, enc)[1..] == Encoded(rows[1..], enc);
      assert rows == [rows[0]] + rows[1..];
    }
  }

  predicate Unmarked(f: Field) {
    f.Some? ==> UNIT_SEPARATOR !in f.value
  }

  predicate UnmarkedRecord(fields: seq<Field>) {
    forall i | 0 <= i < |fields| :: Unmarked(fields[i])
  }

  lemma PayloadReads<T>(rows: seq<T>, enc: T -> seq<Field>, dec: seq<Field> -> Option<T>)
    requires Inverse(rows, enc, dec) && forall i | 0 <= i < |rows| :: UnmarkedRecord(enc(rows[i]))
    ensures ReadPayload(Payload(Encoded(rows, enc)), dec) == Some(rows)
  {
    var records := Encoded(rows, enc);
    forall i, j | 0 <= i < |records| && 0 <= j < |records[i]|
      ensures !ImitatesNull(records[i][j])
    {
      assert UnmarkedRecord(enc(rows[i])) && Unmarked(records[i][j]);
      UnmarkedIsHonest(records[i][j]);
    }
    PayloadRoundTrip(records);
    ReadEncoded(rows, enc, dec);
  }

  // ---- encoded columns hold no mark that their values do not hold ----

  predicate UnmarkedText(s: string) {
    UNIT_SEPARATOR !in s
  }

  lemma IntUnmarked(n: int)
    ensures Unmarked(IntField(n))
  {
    var m: nat := if n < 0 then -n else n;
    NatTextDigits(m);
    forall i | 0 <= i < |NatText(m)|
      ensures NatText(m)[i] != UNIT_SEPARATOR
    {
      assert IsDigit(NatText(m)[i]);
    }
  }

  lemma {:induction false} HexUnmarked(bytes: seq<Byte>)
    ensures UnmarkedText(HexDigits(bytes))
  {
    if bytes != [] {
      HexUnmarked(bytes[..|bytes| - 1]);
    }
  }

  lemma {:induction false} ElementUnmarked(s: string)
    requires UnmarkedText(s)
    ensures UnmarkedText(EscapeElement(s))
  {
    if s != "" {
      ElementUnmarked(s[..|s| - 1]);
    }
  }

  predicate UnmarkedTexts(texts: seq<string>) {
    forall i | 0 <= i < |texts| :: UnmarkedText(texts[i])
  }

  lemma {:induction false} ElementsUnmarked(values: seq<string>, n: nat)
    requires n <= |values| && UnmarkedTexts(values)
    ensures UnmarkedText(Elements(values, n))
  {
    if n > 0 {
      ElementsUnmarked(values, n - 1);
      ElementUnmarked(values[n - 1]);
    }
  }

  lemma ArrayUnmarked(values: seq<string>)
    requires UnmarkedTexts(values)
    ensures Unmarked(ArrayField(values))
  {
    ElementsUnmarked(values, |values|);
  }

  // ---- the four payloads ----

  predicate UnmarkedBody(b: Body) {
    Unmarked(b.bodyText) && Unmarked(b.diffText) && UnmarkedText(b.searchText)
  }

  predicate UnmarkedHeader(h: Header) {
    && UnmarkedText(h.subjectRaw) && UnmarkedText(h.subjectNorm) && Unmarked(h.fromName)
    && UnmarkedText(h.fromEmail) && Unmarked(h.dateUtc) && Unmarked(h.toRaw) && Unmarked(h.ccRaw)
    && UnmarkedTexts(h.inReplyToIds) && UnmarkedTexts(h.referencesIds) && Unmarked(h.mimeType)
  }

  predicate UnmarkedMessage(m: MessageRow) {
    UnmarkedHeader(m.header) && UnmarkedTexts(IdTexts(m.messageIds)) && UnmarkedText(m.primary.text)
  }

  lemma BodyRecordUnmarked(b: BodyCopy)
    requires UnmarkedBody(b.body)
    ensures UnmarkedRecord(BodyRecord(b))
  {
    IntUnmarked(b.id);
  }

  lemma MessageRecordUnmarked(m: MessageCopy)
    requires UnmarkedMessage(m.row)
    ensures UnmarkedRecord(MessageRecord(m))
  {
    IntUnmarked(m.row.id);
    IntUnmarked(m.row.bodyId);
    HexUnmarked(m.hash.bytes);
    ArrayUnmarked(IdTexts(m.row.messageIds));
    ArrayUnmarked(m.row.header.inReplyToIds);
    ArrayUnmarked(m.row.header.referencesIds);
  }

  lemma BodiesRoundTrip(rows: seq<BodyCopy>)
    requires forall i | 0 <= i < |rows| :: UnmarkedBody(rows[i].body)
    ensures ReadPayload(Payload(Encoded(rows, BodyRecord)), ReadBody) == Some(rows)
  {
    forall i | 0 <= i < |rows|
      ensures ReadBody(BodyRecord(rows[i])) == Some(rows[i]) && UnmarkedRecord(BodyRecord(rows[i]))
    {
      BodyColumns(rows[i]);
      BodyRecordUnmarked(rows[i]);
    }
    PayloadReads(rows, BodyRecord, ReadBody);
  }

  lemma MessagesRoundTrip(rows: seq<MessageCopy>)
    requires forall i | 0 <= i < |rows| :: UnmarkedMessage(rows[i].row)
    ensures ReadPayload(Payload(Encoded(rows, MessageRecord)), ReadMessage) == Some(rows)
  {
    forall i | 0 <= i < |rows|
      ensures ReadMessage(MessageRecord(rows[i])) == Some(rows[i]) && UnmarkedRecord(MessageRecord(rows[i]))
    {
      MessageColumns(rows[i]);
      MessageRecordUnmarked(rows[i]);
    }
    PayloadReads(rows, MessageRecord, ReadMessage);
  }

  lemma IdsRoundTrip(rows: seq<IdRow>)
    requires forall i | 0 <= i < |rows| :: UnmarkedText(rows[i].key.messageId.text)
    ensures ReadPayload(Payload(Encoded(rows, IdRecord)), ReadId) == Some(rows)
  {
    forall i | 0 <= i < |rows|
      ensures ReadId(IdRecord(rows[i])) == Some(rows[i]) && UnmarkedRecord(IdRecord(rows[i]))
    {
      IdColumns(rows[i]);
      IntUnmarked(rows[i].key.messagePk);
    }
    PayloadReads(rows, IdRecord, ReadId);
  }

  lemma InstancesRoundTrip(rows: seq<InstanceCopy>)
    requires forall i | 0 <= i < |rows| :: UnmarkedText(rows[i].key.oid.text)
    ensures ReadPayload(Payload(Encoded(rows, InstanceRecord)), ReadInstance) == Some(rows)
  {
    forall i | 0 <= i < |rows|
      ensures ReadInstance(InstanceRecord(rows[i])) == Some(rows[i]) && UnmarkedRecord(InstanceRecord(rows[i]))
    {
      InstanceColumns(rows[i]);
      IntUnmarked(rows[i].key.listId);
      IntUnmarked(rows[i].instance.messagePk);
      IntUnmarked(rows[i].instance.repoId);
    }
    PayloadReads(rows, InstanceRecord, ReadInstance);
  }

  // ---- checked messages survive the payload ----

  lemma CleanIsUnmarked(s: string)
    requires CleanText(s)
    ensures UnmarkedText(s)
  {
    if !UnmarkedText(s) {
      var i :| 0 <= i < |s| && s[i] == UNIT_SEPARATOR;
      assert IsDisallowed(s[i]);
    }
  }

  lemma AllCleanSplits(a: seq<NamedText>, b: seq<NamedText>)
    requires AllClean(a + b)
    ensures AllClean(a) && AllClean(b)
  {
    forall i | 0 <= i < |a|
      ensures CleanText(a[i].text)
    {
      assert (a + b)[i] == a[i];
    }
    forall i | 0 <= i < |b|
      ensures CleanText(b[i].text)
    {
      assert (a + b)[|a| + i] == b[i];
    }
  }

  lemma OptionalUnmarked(field: string, text: Option<string>)
    requires AllClean(Optional(field, text))
    ensures Unmarked(text)
  {
    if text.Some? {
      assert Optional(field, text)[0].text == text.value;
      CleanIsUnmarked(text.value);
    }
  }

  lemma ListedUnmarked(field: string, texts: seq<string>)
    requires AllClean(Listed(field, texts))
    ensures UnmarkedTexts(texts)
  {
    forall i | 0 <= i < |texts|
      ensures UnmarkedText(texts[i])
    {
      assert Listed(field, texts)[i].text == texts[i];
      CleanIsUnmarked(texts[i]);
    }
  }

  lemma RequiredUnmarked(p: Parsed)
    requires AllClean(RequiredTexts(p))
    ensures UnmarkedText(p.header.subjectRaw) && UnmarkedText(p.header.subjectNorm)
    ensures UnmarkedText(p.header.fromEmail) && UnmarkedText(p.primary.text) && UnmarkedText(p.body.searchText)
  {
    var t := RequiredTexts(p);
    assert AllClean(t);
    forall i | 0 <= i < |t|
      ensures UnmarkedText(t[i].text)
    {
      CleanIsUnmarked(t[i].text);
    }
    assert t[0].text == p.header.subjectRaw && t[1].text == p.header.subjectNorm;
    assert t[2].text == p.header.fromEmail && t[3].text == p.primary.text && t[4].text == p.body.searchText;
  }

  lemma OptionalsUnmarked(p: Parsed)
    requires AllClean(OptionalTexts(p))
    ensures Unmarked(p.header.fromName) && Unmarked(p.header.toRaw) && Unmarked(p.header.ccRaw)
    ensures Unmarked(p.body.bodyText) && Unmarked(p.body.diffText) && Unmarked(p.header.mimeType)
  {
    var a, b, c := Optional("from_name", p.header.fromName), Optional("to_raw", p.header.toRaw),
                   Optional("cc_raw", p.header.ccRaw);
    var d, e, f := Optional("body_text", p.body.bodyText), Optional("diff_text", p.body.diffText),
                   Optional("mime_type", p.header.mimeType);
    AllCleanSplits(a + b + c + d + e, f);
    AllCleanSplits(a + b + c + d, e);
    AllCleanSplits(a + b + c, d);
    AllCleanSplits(a + b, c);
    AllCleanSplits(a, b);
    OptionalUnmarked("from_name", p.header.fromName);
    OptionalUnmarked("to_raw", p.header.toRaw);
    OptionalUnmarked("cc_raw", p.header.ccRaw);
    OptionalUnmarked("body_text", p.body.bodyText);
    OptionalUnmarked("diff_text", p.body.diffText);
    OptionalUnmarked("mime_type", p.header.mimeType);
  }

  /** A message that passes the parser's check, whatever ids it gets, is one that the
      payloads give back. */
  lemma CheckedSurvives(p: Parsed, id: int, bodyId: int)
    requires PassesCheck(p) && Unmarked(p.header.dateUtc)
    ensures UnmarkedBody(p.body) && UnmarkedMessage(NewMessage(p, id, bodyId))
  {
    var ids, replies := Listed("message_ids", IdTexts(p.messageIds)), Listed("in_reply_to_ids", p.header.inReplyToIds);
    var references := Listed("references_ids", p.header.referencesIds);
    assert CheckedTexts(p) == RequiredTexts(p) + OptionalTexts(p) + ids + replies + references;
    AllCleanSplits(RequiredTexts(p) + OptionalTexts(p) + ids + replies, references);
    AllCleanSplits(RequiredTexts(p) + OptionalTexts(p) + ids, replies);
    AllCleanSplits(RequiredTexts(p) + OptionalTexts(p), ids);
    AllCleanSplits(RequiredTexts(p), OptionalTexts(p));
    RequiredUnmarked(p);
    OptionalsUnmarked(p);
    ListedUnmarked("message_ids", IdTexts(p.messageIds));
    ListedUnmarked("in_reply_to_ids", p.header.inReplyToIds);
    ListedUnmarked("references_ids", p.header.referencesIds);
  }

  lemma {:induction false} FlatIdsUnmarked(a: Archive, ps: seq<CommitRow>, n: nat, i: nat)
    requires n <= |ps| && i < |FlatIdRows(a, ps, n)|
    requires forall p | p in ps :: UnmarkedTexts(IdTexts(p.message.messageIds))
    ensures UnmarkedText(FlatIdRows(a, ps, n)[i].key.messageId.text)
  {
    var before := FlatIdRows(a, ps, n - 1);
    if i < |before| {
      FlatIdsUnmarked(a, ps, n - 1, i);
    } else {
      var ids := ps[n - 1].message.messageIds;
      assert FlatIdRows(a, ps, n)[i].key.messageId == ids[i - |before|];
      assert UnmarkedText(IdTexts(ids)[i - |before|]);
    }
  }

  lemma {:induction false} DedupedFrom(rows: seq<IdRow>, n: nat, key: IdKey) returns (i: nat)
    requires n <= |rows| && key in UpsertAll(map[], rows, n)
    ensures i < n && rows[i].key == key
  {
    if rows[n - 1].key == key {
      i := n - 1;
    } else {
      i := DedupedFrom(rows, n - 1, key);
    }
  }

  /** The new ones of the deduplicated id rows, in any order. */
  ghost predicate ListsNewIds(listed: seq<IdRow>, known: IdMap, deduped: IdMap) {
    forall i | 0 <= i < |listed| ::
      var key := listed[i].key;
      key in deduped && key !in known && listed[i].isPrimary == deduped[key]
  }

  ghost predicate Checked(p: CommitRow) {
    PassesCheck(p.message) && Unmarked(p.message.header.dateUtc)
  }

  lemma NewIdsUnmarked(t: Tables, ps: seq<CommitRow>, listed: seq<IdRow>)
    requires forall p | p in ps :: Checked(p)
    requires var rows := FlatIdRows(t.archive, ps, |ps|);
             ListsNewIds(listed, t.idMap, UpsertAll(map[], rows, |rows|))
    ensures forall i | 0 <= i < |listed| :: UnmarkedText(listed[i].key.messageId.text)
  {
    var rows := FlatIdRows(t.archive, ps, |ps|);
    forall p | p in ps
      ensures UnmarkedTexts(IdTexts(p.message.messageIds))
    {
      assert Checked(p);
      CheckedSurvives(p.message, 0, 0);
    }
    forall i | 0 <= i < |listed|
      ensures UnmarkedText(listed[i].key.messageId.text)
    {
      var j := DedupedFrom(rows, |rows|, listed[i].key);
      FlatIdsUnmarked(t.archive, ps, |ps|, j);
    }
  }

  lemma CopiedMessagesSurvive(a: Archive, ins: seq<CommitRow>)
    requires forall p | p in ins :: Checked(p)
    ensures var bodies, messages := BodyCopies(a, ins), MessageCopies(a, ins);
            && ReadPayload(Payload(Encoded(bodies, BodyRecord)), ReadBody) == Some(bodies)
            && ReadPayload(Payload(Encoded(messages, MessageRecord)), ReadMessage) == Some(messages)
  {
    forall i | 0 <= i < |ins|
      ensures UnmarkedBody(ins[i].message.body)
      ensures UnmarkedMessage(NewMessage(ins[i].message, a.nextMessageId + i, a.nextBodyId + i))
    {
      assert Checked(ins[i]);
      CheckedSurvives(ins[i].message, a.nextMessageId + i, a.nextBodyId + i);
    }
    BodiesRoundTrip(BodyCopies(a, ins));
    MessagesRoundTrip(MessageCopies(a, ins));
  }

  lemma CopiedInstancesSurvive(a: Archive, repo: Repo, ps: seq<CommitRow>)
    requires forall p | p in ps :: UnmarkedText(p.oid.text)
    ensures var rows := InstanceCopies(a, repo, ps);
            ReadPayload(Payload(Encoded(rows, InstanceRecord)), ReadInstance) == Some(rows)
  {
    forall i | 0 <= i < |ps|
      ensures UnmarkedText(ps[i].oid.text)
    {
      assert ps[i] in ps;
    }
    InstancesRoundTrip(InstanceCopies(a, repo, ps));
  }

  /** What a batch of checked messages copies into the four tables is what they receive. Commit
      ids are hexadecimal, so they hold no control character. */
  lemma CheckedBatchSurvives(t: Tables, repo: Repo, ps: seq<CommitRow>, ids: seq<IdRow>)
    requires forall p | p in ps :: Checked(p) && UnmarkedText(p.oid.text)
    requires var rows := FlatIdRows(t.archive, ps, |ps|);
             ListsNewIds(ids, t.idMap, UpsertAll(map[], rows, |rows|))
    ensures var ins := Inserts(t.archive.messages, ps, |ps|);
            var bodies, messages := BodyCopies(t.archive, ins), MessageCopies(t.archive, ins);
            var instances := InstanceCopies(t.archive, repo, ps);
            && ReadPayload(Payload(Encoded(bodies, BodyRecord)), ReadBody) == Some(bodies)
            && ReadPayload(Payload(Encoded(messages, MessageRecord)), ReadMessage) == Some(messages)
            && ReadPayload(Payload(Encoded(ids, IdRecord)), ReadId) == Some(ids)
            && ReadPayload(Payload(Encoded(instances, InstanceRecord)), ReadInstance) == Some(instances)
  {
    var ins := Inserts(t.archive.messages, ps, |ps|);
    InsertsArePending(t.archive.messages, ps, |ps|);
    CopiedMessagesSurvive(t.archive, ins);
    NewIdsUnmarked(t, ps, ids);
    IdsRoundTrip(ids);
    CopiedInstancesSurvive(t.archive, repo, ps);
  }

  lemma {:induction false} InsertsArePending(known: map<Hash, MessageRow>, ps: seq<CommitRow>, n: nat)
    requires n <= |ps|
    ensures forall p | p in Inserts(known, ps, n) :: p in ps
  {
    if n > 0 {
      InsertsArePending(known, ps, n - 1);
    }
  }
}
