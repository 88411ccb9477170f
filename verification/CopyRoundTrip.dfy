/** When the rows written to a COPY payload are the rows read from it. */
module CopyRoundTrip {
  import opened CopyFormat
  import opened Text
  import opened Wrappers

  /** The quoted sentinel stands in the quoted text, so that finishing takes it for a NULL. */
  predicate ImitatesNull(f: Field) {
    f.Some? && Contains(Quote(f.value), QUOTED_SENTINEL)
  }

  predicate Honest(fields: seq<Field>) {
    forall i | 0 <= i < |fields| :: !ImitatesNull(fields[i])
  }

  predicate AllHonest(rows: seq<seq<Field>>) {
    forall i | 0 <= i < |rows| :: Honest(rows[i])
  }

  // ---- finishing works field by field ----

  lemma Regroup(a: string, b: string, c: string, d: string)
    ensures a + b + c + d == a + b + (c + d)
  {
  }

  lemma FinishAcross(w: string, last: bool, after: string)
    ensures var c := [Terminator(last)];
            ReplaceAll(w + c + after, QUOTED_SENTINEL, NULL)
            == ReplaceAll(w, QUOTED_SENTINEL, NULL) + c + ReplaceAll(after, QUOTED_SENTINEL, NULL)
  {
    ReplaceAcross(w, Terminator(last), after, QUOTED_SENTINEL, NULL);
  }

  lemma {:induction false} FinishRecord(fields: seq<Field>, tail: string)
    ensures ReplaceAll(Record(fields, BY_WRITING) + tail, QUOTED_SENTINEL, NULL)
            == Record(fields, BY_FINISHING) + ReplaceAll(tail, QUOTED_SENTINEL, NULL)
  {
    if fields == [] {
      assert Record(fields, BY_WRITING) + tail == tail;
    } else {
      var last, rest := |fields| == 1, Record(fields[1..], BY_WRITING);
      FinishRecord(fields[1..], tail);
      Regroup(Written(fields[0]), [Terminator(last)], rest, tail);
      FinishAcross(Written(fields[0]), last, rest + tail);
      Regroup(Finished(fields[0]), [Terminator(last)], Record(fields[1..], BY_FINISHING),
              ReplaceAll(tail, QUOTED_SENTINEL, NULL));
    }
  }

  lemma {:induction false} FinishRecords(rows: seq<seq<Field>>)
    ensures Payload(rows) == Records(rows, BY_FINISHING)
  {
    if rows != [] {
      FinishRecords(rows[1..]);
      FinishRecord(rows[0], Records(rows[1..], BY_WRITING));
    }
  }

  // ---- reading back what was written ----

  lemma {:induction false} ReadQuoted(text: string, tail: string)
    requires tail == "" || tail[0] != '"'
    ensures ParseQuoted(Escape(text) + "\"" + tail) == Good(text, tail)
  {
    var s := Escape(text) + "\"" + tail;
    if text == "" {
      assert s[0] == '"' && s[1..] == tail;
    } else {
      ReadQuoted(text[1..], tail);
      var rest := Escape(text[1..]) + "\"" + tail;
      assert text == [text[0]] + text[1..];
      if text[0] == '"' {
        assert s == "\"\"" + rest && s[2..] == rest;
      } else {
        assert s == [text[0]] + rest && s[1..] == rest;
      }
    }
  }

  lemma {:induction false} EscapeNothing(s: string)
    requires '"' !in s
    ensures Escape(s) == s
  {
    if s != "" {
      EscapeNothing(s[1..]);
    }
  }

  lemma NullFinished()
    ensures Finished(None) == NULL
  {
    EscapeNothing(SENTINEL);
    assert Written(None) == QUOTED_SENTINEL;
    assert QUOTED_SENTINEL <= QUOTED_SENTINEL && QUOTED_SENTINEL[|QUOTED_SENTINEL|..] == "";
  }

  lemma ReadNull(tail: string)
    requires EndsField(tail)
    ensures ParseField(NULL + tail) == Good(None, tail)
  {
    var s := NULL + tail;
    var t := "N" + tail;
    assert s[1..] == t && t[1..] == tail;
    assert ParseUnquoted(tail) == Good("", tail);
    assert ParseUnquoted(t) == Prepend('N', ParseUnquoted(t[1..]));
  }

  lemma ReadField(f: Field, tail: string)
    requires EndsField(tail) && !ImitatesNull(f)
    ensures ParseField(Finished(f) + tail) == Good(f, tail)
  {
    match f
    case None =>
      NullFinished();
      ReadNull(tail);
    case Some(text) =>
      ReplaceNothing(Quote(text), QUOTED_SENTINEL, NULL);
      ReadQuoted(text, tail);
      assert (Quote(text) + tail)[1..] == Escape(text) + "\"" + tail;
  }

  lemma ReadTerminated(f: Field, last: bool, rest: string)
    requires !ImitatesNull(f)
    ensures ParseField(Finished(f) + [Terminator(last)] + rest) == Good(f, [Terminator(last)] + rest)
  {
    ReadField(f, [Terminator(last)] + rest);
    assert Finished(f) + [Terminator(last)] + rest == Finished(f) + ([Terminator(last)] + rest);
  }

  lemma ReadLast(f: Field, rest: string)
    requires !ImitatesNull(f)
    ensures ParseRecord(Finished(f) + [Terminator(true)] + rest) == Good([f], rest)
  {
    ReadTerminated(f, true, rest);
    assert ([Terminator(true)] + rest)[1..] == rest;
  }

  lemma ReadNext(f: Field, rest: string)
    requires !ImitatesNull(f) && ParseRecord(rest).Good?
    ensures ParseRecord(Finished(f) + [Terminator(false)] + rest)
            == Good([f] + ParseRecord(rest).value, ParseRecord(rest).rest)
  {
    ReadTerminated(f, false, rest);
    assert ([Terminator(false)] + rest)[1..] == rest;
  }

  lemma {:induction false} ReadRecord(fields: seq<Field>, tail: string)
    requires fields != [] && Honest(fields)
    ensures ParseRecord(Record(fields, BY_FINISHING) + tail) == Good(fields, tail)
  {
    var last, rest := |fields| == 1, Record(fields[1..], BY_FINISHING);
    Regroup(Finished(fields[0]), [Terminator(last)], rest, tail);
    if last {
      ReadLast(fields[0], rest + tail);
      assert rest + tail == tail && fields == [fields[0]];
    } else {
      ReadRecord(fields[1..], tail);
      ReadNext(fields[0], rest + tail);
      assert fields == [fields[0]] + fields[1..];
    }
  }

  lemma {:induction false} ReadRecords(rows: seq<seq<Field>>)
    requires NonEmptyRows(rows) && AllHonest(rows)
    ensures ParseRows(Records(rows, BY_FINISHING)) == Some(rows)
  {
    if rows != [] {
      var row, rest := rows[0], Records(rows[1..], BY_FINISHING);
      ReadRecords(rows[1..]);
      ReadRecord(row, rest);
      assert Records(rows, BY_FINISHING) == Record(row, BY_FINISHING) + rest;
      assert rows == [row] + rows[1..];
    }
  }

  // ---- counting the sentinel's delimiter ----

  function Marks(s: string): nat {
    Count(s, UNIT_SEPARATOR)
  }

  function FieldMarks(f: Field): nat {
    if f.None? then 0 else Marks(f.value)
  }

  function RecordMarks(fields: seq<Field>): nat {
    if fields == [] then 0 else FieldMarks(fields[0]) + RecordMarks(fields[1..])
  }

  function RowsMarks(rows: seq<seq<Field>>): nat {
    if rows == [] then 0 else RecordMarks(rows[0]) + RowsMarks(rows[1..])
  }

  lemma {:induction false} EscapeMarks(s: string)
    ensures Marks(Escape(s)) == Marks(s)
  {
    if s != "" {
      EscapeMarks(s[1..]);
      CountConcat(if s[0] == '"' then "\"\"" else [s[0]], Escape(s[1..]), UNIT_SEPARATOR);
    }
  }

  lemma QuoteMarks(s: string)
    ensures Marks(Quote(s)) == Marks(s)
  {
    EscapeMarks(s);
    CountConcat("\"", Escape(s), UNIT_SEPARATOR);
    CountConcat("\"" + Escape(s), "\"", UNIT_SEPARATOR);
  }

  lemma SentinelMarks()
    ensures Marks(NULL) == 0 && Marks(QUOTED_SENTINEL) > 0
  {
    assert QUOTED_SENTINEL[1] == UNIT_SEPARATOR;
    assert Count(QUOTED_SENTINEL[1..], UNIT_SEPARATOR) > 0;
  }

  /** Finishing an honest field loses no mark of its text, finishing another one does. */
  lemma FinishedMarks(f: Field)
    ensures Marks(Finished(f)) <= FieldMarks(f)
    ensures ImitatesNull(f) ==> Marks(Finished(f)) < FieldMarks(f)
  {
    SentinelMarks();
    if f.None? {
      NullFinished();
    } else {
      QuoteMarks(f.value);
      ReplaceCount(Quote(f.value), QUOTED_SENTINEL, NULL, UNIT_SEPARATOR);
    }
  }

  lemma {:induction false} FinishedRecordMarks(fields: seq<Field>)
    ensures Marks(Record(fields, BY_FINISHING)) <= RecordMarks(fields)
    ensures !Honest(fields) ==> Marks(Record(fields, BY_FINISHING)) < RecordMarks(fields)
  {
    if fields != [] {
      var c, rest := Terminator(|fields| == 1), Record(fields[1..], BY_FINISHING);
      FinishedMarks(fields[0]);
      FinishedRecordMarks(fields[1..]);
      CountConcat(Finished(fields[0]), [c], UNIT_SEPARATOR);
      CountConcat(Finished(fields[0]) + [c], rest, UNIT_SEPARATOR);
      assert !ImitatesNull(fields[0]) && Honest(fields[1..]) ==> Honest(fields);
    }
  }

  lemma {:induction false} FinishedRowsMarks(rows: seq<seq<Field>>)
    ensures Marks(Records(rows, BY_FINISHING)) <= RowsMarks(rows)
    ensures !AllHonest(rows) ==> Marks(Records(rows, BY_FINISHING)) < RowsMarks(rows)
  {
    if rows != [] {
      FinishedRecordMarks(rows[0]);
      FinishedRowsMarks(rows[1..]);
      CountConcat(Record(rows[0], BY_FINISHING), Records(rows[1..], BY_FINISHING), UNIT_SEPARATOR);
      assert Honest(rows[0]) && AllHonest(rows[1..]) ==> AllHonest(rows);
    }
  }

  /** Reading makes no marks up. */
  lemma {:induction false} QuotedReadMarks(s: string)
    ensures ParseQuoted(s).Good? ==> Marks(ParseQuoted(s).value) + Marks(ParseQuoted(s).rest) <= Marks(s)
  {
    if s == "" {
    } else if s[0] != '"' {
      QuotedReadMarks(s[1..]);
    } else if |s| > 1 && s[1] == '"' {
      QuotedReadMarks(s[2..]);
      var t := s[1..];
      assert t[1..] == s[2..] && Marks(s) == Marks(t) + (if s[0] == UNIT_SEPARATOR then 1 else 0);
      assert Marks(t) == Marks(s[2..]);
      var r := ParseQuoted(s[2..]);
      assert ParseQuoted(s) == Prepend('"', r);
      assert r.Good? ==> (['"'] + r.value)[1..] == r.value;
    }
  }

  lemma {:induction false} UnquotedReadMarks(s: string)
    ensures ParseUnquoted(s).Good? ==> Marks(ParseUnquoted(s).value) + Marks(ParseUnquoted(s).rest) <= Marks(s)
  {
    if !EndsField(s) && s[0] != '"' {
      UnquotedReadMarks(s[1..]);
    }
  }

  lemma FieldReadMarks(s: string)
    ensures ParseField(s).Good? ==> FieldMarks(ParseField(s).value) + Marks(ParseField(s).rest) <= Marks(s)
  {
    if s != "" && s[0] == '"' {
      QuotedReadMarks(s[1..]);
    } else {
      UnquotedReadMarks(s);
    }
  }

  lemma {:induction false} RecordReadMarks(s: string)
    ensures ParseRecord(s).Good? ==> RecordMarks(ParseRecord(s).value) + Marks(ParseRecord(s).rest) <= Marks(s)
    decreases |s|
  {
    FieldReadMarks(s);
    var f := ParseField(s);
    if f.Good? && f.rest != "" && f.rest[0] == ',' {
      RecordReadMarks(f.rest[1..]);
      if ParseRecord(s).Good? {
        assert ParseRecord(s).value[1..] == ParseRecord(f.rest[1..]).value;
      }
    }
  }

  lemma {:induction false} RowsReadMarks(s: string)
    ensures ParseRows(s).Some? ==> RowsMarks(ParseRows(s).value) <= Marks(s)
    decreases |s|
  {
    RecordReadMarks(s);
    if s != "" && ParseRecord(s).Good? {
      RowsReadMarks(ParseRecord(s).rest);
      if ParseRows(s).Some? {
        assert ParseRows(s).value[1..] == ParseRows(ParseRecord(s).rest).value;
      }
    }
  }

  // ---- the round trip ----

  /** Reading the payload gives the rows back exactly when no text holds the quoted
      sentinel. */
  lemma PayloadRoundTrip(rows: seq<seq<Field>>)
    requires NonEmptyRows(rows)
    ensures ParseRows(Payload(rows)) == Some(rows) <==> AllHonest(rows)
  {
    FinishRecords(rows);
    if AllHonest(rows) {
      ReadRecords(rows);
    } else {
      FinishedRowsMarks(rows);
      RowsReadMarks(Payload(rows));
    }
  }

  lemma {:induction false} EscapeAddsNoMark(s: string)
    requires UNIT_SEPARATOR !in s
    ensures UNIT_SEPARATOR !in Escape(s)
  {
    if s != "" {
      EscapeAddsNoMark(s[1..]);
    }
  }

  /** A text without the sentinel's delimiter is never taken for a NULL ... */
  lemma UnmarkedIsHonest(f: Field)
    requires f.Some? ==> UNIT_SEPARATOR !in f.value
    ensures !ImitatesNull(f)
  {
    if f.Some? {
      EscapeAddsNoMark(f.value);
      assert QUOTED_SENTINEL[1] == UNIT_SEPARATOR;
      MissingCharNoPattern(Quote(f.value), QUOTED_SENTINEL, UNIT_SEPARATOR);
    }
  }

  /** ... but a text that is the sentinel is. */
  lemma SentinelTextIsLost()
    ensures ParseRows(Payload([[Some(SENTINEL)]])) == Some([[None]])
  {
    var rows: seq<seq<Field>> := [[Some(SENTINEL)]];
    FinishRecords(rows);
    FinishRecords([[None]]);
    assert Finished(Some(SENTINEL)) == Finished(None);
    var none: seq<seq<Field>> := [[None]];
    assert Records(rows[1..], BY_FINISHING) == "" == Records(none[1..], BY_FINISHING);
    assert Record(rows[0], BY_FINISHING) == Record(none[0], BY_FINISHING);
    ReadRecords(none);
  }
}
