/**
 * `append_data_`: turns the current content of a bin's document and one
 * record into the new content, for the JSON and the CSV format.
 */
module DocumentCodec {
  import opened Wrappers
  import opened PyValues
  import opened OutputFormats
  import opened CsvWriter
  import opened CsvKeys

  /** A value of the record an append task carries: the request parameters
    * are strings and `date_created` is a datetime. */
  datatype Cell = Text(s: string) | Moment(t: Instant)

  type Record = map<string, Cell>

  /** The `json` library as the codec uses it: `loads` yields the array of
    * records a document holds (None when it does not parse or is not an
    * array; arrays of other values are not represented), and `dumps` prints
    * an array with `indent=2`. */
  datatype JsonLib = JsonLib(loads: string -> Option<seq<Record>>, dumps: seq<Record> -> string)

  /** What the codec relies on the library for: what it prints parses back. */
  ghost predicate RoundTrips(json: JsonLib)
  {
    forall items :: json.loads(json.dumps(items)) == Some(items)
  }

  /** The form `str(datetime)` gives a datetime, which the CSV writer applies. */
  const StrDatetimeFormat: string := "%Y-%m-%d %H:%M:%S"

  /** The text the CSV writer writes for a cell. */
  function CellText(c: Cell, strftime: Strftime): string
  {
    match c
    case Text(s) => s
    case Moment(t) => strftime(t, StrDatetimeFormat)
  }

  function CellTexts(cells: seq<Cell>, strftime: Strftime): (r: seq<string>)
    ensures |r| == |cells|
    ensures forall i :: 0 <= i < |cells| ==> r[i] == CellText(cells[i], strftime)
  {
    seq(|cells|, i requires 0 <= i < |cells| => CellText(cells[i], strftime))
  }

  /** A record whose `date_created` can be rendered. */
  predicate Dated(params: Record)
  {
    DateCreated in params && params[DateCreated].Moment?
  }

  /** The record after `params['date_created'] = params['date_created'].strftime(datetime_format)`. */
  function Stamped(params: Record, datetimeFormat: string, strftime: Strftime): Record
    requires Dated(params)
  {
    params[DateCreated := Text(strftime(params[DateCreated].t, datetimeFormat))]
  }

  /** The data row of a stamped record: its values in column order. */
  ghost function CsvRow(stamped: Record, strftime: Strftime): seq<string>
    requires DateCreated in stamped
  {
    var keys := CsvKeyOrder(stamped.Keys);
    CellTexts(Project(keys, stamped), strftime)
  }

  /** Text Python 2 can convert from `unicode` to a byte string, as `str()`
    * does and as `strftime` does with its format: ASCII only. */
  predicate Ascii(s: string)
  {
    forall i :: 0 <= i < |s| ==> s[i] as int < 128
  }

  /** A value the CSV writer can convert: the request's text is `unicode`. */
  predicate CellWritable(c: Cell)
  {
    c.Text? ==> Ascii(c.s)
  }

  /** A header row the CSV writer can write: the keys are `unicode`. */
  predicate HeaderWritable(keys: seq<string>)
  {
    forall i :: 0 <= i < |keys| ==> Ascii(keys[i])
  }

  /** A data row the CSV writer can write. Its first value is the rendered
    * `date_created`, which `strftime` returns as a byte string. */
  predicate RowWritable(values: seq<Cell>)
  {
    forall i :: 1 <= i < |values| ==> CellWritable(values[i])
  }

  /** Every key of the record is ASCII. */
  predicate KeysAscii(params: Record)
  {
    forall k :: k in params ==> Ascii(k)
  }

  /** Every value of the record other than `date_created` is writable. */
  predicate ValuesAscii(params: Record)
  {
    forall k :: k in params && k != DateCreated ==> CellWritable(params[k])
  }

  /** The new document content `append_data_` returns, or the exception it raises. */
  ghost function AppendSpec(oldContent: string, format: Format, datetimeFormat: string,
                            params: Record, strftime: Strftime, json: JsonLib): Result<string, Error>
  {
    if DateCreated !in params then Failure(KeyError(DateCreated))
    else if !params[DateCreated].Moment? then Failure(NoStrftime(DateCreated))
    else if !Ascii(datetimeFormat) then Failure(UnicodeEncode)
    else
      var stamped := Stamped(params, datetimeFormat, strftime);
      match format
      case Csv =>
        var keys := CsvKeyOrder(stamped.Keys);
        var first := oldContent == EmptyDocument(Csv);
        if (first && !HeaderWritable(keys)) || !RowWritable(Project(keys, stamped)) then Failure(UnicodeEncode)
        else
          var row := EncodeRow(CsvRow(stamped, strftime));
          if first then Success(EncodeRow(keys) + row)
          else Success(oldContent + row)
      case Json =>
        match json.loads(oldContent)
        case None => Failure(NotAJsonArray)
        case Some(items) => Success(json.dumps(items + [stamped]))
  }

  /** `append_data_`: renders `date_created` in the caller's dictionary (a
    * format `strftime` cannot encode raises before the dictionary changes), then
    * writes the header (first append only) and one data row into a buffer,
    * or appends the record to the parsed JSON array. */
  method AppendData(oldContent: string, format: Format, datetimeFormat: string,
                    params: Dict<Cell>, strftime: Strftime, json: JsonLib) returns (r: Result<string, Error>)
    modifies params
    ensures r == AppendSpec(oldContent, format, datetimeFormat, old(params.entries), strftime, json)
    ensures params.entries == if Dated(old(params.entries)) && Ascii(datetimeFormat)
                              then Stamped(old(params.entries), datetimeFormat, strftime)
                              else old(params.entries)
  {
    if DateCreated !in params.entries {
      return Failure(KeyError(DateCreated));
    }
    var created := params.entries[DateCreated];
    if !created.Moment? {
      return Failure(NoStrftime(DateCreated));
    }
    if !Ascii(datetimeFormat) {
      return Failure(UnicodeEncode);
    }
    params.entries := params.entries[DateCreated := Text(strftime(created.t, datetimeFormat))];
    assert params.entries == Stamped(old(params.entries), datetimeFormat, strftime);
    match format {
      case Csv =>
        var keyList := CsvKeyList(params.entries);
        assert keyList.Success?;
        var keys := keyList.value;
        var output := "";
        if oldContent == EmptyDocument(Csv) {
          if !HeaderWritable(keys) {
            return Failure(UnicodeEncode);
          }
          output := output + EncodeRow(keys);
          assert output == EncodeRow(keys);
        }
        var data := ValuesInKeyOrder(keys, params.entries);
        assert data.Success?;
        assert data.value == Project(keys, params.entries);
        if !RowWritable(data.value) {
          return Failure(UnicodeEncode);
        }
        var row := EncodeRow(CellTexts(data.value, strftime));
        assert row == EncodeRow(CsvRow(params.entries, strftime));
        output := output + row;
        assert output == if oldContent == EmptyDocument(Csv) then EncodeRow(keys) + row else row;
        if oldContent == EmptyDocument(Csv) {
          r := Success(output);
        } else {
          r := Success(oldContent + output);
        }
      case Json =>
        var parsed := json.loads(oldContent);
        if parsed.None? {
          return Failure(NotAJsonArray);
        }
        var items := parsed.value;
        items := items + [params.entries];
        r := Success(json.dumps(items));
    }
  }

  /** `append_data_` raises exactly when the record has no `date_created`
    * datetime; when `strftime` meets a non-ASCII format; for JSON, when the
    * old content is not an array; for CSV, when the writer meets non-ASCII
    * text: a value, or on the first append a key. */
  lemma AppendFailsExactly(oldContent: string, format: Format, datetimeFormat: string,
                           params: Record, strftime: Strftime, json: JsonLib)
    ensures AppendSpec(oldContent, format, datetimeFormat, params, strftime, json).Failure? <==>
              || !Dated(params)
              || !Ascii(datetimeFormat)
              || (format == Json && json.loads(oldContent).None?)
              || (format == Csv && (!ValuesAscii(params) || (oldContent == EmptyDocument(Csv) && !KeysAscii(params))))
    ensures DateCreated !in params ==>
              AppendSpec(oldContent, format, datetimeFormat, params, strftime, json) == Failure(KeyError(DateCreated))
    ensures Dated(params) && !Ascii(datetimeFormat) ==>
              AppendSpec(oldContent, format, datetimeFormat, params, strftime, json) == Failure(UnicodeEncode)
    ensures Dated(params) && format == Csv && AppendSpec(oldContent, format, datetimeFormat, params, strftime, json).Failure? ==>
              AppendSpec(oldContent, format, datetimeFormat, params, strftime, json).error == UnicodeEncode
  {
    if Dated(params) && Ascii(datetimeFormat) && format == Csv {
      WritableColumns(params, datetimeFormat, strftime);
    }
  }

  /** The writer's checks on the header and the data row are checks on the
    * record: the header needs ASCII keys, the row ASCII values. */
  lemma WritableColumns(params: Record, datetimeFormat: string, strftime: Strftime)
    requires Dated(params)
    ensures var stamped := Stamped(params, datetimeFormat, strftime);
            var keys := CsvKeyOrder(stamped.Keys);
            && (HeaderWritable(keys) <==> KeysAscii(params))
            && (RowWritable(Project(keys, stamped)) <==> ValuesAscii(params))
  {
    StampedKeys(params, datetimeFormat, strftime);
    HeaderWritableKeys(params, datetimeFormat, strftime);
    RowWritableValues(params, datetimeFormat, strftime);
  }

  lemma HeaderWritableKeys(params: Record, datetimeFormat: string, strftime: Strftime)
    requires Dated(params)
    ensures HeaderWritable(CsvKeyOrder(params.Keys)) <==> KeysAscii(params)
  {
    var keys := CsvKeyOrder(params.Keys);
    if HeaderWritable(keys) {
      forall k | k in params ensures Ascii(k) {
        assert k in keys;
        var i :| 0 <= i < |keys| && keys[i] == k;
      }
    }
  }

  lemma RowWritableValues(params: Record, datetimeFormat: string, strftime: Strftime)
    requires Dated(params)
    ensures var stamped := Stamped(params, datetimeFormat, strftime);
            RowWritable(Project(CsvKeyOrder(params.Keys), stamped)) <==> ValuesAscii(params)
  {
    var stamped := Stamped(params, datetimeFormat, strftime);
    StampedKeys(params, datetimeFormat, strftime);
    var keys := CsvKeyOrder(params.Keys);
    var values := Project(keys, stamped);
    forall i | 1 <= i < |keys| ensures keys[i] != DateCreated && values[i] == params[keys[i]] {
      assert keys[0] == DateCreated;
    }
    if RowWritable(values) {
      forall k | k in params && k != DateCreated ensures CellWritable(params[k]) {
        assert k in keys;
        var i :| 0 <= i < |keys| && keys[i] == k;
        assert i != 0;
      }
    }
  }

  /** Rendering the creation time replaces one value and keeps the keys. */
  lemma StampedKeys(params: Record, datetimeFormat: string, strftime: Strftime)
    requires Dated(params)
    ensures Stamped(params, datetimeFormat, strftime).Keys == params.Keys
    ensures forall k :: k in params && k != DateCreated ==> Stamped(params, datetimeFormat, strftime)[k] == params[k]
  {
  }

  /** A CSV data row holds every value of the record once, in column order:
    * the rendered creation time first, then the other fields by key. */
  lemma {:induction false} CsvRowColumns(params: Record, datetimeFormat: string, strftime: Strftime)
    requires Dated(params)
    ensures var stamped := Stamped(params, datetimeFormat, strftime);
            var keys := CsvKeyOrder(params.Keys);
            var row := CsvRow(stamped, strftime);
            && |row| == |keys| == |params|
            && row[0] == strftime(params[DateCreated].t, datetimeFormat)
            && forall i :: 1 <= i < |row| ==> keys[i] != DateCreated && row[i] == CellText(params[keys[i]], strftime)
  {
    var stamped := Stamped(params, datetimeFormat, strftime);
    StampedKeys(params, datetimeFormat, strftime);
    var keys := CsvKeyOrder(params.Keys);
    forall i | 1 <= i < |keys| ensures keys[i] != DateCreated {
      assert keys[0] == DateCreated;
    }
  }

  /** The first append to the seed CSV document replaces it with a header row
    * naming the columns and one data row; the seed line itself is dropped. */
  lemma {:induction false} CsvFirstAppend(datetimeFormat: string, params: Record, strftime: Strftime, json: JsonLib)
    requires Dated(params)
    ensures var stamped := Stamped(params, datetimeFormat, strftime);
            var header := EncodeRow(CsvKeyOrder(params.Keys));
            var row := EncodeRow(CsvRow(stamped, strftime));
            && AppendSpec(EmptyDocument(Csv), Csv, datetimeFormat, params, strftime, json)
               == (if Ascii(datetimeFormat) && KeysAscii(params) && ValuesAscii(params)
                   then Success(header + row) else Failure(UnicodeEncode))
            && DecodeRow(header) == Some(CsvKeyOrder(params.Keys))
            && DecodeRow(row) == Some(CsvRow(stamped, strftime))
            && !(EmptyDocument(Csv) <= header + row)
  {
    var stamped := Stamped(params, datetimeFormat, strftime);
    var keys := CsvKeyOrder(params.Keys);
    var header := EncodeRow(keys);
    var row := EncodeRow(CsvRow(stamped, strftime));
    SeedAppendResult(datetimeFormat, params, strftime, json);
    RowRoundTrip(keys);
    RowRoundTrip(CsvRow(stamped, strftime));
    assert !(EmptyDocument(Csv) <= header + row) by {
      HeaderStart(keys);
      assert (header + row)[|DateCreated|] == header[|DateCreated|];
      assert EmptyDocument(Csv)[|DateCreated|] == '\n';
    }
  }

  lemma SeedAppendResult(datetimeFormat: string, params: Record, strftime: Strftime, json: JsonLib)
    requires Dated(params)
    ensures var stamped := Stamped(params, datetimeFormat, strftime);
            AppendSpec(EmptyDocument(Csv), Csv, datetimeFormat, params, strftime, json)
            == (if Ascii(datetimeFormat) && KeysAscii(params) && ValuesAscii(params)
                then Success(EncodeRow(CsvKeyOrder(params.Keys)) + EncodeRow(CsvRow(stamped, strftime)))
                else Failure(UnicodeEncode))
  {
    StampedKeys(params, datetimeFormat, strftime);
    WritableColumns(params, datetimeFormat, strftime);
  }

  /** A header row begins with the `date_created` column, followed by the
    * delimiter or the line terminator, never by the seed's bare newline. */
  lemma HeaderStart(keys: seq<string>)
    requires |keys| > 0 && keys[0] == DateCreated
    ensures |EncodeRow(keys)| > |DateCreated|
    ensures EncodeRow(keys)[..|DateCreated|] == DateCreated
    ensures EncodeRow(keys)[|DateCreated|] in {Delimiter, '\r'}
  {
    assert !NeedsQuoting(DateCreated) by {
      forall i | 0 <= i < |DateCreated| ensures !Special(DateCreated[i]) {
      }
    }
    assert EncodeField(DateCreated) == DateCreated;
    if |keys| == 1 {
      assert keys == [DateCreated];
      assert EncodeRow(keys) == DateCreated + LineTerminator;
    } else {
      assert EncodeRow(keys) == DateCreated + ([Delimiter] + JoinFields(keys[1..]) + LineTerminator);
    }
  }

  /** Every later CSV append whose format and values are ASCII keeps the old content as a
    * strict prefix and adds exactly one row, which reads back as the record's
    * values in column order; keys are not written again, so only the values
    * and the format can make it raise. */
  lemma {:induction false} CsvLaterAppend(oldContent: string, datetimeFormat: string, params: Record,
                                          strftime: Strftime, json: JsonLib)
    requires Dated(params) && oldContent != EmptyDocument(Csv)
    ensures var stamped := Stamped(params, datetimeFormat, strftime);
            var row := EncodeRow(CsvRow(stamped, strftime));
            && AppendSpec(oldContent, Csv, datetimeFormat, params, strftime, json)
               == (if Ascii(datetimeFormat) && ValuesAscii(params) then Success(oldContent + row) else Failure(UnicodeEncode))
            && oldContent < oldContent + row
            && DecodeRow((oldContent + row)[|oldContent|..]) == Some(CsvRow(stamped, strftime))
  {
    var stamped := Stamped(params, datetimeFormat, strftime);
    WritableColumns(params, datetimeFormat, strftime);
    var row := EncodeRow(CsvRow(stamped, strftime));
    RowRoundTrip(CsvRow(stamped, strftime));
    assert (oldContent + row)[|oldContent|..] == row;
  }

  /** A CSV append of a record the writer can write succeeds exactly when
    * `strftime` can encode the format, and the document then ends with a line
    * terminator, so it is never the seed again and the header is written
    * only once. */
  lemma {:induction false} CsvHeaderWrittenOnce(oldContent: string, datetimeFormat: string, params: Record,
                                                strftime: Strftime, json: JsonLib)
    requires Dated(params) && ValuesAscii(params)
    requires oldContent == EmptyDocument(Csv) ==> KeysAscii(params)
    ensures AppendSpec(oldContent, Csv, datetimeFormat, params, strftime, json).Success? <==> Ascii(datetimeFormat)
    ensures AppendSpec(oldContent, Csv, datetimeFormat, params, strftime, json).Success? ==>
              AppendSpec(oldContent, Csv, datetimeFormat, params, strftime, json).value != EmptyDocument(Csv)
  {
    AppendFailsExactly(oldContent, Csv, datetimeFormat, params, strftime, json);
    if !Ascii(datetimeFormat) {
      return;
    }
    var stamped := Stamped(params, datetimeFormat, strftime);
    var row := EncodeRow(CsvRow(stamped, strftime));
    var prefix := if oldContent == EmptyDocument(Csv) then EncodeRow(CsvKeyOrder(stamped.Keys)) else oldContent;
    assert AppendSpec(oldContent, Csv, datetimeFormat, params, strftime, json) == Success(prefix + row);
    EndsWithRow(prefix, row);
  }

  lemma EndsWithRow(prefix: string, row: string)
    requires |row| >= |LineTerminator| && row[|row| - |LineTerminator|..] == LineTerminator
    ensures prefix + row != EmptyDocument(Csv)
  {
    var doc := prefix + row;
    assert doc[|doc| - 2] == row[|row| - 2];
    assert row[|row| - 2] == row[|row| - 2..][0] == '\r';
    var seed := EmptyDocument(Csv);
    assert seed[|seed| - 2] == 'd';
  }

  /** A JSON append succeeds exactly when `strftime` can encode the format,
    * and then parses back as the old array with the stamped record as its
    * new last element; the earlier elements are unchanged. */
  lemma JsonAppend(oldContent: string, items: seq<Record>, datetimeFormat: string, params: Record,
                   strftime: Strftime, json: JsonLib)
    requires RoundTrips(json) && json.loads(oldContent) == Some(items) && Dated(params)
    ensures var r := AppendSpec(oldContent, Json, datetimeFormat, params, strftime, json);
            && (r.Success? <==> Ascii(datetimeFormat))
            && (r.Success? ==> json.loads(r.value) == Some(items + [Stamped(params, datetimeFormat, strftime)]))
  {
  }

  /** Two appends to a new JSON bin read back as the two records in order;
    * with a format `strftime` cannot encode, the first already raises. */
  lemma {:induction false} JsonTwoAppends(datetimeFormat: string, r1: Record, r2: Record,
                                          strftime: Strftime, json: JsonLib)
    requires RoundTrips(json) && json.loads(EmptyDocument(Json)) == Some([])
    requires Dated(r1) && Dated(r2)
    ensures var d1 := AppendSpec(EmptyDocument(Json), Json, datetimeFormat, r1, strftime, json);
            && (d1.Success? <==> Ascii(datetimeFormat))
            && (d1.Success? ==>
                && json.loads(d1.value) == Some([Stamped(r1, datetimeFormat, strftime)])
                && var d2 := AppendSpec(d1.value, Json, datetimeFormat, r2, strftime, json);
                   && d2.Success?
                   && json.loads(d2.value) == Some([Stamped(r1, datetimeFormat, strftime), Stamped(r2, datetimeFormat, strftime)]))
  {
    JsonAppend(EmptyDocument(Json), [], datetimeFormat, r1, strftime, json);
    if !Ascii(datetimeFormat) {
      return;
    }
    var d1 := AppendSpec(EmptyDocument(Json), Json, datetimeFormat, r1, strftime, json);
    assert [] + [Stamped(r1, datetimeFormat, strftime)] == [Stamped(r1, datetimeFormat, strftime)];
    JsonAppend(d1.value, [Stamped(r1, datetimeFormat, strftime)], datetimeFormat, r2, strftime, json);
    assert [Stamped(r1, datetimeFormat, strftime)] + [Stamped(r2, datetimeFormat, strftime)]
        == [Stamped(r1, datetimeFormat, strftime), Stamped(r2, datetimeFormat, strftime)];
  }

  /** Two plain fields make the row `a;b` with its terminator. */
  lemma PlainPairRow(a: string, b: string)
    requires !NeedsQuoting(a) && !NeedsQuoting(b)
    ensures EncodeRow([a, b]) == a + ";" + b + LineTerminator
  {
    PlainFieldUnchanged(a);
    PlainFieldUnchanged(b);
    var fields := [a, b];
    assert fields != [] && fields != [""];
    assert fields[1..] == [b];
    assert JoinFields(fields) == a + [Delimiter] + b;
  }

  /** The columns of a record holding `date_created` and one other key. */
  lemma TwoColumns(name: string)
    requires name != DateCreated
    ensures CsvKeyOrder({DateCreated, name}) == [DateCreated, name]
  {
    var keys := CsvKeyOrder({DateCreated, name});
    assert |{DateCreated, name}| == 2;
    assert name in keys;
  }

  /** Appending a record with one field besides `date_created`, none of them
    * needing quotes: it raises when the format, the value, or on the first
    * append the field's name, is not ASCII. */
  lemma PairAppend(oldContent: string, t: Instant, name: string, value: string, datetimeFormat: string,
                   strftime: Strftime, json: JsonLib)
    requires name != DateCreated
    requires !NeedsQuoting(strftime(t, datetimeFormat)) && !NeedsQuoting(name) && !NeedsQuoting(value)
    ensures AppendSpec(oldContent, Csv, datetimeFormat, map[DateCreated := Moment(t), name := Text(value)], strftime, json)
            == if Ascii(datetimeFormat) && (oldContent == EmptyDocument(Csv) ==> Ascii(name)) && Ascii(value)
               then Success((if oldContent == EmptyDocument(Csv) then DateCreated + ";" + name + LineTerminator else oldContent)
                            + (strftime(t, datetimeFormat) + ";" + value + LineTerminator))
               else Failure(UnicodeEncode)
  {
    var ts := strftime(t, datetimeFormat);
    PairColumns(t, name, value, datetimeFormat, strftime);
    DateCreatedPlain();
    assert HeaderWritable([DateCreated, name]) <==> Ascii(name);
    assert RowWritable([Text(ts), Text(value)]) <==> Ascii(value);
    PlainPairRow(DateCreated, name);
    PlainPairRow(ts, value);
  }

  /** The columns, values and row of a record with one field besides `date_created`. */
  lemma PairColumns(t: Instant, name: string, value: string, datetimeFormat: string, strftime: Strftime)
    requires name != DateCreated
    ensures var stamped := Stamped(map[DateCreated := Moment(t), name := Text(value)], datetimeFormat, strftime);
            var ts := strftime(t, datetimeFormat);
            && CsvKeyOrder(stamped.Keys) == [DateCreated, name]
            && Project([DateCreated, name], stamped) == [Text(ts), Text(value)]
            && CsvRow(stamped, strftime) == [ts, value]
  {
    var ts := strftime(t, datetimeFormat);
    var stamped := Stamped(map[DateCreated := Moment(t), name := Text(value)], datetimeFormat, strftime);
    assert stamped == map[DateCreated := Text(ts), name := Text(value)];
    assert stamped.Keys == {DateCreated, name};
    TwoColumns(name);
  }

  /** The `date_created` column name is ASCII and needs no quotes. */
  lemma DateCreatedPlain()
    ensures Ascii(DateCreated) && !NeedsQuoting(DateCreated)
  {
    forall i | 0 <= i < |DateCreated| ensures DateCreated[i] as int < 128 && !Special(DateCreated[i]) {
    }
  }

  /** A new CSV bin receiving `{name: a}` and then `{name: b}`: a header row,
    * then one row per append, with no second header; with a format
    * `strftime` cannot encode, the first append already raises. */
  lemma {:induction false} CsvTwoAppends(t1: Instant, t2: Instant, name: string, a: string, b: string,
                                         datetimeFormat: string, strftime: Strftime, json: JsonLib)
    requires name != DateCreated && !NeedsQuoting(name) && !NeedsQuoting(a) && !NeedsQuoting(b)
    requires Ascii(name) && Ascii(a) && Ascii(b)
    requires !NeedsQuoting(strftime(t1, datetimeFormat)) && !NeedsQuoting(strftime(t2, datetimeFormat))
    ensures var d1 := AppendSpec(EmptyDocument(Csv), Csv, datetimeFormat,
                                 map[DateCreated := Moment(t1), name := Text(a)], strftime, json);
            && d1 == (if Ascii(datetimeFormat)
                      then Success(DateCreated + ";" + name + LineTerminator
                                   + (strftime(t1, datetimeFormat) + ";" + a + LineTerminator))
                      else Failure(UnicodeEncode))
            && (d1.Success? ==>
                AppendSpec(d1.value, Csv, datetimeFormat, map[DateCreated := Moment(t2), name := Text(b)], strftime, json)
                == Success(d1.value + (strftime(t2, datetimeFormat) + ";" + b + LineTerminator)))
  {
    PairAppend(EmptyDocument(Csv), t1, name, a, datetimeFormat, strftime, json);
    if !Ascii(datetimeFormat) {
      return;
    }
    var d1 := DateCreated + ";" + name + LineTerminator + (strftime(t1, datetimeFormat) + ";" + a + LineTerminator);
    HeaderedNotEmpty(name, strftime(t1, datetimeFormat) + ";" + a + LineTerminator);
    PairAppend(d1, t2, name, b, datetimeFormat, strftime, json);
  }

  /** A document that starts with a header row is not the empty CSV document. */
  lemma HeaderedNotEmpty(name: string, rows: string)
    ensures DateCreated + ";" + name + LineTerminator + rows != EmptyDocument(Csv)
  {
    var d := DateCreated + ";" + name + LineTerminator + rows;
    assert |d| >= |DateCreated|;
  }
}
