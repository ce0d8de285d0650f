/**
 * The rows `csv.writer(output, delimiter=';', quotechar='"',
 * quoting=csv.QUOTE_MINIMAL)` writes: fields joined by ';', a field quoted
 * only when it holds the delimiter, the quote character or a line break,
 * quote characters inside a quoted field doubled, and every row ended by the
 * module's default line terminator "\r\n". `DecodeRow` reads such a row back
 * with the same dialect.
 */
module CsvWriter {
  import opened Wrappers

  const Delimiter: char := ';'
  const QuoteChar: char := '"'
  const LineTerminator: string := "\r\n"

  predicate Special(c: char)
  {
    c == Delimiter || c == QuoteChar || c == '\r' || c == '\n'
  }

  /** QUOTE_MINIMAL: quote exactly the fields that could not be read back otherwise. */
  predicate NeedsQuoting(f: string)
  {
    exists i :: 0 <= i < |f| && Special(f[i])
  }

  /** The field's characters with every quote character written twice. */
  function DoubleQuotes(f: string): string
  {
    if f == [] then []
    else (if f[0] == QuoteChar then [QuoteChar, QuoteChar] else [f[0]]) + DoubleQuotes(f[1..])
  }

  function EncodeField(f: string): string
  {
    if NeedsQuoting(f) then [QuoteChar] + DoubleQuotes(f) + [QuoteChar] else f
  }

  function JoinFields(fields: seq<string>): string
    requires |fields| > 0
  {
    if |fields| == 1 then EncodeField(fields[0])
    else EncodeField(fields[0]) + ([Delimiter] + JoinFields(fields[1..]))
  }

  /** `writerow(fields)`: one row with its terminator. A row whose only field
    * is empty is written as a quoted empty string, so that it differs from
    * an empty row. */
  function EncodeRow(fields: seq<string>): (r: string)
    ensures |r| >= |LineTerminator| && r[|r| - |LineTerminator|..] == LineTerminator
  {
    var body := if fields == [] then "" else if fields == [""] then [QuoteChar, QuoteChar] else JoinFields(fields);
    assert (body + LineTerminator)[|body|..] == LineTerminator;
    body + LineTerminator
  }

  /** Reads an unquoted field up to the next delimiter; the rest after the
    * delimiter, or None at the end of the row. */
  function ParseUnquoted(s: string): (r: (string, Option<string>))
    ensures r.1.Some? ==> |r.1.value| < |s|
  {
    if s == [] then ("", None)
    else if s[0] == Delimiter then ("", Some(s[1..]))
    else
      var (f, rest) := ParseUnquoted(s[1..]);
      ([s[0]] + f, rest)
  }

  /** Reads the rest of a quoted field, after its opening quote. */
  function ParseQuoted(s: string): (r: (string, Option<string>))
    ensures r.1.Some? ==> |r.1.value| < |s|
  {
    if s == [] then ("", None)
    else if s[0] == QuoteChar then
      if |s| >= 2 && s[1] == QuoteChar then
        var (f, rest) := ParseQuoted(s[2..]);
        ([QuoteChar] + f, rest)
      else ParseUnquoted(s[1..])
    else
      var (f, rest) := ParseQuoted(s[1..]);
      ([s[0]] + f, rest)
  }

  function ParseField(s: string): (r: (string, Option<string>))
    ensures r.1.Some? ==> |r.1.value| < |s|
  {
    if s != [] && s[0] == QuoteChar then ParseQuoted(s[1..]) else ParseUnquoted(s)
  }

  function DecodeFields(s: string): seq<string>
    decreases |s|
  {
    var (f, rest) := ParseField(s);
    match rest
    case None => [f]
    case Some(t) => [f] + DecodeFields(t)
  }

  /** Reads one row written by `EncodeRow`. */
  function DecodeRow(r: string): Option<seq<string>>
  {
    if |r| < |LineTerminator| || r[|r| - |LineTerminator|..] != LineTerminator then None
    else
      var body := r[..|r| - |LineTerminator|];
      if body == "" then Some([]) else Some(DecodeFields(body))
  }

  /** A field free of special characters is read back up to the delimiter. */
  lemma {:induction false} UnquotedRoundTrip(f: string, tail: string)
    requires !NeedsQuoting(f)
    requires tail == [] || tail[0] == Delimiter
    ensures ParseUnquoted(f + tail) == (f, if tail == [] then None else Some(tail[1..]))
  {
    if f != [] {
      assert !Special(f[0]);
      assert !NeedsQuoting(f[1..]) by {
        forall i | 0 <= i < |f[1..]| ensures !Special(f[1..][i]) {
          assert f[1..][i] == f[i + 1];
        }
      }
      assert (f + tail)[1..] == f[1..] + tail;
      UnquotedRoundTrip(f[1..], tail);
      assert [f[0]] + f[1..] == f;
    } else {
      assert f + tail == tail;
    }
  }

  /** A quoted field is read back up to its closing quote. */
  lemma {:induction false} QuotedRoundTrip(f: string, tail: string)
    requires tail == [] || tail[0] == Delimiter
    ensures ParseQuoted(DoubleQuotes(f) + [QuoteChar] + tail) == (f, if tail == [] then None else Some(tail[1..]))
  {
    var s := DoubleQuotes(f) + [QuoteChar] + tail;
    if f == [] {
      assert s == [QuoteChar] + tail;
      assert s[1..] == tail;
      assert ParseUnquoted(tail) == ("", if tail == [] then None else Some(tail[1..]));
    } else {
      QuotedRoundTrip(f[1..], tail);
      assert [f[0]] + f[1..] == f;
      if f[0] == QuoteChar {
        assert s[2..] == DoubleQuotes(f[1..]) + [QuoteChar] + tail;
      } else {
        assert s[1..] == DoubleQuotes(f[1..]) + [QuoteChar] + tail;
      }
    }
  }

  lemma FieldRoundTrip(f: string, tail: string)
    requires tail == [] || tail[0] == Delimiter
    ensures ParseField(EncodeField(f) + tail) == (f, if tail == [] then None else Some(tail[1..]))
  {
    if NeedsQuoting(f) {
      QuotedFieldRoundTrip(f, tail);
    } else {
      UnquotedRoundTrip(f, tail);
      var s := f + tail;
      assert s == [] || s[0] != QuoteChar by {
        if f != [] {
          assert !Special(f[0]);
          assert s[0] == f[0];
        } else {
          assert s == tail;
        }
      }
    }
  }

  lemma QuotedFieldRoundTrip(f: string, tail: string)
    requires NeedsQuoting(f)
    requires tail == [] || tail[0] == Delimiter
    ensures ParseField(EncodeField(f) + tail) == (f, if tail == [] then None else Some(tail[1..]))
  {
    var s := [QuoteChar] + (DoubleQuotes(f) + [QuoteChar] + tail);
    assert EncodeField(f) + tail == s;
    assert s[1..] == DoubleQuotes(f) + [QuoteChar] + tail;
    QuotedRoundTrip(f, tail);
  }

  lemma {:induction false} JoinRoundTrip(fields: seq<string>)
    requires |fields| > 0
    ensures DecodeFields(JoinFields(fields)) == fields
    decreases |fields|
  {
    var s := JoinFields(fields);
    if |fields| == 1 {
      FieldRoundTrip(fields[0], []);
      assert s + [] == s;
      assert ParseField(s) == (fields[0], None);
    } else {
      var rest := JoinFields(fields[1..]);
      JoinFirstField(fields);
      JoinRoundTrip(fields[1..]);
      assert DecodeFields(s) == [fields[0]] + DecodeFields(rest);
      assert fields == [fields[0]] + fields[1..];
    }
  }

  /** Joining two or more fields: the first parses back, leaving the join of the rest. */
  lemma JoinFirstField(fields: seq<string>)
    requires |fields| > 1
    ensures ParseField(JoinFields(fields)) == (fields[0], Some(JoinFields(fields[1..])))
  {
    var tail := [Delimiter] + JoinFields(fields[1..]);
    assert tail[0] == Delimiter && tail[1..] == JoinFields(fields[1..]);
    FieldRoundTrip(fields[0], tail);
  }

  /** Every row the writer produces reads back as exactly its fields. */
  lemma RowRoundTrip(fields: seq<string>)
    ensures DecodeRow(EncodeRow(fields)) == Some(fields)
  {
    var r := EncodeRow(fields);
    var body := if fields == [] then "" else if fields == [""] then [QuoteChar, QuoteChar] else JoinFields(fields);
    assert r == body + LineTerminator;
    assert r[..|r| - |LineTerminator|] == body;
    if fields == [""] {
      assert ParseQuoted([QuoteChar]) == ParseUnquoted([]);
    } else if fields != [] {
      JoinRoundTrip(fields);
    }
  }

  /** A field that needs no quoting is written as it is. */
  lemma PlainFieldUnchanged(f: string)
    requires !NeedsQuoting(f)
    ensures EncodeField(f) == f
  {
  }
}
