/**
 * The text that `downloadCSV` builds before handing it to the browser: a header line
 * of the first record's keys joined by commas, then one line per record whose fields
 * are wrapped in double quotes with every internal quote doubled, all joined by LF.
 */
module CsvHelper {
  import opened Wrappers
  import opened JsValues
  import opened Records
  import CsvReader

  /** Number of double-quote characters in `s`. */
  function CountQuotes(s: string): nat
  {
    if s == [] then 0 else (if s[0] == '"' then 1 else 0) + CountQuotes(s[1..])
  }

  /** `s.replace(/"/g, '""')`: every quote doubled, every other character kept. */
  function Escape(s: string): string
    decreases |s|
  {
    if s == [] then ""
    else (if s[0] == '"' then "\"\"" else [s[0]]) + Escape(s[1..])
  }

  /** Escaping adds exactly one character per quote. */
  lemma {:induction false} EscapeLength(s: string)
    ensures |Escape(s)| == |s| + CountQuotes(s)
    decreases |s|
  {
    if s != [] {
      EscapeLength(s[1..]);
    }
  }

  /** `"${escaped}"`: every field is quoted, whether or not it holds a comma or a quote. */
  function Quote(s: string): (r: string)
    ensures |r| >= 2 && r[0] == '"' && r[|r| - 1] == '"'
  {
    "\"" + Escape(s) + "\""
  }

  /** Collapses `""` to `"`; fails on a quote that is not doubled. */
  function Unescape(t: string): Option<string>
    decreases |t|
  {
    if t == [] then Some("")
    else if t[0] == '"' then
      if |t| >= 2 && t[1] == '"' then
        match Unescape(t[2..])
        case None => None
        case Some(u) => Some("\"" + u)
      else None
    else
      match Unescape(t[1..])
      case None => None
      case Some(u) => Some([t[0]] + u)
  }

  /** Strips the outer quotes of a field and collapses the doubled quotes inside. */
  function Unquote(f: string): Option<string>
  {
    if |f| >= 2 && f[0] == '"' && f[|f| - 1] == '"' then Unescape(f[1..|f| - 1]) else None
  }

  /** `parts.join(sep)` */
  function Join(parts: seq<string>, sep: char): string
    decreases |parts|
  {
    if parts == [] then ""
    else if |parts| == 1 then parts[0]
    else parts[0] + [sep] + Join(parts[1..], sep)
  }

  /** `'' + row[fieldName]`: a key the record lacks reads as `undefined`. */
  function FieldText(row: Record<JsValue>, fieldName: string): string
  {
    ToStr(if fieldName in row.vals then row.vals[fieldName] else Undefined)
  }

  /** The text of each column of `row`, in column order. */
  function FieldTexts(headers: seq<string>, row: Record<JsValue>): (r: seq<string>)
    ensures |r| == |headers|
  {
    seq(|headers|, j requires 0 <= j < |headers| => FieldText(row, headers[j]))
  }

  function QuoteAll(vals: seq<string>): (r: seq<string>)
    ensures |r| == |vals|
  {
    seq(|vals|, j requires 0 <= j < |vals| => Quote(vals[j]))
  }

  /** One data line: the quoted fields of `row` in column order, joined by commas. */
  function DataLine(headers: seq<string>, row: Record<JsValue>): string
  {
    Join(QuoteAll(FieldTexts(headers, row)), ',')
  }

  /** `csvRows`: the unquoted header line followed by one line per record. */
  function CsvRows(data: seq<Record<JsValue>>): (rows: seq<string>)
    requires |data| > 0
    ensures |rows| == |data| + 1
    ensures rows[0] == Join(data[0].keys, ',')
  {
    var headers := data[0].keys;
    [Join(headers, ',')] + seq(|data|, i requires 0 <= i < |data| => DataLine(headers, data[i]))
  }

  /**
   * `downloadCSV` up to the creation of the download: nothing for an empty data set,
   * otherwise the lines joined by LF.
   */
  function DownloadCsv(data: seq<Record<JsValue>>): (r: Option<string>)
    ensures r.None? <==> data == []
  {
    if data == [] then None else Some(Join(CsvRows(data), '\n'))
  }

  // ---------------------------------------------------------------------------
  // Field quoting is lossless

  lemma {:induction false} UnescapeEscape(s: string)
    ensures Unescape(Escape(s)) == Some(s)
    decreases |s|
  {
    if s != [] {
      UnescapeEscape(s[1..]);
      var e := Escape(s);
      if s[0] == '"' {
        assert e[2..] == Escape(s[1..]);
      } else {
        assert e[1..] == Escape(s[1..]);
      }
      assert s == [s[0]] + s[1..];
    }
  }

  /** The converse: a text that unescapes to `s` is exactly `Escape(s)`. */
  lemma {:induction false} EscapeUnescape(t: string, s: string)
    requires Unescape(t) == Some(s)
    ensures Escape(s) == t
    decreases |t|
  {
    if t != [] {
      if t[0] == '"' {
        var u := Unescape(t[2..]).value;
        EscapeUnescape(t[2..], u);
        assert s == "\"" + u;
        assert s[1..] == u;
        assert t == "\"\"" + t[2..];
      } else {
        var u := Unescape(t[1..]).value;
        EscapeUnescape(t[1..], u);
        assert s == [t[0]] + u;
        assert s[1..] == u;
        assert t == [t[0]] + t[1..];
      }
    }
  }

  /** Stripping the outer quotes and collapsing `""` gives back the value. */
  lemma QuoteRoundTrip(s: string)
    ensures Unquote(Quote(s)) == Some(s)
  {
    var e := Escape(s);
    var q := Quote(s);
    assert q[1..|q| - 1] == e;
    UnescapeEscape(s);
  }

  /** A field that unquotes to `s` is the quoted form of `s`: quoting is the only encoding. */
  lemma UnquoteOnlyFromQuote(f: string, s: string)
    requires Unquote(f) == Some(s)
    ensures f == Quote(s)
  {
    assert |f| >= 2 && f[0] == '"' && f[|f| - 1] == '"';
    var inner := f[1..|f| - 1];
    EscapeUnescape(inner, s);
    var q := Quote(s);
    assert q == "\"" + inner + "\"";
    forall i | 0 <= i < |f| ensures f[i] == q[i] {
      if 0 < i < |f| - 1 {
        assert f[i] == inner[i - 1];
      }
    }
  }

  // ---------------------------------------------------------------------------
  // The whole text reads back through the reference reader

  lemma {:induction false} ScanEscaped(v: string, t: string)
    requires t == [] || t[0] != '"'
    ensures CsvReader.ScanBody(Escape(v) + "\"" + t) == Some((v, t))
    decreases |v|
  {
    if v == [] {
      var s := "\"" + t;
      assert Escape(v) + "\"" + t == s;
      assert s[1..] == t;
    } else {
      var tail := Escape(v[1..]) + "\"" + t;
      ScanEscaped(v[1..], t);
      if v[0] == '"' {
        var s := "\"\"" + tail;
        assert Escape(v) + "\"" + t == s;
        assert s[2..] == tail;
        assert "\"" + v[1..] == v;
      } else {
        var s := [v[0]] + tail;
        assert Escape(v) + "\"" + t == s;
        assert s[0] != '"' && s[1..] == tail;
        assert [v[0]] + v[1..] == v;
      }
    }
  }

  /** The opening quote and the body of a quoted field followed by `tail`. */
  lemma ScanQuoted(v: string, tail: string)
    requires tail == [] || tail[0] != '"'
    ensures var s := Quote(v) + tail; s != [] && s[0] == '"' && CsvReader.ScanBody(s[1..]) == Some((v, tail))
  {
    var s := Quote(v) + tail;
    assert s[1..] == Escape(v) + "\"" + tail;
    ScanEscaped(v, tail);
  }

  lemma {:induction false} QuotedFieldsRoundTrip(vals: seq<string>, rest: string)
    requires |vals| > 0
    requires rest == [] || rest[0] == '\n'
    ensures CsvReader.ParseQuotedFields(Join(QuoteAll(vals), ',') + rest) == Some((vals, rest))
    decreases |vals|
  {
    var qs := QuoteAll(vals);
    if |vals| == 1 {
      assert Join(qs, ',') == Quote(vals[0]);
      ScanQuoted(vals[0], rest);
      assert [vals[0]] == vals;
    } else {
      var more := Join(QuoteAll(vals[1..]), ',') + rest;
      var tail := [','] + more;
      assert qs[1..] == QuoteAll(vals[1..]);
      assert Join(qs, ',') + rest == Quote(vals[0]) + tail;
      ScanQuoted(vals[0], tail);
      assert tail[1..] == more;
      QuotedFieldsRoundTrip(vals[1..], rest);
      assert [vals[0]] + vals[1..] == vals;
    }
  }

  /**
   * A name that section 2, rule 6, of RFC 4180 lets stand unquoted: no comma, double
   * quote, carriage return or line feed. Only such names survive the unquoted header line.
   */
  ghost predicate BareSafe(h: string)
  {
    ',' !in h && '"' !in h && '\r' !in h && '\n' !in h
  }

  lemma {:induction false} BareRoundTrip(h: string, t: string)
    requires BareSafe(h)
    requires t == [] || t[0] == ',' || t[0] == '\n'
    ensures CsvReader.ParseBare(h + t) == (h, t)
    decreases |h|
  {
    if h != [] {
      assert h[0] in h;
      assert (h + t)[0] == h[0];
      assert (h + t)[1..] == h[1..] + t;
      assert BareSafe(h[1..]) by {
        forall c | c in h[1..] ensures c in h { }
      }
      BareRoundTrip(h[1..], t);
      assert [h[0]] + h[1..] == h;
    } else {
      assert h + t == t;
    }
  }

  lemma {:induction false} HeaderRoundTrip(hs: seq<string>, rest: string)
    requires |hs| > 0
    requires forall i :: 0 <= i < |hs| ==> BareSafe(hs[i])
    requires rest == [] || rest[0] == '\n'
    ensures CsvReader.ParseHeaderFields(Join(hs, ',') + rest) == (hs, rest)
    decreases |hs|
  {
    if |hs| == 1 {
      assert Join(hs, ',') == hs[0];
      BareRoundTrip(hs[0], rest);
      assert [hs[0]] == hs;
    } else {
      var more := Join(hs[1..], ',') + rest;
      var tail := [','] + more;
      assert Join(hs, ',') + rest == hs[0] + tail;
      BareRoundTrip(hs[0], tail);
      assert tail[1..] == more;
      HeaderRoundTrip(hs[1..], rest);
      assert [hs[0]] + hs[1..] == hs;
    }
  }

  /** The data lines of `rows`, each quoted field by field. */
  function Lines(rows: seq<seq<string>>): (r: seq<string>)
    ensures |r| == |rows|
  {
    seq(|rows|, i requires 0 <= i < |rows| => Join(QuoteAll(rows[i]), ','))
  }

  /** What follows the header line: nothing, or LF and the data lines joined by LF. */
  function Body(rows: seq<seq<string>>): string
  {
    if rows == [] then "" else "\n" + Join(Lines(rows), '\n')
  }

  lemma {:induction false} RecordsRoundTrip(rows: seq<seq<string>>)
    requires forall i :: 0 <= i < |rows| ==> |rows[i]| > 0
    ensures CsvReader.ParseRecords(Body(rows)) == Some(rows)
    decreases |rows|
  {
    if rows != [] {
      var ls := Lines(rows);
      var rest := Body(rows[1..]);
      assert ls[1..] == Lines(rows[1..]);
      assert Join(ls, '\n') == ls[0] + rest;
      QuotedFieldsRoundTrip(rows[0], rest);
      RecordsRoundTrip(rows[1..]);
      assert rows == [rows[0]] + rows[1..];
    }
  }

  /**
   * Reading the written text back gives the first record's keys as the header, and for
   * every record the text of each column, so nothing is lost for values holding commas,
   * quotes or line breaks. The first record needs at least one key, and its keys must be
   * names RFC 4180 lets stand unquoted (`BareSafe`): the header line is not quoted.
   */
  lemma CsvRoundTrip(data: seq<Record<JsValue>>)
    requires |data| > 0 && |data[0].keys| > 0
    requires forall i :: 0 <= i < |data[0].keys| ==> BareSafe(data[0].keys[i])
    ensures DownloadCsv(data).Some?
    ensures CsvReader.ParseCsv(DownloadCsv(data).value)
         == Some((data[0].keys, seq(|data|, i requires 0 <= i < |data| => FieldTexts(data[0].keys, data[i]))))
  {
    var headers := data[0].keys;
    var rows := seq(|data|, i requires 0 <= i < |data| => FieldTexts(headers, data[i]));
    var lines := CsvRows(data);
    assert lines[1..] == Lines(rows);
    assert Join(lines, '\n') == Join(headers, ',') + Body(rows);
    HeaderRoundTrip(headers, Body(rows));
    RecordsRoundTrip(rows);
  }

  /** A column the record lacks is written, and read back, as the text `undefined`. */
  lemma MissingKeyReadsUndefined(data: seq<Record<JsValue>>, i: int, j: int)
    requires |data| > 0 && |data[0].keys| > 0
    requires forall k :: 0 <= k < |data[0].keys| ==> BareSafe(data[0].keys[k])
    requires 0 <= i < |data| && 0 <= j < |data[0].keys|
    requires data[0].keys[j] !in data[i].vals
    ensures DownloadCsv(data).Some?
    ensures CsvReader.ParseCsv(DownloadCsv(data).value).Some?
    ensures |CsvReader.ParseCsv(DownloadCsv(data).value).value.1| == |data|
    ensures |CsvReader.ParseCsv(DownloadCsv(data).value).value.1[i]| == |data[0].keys|
    ensures CsvReader.ParseCsv(DownloadCsv(data).value).value.1[i][j] == "undefined"
  {
    CsvRoundTrip(data);
  }

  /** Keys that only later records have are never written: the columns come from the first record. */
  lemma LaterKeysNotWritten(data: seq<Record<JsValue>>, k: string)
    requires |data| > 0 && |data[0].keys| > 0
    requires forall i :: 0 <= i < |data[0].keys| ==> BareSafe(data[0].keys[i])
    requires k !in data[0].keys
    ensures DownloadCsv(data).Some?
    ensures CsvReader.ParseCsv(DownloadCsv(data).value).Some?
    ensures k !in CsvReader.ParseCsv(DownloadCsv(data).value).value.0
    ensures forall rec :: rec in CsvReader.ParseCsv(DownloadCsv(data).value).value.1 ==> |rec| == |data[0].keys|
  {
    CsvRoundTrip(data);
  }

  /** The header line is not quoted: a key holding a comma reads back as two columns. */
  lemma UnquotedHeaderSplits()
    ensures var data := [Record(["a,b"], map["a,b" := Str("1")])];
            DownloadCsv(data) == Some("a,b\n\"1\"")
            && CsvReader.ParseCsv(DownloadCsv(data).value) == Some((["a", "b"], [["1"]]))
  {
    var data := [Record(["a,b"], map["a,b" := Str("1")])];
    assert Escape("1") == "1";
    assert FieldTexts(["a,b"], data[0]) == ["1"];
    assert Quote("1") == "\"1\"";
    assert QuoteAll(["1"]) == ["\"1\""];
    assert DataLine(["a,b"], data[0]) == "\"1\"";
    assert CsvRows(data) == ["a,b", "\"1\""];
    assert Join(["a,b", "\"1\""], '\n') == "a,b\n\"1\"";
    assert Join(["a", "b"], ',') == "a,b";
    assert Lines([["1"]]) == ["\"1\""];
    assert DownloadCsv(data).value == Join(["a", "b"], ',') + Body([["1"]]);
    HeaderRoundTrip(["a", "b"], Body([["1"]]));
    RecordsRoundTrip([["1"]]);
  }

  /**
   * The header line is not escaped: a key written as `"x"` appears on the header line
   * exactly as the quoted field `x` would, so a reader that follows RFC 4180 takes the
   * header to be `x`, not the key.
   */
  lemma QuotedHeaderReadsUnquoted()
    ensures var data := [Record(["\"x\""], map["\"x\"" := Str("1")])];
            DownloadCsv(data) == Some(Quote("x") + "\n" + Quote("1"))
            && Unquote(Quote("x")) == Some("x")
  {
    var data := [Record(["\"x\""], map["\"x\"" := Str("1")])];
    assert Escape("x") == "x" && Escape("1") == "1";
    assert Quote("x") == "\"x\"";
    assert FieldTexts(["\"x\""], data[0]) == ["1"];
    assert QuoteAll(["1"]) == [Quote("1")];
    assert DataLine(["\"x\""], data[0]) == Quote("1");
    assert CsvRows(data) == ["\"x\"", Quote("1")];
    assert Join(["\"x\"", Quote("1")], '\n') == "\"x\"" + "\n" + Quote("1");
    QuoteRoundTrip("x");
  }

  /**
   * A first record without keys gives an empty header line and empty data lines: `[{}]`
   * is written as a lone line feed, which does not read back as a CSV document.
   */
  lemma KeylessFirstRecordUnreadable()
    ensures DownloadCsv([Record([], map[])]) == Some("\n")
    ensures CsvReader.ParseCsv("\n") == None
  {
    var data: seq<Record<JsValue>> := [Record([], map[])];
    assert FieldTexts([], data[0]) == [];
    assert QuoteAll([]) == [];
    assert DataLine([], data[0]) == "";
    assert CsvRows(data) == ["", ""];
    assert Join(["", ""], '\n') == "\n";
  }
}
