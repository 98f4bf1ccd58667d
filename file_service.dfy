/**
 * The backend's table handling: which reader a file name selects, the head-N sample,
 * the column list, and the alignment of the mapped records to the template columns
 * before the Excel file is written. A DataFrame is modelled as its ordered column
 * names and one map per row from column name to a cell.
 */
module FileService {
  import opened Wrappers
  import opened Records
  import opened PyJson

  const UnsupportedFormat := "Formato de arquivo não suportado. Use CSV ou Excel."

  /** The pandas reader chosen for an upload. */
  datatype Reader = ReadCsv | ReadExcel

  /** A DataFrame cell: a value, or empty (NaN or None, both written as a blank cell). */
  datatype Cell<V> = Empty | Val(v: V)

  datatype Frame<V> = Frame(columns: seq<string>, rows: seq<map<string, Cell<V>>>)
  {
    /** Every row has a cell for exactly the frame's columns. */
    ghost predicate Rectangular()
    {
      forall i :: 0 <= i < |rows| ==> forall c :: c in rows[i] <==> c in columns
    }
  }

  /** The suffix dispatch of `read_file_to_dataframe`; the reading itself is done by pandas. */
  function ReadFileToDataframe(filename: string): (r: Result<Reader, PyError>)
    ensures r == Ok(ReadCsv) <==> EndsWith(filename, ".csv")
    ensures r == Ok(ReadExcel) <==>
      !EndsWith(filename, ".csv") && (EndsWith(filename, ".xls") || EndsWith(filename, ".xlsx"))
    ensures r.Err? ==> r.error == PyError("ValueError", UnsupportedFormat)
  {
    if EndsWith(filename, ".csv") then Ok(ReadCsv)
    else if EndsWith(filename, ".xls") || EndsWith(filename, ".xlsx") then Ok(ReadExcel)
    else Err(PyError("ValueError", UnsupportedFormat))
  }

  /** The suffix test is case-sensitive: an upper-case extension is refused. */
  lemma UpperCaseSuffixRefused()
    ensures ReadFileToDataframe("DATA.CSV").Err?
    ensures ReadFileToDataframe("data.csv") == Ok(ReadCsv)
    ensures ReadFileToDataframe("data.xlsx") == Ok(ReadExcel)
  {
    assert "DATA.CSV"[4..] != ".csv" by { assert "DATA.CSV"[5] != ".csv"[1]; }
    assert "DATA.CSV"[5..] != ".xls" by { assert "DATA.CSV"[5] != ".xls"[0]; }
    assert "DATA.CSV"[3..] != ".xlsx" by { assert "DATA.CSV"[3] != ".xlsx"[0]; }
    assert "data.csv"[4..] == ".csv";
    assert "data.xlsx"[5..] != ".csv" by { assert "data.xlsx"[5] != ".csv"[0]; }
    assert "data.xlsx"[4..] == ".xlsx";
  }

  /** `df.head(n)`: the first n rows, or for a negative n all but the last -n rows. */
  function Head<T>(rows: seq<T>, n: int): (r: seq<T>)
    ensures r <= rows
    ensures |r| == if n >= 0 then (if n < |rows| then n else |rows|)
                   else (if |rows| + n > 0 then |rows| + n else 0)
  {
    if n >= 0 then rows[..if n < |rows| then n else |rows|]
    else rows[..if |rows| + n > 0 then |rows| + n else 0]
  }

  /** The rows `get_dataframe_sample` serialises: the same columns, the first rows in order. */
  function GetDataframeSample<V>(df: Frame<V>, rows: int := 5): (s: Frame<V>)
    ensures s.columns == df.columns
    ensures s.rows <= df.rows
    ensures rows >= 0 ==> |s.rows| == (if rows < |df.rows| then rows else |df.rows|)
  {
    Frame(df.columns, Head(df.rows, rows))
  }

  /** `list(df.columns)` */
  function GetHeaders<V>(df: Frame<V>): (h: seq<string>)
    ensures |h| == |df.columns| && forall i :: 0 <= i < |h| ==> h[i] == df.columns[i]
  {
    df.columns
  }

  /** The sample keeps the frame's columns in their order, and by default holds at most five rows. */
  lemma SampleKeepsHeaders<V>(df: Frame<V>)
    ensures GetHeaders(GetDataframeSample(df)) == GetHeaders(df)
    ensures |GetDataframeSample(df).rows| == if |df.rows| < 5 then |df.rows| else 5
  {
  }

  /** The cell a record gives to a column: its value, or empty when it lacks the key. */
  function CellOf<V>(rec: Record<V>, c: string): Cell<V>
  {
    if c in rec.vals then Val(rec.vals[c]) else Empty
  }

  /** The keys of all records, in order of first appearance. */
  function KeyUnion<V>(data: seq<Record<V>>): (ks: seq<string>)
    ensures forall i, k :: 0 <= i < |data| && k in data[i].keys ==> k in ks
    decreases |data|
  {
    if data == [] then []
    else
      var n := |data| - 1;
      var ks := KeyUnion(data[..n]) + data[n].keys;
      DedupMembers(ks);
      Dedup(ks)
  }

  /** `pd.DataFrame(data)` for a list of dicts: one column per key, empty where a dict lacks it. */
  function FromRecords<V>(data: seq<Record<V>>): (df: Frame<V>)
    ensures df.Rectangular()
  {
    var columns := KeyUnion(data);
    Frame(columns, seq(|data|, i requires 0 <= i < |data| =>
      map c | c in columns :: CellOf(data[i], c)))
  }

  /** `df[header] = None`: a new last column, empty in every row. */
  function AddEmptyColumn<V>(df: Frame<V>, header: string): (r: Frame<V>)
    requires df.Rectangular()
    ensures r.Rectangular()
  {
    Frame(df.columns + [header], seq(|df.rows|, i requires 0 <= i < |df.rows| => df.rows[i][header := Empty]))
  }

  /** `df[headers]`: the listed columns, in the listed order. */
  function SelectColumns<V>(df: Frame<V>, headers: seq<string>): (r: Frame<V>)
    requires df.Rectangular()
    requires forall h :: h in headers ==> h in df.columns
    ensures r.Rectangular()
  {
    Frame(headers, seq(|df.rows|, i requires 0 <= i < |df.rows| => map h | h in headers :: df.rows[i][h]))
  }

  /**
   * The frame `generate_excel_from_data` writes: exactly the template columns in
   * template order, one row per record in order, each cell the record's value for
   * that column or empty when the record lacks it; other keys are dropped.
   */
  method GenerateExcelFromData<V>(data: seq<Record<V>>, headers: seq<string>) returns (df: Frame<V>)
    requires forall i :: 0 <= i < |data| ==> data[i].Valid()
    ensures df.columns == headers
    ensures |df.rows| == |data|
    ensures forall i :: 0 <= i < |data| ==> df.rows[i].Keys == set h | h in headers
    ensures forall i, h :: 0 <= i < |data| && h in headers ==> df.rows[i][h] == CellOf(data[i], h)
  {
    df := FromRecords(data);
    for idx := 0 to |headers|
      invariant df.Rectangular()
      invariant |df.rows| == |data|
      invariant forall i, k :: 0 <= i < |data| && k in data[i].vals ==> k in df.columns
      invariant forall h :: h in headers[..idx] ==> h in df.columns
      invariant forall i, c :: 0 <= i < |data| && c in df.columns ==> df.rows[i][c] == CellOf(data[i], c)
    {
      var header := headers[idx];
      if header !in df.columns {
        df := AddEmptyColumn(df, header);
      }
      assert headers[..idx + 1] == headers[..idx] + [header];
    }
    assert headers[..|headers|] == headers;
    df := SelectColumns(df, headers);
  }
}
