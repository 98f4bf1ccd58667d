/**
 * The `onload` body of `parseExcelFile` from the grid the spreadsheet library returns
 * (`sheet_to_json` with `header: 1`, an array of row arrays) to a `FileData`, and the
 * three ways the returned promise is rejected.
 */
module ExcelService {
  import opened Wrappers
  import opened JsValues
  import opened Records

  const FileIsEmpty := "File is empty"
  const ParseFailure := "Failed to parse spreadsheet"
  const ReadFailure := "Failed to read file"

  /**
   * A cell of the array `sheet_to_json` builds with `header: 1`: a value, or a hole
   * where the sheet has a blank cell.
   */
  datatype SheetCell = Hole | Cell(v: JsValue)

  /**
   * What reading the file gives: the reader's error event, or the first sheet as a
   * grid of cells, or `None` when the library threw while reading the workbook.
   */
  datatype FileLoad = ReadFailed | Loaded(grid: Option<seq<seq<SheetCell>>>)

  /**
   * `FileData`, without the raw `File` handle. A header is `None` where the first row
   * has a hole, which `map` keeps as a hole.
   */
  datatype FileData = FileData(name: string, headers: seq<Option<string>>, rows: seq<Record<JsValue>>)

  /** `row[i]`: `undefined` for a hole and past the end of the row. */
  function CellValue(row: seq<SheetCell>, i: int): JsValue
  {
    if 0 <= i < |row| && row[i].Cell? then row[i].v else Undefined
  }

  /** `(jsonData[0] as any[]).map(String)`: every value stringified, every hole kept. */
  function HeaderNames(first: seq<SheetCell>): (r: seq<Option<string>>)
    ensures |r| == |first|
  {
    seq(|first|, i requires 0 <= i < |first| => if first[i].Cell? then Some(ToStr(first[i].v)) else None)
  }

  /** The header names `forEach` visits, in order: holes are skipped. */
  function Named(headers: seq<Option<string>>): seq<string>
    decreases |headers|
  {
    if headers == [] then []
    else
      var n := |headers| - 1;
      Named(headers[..n]) + (if headers[n].Some? then [headers[n].value] else [])
  }

  /** The cell assigned at each visited header, aligned with `Named(headers)`. */
  function VisitedCells(headers: seq<Option<string>>, row: seq<SheetCell>): (r: seq<JsValue>)
    ensures |r| == |Named(headers)|
    decreases |headers|
  {
    if headers == [] then []
    else
      var n := |headers| - 1;
      VisitedCells(headers[..n], row) + (if headers[n].Some? then [CellValue(row, n)] else [])
  }

  /** A name is visited exactly when some header holds it. */
  lemma {:induction false} NamedMembers(headers: seq<Option<string>>, x: string)
    ensures x in Named(headers) <==> Some(x) in headers
    decreases |headers|
  {
    if headers != [] {
      var n := |headers| - 1;
      NamedMembers(headers[..n], x);
      assert headers == headers[..n] + [headers[n]];
    }
  }

  /**
   * What a decoded row promises: a key for every visited header, in first-occurrence
   * order, holding the cell at the header's last index, or `undefined` for a hole or
   * when the row is shorter.
   */
  ghost predicate DecodedRow(headers: seq<Option<string>>, row: seq<SheetCell>, rec: Record<JsValue>)
  {
    && rec.keys == Dedup(Named(headers))
    && AssignedFrom(Named(headers), VisitedCells(headers, row), rec)
  }

  /**
   * What a decoded file promises: its name, the first grid row stringified as headers
   * (same length and order, holes kept), and one decoded record per later grid row.
   */
  ghost predicate DecodedFile(fileName: string, grid: seq<seq<SheetCell>>, fd: FileData)
    requires |grid| > 0
  {
    && fd.name == fileName
    && fd.headers == HeaderNames(grid[0])
    && |fd.rows| == |grid| - 1
    && forall k :: 0 <= k < |fd.rows| ==> DecodedRow(fd.headers, grid[k + 1], fd.rows[k])
  }

  /** The `headers.forEach` loop that fills a fresh `rowObj`; `forEach` skips holes. */
  method BuildRowObj(headers: seq<Option<string>>, row: seq<SheetCell>) returns (rowObj: Record<JsValue>)
    ensures DecodedRow(headers, row, rowObj)
    ensures forall k :: k in rowObj.vals <==> Some(k) in headers
  {
    rowObj := Empty();
    var i := 0;
    while i < |headers|
      invariant 0 <= i <= |headers|
      invariant rowObj == Zip(Named(headers[..i]), VisitedCells(headers[..i], row))
    {
      assert headers[..i + 1][..i] == headers[..i];
      ghost var names := Named(headers[..i]);
      ghost var cells := VisitedCells(headers[..i], row);
      if headers[i].Some? {
        assert Named(headers[..i + 1]) == names + [headers[i].value];
        assert VisitedCells(headers[..i + 1], row) == cells + [CellValue(row, i)];
        assert (names + [headers[i].value])[..|names|] == names;
        assert (cells + [CellValue(row, i)])[..|cells|] == cells;
        rowObj := Set(rowObj, headers[i].value, CellValue(row, i));
      } else {
        assert Named(headers[..i + 1]) == names;
        assert VisitedCells(headers[..i + 1], row) == cells;
      }
      i := i + 1;
    }
    assert headers[..i] == headers;
    ZipAssigned(Named(headers), VisitedCells(headers, row));
    ZipKeyOrder(Named(headers), VisitedCells(headers, row));
    forall k ensures k in rowObj.vals <==> Some(k) in headers {
      NamedMembers(headers, k);
    }
  }

  /** `parseExcelFile(file)` once the reader has finished, as the value it resolves or rejects with. */
  method ParseExcelFile(fileName: string, load: FileLoad) returns (r: Result<FileData, string>)
    ensures load.ReadFailed? ==> r == Err(ReadFailure)
    ensures load.Loaded? && load.grid.None? ==> r == Err(ParseFailure)
    ensures load.Loaded? && load.grid == Some([]) ==> r == Err(FileIsEmpty)
    ensures r.Ok? <==> load.Loaded? && load.grid.Some? && |load.grid.value| > 0
    ensures r.Ok? ==> DecodedFile(fileName, load.grid.value, r.value)
  {
    if load.ReadFailed? {
      return Err(ReadFailure);
    }
    if load.grid.None? {
      return Err(ParseFailure);
    }
    var jsonData := load.grid.value;
    if |jsonData| == 0 {
      return Err(FileIsEmpty);
    }
    var headers := HeaderNames(jsonData[0]);
    var rows := MapRows(headers, jsonData[1..]);
    r := Ok(FileData(fileName, headers, rows));
    assert DecodedFile(fileName, jsonData, r.value) by {
      forall m | 0 <= m < |rows| ensures DecodedRow(headers, jsonData[m + 1], rows[m]) {
        assert jsonData[1..][m] == jsonData[m + 1];
      }
    }
  }

  /** `rowsRaw.map(...)`: one decoded record per raw row, in order. */
  method MapRows(headers: seq<Option<string>>, rowsRaw: seq<seq<SheetCell>>) returns (rows: seq<Record<JsValue>>)
    ensures |rows| == |rowsRaw|
    ensures forall m :: 0 <= m < |rows| ==> DecodedRow(headers, rowsRaw[m], rows[m])
  {
    rows := [];
    var k := 0;
    while k < |rowsRaw|
      invariant 0 <= k <= |rowsRaw|
      invariant |rows| == k
      invariant forall m :: 0 <= m < k ==> DecodedRow(headers, rowsRaw[m], rows[m])
    {
      var rowObj := BuildRowObj(headers, rowsRaw[k]);
      rows := rows + [rowObj];
      k := k + 1;
    }
  }

  /**
   * Every decoded record's keys are exactly the names in the header row; a blank
   * header cell gives no key.
   */
  lemma DecodedKeysAreHeaders(headers: seq<Option<string>>, row: seq<SheetCell>, rec: Record<JsValue>)
    requires DecodedRow(headers, row, rec)
    ensures forall k :: k in rec.vals <==> Some(k) in headers
  {
    forall k ensures k in rec.vals <==> Some(k) in headers {
      NamedMembers(headers, k);
    }
  }

  /** The names and cells `forEach` visits for the header row `["Name", <blank>, "Age"]`. */
  lemma BlankHeaderVisits(row: seq<SheetCell>)
    ensures Named([Some("Name"), None, Some("Age")]) == ["Name", "Age"]
    ensures VisitedCells([Some("Name"), None, Some("Age")], row) == [CellValue(row, 0), CellValue(row, 2)]
  {
    var headers := [Some("Name"), None, Some("Age")];
    assert headers[..2][..1] == headers[..1] == [Some("Name")];
    assert headers[..1][..0] == [];
    assert Named(headers[..1]) == ["Name"];
    assert Named(headers[..2]) == ["Name"];
    assert VisitedCells(headers[..1], row) == [CellValue(row, 0)];
    assert VisitedCells(headers[..2], row) == [CellValue(row, 0)];
  }

  /**
   * A blank header cell is skipped, not named "undefined": the header row
   * `["Name", <blank>, "Age"]` gives records keyed by `Name` and `Age` only.
   */
  lemma BlankHeaderSkipped()
    ensures var first := [Cell(Str("Name")), Hole, Cell(Str("Age"))];
            var row := [Cell(Str("Ana")), Cell(Str("x")), Cell(Num(30))];
            DecodedRow(HeaderNames(first), row,
                       Record(["Name", "Age"], map["Name" := Str("Ana"), "Age" := Num(30)]))
  {
    var first := [Cell(Str("Name")), Hole, Cell(Str("Age"))];
    var row := [Cell(Str("Ana")), Cell(Str("x")), Cell(Num(30))];
    assert HeaderNames(first) == [Some("Name"), None, Some("Age")];
    BlankHeaderVisits(row);
    var names := ["Name", "Age"];
    assert Dedup(names) == names by { DedupDistinct(names); }
    assert LastOccurrence(names, 0) && LastOccurrence(names, 1);
  }
}
