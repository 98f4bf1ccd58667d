/**
 * The deterministic tail of `restructureSpreadsheet`: the parsed AI response is
 * checked for `headers` and `rows`, each row array becomes a header-keyed record, and
 * any failure is reported as one generic error.
 */
module GeminiService {
  import opened Wrappers
  import opened JsValues
  import opened Records

  const InvalidFormat := "Invalid response format from AI. Missing 'headers' or 'rows'."
  const RestructureFailure :=
    "Failed to restructure spreadsheet. The AI service may be unavailable or the request was invalid."

  /**
   * A field of the parsed response: an array, or a primitive (`undefined` when the
   * field is absent). Objects in these fields are not modelled.
   */
  datatype Field<T> = Prim(p: JsValue) | Arr(items: T)

  /** An array is truthy even when it is empty; a primitive is truthy as `Truthy` says. */
  predicate FieldTruthy<T>(f: Field<T>)
  {
    f.Arr? || Truthy(f.p)
  }

  /** The parsed JSON response. */
  datatype GeminiResponse = GeminiResponse(headers: Field<seq<string>>, rows: Field<seq<seq<JsValue>>>)

  /** `ProcessedData`: `headers` is passed on as the response held it. */
  datatype ProcessedData = ProcessedData(headers: Field<seq<string>>, data: seq<Record<JsValue>>)

  /** The value assigned for each header: `row[index] || ''`. */
  function NormalizedCells(headers: seq<string>, row: seq<JsValue>): (r: seq<JsValue>)
    ensures |r| == |headers|
  {
    seq(|headers|, index requires 0 <= index < |headers| => OrEmpty(CellAt(row, index)))
  }

  /**
   * What a normalised record promises: its keys are the headers (first occurrence
   * first), and each header holds the truthy cell at the header's last index, or `""`.
   */
  ghost predicate NormalizedRow(headers: seq<string>, row: seq<JsValue>, rec: Record<JsValue>)
  {
    && rec.keys == Dedup(headers)
    && AssignedFrom(headers, NormalizedCells(headers, row), rec)
  }

  /** The truthiness check on the parsed response. */
  function Validate(parsed: GeminiResponse): (r: Result<GeminiResponse, string>)
    ensures r.Ok? <==> FieldTruthy(parsed.headers) && FieldTruthy(parsed.rows)
    ensures r.Ok? ==> r.value == parsed
    ensures r.Err? ==> r.error == InvalidFormat
  {
    if !FieldTruthy(parsed.headers) || !FieldTruthy(parsed.rows) then Err(InvalidFormat)
    else Ok(parsed)
  }

  /**
   * Which responses pass the check: empty arrays and non-empty strings do, while a
   * missing field, `null`, `0` and `""` do not.
   */
  lemma ValidateTruthiness(rows: seq<seq<JsValue>>)
    ensures Validate(GeminiResponse(Arr([]), Arr(rows))).Ok?
    ensures Validate(GeminiResponse(Prim(Str("abc")), Arr(rows))).Ok?
    ensures Validate(GeminiResponse(Prim(Undefined), Arr(rows))).Err?
    ensures Validate(GeminiResponse(Arr([]), Prim(Null))).Err?
    ensures Validate(GeminiResponse(Arr([]), Prim(Num(0)))).Err?
    ensures Validate(GeminiResponse(Prim(Str("")), Arr(rows))).Err?
  {
  }

  /** The `headers.forEach` loop that fills a fresh `rowObject`. */
  method BuildRowObject(headers: seq<string>, row: seq<JsValue>) returns (rowObject: Record<JsValue>)
    ensures NormalizedRow(headers, row, rowObject)
    ensures forall k :: k in rowObject.vals <==> k in headers
  {
    var cells := NormalizedCells(headers, row);
    rowObject := Empty();
    var index := 0;
    while index < |headers|
      invariant 0 <= index <= |headers|
      invariant rowObject == Zip(headers[..index], cells[..index])
    {
      assert headers[..index + 1][..index] == headers[..index];
      assert cells[..index + 1][..index] == cells[..index];
      rowObject := Set(rowObject, headers[index], OrEmpty(CellAt(row, index)));
      index := index + 1;
    }
    assert headers[..index] == headers && cells[..index] == cells;
    ZipAssigned(headers, cells);
    ZipKeyOrder(headers, cells);
  }

  /**
   * `restructureSpreadsheet` from the moment the model's answer is available:
   * `response` is the parsed JSON, or the failure of the call or of `JSON.parse`.
   * Past the check, a primitive `rows` has no `map` and a primitive `headers` has no
   * `forEach`; both throw a `TypeError`, but `headers.forEach` is reached only when
   * there is a row.
   */
  method RestructureSpreadsheet(response: Result<GeminiResponse, string>)
    returns (r: Result<ProcessedData, string>)
    ensures r.Err? <==>
      || response.Err?
      || !FieldTruthy(response.value.headers)
      || !FieldTruthy(response.value.rows)
      || response.value.rows.Prim?
      || (response.value.headers.Prim? && |response.value.rows.items| > 0)
    ensures r.Err? ==> r.error == RestructureFailure
    ensures r.Ok? ==>
      && r.value.headers == response.value.headers
      && |r.value.data| == |response.value.rows.items|
      && (r.value.headers.Arr? ==>
            forall i :: 0 <= i < |r.value.data| ==>
              NormalizedRow(r.value.headers.items, response.value.rows.items[i], r.value.data[i]))
  {
    if response.Err? {
      return Err(RestructureFailure);
    }
    var checked := Validate(response.value);
    if checked.Err? {
      return Err(RestructureFailure);
    }
    var parsed := checked.value;
    if parsed.rows.Prim? {
      return Err(RestructureFailure);
    }
    var rows := parsed.rows.items;
    if |rows| == 0 {
      return Ok(ProcessedData(parsed.headers, []));
    }
    if parsed.headers.Prim? {
      return Err(RestructureFailure);
    }
    var data := MapRows(parsed.headers.items, rows);
    r := Ok(ProcessedData(parsed.headers, data));
  }

  /** `rows.map(...)`: one normalised record per row array, in order. */
  method MapRows(headers: seq<string>, rows: seq<seq<JsValue>>) returns (data: seq<Record<JsValue>>)
    ensures |data| == |rows|
    ensures forall i :: 0 <= i < |data| ==> NormalizedRow(headers, rows[i], data[i])
  {
    data := [];
    var i := 0;
    while i < |rows|
      invariant 0 <= i <= |rows|
      invariant |data| == i
      invariant forall k :: 0 <= k < i ==> NormalizedRow(headers, rows[k], data[k])
    {
      var rowObject := BuildRowObject(headers, rows[i]);
      data := data + [rowObject];
      i := i + 1;
    }
  }

  /**
   * The documented short-row case: headers `[A, B]` and rows `[["1"]]` give the record
   * `{A: "1", B: ""}`.
   */
  lemma ShortRowPadded()
    ensures NormalizedRow(["A", "B"], [Str("1")], Record(["A", "B"], map["A" := Str("1"), "B" := Str("")]))
  {
    var headers := ["A", "B"];
    var cells := NormalizedCells(headers, [Str("1")]);
    assert cells == [Str("1"), Str("")];
    assert Dedup(headers) == headers by { DedupDistinct(headers); }
    assert LastOccurrence(headers, 0) && LastOccurrence(headers, 1);
    forall j | LastOccurrence(headers, j)
      ensures Record(["A", "B"], map["A" := Str("1"), "B" := Str("")]).vals[headers[j]] == cells[j]
    {
      assert j == 0 || j == 1;
    }
  }

  /**
   * A header listed twice takes the cell at its later index, and cells beyond the
   * last header play no part: the record is the same for the row cut to the headers.
   */
  lemma DuplicateHeaderTakesLater(headers: seq<string>, row: seq<JsValue>, rec: Record<JsValue>, j: int, j': int)
    requires NormalizedRow(headers, row, rec)
    requires 0 <= j < j' < |headers| && headers[j] == headers[j']
    requires LastOccurrence(headers, j')
    ensures rec.vals[headers[j]] == OrEmpty(CellAt(row, j'))
    ensures |row| > |headers| ==> NormalizedRow(headers, row[..|headers|], rec)
  {
    assert rec.vals[headers[j']] == NormalizedCells(headers, row)[j'];
    if |row| > |headers| {
      assert NormalizedCells(headers, row[..|headers|]) == NormalizedCells(headers, row);
    }
  }

  /**
   * A normalised record never holds `undefined`, `null` or any other falsy value but
   * the empty string: every cell is either a truthy cell of the row or `""`.
   */
  lemma NormalizedValuesDefined(headers: seq<string>, row: seq<JsValue>, rec: Record<JsValue>, k: string)
    requires NormalizedRow(headers, row, rec)
    requires k in rec.vals
    ensures Truthy(rec.vals[k]) || rec.vals[k] == Str("")
    ensures exists j :: 0 <= j < |headers| && headers[j] == k && rec.vals[k] == OrEmpty(CellAt(row, j))
  {
    var j := LastIndexOf(headers, k);
    assert rec.vals[headers[j]] == NormalizedCells(headers, row)[j];
  }
}
