/**
 * The JavaScript primitive values that reach the spreadsheet pipeline, and the two
 * coercions the TypeScript code applies to them: string conversion (`String(v)` and
 * `'' + v`, which agree on primitives) and truthiness (`v || ''`).
 */
module JsValues {

  /** A primitive cell value. Numbers are modelled as integers only. */
  datatype JsValue = Undefined | Null | Bool(b: bool) | Num(n: int) | Str(s: string)

  function DigitChar(d: nat): (c: char)
    requires d < 10
    ensures '0' <= c <= '9'
  {
    "0123456789"[d]
  }

  /** Decimal notation of a natural number, as `String` prints an integral number. */
  function Digits(n: nat): (r: string)
    ensures |r| > 0
    ensures forall i :: 0 <= i < |r| ==> '0' <= r[i] <= '9'
    ensures n >= 10 ==> |r| > 1
  {
    if n < 10 then [DigitChar(n)] else Digits(n / 10) + [DigitChar(n % 10)]
  }

  /** `String(v)`, equivalently `'' + v`, for a primitive value. */
  function ToStr(v: JsValue): string
  {
    match v
    case Undefined => "undefined"
    case Null => "null"
    case Bool(b) => if b then "true" else "false"
    case Num(n) => if n < 0 then "-" + Digits(-n) else Digits(n)
    case Str(s) => s
  }

  /** `row[index]` on an array of cells: `undefined` past the end of the array. */
  function CellAt(row: seq<JsValue>, index: int): JsValue
  {
    if 0 <= index < |row| then row[index] else Undefined
  }

  /** JavaScript truthiness: `undefined`, `null`, `false`, `0` and `""` are falsy. */
  predicate Truthy(v: JsValue)
  {
    match v
    case Undefined => false
    case Null => false
    case Bool(b) => b
    case Num(n) => n != 0
    case Str(s) => s != ""
  }

  /** `v || ''`: the value itself when truthy, the empty string otherwise. */
  function OrEmpty(v: JsValue): JsValue
  {
    if Truthy(v) then v else Str("")
  }

  /**
   * After `v || ''` a cell prints as the empty string exactly when the original cell
   * was falsy, and otherwise prints as the original cell did.
   */
  lemma OrEmptyBlankIffFalsy(v: JsValue)
    ensures ToStr(OrEmpty(v)) == "" <==> !Truthy(v)
    ensures Truthy(v) ==> ToStr(OrEmpty(v)) == ToStr(v)
  {
    match v
    case Num(n) =>
      if n < 0 { assert |ToStr(v)| > 1; }
      else if n > 0 { assert |Digits(n)| > 0; }
      else { assert Digits(0) == "0"; }
    case _ =>
  }
}
