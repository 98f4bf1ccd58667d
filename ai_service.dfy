/**
 * The deterministic part of `restructure_data`: markdown fences are cut from the
 * model's reply, the rest is parsed, and the two result fields are read with defaults.
 */
module AiService {
  import opened Wrappers
  import opened PyJson

  const JsonFence := "```json"
  const Fence := "```"
  const DefaultChangeLog := "Sem alterações registradas."

  /**
   * The text handed to `json.loads`: without a leading "```json", and then without a
   * trailing "```" (tested on the text already stripped of its prefix).
   */
  function Cleaned(text: string): string
  {
    var t := if StartsWith(text, JsonFence) then text[|JsonFence|..] else text;
    if EndsWith(t, Fence) then t[..|t| - |Fence|] else t
  }

  /** The two conditional reassignments of `response_text`. */
  method StripFences(responseText: string) returns (cleaned: string)
    ensures cleaned == Cleaned(responseText)
    ensures |responseText| - |cleaned| in {0, 3, 7, 10}
  {
    cleaned := responseText;
    if StartsWith(cleaned, JsonFence) {
      cleaned := cleaned[7..];
    }
    if EndsWith(cleaned, Fence) {
      cleaned := cleaned[..|cleaned| - 3];
    }
    CleanedIsSlice(responseText);
  }

  /** `result.get(key, default)` on a dict. */
  function GetOr(fields: map<string, Json>, key: string, default: Json): Json
  {
    if key in fields then fields[key] else default
  }

  /**
   * `restructure_data` from the model's reply on: `response` is the reply text or the
   * exception the call raised, `loads` stands for `json.loads`. Gives the pair
   * `(mapped_data, change_log)` or the exception, re-raised unchanged.
   */
  method RestructureData(response: Result<string, PyError>, loads: string -> Result<Json, PyError>)
    returns (r: Result<(Json, Json), PyError>)
    ensures response.Err? ==> r == Err(response.error)
    ensures response.Ok? && loads(Cleaned(response.value)).Err? ==> r == Err(loads(Cleaned(response.value)).error)
    ensures response.Ok? && loads(Cleaned(response.value)).Ok? ==>
      match loads(Cleaned(response.value)).value
      case JObj(fields) =>
        && r.Ok?
        && r.value.0 == (if "mapped_data" in fields then fields["mapped_data"] else JArr([]))
        && r.value.1 == (if "change_log" in fields then fields["change_log"] else JStr(DefaultChangeLog))
      case other =>
        r == Err(PyError("AttributeError", "'" + TypeName(other) + "' object has no attribute 'get'"))
  {
    if response.Err? {
      return Err(response.error);
    }
    var responseText := StripFences(response.value);
    var parsed := loads(responseText);
    if parsed.Err? {
      return Err(parsed.error);
    }
    match parsed.value {
      case JObj(fields) =>
        r := Ok((GetOr(fields, "mapped_data", JArr([])), GetOr(fields, "change_log", JStr(DefaultChangeLog))));
      case other =>
        r := Err(PyError("AttributeError", "'" + TypeName(other) + "' object has no attribute 'get'"));
    }
  }

  // ---------------------------------------------------------------------------
  // Properties of the fence stripping

  /** The cleaned text is a contiguous slice of the reply, 0, 3, 7 or 10 characters shorter. */
  lemma CleanedIsSlice(text: string)
    ensures var c := Cleaned(text);
      || (c == text)
      || (|text| >= 3 && c == text[..|text| - 3])
      || (|text| >= 7 && c == text[7..])
      || (|text| >= 10 && c == text[7..|text| - 3])
    ensures |text| - |Cleaned(text)| in {0, 3, 7, 10}
  {
    if StartsWith(text, JsonFence) {
      var t := text[7..];
      if EndsWith(t, Fence) {
        assert t[..|t| - 3] == text[7..|text| - 3];
      }
    }
  }

  /** A reply wrapped in a "```json" ... "```" fence gives back exactly the wrapped payload. */
  lemma FencedPayload(payload: string)
    ensures Cleaned(JsonFence + payload + Fence) == payload
  {
    var text := JsonFence + payload + Fence;
    assert text[..|JsonFence|] == JsonFence;
    var t := text[|JsonFence|..];
    assert t == payload + Fence;
    assert t[|t| - |Fence|..] == Fence;
    assert t[..|t| - |Fence|] == payload;
  }

  /** The text reaches the parser unchanged exactly when it carries neither fence. */
  lemma UnchangedIffUnfenced(text: string)
    ensures Cleaned(text) == text <==> !StartsWith(text, JsonFence) && !EndsWith(text, Fence)
  {
    if StartsWith(text, JsonFence) {
      assert |Cleaned(text)| <= |text| - 7;
    }
  }

  /** Both fences overlap in "```json```": the suffix test runs on "```" and leaves nothing. */
  lemma EmptyFencedBlock()
    ensures Cleaned("```json```") == ""
  {
    var text := "```json```";
    assert text[..7] == JsonFence;
    assert text[7..] == Fence;
  }

  /** There is no trimming: a leading line feed keeps the prefix, but the suffix still goes. */
  lemma LeadingNewlineKeepsPrefix()
    ensures Cleaned("\n```json{}```") == "\n```json{}"
  {
    var text := "\n```json{}```";
    assert text[..7] != JsonFence by { assert text[0] != JsonFence[0]; }
    assert text[|text| - 3..] == Fence;
    assert text[..|text| - 3] == "\n```json{}";
  }
}
