/**
 * A reference reader for the text that `downloadCSV` writes: a header line of bare
 * comma-separated names, then one LF-preceded record per row whose fields are
 * double-quoted with internal quotes doubled (section 2, rules 6 and 7, of RFC 4180).
 * Quoted fields may hold commas and line breaks. A bare header field is read
 * literally up to the next comma or line feed: a double quote in it is an ordinary
 * character, where rule 5 of that section would forbid it. It is the partner against which the
 * writer's round trip is proved.
 */
module CsvReader {
  import opened Wrappers

  /**
   * Reads the body of a quoted field, after its opening quote: `""` stands for one
   * quote and a lone `"` closes the field. Gives the value and the text after the
   * closing quote, which is a strict suffix of the input.
   */
  function ScanBody(s: string): (r: Option<(string, string)>)
    ensures r.Some? ==> |r.value.1| < |s|
    decreases |s|
  {
    if s == [] then None
    else if s[0] == '"' then
      if |s| > 1 && s[1] == '"' then
        match ScanBody(s[2..])
        case None => None
        case Some((v, rest)) => Some(("\"" + v, rest))
      else Some(("", s[1..]))
    else
      match ScanBody(s[1..])
      case None => None
      case Some((v, rest)) => Some(([s[0]] + v, rest))
  }

  /** One or more quoted fields separated by commas; gives the values and the rest. */
  function ParseQuotedFields(s: string): (r: Option<(seq<string>, string)>)
    ensures r.Some? ==> |r.value.1| < |s|
    decreases |s|
  {
    if s == [] || s[0] != '"' then None
    else
      match ScanBody(s[1..])
      case None => None
      case Some((v, rest)) =>
        if rest != [] && rest[0] == ',' then
          match ParseQuotedFields(rest[1..])
          case None => None
          case Some((vs, r)) => Some(([v] + vs, r))
        else Some(([v], rest))
  }

  /** A bare field: everything up to the next comma, line feed or the end. */
  function ParseBare(s: string): (r: (string, string))
    ensures |r.1| <= |s|
    decreases |s|
  {
    if s == [] || s[0] == ',' || s[0] == '\n' then ("", s)
    else
      var (f, rest) := ParseBare(s[1..]);
      ([s[0]] + f, rest)
  }

  /** The header line: bare fields separated by commas, up to the first line feed. */
  function ParseHeaderFields(s: string): (r: (seq<string>, string))
    ensures |r.0| > 0
    ensures |r.1| <= |s|
    decreases |s|
  {
    var (f, rest) := ParseBare(s);
    if rest != [] && rest[0] == ',' then
      var (fs, r) := ParseHeaderFields(rest[1..]);
      ([f] + fs, r)
    else ([f], rest)
  }

  /** Zero or more records, each introduced by a line feed. */
  function ParseRecords(s: string): Option<seq<seq<string>>>
    decreases |s|
  {
    if s == [] then Some([])
    else if s[0] != '\n' then None
    else
      match ParseQuotedFields(s[1..])
      case None => None
      case Some((fields, rest)) =>
        match ParseRecords(rest)
        case None => None
        case Some(recs) => Some([fields] + recs)
  }

  /** A whole document: the header names and the records' field values. */
  function ParseCsv(text: string): Option<(seq<string>, seq<seq<string>>)>
  {
    var (headers, rest) := ParseHeaderFields(text);
    match ParseRecords(rest)
    case None => None
    case Some(recs) => Some((headers, recs))
  }
}
