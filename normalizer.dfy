/**
  normalizarProductos: turns the `productos` argument of the SOAP call into a
  list of product items. An array is taken as is; a string is read as JSON
  and, when that fails, as a ';'-separated CSV text with a header line; a
  plain object gives its values; anything else is rejected.

  JSON.parse and csv-parse are library code: they enter as the function
  parameters `jsonParse` (None when JSON.parse throws) and `csvParse` (the
  rows as column-name to cell maps, None when csv-parse throws).
 */
module Normalizer {

  import opened Wrappers
  import opened JsonValues

  datatype NormalizeError =
    | UnrecognizedFormat          // `throw new Error('Formato no reconocido')`
    | CsvError                    // csv-parse rejected the text
    | MissingColumn(name: string) // `row.customerData.replace(...)` on a missing column
    | MalformedField(name: string) // JSON.parse of an unescaped cell threw

  // ---------------------------------------------------------------------------
  // The doubled-quote unescape of CSV cells: `s.replace(/""/g, '"')`

  /** Every `""` becomes `"`, matches taken left to right without overlapping. */
  function Unescape(s: string): (r: string)
    ensures |r| <= |s|
  {
    if s == [] then []
    else if |s| >= 2 && s[0] == '"' && s[1] == '"' then "\"" + Unescape(s[2..])
    else [s[0]] + Unescape(s[1..])
  }

  /** CSV quote doubling: every `"` written as `""`. */
  function Escape(t: string): (s: string)
    ensures |s| >= |t|
  {
    if t == [] then []
    else if t[0] == '"' then "\"\"" + Escape(t[1..])
    else [t[0]] + Escape(t[1..])
  }

  /** Unescape undoes the quote doubling of a CSV writer. */
  lemma {:induction false} UnescapeEscape(t: string)
    ensures Unescape(Escape(t)) == t
  {
    if t != [] {
      UnescapeEscape(t[1..]);
      var s := Escape(t);
      if t[0] == '"' {
        assert s[2..] == Escape(t[1..]);
      } else {
        assert s[1..] == Escape(t[1..]);
      }
    }
  }

  predicate HasDoubledQuote(s: string) {
    exists k :: 0 <= k < |s| - 1 && s[k] == '"' && s[k + 1] == '"'
  }

  /** A cell without `""` passes through unchanged. */
  lemma {:induction false} UnescapeWithoutDoubled(s: string)
    requires !HasDoubledQuote(s)
    ensures Unescape(s) == s
  {
    if s != [] {
      forall k | 0 <= k < |s[1..]| - 1
        ensures !(s[1..][k] == '"' && s[1..][k + 1] == '"')
      {
        assert s[1..][k] == s[k + 1] && s[1..][k + 1] == s[k + 2];
      }
      UnescapeWithoutDoubled(s[1..]);
    }
  }

  /** The result is shorter by exactly one character per replaced pair, so a changed cell got shorter. */
  lemma {:induction false} UnescapeShrinks(s: string)
    requires HasDoubledQuote(s)
    ensures |Unescape(s)| < |s|
  {
    var k :| 0 <= k < |s| - 1 && s[k] == '"' && s[k + 1] == '"';
    if |s| >= 2 && s[0] == '"' && s[1] == '"' {
    } else {
      assert k >= 1;
      assert s[1..][k - 1] == '"' && s[1..][k] == '"';
      UnescapeShrinks(s[1..]);
    }
  }

  /** Matches do not overlap: three quotes become two, four become two. */
  lemma UnescapeQuoteRuns()
    ensures Unescape("\"\"\"") == "\"\""
    ensures Unescape("\"\"\"\"") == "\"\""
  {
    assert "\"\"\""[2..] == "\"";
    assert "\"\"\"\""[2..] == "\"\"";
    assert "\"\""[2..] == "";
  }

  // ---------------------------------------------------------------------------
  // Object.values and the CSV row mapping

  /**
    Object.values(parsed) for a value JSON.parse returned: the members of an object,
    the elements of an array, one one-character string per character of a string,
    nothing for a number or a boolean; None for null, where Object.values throws.
   */
  function ObjectValues(j: Json): (r: Option<seq<Json>>)
    ensures r.None? <==> j.JNull?
    ensures j.JObject? ==> r == Some(Values(j.members))
    ensures j.JString? ==> |r.value| == |j.s| && forall i :: 0 <= i < |j.s| ==> r.value[i] == JString([j.s[i]])
    ensures (j.JBool? || j.JNumber?) ==> r == Some([])
  {
    match j
    case JNull => None
    case JBool(_) => Some([])
    case JNumber(_) => Some([])
    case JString(s) => Some(seq(|s|, i requires 0 <= i < |s| => JString([s[i]])))
    case JArray(items) => Some(items)
    case JObject(members) => Some(Values(members))
  }

  /** The `_id` member of a rebuilt row: present only when the CSV has an `_id` column. */
  function IdMember(row: map<string, string>): seq<(string, Json)>
  {
    if "_id" in row then [("_id", JString(row["_id"]))] else []
  }

  /**
    One CSV row as `{ _id, customerData, mbData }`: the two data cells are unescaped and
    read as JSON, customerData first; a missing column or a cell JSON.parse rejects is an error.
   */
  function RowItem(row: map<string, string>, jsonParse: string -> Option<Json>): (r: Result<Json, NormalizeError>)
    ensures r.Ok? <==>
      && "customerData" in row && jsonParse(Unescape(row["customerData"])).Some?
      && "mbData" in row && jsonParse(Unescape(row["mbData"])).Some?
    ensures r.Ok? ==> r.value == JObject(IdMember(row) + [
      ("customerData", jsonParse(Unescape(row["customerData"])).value),
      ("mbData", jsonParse(Unescape(row["mbData"])).value)])
  {
    if "customerData" !in row then Err(MissingColumn("customerData"))
    else
      match jsonParse(Unescape(row["customerData"]))
      case None => Err(MalformedField("customerData"))
      case Some(customerData) =>
        if "mbData" !in row then Err(MissingColumn("mbData"))
        else
          match jsonParse(Unescape(row["mbData"]))
          case None => Err(MalformedField("mbData"))
          case Some(mbData) =>
            Ok(JObject(IdMember(row) + [("customerData", customerData), ("mbData", mbData)]))
  }

  /** `rows.map(row => ...)`: every row rebuilt, in order; the first row that fails stops the mapping. */
  function RowItems(rows: seq<map<string, string>>, jsonParse: string -> Option<Json>): (r: Result<seq<Json>, NormalizeError>)
    ensures r.Ok? ==> |r.value| == |rows|
  {
    if rows == [] then Ok([])
    else
      match RowItem(rows[0], jsonParse)
      case Err(e) => Err(e)
      case Ok(item) =>
        match RowItems(rows[1..], jsonParse)
        case Err(e) => Err(e)
        case Ok(items) => Ok([item] + items)
  }

  /** The mapping succeeds iff every row does, and then item i is row i rebuilt: no row is dropped or reordered. */
  lemma {:induction false} RowItemsOk(rows: seq<map<string, string>>, jsonParse: string -> Option<Json>)
    ensures RowItems(rows, jsonParse).Ok? <==> forall i :: 0 <= i < |rows| ==> RowItem(rows[i], jsonParse).Ok?
    ensures RowItems(rows, jsonParse).Ok? ==>
      forall i :: 0 <= i < |rows| ==> RowItems(rows, jsonParse).value[i] == RowItem(rows[i], jsonParse).value
  {
    if rows != [] {
      RowItemsOk(rows[1..], jsonParse);
      forall i | 1 <= i < |rows|
        ensures rows[i] == rows[1..][i - 1]
      {
      }
    }
  }

  /** A failed mapping reports the error of the first row that fails. */
  lemma {:induction false} RowItemsFirstError(rows: seq<map<string, string>>, jsonParse: string -> Option<Json>)
    requires RowItems(rows, jsonParse).Err?
    ensures exists i ::
      && 0 <= i < |rows|
      && RowItem(rows[i], jsonParse) == Err(RowItems(rows, jsonParse).error)
      && (forall j :: 0 <= j < i ==> RowItem(rows[j], jsonParse).Ok?)
  {
    var e := RowItems(rows, jsonParse).error;
    if RowItem(rows[0], jsonParse).Ok? {
      RowItemsFirstError(rows[1..], jsonParse);
      var i :| 0 <= i < |rows[1..]|
        && RowItem(rows[1..][i], jsonParse) == Err(e)
        && forall j :: 0 <= j < i ==> RowItem(rows[1..][j], jsonParse).Ok?;
      forall j | 0 <= j < i + 1
        ensures RowItem(rows[j], jsonParse).Ok?
      {
        if j > 0 {
          assert rows[j] == rows[1..][j - 1];
        }
      }
      assert RowItem(rows[i + 1], jsonParse) == Err(e);
    } else {
      assert RowItem(rows[0], jsonParse) == Err(e);
    }
  }

  // ---------------------------------------------------------------------------
  // normalizarProductos

  /** The catch branch: parse the text as CSV and rebuild each row. */
  function FromCsv(text: string, jsonParse: string -> Option<Json>, csvParse: string -> Option<seq<map<string, string>>>)
    : (r: Result<seq<Json>, NormalizeError>)
    ensures csvParse(text).None? ==> r == Err(CsvError)
    ensures csvParse(text).Some? ==> r == RowItems(csvParse(text).value, jsonParse)
  {
    match csvParse(text)
    case None => Err(CsvError)
    case Some(rows) => RowItems(rows, jsonParse)
  }

  /** The string branch: JSON first; a parse failure, or Object.values throwing on null, falls back to CSV. */
  function FromText(text: string, jsonParse: string -> Option<Json>, csvParse: string -> Option<seq<map<string, string>>>)
    : Result<seq<Json>, NormalizeError>
  {
    match jsonParse(text)
    case Some(JArray(items)) => Ok(items)
    case Some(parsed) =>
      (match ObjectValues(parsed)
       case Some(values) => Ok(values)
       case None => FromCsv(text, jsonParse, csvParse))
    case None => FromCsv(text, jsonParse, csvParse)
  }

  /** normalizarProductos(raw). */
  function Normalize(raw: Json, jsonParse: string -> Option<Json>, csvParse: string -> Option<seq<map<string, string>>>)
    : Result<seq<Json>, NormalizeError>
  {
    match raw
    case JArray(items) => Ok(items)
    case JString(text) => FromText(text, jsonParse, csvParse)
    case JObject(members) => Ok(Values(members))
    case _ => Err(UnrecognizedFormat)
  }

  /**
    The shape dispatch: an array comes back unchanged, an object as its values in
    member order, and null, numbers and booleans are rejected; only those are.
   */
  lemma NormalizeDispatch(raw: Json, jsonParse: string -> Option<Json>, csvParse: string -> Option<seq<map<string, string>>>)
    ensures raw.JArray? ==> Normalize(raw, jsonParse, csvParse) == Ok(raw.items)
    ensures raw.JObject? ==>
      && Normalize(raw, jsonParse, csvParse).Ok?
      && |Normalize(raw, jsonParse, csvParse).value| == |raw.members|
      && forall i :: 0 <= i < |raw.members| ==> Normalize(raw, jsonParse, csvParse).value[i] == raw.members[i].1
    ensures Normalize(raw, jsonParse, csvParse) == Err(UnrecognizedFormat)
        <==> raw.JNull? || raw.JBool? || raw.JNumber?
  {
    if raw.JString? {
      FromTextNeverUnrecognized(raw.s, jsonParse, csvParse);
    }
  }

  /** The string branch never reports an unrecognised format: its failures are CSV failures. */
  lemma FromTextNeverUnrecognized(text: string, jsonParse: string -> Option<Json>, csvParse: string -> Option<seq<map<string, string>>>)
    ensures FromText(text, jsonParse, csvParse) != Err(UnrecognizedFormat)
  {
    if csvParse(text).Some? {
      RowItemsNeverUnrecognized(csvParse(text).value, jsonParse);
    }
  }

  lemma {:induction false} RowItemsNeverUnrecognized(rows: seq<map<string, string>>, jsonParse: string -> Option<Json>)
    ensures RowItems(rows, jsonParse) != Err(UnrecognizedFormat)
  {
    if rows != [] {
      RowItemsNeverUnrecognized(rows[1..], jsonParse);
    }
  }

  /**
    A string that JSON.parse accepts is read as JSON: an array as its elements, an object
    as its values, a string as its characters, a number or boolean as no items; only a
    JSON null (and text JSON.parse rejects) goes on to the CSV reading.
   */
  lemma JsonTextPath(text: string, jsonParse: string -> Option<Json>, csvParse: string -> Option<seq<map<string, string>>>)
    ensures jsonParse(text).Some? && jsonParse(text).value.JArray? ==>
      Normalize(JString(text), jsonParse, csvParse) == Ok(jsonParse(text).value.items)
    ensures jsonParse(text).Some? && jsonParse(text).value.JObject? ==>
      Normalize(JString(text), jsonParse, csvParse) == Ok(Values(jsonParse(text).value.members))
    ensures jsonParse(text).Some? && (jsonParse(text).value.JNumber? || jsonParse(text).value.JBool?) ==>
      Normalize(JString(text), jsonParse, csvParse) == Ok([])
    ensures jsonParse(text).Some? && jsonParse(text).value.JString? ==>
      Normalize(JString(text), jsonParse, csvParse) == Ok(ObjectValues(jsonParse(text).value).value)
    ensures jsonParse(text).None? || jsonParse(text).value.JNull? ==>
      Normalize(JString(text), jsonParse, csvParse) == FromCsv(text, jsonParse, csvParse)
  {
  }

  /**
    Text JSON.parse rejects is read as CSV: when csv-parse and every cell succeed there is
    one item per row, in row order, each holding the row's `_id` (when the column exists)
    and its customerData and mbData cells unescaped and parsed as JSON.
   */
  lemma CsvTextPath(text: string, jsonParse: string -> Option<Json>, csvParse: string -> Option<seq<map<string, string>>>)
    requires jsonParse(text).None?
    requires csvParse(text).Some?
    ensures var rows := csvParse(text).value;
      && (Normalize(JString(text), jsonParse, csvParse).Ok?
          <==> forall i :: 0 <= i < |rows| ==> RowItem(rows[i], jsonParse).Ok?)
      && (Normalize(JString(text), jsonParse, csvParse).Ok? ==>
          && |Normalize(JString(text), jsonParse, csvParse).value| == |rows|
          && forall i :: 0 <= i < |rows| ==>
               Normalize(JString(text), jsonParse, csvParse).value[i]
               == JObject(IdMember(rows[i]) + [
                    ("customerData", jsonParse(Unescape(rows[i]["customerData"])).value),
                    ("mbData", jsonParse(Unescape(rows[i]["mbData"])).value)]))
  {
    RowItemsOk(csvParse(text).value, jsonParse);
  }
}
