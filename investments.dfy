/** The investment exporter: one value, `data.virgo.mttRawValue`, written as a
    one-row CSV file and a one-element JSON array. */
module Investments {
  import opened PyJson
  import opened Http

  /** The CSV columns, in order. */
  const FIELDNAMES: seq<string> := ["token", "value_staked"]

  /** What `main` leaves: nothing (no data was fetched), an uncaught exception, or
      the two files: the CSV rows (header first) and the JSON document. */
  datatype Output = NoData | Raised | Saved(csv: seq<seq<Json>>, json: Json)

  /** `fetch_investment_data`: the decoded body of a 200 answer, or None for any other
      status and for a body that is not JSON (the exception is caught). */
  function FetchInvestmentData(resp: Response): Option<Json> {
    if resp.status != 200 then None
    else match resp.body
      case Parsed(j) => Some(j)
      case Unparsable => None
  }

  /** `row_data`. */
  function RowData(valueStaked: Json): Fields {
    [("token", JStr("mtt")), ("value_staked", valueStaked)]
  }

  /** What `csv.DictWriter` writes for one dict: the header, then the dict's value
      for each column, "" for a column the dict lacks. */
  function DictCsv(row: Fields): seq<seq<Json>> {
    [seq(|FIELDNAMES|, i requires 0 <= i < |FIELDNAMES| => JStr(FIELDNAMES[i])),
     seq(|FIELDNAMES|, i requires 0 <= i < |FIELDNAMES| => Get(row, FIELDNAMES[i], JStr("")))]
  }

  /** `data.virgo.mttRawValue` with its defaults, or None when `.get` meets a value
      that is not a dict. */
  function ValueStaked(j: Json): Option<Json> {
    if !j.JObj? then None
    else match Get(j.fields, "data", JObj([]))
      case JObj(d) =>
        (match Get(d, "virgo", JObj([]))
         case JObj(v) => Some(Get(v, "mttRawValue", JInt(0)))
         case _ => None)
      case _ => None
  }

  /** `main`. */
  function Main(resp: Response): (out: Output)
    ensures FetchInvestmentData(resp).None? ==> out == NoData
    ensures out.Saved? ==> |out.csv| == 2 && out.json.JArr? && |out.json.elems| == 1
  {
    match FetchInvestmentData(resp)
    case None => NoData
    case Some(j) =>
      if !Truthy(j) then NoData
      else match ValueStaked(j)
        case None => Raised
        case Some(v) => Saved(DictCsv(RowData(v)), JArr([JObj(RowData(v))]))
  }

  /** A run that saves writes the header and exactly one row, and a JSON array of
      exactly one dict; the CSV row is that dict's values in column order, its token
      is "mtt", and its staked value is the one read from the answer. */
  lemma OneRow(resp: Response)
    requires Main(resp).Saved?
    ensures var out := Main(resp);
      |out.csv| == 2 && out.csv[0] == [JStr("token"), JStr("value_staked")] &&
      out.json.JArr? && |out.json.elems| == 1 && out.json.elems[0].JObj? &&
      out.csv[1] == [Get(out.json.elems[0].fields, "token", JNull), Get(out.json.elems[0].fields, "value_staked", JNull)] &&
      out.csv[1][0] == JStr("mtt") &&
      Some(out.csv[1][1]) == ValueStaked(FetchInvestmentData(resp).value)
  {
    var v := ValueStaked(FetchInvestmentData(resp).value).value;
    GetHead("token", JStr("mtt"), [("value_staked", v)], "token", JStr(""));
    GetHead("token", JStr("mtt"), [("value_staked", v)], "token", JNull);
    GetHead("token", JStr("mtt"), [("value_staked", v)], "value_staked", JStr(""));
    GetHead("token", JStr("mtt"), [("value_staked", v)], "value_staked", JNull);
    GetHead("value_staked", v, [], "value_staked", JStr(""));
    GetHead("value_staked", v, [], "value_staked", JNull);
  }

  /** The staked value is `mttRawValue` when the answer holds it under data.virgo. */
  lemma ValuePresent(x: Json, virgoRest: Fields, dataRest: Fields, rest: Fields)
    ensures ValueStaked(JObj([("data", JObj([("virgo", JObj([("mttRawValue", x)] + virgoRest))] + dataRest))] + rest)) == Some(x)
  {
    GetHead("data", JObj([("virgo", JObj([("mttRawValue", x)] + virgoRest))] + dataRest), rest, "data", JObj([]));
    GetHead("virgo", JObj([("mttRawValue", x)] + virgoRest), dataRest, "virgo", JObj([]));
    GetHead("mttRawValue", x, virgoRest, "mttRawValue", JInt(0));
  }

  /** A missing `data`, `virgo` or `mttRawValue` reads as 0. */
  lemma MissingValueIsZero(f: Fields)
    ensures !HasKey(f, "data") ==> ValueStaked(JObj(f)) == Some(JInt(0))
    ensures ValueStaked(JObj([("data", JObj([]))])) == Some(JInt(0))
    ensures ValueStaked(JObj([("data", JObj([("virgo", JObj([]))]))])) == Some(JInt(0))
  {
    GetHead("data", JObj([]), [], "data", JObj([]));
    GetHead("data", JObj([("virgo", JObj([]))]), [], "data", JObj([]));
    GetHead("virgo", JObj([]), [], "virgo", JObj([]));
  }

  /** No output at all without a 200 answer holding truthy JSON; a truthy answer that
      is not a dict, or whose data or virgo is not one, raises. */
  lemma NoOutput(resp: Response, j: Json)
    ensures resp.status != 200 ==> Main(resp) == NoData
    ensures Main(Response(200, resp.retryAfter, Unparsable, resp.jsonType)) == NoData
    ensures !Truthy(j) ==> Main(Response(200, resp.retryAfter, Parsed(j), resp.jsonType)) == NoData
    ensures Truthy(j) && !j.JObj? ==> Main(Response(200, resp.retryAfter, Parsed(j), resp.jsonType)) == Raised
    ensures Main(Response(200, resp.retryAfter, Parsed(JObj([("data", JNull)])), resp.jsonType)) == Raised
  {
    GetHead("data", JNull, [], "data", JObj([]));
  }
}
