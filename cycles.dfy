/** The cycle exporter's `transform_data`: the three cycle counters of the API's
    answer, renamed, each defaulting to 0. */
module Cycles {
  import opened PyJson

  /** What `transform_data` yields: a dict, or the exception it raises. */
  datatype Transformed = Mapping(fields: Fields) | Raises

  /** Each output key with the key of `data` it is read from. */
  const RENAMES: seq<(string, string)> := [
    ("proposals_made", "currentProposalCycle"),
    ("cycle_number", "currentFullCycle"),
    ("proposals_left_in_cycle", "fullCycleProposalRemainToEnd")
  ]

  /** Python's `"data" in v`: a key test on a dict, a membership test on a list, a
      substring test on a string; None for the values `in` rejects (TypeError). */
  function HasData(v: Json): Option<bool> {
    match v
    case JObj(f) => Some(HasKey(f, "data"))
    case JArr(es) => Some(JStr("data") in es)
    case JStr(s) => Some(Contains(s, "data"))
    case _ => None
  }

  /** `transform_data(api_response)`. Indexing with "data" works on a dict only, and
      `data.get` needs a dict. */
  function TransformData(r: Json): (t: Transformed)
    ensures t.Mapping? ==>
      (|t.fields| == 0 || (|t.fields| == |RENAMES| && forall i :: 0 <= i < |RENAMES| ==> t.fields[i].0 == RENAMES[i].0))
    ensures t.Mapping? && |t.fields| == 0 <==> HasData(r) == Some(false)
  {
    match HasData(r)
    case None => Raises
    case Some(false) => Mapping([])
    case Some(true) =>
      if !r.JObj? then Raises
      else match Get(r.fields, "data", JNull)
        case JObj(d) =>
          Mapping([("proposals_made", Get(d, "currentProposalCycle", JInt(0))),
                   ("cycle_number", Get(d, "currentFullCycle", JInt(0))),
                   ("proposals_left_in_cycle", Get(d, "fullCycleProposalRemainToEnd", JInt(0)))])
        case _ => Raises
  }

  /** A dict answer without "data" gives the empty mapping. */
  lemma NoDataGivesEmpty(f: Fields)
    requires !HasKey(f, "data")
    ensures TransformData(JObj(f)) == Mapping([])
  {
  }

  /** A dict answer whose "data" is a dict gives exactly the three renamed keys, in
      order, each holding the value of its source key, or 0 when that key is missing. */
  lemma RenamedCounters(f: Fields, d: Fields)
    requires HasKey(f, "data") && Get(f, "data", JNull) == JObj(d)
    ensures TransformData(JObj(f)).Mapping?
    ensures |TransformData(JObj(f)).fields| == |RENAMES|
    ensures forall i :: 0 <= i < |RENAMES| ==>
      var (name, source) := RENAMES[i];
      TransformData(JObj(f)).fields[i].0 == name &&
      (HasKey(d, source) ==> TransformData(JObj(f)).fields[i].1 == d[FirstKey(d, source)].1) &&
      (!HasKey(d, source) ==> TransformData(JObj(f)).fields[i].1 == JInt(0))
  {
  }

  /** An empty `data` gives three zeros. */
  lemma EmptyDataGivesZeros()
    ensures TransformData(JObj([("data", JObj([]))])) ==
      Mapping([("proposals_made", JInt(0)), ("cycle_number", JInt(0)), ("proposals_left_in_cycle", JInt(0))])
  {
    GetHead("data", JObj([]), [], "data", JNull);
  }

  /** A "data" that is not a dict raises, null included. */
  lemma NonDictDataRaises(v: Json, rest: Fields)
    requires !v.JObj?
    ensures TransformData(JObj([("data", v)] + rest)) == Raises
  {
    GetHead("data", v, rest, "data", JNull);
  }

  /** The other shapes: a number, a boolean or null raises on `in`; a list or a string
      that passes the `in` test raises on indexing, and one that does not gives the
      empty mapping. */
  lemma OtherShapes(n: int, es: seq<Json>)
    ensures TransformData(JInt(n)) == Raises && TransformData(JNull) == Raises
    ensures TransformData(JArr([JStr("data")] + es)) == Raises
    ensures JStr("data") !in es ==> TransformData(JArr(es)) == Mapping([])
    ensures TransformData(JStr("data")) == Raises
  {
    assert OccursAt("data", "data", 0);
  }
}
