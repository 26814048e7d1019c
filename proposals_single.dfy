/** The single-page proposal exporter: one request for the first page of proposals,
    then one 11-column row per proposal, in input order, with no dedupe. */
module ProposalsSingle {
  import opened PyJson
  import opened Http
  import opened ProposalRows

  /** What a run leaves behind: no file (it exited, or raised before opening it), or
      the CSV file holding the header and `rows`, with the "records saved" count it
      reports when the loop ends without an exception. */
  datatype Run = Exited | RaisedEarly | File(rows: seq<seq<Json>>, saved: Option<nat>)

  /** The row of one element of `proposals`, or None when building it raises: the
      element is not a dict, or its creator or currency is not one. */
  function RowOf(p: Json): Option<seq<Json>> {
    if p.JObj? && !RowRaises(p.fields) then Some(BaseCells(p.fields)) else None
  }

  /** A loop that does not raise writes exactly one row per proposal, in order: the
      eleven cells of that proposal. */
  lemma OneRowPerProposal(ps: seq<Json>)
    requires !TryEach(ps, RowOf).raised
    ensures |TryEach(ps, RowOf).done| == |ps|
    ensures forall i :: 0 <= i < |ps| ==> ps[i].JObj? && TryEach(ps, RowOf).done[i] == BaseCells(ps[i].fields)
  {
    TryEachPrefix(ps, RowOf);
    assert ps[..|ps|] == ps;
    TryMapAll(ps, RowOf);
  }

  /** The `proposals` value of a decoded response, or None when reading it raises:
      the response or its `data` is not a dict. */
  function ProposalsOf(j: Json): Option<Json> {
    if !j.JObj? then None
    else match Get(j.fields, "data", JObj([]))
      case JObj(d) => Some(Get(d, "proposals", JArr([])))
      case _ => None
  }

  /** The script on the answer to its one request. `len(proposals)` is printed
      before the emptiness test, so a value without a length raises there. */
  function ExportSpec(resp: Response): Run {
    if resp.status != 200 then Exited
    else match resp.body
      case Unparsable => Exited
      case Parsed(j) =>
        (match ProposalsOf(j)
         case None => RaisedEarly
         case Some(ps) =>
           (match Iter(ps)
            case None => RaisedEarly
            case Some(es) =>
              if !Truthy(ps) then Exited
              else
                var out := TryEach(es, RowOf);
                File(out.done, if out.raised then None else Some(|es|))))
  }

  /** The script itself: the status and parse exits, the extraction of `proposals`,
      then the row loop. */
  method Export(resp: Response) returns (run: Run)
    ensures run == ExportSpec(resp)
  {
    if resp.status != 200 || resp.body.Unparsable? {
      return Exited;
    }
    var proposals := ProposalsOf(resp.body.json);
    if proposals.None? || Iter(proposals.value).None? {
      return RaisedEarly;
    }
    if !Truthy(proposals.value) {
      return Exited;
    }
    var es := Iter(proposals.value).value;
    var rows: seq<seq<Json>> := [];
    var i := 0;
    while i < |es|
      invariant 0 <= i <= |es|
      invariant TryEach(es[..i], RowOf) == Partial(rows, false)
    {
      TryEachStep(es, RowOf, i, rows);
      var row := RowOf(es[i]);
      if row.None? {
        TryEachStops(es, RowOf, i + 1);
        return File(rows, None);
      }
      rows := rows + [row.value];
      i := i + 1;
    }
    assert es[..i] == es;
    return File(rows, Some(|es|));
  }

  /** A non-200 status, a body that is not JSON, or an empty or missing proposal
      list ends the script with no file. */
  lemma NoFileExits(resp: Response)
    ensures resp.status != 200 ==> ExportSpec(resp) == Exited
    ensures ExportSpec(Response(200, resp.retryAfter, Unparsable, resp.jsonType)) == Exited
    ensures ExportSpec(Response(200, resp.retryAfter, Parsed(JObj([("data", JObj([]))])), resp.jsonType)) == Exited
    ensures ExportSpec(Response(200, resp.retryAfter, Parsed(JObj([("data", JObj([("proposals", JArr([]))]))])), resp.jsonType)) == Exited
  {
    GetHead("data", JObj([]), [], "data", JObj([]));
    GetHead("data", JObj([("proposals", JArr([]))]), [], "data", JObj([]));
    GetHead("proposals", JArr([]), [], "proposals", JArr([]));
  }

  /** A loop that raises has written one row per proposal before the first one whose
      row cannot be built. */
  lemma RaisedRows(ps: seq<Json>)
    requires TryEach(ps, RowOf).raised
    ensures |TryEach(ps, RowOf).done| < |ps| && RowOf(ps[|TryEach(ps, RowOf).done|]).None?
    ensures forall i :: 0 <= i < |TryEach(ps, RowOf).done| ==>
      ps[i].JObj? && TryEach(ps, RowOf).done[i] == BaseCells(ps[i].fields)
  {
    TryEachPrefix(ps, RowOf);
    var k := |TryEach(ps, RowOf).done|;
    TryMapAll(ps[..k], RowOf);
    forall i | 0 <= i < k ensures ps[i].JObj? && TryEach(ps, RowOf).done[i] == BaseCells(ps[i].fields) {
      assert ps[..k][i] == ps[i];
    }
  }

  /** Only a list of proposals gets through the loop: a non-empty dict or string is
      iterated as strings, whose rows cannot be built. */
  lemma OnlyListsComplete(ps: Json, es: seq<Json>)
    requires Iter(ps) == Some(es) && Truthy(ps) && !TryEach(es, RowOf).raised
    ensures ps.JArr?
  {
    OneRowPerProposal(es);
  }

  /** When the proposal list is read and truthy the file is written. A run that ends
      without an exception holds one row per proposal, in order, and reports
      `len(proposals)` records, which is then the number of rows; only a list can get
      that far. A run that raises in the loop holds the rows of the proposals before
      the first one whose row cannot be built. */
  lemma ExportedRows(retryAfter: Option<string>, jsonType: bool, j: Json, ps: Json, es: seq<Json>)
    requires ProposalsOf(j) == Some(ps) && Iter(ps) == Some(es) && Truthy(ps)
    ensures ExportSpec(Response(200, retryAfter, Parsed(j), jsonType)).File?
    ensures var run := ExportSpec(Response(200, retryAfter, Parsed(j), jsonType));
      run.saved.Some? ==>
        ps.JArr? && run.saved == Len(ps) && |run.rows| == |es| &&
        forall i :: 0 <= i < |es| ==> es[i].JObj? && run.rows[i] == BaseCells(es[i].fields)
    ensures var run := ExportSpec(Response(200, retryAfter, Parsed(j), jsonType));
      run.saved.None? ==>
        |run.rows| < |es| && RowOf(es[|run.rows|]).None? &&
        forall i :: 0 <= i < |run.rows| ==> es[i].JObj? && run.rows[i] == BaseCells(es[i].fields)
  {
    if TryEach(es, RowOf).raised {
      RaisedRows(es);
    } else {
      OneRowPerProposal(es);
      OnlyListsComplete(ps, es);
    }
  }
}
