/** The row both proposal exporters build from one proposal dict: top-level fields,
    the flattened `creator` and `currency` objects and the stringified signers, each
    with its default when missing. The paginated exporter adds `cycle` and the
    stringified approvals, and identifies a proposal by a weak key. */
module ProposalRows {
  import opened PyJson

  /** The paginated exporter's header. */
  const HEADER: seq<string> :=
    ["status", "state", "title", "type", "voteType", "creator_address", "creator_username",
     "currency_symbol", "currency_address", "signers", "neededSign", "cycle", "approves"]

  /** The single-page exporter's header: the first eleven columns, with `votetype`
      spelt in lower case. */
  const SINGLE_HEADER: seq<string> :=
    ["status", "state", "title", "type", "votetype", "creator_address", "creator_username",
     "currency_symbol", "currency_address", "signers", "neededSign"]

  /** `proposal.get(name, {})`, or None when it is not a dict, so that reading a field
      of it raises. A missing object reads as an empty one; an explicit null does not. */
  function Nested(p: Fields, name: string): Option<Fields> {
    match Get(p, name, JObj([]))
    case JObj(f) => Some(f)
    case _ => None
  }

  /** Building the row raises: the creator or the currency is not a dict. */
  predicate RowRaises(p: Fields) {
    Nested(p, "creator").None? || Nested(p, "currency").None?
  }

  /** The fields of a nested object, read as empty when building the row raises. */
  function NestedFields(p: Fields, name: string): Fields {
    match Nested(p, name)
    case Some(f) => f
    case None => []
  }

  /** The eleven cells both exporters write for a proposal, one per column of the
      single-page header. Signers are read from the key "singers" and written as
      `str()` of the value. */
  function BaseCells(p: Fields): (cells: seq<Json>)
    ensures |cells| == |SINGLE_HEADER|
    ensures cells[9].JStr?
  {
    var creator := NestedFields(p, "creator");
    var currency := NestedFields(p, "currency");
    [Get(p, "status", JStr("")), Get(p, "state", JStr("")), Get(p, "title", JStr("")),
     Get(p, "type", JStr("")), Get(p, "voteType", JStr("")),
     Get(creator, "address", JStr("")), Get(creator, "username", JStr("")),
     Get(currency, "symbol", JStr("")), Get(currency, "contractAddress", JStr("")),
     JStr(Str(Get(p, "singers", JArr([])))), Get(p, "neededSign", JInt(0))]
  }

  /** The paginated exporter's thirteen cells, one per column of its header: the
      eleven, then `cycle` and `str()` of the approvals. */
  function FullCells(p: Fields): (cells: seq<Json>)
    ensures |cells| == |HEADER| && cells[11] == Get(p, "cycle", JStr(""))
    ensures cells[12].JStr?
  {
    BaseCells(p) + [Get(p, "cycle", JStr("")), JStr(Str(Get(p, "approves", JArr([]))))]
  }

  /** Every row has one cell per header column, and the single-page row is the
      paginated row without its last two cells. */
  lemma CellsFollowHeader(p: Fields)
    ensures |FullCells(p)| == |HEADER| && |BaseCells(p)| == |SINGLE_HEADER|
    ensures FullCells(p)[..|SINGLE_HEADER|] == BaseCells(p)
  {
  }

  /** The two headers name the shared columns alike, except for the spelling of the
      vote type. */
  lemma HeadersAgree()
    ensures |SINGLE_HEADER| < |HEADER| && HEADER[4] != SINGLE_HEADER[4]
    ensures forall i :: 0 <= i < |SINGLE_HEADER| && i != 4 ==> HEADER[i] == SINGLE_HEADER[i]
  {
  }

  /** An empty proposal gets every default: "" for the text fields and the nested
      fields, 0 needed signatures, and "[]" for the signers and the approvals. */
  lemma EmptyProposalDefaults()
    ensures FullCells([]) ==
      [JStr(""), JStr(""), JStr(""), JStr(""), JStr(""), JStr(""), JStr(""), JStr(""), JStr(""),
       JStr("[]"), JInt(0), JStr(""), JStr("[]")]
    ensures !RowRaises([])
  {
    assert Repr(JArr([])) == "[]" by {
      assert Join([], ", ") == "";
    }
  }

  /** Signers come from "singers" only: a proposal holding only a "signers" list gets
      the "[]" of a missing value. A "singers" value is written by `str()`, so a
      string is written bare. */
  lemma SignersKeyMisspelt(v: Json, s: string)
    ensures BaseCells([("signers", v)])[9] == JStr("[]")
    ensures BaseCells([("singers", v)])[9] == JStr(Str(v))
    ensures BaseCells([("singers", JStr(s))])[9] == JStr(s)
  {
    GetHead("signers", v, [], "singers", JArr([]));
    GetHead("singers", v, [], "singers", JArr([]));
    GetHead("singers", JStr(s), [], "singers", JArr([]));
    assert Repr(JArr([])) == "[]" by {
      assert Join([], ", ") == "";
    }
  }

  /** A creator or currency given as null raises, unlike a missing one. */
  lemma NullNestedRaises(rest: Fields)
    ensures RowRaises([("creator", JNull)] + rest)
    ensures RowRaises([("currency", JNull)] + rest)
    ensures !RowRaises([])
  {
    GetHead("creator", JNull, rest, "creator", JObj([]));
    GetHead("currency", JNull, rest, "currency", JObj([]));
  }

  // ---------------------------------------------------------------------------
  // The identity of a proposal in the paginated exporter

  /** `(status, state, title, len(approves))`, compared as a set compares it (a boolean
      equals the matching integer). */
  datatype Key = Key(status: Json, state: Json, title: Json, approvals: nat)

  /** Building or looking up the key raises: `approves` has no length (a null, a
      number or a boolean), or the status, state or title is a list or a dict. */
  predicate KeyRaises(p: Fields) {
    Len(Get(p, "approves", JArr([]))).None? ||
    !Hashable(Get(p, "status", JStr(""))) || !Hashable(Get(p, "state", JStr(""))) ||
    !Hashable(Get(p, "title", JStr("")))
  }

  /** The key of a proposal, with 0 approvals when `len` would raise. */
  function ProposalKey(p: Fields): Key {
    var n := match Len(Get(p, "approves", JArr([]))) case Some(n) => n case None => 0;
    Key(HashKey(Get(p, "status", JStr(""))), HashKey(Get(p, "state", JStr(""))),
        HashKey(Get(p, "title", JStr(""))), n)
  }

  /** The key of an element of `proposals`; an element that is not a dict has no fields. */
  function KeyOf(p: Json): Key {
    ProposalKey(if p.JObj? then p.fields else [])
  }

  /** The key is the row's first three cells and the number of approvals. */
  lemma KeyOfRow(p: Fields)
    ensures var c := FullCells(p);
      [ProposalKey(p).status, ProposalKey(p).state, ProposalKey(p).title] == [HashKey(c[0]), HashKey(c[1]), HashKey(c[2])]
    ensures !KeyRaises(p) ==> ProposalKey(p).approvals == Len(Get(p, "approves", JArr([]))).value
  {
  }

  /** The key is weak: proposals that differ only in their type and cycle share it. */
  lemma KeyIsWeak(status: Json, title: Json, kind: Json, cycle: Json)
    ensures ProposalKey([("status", status), ("title", title)]) == Key(HashKey(status), JStr(""), HashKey(title), 0)
    ensures ProposalKey([("status", status), ("title", title), ("type", kind), ("cycle", cycle)]) ==
      Key(HashKey(status), JStr(""), HashKey(title), 0)
  {
    var short: Fields := [("status", status), ("title", title)];
    var long: Fields := [("status", status), ("title", title), ("type", kind), ("cycle", cycle)];
    FirstKeyAt(short, "status", 0);
    FirstKeyAt(short, "title", 1);
    FirstKeyAt(long, "status", 0);
    FirstKeyAt(long, "title", 1);
    FirstKeyMeaning(short, "state");
    FirstKeyMeaning(short, "approves");
    FirstKeyMeaning(long, "state");
    FirstKeyMeaning(long, "approves");
  }

  /** A status of `true` and a status of 1 make one key, as they do in a Python set,
      so the second of two such proposals is skipped. */
  lemma BoolStatusIsInt(rest: Fields)
    ensures ProposalKey([("status", JBool(true))] + rest) == ProposalKey([("status", JInt(1))] + rest)
    ensures ProposalKey([("status", JBool(false))] + rest) == ProposalKey([("status", JInt(0))] + rest)
  {
    GetHead("status", JBool(true), rest, "status", JStr(""));
    GetHead("status", JInt(1), rest, "status", JStr(""));
    GetHead("status", JBool(false), rest, "status", JStr(""));
    GetHead("status", JInt(0), rest, "status", JStr(""));
    GetHead("status", JBool(true), rest, "state", JStr(""));
    GetHead("status", JInt(1), rest, "state", JStr(""));
    GetHead("status", JBool(false), rest, "state", JStr(""));
    GetHead("status", JInt(0), rest, "state", JStr(""));
    GetHead("status", JBool(true), rest, "title", JStr(""));
    GetHead("status", JInt(1), rest, "title", JStr(""));
    GetHead("status", JBool(false), rest, "title", JStr(""));
    GetHead("status", JInt(0), rest, "title", JStr(""));
    GetHead("status", JBool(true), rest, "approves", JArr([]));
    GetHead("status", JInt(1), rest, "approves", JArr([]));
    GetHead("status", JBool(false), rest, "approves", JArr([]));
    GetHead("status", JInt(0), rest, "approves", JArr([]));
  }
}
