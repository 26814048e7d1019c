/** What the two permission exporters share: the eight-column user row, the
    first-address-wins table of rows, and the reading of a rate-limit message of the
    form "... Retry after: N seconds". */
module Permissions {
  import opened PyJson
  import opened KeyedDedupe
  import opened Http

  const MAX_RETRIES: nat := 5
  const MARKER: string := "Retry after:"
  const DEFAULT_WAIT: int := 60
  const ERROR_WAIT: int := 5

  /** The CSV header, in the order the rows are written. */
  const COLUMNS: seq<string> :=
    ["username", "isactive", "address", "type", "istypeActive", "isDarklist", "isActiveDarklist", "stakeAmount"]

  /** One exported user: four fields of the entry's `user` object and four of the entry. */
  datatype UserRow = UserRow(username: Json, isactive: Json, address: Json, entryType: Json,
                             istypeActive: Json, isDarklist: Json, isActiveDarklist: Json,
                             stakeAmount: Json)

  /** The row's address as `seen_addresses` compares it (`True` is the address 1). */
  function Address(r: UserRow): Json {
    HashKey(r.address)
  }

  /** The dict the loop appends for a row, keys in insertion order. */
  function Record(r: UserRow): Fields {
    [("username", r.username), ("isactive", r.isactive), ("address", r.address),
     ("type", r.entryType), ("istypeActive", r.istypeActive), ("isDarklist", r.isDarklist),
     ("isActiveDarklist", r.isActiveDarklist), ("stakeAmount", r.stakeAmount)]
  }

  /** The cells `csv.DictWriter` writes for a dict: one per header column, looked up by
      name, with "" for a missing key. */
  function CsvCells(rec: Fields): (cells: seq<Json>)
    ensures |cells| == |COLUMNS|
  {
    seq(|COLUMNS|, i requires 0 <= i < |COLUMNS| => Get(rec, COLUMNS[i], JStr("")))
  }

  /** No header name is repeated. */
  lemma ColumnsDistinct()
    ensures forall i, j :: 0 <= j < i < |COLUMNS| ==> COLUMNS[j] != COLUMNS[i]
  {
  }

  /** Column `i` of a row's dict is the header's column `i`, and the writer finds the
      row's field under it. */
  lemma RecordCell(r: UserRow, i: nat)
    requires i < |COLUMNS|
    ensures Record(r)[i].0 == COLUMNS[i]
    ensures CsvCells(Record(r))[i] == Record(r)[i].1
  {
    ColumnsDistinct();
    FirstKeyAt(Record(r), COLUMNS[i], i);
  }

  /** The writer puts every field of a row in its own column and drops nothing. */
  lemma RecordMatchesHeader(r: UserRow)
    ensures CsvCells(Record(r)) ==
      [r.username, r.isactive, r.address, r.entryType, r.istypeActive, r.isDarklist,
       r.isActiveDarklist, r.stakeAmount]
  {
    var cells := CsvCells(Record(r));
    RecordCell(r, 0);
    RecordCell(r, 1);
    RecordCell(r, 2);
    RecordCell(r, 3);
    RecordCell(r, 4);
    RecordCell(r, 5);
    RecordCell(r, 6);
    RecordCell(r, 7);
  }

  /** The row built from one entry of `users`, or None when building it raises: a
      `user` value that is not a dict, or an unhashable address. */
  function DecodeEntry(entry: Fields): Option<UserRow> {
    match Get(entry, "user", JObj([]))
    case JObj(user) =>
      var address := Get(user, "address", JNull);
      if Hashable(address) then
        Some(UserRow(Get(user, "username", JNull), Get(user, "active", JNull), address,
                     Get(entry, "type", JNull), Get(entry, "active", JNull), Get(entry, "darkList", JNull),
                     Get(entry, "activeDarkList", JNull), Get(entry, "stakeAmount", JNull)))
      else None
    case _ => None
  }

  /** An entry fails exactly when its `user` (an empty dict when missing) is not a dict
      or its address (None when missing) is unhashable; otherwise every column comes
      from the field the exporter names, None when it is missing. */
  lemma DecodeEntryFields(entry: Fields)
    ensures DecodeEntry(entry).Some? <==>
      (Get(entry, "user", JObj([])).JObj? && Hashable(Get(Get(entry, "user", JObj([])).fields, "address", JNull)))
    ensures DecodeEntry(entry).Some? ==>
      var r := DecodeEntry(entry).value;
      var user := Get(entry, "user", JObj([])).fields;
      r.address == Get(user, "address", JNull) && r.username == Get(user, "username", JNull) &&
      r.isactive == Get(user, "active", JNull) && r.entryType == Get(entry, "type", JNull) &&
      r.istypeActive == Get(entry, "active", JNull) && r.isDarklist == Get(entry, "darkList", JNull) &&
      r.isActiveDarklist == Get(entry, "activeDarkList", JNull) &&
      r.stakeAmount == Get(entry, "stakeAmount", JNull)
  {
  }

  /** The rows the loop `for user_entry in users` builds, or None when it raises. */
  function DecodeUsers(users: Json): Option<seq<UserRow>> {
    match DictsOf(users)
    case None => None
    case Some(entries) => TryMap(entries, DecodeEntry)
  }

  /** What a fetched page means to the outer loop: rows to store before the next page,
      the normal end of the export, or an exception nobody catches. */
  datatype PageStep = Next(rows: seq<UserRow>) | Stop | Abort

  /** How an export ends: normally (the CSV is written when there are rows), or by an
      uncaught exception (nothing is written). */
  datatype Outcome = Finished | Aborted

  /** Pages 1 to n - 1 all yielded rows, when page p yields `steps(p)`. */
  ghost predicate AllNext(steps: nat -> PageStep, n: nat)
    decreases n
  {
    n <= 1 || (AllNext(steps, n - 1) && steps(n - 1).Next?)
  }

  /** The rows of pages 1 to n - 1, in page order. */
  function RowsBefore(steps: nat -> PageStep, n: nat): seq<UserRow>
    decreases n
  {
    if n <= 1 then []
    else RowsBefore(steps, n - 1) + (match steps(n - 1) case Next(rows) => rows case _ => [])
  }

  /** The table's two fields: the rows stored and the addresses seen. */
  datatype Table = Table(data: seq<UserRow>, seen: set<Json>)

  /** The table after one page of rows went through the entry loop: each row whose
      address is new is stored, and every address is marked as seen. */
  function Feed(tab: Table, rows: seq<UserRow>): Table {
    Table(tab.data + Dedupe(rows, Address, tab.seen), tab.seen + KeySet(rows, Address))
  }

  /** The table after the rows of pages 1 to n - 1 went through the entry loop one
      page at a time, starting from `start`. */
  ghost function Fed(steps: nat -> PageStep, n: nat, start: Table): Table
    decreases n
  {
    if n <= 1 then start
    else Feed(Fed(steps, n - 1, start), match steps(n - 1) case Next(rows) => rows case _ => [])
  }

  /** One more page of rows: the table grows by that page's rows under the addresses
      seen so far. */
  lemma FedNext(steps: nat -> PageStep, n: nat, start: Table, rows: seq<UserRow>, before: Table, after: Table)
    requires n >= 1 && AllNext(steps, n) && steps(n) == Next(rows)
    requires before == Fed(steps, n, start) && after == Feed(before, rows)
    ensures AllNext(steps, n + 1)
    ensures after == Fed(steps, n + 1, start)
  {
  }

  /** Storing the pages one at a time is one dedupe of all their rows in page order:
      each address keeps the row of the page and position where it first appears. */
  lemma {:induction false} FedDedupe(steps: nat -> PageStep, n: nat, start: Table)
    ensures Fed(steps, n, start) ==
      Table(start.data + Dedupe(RowsBefore(steps, n), Address, start.seen),
            start.seen + KeySet(RowsBefore(steps, n), Address))
  {
    if n > 1 {
      FedDedupe(steps, n - 1, start);
      var before := Fed(steps, n - 1, start);
      var rows := match steps(n - 1) case Next(rows) => rows case _ => [];
      assert RowsBefore(steps, n) == RowsBefore(steps, n - 1) + rows;
      DedupeResume(before.data, before.seen, start.data, RowsBefore(steps, n - 1), rows, Address, start.seen);
    }
  }

  // ---------------------------------------------------------------------------
  // The rate-limit message

  /** The wait read out of a rate-limit message, or an exception raised while reading it. */
  datatype WaitParse = Wait(seconds: int) | ParseError

  /** `retry_seconds`: 60 unless the message holds the marker, in which case the text
      between the marker and the next "seconds" goes through `int(x.strip())`. A message
      that is not a string makes `in` or `split` raise, except a list or dict without
      the marker, which `in` searches without error. */
  function RetryAfter(message: Json): WaitParse {
    match message
    case JStr(s) =>
      if Contains(s, MARKER) then
        match ParseIntLiteral(Strip(Before(Before(After(s, MARKER), MARKER), "seconds")))
        case Some(n) => Wait(n)
        case None => ParseError
      else Wait(DEFAULT_WAIT)
    case JArr(es) => if JStr(MARKER) in es then ParseError else Wait(DEFAULT_WAIT)
    case JObj(f) => if HasKey(f, MARKER) then ParseError else Wait(DEFAULT_WAIT)
    case _ => ParseError
  }

  /** Only a string holding the marker can announce a wait other than 60 seconds; a
      scalar that is not a string always raises. */
  lemma RetryAfterCases(message: Json)
    ensures message.JStr? && !Contains(message.s, MARKER) ==> RetryAfter(message) == Wait(DEFAULT_WAIT)
    ensures message.JNull? || message.JBool? || message.JInt? ==> RetryAfter(message) == ParseError
    ensures RetryAfter(message).Wait? && RetryAfter(message).seconds != DEFAULT_WAIT ==>
              message.JStr? && Contains(message.s, MARKER)
  {
  }

  /** A JSON body holding only `message`. */
  function MessageBody(m: string): Body {
    Parsed(JObj([("message", JStr(m))]))
  }

  lemma MessageOf(m: string)
    ensures Get(MessageBody(m).json.fields, "message", JStr("")) == JStr(m)
  {
    GetHead("message", JStr(m), [], "message", JStr(""));
  }

  /** A message without the marker, or a missing message (read as ""), waits 60. */
  lemma RetryAfterDefault(s: string)
    requires !Contains(s, MARKER)
    ensures RetryAfter(JStr(s)) == Wait(DEFAULT_WAIT)
    ensures RetryAfter(JStr("")) == Wait(DEFAULT_WAIT)
  {
    FindNone("", MARKER);
  }

  /** A message that starts with the marker, whose first letter does not come back,
      is read from the text after the marker up to the first "seconds". */
  lemma MarkerFirst(rest: string)
    requires forall i :: 0 <= i < |rest| ==> rest[i] != 'R'
    ensures RetryAfter(JStr(MARKER + rest)) ==
      match ParseIntLiteral(Strip(Before(rest, "seconds"))) case Some(n) => Wait(n) case None => ParseError
  {
    var m := MARKER + rest;
    assert m[..|MARKER|] == MARKER;
    FindIs(m, MARKER, 0);
    assert After(m, MARKER) == rest by { assert m[|MARKER|..] == rest; }
    NoOccurrence(rest, MARKER);
  }

  /** The text before "seconds" in "<l>N<r>seconds" is "<l>N<r>", for whitespace
      `l` and `r`. */
  lemma SecondsSuffix(l: string, d: string, r: string)
    requires forall k :: 0 <= k < |l| ==> IsSpace(l[k])
    requires forall k :: 0 <= k < |r| ==> IsSpace(r[k])
    requires forall k :: 0 <= k < |d| ==> IsDigit(d[k]) || d[k] == '-'
    ensures Before(l + d + r + "seconds", "seconds") == l + d + r
  {
    var w := l + d + r;
    var rest := w + "seconds";
    var k := |w|;
    assert rest[k..k + 7] == "seconds";
    forall i | 0 <= i < k ensures rest[i] != 's' {
      assert rest[i] == w[i];
      if i < |l| { assert w[i] == l[i]; }
      else if i < |l| + |d| { assert w[i] == d[i - |l|]; }
      else { assert w[i] == r[i - |l| - |d|]; }
    }
    BeforeAt(rest, "seconds", k);
    assert rest[..k] == w;
  }

  /** "Retry after:" followed by N between any whitespace, then "seconds", waits N
      seconds, for every integer N that `int()` accepts (at most MAX_STR_DIGITS
      digits); a longer N raises. */
  lemma RetryAfterSpaced(n: int, l: string, r: string)
    requires forall k :: 0 <= k < |l| ==> IsSpace(l[k])
    requires forall k :: 0 <= k < |r| ==> IsSpace(r[k])
    ensures RetryAfter(JStr(MARKER + l + IntToDecimal(n) + r + "seconds")) ==
      if DigitCount(n) <= MAX_STR_DIGITS then Wait(n) else ParseError
  {
    var d := IntToDecimal(n);
    DecimalShape(n);
    var rest := l + d + r + "seconds";
    assert MARKER + l + d + r + "seconds" == MARKER + rest;
    forall i | 0 <= i < |rest| ensures rest[i] != 'R' {
      if i < |l| { assert rest[i] == l[i]; }
      else if i < |l| + |d| { assert rest[i] == d[i - |l|]; }
      else if i < |l| + |d| + |r| { assert rest[i] == r[i - |l| - |d|]; }
      else { assert rest[i] == "seconds"[i - |l| - |d| - |r|]; }
    }
    MarkerFirst(rest);
    SecondsSuffix(l, d, r);
    StripSpaces(l, d, r);
    DecimalStripped(n);
    ParseDecimal(n);
  }

  /** The message the server sends, "Retry after: N seconds", waits N, for every
      integer N that `int()` accepts (at most MAX_STR_DIGITS digits); a longer N
      raises. */
  lemma RetryAfterMessage(n: int)
    ensures RetryAfter(JStr(MARKER + " " + IntToDecimal(n) + " seconds")) ==
      if DigitCount(n) <= MAX_STR_DIGITS then Wait(n) else ParseError
  {
    assert MARKER + " " + IntToDecimal(n) + " seconds" == MARKER + " " + IntToDecimal(n) + " " + "seconds";
    RetryAfterSpaced(n, " ", " ");
  }

  /** A marker followed by a word that is not a number (such as "later") makes
      `int()` raise. */
  lemma RetryAfterMalformed(w: string)
    requires w != []
    requires forall i :: 0 <= i < |w| ==> !IsDigit(w[i]) && w[i] != 'R' && w[i] != 's'
    ensures RetryAfter(JStr(MARKER + " " + w)) == ParseError
  {
    var rest := " " + w;
    assert MARKER + " " + w == MARKER + rest;
    forall i | 0 <= i < |rest| ensures !IsDigit(rest[i]) && rest[i] != 'R' && rest[i] != 's' {
      if i > 0 { assert rest[i] == w[i - 1]; }
    }
    MarkerFirst(rest);
    NoOccurrence(rest, "seconds");
    var st := Strip(rest);
    forall i | 0 <= i < |st| ensures !IsDigit(st[i]) {
      StripChars(rest, IsSpace, i);
    }
    NoDigitsParse(st);
  }

  // ---------------------------------------------------------------------------
  // The table

  /** The module-level `all_data` list and `seen_addresses` set. */
  class UserTable {
    var allData: seq<UserRow>
    var seenAddresses: set<Json>

    /** Every kept row's address is recorded, and no address, not even a missing one
        (None), is kept twice. */
    ghost predicate Valid()
      reads this
    {
      seenAddresses == KeySet(allData, Address) && DistinctKeys(allData, Address)
    }

    constructor ()
      ensures Valid() && allData == [] && seenAddresses == {}
    {
      allData := [];
      seenAddresses := {};
    }

    /** The loop over one page's entries: a row whose address was seen is skipped,
        otherwise the address is recorded and the row appended. */
    method ProcessUsers(rows: seq<UserRow>)
      requires Valid()
      modifies this
      ensures Valid()
      ensures allData == old(allData) + Dedupe(rows, Address, old(seenAddresses))
      ensures seenAddresses == old(seenAddresses) + KeySet(rows, Address)
      ensures Table(allData, seenAddresses) == Feed(Table(old(allData), old(seenAddresses)), rows)
    {
      ghost var s0 := seenAddresses;
      var i := 0;
      while i < |rows|
        invariant 0 <= i <= |rows|
        invariant allData == old(allData) + Dedupe(rows[..i], Address, s0)
        invariant seenAddresses == s0 + KeySet(rows[..i], Address)
      {
        var row := rows[i];
        assert rows[..i + 1] == rows[..i] + [row];
        DedupeSnoc(rows[..i], row, Address, s0);
        var address := HashKey(row.address);
        if address in seenAddresses {
          i := i + 1;
          continue;
        }
        seenAddresses := seenAddresses + {address};
        allData := allData + [row];
        i := i + 1;
      }
      assert rows[..i] == rows;
      AppendDedupe(old(allData), rows, Address, s0);
    }
  }
}
