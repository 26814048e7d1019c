/** The transaction export: for every service, page through the transaction
    endpoint, flatten each transaction's `trxData` token entries into one row per
    token, drop rows whose (hash, address, contract, symbol) key was already seen
    anywhere in the run, and stop a service at its last page or at the first page
    that adds nothing. */
module Txs {
  import opened PyJson
  import opened Http
  import opened KeyedDedupe

  const SERVICES: seq<string> := ["horizon", "adastra", "openhatch", "p2p", "virgo"]
  const PAGE_LIMIT: int := 100
  const MAX_RETRIES: nat := 5

  /** One entry of an item's `trxData` list. */
  datatype Token = Token(symbol: Json, contract: Json, value: Json)

  /** One API item: its transaction-level fields and its token entries (none when
      `trxData` is missing or falsy). */
  datatype Item = Item(txType: Json, timestamp: Json, network: Json, hash: Json, address: Json,
                       tokens: seq<Token>)

  /** One exported row, in the source's column order. */
  datatype Row = Row(transactionType: Json, timestamp: Json, blockchain: Json, service: string,
                     hash: Json, user: Json, tokenSymbol: Json, tokenAddress: Json, value: Json)

  type Key = (Json, Json, Json, Json)

  /** The dedupe key (hash, user, token address, token symbol), as `seen_records`
      compares it: a boolean part equals the matching integer. */
  function RowKey(r: Row): Key {
    (HashKey(r.hash), HashKey(r.user), HashKey(r.tokenAddress), HashKey(r.tokenSymbol))
  }

  /** A row whose hash is `true` repeats a row whose hash is 1, all else equal: the
      set holds one key for both, so only the first is kept. */
  lemma BoolHashRepeats(r: Row)
    requires r.hash == JInt(1)
    ensures Dedupe([r, r.(hash := JBool(true))], RowKey, {}) == [r]
  {
    var r2 := r.(hash := JBool(true));
    assert RowKey(r2) == RowKey(r);
    DedupeSnoc([r], r2, RowKey, {});
    DedupeSnoc([], r, RowKey, {});
    assert [r] + [r2] == [r, r2];
    assert [] + [r] == [r];
  }

  // ---------------------------------------------------------------------------
  // Decoding a page's items

  function DecodeToken(f: Fields): Token {
    Token(Get(f, "symbol", JNull), Get(f, "contract", JNull), Get(f, "value", JNull))
  }

  /** The item as the flatten loop reads it, or None when that loop raises on it: a
      truthy `trxData` that is not a list of dicts, or a key part that is a list or a
      dict (unhashable). */
  function DecodeItem(f: Fields): (r: Option<Item>)
    ensures r.None? ==> Truthy(Get(f, "trxData", JArr([])))
    ensures r.Some? ==> r.value.hash == Get(f, "hash", JNull) && r.value.address == Get(f, "address", JNull)
    ensures r.Some? ==> r.value.txType == Get(f, "type", JNull) && r.value.timestamp == Get(f, "timestamp", JNull)
  {
    var trx := Get(f, "trxData", JArr([]));
    var hash := Get(f, "hash", JNull);
    var address := Get(f, "address", JNull);
    var base := Item(Get(f, "type", JNull), Get(f, "timestamp", JNull), Get(f, "network", JNull), hash, address, []);
    if !Truthy(trx) then Some(base)
    else match DictsOf(trx)
      case None => None
      case Some(ts) =>
        var tokens := seq(|ts|, j requires 0 <= j < |ts| => DecodeToken(ts[j]));
        if Hashable(hash) && Hashable(address) &&
           forall j :: 0 <= j < |tokens| ==> Hashable(tokens[j].contract) && Hashable(tokens[j].symbol)
        then Some(base.(tokens := tokens))
        else None
  }

  /** An item without a truthy `trxData` has no token entries; a decoded item keeps
      the hash and address it was sent with, and one token per entry of its `trxData`
      list, in order. */
  lemma DecodeItemFields(f: Fields)
    ensures !Truthy(Get(f, "trxData", JArr([]))) ==> DecodeItem(f).Some? && DecodeItem(f).value.tokens == []
    ensures DecodeItem(f).Some? ==>
      DecodeItem(f).value.hash == Get(f, "hash", JNull) && DecodeItem(f).value.address == Get(f, "address", JNull)
    ensures DecodeItem(f).Some? && Truthy(Get(f, "trxData", JArr([]))) ==>
      var trx := Get(f, "trxData", JArr([]));
      var tokens := DecodeItem(f).value.tokens;
      trx.JArr? && |tokens| == |trx.elems| &&
      forall j :: 0 <= j < |trx.elems| ==> trx.elems[j].JObj? && tokens[j] == DecodeToken(trx.elems[j].fields)
  {
    DictsOfMeaning(Get(f, "trxData", JArr([])));
  }

  /** The items of a page as the loop `for item in items` visits them, or None when
      that loop raises. */
  function DecodeItems(items: Json): Option<seq<Item>> {
    match DictsOf(items)
    case None => None
    case Some(fs) => TryMap(fs, DecodeItem)
  }

  // ---------------------------------------------------------------------------
  // Flattening

  /** The row the loop builds for token `t` of item `it`. */
  function RowOf(service: string, it: Item, t: Token): Row {
    Row(it.txType, it.timestamp, it.network, service, it.hash, it.address, t.symbol, t.contract, t.value)
  }

  function TokenRows(service: string, it: Item): seq<Row> {
    seq(|it.tokens|, j requires 0 <= j < |it.tokens| => RowOf(service, it, it.tokens[j]))
  }

  /** Every candidate row of a page, item by item and token by token, before dedupe. */
  function Flatten(service: string, items: seq<Item>): seq<Row> {
    if items == [] then []
    else Flatten(service, items[..|items| - 1]) + TokenRows(service, items[|items| - 1])
  }

  function TokenCount(items: seq<Item>): nat {
    if items == [] then 0 else TokenCount(items[..|items| - 1]) + |items[|items| - 1].tokens|
  }

  lemma TokenRowsStep(service: string, it: Item, j: nat)
    requires j < |it.tokens|
    ensures TokenRows(service, it)[..j + 1] == TokenRows(service, it)[..j] + [RowOf(service, it, it.tokens[j])]
  {
    var rows := TokenRows(service, it);
    assert rows[..j + 1] == rows[..j] + [rows[j]];
  }

  /** Flattening yields one row per token entry, and every row is the row of one
      token entry of one of the items. */
  lemma {:induction false} FlattenRows(service: string, items: seq<Item>)
    ensures |Flatten(service, items)| == TokenCount(items)
    ensures forall r :: r in Flatten(service, items) ==>
      exists i :: 0 <= i < |items| && r in TokenRows(service, items[i])
  {
    if items != [] {
      var n := |items| - 1;
      var init := items[..n];
      FlattenRows(service, init);
      forall r | r in Flatten(service, items)
        ensures exists i :: 0 <= i < |items| && r in TokenRows(service, items[i])
      {
        if r in Flatten(service, init) {
          var i :| 0 <= i < |init| && r in TokenRows(service, init[i]);
          assert items[i] == init[i];
        } else {
          assert r in TokenRows(service, items[n]);
        }
      }
    }
  }

  lemma FlattenStep(service: string, items: seq<Item>, i: nat)
    requires i < |items|
    ensures Flatten(service, items[..i + 1]) == Flatten(service, items[..i]) + TokenRows(service, items[i])
  {
    assert items[..i + 1][..i] == items[..i];
  }

  /** One item of the page loop: deduping its rows after the rows of the items before
      it, with the keys those left behind, extends the dedupe of the page so far. */
  lemma PageStep(service: string, items: seq<Item>, i: nat, a0: seq<Row>, s0: set<Key>,
                 mid: seq<Row>, midSeen: set<Key>)
    requires i < |items|
    requires mid == a0 + Dedupe(Flatten(service, items[..i]), RowKey, s0)
    requires midSeen == s0 + KeySet(Flatten(service, items[..i]), RowKey)
    ensures mid + Dedupe(TokenRows(service, items[i]), RowKey, midSeen) ==
      a0 + Dedupe(Flatten(service, items[..i + 1]), RowKey, s0)
    ensures midSeen + KeySet(TokenRows(service, items[i]), RowKey) ==
      s0 + KeySet(Flatten(service, items[..i + 1]), RowKey)
  {
    FlattenStep(service, items, i);
    DedupeResume(mid, midSeen, a0, Flatten(service, items[..i]), TokenRows(service, items[i]), RowKey, s0);
  }

  /** An item without token entries adds no rows. */
  lemma EmptyItemAddsNothing(service: string, items: seq<Item>, it: Item)
    requires it.tokens == []
    ensures Flatten(service, items + [it]) == Flatten(service, items)
  {
    assert (items + [it])[..|items|] == items;
  }

  // ---------------------------------------------------------------------------
  // fetch_page

  /** `math.ceil(total / PAGE_LIMIT) if total else 1`. */
  function MaxPages(total: int): (m: int)
    ensures total == 0 ==> m == 1
    ensures total > 0 ==> (m - 1) * PAGE_LIMIT < total <= m * PAGE_LIMIT
    ensures total < 0 ==> m <= 0
  {
    if total != 0 then -((-total) / PAGE_LIMIT) else 1
  }

  /** What fetch_page returns: the page's `items` and `total`, or an exception that
      escapes it. */
  datatype Fetched = Fetched(items: Json, total: int) | Raised

  /** The body of a 200 answer as fetch_page reads it: `data.items`, and `data.total`
      through `int()`, where a ValueError gives 0 and a TypeError escapes. */
  function DecodePage(j: Json): (r: Fetched)
    ensures !j.JObj? ==> r == Raised
    ensures j.JObj? && !HasKey(j.fields, "data") ==> r == Fetched(JArr([]), 0)
    ensures r.Fetched? ==> j.JObj? && Get(j.fields, "data", JObj([])).JObj?
  {
    match j
    case JObj(top) =>
      (match Get(top, "data", JObj([]))
       case JObj(data) =>
         var items := Get(data, "items", JArr([]));
         (match IntOf(Get(data, "total", JInt(0)))
          case Converted(n) => Fetched(items, n)
          case ValueErr => Fetched(items, 0)
          case TypeErr => Raised)
       case _ => Raised)
    case _ => Raised
  }

  function PageBody(items: Json, total: Json): Json {
    JObj([("data", JObj([("items", items), ("total", total)]))])
  }

  /** How fetch_page reads a well-formed 200 body: the items as sent, and the total
      through `int()`: its value when it converts, 0 on a ValueError, and an escaping
      exception on a TypeError. */
  lemma DecodePageBody(items: Json, total: Json)
    ensures IntOf(total).Converted? ==> DecodePage(PageBody(items, total)) == Fetched(items, IntOf(total).n)
    ensures IntOf(total).ValueErr? ==> DecodePage(PageBody(items, total)) == Fetched(items, 0)
    ensures IntOf(total).TypeErr? ==> DecodePage(PageBody(items, total)) == Raised
  {
    var data := [("items", items), ("total", total)];
    GetHead("data", JObj(data), [], "data", JObj([]));
    GetHead("items", items, [("total", total)], "items", JArr([]));
    GetHead("items", items, [("total", total)], "total", JInt(0));
    GetHead("total", total, [], "total", JInt(0));
  }

  /** A total sent as the text of a number is read as that number, unless it has more
      digits than `int()` accepts; text that is not a number is read as 0. */
  lemma TotalParsing(items: Json, n: int, s: string)
    ensures DecodePage(PageBody(items, JStr(IntToDecimal(n)))) ==
      Fetched(items, if DigitCount(n) <= MAX_STR_DIGITS then n else 0)
    ensures ParseIntLiteral(s) == None ==> DecodePage(PageBody(items, JStr(s))) == Fetched(items, 0)
  {
    ParseIntRoundTrip(n);
    DecodePageBody(items, JStr(IntToDecimal(n)));
    DecodePageBody(items, JStr(s));
  }

  /** A body without a total has total 0. */
  lemma MissingTotal(items: Json)
    ensures DecodePage(JObj([("data", JObj([("items", items)]))])) == Fetched(items, 0)
  {
    GetHead("data", JObj([("items", items)]), [], "data", JObj([]));
    GetHead("items", items, [], "items", JArr([]));
    GetHead("items", items, [], "total", JInt(0));
  }

  /** What one attempt does with an answer: retry, read the JSON body of a 200 answer
      and return, or raise because aiohttp refuses to read a body whose content type
      is not JSON (a ContentTypeError, which `except ValueError` does not catch). */
  datatype Attempt = Retry | Return(body: Json) | Refused

  function Classify(resp: Response): Attempt {
    if resp.status == 429 || resp.status == 400 then Retry
    else if resp.status != 200 then Retry
    else if !resp.jsonType then Refused
    else match resp.body
      case Unparsable => Retry
      case Parsed(j) => Return(j)
  }

  /** The server's answer to attempt `a` of the request for (service, page). */
  type Net = (string, nat, nat) -> Response

  /** The first attempt among `attempt` to MAX_RETRIES that is not retried, or Retry
      when every one of them is. */
  function FirstAnswer(net: Net, service: string, page: nat, attempt: nat): Attempt
    requires attempt <= MAX_RETRIES + 1
    decreases MAX_RETRIES + 1 - attempt
  {
    if attempt > MAX_RETRIES then Retry
    else match Classify(net(service, page, attempt))
      case Retry => FirstAnswer(net, service, page, attempt + 1)
      case a => a
  }

  /** What fetch_page returns for (service, page): the reading of the first 200 body,
      an exception when that body is refused, or ([], 0) once the retries are used up. */
  function FetchResult(net: Net, service: string, page: nat): Fetched {
    match FirstAnswer(net, service, page, 0)
    case Return(j) => DecodePage(j)
    case Refused => Raised
    case Retry => Fetched(JArr([]), 0)
  }

  /** Attempts `from` up to `a` (excluded) are all retried. */
  ghost predicate RetriedUntil(net: Net, service: string, page: nat, from: nat, a: nat) {
    forall b :: from <= b < a ==> Classify(net(service, page, b)).Retry?
  }

  lemma RetryStep(net: Net, service: string, page: nat, a: nat)
    requires a <= MAX_RETRIES && Classify(net(service, page, a)).Retry?
    ensures FirstAnswer(net, service, page, a) == FirstAnswer(net, service, page, a + 1)
  {
  }

  lemma DecidedStep(net: Net, service: string, page: nat, a: nat)
    requires a <= MAX_RETRIES && !Classify(net(service, page, a)).Retry?
    ensures FirstAnswer(net, service, page, a) == Classify(net(service, page, a))
  {
  }

  /** When attempts `from` to `a - 1` are retried and attempt `a` is not, attempt `a`
      decides fetch_page: a 200 answer with a JSON body is the one read, and a 200
      answer whose content type is not JSON raises. */
  lemma {:induction false} FirstAnswerDecided(net: Net, service: string, page: nat, from: nat, a: nat)
    requires from <= a <= MAX_RETRIES
    requires RetriedUntil(net, service, page, from, a) && !Classify(net(service, page, a)).Retry?
    ensures FirstAnswer(net, service, page, from) == Classify(net(service, page, a))
    ensures from == 0 ==>
      FetchResult(net, service, page) == match Classify(net(service, page, a)) case Return(j) => DecodePage(j) case _ => Raised
    decreases a - from
  {
    if from < a {
      RetryStep(net, service, page, from);
      FirstAnswerDecided(net, service, page, from + 1, a);
    } else {
      DecidedStep(net, service, page, a);
    }
  }

  /** When every attempt from `from` up to MAX_RETRIES is retried, fetch_page gives up:
      it reads no body and returns ([], 0). */
  lemma {:induction false} FirstAnswerExhausted(net: Net, service: string, page: nat, from: nat)
    requires from <= MAX_RETRIES + 1
    requires RetriedUntil(net, service, page, from, MAX_RETRIES + 1)
    ensures FirstAnswer(net, service, page, from) == Retry
    ensures from == 0 ==> FetchResult(net, service, page) == Fetched(JArr([]), 0)
    decreases MAX_RETRIES + 1 - from
  {
    if from <= MAX_RETRIES {
      RetryStep(net, service, page, from);
      FirstAnswerExhausted(net, service, page, from + 1);
    }
  }

  /** A 200 answer whose content type is not JSON raises out of fetch_page, whatever
      its body; a body that is not JSON under a JSON content type is retried. */
  lemma ContentTypeRaises(resp: Response)
    requires resp.status == 200
    ensures !resp.jsonType ==> Classify(resp) == Refused
    ensures resp.jsonType && resp.body.Unparsable? ==> Classify(resp) == Retry
  {
  }

  /** fetch_page: at most MAX_RETRIES + 1 attempts; 429, 400, any other non-200 status
      and an unparsable body are retried; the first 200 answer decides the result. */
  method FetchPage(net: Net, service: string, page: nat) returns (r: Fetched)
    ensures r == FetchResult(net, service, page)
  {
    var retries := 0;
    while retries <= MAX_RETRIES
      invariant retries <= MAX_RETRIES + 1
      invariant FirstAnswer(net, service, page, 0) == FirstAnswer(net, service, page, retries)
    {
      var attempt := Classify(net(service, page, retries));
      match attempt
      case Retry =>
        RetryStep(net, service, page, retries);
        retries := retries + 1;
      case Return(j) =>
        DecidedStep(net, service, page, retries);
        return DecodePage(j);
      case Refused =>
        DecidedStep(net, service, page, retries);
        return Raised;
    }
    return Fetched(JArr([]), 0);
  }

  // ---------------------------------------------------------------------------
  // What a run reads

  datatype Outcome = Completed | Aborted

  /** What the page loop of a service reads: the candidate rows of the pages it
      processes, in page order and before dedupe, how many pages that is, and how the
      loop ends. */
  datatype Pages = Pages(rows: seq<Row>, count: nat, outcome: Outcome)

  /** The page loop from `page` on, holding that page's `items`, when `seen` holds the
      keys recorded so far: the page's items are visited (an exception when they
      cannot be) and its rows deduplicated; the loop stops at page `maxPages` or after
      a page that adds no row, and otherwise fetches the next page (an exception
      escaping fetch_page ends the run). */
  function PagesFrom(service: string, net: Net, items: Json, page: nat, maxPages: int, seen: set<Key>): Pages
    decreases maxPages - page
  {
    match DecodeItems(items)
    case None => Pages([], 0, Aborted)
    case Some(its) =>
      var rows := Flatten(service, its);
      if page >= maxPages || Dedupe(rows, RowKey, seen) == [] then Pages(rows, 1, Completed)
      else match FetchResult(net, service, page + 1)
        case Raised => Pages(rows, 1, Aborted)
        case Fetched(next, _) =>
          var rest := PagesFrom(service, net, next, page + 1, maxPages, seen + KeySet(rows, RowKey));
          Pages(rows + rest.rows, 1 + rest.count, rest.outcome)
  }

  /** One service: an exception escaping fetch_page for page 1 ends the run, falsy
      items on page 1 skip the service, and otherwise the page loop runs from page 1
      with `math.ceil(total / 100)` pages (1 when total is 0). */
  function ServicePages(service: string, net: Net, seen: set<Key>): Pages {
    match FetchResult(net, service, 1)
    case Raised => Pages([], 0, Aborted)
    case Fetched(items, total) =>
      if !Truthy(items) then Pages([], 0, Completed)
      else PagesFrom(service, net, items, 1, MaxPages(total), seen)
  }

  /** The services in order, all sharing one set of seen keys, until one of them
      ends the run with an exception. */
  function RunPages(services: seq<string>, net: Net, seen: set<Key>): Pages
    decreases |services|
  {
    if services == [] then Pages([], 0, Completed)
    else
      var first := ServicePages(services[0], net, seen);
      if first.outcome == Aborted then first
      else
        var rest := RunPages(services[1..], net, seen + KeySet(first.rows, RowKey));
        Pages(first.rows + rest.rows, first.count + rest.count, rest.outcome)
  }

  /** The page in hand cannot be visited: the run aborts with nothing read. */
  lemma PagesNone(service: string, net: Net, items: Json, page: nat, maxPages: int, seen: set<Key>)
    requires DecodeItems(items).None?
    ensures PagesFrom(service, net, items, page, maxPages, seen) == Pages([], 0, Aborted)
  {
  }

  /** The loop ends after the page in hand, with that page's rows read. */
  lemma PagesLast(service: string, net: Net, items: Json, page: nat, maxPages: int, seen: set<Key>)
    requires DecodeItems(items).Some?
    requires var rows := Flatten(service, DecodeItems(items).value);
      page >= maxPages || Dedupe(rows, RowKey, seen) == [] || FetchResult(net, service, page + 1).Raised?
    ensures PagesFrom(service, net, items, page, maxPages, seen).rows == Flatten(service, DecodeItems(items).value)
    ensures PagesFrom(service, net, items, page, maxPages, seen).outcome ==
      if page >= maxPages || Dedupe(Flatten(service, DecodeItems(items).value), RowKey, seen) == [] then Completed else Aborted
  {
  }

  /** The loop goes on to the next page, with the keys of this page's rows seen. */
  lemma PagesNext(service: string, net: Net, items: Json, page: nat, maxPages: int, seen: set<Key>)
    requires DecodeItems(items).Some?
    requires var rows := Flatten(service, DecodeItems(items).value);
      page < maxPages && Dedupe(rows, RowKey, seen) != [] && FetchResult(net, service, page + 1).Fetched?
    ensures var rows := Flatten(service, DecodeItems(items).value);
      var rest := PagesFrom(service, net, FetchResult(net, service, page + 1).items, page + 1, maxPages, seen + KeySet(rows, RowKey));
      var p := PagesFrom(service, net, items, page, maxPages, seen);
      p.rows == rows + rest.rows && p.outcome == rest.outcome
  {
  }

  function Max(a: int, b: int): int {
    if a < b then b else a
  }

  /** The loop processes at most max(1, maxPages - page + 1) pages, and at least one
      unless the items in hand cannot be visited. */
  lemma {:induction false} PagesBound(service: string, net: Net, items: Json, page: nat, maxPages: int, seen: set<Key>)
    ensures var p := PagesFrom(service, net, items, page, maxPages, seen);
      p.count <= Max(1, maxPages - page + 1) &&
      (p.count == 0 <==> DecodeItems(items).None?) &&
      (p.outcome == Completed ==> p.count >= 1)
    decreases maxPages - page
  {
    match DecodeItems(items)
    case None =>
    case Some(its) =>
      var rows := Flatten(service, its);
      if !(page >= maxPages || Dedupe(rows, RowKey, seen) == []) {
        match FetchResult(net, service, page + 1)
        case Raised =>
        case Fetched(next, _) =>
          PagesBound(service, net, next, page + 1, maxPages, seen + KeySet(rows, RowKey));
      }
  }

  /** A page all of whose token rows repeat keys seen before ends the loop. */
  lemma SeenPageStops(service: string, net: Net, items: Json, page: nat, maxPages: int, seen: set<Key>)
    requires DecodeItems(items).Some?
    requires KeySet(Flatten(service, DecodeItems(items).value), RowKey) <= seen
    ensures PagesFrom(service, net, items, page, maxPages, seen) ==
      Pages(Flatten(service, DecodeItems(items).value), 1, Completed)
  {
    DedupeRepeat(Flatten(service, DecodeItems(items).value), RowKey, seen);
  }

  lemma TokenRowsService(service: string, it: Item)
    ensures forall r :: r in TokenRows(service, it) ==> r.service == service
  {
  }

  /** Every row the loop reads carries the service. */
  lemma {:induction false} PagesService(service: string, net: Net, items: Json, page: nat, maxPages: int, seen: set<Key>)
    ensures forall r :: r in PagesFrom(service, net, items, page, maxPages, seen).rows ==> r.service == service
    decreases maxPages - page
  {
    match DecodeItems(items)
    case None =>
    case Some(its) =>
      var rows := Flatten(service, its);
      FlattenRows(service, its);
      forall r | r in rows ensures r.service == service {
        var i :| 0 <= i < |its| && r in TokenRows(service, its[i]);
        TokenRowsService(service, its[i]);
      }
      if !(page >= maxPages || Dedupe(rows, RowKey, seen) == []) {
        match FetchResult(net, service, page + 1)
        case Raised =>
        case Fetched(next, _) =>
          PagesService(service, net, next, page + 1, maxPages, seen + KeySet(rows, RowKey));
      }
  }

  /** A run reads rows of the services asked for only. */
  lemma {:induction false} RunServices(services: seq<string>, net: Net, seen: set<Key>)
    ensures forall r :: r in RunPages(services, net, seen).rows ==> r.service in services
    decreases |services|
  {
    if services != [] {
      var first := ServicePages(services[0], net, seen);
      match FetchResult(net, services[0], 1)
      case Raised =>
      case Fetched(items, total) =>
        if Truthy(items) {
          PagesService(services[0], net, items, 1, MaxPages(total), seen);
        }
      if first.outcome != Aborted {
        RunServices(services[1..], net, seen + KeySet(first.rows, RowKey));
        forall r | r in RunPages(services, net, seen).rows ensures r.service in services {
          if r !in first.rows {
            assert r.service in services[1..];
          }
        }
      }
    }
  }

  /** The run from service `i` on, when service `i` ends the run. */
  lemma RunAborts(services: seq<string>, i: nat, net: Net, seen: set<Key>)
    requires i < |services| && ServicePages(services[i], net, seen).outcome == Aborted
    ensures RunPages(services[i..], net, seen) == ServicePages(services[i], net, seen)
  {
    assert services[i..][0] == services[i];
  }

  /** The run from service `i` on, when service `i` completes: its rows, then the run
      from service `i + 1` with their keys seen. */
  lemma RunGoesOn(services: seq<string>, i: nat, net: Net, seen: set<Key>)
    requires i < |services| && ServicePages(services[i], net, seen).outcome == Completed
    ensures var first := ServicePages(services[i], net, seen);
      var rest := RunPages(services[i + 1..], net, seen + KeySet(first.rows, RowKey));
      RunPages(services[i..], net, seen).rows == first.rows + rest.rows &&
      RunPages(services[i..], net, seen).outcome == rest.outcome
  {
    assert services[i..][0] == services[i] && services[i..][1..] == services[i + 1..];
  }

  /** One service of the run loop, from the state before it and after it: the rows
      stored so far are the dedupe of the services visited, and the rest of the run is
      still ahead unless this service aborted it. */
  lemma RunStep(services: seq<string>, net: Net, a0: seq<Row>, s0: set<Key>, done: seq<Row>, full: Pages,
                before: seq<Row>, seen: set<Key>, after: seq<Row>, seenAfter: set<Key>, next: seq<Row>,
                outcome: Outcome, rest: Pages)
    requires services != []
    requires before == a0 + Dedupe(done, RowKey, s0) && seen == s0 + KeySet(done, RowKey)
    requires full.rows == done + RunPages(services, net, seen).rows
    requires full.outcome == RunPages(services, net, seen).outcome
    requires next == done + ServicePages(services[0], net, seen).rows
    requires after == before + Dedupe(ServicePages(services[0], net, seen).rows, RowKey, seen)
    requires seenAfter == seen + KeySet(ServicePages(services[0], net, seen).rows, RowKey)
    requires outcome == ServicePages(services[0], net, seen).outcome
    requires rest == RunPages(services[1..], net, seenAfter)
    ensures after == a0 + Dedupe(next, RowKey, s0) && seenAfter == s0 + KeySet(next, RowKey)
    ensures outcome == Aborted ==> full.rows == next && full.outcome == Aborted
    ensures outcome != Aborted ==> full.rows == next + rest.rows && full.outcome == rest.outcome
  {
    var first := ServicePages(services[0], net, seen);
    DedupeResume(before, seen, a0, done, first.rows, RowKey, s0);
    if first.outcome != Aborted {
      AppendAssoc(done, first.rows, rest.rows);
    }
  }

  // ---------------------------------------------------------------------------
  // The run

  /** Position of a service in SERVICES (|SERVICES| for any other name). */
  function Rank(service: string): (r: nat)
    ensures r <= |SERVICES|
    ensures r < |SERVICES| <==> service in SERVICES
    ensures r < |SERVICES| ==> SERVICES[r] == service
  {
    if service == "horizon" then 0
    else if service == "adastra" then 1
    else if service == "openhatch" then 2
    else if service == "p2p" then 3
    else if service == "virgo" then 4
    else 5
  }

  /** The service at position `i` of SERVICES has rank `i`. */
  lemma RankIndex(i: nat)
    requires i < |SERVICES|
    ensures Rank(SERVICES[i]) == i
  {
    if i == 0 { assert SERVICES[0] == "horizon"; }
    else if i == 1 { assert SERVICES[1] == "adastra"; }
    else if i == 2 { assert SERVICES[2] == "openhatch"; }
    else if i == 3 { assert SERVICES[3] == "p2p"; }
    else { assert SERVICES[4] == "virgo"; }
  }

  /** Rows `lo..` of `rows` come grouped by service, in SERVICES order. */
  ghost predicate ServiceOrdered(rows: seq<Row>, lo: nat) {
    forall p, q :: lo <= p < q < |rows| ==> Rank(rows[p].service) <= Rank(rows[q].service)
  }

  /** The pages of one service read rows of that service only. */
  lemma ServicePagesService(service: string, net: Net, seen: set<Key>)
    ensures forall r :: r in ServicePages(service, net, seen).rows ==> r.service == service
  {
    match FetchResult(net, service, 1)
    case Raised =>
    case Fetched(items, total) =>
      if Truthy(items) {
        PagesService(service, net, items, 1, MaxPages(total), seen);
      }
  }

  /** Rows of the service at rank `i` followed by rows grouped by service, all of
      later services, are still grouped by service. */
  lemma OrderedAppend(first: seq<Row>, rest: seq<Row>, i: nat)
    requires forall r :: r in first ==> Rank(r.service) == i
    requires ServiceOrdered(rest, 0) && forall r :: r in rest ==> i < Rank(r.service)
    ensures ServiceOrdered(first + rest, 0)
  {
    var all := first + rest;
    forall p, q | 0 <= p < q < |all| ensures Rank(all[p].service) <= Rank(all[q].service) {
      if q < |first| {
        assert all[p] in first && all[q] in first;
      } else if p < |first| {
        assert all[p] in first && all[q] == rest[q - |first|] && all[q] in rest;
      } else {
        assert all[p] == rest[p - |first|] && all[q] == rest[q - |first|];
      }
    }
  }

  /** The run from position `i` of SERVICES reads rows grouped by service in
      SERVICES order, all of services from position `i` on. */
  lemma {:induction false} RunOrdered(i: nat, net: Net, seen: set<Key>)
    requires i <= |SERVICES|
    ensures var rows := RunPages(SERVICES[i..], net, seen).rows;
      ServiceOrdered(rows, 0) && forall r :: r in rows ==> i <= Rank(r.service) < |SERVICES|
    decreases |SERVICES| - i
  {
    if i < |SERVICES| {
      var first := ServicePages(SERVICES[i], net, seen);
      ServicePagesService(SERVICES[i], net, seen);
      RankIndex(i);
      assert forall r :: r in first.rows ==> Rank(r.service) == i;
      if first.outcome == Aborted {
        RunAborts(SERVICES, i, net, seen);
        OrderedAppend(first.rows, [], i);
        assert first.rows + [] == first.rows;
      } else {
        RunGoesOn(SERVICES, i, net, seen);
        var rest := RunPages(SERVICES[i + 1..], net, seen + KeySet(first.rows, RowKey)).rows;
        RunOrdered(i + 1, net, seen + KeySet(first.rows, RowKey));
        OrderedAppend(first.rows, rest, i);
        forall r | r in first.rows + rest ensures i <= Rank(r.service) < |SERVICES| {
          if r in first.rows { } else { assert r in rest; }
        }
      }
    } else {
      assert SERVICES[i..] == [];
    }
  }

  /** The rows a run keeps are grouped by service in SERVICES order, and are rows of
      the listed services only. */
  lemma RunKeptOrdered(net: Net, seen: set<Key>)
    ensures var kept := Dedupe(RunPages(SERVICES, net, seen).rows, RowKey, seen);
      ServiceOrdered(kept, 0) && forall r :: r in kept ==> r.service in SERVICES
  {
    var rows := RunPages(SERVICES, net, seen).rows;
    RunOrdered(0, net, seen);
    assert SERVICES[0..] == SERVICES;
    DedupeKeepsOrder(rows, RowKey, seen, (r: Row) => Rank(r.service));
    DedupeKeys(rows, RowKey, seen);
    forall r | r in Dedupe(rows, RowKey, seen) ensures r.service in SERVICES {
      assert r in rows;
    }
  }

  /** The module-level `all_data` list and `seen_records` set of one run. */
  class Collector {
    var allData: seq<Row>
    var seenRecords: set<Key>

    /** Every kept row's key is recorded, and no key is kept twice. */
    ghost predicate Valid()
      reads this
    {
      seenRecords == KeySet(allData, RowKey) && DistinctKeys(allData, RowKey)
    }

    constructor ()
      ensures Valid() && allData == [] && seenRecords == {}
    {
      allData := [];
      seenRecords := {};
    }

    /** The inner loop over one item's token entries. */
    method ProcessItem(service: string, item: Item) returns (added: nat)
      requires Valid()
      modifies this
      ensures Valid()
      ensures allData == old(allData) + Dedupe(TokenRows(service, item), RowKey, old(seenRecords))
      ensures seenRecords == old(seenRecords) + KeySet(TokenRows(service, item), RowKey)
      ensures added == |allData| - |old(allData)|
      ensures forall k :: |old(allData)| <= k < |allData| ==> allData[k].service == service
    {
      ghost var rows := TokenRows(service, item);
      ghost var s0 := seenRecords;
      added := 0;
      var j := 0;
      while j < |item.tokens|
        invariant 0 <= j <= |item.tokens|
        invariant allData == old(allData) + Dedupe(rows[..j], RowKey, s0)
        invariant seenRecords == s0 + KeySet(rows[..j], RowKey)
        invariant added == |allData| - |old(allData)|
        invariant forall k :: |old(allData)| <= k < |allData| ==> allData[k].service == service
      {
        var token := item.tokens[j];
        var row := Row(item.txType, item.timestamp, item.network, service, item.hash, item.address,
                       token.symbol, token.contract, token.value);
        TokenRowsStep(service, item, j);
        var key := (HashKey(item.hash), HashKey(item.address), HashKey(token.contract), HashKey(token.symbol));
        if key in seenRecords {
          DedupeSnocSeen(rows[..j], row, RowKey, s0);
          j := j + 1;
          continue;
        }
        DedupeSnocNew(rows[..j], row, RowKey, s0);
        AppendAssoc(old(allData), Dedupe(rows[..j], RowKey, s0), [row]);
        seenRecords := seenRecords + {key};
        allData := allData + [row];
        added := added + 1;
        j := j + 1;
      }
      assert rows[..j] == rows;
      AppendDedupe(old(allData), rows, RowKey, s0);
    }

    /** The flatten-and-dedupe loop over one page's items: the page's rows go through
        the run's shared dedupe. */
    method ProcessPage(service: string, items: seq<Item>) returns (newCount: nat)
      requires Valid()
      modifies this
      ensures Valid()
      ensures allData == old(allData) + Dedupe(Flatten(service, items), RowKey, old(seenRecords))
      ensures seenRecords == old(seenRecords) + KeySet(Flatten(service, items), RowKey)
      ensures newCount == |allData| - |old(allData)|
      ensures forall k :: |old(allData)| <= k < |allData| ==> allData[k].service == service
    {
      ghost var s0 := seenRecords;
      newCount := 0;
      var i := 0;
      while i < |items|
        invariant 0 <= i <= |items|
        invariant Valid()
        invariant allData == old(allData) + Dedupe(Flatten(service, items[..i]), RowKey, s0)
        invariant seenRecords == s0 + KeySet(Flatten(service, items[..i]), RowKey)
        invariant newCount == |allData| - |old(allData)|
        invariant forall k :: |old(allData)| <= k < |allData| ==> allData[k].service == service
      {
        var item := items[i];
        PageStep(service, items, i, old(allData), s0, allData, seenRecords);
        if item.tokens == [] {
          assert TokenRows(service, item) == [];
          assert allData + [] == allData;
          i := i + 1;
          continue;
        }
        var added := ProcessItem(service, item);
        newCount := newCount + added;
        i := i + 1;
      }
      assert items[..i] == items;
    }

    /** The page in hand: its items as the loop visits them, then the flatten-and-dedupe
        loop; nothing is stored when the items cannot be visited. */
    method HandlePage(service: string, items: Json) returns (ok: bool, newCount: nat)
      requires Valid()
      modifies this
      ensures Valid()
      ensures ok <==> DecodeItems(items).Some?
      ensures !ok ==> allData == old(allData) && seenRecords == old(seenRecords)
      ensures ok ==>
        var rows := Flatten(service, DecodeItems(items).value);
        allData == old(allData) + Dedupe(rows, RowKey, old(seenRecords)) &&
        seenRecords == old(seenRecords) + KeySet(rows, RowKey)
      ensures newCount == |allData| - |old(allData)|
      ensures forall k :: |old(allData)| <= k < |allData| ==> allData[k].service == service
    {
      var decoded := DecodeItems(items);
      if decoded.None? {
        return false, 0;
      }
      newCount := ProcessPage(service, decoded.value);
      ok := true;
    }

    /** One pass of the page loop: process the page in hand (`read` is its rows before
        dedupe), then stop at the page count or after a page that adds no row, or else
        fetch the next page; `go` says the loop goes on with `next`. */
    method LoopPass(service: string, net: Net, items: Json, page: nat, maxPages: int)
      returns (go: bool, outcome: Outcome, next: Json, ghost read: seq<Row>)
      requires Valid()
      modifies this
      ensures Valid()
      ensures allData == old(allData) + Dedupe(read, RowKey, old(seenRecords))
      ensures seenRecords == old(seenRecords) + KeySet(read, RowKey)
      ensures var here := PagesFrom(service, net, items, page, maxPages, old(seenRecords));
        if go then
          page < maxPages &&
          var rest := PagesFrom(service, net, next, page + 1, maxPages, seenRecords);
          here.rows == read + rest.rows && here.outcome == rest.outcome
        else here.rows == read && here.outcome == outcome
    {
      ghost var seen := seenRecords;
      var ok, newCount := HandlePage(service, items);
      next := items;
      if !ok {
        PagesNone(service, net, items, page, maxPages, seen);
        read := [];
        assert allData + [] == allData && seenRecords + {} == seenRecords;
        return false, Aborted, next, read;
      }
      read := Flatten(service, DecodeItems(items).value);
      if page >= maxPages || newCount == 0 {
        PagesLast(service, net, items, page, maxPages, seen);
        return false, Completed, next, read;
      }
      var fetched := FetchPage(net, service, page + 1);
      if fetched.Raised? {
        PagesLast(service, net, items, page, maxPages, seen);
        return false, Aborted, next, read;
      }
      PagesNext(service, net, items, page, maxPages, seen);
      go, outcome, next := true, Completed, fetched.items;
    }

    /** The page loop of one service once page 1 has items, from page 1 until a pass
        stops it. */
    method PageLoop(service: string, net: Net, firstItems: Json, maxPages: int) returns (outcome: Outcome)
      requires Valid()
      modifies this
      ensures Valid()
      ensures var p := PagesFrom(service, net, firstItems, 1, maxPages, old(seenRecords));
        allData == old(allData) + Dedupe(p.rows, RowKey, old(seenRecords)) &&
        seenRecords == old(seenRecords) + KeySet(p.rows, RowKey) && outcome == p.outcome
    {
      ghost var a0, s0 := allData, seenRecords;
      ghost var full := PagesFrom(service, net, firstItems, 1, maxPages, s0);
      ghost var done: seq<Row> := [];
      var items := firstItems;
      var page := 1;
      ghost var rest := full;
      while true
        invariant Valid()
        invariant allData == a0 + Dedupe(done, RowKey, s0) && seenRecords == s0 + KeySet(done, RowKey)
        invariant rest == PagesFrom(service, net, items, page, maxPages, seenRecords)
        invariant full.rows == done + rest.rows && full.outcome == rest.outcome
        decreases maxPages - page
      {
        ghost var before, seen := allData, seenRecords;
        var go, o, next, read := LoopPass(service, net, items, page, maxPages);
        DedupeResume(before, seen, a0, done, read, RowKey, s0);
        if !go {
          return o;
        }
        ghost var after := PagesFrom(service, net, next, page + 1, maxPages, seenRecords);
        AppendAssoc(done, read, after.rows);
        done, items, page, rest := done + read, next, page + 1, after;
      }
    }

    /** One service: page 1 gives the items and `total`; a service whose page 1 has no
        items is skipped, otherwise the page loop runs. An exception escaping
        fetch_page aborts the run. */
    method RunService(service: string, net: Net) returns (outcome: Outcome)
      requires Valid()
      modifies this
      ensures Valid()
      ensures var p := ServicePages(service, net, old(seenRecords));
        allData == old(allData) + Dedupe(p.rows, RowKey, old(seenRecords)) &&
        seenRecords == old(seenRecords) + KeySet(p.rows, RowKey) && outcome == p.outcome
      ensures forall k :: |old(allData)| <= k < |allData| ==> allData[k].service == service
    {
      var first := FetchPage(net, service, 1);
      if first.Raised? || !Truthy(first.items) {
        assert allData + [] == allData && seenRecords + {} == seenRecords;
        return if first.Raised? then Aborted else Completed;
      }
      ghost var a0, s0 := allData, seenRecords;
      outcome := PageLoop(service, net, first.items, MaxPages(first.total));
      ghost var p := PagesFrom(service, net, first.items, 1, MaxPages(first.total), s0);
      PagesService(service, net, first.items, 1, MaxPages(first.total), s0);
      DedupeKeys(p.rows, RowKey, s0);
      forall k | |a0| <= k < |allData| ensures allData[k].service == service {
        assert allData[k] in Dedupe(p.rows, RowKey, s0);
      }
    }

    /** The whole run: the services in SERVICES order, each with its own page loop,
        all sharing one `seen_records` set. The rows kept are the dedupe of every
        page read, in service and page order, so they come out grouped by service. */
    method Run(net: Net) returns (outcome: Outcome)
      requires Valid()
      modifies this
      ensures Valid()
      ensures var p := RunPages(SERVICES, net, old(seenRecords));
        allData == old(allData) + Dedupe(p.rows, RowKey, old(seenRecords)) &&
        seenRecords == old(seenRecords) + KeySet(p.rows, RowKey) && outcome == p.outcome
      ensures ServiceOrdered(allData[|old(allData)|..], 0)
      ensures forall r :: r in allData[|old(allData)|..] ==> r.service in SERVICES
    {
      ghost var a0, s0 := allData, seenRecords;
      ghost var full := RunPages(SERVICES, net, s0);
      RunKeptOrdered(net, s0);
      ghost var done: seq<Row> := [];
      ghost var rest := full;
      var todo := SERVICES;
      while todo != []
        invariant Valid()
        invariant allData == a0 + Dedupe(done, RowKey, s0) && seenRecords == s0 + KeySet(done, RowKey)
        invariant rest == RunPages(todo, net, seenRecords)
        invariant full.rows == done + rest.rows && full.outcome == rest.outcome
        decreases |todo|
      {
        ghost var before, seen := allData, seenRecords;
        var o := RunService(todo[0], net);
        ghost var next := done + ServicePages(todo[0], net, seen).rows;
        ghost var after := RunPages(todo[1..], net, seenRecords);
        RunStep(todo, net, a0, s0, done, full, before, seen, allData, seenRecords, next, o, after);
        done, rest := next, after;
        if o == Aborted {
          return Aborted;
        }
        todo := todo[1..];
      }
      assert done + [] == done;
      outcome := Completed;
    }
  }
}
