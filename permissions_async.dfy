/** The asynchronous permission exporter: the same pages, table and CSV as the blocking
    one, but `fetch_page` handles 400 like 429, catches nothing while reading a
    rate-limit answer, returns `users` without looking at it, and returns an empty
    list once a page's MAX_RETRIES + 1 attempts are all retried. The outer loop stops
    at the first falsy `users`. */
module PermissionsAsync {
  import opened PyJson
  import opened Http
  import opened KeyedDedupe
  import opened Permissions

  /** The server's answer to attempt `a` of the request for `page`. */
  type Net = (nat, nat) -> Response

  /** What one attempt of `fetch_page` ends in. */
  datatype Attempt =
    | Retry(wait: int)     // sleep `wait` seconds, then the next attempt
    | Done(users: Json)    // `fetch_page` returns this value
    | Crash                // an exception no handler catches

  /** The body of a 429 or 400 answer: it is read as JSON and the message as in the
      blocking exporter, with no handler around either, so a body that is not JSON or
      not a dict, and a marker followed by no integer, raise. A negative wait makes
      `asyncio.sleep` return at once, so it is kept as it is; a wait of FLOAT_LIMIT or
      more makes `asyncio.sleep` raise. */
  function RateLimitAttempt(body: Body): Attempt {
    match body
    case Parsed(JObj(f)) =>
      (match RetryAfter(Get(f, "message", JStr("")))
       case Wait(n) => if n < FLOAT_LIMIT then Retry(n) else Crash
       case ParseError => Crash)
    case _ => Crash
  }

  /** `json_response.get('data', {}).get('users', [])`: a body or `data` that is not a
      dict raises; the handler around it only catches a body that is not JSON. */
  function UsersOf(j: Json): Attempt {
    match j
    case JObj(f) =>
      (match Get(f, "data", JObj([]))
       case JObj(d) => Done(Get(d, "users", JArr([])))
       case _ => Crash)
    case _ => Crash
  }

  /** One attempt: 429 and 400 are rate limits, any other failing status and a body
      that is not JSON sleep 5 seconds, a 200 with JSON returns its users. Reading the
      body of an answer whose content type is not JSON raises. */
  function Classify(resp: Response): Attempt {
    if resp.status == 429 || resp.status == 400 then
      if !resp.jsonType then Crash else RateLimitAttempt(resp.body)
    else if resp.status != 200 then Retry(ERROR_WAIT)
    else if !resp.jsonType then Crash
    else match resp.body
      case Unparsable => Retry(ERROR_WAIT)
      case Parsed(j) => UsersOf(j)
  }

  /** How a call of `fetch_page` ends. */
  datatype PageResult = Returned(users: Json) | Raised

  function Result(a: Attempt): PageResult
    requires !a.Retry?
  {
    match a
    case Done(users) => Returned(users)
    case Crash => Raised
  }

  /** How a call of `fetch_page` ends, and the sleeps it took on the way. */
  datatype Fetch = Fetch(result: PageResult, waits: seq<int>)

  /** `fetch_page` from attempt `attempt` on: a retried attempt sleeps and moves on,
      the first other attempt decides the call, and after MAX_RETRIES + 1 retried
      attempts the call returns an empty list. */
  function FetchFrom(net: Net, page: nat, attempt: nat): Fetch
    requires attempt <= MAX_RETRIES + 1
    decreases MAX_RETRIES + 1 - attempt
  {
    if attempt > MAX_RETRIES then Fetch(Returned(JArr([])), [])
    else match Classify(net(page, attempt))
      case Retry(w) => var rest := FetchFrom(net, page, attempt + 1); Fetch(rest.result, [w] + rest.waits)
      case a => Fetch(Result(a), [])
  }

  ghost predicate RetriedUntil(net: Net, page: nat, from: nat, a: nat) {
    forall b :: from <= b < a ==> Classify(net(page, b)).Retry?
  }

  /** A call makes at most MAX_RETRIES + 1 attempts: when they are all retried it
      returns an empty list after that many sleeps; otherwise the first attempt not
      retried decides it, after one sleep per earlier attempt. */
  lemma {:induction false} PageAttempts(net: Net, page: nat, from: nat)
    requires from <= MAX_RETRIES + 1
    ensures |FetchFrom(net, page, from).waits| <= MAX_RETRIES + 1 - from
    ensures RetriedUntil(net, page, from, MAX_RETRIES + 1) ==>
      FetchFrom(net, page, from).result == Returned(JArr([])) &&
      |FetchFrom(net, page, from).waits| == MAX_RETRIES + 1 - from
    ensures forall a ::
      (from <= a <= MAX_RETRIES && RetriedUntil(net, page, from, a) && !Classify(net(page, a)).Retry?) ==>
        FetchFrom(net, page, from).result == Result(Classify(net(page, a))) &&
        |FetchFrom(net, page, from).waits| == a - from
    decreases MAX_RETRIES + 1 - from
  {
    if from <= MAX_RETRIES {
      PageAttempts(net, page, from + 1);
      if Classify(net(page, from)).Retry? {
        forall a | from <= a <= MAX_RETRIES && RetriedUntil(net, page, from, a) && !Classify(net(page, a)).Retry?
          ensures FetchFrom(net, page, from).result == Result(Classify(net(page, a))) &&
            |FetchFrom(net, page, from).waits| == a - from
        {
          assert a != from;
          assert RetriedUntil(net, page, from + 1, a);
        }
        if RetriedUntil(net, page, from, MAX_RETRIES + 1) {
          assert RetriedUntil(net, page, from + 1, MAX_RETRIES + 1);
        }
      } else {
        assert !RetriedUntil(net, page, from, MAX_RETRIES + 1);
        forall a | from <= a <= MAX_RETRIES && RetriedUntil(net, page, from, a) && !Classify(net(page, a)).Retry?
          ensures a == from
        {
          if a > from {
            assert false;
          }
        }
      }
    }
  }

  lemma RetryStep(net: Net, page: nat, r: nat, waits: seq<int>)
    requires r <= MAX_RETRIES && Classify(net(page, r)).Retry?
    ensures FetchFrom(net, page, r).result == FetchFrom(net, page, r + 1).result
    ensures waits + FetchFrom(net, page, r).waits ==
      (waits + [Classify(net(page, r)).wait]) + FetchFrom(net, page, r + 1).waits
  {
  }

  lemma DecidedStep(net: Net, page: nat, r: nat, waits: seq<int>)
    requires r <= MAX_RETRIES && !Classify(net(page, r)).Retry?
    ensures FetchFrom(net, page, r).result == Result(Classify(net(page, r)))
    ensures waits + FetchFrom(net, page, r).waits == waits
  {
    assert waits + [] == waits;
  }

  /** A 429 or 400 answer saying "Retry after: N seconds" sleeps N seconds, for every
      integer N that `int()` and `asyncio.sleep` accept; any other N ends the export
      with an exception. */
  lemma RateLimitAnnounced(status: int, n: int)
    requires status == 429 || status == 400
    ensures Classify(Response(status, None, MessageBody(MARKER + " " + IntToDecimal(n) + " seconds"), true)) ==
      if DigitCount(n) <= MAX_STR_DIGITS && n < FLOAT_LIMIT then Retry(n) else Crash
  {
    MessageOf(MARKER + " " + IntToDecimal(n) + " seconds");
    RetryAfterMessage(n);
  }

  /** An answer to be read whose content type is not JSON ends the export with an
      exception, whatever its body, where a body that is not JSON under a JSON content
      type is retried. */
  lemma ContentTypeRaises(resp: Response)
    requires resp.status == 429 || resp.status == 400 || resp.status == 200
    ensures !resp.jsonType ==> Classify(resp) == Crash
    ensures resp.status == 200 && resp.jsonType && resp.body.Unparsable? ==> Classify(resp) == Retry(ERROR_WAIT)
  {
  }

  /** A word after the marker that is not a number ends the export with an exception. */
  lemma RateLimitMalformed(w: string)
    requires w != [] && forall i :: 0 <= i < |w| ==> !IsDigit(w[i]) && w[i] != 'R' && w[i] != 's'
    ensures RateLimitAttempt(MessageBody(MARKER + " " + w)) == Crash
  {
    MessageOf(MARKER + " " + w);
    RetryAfterMalformed(w);
  }

  /** A message without the marker and a body without a message sleep 60 seconds; a
      rate-limit body that is not JSON ends the export with an exception. */
  lemma RateLimitDefault(s: string)
    ensures !Contains(s, MARKER) ==> RateLimitAttempt(MessageBody(s)) == Retry(DEFAULT_WAIT)
    ensures RateLimitAttempt(Parsed(JObj([]))) == Retry(DEFAULT_WAIT)
    ensures RateLimitAttempt(Unparsable) == Crash
  {
    MessageOf(s);
    if !Contains(s, MARKER) {
      RetryAfterDefault(s);
    }
    NoOccurrence("", MARKER);
    RetryAfterDefault("");
  }

  /** `fetch_page`: attempts until one is not retried or the retries run out. */
  method FetchPage(net: Net, page: nat) returns (result: PageResult, waits: seq<int>)
    ensures result == FetchFrom(net, page, 0).result
    ensures waits == FetchFrom(net, page, 0).waits
  {
    ghost var full := FetchFrom(net, page, 0);
    ghost var rest := full;
    var retries := 0;
    waits := [];
    while retries <= MAX_RETRIES
      invariant retries <= MAX_RETRIES + 1
      invariant rest == FetchFrom(net, page, retries)
      invariant full.result == rest.result && full.waits == waits + rest.waits
    {
      var attempt := Classify(net(page, retries));
      if attempt.Retry? {
        RetryStep(net, page, retries, waits);
        waits, retries, rest := waits + [attempt.wait], retries + 1, FetchFrom(net, page, retries + 1);
      } else {
        DecidedStep(net, page, retries, waits);
        return Result(attempt), waits;
      }
    }
    assert waits + [] == waits;
    result := Returned(JArr([]));
  }

  // ---------------------------------------------------------------------------
  // The outer loop

  /** What `page` means to `main`: falsy users end the export; otherwise `len(users)`
      is printed, which raises for a value without a length, and the entries are
      turned into rows, which raises for an entry that is not a dict with a dict
      `user` and a hashable address. */
  function StepOf(net: Net, page: nat): PageStep {
    match FetchFrom(net, page, 0).result
    case Raised => Abort
    case Returned(users) =>
      if !Truthy(users) then Stop
      else if Len(users).None? then Abort
      else match DecodeUsers(users) case Some(rows) => Next(rows) case None => Abort
  }

  /** A page whose attempts are all retried yields an empty list, which ends the
      export normally, after MAX_RETRIES + 1 sleeps. */
  lemma ExhaustedStops(net: Net, page: nat)
    requires RetriedUntil(net, page, 0, MAX_RETRIES + 1)
    ensures StepOf(net, page) == Stop
    ensures |FetchFrom(net, page, 0).waits| == MAX_RETRIES + 1
  {
    PageAttempts(net, page, 0);
  }

  /** The body `{"data": {"users": users}}` returns `users`. */
  lemma UsersOfBody(users: Json)
    ensures UsersOf(JObj([("data", JObj([("users", users)]))])) == Done(users)
  {
    GetHead("data", JObj([("users", users)]), [], "data", JObj([]));
    GetHead("users", users, [], "users", JArr([]));
  }

  /** A page whose first answer is a 200 with a truthy `data.users` whose entries all
      make rows yields those rows. */
  lemma FirstAnswerRows(net: Net, page: nat, users: Json, rows: seq<UserRow>)
    requires net(page, 0) == Response(200, None, Parsed(JObj([("data", JObj([("users", users)]))])), true)
    requires Truthy(users) && DecodeUsers(users) == Some(rows)
    ensures StepOf(net, page) == Next(rows)
  {
    UsersOfBody(users);
    DecidedStep(net, page, 0, []);
    DictsOfMeaning(users);
  }

  /** `steps` gives what every page means to `main`. */
  ghost predicate Serves(net: Net, steps: nat -> PageStep) {
    forall p {:trigger StepOf(net, p)} :: steps(p) == StepOf(net, p)
  }

  /** One page of `main`: `fetch_page`, the emptiness test, `len` and the rows. */
  method FetchStep(net: Net, page: nat, ghost steps: nat -> PageStep) returns (step: PageStep)
    requires Serves(net, steps)
    ensures step == steps(page)
  {
    assert steps(page) == StepOf(net, page);
    var result, _ := FetchPage(net, page);
    match result
    case Raised =>
      step := Abort;
    case Returned(users) =>
      if !Truthy(users) {
        step := Stop;
      } else if Len(users).None? {
        step := Abort;
      } else {
        var rows := DecodeUsers(users);
        step := if rows.Some? then Next(rows.value) else Abort;
      }
  }

  /** `main`'s page loop, where page p yields `steps(p)`. `last` names a page that
      yields no rows; without one the script never stops. The table ends with the
      first-seen row of every address on the pages before the one that stopped the
      export. */
  method Run(t: UserTable, net: Net, last: nat, ghost steps: nat -> PageStep) returns (outcome: Outcome, pages: nat)
    requires t.Valid() && Serves(net, steps)
    requires last >= 1 && !steps(last).Next?
    modifies t
    ensures t.Valid()
    ensures 1 <= pages <= last
    ensures AllNext(steps, pages) && !steps(pages).Next?
    ensures outcome == Aborted <==> steps(pages) == Abort
    ensures Table(t.allData, t.seenAddresses) == Fed(steps, pages, Table(old(t.allData), old(t.seenAddresses)))
  {
    ghost var t0 := Table(t.allData, t.seenAddresses);
    var page := 1;
    while true
      invariant 1 <= page <= last
      invariant t.Valid()
      invariant AllNext(steps, page)
      invariant Table(t.allData, t.seenAddresses) == Fed(steps, page, t0)
      decreases last - page
    {
      var step := FetchStep(net, page, steps);
      if !step.Next? {
        outcome := if step == Abort then Aborted else Finished;
        pages := page;
        return;
      }
      ghost var before := Table(t.allData, t.seenAddresses);
      t.ProcessUsers(step.rows);
      FedNext(steps, page, t0, step.rows, before, Table(t.allData, t.seenAddresses));
      assert page != last;
      page := page + 1;
    }
  }
}
