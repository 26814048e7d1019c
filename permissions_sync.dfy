/** The blocking permission exporter: pages 1, 2, ... are requested until a page has no
    users; each page gets up to MAX_RETRIES + 1 attempts, and a page that never
    succeeds ends the export with the rows gathered so far. Every exception raised while
    handling a 429 answer is caught and turned into a retry. */
module PermissionsSync {
  import opened PyJson
  import opened Http
  import opened KeyedDedupe
  import opened Permissions

  /** The server's answer to attempt `a` of the request for `page`. */
  type Net = (nat, nat) -> Response

  /** What one attempt ends in. */
  datatype Attempt =
    | Retry(wait: int)     // sleep `wait` seconds, then the next attempt
    | NoUsers              // an empty (falsy) `users`: the export ends
    | Users(users: Json)   // a non-empty `users` value
    | Crash                // an exception no handler catches

  /** The sleep after a 429 answer: the parsed wait, or 5 seconds when reading the
      body or parsing the message raises, or when `time.sleep` refuses the wait (a
      negative one, or one of SLEEP_LIMIT seconds or more). */
  function RateLimitWait(body: Body): int {
    match body
    case Parsed(JObj(f)) =>
      (match RetryAfter(Get(f, "message", JStr("")))
       case Wait(n) => if 0 <= n < SLEEP_LIMIT then n else ERROR_WAIT
       case ParseError => ERROR_WAIT)
    case _ => ERROR_WAIT
  }

  /** Every exception of the 429 handler is caught: the script only sleeps a time
      `time.sleep` accepts, sleeps the announced wait when it can read one that
      `time.sleep` accepts, and 5 seconds otherwise. */
  lemma RateLimitWaitMeaning(body: Body)
    ensures 0 <= RateLimitWait(body) < SLEEP_LIMIT
    ensures (body.Parsed? && body.json.JObj? && RetryAfter(Get(body.json.fields, "message", JStr(""))).Wait? &&
             0 <= RetryAfter(Get(body.json.fields, "message", JStr(""))).seconds < SLEEP_LIMIT) ==>
              RateLimitWait(body) == RetryAfter(Get(body.json.fields, "message", JStr(""))).seconds
    ensures (body.Parsed? && body.json.JObj? && RetryAfter(Get(body.json.fields, "message", JStr(""))).Wait? &&
             !(0 <= RetryAfter(Get(body.json.fields, "message", JStr(""))).seconds < SLEEP_LIMIT)) ==>
              RateLimitWait(body) == ERROR_WAIT
    ensures (!(body.Parsed? && body.json.JObj?) || RetryAfter(Get(body.json.fields, "message", JStr(""))).ParseError?) ==>
              RateLimitWait(body) == ERROR_WAIT
  {
  }

  /** `users` of a 200 body, read without a handler: a body or `data` that is not a dict
      raises, and `len(users)` is taken before the emptiness test, so a users value
      without a length raises even when it is None. */
  function UsersAttempt(j: Json): Attempt {
    match j
    case JObj(f) =>
      (match Get(f, "data", JObj([]))
       case JObj(d) =>
         var users := Get(d, "users", JArr([]));
         if Len(users).None? then Crash
         else if !Truthy(users) then NoUsers
         else Users(users)
       case _ => Crash)
    case _ => Crash
  }

  /** One attempt: a 429 sleeps what the message says, any other failing status and a
      body that is not JSON sleep 5 seconds, a 200 with JSON is read. */
  function Classify(resp: Response): Attempt {
    if resp.status == 429 then Retry(RateLimitWait(resp.body))
    else if resp.status != 200 then Retry(ERROR_WAIT)
    else match resp.body
      case Unparsable => Retry(ERROR_WAIT)
      case Parsed(j) => UsersAttempt(j)
  }

  /** How the inner loop of a page ends. */
  datatype PageResult = Got(users: Json) | Empty | Exhausted | Crashed

  function Result(a: Attempt): PageResult
    requires !a.Retry?
  {
    match a
    case NoUsers => Empty
    case Users(users) => Got(users)
    case Crash => Crashed
  }

  /** How the retry loop of a page ends, and the sleeps it took on the way. */
  datatype Fetch = Fetch(result: PageResult, waits: seq<int>)

  /** The inner retry loop of `page` from attempt `attempt` on: a retried attempt
      sleeps and moves on, the first other attempt decides the page, and after
      MAX_RETRIES + 1 retried attempts the page is exhausted. */
  function FetchFrom(net: Net, page: nat, attempt: nat): Fetch
    requires attempt <= MAX_RETRIES + 1
    decreases MAX_RETRIES + 1 - attempt
  {
    if attempt > MAX_RETRIES then Fetch(Exhausted, [])
    else match Classify(net(page, attempt))
      case Retry(w) => var rest := FetchFrom(net, page, attempt + 1); Fetch(rest.result, [w] + rest.waits)
      case a => Fetch(Result(a), [])
  }

  ghost predicate RetriedUntil(net: Net, page: nat, from: nat, a: nat) {
    forall b :: from <= b < a ==> Classify(net(page, b)).Retry?
  }

  /** A page gets at most MAX_RETRIES + 1 attempts: when they are all retried it is
      exhausted after that many sleeps; otherwise the first attempt not retried decides
      it, after one sleep per earlier attempt. */
  lemma {:induction false} PageAttempts(net: Net, page: nat, from: nat)
    requires from <= MAX_RETRIES + 1
    ensures |FetchFrom(net, page, from).waits| <= MAX_RETRIES + 1 - from
    ensures RetriedUntil(net, page, from, MAX_RETRIES + 1) ==>
      FetchFrom(net, page, from).result == Exhausted &&
      |FetchFrom(net, page, from).waits| == MAX_RETRIES + 1 - from
    ensures forall a ::
      (from <= a <= MAX_RETRIES && RetriedUntil(net, page, from, a) && !Classify(net(page, a)).Retry?) ==>
        FetchFrom(net, page, from).result == Result(Classify(net(page, a))) &&
        |FetchFrom(net, page, from).waits| == a - from
    decreases MAX_RETRIES + 1 - from
  {
    if from <= MAX_RETRIES {
      PageAttempts(net, page, from + 1);
      if Classify(net(page, from)).Retry? {
        forall a | from <= a <= MAX_RETRIES && RetriedUntil(net, page, from, a) && !Classify(net(page, a)).Retry?
          ensures FetchFrom(net, page, from).result == Result(Classify(net(page, a))) &&
            |FetchFrom(net, page, from).waits| == a - from
        {
          assert a != from;
          assert RetriedUntil(net, page, from + 1, a);
        }
        if RetriedUntil(net, page, from, MAX_RETRIES + 1) {
          assert RetriedUntil(net, page, from + 1, MAX_RETRIES + 1);
        }
      } else {
        assert !RetriedUntil(net, page, from, MAX_RETRIES + 1);
        forall a | from <= a <= MAX_RETRIES && RetriedUntil(net, page, from, a) && !Classify(net(page, a)).Retry?
          ensures a == from
        {
          if a > from {
            assert false;
          }
        }
      }
    }
  }

  /** One retried attempt: the page's result is decided by the later attempts, and its
      sleep comes before theirs. */
  lemma RetryStep(net: Net, page: nat, r: nat, waits: seq<int>)
    requires r <= MAX_RETRIES && Classify(net(page, r)).Retry?
    ensures FetchFrom(net, page, r).result == FetchFrom(net, page, r + 1).result
    ensures waits + FetchFrom(net, page, r).waits ==
      (waits + [Classify(net(page, r)).wait]) + FetchFrom(net, page, r + 1).waits
  {
  }

  /** An attempt that is not retried decides the page, after no further sleep. */
  lemma DecidedStep(net: Net, page: nat, r: nat, waits: seq<int>)
    requires r <= MAX_RETRIES && !Classify(net(page, r)).Retry?
    ensures FetchFrom(net, page, r).result == Result(Classify(net(page, r)))
    ensures waits + FetchFrom(net, page, r).waits == waits
  {
    assert waits + [] == waits;
  }

  /** "Retry after: N seconds" sleeps N seconds, or 5 when `int()` or `time.sleep`
      refuses N: a negative N, one of SLEEP_LIMIT or more, or one of more than
      MAX_STR_DIGITS digits. */
  lemma RateLimitAnnounced(n: int)
    ensures RateLimitWait(MessageBody(MARKER + " " + IntToDecimal(n) + " seconds")) ==
      if 0 <= n < SLEEP_LIMIT && DigitCount(n) <= MAX_STR_DIGITS then n else ERROR_WAIT
  {
    MessageOf(MARKER + " " + IntToDecimal(n) + " seconds");
    RetryAfterMessage(n);
  }

  /** A word after the marker that is not a number sleeps 5 seconds. */
  lemma RateLimitMalformed(w: string)
    requires w != [] && forall i :: 0 <= i < |w| ==> !IsDigit(w[i]) && w[i] != 'R' && w[i] != 's'
    ensures RateLimitWait(MessageBody(MARKER + " " + w)) == ERROR_WAIT
  {
    MessageOf(MARKER + " " + w);
    RetryAfterMalformed(w);
  }

  /** A message without the marker and a body without a message sleep 60 seconds; a
      body that is not JSON sleeps 5. */
  lemma RateLimitDefault(s: string)
    ensures !Contains(s, MARKER) ==> RateLimitWait(MessageBody(s)) == DEFAULT_WAIT
    ensures RateLimitWait(Parsed(JObj([]))) == DEFAULT_WAIT
    ensures RateLimitWait(Unparsable) == ERROR_WAIT
  {
    MessageOf(s);
    if !Contains(s, MARKER) {
      RetryAfterDefault(s);
    }
    NoOccurrence("", MARKER);
    RetryAfterDefault("");
  }

  /** The inner loop for one page: attempts until one is not retried or the retries
      run out. A successful attempt sets `success` and leaves the loop, which is a
      return here. */
  method FetchPage(net: Net, page: nat) returns (result: PageResult, waits: seq<int>)
    ensures result == FetchFrom(net, page, 0).result
    ensures waits == FetchFrom(net, page, 0).waits
  {
    var retries := 0;
    waits := [];
    while retries <= MAX_RETRIES
      invariant retries <= MAX_RETRIES + 1
      invariant FetchFrom(net, page, 0).result == FetchFrom(net, page, retries).result
      invariant FetchFrom(net, page, 0).waits == waits + FetchFrom(net, page, retries).waits
    {
      var attempt := Classify(net(page, retries));
      match attempt
      case Retry(wait) =>
        RetryStep(net, page, retries, waits);
        waits := waits + [wait];
        retries := retries + 1;
      case Crash =>
        DecidedStep(net, page, retries, waits);
        return Crashed, waits;
      case NoUsers =>
        DecidedStep(net, page, retries, waits);
        return Empty, waits;
      case Users(users) =>
        DecidedStep(net, page, retries, waits);
        return Got(users), waits;
    }
    assert waits + [] == waits;
    result := Exhausted;
  }

  // ---------------------------------------------------------------------------
  // The outer loop

  /** What `page` means to the outer loop. Its entries are turned into rows inside
      the inner loop in the script, right after the successful attempt; an entry that
      cannot be turned into a row raises there. An exhausted page and an empty one
      both end the export normally. */
  function StepOf(net: Net, page: nat): PageStep {
    match FetchFrom(net, page, 0).result
    case Got(users) => (match DecodeUsers(users) case Some(rows) => Next(rows) case None => Abort)
    case Crashed => Abort
    case _ => Stop
  }

  /** `steps` gives what every page means to the outer loop. The outer loop is proved
      against such a function rather than against the network directly, so that its
      proof does not unfold how a page is fetched. */
  ghost predicate Serves(net: Net, steps: nat -> PageStep) {
    forall p {:trigger StepOf(net, p)} :: steps(p) == StepOf(net, p)
  }

  /** One page of the outer loop: the inner loop, then the page's entries turned into
      rows. */
  method FetchStep(net: Net, page: nat, ghost steps: nat -> PageStep) returns (step: PageStep)
    requires Serves(net, steps)
    ensures step == steps(page)
  {
    assert steps(page) == StepOf(net, page);
    var result, _ := FetchPage(net, page);
    match result
    case Got(users) =>
      var rows := DecodeUsers(users);
      step := if rows.Some? then Next(rows.value) else Abort;
    case Crashed =>
      step := Abort;
    case _ =>
      step := Stop;
  }

  /** The outer page loop, where page p yields `steps(p)`. `last` names a page that
      yields no rows (empty, unreachable or failing); without one the script never
      stops. The table ends with the first-seen row of every address on the pages
      before the one that stopped the export. */
  method Run(t: UserTable, net: Net, last: nat, ghost steps: nat -> PageStep) returns (outcome: Outcome, pages: nat)
    requires t.Valid() && Serves(net, steps)
    requires last >= 1 && !steps(last).Next?
    modifies t
    ensures t.Valid()
    ensures 1 <= pages <= last
    ensures AllNext(steps, pages) && !steps(pages).Next?
    ensures outcome == Aborted <==> steps(pages) == Abort
    ensures Table(t.allData, t.seenAddresses) == Fed(steps, pages, Table(old(t.allData), old(t.seenAddresses)))
  {
    ghost var t0 := Table(t.allData, t.seenAddresses);
    var page := 1;
    while true
      invariant 1 <= page <= last
      invariant t.Valid()
      invariant AllNext(steps, page)
      invariant Table(t.allData, t.seenAddresses) == Fed(steps, page, t0)
      decreases last - page
    {
      var step := FetchStep(net, page, steps);
      if !step.Next? {
        outcome := if step == Abort then Aborted else Finished;
        pages := page;
        return;
      }
      ghost var before := Table(t.allData, t.seenAddresses);
      t.ProcessUsers(step.rows);
      FedNext(steps, page, t0, step.rows, before, Table(t.allData, t.seenAddresses));
      assert page != last;
      page := page + 1;
    }
  }
}
