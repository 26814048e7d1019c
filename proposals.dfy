/** The paginated proposal exporter: pages 1 to 10 are requested side by side, the
    truthy answers are collected in the order they complete and sorted by page, and
    each page's proposals are written to the CSV as they are read, skipping a
    proposal whose weak key was written before. */
module Proposals {
  import opened PyJson
  import opened Http
  import opened KeyedDedupe
  import opened ProposalRows

  /** The wait when a 429 answer has no `Retry-After` header. */
  const DEFAULT_RETRY_AFTER: int := 30

  /** The pages requested: `range(1, 11)`. */
  const PAGES: nat := 10

  /** The server's answer to the `a`-th request for `page`. */
  type Net = (nat, nat) -> Response

  // ---------------------------------------------------------------------------
  // fetch_proposals

  /** What `fetch_proposals` returns, or that it raised. */
  datatype Answer = Value(json: Json) | NoValue | Raised

  /** The answer and the sleeps taken on the way. */
  datatype Fetched = Fetched(answer: Answer, waits: seq<int>)

  /** `int(response.headers.get("Retry-After", 30))`, or None when `int` raises. Only
      the delta-seconds form of the header (section 10.2.3 of RFC 9110) is read; an
      HTTP-date makes `int` raise. */
  function RetryAfterSeconds(header: Option<string>): Option<int> {
    match header
    case None => Some(DEFAULT_RETRY_AFTER)
    case Some(h) => ParseIntLiteral(h)
  }

  /** `fetch_proposals(page)` when it is the `attempt`-th request for the page and the
      interpreter allows `room` more nested calls. A 429 sleeps the header's wait and
      calls itself again, with no bound of its own; a header `int` rejects and a
      wait `time.sleep` rejects (a negative one, or one of SLEEP_LIMIT seconds or
      more) raise, and so does a nested call beyond
      the recursion limit. Any other failing status and a body that is not JSON give
      None. */
  function FetchProposals(net: Net, page: nat, attempt: nat, room: nat): (r: Fetched)
    ensures forall i :: 0 <= i < |r.waits| ==> 0 <= r.waits[i] < SLEEP_LIMIT
    ensures |r.waits| <= room + 1
    decreases room
  {
    var resp := net(page, attempt);
    if resp.status == 429 then
      match RetryAfterSeconds(resp.retryAfter)
      case None => Fetched(Raised, [])
      case Some(w) =>
        if !(0 <= w < SLEEP_LIMIT) then Fetched(Raised, [])
        else if room == 0 then Fetched(Raised, [w])
        else
          var rest := FetchProposals(net, page, attempt + 1, room - 1);
          Fetched(rest.answer, [w] + rest.waits)
    else if resp.status != 200 then Fetched(NoValue, [])
    else match resp.body
      case Unparsable => Fetched(NoValue, [])
      case Parsed(j) => Fetched(Value(j), [])
  }

  /** An answer that is not a 429 decides the call at once: None for a failing status
      or a body that is not JSON, the decoded body otherwise. */
  lemma FetchDecided(net: Net, page: nat, attempt: nat, room: nat)
    requires net(page, attempt).status != 429
    ensures FetchProposals(net, page, attempt, room).waits == []
    ensures FetchProposals(net, page, attempt, room).answer ==
      if net(page, attempt).status != 200 || net(page, attempt).body.Unparsable? then NoValue
      else Value(net(page, attempt).body.json)
  {
  }

  /** A 429 answer whose header gives a wait `time.sleep` accepts. */
  predicate RateLimited(resp: Response) {
    resp.status == 429 && RetryAfterSeconds(resp.retryAfter).Some? && 0 <= RetryAfterSeconds(resp.retryAfter).value < SLEEP_LIMIT
  }

  /** The sleeps of the `k` rate-limited answers from attempt `attempt` on. */
  function RateLimitWaits(net: Net, page: nat, attempt: nat, k: nat): seq<int>
    requires forall a :: attempt <= a < attempt + k ==> RateLimited(net(page, a))
    decreases k
  {
    if k == 0 then []
    else
      assert RateLimited(net(page, attempt));
      [RetryAfterSeconds(net(page, attempt).retryAfter).value] + RateLimitWaits(net, page, attempt + 1, k - 1)
  }

  /** No bound of its own: any run of k 429 answers with readable, non-negative waits
      is slept through, one header wait after another, when the interpreter allows k
      nested calls; the call then ends as the request after the run does. */
  lemma {:induction false} RateLimitRun(net: Net, page: nat, attempt: nat, room: nat, k: nat)
    requires k <= room
    requires forall a :: attempt <= a < attempt + k ==> RateLimited(net(page, a))
    ensures FetchProposals(net, page, attempt, room) ==
      var rest := FetchProposals(net, page, attempt + k, room - k);
      Fetched(rest.answer, RateLimitWaits(net, page, attempt, k) + rest.waits)
    decreases k
  {
    if k > 0 {
      assert RateLimited(net(page, attempt));
      var w := RetryAfterSeconds(net(page, attempt).retryAfter).value;
      RateLimitRun(net, page, attempt + 1, room - 1, k - 1);
      AppendAssoc([w], RateLimitWaits(net, page, attempt + 1, k - 1),
                  FetchProposals(net, page, attempt + k, room - k).waits);
    }
  }

  /** A missing header waits 30 seconds and a number N waits N seconds; `int` refuses
      a number of more than MAX_STR_DIGITS digits. */
  lemma RetryAfterHeader(n: int)
    ensures RetryAfterSeconds(None) == Some(30)
    ensures RetryAfterSeconds(Some(IntToDecimal(n))) == if DigitCount(n) <= MAX_STR_DIGITS then Some(n) else None
  {
    ParseIntRoundTrip(n);
  }

  /** A 429 answer whose wait `int` or `time.sleep` refuses makes the call raise at
      once, with no sleep. */
  lemma SleepRefused(net: Net, page: nat, attempt: nat, room: nat)
    requires net(page, attempt).status == 429
    requires RetryAfterSeconds(net(page, attempt).retryAfter).None? ||
      !(0 <= RetryAfterSeconds(net(page, attempt).retryAfter).value < SLEEP_LIMIT)
    ensures FetchProposals(net, page, attempt, room) == Fetched(Raised, [])
  {
  }

  /** A header that starts with a letter, as an HTTP-date does, makes `int` raise. */
  lemma DateHeaderRaises(h: string)
    requires h != [] && !IsSpace(h[0]) && !IsDigit(h[0]) && h[0] != '+' && h[0] != '-'
    ensures RetryAfterSeconds(Some(h)) == None
  {
    assert !IsIntSpace(h[0]);
    assert LStrip(h, IsIntSpace) == h;
    RStripMeaning(h, IsIntSpace);
    var t := RStrip(h, IsIntSpace);
    assert t != [] by {
      if t == [] { assert false; }
    }
    assert t[0] == h[0];
    assert IntStrip(h) == t;
  }

  // ---------------------------------------------------------------------------
  // Collecting and ordering the answers

  /** The answer for a page: its first request, with `room` nested calls allowed. */
  function AnswerOf(net: Net, room: nat, page: nat): Answer {
    FetchProposals(net, page, 0, room).answer
  }

  /** What a page adds to `results`: the page and its answer, when the answer is a
      truthy value; an exception and a falsy answer add nothing. */
  function Kept(net: Net, room: nat, page: nat): seq<(nat, Json)> {
    match AnswerOf(net, room, page)
    case Value(j) => if Truthy(j) then [(page, j)] else []
    case _ => []
  }

  /** `results` after the pages completed in the order `order`. */
  function Collected(net: Net, room: nat, order: seq<nat>): seq<(nat, Json)>
    decreases |order|
  {
    if order == [] then []
    else Collected(net, room, order[..|order| - 1]) + Kept(net, room, order[|order| - 1])
  }

  /** The pages 1 to n in ascending order. */
  function Range(n: nat): (r: seq<nat>)
    ensures |r| == n
  {
    if n == 0 then [] else Range(n - 1) + [n]
  }

  /** `list.sort(key=page)` as an insertion: `x` goes after every entry whose page is
      not larger, which keeps the sort stable. */
  function Insert(x: (nat, Json), s: seq<(nat, Json)>): seq<(nat, Json)>
    decreases |s|
  {
    if s == [] || x.0 < s[0].0 then [x] + s else [s[0]] + Insert(x, s[1..])
  }

  function SortByPage(rs: seq<(nat, Json)>): seq<(nat, Json)>
    decreases |rs|
  {
    if rs == [] then [] else Insert(rs[|rs| - 1], SortByPage(rs[..|rs| - 1]))
  }

  /** Each entry's page is at most the next one's. */
  ghost predicate Sorted(s: seq<(nat, Json)>)
    decreases |s|
  {
    |s| <= 1 || (s[0].0 <= s[1].0 && Sorted(s[1..]))
  }

  lemma {:induction false} SortedHead(s: seq<(nat, Json)>, m: nat)
    requires Sorted(s) && m < |s|
    ensures s[0].0 <= s[m].0
    decreases m
  {
    if m > 0 {
      SortedHead(s[1..], m - 1);
    }
  }

  ghost predicate StrictlySorted(s: seq<(nat, Json)>) {
    forall i, j :: 0 <= i < j < |s| ==> s[i].0 < s[j].0
  }

  lemma {:induction false} InsertMultiset(x: (nat, Json), s: seq<(nat, Json)>)
    ensures multiset(Insert(x, s)) == multiset(s) + multiset{x}
    decreases |s|
  {
    if s != [] && x.0 >= s[0].0 {
      InsertMultiset(x, s[1..]);
      assert s == [s[0]] + s[1..];
    }
  }

  lemma {:induction false} InsertSorted(x: (nat, Json), s: seq<(nat, Json)>)
    requires Sorted(s)
    ensures Sorted(Insert(x, s))
    ensures |Insert(x, s)| == |s| + 1
    ensures Insert(x, s)[0] == if s == [] || x.0 < s[0].0 then x else s[0]
    decreases |s|
  {
    if s != [] && x.0 >= s[0].0 {
      var r := Insert(x, s[1..]);
      InsertSorted(x, s[1..]);
      assert ([s[0]] + r)[1..] == r;
    }
  }

  /** The sort orders the entries by page. */
  lemma {:induction false} SortByPageSorted(rs: seq<(nat, Json)>)
    ensures Sorted(SortByPage(rs))
    decreases |rs|
  {
    if rs != [] {
      SortByPageSorted(rs[..|rs| - 1]);
      InsertSorted(rs[|rs| - 1], SortByPage(rs[..|rs| - 1]));
    }
  }

  /** The sort yields the entries it was given. */
  lemma {:induction false} SortByPagePermutes(rs: seq<(nat, Json)>)
    ensures multiset(SortByPage(rs)) == multiset(rs)
    decreases |rs|
  {
    if rs != [] {
      var init := rs[..|rs| - 1];
      SortByPagePermutes(init);
      InsertMultiset(rs[|rs| - 1], SortByPage(init));
      assert rs == init + [rs[|rs| - 1]];
    }
  }

  lemma StrictTail(b: seq<(nat, Json)>)
    requires b != [] && StrictlySorted(b)
    ensures StrictlySorted(b[1..])
  {
    forall i, j | 0 <= i < j < |b| - 1 ensures b[1..][i].0 < b[1..][j].0 {
      assert b[1..][i] == b[i + 1] && b[1..][j] == b[j + 1];
    }
  }

  /** Equal heads, equal multisets of the tails. */
  lemma MultisetTails(a: seq<(nat, Json)>, b: seq<(nat, Json)>)
    requires a != [] && b != [] && a[0] == b[0] && multiset(a) == multiset(b)
    ensures multiset(a[1..]) == multiset(b[1..])
  {
    assert a == [a[0]] + a[1..] && b == [b[0]] + b[1..];
    assert multiset([a[0]]) == multiset{a[0]};
    assert multiset(a) == multiset{a[0]} + multiset(a[1..]);
    assert multiset(b) == multiset{a[0]} + multiset(b[1..]);
    MultisetCancel(multiset(a[1..]), multiset(b[1..]), a[0]);
  }

  /** A sorted list holding the same entries as a strictly sorted one is that list. */
  lemma {:induction false} SortedUnique(a: seq<(nat, Json)>, b: seq<(nat, Json)>)
    requires Sorted(a) && StrictlySorted(b) && multiset(a) == multiset(b)
    ensures a == b
    decreases |a|
  {
    assert |a| == |b| by { assert |multiset(a)| == |multiset(b)|; }
    if a != [] {
      assert a[0] in b by { assert a[0] in multiset(b); }
      var k :| 0 <= k < |b| && b[k] == a[0];
      assert b[0] in a by { assert b[0] in multiset(a); }
      var m :| 0 <= m < |a| && a[m] == b[0];
      SortedHead(a, m);
      if k > 0 {
        assert false;
      }
      MultisetTails(a, b);
      StrictTail(b);
      SortedUnique(a[1..], b[1..]);
      assert a == [a[0]] + a[1..] && b == [b[0]] + b[1..];
    }
  }

  lemma {:induction false} CollectedConcat(net: Net, room: nat, o1: seq<nat>, o2: seq<nat>)
    ensures Collected(net, room, o1 + o2) == Collected(net, room, o1) + Collected(net, room, o2)
    decreases |o2|
  {
    if o2 == [] {
      assert o1 + o2 == o1;
    } else {
      var init := o2[..|o2| - 1];
      assert (o1 + o2)[..|o1 + o2| - 1] == o1 + init;
      CollectedConcat(net, room, o1, init);
    }
  }

  /** The last page of one order sits somewhere in any reordering of it. */
  lemma RemoveLast(o1: seq<nat>, o2: seq<nat>) returns (k: nat)
    requires o1 != [] && multiset(o1) == multiset(o2)
    ensures k < |o2| && o2[k] == o1[|o1| - 1]
    ensures multiset(o1[..|o1| - 1]) == multiset(o2[..k] + o2[k + 1..])
  {
    var x := o1[|o1| - 1];
    var init := o1[..|o1| - 1];
    assert o1 == init + [x];
    assert x in multiset(o2);
    k :| 0 <= k < |o2| && o2[k] == x;
    var left, right := o2[..k], o2[k + 1..];
    assert o2 == left + [x] + right;
    assert multiset(o1) == multiset{x} + multiset(init);
    assert multiset(o2) == multiset{x} + multiset(left + right);
    MultisetCancel(multiset(init), multiset(left + right), x);
  }

  /** The entries collected depend on which pages completed, not on the order. */
  lemma {:induction false} CollectedPermutation(net: Net, room: nat, o1: seq<nat>, o2: seq<nat>)
    requires multiset(o1) == multiset(o2)
    ensures multiset(Collected(net, room, o1)) == multiset(Collected(net, room, o2))
    decreases |o1|
  {
    if o1 == [] {
      assert |multiset(o2)| == 0;
    } else {
      var k := RemoveLast(o1, o2);
      var x := o1[|o1| - 1];
      var init := o1[..|o1| - 1];
      var left, right := o2[..k], o2[k + 1..];
      assert o2 == (left + [x]) + right;
      CollectedPermutation(net, room, init, left + right);
      CollectedConcat(net, room, left, right);
      CollectedConcat(net, room, left + [x], right);
      CollectedConcat(net, room, left, [x]);
      assert Collected(net, room, [x]) == Kept(net, room, x) by {
        assert [x][..0] == [];
      }
    }
  }

  /** Every collected entry comes from a page of `order`. */
  lemma {:induction false} CollectedPages(net: Net, room: nat, order: seq<nat>)
    ensures forall e :: e in Collected(net, room, order) ==> e.0 in order
    decreases |order|
  {
    if order != [] {
      var init := order[..|order| - 1];
      CollectedPages(net, room, init);
      forall e | e in Collected(net, room, order) ensures e.0 in order {
        if e in Collected(net, room, init) {
          assert e.0 in init;
          var m :| 0 <= m < |init| && init[m] == e.0;
          assert order[m] == e.0;
        }
      }
    }
  }

  /** Collecting the pages in ascending order gives entries in strictly ascending
      page order. */
  lemma {:induction false} AscendingStrict(net: Net, room: nat, n: nat)
    ensures StrictlySorted(Collected(net, room, Range(n)))
    ensures forall e :: e in Collected(net, room, Range(n)) ==> 1 <= e.0 <= n
    decreases n
  {
    if n > 0 {
      AscendingStrict(net, room, n - 1);
      assert Range(n)[..n - 1] == Range(n - 1);
      var before := Collected(net, room, Range(n - 1));
      var all := Collected(net, room, Range(n));
      assert all == before + Kept(net, room, n);
      forall i, j | 0 <= i < j < |all| ensures all[i].0 < all[j].0 {
        if j >= |before| {
          assert all[i] in before;
        }
      }
    }
  }

  /** Whatever order the ten requests complete in, the sorted results are the truthy
      answers in ascending page order. */
  lemma PageOrder(net: Net, room: nat, order: seq<nat>)
    requires multiset(order) == multiset(Range(PAGES))
    ensures SortByPage(Collected(net, room, order)) == Collected(net, room, Range(PAGES))
  {
    SortByPageSorted(Collected(net, room, order));
    SortByPagePermutes(Collected(net, room, order));
    CollectedPermutation(net, room, order, Range(PAGES));
    AscendingStrict(net, room, PAGES);
    SortedUnique(SortByPage(Collected(net, room, order)), Collected(net, room, Range(PAGES)));
  }

  // ---------------------------------------------------------------------------
  // Writing the proposals

  /** The rows written after the header, the keys in `unique_proposals`, and whether
      an exception ended the script (the rows written before it stay in the file). */
  datatype Csv = Csv(rows: seq<seq<Json>>, seen: set<Key>, crashed: bool)

  /** The row of an element of `proposals`. */
  function CellsOf(p: Json): seq<Json> {
    FullCells(if p.JObj? then p.fields else [])
  }

  /** The rows of a list of proposals, in order. */
  function Rows(ps: seq<Json>): seq<seq<Json>>
    decreases |ps|
  {
    if ps == [] then [] else Rows(ps[..|ps| - 1]) + [CellsOf(ps[|ps| - 1])]
  }

  /** One turn of the loop in `write_proposals_to_csv`: an element that is not a dict
      and a key that cannot be built raise; a known key is skipped; a new key is
      recorded and then the row is built, which raises for a creator or currency
      that is not a dict. */
  function WriteOne(w: Csv, p: Json): Csv
    requires !w.crashed
  {
    if !p.JObj? || KeyRaises(p.fields) then w.(crashed := true)
    else
      var key := KeyOf(p);
      if key in w.seen then w
      else if RowRaises(p.fields) then Csv(w.rows, w.seen + {key}, true)
      else Csv(w.rows + [CellsOf(p)], w.seen + {key}, false)
  }

  /** `write_proposals_to_csv(writer, ps)`, stopping at the first exception. */
  function WriteAll(w: Csv, ps: seq<Json>): (r: Csv)
    requires !w.crashed
    ensures w.rows <= r.rows && |r.rows| <= |w.rows| + |ps|
    ensures w.seen <= r.seen
    decreases |ps|
  {
    if ps == [] then w
    else
      var before := WriteAll(w, ps[..|ps| - 1]);
      if before.crashed then before else WriteOne(before, ps[|ps| - 1])
  }

  /** The loop stops at its first exception: what follows is never read. */
  lemma {:induction false} WriteAllStops(w: Csv, ps: seq<Json>, i: nat)
    requires !w.crashed && i <= |ps| && WriteAll(w, ps[..i]).crashed
    ensures WriteAll(w, ps) == WriteAll(w, ps[..i])
    decreases |ps|
  {
    if i == |ps| {
      assert ps[..i] == ps;
    } else {
      var init := ps[..|ps| - 1];
      assert init[..i] == ps[..i];
      WriteAllStops(w, init, i);
    }
  }

  lemma RowsSnoc(ps: seq<Json>, p: Json)
    ensures Rows(ps + [p]) == Rows(ps) + [CellsOf(p)]
  {
    assert (ps + [p])[..|ps|] == ps;
  }

  /** A write that does not raise keeps the file for a seen key and adds the row
      otherwise. */
  lemma WriteOneKept(before: Csv, p: Json)
    requires !before.crashed && !WriteOne(before, p).crashed
    ensures WriteOne(before, p) ==
      if KeyOf(p) in before.seen then before
      else Csv(before.rows + [CellsOf(p)], before.seen + {KeyOf(p)}, false)
  {
  }

  /** A proposal whose key is new extends the rows by its own. */
  lemma WriteNewKey(w: Csv, init: seq<Json>, p: Json)
    requires KeyOf(p) !in w.seen + KeySet(init, KeyOf)
    ensures Csv(w.rows + Rows(Dedupe(init, KeyOf, w.seen)) + [CellsOf(p)], w.seen + KeySet(init, KeyOf) + {KeyOf(p)}, false) ==
      Csv(w.rows + Rows(Dedupe(init + [p], KeyOf, w.seen)), w.seen + KeySet(init + [p], KeyOf), false)
  {
    var d := Dedupe(init, KeyOf, w.seen);
    DedupeSnocNew(init, p, KeyOf, w.seen);
    RowsSnoc(d, p);
    AppendAssoc(w.rows, Rows(d), [CellsOf(p)]);
  }

  /** One more proposal continues the dedupe of the ones before it. */
  lemma WriteStep(w: Csv, before: Csv, init: seq<Json>, p: Json)
    requires !before.crashed
    requires before == Csv(w.rows + Rows(Dedupe(init, KeyOf, w.seen)), w.seen + KeySet(init, KeyOf), false)
    ensures !WriteOne(before, p).crashed ==>
      WriteOne(before, p) == Csv(w.rows + Rows(Dedupe(init + [p], KeyOf, w.seen)), w.seen + KeySet(init + [p], KeyOf), false)
  {
    if !WriteOne(before, p).crashed {
      WriteOneKept(before, p);
      if KeyOf(p) in before.seen {
        DedupeSnocSeen(init, p, KeyOf, w.seen);
      } else {
        WriteNewKey(w, init, p);
      }
    }
  }

  /** A call that does not raise writes the row of each proposal whose key is new, in
      order, once per key, and records the key of every proposal. */
  lemma {:induction false} WriteAllDedupe(w: Csv, ps: seq<Json>)
    requires !w.crashed
    ensures !WriteAll(w, ps).crashed ==>
      WriteAll(w, ps) == Csv(w.rows + Rows(Dedupe(ps, KeyOf, w.seen)), w.seen + KeySet(ps, KeyOf), false)
    decreases |ps|
  {
    if ps != [] {
      WriteAllDedupe(w, ps[..|ps| - 1]);
      var before := WriteAll(w, ps[..|ps| - 1]);
      if !before.crashed {
        WriteStep(w, before, ps[..|ps| - 1], ps[|ps| - 1]);
        SplitLast(ps);
      }
    }
  }

  /** A write that raises adds no row. */
  lemma WriteOneCrashRows(before: Csv, p: Json)
    requires !before.crashed && WriteOne(before, p).crashed
    ensures WriteOne(before, p).rows == before.rows
  {
  }

  /** The last proposal raising leaves the rows of the ones before it. */
  lemma WriteAllCrashLast(w: Csv, ps: seq<Json>)
    requires !w.crashed && ps != [] && !WriteAll(w, ps[..|ps| - 1]).crashed && WriteAll(w, ps).crashed
    ensures WriteAll(w, ps).rows == w.rows + Rows(Dedupe(ps[..|ps| - 1], KeyOf, w.seen))
  {
    WriteAllDedupe(w, ps[..|ps| - 1]);
    WriteOneCrashRows(WriteAll(w, ps[..|ps| - 1]), ps[|ps| - 1]);
  }

  /** An earlier exception leaves the rows as they were at that exception. */
  lemma WriteAllCrashEarlier(w: Csv, ps: seq<Json>, k: nat)
    requires !w.crashed && ps != [] && k < |ps| - 1 && WriteAll(w, ps[..|ps| - 1]).crashed
    requires WriteAll(w, ps[..|ps| - 1]).rows == w.rows + Rows(Dedupe(ps[..|ps| - 1][..k], KeyOf, w.seen))
    ensures WriteAll(w, ps).rows == w.rows + Rows(Dedupe(ps[..k], KeyOf, w.seen))
  {
    assert WriteAll(w, ps) == WriteAll(w, ps[..|ps| - 1]);
    DedupeTakeTake(ps, |ps| - 1, k, KeyOf, w.seen);
  }

  /** A call that raises has written, before the exception, the rows the dedupe of the
      proposals before the failing one keeps. */
  lemma {:induction false} WriteAllCrash(w: Csv, ps: seq<Json>) returns (k: nat)
    requires !w.crashed && WriteAll(w, ps).crashed
    ensures k < |ps| && WriteAll(w, ps).rows == w.rows + Rows(Dedupe(ps[..k], KeyOf, w.seen))
    decreases |ps|
  {
    assert ps != [];
    if WriteAll(w, ps[..|ps| - 1]).crashed {
      k := WriteAllCrash(w, ps[..|ps| - 1]);
      assert |ps[..|ps| - 1]| == |ps| - 1;
      WriteAllCrashEarlier(w, ps, k);
    } else {
      k := |ps| - 1;
      WriteAllCrashLast(w, ps);
    }
  }

  /** Every call writes at most one row per proposal; one that does not raise writes
      one row per key that was new, so rows written plus proposals skipped is the
      number of proposals. */
  lemma WriteAllCount(w: Csv, ps: seq<Json>)
    requires !w.crashed
    ensures |WriteAll(w, ps).rows| <= |w.rows| + |ps|
    ensures !WriteAll(w, ps).crashed ==> |WriteAll(w, ps).rows| == |w.rows| + |KeySet(ps, KeyOf) - w.seen|
  {
    if WriteAll(w, ps).crashed {
      var k := WriteAllCrash(w, ps);
      DedupeKeys(ps[..k], KeyOf, w.seen);
      RowsLength(Dedupe(ps[..k], KeyOf, w.seen));
    } else {
      WriteAllDedupe(w, ps);
      DedupeKeys(ps, KeyOf, w.seen);
      DedupeCount(ps, KeyOf, w.seen);
      RowsLength(Dedupe(ps, KeyOf, w.seen));
    }
  }

  lemma {:induction false} RowsLength(ps: seq<Json>)
    ensures |Rows(ps)| == |ps|
    decreases |ps|
  {
    if ps != [] {
      RowsLength(ps[..|ps| - 1]);
    }
  }

  /** One page of the final loop: `json_response.get('data', {}).get('proposals', [])`
      raises for a response or `data` that is not a dict; a falsy value is skipped
      with nothing written; a value that is not iterable raises. */
  function WritePageSpec(w: Csv, j: Json): Csv
    requires !w.crashed
  {
    match j
    case JObj(f) =>
      (match Get(f, "data", JObj([]))
       case JObj(d) =>
         var ps := Get(d, "proposals", JArr([]));
         if !Truthy(ps) then w
         else
           (match Iter(ps)
            case Some(es) => WriteAll(w, es)
            case None => w.(crashed := true))
       case _ => w.(crashed := true))
    case _ => w.(crashed := true)
  }

  /** The final loop over the sorted results, stopping at the first exception. */
  function ExportSpec(w: Csv, results: seq<(nat, Json)>): Csv
    requires !w.crashed
    decreases |results|
  {
    if results == [] then w
    else
      var before := ExportSpec(w, results[..|results| - 1]);
      if before.crashed then before else WritePageSpec(before, results[|results| - 1].1)
  }

  lemma {:induction false} ExportStops(w: Csv, rs: seq<(nat, Json)>, i: nat)
    requires !w.crashed && i <= |rs| && ExportSpec(w, rs[..i]).crashed
    ensures ExportSpec(w, rs) == ExportSpec(w, rs[..i])
    decreases |rs|
  {
    if i == |rs| {
      assert rs[..i] == rs;
    } else {
      var init := rs[..|rs| - 1];
      assert init[..i] == rs[..i];
      ExportStops(w, init, i);
    }
  }

  /** A page whose proposals list is empty or missing writes nothing. */
  lemma EmptyPageSkipped(w: Csv, data: Fields)
    requires !w.crashed
    requires !HasKey(data, "proposals") || Get(data, "proposals", JArr([])) == JArr([])
    ensures WritePageSpec(w, JObj([("data", JObj(data))])) == w
  {
    GetHead("data", JObj(data), [], "data", JObj([]));
  }

  /** The module-level CSV writer and `unique_proposals` set. */
  class ProposalCsv {
    var rows: seq<seq<Json>>
    var uniqueProposals: set<Key>

    constructor ()
      ensures rows == [] && uniqueProposals == {}
    {
      rows := [];
      uniqueProposals := {};
    }

    /** `write_proposals_to_csv`. */
    method WriteProposals(proposals: seq<Json>) returns (crashed: bool)
      modifies this
      ensures Csv(rows, uniqueProposals, crashed) == WriteAll(Csv(old(rows), old(uniqueProposals), false), proposals)
    {
      ghost var start := Csv(rows, uniqueProposals, false);
      var i := 0;
      while i < |proposals|
        invariant 0 <= i <= |proposals|
        invariant Csv(rows, uniqueProposals, false) == WriteAll(start, proposals[..i])
      {
        var proposal := proposals[i];
        assert proposals[..i + 1][..i] == proposals[..i];
        if !proposal.JObj? || KeyRaises(proposal.fields) {
          WriteAllStops(start, proposals, i + 1);
          return true;
        }
        var key := KeyOf(proposal);
        if key in uniqueProposals {
          i := i + 1;
          continue;
        }
        uniqueProposals := uniqueProposals + {key};
        if RowRaises(proposal.fields) {
          WriteAllStops(start, proposals, i + 1);
          return true;
        }
        rows := rows + [CellsOf(proposal)];
        i := i + 1;
      }
      assert proposals[..i] == proposals;
      crashed := false;
    }

    /** One page of the final loop. */
    method WritePage(json: Json) returns (crashed: bool)
      modifies this
      ensures Csv(rows, uniqueProposals, crashed) == WritePageSpec(Csv(old(rows), old(uniqueProposals), false), json)
    {
      if !json.JObj? {
        return true;
      }
      var data := Get(json.fields, "data", JObj([]));
      if !data.JObj? {
        return true;
      }
      var proposals := Get(data.fields, "proposals", JArr([]));
      if !Truthy(proposals) {
        return false;
      }
      var entries := Iter(proposals);
      if entries.None? {
        return true;
      }
      crashed := WriteProposals(entries.value);
    }

    /** The loop over the sorted results. */
    method WriteResults(results: seq<(nat, Json)>) returns (crashed: bool)
      modifies this
      ensures Csv(rows, uniqueProposals, crashed) == ExportSpec(Csv(old(rows), old(uniqueProposals), false), results)
    {
      ghost var start := Csv(rows, uniqueProposals, false);
      var k := 0;
      while k < |results|
        invariant 0 <= k <= |results|
        invariant Csv(rows, uniqueProposals, false) == ExportSpec(start, results[..k])
      {
        assert results[..k + 1][..k] == results[..k];
        crashed := WritePage(results[k].1);
        if crashed {
          ExportStops(start, results, k + 1);
          return;
        }
        k := k + 1;
      }
      assert results[..k] == results;
      crashed := false;
    }

    /** The script: the ten requests complete in the order `order`; the truthy answers
        are collected, sorted by page and written. Whatever the order, the file gets
        the pages in ascending order. */
    method Export(net: Net, room: nat, order: seq<nat>) returns (crashed: bool)
      requires multiset(order) == multiset(Range(PAGES))
      modifies this
      ensures Csv(rows, uniqueProposals, crashed) ==
        ExportSpec(Csv(old(rows), old(uniqueProposals), false), Collected(net, room, Range(PAGES)))
    {
      var results := Gather(net, room, order);
      PageOrder(net, room, order);
      results := SortByPage(results);
      crashed := WriteResults(results);
    }
  }

  /** The `as_completed` loop: the pages answer in the order `order`, and the truthy
      answers are appended with their page. */
  method Gather(net: Net, room: nat, order: seq<nat>) returns (results: seq<(nat, Json)>)
    ensures results == Collected(net, room, order)
  {
    results := [];
    var i := 0;
    while i < |order|
      invariant 0 <= i <= |order|
      invariant results == Collected(net, room, order[..i])
    {
      var page := order[i];
      assert order[..i + 1][..i] == order[..i];
      var answer := FetchProposals(net, page, 0, room).answer;
      if answer.Value? && Truthy(answer.json) {
        results := results + [(page, answer.json)];
      }
      i := i + 1;
    }
    assert order[..i] == order;
  }
}
