# Messier platform export scripts, modelled in Dafny

The repository is a set of scripts. Each one calls an endpoint of the Messier platform
API and writes what it gets back as CSV or JSON. This project models the logic of the
scripts that page, retry, flatten, deduplicate and order records:

- **Transactions** (`txs/txs.py`): for every service, page through the transaction
  endpoint with a bounded retry loop. Each transaction's `trxData` entries are
  flattened into one row per token. A row whose (hash, address, contract, symbol) key
  was already seen anywhere in the run is dropped. A service stops at its last page
  or after a page that adds no row.
- **Permissions**, blocking (`virgopaginatedcsv.py`) and asynchronous
  (`virgo/virgopaginatedcsv.py`): pages of users are fetched until one is empty. Each
  page retries up to six attempts, and a rate-limit message "Retry after: N seconds"
  is read as an N-second wait. One row is kept per user address.
- **Proposals**, paginated (`proposals/proposalscsv.py`): pages 1 to 10 are requested
  side by side. The truthy answers are sorted by page, and each page's proposals are
  written unless their weak key `(status, state, title, len(approves))` was seen.
  The single-page exporter (`proposalscsv.py`) writes one eleven-column row per
  proposal.
- **Fees** (`fees/fees.py`): one row per fee item, per service.
- **Cycles** (`cycles/cyclescsv.py`): `transform_data`, which renames three counters.
- **Investments** (`investments/main.py`): one `token, value_staked` row.
- **Statistics** (`main.py`): a class that sorts its data in place and answers count,
  min, max, sum, range and median.

Python's behaviour on JSON values is modelled explicitly (module `PyJson`):

- `dict.get` with a default, truthiness, `len`, iteration and hashability;
- `int()` on text (with CPython's 4300-digit limit), `str.split`/`strip` with
  Python's whitespace, and `str()`/`repr()` of a value;
- the range of waits `time.sleep` and `asyncio.sleep` accept;
- the key a value has as a set member, where `True` equals `1` and `False` equals `0`;
- every uncaught exception, as an outcome of its own (`Raised`, `Crash`, `Abort`,
  `None`).

The network is a function parameter: the answer to the a-th request for a page.
Sleeps are returned as the list of waits taken.

Module layout:

- `pyjson.dfy`, `http.dfy`: shared foundations.
- `dedupe.dfy`: the keyed "skip if seen, else record and append" loop that four
  scripts share.
- `permissions*.dfy`, `txs.dfy`, `proposal_rows.dfy`, `proposals*.dfy`, `fees.dfy`,
  `cycles.dfy`, `investments.dfy`, `statistics.dfy`: one module per script.

Module-level lists and sets that the scripts mutate are fields of classes
(`UserTable`, `Collector`, `ProposalCsv`, `FeeList`). Their methods are proved
against specification functions, and lemmas state what the source promises about
those functions.

## Model

| member | source | states |
|---|---|---|
| PyJson.FirstKeyMeaning | virgopaginatedcsv.py:100-116 | `dict.get` reads the first binding of a key: no earlier field has the key, and the found field does |
| PyJson.GetHead | virgopaginatedcsv.py:100-101 | reading a dict that starts with a given key yields that key's value, otherwise the rest's |
| PyJson.DictsOfMeaning | virgopaginatedcsv.py:99-100 | iterating `users` and calling `.get` on each entry succeeds exactly for a list of dicts, or for an empty dict or empty string (which iterate to nothing) |
| PyJson.Iter | proposals/proposalscsv.py:54 | a value can be iterated exactly when it has a `len`, and the iteration has that many elements |
| PyJson.Len | proposals/proposalscsv.py:59 | `len` is defined exactly on strings, lists and dicts |
| PyJson.TryMapAll | txs/txs.py:85-113 | a loop that raises on some elements completes exactly when no element raises, giving the result of every element in order |
| PyJson.TryEachPrefix | proposalscsv.py:65-94 | a loop stopped by an exception has handled a prefix of its input; it raised exactly when that prefix is shorter than the input, and then on the first element left |
| PyJson.TryEachStops | proposalscsv.py:65-94 | elements after the first that raises are never read |
| PyJson.ParseIntRoundTrip | virgopaginatedcsv.py:56 | `int()` reads back the decimal text of every integer of at most 4300 digits, and raises on a longer one |
| PyJson.NoDigitsParse | virgopaginatedcsv.py:56 | `int()` rejects text that contains no digit |
| PyJson.HashKeyMeaning | txs/txs.py:91-98 | two values are the same set member exactly when they are equal, or one is a boolean and the other the integer it equals |
| PyJson.StrQuotesOnlyNested | proposals/proposalscsv.py:88 | `str()` leaves a string bare but quotes it inside a list; an empty list is `[]` |
| PyJson.LStripPrefix | virgopaginatedcsv.py:56 | stripping the left end removes a whitespace prefix and stops at the first character that is not whitespace |
| PyJson.RStripSuffix | virgopaginatedcsv.py:56 | stripping the right end removes a whitespace suffix and stops at the last character that is not whitespace |
| PyJson.StripSpaces | virgopaginatedcsv.py:56 | `strip()` removes any whitespace, in Python's sense, around text that has none at its ends |
| PyJson.StripPadded | virgopaginatedcsv.py:56 | `strip()` removes the single spaces around text that has none at its ends |
| PyJson.FindFromMeaning | virgopaginatedcsv.py:55-56 | a substring search returns the first occurrence at or after the start, or none when there is no occurrence |
| PyJson.BeforeAt | virgopaginatedcsv.py:56 | `split(pat)[0]` is the text before the first occurrence |
| PyJson.NoOccurrence | virgopaginatedcsv.py:56 | `split(pat)[0]` is the whole text when `pat` does not occur |
| KeyedDedupe.DedupeKeys | virgopaginatedcsv.py:103-117 | the kept rows are rows of the input, no more of them than the input has, with distinct keys; their keys are exactly the input's keys not seen before |
| KeyedDedupe.DedupeConcat | txs/txs.py:98-112 | deduplicating two batches one after the other, with the first batch's keys added to the seen set, is deduplicating them together |
| KeyedDedupe.DedupeFirstWins | virgopaginatedcsv.py:103-107 | the kept row of each key is its first occurrence |
| KeyedDedupe.DedupeCount | proposals/proposalscsv.py:64-69 | the number of kept rows is the number of new keys |
| KeyedDedupe.DedupeRepeat | virgopaginatedcsv.py:104-105 | a batch whose keys were all seen adds nothing |
| KeyedDedupe.AppendDedupe | virgopaginatedcsv.py:103-117 | rows with distinct keys stay distinct after new rows are appended, and the key set grows by the batch's keys |
| KeyedDedupe.DistinctKeysPairwise | virgopaginatedcsv.py:103-107 | "distinct keys" means that no two rows share a key |
| KeyedDedupe.DistinctKeysCard | virgopaginatedcsv.py:103-107 | rows with distinct keys have as many keys as rows |
| Permissions.CsvCells | virgopaginatedcsv.py:139-146 | `DictWriter` writes one cell per header column |
| Permissions.ColumnsDistinct | virgopaginatedcsv.py:139 | the header names no column twice |
| Permissions.RecordCell | virgopaginatedcsv.py:108-117 | column i of the appended dict is header column i, and the writer puts its value there |
| Permissions.RecordMatchesHeader | virgopaginatedcsv.py:108-117 | the written row holds the eight fields, in header order, dropping none |
| Permissions.DecodeEntryFields | virgopaginatedcsv.py:99-117 | an entry fails exactly when its `user` is not a dict or its address is unhashable; otherwise the row holds the user's four fields and the entry's four fields |
| Permissions.FedDedupe | virgopaginatedcsv.py:28-134 | feeding the pages one at a time through the entry loop is one dedupe, by address, of all their rows in page order |
| Permissions.RetryAfterCases | virgopaginatedcsv.py:51-56 | a text message without the marker waits 60 seconds; a null, boolean or number message raises; any other wait comes from a text holding the marker |
| Permissions.RetryAfterDefault | virgopaginatedcsv.py:51-55 | a message without the marker, or a missing message, waits 60 seconds |
| Permissions.RetryAfterSpaced | virgopaginatedcsv.py:55-56 | "Retry after:" then N padded with any whitespace then "seconds" waits N seconds when N has at most 4300 digits, and is a parse error otherwise |
| Permissions.RetryAfterMessage | virgopaginatedcsv.py:55-56 | "Retry after: N seconds" waits N seconds for every integer N of at most 4300 digits; a longer N is a parse error |
| Permissions.RetryAfterMalformed | virgopaginatedcsv.py:56 | a marker followed by a word that is not a number raises |
| Permissions.MarkerFirst | virgopaginatedcsv.py:56 | a message starting with the marker is parsed from the text after it |
| Permissions.SecondsSuffix | virgopaginatedcsv.py:56 | the text before "seconds" in N padded with whitespace then "seconds" is the padded N |
| Permissions.UserTable.constructor | virgopaginatedcsv.py:22-23 | the table starts with no rows and no seen addresses |
| Permissions.UserTable.ProcessUsers | virgopaginatedcsv.py:99-117 | the loop appends exactly the dedupe of the page's rows by address, and records every address (the table after is the table before fed the page); the table's invariant holds: seen addresses are the kept rows' addresses, each kept once |
| Permissions.FedNext | virgopaginatedcsv.py:28-134 | feeding one more page to the table of the pages so far gives the table of the pages up to it |
| PermissionsSync.RateLimitWaitMeaning | virgopaginatedcsv.py:47-66 | the 429 handler's wait (`RateLimitWait`) is always one `time.sleep` accepts: a readable wait in that range is slept, and every error in the handler (an unreadable body, `int` raising, `time.sleep` refusing a negative wait or one of 9223372037 seconds or more) sleeps 5 seconds |
| PermissionsSync.RateLimitAnnounced | virgopaginatedcsv.py:55-65 | "Retry after: N seconds" sleeps N seconds when `int` and `time.sleep` accept N, and 5 seconds otherwise |
| PermissionsSync.RateLimitMalformed | virgopaginatedcsv.py:56-65 | a word after the marker that is not a number sleeps 5 seconds |
| PermissionsSync.RateLimitDefault | virgopaginatedcsv.py:50-65 | no marker, or no message, sleeps 60 seconds; a body that is not JSON sleeps 5 |
| PermissionsSync.PageAttempts | virgopaginatedcsv.py:32-84 | a page takes at most MAX_RETRIES + 1 attempts and sleeps once per retried attempt; when all are retried the page is exhausted, otherwise the first attempt not retried decides it |
| PermissionsSync.RetryStep | virgopaginatedcsv.py:60-84 | a retried attempt records its wait and leaves the decision to the later attempts |
| PermissionsSync.DecidedStep | virgopaginatedcsv.py:86-123 | an attempt that is not retried decides the page, with no further sleep |
| PermissionsSync.FetchPage | virgopaginatedcsv.py:29-123 | the inner loop ends with the result, and the sleeps, of the attempt-by-attempt definition |
| PermissionsSync.FetchStep | virgopaginatedcsv.py:29-131 | one page of the outer loop yields what the page specification gives |
| PermissionsSync.Run | virgopaginatedcsv.py:28-134 | the loop stops at the first page that does not yield rows, aborting exactly when that page failed; the table then holds the dedupe of all earlier pages' rows, in page order |
| PermissionsAsync.PageAttempts | virgo/virgopaginatedcsv.py:30-65 | `fetch_page` makes at most MAX_RETRIES + 1 attempts, sleeping once per retry; when all are retried it returns `[]` |
| PermissionsAsync.RetryStep | virgo/virgopaginatedcsv.py:40-63 | a retried attempt records its wait and leaves the result to the later attempts |
| PermissionsAsync.DecidedStep | virgo/virgopaginatedcsv.py:55-57 | an attempt that returns decides the call, with no further sleep |
| PermissionsAsync.RateLimitAnnounced | virgo/virgopaginatedcsv.py:40-48 | 429 and 400 alike: "Retry after: N seconds" retries after N seconds when N has at most 4300 digits and is below the float limit of `asyncio.sleep`; any other N raises out of the export |
| PermissionsAsync.ContentTypeRaises | virgo/virgopaginatedcsv.py:39-63 | an answer whose body is read under a content type that is not JSON raises out of the export; a 200 body that is not JSON under a JSON content type is retried |
| PermissionsAsync.RateLimitMalformed | virgo/virgopaginatedcsv.py:44 | a word after the marker that is not a number raises out of the export |
| PermissionsAsync.RateLimitDefault | virgo/virgopaginatedcsv.py:41-43 | no marker, or no message, waits 60 seconds; a body that is not JSON raises |
| PermissionsAsync.FetchPage | virgo/virgopaginatedcsv.py:30-65 | the retry loop ends with the result, and the sleeps, of the attempt-by-attempt definition |
| PermissionsAsync.ExhaustedStops | virgo/virgopaginatedcsv.py:64-73 | a page whose attempts are all retried sleeps six times and ends the export |
| PermissionsAsync.UsersOfBody | virgo/virgopaginatedcsv.py:57 | `{"data": {"users": u}}` returns `u` |
| PermissionsAsync.FirstAnswerRows | virgo/virgopaginatedcsv.py:71-90 | a first answer of 200 with truthy users, all well formed, yields those users' rows |
| PermissionsAsync.FetchStep | virgo/virgopaginatedcsv.py:71-90 | one page of `main` yields what the page specification gives |
| PermissionsAsync.Run | virgo/virgopaginatedcsv.py:67-92 | `main` stops at the first page without rows, aborting exactly when an exception escaped; the table holds the dedupe of the earlier pages' rows, in page order |
| Txs.DecodeItem | txs/txs.py:85-96 | an item that cannot be visited has a truthy `trxData`; a visited item keeps its hash, address, type and timestamp |
| Txs.BoolHashRepeats | txs/txs.py:91-100 | a row whose hash is `true` repeats a row whose hash is 1, all else equal, and is dropped |
| Txs.DecodeItemFields | txs/txs.py:85-96 | an item without a truthy `trxData` has no tokens; a decoded item keeps its hash and address and one token per entry, in order |
| Txs.TokenRowsStep | txs/txs.py:90-111 | the rows of an item grow token by token |
| Txs.FlattenRows | txs/txs.py:85-111 | flattening gives one row per token entry, each built from its item and token with the page's service |
| Txs.FlattenStep | txs/txs.py:85-111 | the rows of a page grow item by item |
| Txs.PageStep | txs/txs.py:85-113 | deduplicating one more item's rows extends the dedupe of the page so far |
| Txs.EmptyItemAddsNothing | txs/txs.py:86-88 | an item without token entries adds no rows |
| Txs.MaxPages | txs/txs.py:79 | a total of 0 gives one page; a positive total gives the least page count covering it at 100 per page; a negative total gives no page beyond the first |
| Txs.DecodePage | txs/txs.py:47-59 | a body that is not a dict raises; a dict without `data` gives no items and total 0; a read page came from a dict whose `data` is a dict |
| Txs.DecodePageBody | txs/txs.py:47-59 | a 200 body's total is its `int()` value, 0 on a ValueError; a TypeError escapes |
| Txs.TotalParsing | txs/txs.py:51-57 | a total sent as number text is read as that number, or as 0 when it has more than 4300 digits; text that is not a number is read as 0 |
| Txs.MissingTotal | txs/txs.py:51 | a body without a total has total 0 |
| Txs.RetryStep | txs/txs.py:39-46 | a retried attempt leaves the result to the later attempts |
| Txs.DecidedStep | txs/txs.py:47-63 | an attempt that is not retried decides the call: a 200 JSON body is returned, a content type that is not JSON raises |
| Txs.ContentTypeRaises | txs/txs.py:47-63 | a 200 answer whose content type is not JSON makes `fetch_page` raise; a body that is not JSON under a JSON content type is retried |
| Txs.FirstAnswerDecided | txs/txs.py:31-63 | after retried attempts, the first attempt not retried decides: a 200 JSON body is read, a content type that is not JSON raises |
| Txs.FirstAnswerExhausted | txs/txs.py:31-65 | when every attempt is retried, `fetch_page` returns `([], 0)` |
| Txs.FetchPage | txs/txs.py:25-65 | the retry loop returns what the attempt-by-attempt definition gives |
| Txs.PagesNone | txs/txs.py:85-113 | a page whose items cannot be visited aborts the run with no rows read |
| Txs.PagesLast | txs/txs.py:81-123 | at the page count, after a page that adds nothing, or when the next fetch raises, the loop ends with this page's rows; it completes unless the fetch raised |
| Txs.PagesNext | txs/txs.py:81-123 | otherwise the loop reads this page's rows and then the loop from the next page, with this page's keys seen |
| Txs.PagesBound | txs/txs.py:81-119 | the loop reads at most max(1, max_pages - page + 1) pages; none exactly when the page in hand cannot be visited; at least one when it completes |
| Txs.SeenPageStops | txs/txs.py:98-119 | a page all of whose rows repeat seen keys ends the loop, completed |
| Txs.PagesService | txs/txs.py:81-113 | every row the loop reads carries the service |
| Txs.ServicePagesService | txs/txs.py:69-123 | every row of one service's pages carries that service |
| Txs.RunServices | txs/txs.py:67-123 | a run reads rows of the services asked for only |
| Txs.RunStep | txs/txs.py:69-123 | after one more service, the stored rows are the dedupe of the services so far; an abort ends the run there, otherwise the rest of the run follows |
| Txs.RunOrdered | txs/txs.py:67-123 | the rows read from position i of SERVICES on come grouped by service, in SERVICES order, all of services from i on |
| Txs.RunKeptOrdered | txs/txs.py:67-123 | the kept rows of a run stay grouped by service in SERVICES order, and belong to listed services |
| KeyedDedupe.DedupeKeepsOrder | txs/txs.py:98-113 | dropping repeated keys keeps rows sorted by any rank that sorted them |
| Txs.Rank | txs/txs.py:17 | the position of a service in SERVICES, which is below the list's length exactly for the listed services |
| Txs.Collector.constructor | txs/txs.py:22-23 | the run starts with no rows and no seen keys |
| Txs.Collector.ProcessItem | txs/txs.py:90-113 | the token loop appends the dedupe of the item's rows, records their keys, counts the added rows, and tags them with the service |
| Txs.Collector.ProcessPage | txs/txs.py:82-113 | the page loop appends the dedupe of the page's flattened rows against every key seen in the run, and `new_count` is the number of rows added |
| Txs.Collector.HandlePage | txs/txs.py:82-113 | the page is handled exactly when its items can be visited, and otherwise nothing changes; a handled page appends the dedupe of its flattened rows and records their keys; `new_count` is the number of rows added, all tagged with the service |
| Txs.Collector.LoopPass | txs/txs.py:81-122 | one pass stores the dedupe of the page's rows; when the loop goes on, the page was below the count and the loop's rows are this page's followed by those of the loop from the next page; otherwise they are this page's, with the pass's outcome |
| Txs.Collector.PageLoop | txs/txs.py:81-123 | the rows and keys stored, and the outcome, are those of the page loop's definition from page 1: the dedupe of every page read until the count, a page adding nothing, or an exception |
| Txs.Collector.RunService | txs/txs.py:69-123 | the rows, keys and outcome of one service are those its definition gives (an exception on page 1 aborts, falsy items on page 1 skip the service, otherwise the page loop with `ceil(total / 100)` pages); every added row carries the service |
| Txs.Collector.Run | txs/txs.py:67-123 | the rows, keys and outcome are those of the run over SERVICES, which aborts exactly when a service aborts; the added rows come out grouped by service in SERVICES order, each of a listed service, and no key is kept twice |
| ProposalRows.BaseCells | proposalscsv.py:65-94 | one cell per column of the single-page header, the signers cell being text |
| ProposalRows.FullCells | proposals/proposalscsv.py:53-100 | one cell per header column; the cycle cell is the proposal's `cycle` (default "") and the approvals cell is text |
| ProposalRows.CellsFollowHeader | proposals/proposalscsv.py:96-100 | each row has one cell per header column, and the single-page row is the paginated row without its last two cells |
| ProposalRows.HeadersAgree | proposalscsv.py:59-62 | the two headers agree on the shared columns except for the spelling `votetype` against `voteType` |
| ProposalRows.EmptyProposalDefaults | proposals/proposalscsv.py:55-93 | an empty proposal gets "" for the text and nested fields, 0 needed signatures, and "[]" for the signers and approvals |
| ProposalRows.SignersKeyMisspelt | proposals/proposalscsv.py:87-88 | signers are read from the key "singers" only: a proposal holding only "signers" gets "[]"; the cell is `str()` of the value, so a string is written bare |
| ProposalRows.NullNestedRaises | proposals/proposalscsv.py:77-84 | a creator or currency given as null raises, unlike a missing one |
| ProposalRows.KeyOfRow | proposals/proposalscsv.py:55-62 | the key is the set-member form of the row's first three cells and the number of approvals |
| ProposalRows.KeyIsWeak | proposals/proposalscsv.py:62 | proposals that differ only in type and cycle share a key |
| ProposalRows.BoolStatusIsInt | proposals/proposalscsv.py:62-65 | a status of `True` or `False` gives the same key as 1 or 0 |
| Proposals.FetchProposals | proposals/proposalscsv.py:31-51 | every wait slept is one `time.sleep` accepts (from 0 to 9223372036 seconds), and there is at most one more than the recursion room |
| Proposals.FetchDecided | proposals/proposalscsv.py:41-51 | an answer that is not a 429 decides the call with no sleep: None for a failing status or a body that is not JSON, the body otherwise |
| Proposals.RateLimitRun | proposals/proposalscsv.py:35-39 | a run of 429 answers whose waits `int` reads and `time.sleep` accepts is slept through, one header wait after another, and the call ends as the request after the run does |
| Proposals.RetryAfterHeader | proposals/proposalscsv.py:36 | a missing `Retry-After` waits 30 seconds, and a number N waits N when it has at most 4300 digits; a longer one makes `int` raise |
| Proposals.SleepRefused | proposals/proposalscsv.py:35-39 | a 429 whose header `int` cannot read, or whose wait `time.sleep` refuses, makes the call raise at once |
| Proposals.DateHeaderRaises | proposals/proposalscsv.py:36 | a header in HTTP-date form makes `int` raise |
| Proposals.SortByPageSorted | proposals/proposalscsv.py:137 | the sort orders the results by page |
| Proposals.SortByPagePermutes | proposals/proposalscsv.py:137 | the sort keeps exactly the results it was given |
| Proposals.InsertSorted | proposals/proposalscsv.py:137 | inserting into a sorted list keeps it sorted and adds one entry |
| Proposals.SortedUnique | proposals/proposalscsv.py:137 | a sorted list with the same entries as a strictly sorted one is that list |
| Proposals.CollectedPermutation | proposals/proposalscsv.py:127-132 | the collected results depend on which pages completed, not on the completion order |
| Proposals.CollectedPages | proposals/proposalscsv.py:127-132 | every collected result belongs to a requested page |
| Proposals.AscendingStrict | proposals/proposalscsv.py:124-132 | collecting pages 1 to n in order gives results in strictly ascending page order, within 1..n |
| Proposals.PageOrder | proposals/proposalscsv.py:124-137 | whatever order the ten requests complete in, the sorted results are the truthy answers in ascending page order |
| Proposals.WriteAll | proposals/proposalscsv.py:53-100 | the loop only appends rows, at most one per proposal, and only adds keys |
| Proposals.WriteAllStops | proposals/proposalscsv.py:54-100 | the loop stops at its first exception, and later proposals are never read |
| Proposals.WriteAllDedupe | proposals/proposalscsv.py:53-100 | a call that does not raise writes the row of each proposal whose key is new, in order, once per key, and records every key |
| Proposals.WriteAllCrash | proposals/proposalscsv.py:53-100 | a call that raises has written the rows of the deduplicated proposals before the failing one |
| Proposals.WriteAllCount | proposals/proposalscsv.py:53-100 | at most one row per proposal; without an exception, one row per new key |
| Proposals.ExportStops | proposals/proposalscsv.py:139-146 | the final loop stops at its first exception |
| Proposals.EmptyPageSkipped | proposals/proposalscsv.py:140-143 | a page whose proposals are empty or missing writes nothing |
| Proposals.ProposalCsv.constructor | proposals/proposalscsv.py:26 | the exporter starts with no rows and no seen keys |
| Proposals.ProposalCsv.WriteProposals | proposals/proposalscsv.py:53-100 | the rows, keys and exception match the loop's definition, whose dedupe properties the lemmas state |
| Proposals.ProposalCsv.WritePage | proposals/proposalscsv.py:139-146 | one page of the final loop matches its definition |
| Proposals.ProposalCsv.WriteResults | proposals/proposalscsv.py:139-146 | the loop over the sorted results matches its definition |
| Proposals.ProposalCsv.Export | proposals/proposalscsv.py:121-146 | whatever the completion order, the file gets the truthy pages in ascending page order, deduplicated by key |
| Proposals.Gather | proposals/proposalscsv.py:124-134 | the `as_completed` loop collects the truthy answers with their pages, in completion order |
| ProposalsSingle.OneRowPerProposal | proposalscsv.py:65-94 | a loop that does not raise writes one row per proposal, each the proposal's eleven cells |
| ProposalsSingle.Export | proposalscsv.py:24-94 | the script's run (exit, exception before the file, or the file's rows and count) is the one its definition gives |
| ProposalsSingle.NoFileExits | proposalscsv.py:26-48 | a failing status, a body that is not JSON, and no proposals or an empty list all exit without a file |
| ProposalsSingle.RaisedRows | proposalscsv.py:65-94 | a loop that raises has written the rows of the proposals before the first that raises |
| ProposalsSingle.OnlyListsComplete | proposalscsv.py:65-109 | a loop over something other than a list never completes, because its elements are not dicts |
| ProposalsSingle.ExportedRows | proposalscsv.py:54-109 | with truthy proposals a file is written; a completed run holds one row per proposal and reports `len(proposals)`; a run that raised holds the rows before the failing proposal |
| Fees.FetchData | fees/fees.py:14-20 | a failing status gives an empty list; a 200 body that is not JSON raises, and only a 200 answer can raise |
| Fees.AllRowsSnoc | fees/fees.py:24-33 | the rows of the services are the rows of all but the last, followed by the last's |
| Fees.NonOkAddsNothing | fees/fees.py:16-20 | a failing status adds no rows |
| Fees.ServiceRowsInOrder | fees/fees.py:26-33 | a service gives one row per item, in order, each with the item's network, symbol and value |
| Fees.ContractDefault | fees/fees.py:28-32 | a missing contract is written as the text "null"; an explicit null stays null |
| Fees.OneRowPerItem | fees/fees.py:24-33 | the list holds one row per item over all services |
| Fees.RowsForConcat | fees/fees.py:24-33 | the rows of one app in two lists appended are its rows in each |
| Fees.RowsForUniform | fees/fees.py:29 | every row of a service carries that service as its app |
| Fees.AppsAsked | fees/fees.py:24-29 | every row's app is one of the services asked for |
| Fees.RowsForAbsent | fees/fees.py:24-29 | a service not asked for has no rows |
| Fees.RowsByService | fees/fees.py:24-33 | the rows of a service are exactly what its own fetch gave, in order |
| Fees.ServicesDistinct | fees/fees.py:10 | the service list has no repeats |
| Fees.AllRowsStops | fees/fees.py:17-33 | an exception in one service ends the whole run |
| Fees.FeeList.constructor | fees/fees.py:23 | the list starts empty |
| Fees.FeeList.AddService | fees/fees.py:25-33 | one service succeeds exactly when its rows can be built, and then appends them |
| Fees.FeeList.Collect | fees/fees.py:23-33 | the run raises exactly when some service's rows cannot be built; otherwise it appends every service's rows, in SERVICES order |
| Cycles.TransformData | cycles/cyclescsv.py:35-44 | a mapping is empty, or holds the three renamed counters in order; it is empty exactly when the response has no "data" |
| Cycles.NoDataGivesEmpty | cycles/cyclescsv.py:37-44 | a response without "data" gives an empty mapping |
| Cycles.RenamedCounters | cycles/cyclescsv.py:37-43 | a dict "data" gives the three renamed counters, each with its default of 0 |
| Cycles.EmptyDataGivesZeros | cycles/cyclescsv.py:40-42 | an empty "data" gives three zeros |
| Cycles.NonDictDataRaises | cycles/cyclescsv.py:38-40 | a "data" that is not a dict raises |
| Cycles.OtherShapes | cycles/cyclescsv.py:37-38 | `in` on a list or string tests membership or substring; a number or null raises |
| Investments.Main | investments/main.py:34-69 | no data read writes nothing; a saved run has a header and one row, and a one-element JSON array |
| Investments.OneRow | investments/main.py:48-69 | a saved run writes a header and one row, and a one-element JSON array; the row's token is "mtt" and its value is the staked value read |
| Investments.ValuePresent | investments/main.py:43-48 | the staked value is `mttRawValue` under data.virgo |
| Investments.MissingValueIsZero | investments/main.py:43-48 | a missing data, virgo or `mttRawValue` gives 0 |
| Investments.NoOutput | investments/main.py:18-44 | a failing status, a body that is not JSON, and a falsy answer write nothing; a truthy answer that is not a dict, or a null `data`, raises |
| Statistics.SumPermutation | main.py:61-63 | the sum does not depend on the order of the data |
| Statistics.SumOrderFree | main.py:61-63 | the sum of a list equals the sum of any reordering of it |
| Statistics.Sort | main.py:49 | the data ends sorted and holds the same values |
| Statistics.Statistics.constructor | main.py:47-49 | the object keeps the caller's list, sorted in place, with the same values |
| Statistics.Statistics.Count | main.py:51-53 | the number of data points |
| Statistics.Statistics.Min | main.py:55-57 | empty data raises (None); otherwise a value of the data, and no other value is smaller once the data is sorted |
| Statistics.Statistics.Max | main.py:58-60 | empty data raises (None); otherwise a value of the data, and no other value is larger once the data is sorted |
| Statistics.Statistics.Sum | main.py:61-63 | the sum of the data, whatever its order; 0 for no data |
| Statistics.Statistics.Range | main.py:65-67 | max minus min, non-negative on sorted data; empty data raises (None) |
| Statistics.Statistics.MedianOdd | main.py:73-85 | for an odd count, the middle element; on sorted data every element before it is at most it and every element after it at least it |

## Left out

- HTTP is not modelled. Every request is an answer given by a function parameter,
  and connection errors are not modelled. Of an answer, the model keeps its status,
  its `Retry-After` header, its body and whether its content type is JSON (which
  `aiohttp`'s `json()` checks and `requests` does not). Other headers and the API key
  check are left out.
- Sleeps are not performed. `time.sleep` and `asyncio.sleep` appear as the list of
  waits taken. `REQUEST_DELAY` and the one-second pause between pages are omitted,
  since they do not affect the data.
- Files, the `csv` module's text quoting, pandas `DataFrame.to_csv`/`to_json`, the
  file size and `sizeof_fmt`, and the uploads to jsonBlob are left out. A file is
  modelled as its header and its sequence of rows of JSON values.
- JSON parsing is not modelled. A body is either a decoded JSON value or unparsable.
  A decoded dict is a list of bindings with distinct keys, and `dict.get` reads the
  first binding.
- JSON floats are not modelled; numbers are integers.
- `int()` is modelled for an optional sign, ASCII digits, Python's whitespace around
  them and CPython's default limit of 4300 digits. Underscores, non-ASCII digits and
  bytes are left out.
- Decoded JSON integers are not bounded in the model. Python's JSON decoder refuses
  number text of more than 4300 digits, so such a body would be unparsable.
- `ThreadPoolExecutor` concurrency is not modelled. The completion order of the ten
  requests is an input (any permutation of the pages), and the worker count has no
  effect on the result.
- Proposals.FetchProposals: has no bound of its own on 429 recursion. The model
  bounds it by the `room` parameter, the nested calls the interpreter still allows,
  and raises once `room` runs out. The exact recursion limit is not modelled.
- PermissionsSync.Run: the blocking and asynchronous scripts have no page limit and
  loop forever if every page yields rows. The model takes a page `last` that yields
  none and proves the loop stops at or before it; an endless run is not modelled.
- PermissionsAsync.Run: same `last` page as the blocking loop, for the same reason.
- Txs.Collector.PageLoop: `new_count` is not returned past the page; the stopping
  rule is stated as "the page's dedupe is empty", which is the same test.
- Txs.Collector.HandlePage: a page whose items raise part-way stores nothing, where the
  script may already have appended that page's first rows. The run then aborts and no
  file is written, so those rows are never seen.
- Txs.MaxPages: computes the exact integer ceiling of total / 100. The script divides
  as floats (`math.ceil(total / PAGE_LIMIT)`), which differs for totals above 2^53 and
  raises an OverflowError above about 1.8e308.
- PyJson.Repr: escapes ASCII control characters, U+007F to U+00A0 and U+00AD as Python
  does; other characters Python considers non-printable (above U+00FF) are written as
  they are.
- Fees.FeeList.Collect: when a service raises, the rows already appended are not
  stated. The script then writes no file, so the list is never seen.
- Cycles: only `transform_data` is modelled. `fetch_data` (HTTP), the upload and
  `main` are left out.
- Investments: the upload to jsonBlob and the printing are left out.
- `Statistics.mean` is left out: it needs floating-point division and `round`.
  As written it divides by the bound method `self.count` instead of calling it, so
  it raises a TypeError for any data.
- Statistics.Statistics.MedianOdd: covers only an odd number of points. The even
  case averages two middle values into a float and is left out. The source's
  `median` prints the middle value and returns what `print` returns (None); the
  model returns the printed value.
- Statistics.Sort: `list.sort` is modelled by an insertion sort on the array. Only
  its result (sorted, same values) matters.
- Statistics.Statistics.constructor: the caller's list is a fixed-size array.
  Appending to it after construction is not modelled.
- The example usage at the bottom of `main.py` (the `heights` list and the printing)
  is left out.
