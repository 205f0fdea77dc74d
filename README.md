# mongosniff-info, modelled in Dafny

`sniff_info.py` reads the text log that `mongosniff` writes while watching a
MongoDB server's traffic and reports on the operations it saw. It does four
things, and this project models each one and proves properties about it:

- **Cut the capture into blocks.** A line holding a direction marker (`-->>`
  for a request, `<<--` for a reply) is a header, and it starts a new block.
  The lines before the first header form a block of their own.
- **Parse each block into a part** (`part_from_buffer`):
  - The header is split on whitespace.
  - A request part takes client, server, collection and byte size from
    header fields 0, 2, 3 and 4.
  - A reply part takes server, client and size from fields 0, 2 and 3.
  - A block shorter than two lines is skipped, and so is a block whose
    second line mentions `killCursors`.
  - A malformed header stops the run with an error.
- **Merge requests with replies** (`merge_parts`). Each request is paired with
  the first later part of the same client. A request with no such part is
  reported as unmatched.
- **Report.** An optional filter keeps one collection's operations. Then one
  of two reports is produced:
  - the ten operations with the most bytes out, sorted stably;
  - per-collection totals (operation count, bytes in, bytes out), largest
    bytes out first.

Modules, one per stage, in the order the data flows:

| file | module | models |
|---|---|---|
| `text.dfy` | `Text` | Python's `in`, `str.split()` and `int()` on the header tokens |
| `parts.dfy` | `Parts` | `part_from_buffer` |
| `splitter.dfy` | `Splitter` | the line loop of `run` |
| `matcher.dfy` | `Matcher` | `merge_parts` |
| `ordering.dfy` | `Ordering` | Python's stable `sorted(..., reverse=True)` |
| `reports.dfy` | `Reports` | the collection filter, the top-10 report, `aggregate_ops` |
| `pipeline.dfy` | `Pipeline` | `run` as a whole, plus end-to-end lemmas |
| `wrappers.dfy` | `Wrappers` | `Option` and `Result` |

Where the source mutates state in a loop, the model is a method with a loop:
the line loop of `run`, the two nested loops of `merge_parts`, and the
dictionary loop of `aggregate_ops` (`Reports.Tally`, whose result
`Reports.AggregateOps` sorts). Each method is proved equal to a
specification function, or shown to satisfy a specification predicate, and
the properties are proved about that function or predicate. Pure logic is
modelled as functions.

Python exceptions become values:

- `part_from_buffer` returns `Skip`, `Parsed(part)` or `Failed(error)`.
- The error says which exception the source raises:
  - `NotAHeader`: the explicit "this is not a header line" exception;
  - `MissingField`: an `IndexError` on a short header;
  - `BadSize`: a `ValueError` from `int()`.
- The first failing block ends the run with that error, just as the uncaught
  exception ends the script.

## Model

| member | source | states |
|---|---|---|
| `Text.Tokens` | sniff_info.py:82 | every token the header splitter produces is a non-empty, whitespace-free word |
| `Text.TokensOccur` | sniff_info.py:82 | every token of the split header occurs as a substring of the header line |
| `Text.TokensOfLayout` | sniff_info.py:82 | splitting a line recovers exactly the words it was laid out from, whatever non-empty whitespace separates them and however much leads or trails |
| `Text.WhitespaceRunLength` | sniff_info.py:82 | lengthening or shortening any whitespace run leaves the tokens unchanged (why collapsing runs to one space before splitting changes nothing) |
| `Text.ParseInt` | sniff_info.py:95 | `int()` succeeds exactly on an optional sign followed by decimal digits |
| `Text.ParseIntOfShowInt` | sniff_info.py:95 | `int()` inverts decimal rendering for every integer, and the rendering is a single token |
| `Parts.MarkerTokenIsHeader` | sniff_info.py:25 | a line whose second token is `-->>` or `<<--` passes the header test (`IsHeader`), so every header the parser accepts starts a block of its own |
| `Parts.PartFromBuffer` | sniff_info.py:71-103 | buffers with fewer than two lines, or whose second line mentions killCursors, are skipped, and only those; otherwise, with header tokens T: fewer than two tokens is a missing-field error; a token 1 other than either marker is the not-a-header error; a `-->>` header with fewer than five tokens, or a `<<--` header with fewer than four, is a missing-field error; with enough tokens, the bad-size error happens exactly when the size token (T[4] for a request, T[3] for a reply) is not an integer, and when it is one, the buffer is parsed; a parsed request has client T[0], server T[2], collection T[3] and the integer value of T[4] as size; a parsed reply has client T[2], server T[0] and the integer value of T[3] as size; a parsed part's payload is every line after the header |
| `Parts.InboundRoundTrip` | sniff_info.py:88-97 | a request header, laid out with any whitespace and trailing fields, parses back to exactly its client, server, collection, size and payload |
| `Parts.OutboundRoundTrip` | sniff_info.py:98-101 | a reply header parses back to its size and payload, with client taken from field 2 and server from field 0 |
| `Parts.HeaderWhitespaceIrrelevant` | sniff_info.py:82 | the parse result does not depend on the length of any whitespace run in the header |
| `Splitter.Blocks` | sniff_info.py:18-37 | the blocks the loop flushes, concatenated, are the input lines; they form a valid cut (the first holds no header, every later one is one header and its payload); there are none exactly when the input is empty. `Splitter.BlocksUnique` shows no other valid cut exists |
| `Splitter.SplitInvariant` | sniff_info.py:18-31 | after any prefix of the input, the flushed buffers followed by the open one are exactly the lines read, and they form a valid cut |
| `Splitter.BlocksConcat` | sniff_info.py:18-37 | the blocks handed to the parser, concatenated, are exactly the input lines: nothing is dropped or duplicated |
| `Splitter.BlocksWellCut` | sniff_info.py:23-31 | the first block contains no header line; every later block is one header line followed only by non-header lines |
| `Splitter.BlocksSnoc` | sniff_info.py:25-31 | a header line opens a new block; any other line joins the open block |
| `Splitter.HeaderEndsBlock` | sniff_info.py:25-29 | in a valid cut, a block whose last line is a header is that line alone, and it is not the first block |
| `Splitter.BlocksUnique` | sniff_info.py:18-37 | the cut is unique: any valid cut of non-empty input is the one the loop produces |
| `Splitter.PartsOf` | sniff_info.py:26-28 | on success there is one part per parsed block and no block failed to parse; `Splitter.PartsInOrder` and `Splitter.PartsFailure` give each part's block and the error of a failed run |
| `Splitter.PartsInOrder` | sniff_info.py:26-28 | when no block fails, there is one part per parsed block, in block order, each equal to its block's parse |
| `Splitter.PartsFailure` | sniff_info.py:26-37 | the run fails exactly when some block fails to parse, and with the first failing block's error |
| `Splitter.FailureSticks` | sniff_info.py:26 | once a block has failed, more blocks do not change the outcome |
| `Splitter.CollectParts` | sniff_info.py:18-37 | the line loop yields exactly the parts, or the first error, of the blocks of the input |
| `Matcher.ScanFrom` | sniff_info.py:122-125 | returns the first index at or after the start whose part has the given client, or none when no such index exists |
| `Matcher.FirstMatch` | sniff_info.py:121-125 | the partner of a request is the first later part of the same client (of either direction); there is none exactly when no later part has that client |
| `Matcher.OpsUpTo` | sniff_info.py:115-136 | there are no more operations than parts; `Matcher.OpsFromSources`, `Matcher.SourcesSpec` and `Matcher.OpsCount` say which request and which match each operation comes from |
| `Matcher.UnmatchedUpTo` | sniff_info.py:115-138 | there are no more unmatched notices than parts, and each is a request among them that has no later part of its client; `Matcher.UnmatchedCount` gives their number |
| `Matcher.MergeParts` | sniff_info.py:105-140 | the nested loops yield exactly the operations and the unmatched requests defined by the first-match rule, in request order |
| `Matcher.MatchableIff` | sniff_info.py:117-127 | a part yields an operation exactly when it is a request and some later part has its client |
| `Matcher.SourcesSpec` | sniff_info.py:115-127 | the requests that yield operations are listed in strictly increasing position, and a position is listed exactly when its part is a request with a later same-client part |
| `Matcher.MakeOpKeepsRequest` | sniff_info.py:128-136 | the operation built by `MakeOp` keeps every field of its request, and takes the size and payload of the part that answers it |
| `Matcher.OpsFromSources` | sniff_info.py:128-136 | operation k takes client, server, size in, collection and data in from its request, and size out and data out from that request's first match |
| `Matcher.OpsCount` | sniff_info.py:115-136 | the number of operations is the number of positions that yield one |
| `Matcher.OpsCountByClient` | sniff_info.py:115-136 | the number of operations is the number of requests followed by some part of the same client |
| `Matcher.UnmatchedCount` | sniff_info.py:137-138 | the number of unmatched notices is the number of requests with no later same-client part |
| `Matcher.RequestsAccounted` | sniff_info.py:115-138 | every request yields either an operation or an unmatched notice, never both; only requests are reported unmatched |
| `Ordering.SortDesc` | sniff_info.py:49 | the sort keeps the length; `Ordering.SortDescOrdered`, `Ordering.SortDescPermutes` and `Ordering.SortDescStable` show it is Python's stable sort by descending key |
| `Ordering.Insert` | sniff_info.py:49 | inserting into a sequence lengthens it by one |
| `Ordering.InsertStable` | sniff_info.py:49 | an inserted element goes ahead of every element with its key |
| `Ordering.SortDescOrdered` | sniff_info.py:49 | the sorted sequence is non-increasing in its key |
| `Ordering.SortDescPermutes` | sniff_info.py:49 | the sorted sequence is a permutation of the input |
| `Ordering.SortDescStable` | sniff_info.py:49 | elements with equal keys keep their input order, as they do under Python's stable `sorted` |
| `Ordering.SortDescSum` | sniff_info.py:49 | sorting preserves every sum over the elements |
| `Ordering.SortDescDistinct` | sniff_info.py:160 | sorting a sequence without repetitions yields one without repetitions |
| `Ordering.WithKeyOfPrefix` | sniff_info.py:50 | a prefix keeps, for each key, a prefix of the elements with that key |
| `Reports.KeepCollection` | sniff_info.py:44 | every operation the filter keeps has the chosen collection |
| `Reports.KeepCollectionCounts` | sniff_info.py:44 | the filter keeps every operation of the chosen collection, as often as it occurs, and no other operation |
| `Reports.KeepCollectionOrder` | sniff_info.py:44 | the kept operations are a subsequence of the input, in input order |
| `Reports.FilterCollection` | sniff_info.py:43-44 | without a collection the operations pass unchanged; with one, exactly the operations of that collection are kept, in order |
| `Reports.TopBySizeOut` | sniff_info.py:49-50 | the report has min(10, n) operations, drawn from the input, non-increasing in bytes out; `Reports.TopBySizeOutSpec` adds that nothing left out is larger and that ties keep their input order |
| `Reports.TopBySizeOutSpec` | sniff_info.py:48-50 | the report has min(10, n) operations, non-increasing in bytes out, drawn from the input; every operation left out has no more bytes out than any shown; among equal bytes out, the input order is kept |
| `Reports.PrefixDominates` | sniff_info.py:50 | in a sorted sequence, every element past a prefix has no more bytes out than any element of the prefix |
| `Reports.RollupStep` | sniff_info.py:148-158 | one more operation adds one to its own collection's count and its sizes to that collection's totals, and changes no other collection |
| `Reports.RollupAbsent` | sniff_info.py:149-154 | a collection that has not occurred has zero count and zero totals, as the dictionary's fresh entry |
| `Reports.Tally` | sniff_info.py:147-158 | after the loop the dictionary has an entry for exactly the collections that occur, the key list names each of them once, and each entry is that collection's operation count and byte totals over all operations |
| `Reports.RollupToPrefix` | sniff_info.py:148-158 | counting the operations one at a time, as the loop does, gives the totals of the operations read so far |
| `Reports.RollupOccurs` | sniff_info.py:149-156 | a collection with a nonzero count is the collection of some operation |
| `Reports.AggregateOps` | sniff_info.py:142-160 | the result is an aggregation: one entry per distinct collection that occurs, each holding that collection's operation count and byte sums, ordered by bytes out with the largest first |
| `Reports.SortedRollups` | sniff_info.py:160 | sorting the per-collection totals of distinct collections by bytes out yields an aggregation |
| `Reports.AggregationTotals` | sniff_info.py:147-158 | across all entries, the counts add up to the number of operations and the byte totals to the operations' bytes in and bytes out |
| `Reports.AggregationOfNothing` | sniff_info.py:147-160 | no operations give an empty report |
| `Reports.EntryHasOp` | sniff_info.py:149-150 | every entry is for a collection of some operation |
| `Reports.AggregationUnique` | sniff_info.py:142-160 | two aggregations of the same operations hold the same entries and differ only in the order of equal bytes-out totals |
| `Pipeline.Operations` | sniff_info.py:17-44 | the capture fails exactly when one of its blocks fails to parse; with a collection, every operation is on that collection; without one, there is one operation per request followed by a part of its client |
| `Pipeline.Run` | sniff_info.py:13-57 | the run fails with a parse error exactly when the capture has one; otherwise it reports the unmatched requests, and either the top-10 of the filtered operations or an aggregation of them |
| `Pipeline.LayoutHasMarker` | sniff_info.py:25 | a header in the sniffer's layout holds its direction marker, so it opens a block |
| `Pipeline.TwoBlocks` | sniff_info.py:18-37 | a request block followed by a reply block is cut into an empty leading block and the two blocks |
| `Pipeline.SingleExchange` | sniff_info.py:13-44 | one request followed by its reply yields exactly one operation, with the request's client, server, collection, size and payload and the reply's size and payload |
| `Pipeline.ThreeOps` | sniff_info.py:115-136 | a part of another client between a request and its reply does not stop the match: the three parts give exactly the request's operation |
| `Pipeline.SeparatedExchange` | sniff_info.py:13-44 | a request whose reply follows a block of another client still yields exactly one operation, with the request's fields and the reply's size and payload |
| `Pipeline.SingleOpAggregation` | sniff_info.py:142-160 | a single operation aggregates to one entry: its collection, count 1, its bytes in and its bytes out |
| `Pipeline.LoneRequest` | sniff_info.py:115-138 | a request with no later part of its client yields no operation under any filter, and is reported unmatched |

## Left out

- Command-line handling (`click`, lines 8-13) is left out. The file is a
  sequence of lines, and the mode and collection are parameters of
  `Pipeline.Run`.
- Reading the file (line 21) is left out. Each line is a string and keeps its
  trailing newline, as `readlines` does.
- Printing is left out:
  - the progress messages (lines 15 and 46);
  - `print_op`, including its `reply ` prefix stripping and its query joining
    (lines 60-69);
  - `print_aggregate_data` and its `humanize` size formatting (lines
    162-170).

  The reports are returned as data instead. The unmatched notice of line 138
  is returned as the sequence of unmatched requests.
- `linenum` (line 19) is never read, so it is not modelled.
- The regular expression of line 82 is not modelled separately.
  `Text.WhitespaceRunLength` proves that collapsing whitespace runs cannot
  change what `split()` returns, so the model splits directly.
- Whitespace is the six ASCII characters that Python 2's `\s` and
  `str.split()` treat as whitespace in a byte string. Unicode whitespace is
  not modelled.
- `int()` is modelled over ASCII decimal digits with an optional sign, which
  is all a whitespace-free token can hold. The sniffer only writes
  non-negative sizes, but the code's `int()` also accepts a sign. The model
  follows the code, so a size can be negative.
- Arbitrary exceptions from parsing become the three `ParseError` kinds.
  Tracebacks are not modelled.
- `Reports.AggregateOps`: ties in bytes out are left in an unspecified order.
  The source sorts the items of a Python 2 dictionary, whose iteration order
  is unspecified. The method lists collections in order of first appearance
  and then sorts stably, but its contract promises only what the source
  does: entries non-increasing in bytes out. `Reports.AggregationUnique`
  shows that nothing else is left open.
