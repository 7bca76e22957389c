# Duplicate SKU checker — a Dafny model of its decision logic

The repository has two Node scripts that work against a Shopify catalog.

- `duplicate_finder.js` reads a CSV extract. For each row it asks the catalog how many products carry that row's SKU. It records every SKU counted more than once and writes a two-column CSV report (`SKU,Count`).
- `duplicate_remover.js` reads such a list of SKUs. It looks each distinct SKU up once and, for every SKU that returns two or more products, picks one product to keep (`selectBestProduct`). It deletes the others.

This project models the decision logic of both scripts. The catalog is replaced by an oracle: a total function from the queried SKU to the answer of the query (`Products(nodes)`, `GraphQLErrors` or `Thrown`). The network calls the scripts make become an output trace.

The oracle is a function, so a SKU queried twice gets the same answer both times. A lookup that fails once and succeeds on a repeat (or the reverse) is not modelled. This costs the remover nothing, since it looks each SKU up once. For the finder it means that a repeated SKU is counted the same on each of its rows, which `RepeatedSkuRecordedTwice` relies on.

- `catalog.dfy` (module `Catalog`): product records, query answers and CSV rows.
- `duplicate_remover.dfy` (module `DuplicateRemover`): `selectBestProduct` as a left fold over positions of the group, the per-group deletion plan, and `processDuplicates` as a method with a `checkedSkus` set and an appended trace of `Lookup`/`Delete` calls.
- `duplicate_finder.dfy` (module `DuplicateFinder`): the count of `fetchProductBySku` (a method with the `forEach` loop) and `checkAllSkus` (a method with the column choice, the early `break` and the `push`).
- `duplicate_report.dfy` (module `DuplicateReport`): the text of the report. A reader for that text is defined beside it, so that the format can be stated as a round trip.

The model follows the code as written, not as it may have been intended:

- Completeness has no effect. Both branches of the `isActive` test return the product.
- The *last* `'ACTIVE'` product wins.
- The `publishedAt` branch only fires for a lower-case `'active'` status.
- The remover always reads the `SKU` column. The finder reads `Variant SKU` when the first row has it.
- The finder has no seen-set, so a repeated SKU is looked up and recorded again.

The comments in `duplicate_remover.js` describe a different rule. The comment at line 71 says an active product is selected when it is also more complete. The comment at line 80 says that otherwise the most recently updated product is preferred. The code does neither: completeness is never decisive, and the date compared is `publishedAt`, which only counts for a lower-case `'active'` status. The code does not show clearly enough which rule was meant, so the model follows the code and no corrected selection is proposed.

Conventions:

- `publishedAt` is an already-parsed integer timestamp. An unpublished product has 0, which is what `new Date(null)` gives. Invalid dates are not modelled.
- The remover does not re-check that a returned product really carries the SKU; the group is whatever the query returned. Only the finder tests variants for an exact match.
- A CSV cell absent from a row is `None` (JavaScript `undefined`). The remover looks up and remembers `undefined` like any other SKU value.
- Logging is a no-op in the main model. As written, several log calls throw at runtime. In `duplicate_finder.js` the log stream is called as a function (`logFile(...)`). In `duplicate_remover.js` the logged value is passed where `write` expects an encoding name. The main model follows the evident control flow instead. The runs as written are modelled beside it and compared under "## Findings".

## Model

| member | source | states |
|---|---|---|
| `DuplicateRemover.Step` | duplicate_remover.js:63-88 | one reduce step keeps the current best or takes the visited product, nothing else |
| `DuplicateRemover.BestAfter` | duplicate_remover.js:63-89 | the accumulator after visiting `n` products is a position already visited; the fold starts at `products[0]` |
| `DuplicateRemover.BestIndex` | duplicate_remover.js:62-90 | the whole fold ends on a position of the group |
| `DuplicateRemover.SelectBest` | duplicate_remover.js:62-90 | for a non-empty group, the kept product is one of the group's elements |
| `DuplicateRemover.CompletenessNeverDecides` | duplicate_remover.js:65-78 | two groups that agree on status and publishedAt at every position keep the same position: title, description, variants and ids never affect the choice |
| `DuplicateRemover.Displacement` | duplicate_remover.js:72-88 | a visited product displaces the best if and only if it is `'ACTIVE'`, or it is `'active'` and strictly later; a tie keeps the earlier choice |
| `DuplicateRemover.LastActiveBefore` | duplicate_remover.js:65 | the last position before `n` with status exactly `'ACTIVE'`, or none when no such position exists |
| `DuplicateRemover.LastUpperActiveWins` | duplicate_remover.js:72-88 | with no lower-case `'active'` product, the kept product is the last `'ACTIVE'` one, or `products[0]` if none is `'ACTIVE'` |
| `DuplicateRemover.ActiveKeptUnlessLaterActive` | duplicate_remover.js:72-88 | past the last `'ACTIVE'` product k, the best is k or a later `'active'` product published strictly after k |
| `DuplicateRemover.LatestPublishedCandidate` | duplicate_remover.js:81-89 | with no `'ACTIVE'` product, the kept product is `products[0]` or an `'active'` one; it is the most recently published of those, and the first of any equally recent ones |
| `DuplicateRemover.DateBranchNeedsLowercase` | duplicate_remover.js:81-84 | with neither `'ACTIVE'` nor `'active'` products, `products[0]` is kept whatever the dates |
| `DuplicateRemover.IdsExcept` | duplicate_remover.js:141-145 | the ids issued for deletion are exactly the group's ids that differ from the kept id, and never the kept id |
| `DuplicateRemover.IdsExceptLength` | duplicate_remover.js:141-145 | with unique ids, excluding one member's id leaves exactly n-1 ids |
| `DuplicateRemover.Losers` | duplicate_remover.js:135-145 | a group of 0 or 1 products deletes nothing; a larger group never deletes the kept product |
| `DuplicateRemover.LosersAreTheRest` | duplicate_remover.js:135-145 | with unique ids a group of n > 1 has exactly n-1 deletes: every position except the kept one |
| `DuplicateRemover.SmallOrFailedLookupIsNoOp` | duplicate_remover.js:50-58 | a failed lookup or one returning at most one product issues its lookup and no delete |
| `DuplicateRemover.DeleteOthers` | duplicate_remover.js:141-145 | the inner loop issues a delete for each product whose id differs from the kept one, in return order |
| `DuplicateRemover.ProcessDuplicates` | duplicate_remover.js:119-148 | the calls the loop issues are exactly the run trace of the rows' SKUs: a seen SKU is skipped; a new one is looked up, then its losers are deleted |
| `DuplicateRemover.DistinctInFirstOccurrenceOrder` | duplicate_remover.js:122-131 | the distinct SKUs hold every row SKU, each value once, ordered by first occurrence |
| `DuplicateRemover.LookupsAreDistinctSkus` | duplicate_remover.js:122-131 | the lookups of a run are exactly the distinct SKUs in first-occurrence order, so each distinct SKU is looked up exactly once |
| `DuplicateRemover.DeletedAreLosers` | duplicate_remover.js:135-145 | an id is deleted by the run if and only if it is a loser of the group of some row's SKU |
| `DuplicateRemover.OnlyOwnLosersDeleted` | duplicate_remover.js:135-147 | when no product belongs to two SKUs' groups, a product of a group is deleted if and only if it is one of that group's losers |
| `DuplicateRemover.KeptAndSmallGroupsSurvive` | duplicate_remover.js:135-147 | under the same condition, every kept product, and every product of a group of size ≤ 1, is never deleted |
| `DuplicateRemover.UpToFirstDelete` | duplicate_remover.js:104-106 | the run as written keeps a prefix of the intended trace: with no delete in it, the whole trace; otherwise exactly the calls before the first delete |
| `DuplicateRemover.AsWrittenNeverDeletes` | duplicate_remover.js:131-145 | the run as written (log writes at lines 51, 57, 104 and 133 that throw) never sends a delete; when the first row's group has a loser, the intended run deletes it while the run as written is rejected |
| `DuplicateRemover.ThreeRowsTwoLookupsOneDelete` | duplicate_remover.js:124-145 | rows [A, A, B] with one product for A and an ACTIVE and a DRAFT product for B give exactly: look up A, look up B, delete the DRAFT |
| `DuplicateFinder.MatchCount` | duplicate_finder.js:74-86 | the number of products with a variant whose sku equals the query is at most the number of products |
| `DuplicateFinder.MatchCountExtremes` | duplicate_finder.js:76-84 | the count is 0 if and only if no product matches, and equals the number of products if and only if all do |
| `DuplicateFinder.MatchCountAppend` | duplicate_finder.js:76-84 | the count of a concatenation is the sum of the counts: every product is counted on its own |
| `DuplicateFinder.SkuCount` | duplicate_finder.js:60-91 | a response with errors or an exception counts 0; otherwise the count is at most the number of returned products |
| `DuplicateFinder.FetchProductCount` | duplicate_finder.js:62-91 | the early returns and the counting loop compute exactly that count |
| `DuplicateFinder.ColumnChosenOnce` | duplicate_finder.js:98-112 | the column is chosen once, from the first row: a later row lacking the chosen column ends the scan even when it carries the other column |
| `DuplicateFinder.ScanLength` | duplicate_finder.js:106-112 | the rows visited are those before the first row whose cell is missing or empty; every visited row has a non-empty SKU |
| `DuplicateFinder.ScanLengthIsFirstStop` | duplicate_finder.js:106-112 | the stop position is determined by the first row without a SKU |
| `DuplicateFinder.RowsAfterStopIgnored` | duplicate_finder.js:109-112 | rows after the first one without a SKU have no influence on what is looked up |
| `DuplicateFinder.EntriesAreDuplicates` | duplicate_finder.js:114-119 | an entry is recorded if and only if a looked-up SKU counts more than 1, and it carries that count |
| `DuplicateFinder.EntriesAppend` | duplicate_finder.js:106-121 | entries of consecutive rows concatenate in row order, with no memory of earlier rows |
| `DuplicateFinder.RepeatedSkuRecordedTwice` | duplicate_finder.js:114-119 | a duplicated SKU on two rows is recorded twice: there is no seen-set |
| `DuplicateFinder.CheckAllSkus` | duplicate_finder.js:94-132 | with the column chosen once from the first row, the SKUs queried are those of the rows before the first one without a SKU, in order and all non-empty; the entries are those with count > 1; the text written is the report of those entries |
| `DuplicateFinder.AsWrittenReportsNoDuplicate` | duplicate_finder.js:106-131 | as written, the report is written exactly when every row has a SKU and none counts more than 1, and it is then the bare header |
| `DuplicateReport.Decimal` | duplicate_finder.js:128 | `${count}` is a non-empty run of decimal digits |
| `DuplicateReport.DecimalRoundTrip` | duplicate_finder.js:128 | reading the decimal rendering back gives the number |
| `DuplicateReport.LinesAppend` | duplicate_finder.js:127-129 | one more entry appends exactly its line |
| `DuplicateReport.WriteCsv` | duplicate_finder.js:124-131 | the text written is the header followed by each entry's line, in order |
| `DuplicateReport.EntryLineParses` | duplicate_finder.js:128 | a line `sku,count\n` of a comma- and newline-free SKU reads back as its entry, leaving the rest of the text |
| `DuplicateReport.LinesRoundTrip` | duplicate_finder.js:127-129 | the lines read back as the entries |
| `DuplicateReport.ReportRoundTrip` | duplicate_finder.js:124-129 | the report is the header `SKU,Count\n` plus exactly one line per entry, in order: it reads back as the entries when no SKU holds a comma or a newline |
| `DuplicateReport.ParsedDecimalIsDigits` | duplicate_finder.js:128 | only a run of decimal digits reads as a count |
| `DuplicateReport.CommaInSkuIsNotEscaped` | duplicate_finder.js:128 | there is no escaping: when the first entry's SKU contains a comma, the report does not read back as its entries |

## Left out

- The Shopify client, the GraphQL query and mutation strings (including the raw `${sku}` and `${productId}` interpolation) and the response shape: foreign calls, replaced by the oracle and the trace.
- `fetch_csv_products` (file stream, `csv-parser`): I/O. Its result is the given sequence of rows, which is whatever had been read. In `duplicate_remover.js` a read error is logged and the rows read so far are returned (lines 155-171). In `duplicate_finder.js` the error handler calls the log stream as a function (line 32), which throws.
- Log streams, the output file stream and `process.env` paths: I/O. The report's text is built; writing it to a file is not modelled.
- `async`/`await`: the code is strictly sequential, so there is no concurrency to model.
- JavaScript `Date` parsing: `publishedAt` is taken as an already-parsed integer, and Invalid Date is not modelled.
- `CheckAllSkus`: does not throw the `TypeError` from calling the log stream as a function (lines 110 and 117). That run is `CheckAllSkusAsWritten`, under "## Findings".
- The completeness flag (`product.variants.length` is always undefined on the GraphQL shape): it is dead; `CompletenessNeverDecides` states that it has no effect.
- The outcome of `deleteProductById`: a failed mutation is caught and only logged (lines 105-115), so a delete is only recorded as issued. The write at line 104 is outside that `try`, and the next two lines cover it.
- `ProcessDuplicates`: the log writes at lines 51, 57, 104 and 133 are no-ops here. As written, each passes a value where `write` expects an encoding name and can throw, which ends the run: the one at line 104 on any Node, the others on a Node that checks every encoding argument. The model follows the evident control flow. `RunAsWritten` models the run as written, under "## Findings".
- `DeleteOthers`: issues a delete for every loser. As written, the first call of `deleteProductById` throws at line 104 before its mutation is sent, so no delete is ever sent.
- `CheckAllSkus`: requires at least one row, because `products[0].hasOwnProperty` throws on an empty extract.
- `OnlyOwnLosersDeleted`: assumes no product is returned for two different SKUs. Without that assumption, another SKU's group can delete a product that one group kept. The statement about a single group (`Losers`) needs no such assumption.
- `IdsExceptLength`: the count n-1 needs unique ids within a group. Without them, every member sharing the kept id survives.

## Findings

| source | as written | input that shows it | evidently intended | confidence | as-written member | corrected member |
|---|---|---|---|---|---|---|
| duplicate_remover.js:104 (and 51, 57, 133) | `logFile.write(label, value)` passes the value as the encoding argument of `write`. An id string names no encoding, so the write throws before the delete mutation is sent. The rejected promise is not handled (line 175), so the run ends | a first row whose SKU returns two products with different ids | log the label and the value, and carry on deleting | not executed; rests on Node's `Writable.write` throwing `ERR_UNKNOWN_ENCODING` for a string that names no encoding | `DuplicateRemover.RunAsWritten`, `DuplicateRemover.AsWrittenNeverDeletes` | `DuplicateRemover.ProcessDuplicates` |
| duplicate_finder.js:110, 117 (and 32) | `logFile(...)` calls a write stream as a function, which throws a `TypeError` before the `break` and before the `push` | an extract with one row whose SKU two catalog products carry | log the message, then break or record the duplicate | not executed | `DuplicateFinder.CheckAllSkusAsWritten`, `DuplicateFinder.AsWrittenReportsNoDuplicate` | `DuplicateFinder.CheckAllSkus` |
