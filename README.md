# fhirterm core in Dafny

fhirterm is a FHIR terminology server. This project models three parts of its
core and proves properties about them.

- **`Intset`** (module `Intsets`, `intset.dfy`): a set of 64-bit integers
  with its own tests. It is a class whose map field is updated in place. A
  ghost `Contents` set stands for the abstract value. Every method states its
  new contents in terms of the old ones. Set laws (commutation of union and
  intersection, idempotence of union, a set minus itself) are proved for all
  sets. The concrete cases of the tests in intset_test.go (Test_AddDuplicates,
  Test_ToIntSlice, Test_Equal, Test_Remove, Test_Union, Test_Intersect and
  Test_Difference) are methods whose `ensures` is the test's expectation.
  Test_AddToSet, which adds a random permutation of 1500 numbers, is covered
  by `Add` and `Len` for all inputs.
- **ValueSet compose compilation** (module `Expand`, `expand.dfy`): the
  translation of a ValueSet's `compose.include` / `compose.exclude` entries
  into one `NsFilter` per normalised code-system URL. Each entry that has
  filters or concepts contributes one predicate group. The outer loop of
  `composeFiltersToNsFilters` (`ComposeFiltersToNsFilters`) is proved against
  the reference function `GroupsFor`: the groups of a system, in entry order.
  The inner loops that build one entry's group (`BuildGroup`) are proved
  against the functions `FilterPredicates` and `Group`. URL normalisation is
  proved to be the unique strip of all trailing slashes.
- **The SNOMED CT importer's pre-walk and its helpers** (modules `Closure`,
  `Blob`, `Batching`, `Escape` and `Prewalk`, in the `snomed_*.dfy` files):
  - `Closure`: the is-a graph, ancestor and descendant closures (what the
    recursive CTEs compute), and their characterisation by walks along
    is-a edges.
  - `Blob`: the little-endian `[]int64` blob format, with both round trips.
  - `Batching`: the grouping of inserted rows into transactions of 20000
    rows. Only batches whose commit succeeded reach the table.
  - `Escape`: the per-line repair of description files. Field 7 is quoted
    and its quotes are doubled.
  - `Prewalk`: the imperative walk itself, against a `Database` class.
    The database's queries answer as SQLite would (any row order), and any
    of its calls may fail. The class tracks whether a transaction is open
    and which rows it holds, and it records every call it receives, with
    its answer, in a ghost `trace`. Only the class's own methods extend the
    trace, so what the walk reports can be stated in terms of the answers it
    actually received.

The Go code panics in a few places. The importer's panics are modelled as
outcomes rather than excluded:
- `escapeQuotes` panics on a line holding a quote but fewer than eight tab
  fields. This is `FixLine` returning `None`, and `crashed` in `EscapeQuotes`.
- `prewalkSnomedGraph` calls `Prepare` on a nil transaction when `Begin`
  failed.
- It calls `Query` on a nil statement when preparing a closure statement
  failed.
- It runs its final `Commit` on a nil transaction when the concept list is
  empty. That happens for an empty is-a table, or after a failed scan that
  made `rowsToIntSlice` return nil.

Each of the last three panics is the `Crashed` outcome. The contract of
`PrewalkSnomedGraph` characterises its outcome by the recorded calls, in both
directions:
- `Crashed` exactly when the calls end in a failed `Begin`, or where the
  next call needs a statement that is nil, or in an answered concept query
  with no concepts;
- `Failed` exactly when the last call failed (a query, the insert `Prepare`
  or an insert) and no earlier call was such a failure;
- `Done` exactly when the last call is the final `Commit`, and then every
  concept has its row.

`OpenBatch` and `WalkConcept` state the same for one batch and one concept,
in terms of their inputs and the answers they received.

The whole call sequence is also pinned down. A ghost reference model replays
the loop on the database's answers alone, with one `Answers` value per pass:
- `Step` gives the calls and outcome of one pass;
- `Run` gives those of the loop, stopping at the first pass that does not
  succeed;
- `Completed` adds the final commit.

The walk methods return the answers they received, and their calls and outcome
equal what these functions give for those answers. `RunSucceeds` proves that
the loop runs to the end when no call is refused, and PrewalkSnomedGraph then
returns nil unless there are no concepts. The one panic that
is excluded rather than modelled is the nil `Compose` in
`valueSetComposeFiltersToNsFilters` (see "Left out").

Two observations about the code:
- `normalizeNsUrl` uses `strings.TrimRight(u, "/")`, which removes every
  trailing slash, not just one (`TrailingSlashesMerge`).
- A failed `Commit` at a batch boundary is ignored, and the walk goes on.
  So `Done` does not mean every row was stored. The table receives exactly
  the batches whose commit succeeded (`Kept`, `KeptMembers`).

## Model

| member | source | states |
|---|---|---|
| Intsets.Intset.constructor | intset.go:9-12 | a new set is empty |
| Intsets.Intset.FromSlice | intset.go:14-18 | the set holds exactly the slice's elements, duplicates collapsed, so its size is at most the slice length |
| Intsets.Intset.Add | intset.go:20-24 | the contents gain the element; the result is true exactly when it was absent, and the size grows by one exactly then |
| Intsets.Intset.AddSet | intset.go:38-42 | the contents become the union with the other set's contents; the other set is unchanged |
| Intsets.Intset.AddSlice | intset.go:44-48 | the contents gain exactly the slice's elements |
| Intsets.Intset.Len | intset.go:50-52 | the length is the number of distinct members |
| Intsets.Intset.ToInt64Slice | intset.go:54-62 | the slice lists every member exactly once, so its length is the set's size |
| Intsets.Intset.ToIntSlice | intset.go:64-72 | the same listing as ints: every member once, nothing else |
| Intsets.Intset.Contains | intset.go:74-78 | true exactly for members |
| Intsets.Intset.Remove | intset.go:80-89 | the element leaves the set; the result is true exactly when it was a member, and the size drops by one exactly then |
| Intsets.Intset.Union | intset.go:91-97 | a fresh set holding the union; neither operand changes |
| Intsets.Intset.Intersect | intset.go:99-120 | a fresh set holding the intersection, whichever operand is smaller |
| Intsets.Intset.Probe | intset.go:110-119 | the loop of Intersect: a fresh set holding the members of the scanned set that the probed set also holds |
| Intsets.Intset.Difference | intset.go:122-132 | a fresh set holding the members of this set that are not in the other |
| Intsets.Intset.Equal | intset.go:134-146 | true exactly when both sets have the same members; sets of different sizes are never equal |
| Intsets.UnionCommutes | intset.go:91-97 | set law: a.Union(b) equals b.Union(a) for all sets |
| Intsets.IntersectCommutes | intset.go:99-120 | set law: a.Intersect(b) equals b.Intersect(a) for all sets, whichever side is scanned |
| Intsets.DifferenceWithSelf | intset.go:122-132 | set law: a set minus itself is empty |
| Intsets.UnionIdempotent | intset.go:91-97 | set law: a set united with itself equals itself |
| Intsets.UnionExample | intset_test.go:90-108 | {1, 2, 3} united with {3, 4, 5, 42} lists exactly 1, 2, 3, 4, 5, 42, once each |
| Intsets.IntersectExample | intset_test.go:110-131 | {1, ..., 6} intersected with {3, 4, 5, 42} lists exactly 3, 4, 5 |
| Intsets.DifferenceExample | intset_test.go:133-154 | {1, ..., 6} minus {3, 4, 5, 42} lists exactly 1, 2, 6 |
| Intsets.EqualExample | intset_test.go:51-72 | {1, 2, 3} equals the set from [1, 2, 3] and not those from [1, 2, 8], [1] or [] |
| Intsets.AddRemoveExample | intset_test.go:25-35 | adding 1 reports true, adding it again reports false; removing 2 from {1, 2, 3} leaves exactly 1, 3 (the test at intset_test.go:74-88) |
| Intsets.ToIntSliceExample | intset_test.go:37-49 | the ints listed for {1, 2, 3} are 1, 2 and 3, once each, so they sort to [1, 2, 3] |
| Intsets.Build | intset_test.go:90-100 | a set filled by Add holds exactly the added values |
| Expand.NormalizeNsUrl | expand.go:29-31 | the result is a prefix of the URL that does not end in '/', and everything removed is '/' |
| Expand.NormalizeUnique | expand.go:29-31 | any prefix with those three properties is the normalised URL, so the result is the full strip of trailing slashes |
| Expand.NormalizeIdempotent | expand.go:29-31 | normalising twice is normalising once |
| Expand.TrailingSlashesMerge | expand.go:29-31 | URLs that differ only in the number of trailing slashes share one key |
| Expand.GroupShape | expand.go:13-65 | with vsFilterToNsPredicate and vsConceptsToNsPredicate (lines 13-27): a group is one predicate per filter (op, value and property copied, no concepts), in filter order, then one "in"/"concept" predicate carrying the concept list when concepts are present |
| Expand.FilterPredicatesAt | expand.go:57-61 | the filter loop yields one predicate per filter, position for position |
| Expand.BuildGroup | expand.go:54-65 | the two inner loops produce the entry's group |
| Expand.AddGroup | expand.go:54-72 | an entry with filters or concepts appends its group to the filter on the side of the pass; an entry with neither leaves the filter unchanged |
| Expand.ComposeFiltersToNsFilters | expand.go:41-76 | the keys become the old keys plus every normalised system of the entries; every filter gains, on the side being filled, exactly the groups of its system's entries in entry order, and the other side is untouched |
| Expand.ValueSetComposeFiltersToNsFilters | expand.go:33-39 | no error; one key per normalised system named by an include or exclude entry; each filter's include and exclude groups are those of that system's entries, in order |
| Expand.GroupsForAbsent | expand.go:43-74 | a system named by no entry gets no groups |
| Expand.GroupsForSources | expand.go:54-72 | every group of a system comes from an entry of that system that has filters or concepts |
| Expand.SingleFilterGroup | expand.go:57-61 | an entry with one filter and no concepts gives a one-predicate group copying the filter |
| Expand.ExampleUrls | expand_test.go:8-75 | the test's URLs normalise to the loinc and snomed keys |
| Expand.ExampleLoinc | expand_test.go:8-75 | both loinc spellings in the test land under one key, with one single-predicate group each, in entry order |
| Expand.ExampleSnomed | expand_test.go:8-75 | the test's exclude entry gives one snomed group holding the "in" predicate over its two concepts |
| Expand.ComposeExample | expand_test.go:8-75 | on the test's value set, the result has exactly the loinc and snomed keys with the expected include and exclude groups |
| Escape.Split | importer/snomed.go:235 | strings.Split yields at least one field and no field holds the separator |
| Escape.JoinSplit | importer/snomed.go:235-237 | joining the fields of a split gives the line back |
| Escape.SplitJoin | importer/snomed.go:235-237 | splitting a join of separator-free fields gives the fields back |
| Escape.DoubleQuotes | importer/snomed.go:236 | every quote is doubled: the length grows by the number of quotes, and other characters are neither added nor lost |
| Escape.QuoteField | importer/snomed.go:236 | the field is wrapped in quotes and keeps its other characters |
| Escape.UndoubleDouble | importer/snomed.go:236 | doubling quotes can be undone |
| Escape.UnquoteQuote | importer/snomed.go:236 | the quoted term field decodes back to the original term |
| Escape.FixLineFields | importer/snomed.go:234-238 | a line with a quote and at least eight fields keeps its field count; field 7 becomes the quoted term and every other field is unchanged; with fewer fields the repair panics |
| Escape.FixLineKeepsLines | importer/snomed.go:234-238 | a line without a quote passes unchanged; the repair introduces no newline |
| Escape.OutputLines | importer/snomed.go:230-241 | the written file, split at newlines, is the repaired lines followed by an empty tail |
| Escape.EscapeQuotes | importer/snomed.go:230-241 | the file holds the repaired lines up to the first line that panics, each ending in a newline; it crashes exactly when such a line exists, and processing stops there |
| Closure.ParentsInDestinations | importer/snomed.go:354-361 | every parent is a destination of some is-a row |
| Closure.Close | importer/snomed.go:354-361 | the recursive CTE's result contains its seed and is closed under following is-a edges |
| Closure.CloseLeast | importer/snomed.go:354-361 | it is the least such set |
| Closure.AncestorsAreReachable | importer/snomed.go:354-361 | a concept is an ancestor of c exactly when a non-empty chain of is-a edges leads from c to it |
| Closure.ReverseReaches | importer/snomed.go:363-370 | a chain along the reversed edges is a chain along the edges, backwards |
| Closure.DescendantsReachThere | importer/snomed.go:363-370 | a concept is a descendant of c exactly when a non-empty chain of is-a edges leads from it to c |
| Closure.AncestorDescendantDual | importer/snomed.go:354-370 | d is an ancestor of c exactly when c is a descendant of d |
| Closure.ClosuresWithinConcepts | importer/snomed.go:354-370 | ancestors are destinations and descendants are sources of is-a rows |
| Closure.DiamondAncestors | importer/snomed.go:354-361 | in the diamond 1→2, 1→3, 2→4, 3→4 the ancestors of 1 are {2, 3, 4} |
| Closure.DiamondDescendants | importer/snomed.go:363-370 | in the same diamond the descendants of 4 are {1, 2, 3} |
| Blob.LittleEndian | importer/snomed.go:393-401 | n base-256 digits make n bytes |
| Blob.FromToLittleEndian | importer/snomed.go:393-401 | reading the little-endian digits of a number below 256^n gives the number back |
| Blob.ToFromLittleEndian | importer/snomed.go:393-401 | writing the number read from bytes gives the bytes back |
| Blob.EncodeWord | importer/snomed.go:393-401 | one int64 takes 8 bytes |
| Blob.WordRoundTrip | importer/snomed.go:393-401 | an encoded int64 decodes to itself, negative values included |
| Blob.WordRoundTripBytes | importer/snomed.go:393-401 | every 8-byte word is the encoding of what it decodes to |
| Blob.EncodeWordValue | importer/snomed.go:393-401 | the bytes are the two's-complement digits: the value itself, or the value plus 2^64 when negative |
| Blob.Encode | importer/snomed.go:393-401 | a list of n elements is 8n bytes |
| Blob.EncodeAt | importer/snomed.go:393-401 | element i occupies bytes 8i to 8i+7 |
| Blob.EncodeAppend | importer/snomed.go:393-401 | encoding distributes over concatenation |
| Blob.Decode | importer/snomed.go:393-401 | a blob decodes exactly when its length is a multiple of 8, into one element per 8 bytes |
| Blob.DecodeEncode | importer/snomed.go:393-401 | decoding an encoded list gives the list |
| Blob.EncodeDecode | importer/snomed.go:393-401 | every decodable blob is the encoding of its decoding |
| Blob.EncodeExample | importer/snomed.go:393-401 | [1, -1] encodes to 01 followed by seven 00 bytes, then eight ff bytes |
| Batching.FlattenBatches | importer/snomed.go:339-346 | the batches, concatenated, are the rows in order |
| Batching.BatchesShape | importer/snomed.go:339-346 | n rows make ceil(n/20000) batches of 1 to 20000 rows, all but the last full |
| Batching.BatchAt | importer/snomed.go:339-346 | batch k is the rows from 20000k up to 20000(k+1), or to the end |
| Batching.BatchesSnoc | importer/snomed.go:339-346 | rows appended after a multiple of 20000 form one more batch |
| Batching.BatchBoundary | importer/snomed.go:340 | inside a batch begun at a multiple of 20000, index%20000 == 0 holds exactly where the next batch begins |
| Batching.Kept | importer/snomed.go:341-343 | the kept batches are no more than the batches |
| Batching.CommitNext | importer/snomed.go:341-343 | committing the open batch adds one batch, kept exactly when its commit succeeded |
| Batching.KeptAll | importer/snomed.go:341-343 | when every commit succeeds, every batch is kept |
| Batching.KeptMembers | importer/snomed.go:341-343 | a batch is kept exactly when it is one of the batches and its own commit succeeded |
| Batching.KeptFrom | importer/snomed.go:341-343 | every kept batch is a batch whose own commit succeeded |
| Batching.KeptHas | importer/snomed.go:341-343 | every batch whose commit succeeded is kept |
| Prewalk.RowsToIntSlice | importer/snomed.go:288-307 | the error is reported exactly when a row fails to scan or iteration fails; otherwise the values are appended to the slice in row order, and on error the result is nil |
| Prewalk.Enumerate | importer/snomed.go:316-324 | a result set's listing of a set holds each member once |
| Prewalk.Database.QueryConcepts | importer/snomed.go:316-318 | a complete answer lists every concept of the is-a table exactly once |
| Prewalk.Database.QueryAncestors | importer/snomed.go:354-361 | a complete answer lists exactly the concept's ancestors, each once |
| Prewalk.Database.QueryDescendants | importer/snomed.go:363-370 | a complete answer lists exactly the concept's descendants, each once |
| Prewalk.Database.Begin | importer/snomed.go:345 | the call is recorded with its outcome; on success a transaction is open and holds no rows; a failure changes neither; nothing is committed |
| Prewalk.Database.Prepare | importer/snomed.go:347-370 | the call is recorded with its outcome; it can succeed only while a transaction is open; it changes no rows |
| Prewalk.Database.Insert | importer/snomed.go:403 | the call is recorded with its outcome; it can succeed only while a transaction is open, and then the row joins that transaction; a failure changes nothing |
| Prewalk.Database.Commit | importer/snomed.go:342 | the call is recorded with its outcome; it can succeed only on an open transaction, whose rows then become one committed batch; on failure they are lost; afterwards no transaction is open |
| Prewalk.ClosureBlob | importer/snomed.go:377-401 | the slice holds the query's values when every row scanned and is empty otherwise; when the rows all scan, the blob decodes, each member once, to exactly the closure; when a scan fails, the discarded error leaves the empty blob |
| Prewalk.StoredAncestorsReach | importer/snomed.go:354-382 | a stored ancestors blob whose rows scanned lists exactly the concepts reached from the row's concept along is-a edges |
| Prewalk.StoredDescendantsReach | importer/snomed.go:363-389 | a stored descendants blob whose rows scanned lists exactly the concepts that reach the row's concept |
| Prewalk.WalkConcept | importer/snomed.go:377-406 | one loop iteration: the calls made are the ancestors query, then the descendants query, then the insert, each only if everything before it succeeded and its statement exists; it crashes exactly when the ancestors statement is nil, or the ancestors query answered and the descendants statement is nil; it succeeds exactly when both queries answered and the insert succeeded, and then exactly one row joins the open transaction, holding the concept and the blobs of the two answers (each exact unless its scan failed); otherwise the transaction is unchanged |
| Prewalk.ConceptFacts | importer/snomed.go:377-406 | one concept's calls insert its row exactly when the walk of that concept succeeds and commit nothing; no call before the last is a failed query, insert Prepare or insert; the outcome is an error exactly when the last call failed; a crash ends where a nil statement was needed; on success the last call is the insert, the statement flags are unchanged, and the inserted row stores what the two queries before it answered |
| Prewalk.WalkedSnoc | importer/snomed.go:339-407 | appending the next concept's row keeps the rows aligned with the concept list |
| Prewalk.OpenBatch | importer/snomed.go:340-371 | the calls made are the commit of the open transaction (if any), Begin, then the three Prepares while Begin and the insert Prepare succeed; the log gains the open rows exactly when that commit succeeds; it crashes exactly when Begin failed, and goes on exactly when Begin and the insert Prepare succeeded, with an empty transaction open; each statement flag is the outcome of its Prepare |
| Prewalk.OpenedFacts | importer/snomed.go:340-371 | opening a batch inserts nothing and adds exactly the commit's outcome (if there was a transaction); no call before the last is a failed query, insert Prepare or insert; the outcome is an error exactly when the last call failed; a crash ends in a failed Begin; on success the statement flags are what the last Prepares answered |
| Prewalk.OpenStep | importer/snomed.go:340-371 | the batch opening inside the loop: its calls are exactly the commit (if a transaction is open), Begin and the Prepares, carrying the answers received; it crashes when Begin failed, fails when the insert Prepare failed, and otherwise goes on with an empty transaction open; the committed log stays the kept batches |
| Prewalk.ConceptStep | importer/snomed.go:377-406 | one concept inside the loop: its calls are exactly the two queries and the insert, as far as they are made, carrying the answers received, and the row inserted stores what the queries answered; the outcome is the one those answers determine; only a successful walk adds the row to the open transaction |
| Prewalk.WalkStep | importer/snomed.go:377-406 | the same for the concept at the loop index: a success leaves the loop state extended by that concept's row; otherwise the walk stops with the last call telling why |
| Prewalk.OpenSucceeds | importer/snomed.go:340-371 | a batch opening in which no call was refused began a transaction and prepared all three statements |
| Prewalk.ConceptSucceeds | importer/snomed.go:377-406 | a concept walked with both statements in which no call was refused succeeds |
| Prewalk.StepSucceeds | importer/snomed.go:339-406 | a pass in which no call was refused succeeds and leaves both statements prepared |
| Prewalk.RunSucceeds | importer/snomed.go:339-407 | a loop in which no call was refused has not stopped, and holds both statements once a pass was made |
| Prewalk.Iterate | importer/snomed.go:339-406 | one pass of the loop: its calls and outcome are exactly those of `Step` on the answers received; either the loop state (rows, committed log, open transaction, statement flags) is extended by one concept, or the walk stops with the last call telling why |
| Prewalk.OpenAndWalk | importer/snomed.go:339-406 | a pass at a multiple of 20000 (batch opening, then the concept), with the contract of Iterate |
| Prewalk.WalkWithin | importer/snomed.go:377-406 | a pass inside a batch (the concept alone), with the contract of Iterate |
| Prewalk.BatchedCommit | importer/snomed.go:340-346 | a boundary commit extends the committed log by the open batch exactly when it succeeds |
| Prewalk.BatchedInsert | importer/snomed.go:403 | an insert into an unfilled batch keeps the batch bookkeeping |
| Prewalk.BatchedFinal | importer/snomed.go:409 | after the final commit the log is the kept batches of all rows |
| Prewalk.WalkAll | importer/snomed.go:339-407 | the calls and outcome are exactly those of the reference loop `Run` on the answers received, one pass per concept walked and every concept walked when it completes; the loop inserts, concept by concept in order, a row holding what its two queries answered; no call before the last is a failed query, insert Prepare or insert; it fails exactly when the last call failed, and a crash ends in a failed Begin or where a nil statement was needed; the committed log is the kept batches so far; completing means a row for every concept, with the last batch still open |
| Prewalk.WalkAndCommit | importer/snomed.go:339-409 | the loop followed by the final commit: the calls and outcome are exactly those of `Completed` on the answers received; when no call was refused it completes, unless the concept list is empty; it completes exactly when the last call is that commit, fails exactly when the last call failed, and crashes exactly when no call was made (the nil-transaction commit), Begin failed, or a nil statement was needed; after completing, no transaction is open |
| Prewalk.PrewalkSnomedGraph | importer/snomed.go:313-413 | the first call is the concept query, and a failed one is an error with nothing else done; after an answered one the calls and outcome are exactly those of `Completed` on the concepts and the answers received, so the walk goes on as long as nothing fails; when no call was refused it returns nil unless there are no concepts; when its rows scan, the concepts are the is-a table's, once each, and otherwise the list is empty; no call before the last is a failed query, insert Prepare or insert; the outcome is nil exactly when the last call is the final commit, an error exactly when the last call failed, and a panic exactly when the calls end in a failed Begin, a nil statement, or a concept query with no concepts; each inserted row stores what its two queries answered (its concept's exact closures unless a scan failed, then the empty blob); the table receives exactly the batches whose commit succeeded; it returns nil exactly when every concept got a row |
| Words.ElementsCard | intset.go:14-18 | a slice has at least as many entries as distinct elements |

## Left out

- Expand.ValueSetComposeFiltersToNsFilters: requires a compose section instead of modelling the panic of `valueSetComposeFiltersToNsFilters`, which dereferences `vs.Compose` (expand.go:35) even when it is nil.
- `Intset.Iter` sends the members over a channel from a goroutine. Goroutines and channels are not modelled; `ToInt64Slice` covers the enumeration.
- Intsets.Intset.ToIntSlice: the conversion `int(v)` is the identity, as on a 64-bit platform; 32-bit truncation is not modelled.
- The order of the elements in `ToInt64Slice`, `ToIntSlice` and the query results is Go map order or SQLite's row order. Both are unspecified, so the contracts fix only the elements.
- `ExpandValueSet` looks a value set up in storage and prints it for debugging. The storage layer (storage.go, rest_storage.go) is not part of this model.
- The HTTP server, configuration, database handles, command-line programs, LOINC importer and generic import helpers (server.go, config.go, db.go, db/db.go, cmd/, importer/importer.go, importer/loinc.go) are I/O and are not part of this model.
- The SNOMED importer's table DDL, its CSV import statements, `createSnomedTables`, `importSnomedConcepts`, `importSnomedRelationships`, `importSnomedDescriptions`, `execStmt`, `ImportSnomed`, `dirContent` and `findFile` run SQL text or walk the file system, so they are not modelled.
- `escapeQuotes` opens and creates files and ignores their errors. The model starts from the sequence of lines: `bufio.Scanner`'s line splitting, its 64 KiB line limit and its removal of carriage returns are not modelled.
- `getAncestorsDescendants` is an empty function that nothing calls.
- SQLite is a `Database` class. Its queries answer by contract, and any call may fail at any time (a nondeterministic choice). The recursive CTEs are specified by their least-fixpoint result (`Closure.Close`), not evaluated as SQL.
- Prewalk.Database.Prepare: a statement is identified by its kind only; its SQL text is not modelled, and the model does not tie a statement to the transaction it was prepared in (the walk only uses statements of the transaction currently open).
- `rows.Close` and the result sets left open on an error path are not modelled. Neither are the log messages.
- Prewalk.PrewalkSnomedGraph: it does not state that running the pre-walk twice gives the same table. The row order of the closure queries is unspecified, so the blobs are determined only up to order. The contract states the set each blob decodes to.
- `binary.Write` on a `[]int64` into a `bytes.Buffer` cannot fail. Its error branches are left out.
- The capacity hints of `make` (355000, 200000) have no observable effect.
