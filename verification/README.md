# cloudsize: a verified model of the sync engine

`cloudsize.py` mirrors CloudPools job and file metadata from the cluster's
management API (PAPI) into a local SQLite database with two tables, `jobs` and
`files`. It then sums the stored file sizes for a search string. This project
models the sync engine in Dafny and proves its properties:

- `addjobs`: discovery of completed jobs and the completion check;
- `addfiles`: the per-job pagination loop, the size rule, the escaping of
  names, insert-or-ignore under `UNIQUE(id, offset)`, and marking jobs
  Complete;
- the summation of search mode, and the unit selection of `hsize`.

Each table is a sequence of rows in insertion order, held in the class
`CloudSize.Store`. The SQL statements the code issues (`INSERT OR IGNORE`,
`UPDATE`, `count(*)`) are pure functions in module `Tables`. The Python loops
are methods of `Store`. Each method is proved against a specification
function: `Discover`, `SyncJob`/`SyncAll`, `MarkAll` and `MatchingTotal`.
Lemmas then prove the code's promises about those functions.

The remote side and the file system are given as data:

- the job listing is a sequence of `JobDescriptor`;
- the per-job file totals are a map;
- each job's file listing is a finite sequence of `Page`s, each with its
  files and a resume token;
- `os.stat` is a map from path to `st_size`. A path missing from the map
  stands for a failed stat.

Files: `quote.dfy`, `tables.dfy`, `remote.dfy`, `pagination.dfy`,
`discovery.dfy`, `search.dfy`, `humansize.dfy` and `cloudsize.dfy` (the
class).

Behaviour of the code worth knowing:

- A file listed as `<missing>` is never stat'ed and keeps the initial size
  0. Any other file whose stat fails is stored with size `NA` (lines
  237-255).
- The job map gets an entry for every completed job, queued or not: the
  assignment on line 206 is outside the `chkret == False` branch.
- The stored name is the listed name. Doubling the quotes (line 258) only
  makes the name a valid SQL text literal. SQLite reads `''` back as `'`, so
  the column holds the original text. The model writes the name as
  `Unescape(Escape(name))` and proves that this equals `name`.
- A row id is the job id followed directly by the file id, with no
  separator (line 262). Two jobs can therefore produce the same id on the
  same page index, and the second row is silently ignored. The job that
  loses its row never reaches its remote total, so every later run queues
  it again (`RowIdsCanCollide`, `CollidingJobIsRequeued`).
- An encoding failure is not recovered. The ISO-8859-15 encode (line 243)
  runs outside the `try`, so a name that cannot be encoded aborts
  `addfiles`.

## Model

| member | source | states |
|---|---|---|
| `Quote.Escape` | cloudsize.py:258 | The escaped name is longer than the name by exactly its number of quotes, and holds twice as many quotes |
| `Quote.Unescape` | cloudsize.py:261-265 | How SQLite reads a text literal body (`''` stands for `'`): never longer than its input |
| `Quote.EscapePaired` | cloudsize.py:258 | After escaping, every single quote is the first half of a doubled pair |
| `Quote.UnescapeEscape` | cloudsize.py:258-265 | Collapsing `''` back to `'` recovers the original name, so the stored name is the listed name |
| `Quote.EscapeUnescape` | cloudsize.py:258 | Every paired string is the escape of its collapse, so escaping is a bijection onto the paired strings |
| `Tables.InsertJob` | cloudsize.py:190-203 | INSERT OR IGNORE into `jobs`: afterwards the id has a row. An existing id leaves the table unchanged, so an existing row keeps its state. A new id appends the row. `UNIQUE(id)` is preserved |
| `Tables.InsertFile` | cloudsize.py:219-220 | INSERT OR IGNORE into `files`: afterwards the (id, offset) key is present. An existing key leaves the table unchanged. A new key appends the row. `UNIQUE(id, offset)` is preserved |
| `Tables.MarkComplete` | cloudsize.py:274 | UPDATE to Complete, row by row: each row of the job becomes (id, Complete) and every other row stays as it was. Hence ids and row order are unchanged, the update is a no-op when the job has no row, and uniqueness is preserved |
| `Tables.CountRows` | cloudsize.py:137-138 | The `count(*)` of a job's file rows never exceeds the table size |
| `Tables.CountRowsIsCardinality` | cloudsize.py:137-138 | The count equals the number of row positions whose `job_id` is the job |
| `Tables.CountRowsGrows` | cloudsize.py:137-138 | Appending rows never lowers a job's count |
| `Remote.SizeOf` | cloudsize.py:237-255 | `<missing>` gets size 0 whatever the stat oracle says, so it is never stat'ed. Any other name gets NA exactly when stat fails, and `st_size` when stat succeeds |
| `Remote.FirstEnd` | cloudsize.py:229-234 | The index of the first page with a null resume token: every earlier page has a token and that page has none |
| `Remote.FirstEndExtends` | cloudsize.py:229-234 | Pages appended after a listing's end do not move the page at which the loop stops |
| `Remote.FetchPageAt` | cloudsize.py:230-232 | The request at remote offset k*100000 is answered with page k |
| `Remote.FetchPage` | cloudsize.py:230-234 | The answer to a request at a remote offset is the page whose first record is at that offset |
| `Pagination.FileRowFor` | cloudsize.py:258-265 | The row for a file has id = jobid ++ fileid, the listed name, the listed state, the size rule's size, offset = page index k, job_id = jobid and je_job = the engine id |
| `Pagination.InsertPage` | cloudsize.py:236-265 | A page's inserts only append rows (stored rows never change) and keep `UNIQUE(id, offset)` |
| `Pagination.InsertPageStoresKeys` | cloudsize.py:236-265 | After a page, every listed file's (jobid ++ fileid, k) key is stored |
| `Pagination.InsertPageRowShape` | cloudsize.py:236-265 | Every row a page adds is the row of one of the page's files |
| `Pagination.InsertPageNoop` | cloudsize.py:261-265 | A page whose keys are all stored, such as a replayed page, changes nothing |
| `Pagination.SyncPages` | cloudsize.py:229-273 | Syncing pages only appends rows and keeps `UNIQUE(id, offset)` |
| `Pagination.SyncPagesStep` | cloudsize.py:229-273 | Each pass of the page loop adds page k's rows with offset k (the page index, not k*100000) |
| `Pagination.SyncPagesStoresKeys` | cloudsize.py:229-273 | After syncing, every file of every page has its key stored |
| `Pagination.SyncPagesNoop` | cloudsize.py:261-265 | Pages whose keys are all stored add nothing |
| `Pagination.SyncPagesIdempotent` | cloudsize.py:229-273 | Replaying the same pages adds no row |
| `Pagination.SyncPagesResume` | cloudsize.py:224-273 | Committing the first m pages and then re-syncing from offset 0 gives the same rows as one uninterrupted sync |
| `Pagination.SyncJobIdempotent` | cloudsize.py:223-273 | Syncing a job twice gives the same `files` table as syncing it once |
| `Pagination.SyncJobResume` | cloudsize.py:223-273 | A job interrupted after m committed pages, re-run from offset 0, ends with the rows of an uninterrupted run |
| `Pagination.SyncJob` | cloudsize.py:229-273 | A job's sync over its pages up to the first one without a resume token only appends rows and keeps `UNIQUE(id, offset)` |
| `Pagination.SyncJobIgnoresLaterPages` | cloudsize.py:229-273 | Pages after the first one without a resume token are never fetched: appending them leaves the stored rows unchanged (the stopping page is `Remote.FirstEndExtends`) |
| `Pagination.RowIdsCanCollide` | cloudsize.py:261-262 | The id does not keep jobs apart: job 1 file 23 and job 12 file 3 share id "123", so on the same page index the second row is ignored and job 12 is left without it |
| `Pagination.JobRequests` | cloudsize.py:224-232 | The requests of a job's first n pages: exactly n requests, the k-th at remote offset k*100000 |
| `Pagination.ThreePageFeed` | cloudsize.py:229-234 | A feed whose third page has a null token is drained with exactly three requests, at 0, 100000 and 200000 |
| `Pagination.SyncAll` | cloudsize.py:223-273 | Syncing the whole work list only appends rows and keeps `UNIQUE(id, offset)` |
| `Pagination.SyncAllStep` | cloudsize.py:223-273 | Jobs are drained in work-list order: the rows of job i are added after those of the jobs before it |
| `Pagination.AllRequestsStep` | cloudsize.py:223-232 | The requests of job i follow those of the jobs before it |
| `Pagination.AllRequests` | cloudsize.py:223-232 | The requests of the whole work list: none exactly when the work list is empty |
| `Pagination.AllRequestsPerJob` | cloudsize.py:223-232 | Every job of the work list is asked for at least one page |
| `Pagination.MarkAll` | cloudsize.py:223-275 | Marking the work list Complete keeps row count, row order and ids, and keeps `UNIQUE(id)` |
| `Pagination.MarkAllStep` | cloudsize.py:223-274 | Job i is marked Complete after the jobs before it |
| `Pagination.MarkAllRow` | cloudsize.py:223-274 | Row by row, `jobs` after `addfiles`: a row whose job is in the work list is (id, Complete), every other row is as it was |
| `Pagination.MarkAllCompletes` | cloudsize.py:274 | A job of the work list that has a row ends Complete |
| `Pagination.MarkAllKeepsOthers` | cloudsize.py:274 | A job not in the work list keeps its row unchanged |
| `Discovery.CheckComplete` | cloudsize.py:120-126 | A job with no `jobs` row is reported as needing work |
| `Discovery.CheckCompleteCounts` | cloudsize.py:131-146 | Complete exactly when the job has a row and the remote total is at most the number of `files` rows whose `job_id` is the job |
| `Discovery.CheckCompleteStable` | cloudsize.py:120-146 | Inserting job or file rows never turns a complete job back into one that needs work |
| `Discovery.Discover` | cloudsize.py:192-207 | Discovery only appends `jobs` rows, never changes existing ones, and keeps `UNIQUE(id)` |
| `Discovery.DiscoverJobmap` | cloudsize.py:192-206 | The job map's keys are exactly the ids of the completed descriptors. Each id maps to the engine id of a completed descriptor for it |
| `Discovery.DiscoverJobmapKeys` | cloudsize.py:192-206 | The job map's keys are exactly the ids of the completed descriptors |
| `Discovery.DiscoverJobmapValues` | cloudsize.py:192-206 | Each id in the job map maps to the engine id of a completed descriptor with that id |
| `Discovery.DiscoverWorklist` | cloudsize.py:192-203 | Every queued id comes from a completed descriptor, is in the job map and has a `jobs` row. Every added row is a Processing row of a queued job |
| `Discovery.DiscoverSkipsComplete` | cloudsize.py:198-203 | A completed job that the store already holds in full is never queued |
| `Discovery.DiscoverWorklistIsNeedsSync` | cloudsize.py:192-203 | When the listing names each job once, the queue is exactly the completed jobs whose check was false before the run, in listing order |
| `Discovery.NeedsSync` | cloudsize.py:192-201 | The reference work list: no longer than the listing, and every entry is a completed job of the listing with a known total whose check fails against the store before the run |
| `HumanSize.HumanUnit` | cloudsize.py:149-155 | The unit index is at most 5 (PB). It is the largest k with nbytes >= 1024^k, capped at 5. The value left to render is nbytes in that unit |
| `HumanSize.UnitIsUnique` | cloudsize.py:151-155 | The unit characterisation admits exactly one index |
| `HumanSize.UnitExamples` | cloudsize.py:151-157 | 0 selects B, 1536 selects KB, 1073741824 selects GB, and 1024^7 still selects PB |
| `Search.MatchingTotalAppend` | cloudsize.py:168-171 | The total over two sets of rows is the sum of their totals |
| `Search.MatchingTotalOrderFree` | cloudsize.py:168-171 | Any permutation of the rows (equal multisets) gives the same total, so the order in which SQLite returns rows does not matter |
| `Search.MatchingTotalIgnoresNA` | cloudsize.py:168-171 | NA rows never contribute: dropping them leaves the total unchanged |
| `Search.MatchingTotalNarrows` | cloudsize.py:168-169 | A pattern that contains another never gives a larger total |
| `Search.SearchExample` | cloudsize.py:168-171 | With /a/foo.txt (1024), /a/bar.txt (NA) and /b/foo.txt (2048), searching for "foo" gives 3072 |
| `Search.Contains` | cloudsize.py:168-169 | The `LIKE '%s%'` match as substring containment: a prefix matches, the empty string matches every name, and a match is never longer than the name |
| `Search.MatchingTotal` | cloudsize.py:168-171 | The summed total: 0 when no row both matches and has a known size |
| `CloudSize.Store.constructor` | cloudsize.py:190 | A new database has both tables empty, so both uniqueness constraints hold |
| `CloudSize.Store.AddJobs` | cloudsize.py:178-212 | Returns the work list and job map, and leaves `jobs`, exactly as `Discover` gives them, keeping both constraints |
| `CloudSize.Store.InsertPageRows` | cloudsize.py:236-265 | The file loop of one page leaves `files` as `InsertPage` gives it |
| `CloudSize.Store.SyncJobFiles` | cloudsize.py:224-273 | The page loop stops after the first page without a resume token. It issues exactly `FirstEnd + 1` requests, the k-th at remote offset k*100000, and leaves `files` as `SyncJob` gives it |
| `CloudSize.Store.AddFiles` | cloudsize.py:215-277 | Leaves `files` as `SyncAll` gives it and `jobs` as `MarkAll` gives it, issues the requests of every queued job in order, and keeps both constraints |
| `CloudSize.Store.Update` | cloudsize.py:308-309 | After `addjobs` then `addfiles`: the work list and job map are those of `Discover` on the store before the run, the work list can be drained, and `files`, `jobs` and the requests are `SyncAll`, `MarkAll` and `AllRequests` applied to them. Every queued job is Complete, a job that was already complete was not queued, no stored file row is lost or changed, and the job rows of unqueued jobs are unchanged |
| `CloudSize.Store.Search` | cloudsize.py:160-171 | The total is the sum of sizes over rows whose name contains the search string and whose size is not NA |
| `CloudSize.CollidingJobIsRequeued` | cloudsize.py:137-146 | With job 1 file 23 and job 12 file 3 stored and both jobs Complete, job 12 holds no file row, its check fails, and the next `addjobs` queues it again |

## Left out

- `make_papi_call` (lines 69-109) is left out. It covers the HTTPS
  connection, the unverified SSL context, the Basic-auth header, the
  600-second timeout and the 5-retry loop, all of which are network I/O.
  The remote answers are parameters instead. On the retry path the code
  returns `json_resp` without ever assigning it, which is a defect of that
  function and is not modelled.
- Transport failures are not modelled. Neither an error raised by
  `make_papi_call` nor the unbound `json_resp` on line 109 is caught, so
  either ends the whole `addfiles` run. The jobs after the failing one in
  the work list are not synced in that run either. The failing job keeps
  its `jobs` row: Processing if it was inserted in this run, Complete if it
  was re-queued while already Complete. The pages committed before the
  failure stay. `SyncJobResume` proves that a later run of that job ends
  with the rows of an uninterrupted run.
- SQLite itself is left out: SQL text construction, `commit()` and
  durability (commits are no-ops here). Also left out are the unused
  `sqlite_master` query (line 128) and the `no such table: files` error that
  `check_complete` would raise if `jobs` rows existed before any `addfiles`
  run had created `files`.
- Only the name is escaped. A quote in a job id, file id or file state would
  break the INSERT statement. The model assumes such fields hold no quotes.
- `LIKE` semantics are approximated. The search is modelled as
  case-sensitive substring containment. SQLite's ASCII case folding and the
  `%`/`_` wildcards inside the search string are not modelled.
- JSON parsing and text encodings are left out. Names are already-decoded
  strings, and the encode failure on line 243 is not modelled.
- `os.stat` is modelled as an oracle map. Its exception message, printed on
  line 254, is not modelled.
- The decimal rendering of `hsize` (lines 154-157) is not modelled:
  `'%.2f'` and the stripping of zeros and the point. Only the unit index and
  the scaled value are. The scaled value is an exact real. For byte counts
  above 2^53 the float conversion in the code can round, which the model
  ignores.
- The CLI is left out: option parsing, the credential prompts, `print` and
  `sys.exit` (lines 280-311).
- Feeds that never end are left out. The code loops forever if no page has a
  null resume token. `SyncJobFiles` and `AddFiles` require each job's page
  sequence to end with a page that has no token.
- `check_complete` raises when the single-job view lists no job, because
  `totalfiles` is then unbound. When it lists several jobs the last one wins
  (lines 133-134). The model takes one total per job and requires a total
  for every completed job.
- `AddFiles` requires every queued id to be in the job map and in the feed.
  For a missing job-map key the code raises `KeyError` (line 235). `Update`
  proves that `addjobs` always puts every queued id in the job map
  (`DiscoverWorklist`). The feed half is a `requires` of `Update` itself:
  the listing of every completed job must be available and must end.
