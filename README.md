# Timezone store batch job: a verified model

The job fetches timezone reference data from the TimezoneDB API and keeps it
in a SQLite file with three tables: `TZDB_TIMEZONES` (the zone catalog),
`TZDB_ZONE_DETAILS` (the enrichment cache, UNIQUE on `(zoneName, countryCode)`)
and `TZDB_ERROR_LOG` (declared but never written). One run does three things
in order:

1. `create_tables` creates whichever of the three tables is missing.
2. `populate_timezones_table` replaces the catalog with the zone list from the
   API. If the list call yields nothing, the catalog is left alone.
3. `populate_zone_details_table` walks the catalog. It skips every pair that
   already has a detail row. For every other pair it calls the API. Each
   successful response goes into a temporary stage table. At the end the stage
   is merged into the details table with `INSERT OR IGNORE`, and the stage is
   dropped.

The model has four files:

- `wrappers.dfy`: `Option`, the result of every API call.
- `tzdb_model.dfy` (module `TzdbModel`): the row types, the natural key, and
  the catalog refresh as a function (`ReplaceCatalog`).
- `enrichment.dfy` (module `Enrichment`): the enrichment pass as functions.
  `Calls` gives the detail queries issued. `StageOf` gives the staging table.
  `MergeIgnore` is the `INSERT OR IGNORE` merge. `Enrich` is the whole pass.
  The module also holds the lemmas that state the pass's laws.
- `database.dfy` (module `TzdbJob`): class `Database`. Its fields are the
  tables, and its methods are the script's functions. The catalog and
  enrichment methods are proved against the functions above; the schema
  methods state the new tables directly.

Modelling choices:

- The API becomes parameters. The zone-list response is an
  `Option<seq<ListedZone>>`. `None` stands for every falsy result: the `None`
  returned on a non-200 status, or a falsy JSON value such as `{}`, `[]` or
  `null`. A body that is not JSON at all makes `response.json()` raise, which
  is a crash and is not modelled. The detail call is a function `DetailOracle` from the query
  parameters `(zone, country)` to `Option<ZoneInfo>`.
- Wall-clock timestamps come from a `Clock`, a function from the loop position
  to an opaque `real`. They are stored and never inspected.
- The SQLite "no such table" error (a crash that commits nothing) is the
  `Outcome` value `NoSuchTable`, and the tables are left unchanged.
- The staged row takes its key from the response, not from the queried pair
  (scripts.py:76). A pair whose response names a different pair gets no row
  from its own call. Unless some other response names it, it is queried again
  on the next run (`Enrichment.ResponseKeyDecidesRow`).
- The stage is created with `CREATE TABLE ... AS SELECT ... WHERE 0`
  (scripts.py:67), which copies the columns but not the UNIQUE constraint. A
  pair listed twice that has no detail row and whose call succeeds is
  therefore staged twice (`Enrichment.DuplicatePairStagedTwice`). When every
  answer names the pair asked about and details is unique, the merge keeps
  only the row from the pair's first position
  (`Enrichment.DuplicatePairKeepsFirst`).

## Model

| member | source | states |
|---|---|---|
| `TzdbModel.CatalogRows` | scripts.py:56-59 | The rows the insert loop writes: one per listed zone, each naming a listed zone; the order and timestamps are stated by `CatalogRowsMirror`. |
| `TzdbModel.CatalogKeys` | scripts.py:68 | The pairs `SELECT zoneName, countryCode` reads from the catalog: one per row, in row order. The enrichment loop walks this sequence. |
| `TzdbModel.StagedRow` | scripts.py:75-76 | The row staged for a response carries the response's own key, its country name and the current time. The row's key therefore comes from the answer, not from the queried pair. |
| `TzdbModel.CatalogRowsAt` | scripts.py:56-59 | The row inserted for listed position i carries that zone's (zoneName, countryCode) pair and the i-th timestamp. |
| `TzdbModel.CatalogRowsMirror` | scripts.py:56-59 | The rows inserted for a zone list are one per listed zone, with the same (zoneName, countryCode) pairs in response order; row i carries the i-th timestamp. |
| `TzdbModel.ReplaceCatalog` | scripts.py:51-61 | All-or-nothing refresh. With no data the catalog is unchanged. With data the catalog is exactly the listed pairs in order, its length is the listing's, and no old row survives. |
| `Enrichment.Attempt` | scripts.py:71-76 | One loop iteration stages at most one row. It stages a row exactly when the pair has no detail row and its call succeeds, and that row is the response stamped with the iteration's time. |
| `Enrichment.StageOf` | scripts.py:69-76 | The stage after the loop: at most one row per catalog position. Its content is stated by `StageSound`, `StageComplete`, `StagePrefix` and `StagedAt`. |
| `Enrichment.InsertOrIgnore` | scripts.py:77 | One `INSERT OR IGNORE` row step. Afterwards the row's key is present and the old rows are an unchanged prefix. One row is added exactly when the key was absent, and the added row is `row` itself. |
| `Enrichment.MergeIgnore` | scripts.py:77 | The merge of the whole stage, in stage order. It adds at most one row per staged row and removes none. Its laws are `MergeKeepsExisting`, `MergeKeys`, `MergePreservesUnique`, `MergeFirstWins`, `MergeNeverOverwrites` and `MergeOfPresentKeys`. |
| `Enrichment.Enrich` | scripts.py:64-80 | One whole pass, with the merge applied to the loop's stage. It adds at most one row per catalog position. Its laws are `EnrichKeepsDetails`, `FailedPairGetsNoRow`, `StagedKeyEnriched`, `EnrichIdempotent` and `SecondPassRetriesOnlyFailures`. |
| `Enrichment.Calls` | scripts.py:69-73 | Skip law, both directions. A detail query is issued for a pair if and only if the pair is in the catalog and absent from details. |
| `Enrichment.StageSound` | scripts.py:72-76 | Every staged row is the response to a queried pair whose call succeeded, stamped at that pair's position. A failed or skipped pair stages nothing. |
| `Enrichment.StageComplete` | scripts.py:69-76 | A failure does not stop the loop. Every queried pair whose call succeeds, at any position, has its response staged. |
| `Enrichment.MergeKeepsExisting` | scripts.py:77 | The merge is insert-if-absent. The old details are a prefix of the result, unchanged, with none removed. Every added row is a staged row. |
| `Enrichment.MergeKeys` | scripts.py:77 | A key is in details after the merge if and only if it was in details or in the stage before. |
| `Enrichment.MergePreservesUnique` | scripts.py:34-41 | If details had no two rows with the same (zoneName, countryCode) before the merge, it has none after. |
| `Enrichment.MergeFirstWins` | scripts.py:67-77 | For a staged key absent from details, the first staged row with that key is added, and it is the only row with that key afterwards. |
| `Enrichment.MergeNeverOverwrites` | scripts.py:77 | A row of details survives the merge, and it stays the only row with its key. A staged row with the same key is dropped. |
| `Enrichment.MergeOfPresentKeys` | scripts.py:77 | A stage whose keys are all in details already leaves details unchanged. |
| `Enrichment.EnrichKeepsDetails` | scripts.py:64-80 | One pass keeps details unique and keeps every old detail row in place and unaltered. |
| `Enrichment.FailedPairGetsNoRow` | scripts.py:73-76 | Assume every successful call answers for the pair it was asked about. Then a pair without detail whose call fails still has no detail row after the pass. |
| `Enrichment.StagedKeyEnriched` | scripts.py:74-77 | The key of every successful response in a pass is in details after the pass. |
| `Enrichment.EnrichIdempotent` | scripts.py:64-80 | A second pass over the same pairs with the same oracle leaves details exactly as the first pass left it. This holds for any clock and needs no assumption on the answers. |
| `Enrichment.SecondPassRetriesOnlyFailures` | scripts.py:71-77 | Assume every successful call answers for the pair it was asked about. Then the second pass queries only pairs that the first pass queried and that failed. No pair enriched by the first pass is queried again. |
| `Enrichment.StageIsPrefix` | scripts.py:69-76 | The stage for the first j catalog positions is a prefix of the final stage: later positions only append. |
| `Enrichment.StagePrefix` | scripts.py:69-76 | The stage is built in catalog order. The rows staged for the positions before i, followed by position i's row if any, are a prefix of the final stage. |
| `Enrichment.StagedAt` | scripts.py:69-76 | Position i's staged row sits right after the rows of earlier positions, and every row ahead of it answers an earlier catalog position. |
| `Enrichment.DuplicatePairStagedTwice` | scripts.py:67-76 | Take any catalog that lists a pair at positions i < j, where the pair has no detail row and its call succeeds. The pair is then staged twice, position i's row before position j's, whatever the answer names. |
| `Enrichment.DuplicatePairKeepsFirst` | scripts.py:67-77 | Let i be a pair's first catalog position, where the pair has no detail row and its call succeeds. If details is unique and every answer names the pair asked about, position i's row is added and is the only row with that key. Later duplicates of the pair are dropped. |
| `Enrichment.ResponseKeyDecidesRow` | scripts.py:71-77 | Take any catalog holding a pair that is absent from details and whose response names another pair. If no response of the pass names this pair, it still has no detail row after the pass, and the next pass queries it again. |
| `Enrichment.TwoZoneScenario` | scripts.py:64-80 | New York and London with both calls succeeding: one pass stores exactly those two rows with the returned country names. A second pass issues no query and changes nothing. |
| `TzdbJob.Database.constructor` | scripts.py:26 | A file that does not exist yet has no tables. |
| `TzdbJob.Database.CreateTableIfAbsent` | scripts.py:28-46 | `CREATE TABLE IF NOT EXISTS`. An absent table is added empty; an existing one keeps its rows. |
| `TzdbJob.Database.CreateTables` | scripts.py:25-48 | All three tables exist afterwards. Each table that existed keeps its rows, and each new one starts empty. |
| `TzdbJob.Database.PopulateTimezones` | scripts.py:51-61 | With no data nothing changes. With data the catalog becomes `ReplaceCatalog` of the old one; the loop invariant is `CatalogRows` of the zones inserted so far. A missing catalog table is reported and nothing changes. Details, the error log and the schema are untouched. |
| `TzdbJob.Database.FindDetail` | scripts.py:71 | The existence query returns a row of details with the asked key, or nothing exactly when no row has that key. |
| `TzdbJob.Database.StageCatalog` | scripts.py:69-76 | The loop over the catalog pairs. Afterwards the stage is `StageOf` the pairs and the queries issued are `Calls` of the pairs. Details, catalog, schema and error log are unchanged. |
| `TzdbJob.Database.PopulateZoneDetails` | scripts.py:64-80 | The queries issued are `Calls` of the catalog pairs. Details become `Enrich` of the old details, and stay unique. The stage is dropped. A missing details or catalog table is reported, in that order, and nothing changes. |
| `TzdbJob.Database.RunJob` | scripts.py:83-86 | Runs `main`: all tables exist, the catalog is refreshed, and details are enriched over the refreshed catalog. |
| `TzdbJob.JobRerunKeepsDetails` | scripts.py:83-86 | Rerunning the whole job with unchanged remote data keeps the catalog's pairs and leaves details exactly as the first run left them. |

## Left out

- HTTP, the API key and the URL (scripts.py:7, 14-22) are foreign I/O. They are replaced by the listing and oracle parameters. `query_timezone_db` ignores its `endpoint` argument and always requests `list-time-zone` (scripts.py:15). The oracle therefore takes the query parameters only, and what that endpoint really returns for a detail query is not part of this model.
- Logging (scripts.py:11, 21) is a side channel with no effect on the tables.
- Connections, cursors, commit and close are not modelled, and neither are auto-assigned `id` values. Each method body is one atomic transaction. A crash in the middle of a loop (network error, KeyError) is not modelled.
- Timestamps are opaque `real` values from a `Clock`. Each row is stamped at its loop position. SQLite's column affinity for the `INTEGER` timestamp column is not modelled.
- JSON shape: the model assumes well-formed records. Truthiness of a response is reduced to `Some`/`None`. A truthy body without `zones`, or a detail body missing a field, would crash the script (KeyError); that is not modelled.
- SQL NULLs are not modelled. All fields are strings, so the NULL cases of UNIQUE and `=` never arise in the model.
- The detail oracle is deterministic: the same pair gets the same answer within a pass and across passes. `EnrichIdempotent` and `JobRerunKeepsDetails` rely on this.
- Tables are sequences in insertion order. SQL itself promises no row order.
- `TZDB_ERROR_LOG` is only created. No step writes it, and every method keeps it unchanged.
- Concurrent runs of the job from several processes are not modelled.
