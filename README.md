# GSDP ingestion and year lookup, modelled in Dafny

This project models the server side of the India GSDP map: how the backend
turns the rows of its CSV file into an index of state records by financial
year, how it caches that index, and how its two GSDP routes answer.

- `backend/utils/dataLoader.js`, `loadGsdpData`:
  - takes the year columns from the first row (key order, the patterns
    `^\d{4}-\d{2}$` and `^\d{4}-\d{2} `);
  - skips rows whose `Sl. No.` or `State` is missing or empty;
  - parses every year cell with `parseFloat` and drops NaN;
  - renames states through its table;
  - appends one `{sl_no, state, state_code, gsdp}` record per parsed cell to
    that year's list in the module-level object `gsdpDataByYear`;
  - returns that object as it is whenever it already has keys.
- `backend/routes/data.js`:
  - `GET /gsdp/years` answers with the object's keys;
  - `GET /gsdp/:year` answers with the exact key's list, else the list of the
    first key that starts with the request, else `[]`;
  - both answer with a server error when the load rejects.

Modules:

- `Wrappers` (`wrappers.dfy`): `Option` and `Result`.
- `JsNumber` (`js_number.dfy`): the part of JavaScript's `parseFloat`/`isNaN`
  that decides whether a cell counts and what value it has. It skips leading
  ECMAScript white space, reads an optional sign, and accepts `Infinity` or the
  longest decimal literal prefix. A finite value is kept exactly, as
  significand × 10^exponent. NaN is `None`.
- `Ingestion` (`ingestion.dfy`):
  - the data model: `CsvRow` is an object with distinct ordered keys;
    `GsdpRecord`; `YearIndex` is the cached object's keys in insertion order
    plus the map from key to list;
  - the year-column pattern as a character predicate, and the state check;
  - the state table and its lookup;
  - the ingestion written as a fold (`AddCell`, `AddCells`, `IngestRows`,
    `BuildIndex`), next to an independent description of each year's list
    (`Records`, built from what each row contributes).
- `IngestionProofs` (`ingestion_proofs.dfy`): what ingestion promises, proved
  about the fold.
- `DataLoader` (`data_loader.dfy`):
  - `LoadStep` is one call of `loadGsdpData`: the cache it finds and the
    stream's outcome in, the cache afterwards and the promise's outcome out;
  - `GsdpCache` is the mutable cache. Its `Load` method runs the two nested
    `forEach` loops in place and is proved to end in the state and result
    `LoadStep` gives;
  - lemmas on caching and failure.
- `DataRoutes` (`data_routes.dfy`): year resolution and the two handlers, over
  the loader's outcome.
- `GsdpScenario` (`scenario.dfy`): a worked example. The file has header
  `Sl. No., State, 2016-17, 2017-18` and the one row `1, Odisha, 120000, 135000`.

Two points where the code's behaviour is not what a reader of its comments
or of the documented intent would expect. In both, the model follows the code:

- The second year pattern is `/^\d{4}-\d{2} /`, a literal space after
  `yyyy-yy`. A tab or other white space there does not make a year column.
- The value filter is only `!isNaN(parseFloat(cell))`. A cell reading
  `Infinity` or `-Infinity` is accepted as a value, and so is text that merely
  starts with a number, such as `12abc`.

## Model

| member | source | states |
|---|---|---|
| Ingestion.YearColumns | backend/utils/dataLoader.js:27-30 | a key is among the year columns exactly when it is a key of the first row and matches one of the two year patterns; the columns are distinct when the keys are; their order is stated by `YearColumnsAppend` |
| IngestionProofs.YearColumnsAppend | backend/utils/dataLoader.js:28-30 | `filter` keeps key order: the year columns of two runs of keys are those of the first run followed by those of the second |
| Ingestion.IsYearColumn | backend/utils/dataLoader.js:28-30 | definition, no contract of its own: four digits, `-`, two digits, then the end of the key or a space, the two patterns `^\d{4}-\d{2}$` and `^\d{4}-\d{2} `; `YearColumns` is specified in its terms |
| Ingestion.HasStateInfo | backend/utils/dataLoader.js:36 | definition, no contract of its own: both `Sl. No.` and `State` are present and non-empty, the negation of the skip test; `NoStateInfoNoRecords` and `SkippedRowInvisible` state what the skip does |
| JsNumber.ParseFloat | backend/utils/dataLoader.js:45 | definition, no contract of its own: skip leading white space, an optional sign, then `Infinity` or the longest decimal prefix, NaN as `None`; the `JsNumber.ParseFloat…` lemmas state its properties |
| Ingestion.ParseCell | backend/utils/dataLoader.js:45-46 | definition, no contract of its own: `parseFloat(row[yearCol])`, with a missing cell read as `undefined` and so NaN; `ContributionCases` states the filter |
| Ingestion.TableName | backend/utils/dataLoader.js:48-85 | definition, no contract of its own: the 29-entry `stateNameMap`, used only when the entry is truthy; `CanonicalNameIsTableLookup` reduces it to its two renamings |
| Ingestion.CanonicalName | backend/utils/dataLoader.js:48-85 | definition, no contract of its own: the two renamings, identity otherwise; shown equal to `TableName` by `CanonicalNameIsTableLookup` |
| Ingestion.MakeRecord | backend/utils/dataLoader.js:87-92 | definition, no contract of its own: `{sl_no, state, state_code, gsdp}` from `Sl. No.`, the renamed state, `Sl. No.` again and the parsed value; `RecordsSound` and `SameRowSameIdentity` state its properties |
| Ingestion.Records | backend/utils/dataLoader.js:34-95 | reference definition, no contract of its own: a year's list is the rows' contributions in row order; `BuildIndexSpec` and `IngestFromEmpty` tie the fold to it |
| Ingestion.AddCell | backend/utils/dataLoader.js:40-93 | definition, no contract of its own: one inner-loop step; its effect is stated by `AddCellEffect` |
| Ingestion.AddCells | backend/utils/dataLoader.js:39-94 | definition, no contract of its own: the inner loop over the year columns; stated by `AddCellsFresh` and `AddCellsExisting` |
| Ingestion.AddRow | backend/utils/dataLoader.js:35-94 | definition, no contract of its own: the outer loop's body, skipping a row without state information |
| Ingestion.IngestRows | backend/utils/dataLoader.js:34-95 | definition, no contract of its own: the outer loop over the rows; `IngestFromEmpty` states what it builds |
| Ingestion.BuildIndex | backend/utils/dataLoader.js:27-95 | definition, no contract of its own: ingestion into the empty object with the first row's year columns; `BuildIndexSpec` states what it builds |
| IngestionProofs.BuildIndexSpec | backend/utils/dataLoader.js:27-95 | the index built from a file is well formed. Its keys are the first row's year columns in key order when some row passes the state check, and none otherwise. Every key is a year column of the first row, and each key's list is `Records` for that year |
| IngestionProofs.IngestFromEmpty | backend/utils/dataLoader.js:34-95 | ingesting any rows into the empty object with distinct columns: well formed, keys are the columns once a row passes the state check (empty lists included), each list is `Records` |
| IngestionProofs.ContributionCases | backend/utils/dataLoader.js:36-46 | a row contributes at most one record to a year. It contributes one exactly when it passes the state check and its cell parses to a non-NaN number, and that record is the row's record for the year |
| IngestionProofs.NoStateInfoNoRecords | backend/utils/dataLoader.js:34-36 | if no row passes the state check, no year has any record |
| IngestionProofs.SkippedRowContributesNothing | backend/utils/dataLoader.js:36 | deleting a row without `Sl. No.` or `State` leaves every year's list unchanged |
| IngestionProofs.SkippedRowInvisible | backend/utils/dataLoader.js:27-36 | deleting such a row (other than the first, which fixes the columns) leaves the whole index unchanged |
| IngestionProofs.BadCellOnlyDropsItsYear | backend/utils/dataLoader.js:44-46 | a row that passes the state check but whose cell for one year is NaN adds nothing to that year, while a parsed cell of the same row still adds the row's record to its own year |
| IngestionProofs.RecordsSound | backend/utils/dataLoader.js:87-92 | every record in a year's list is the record some row emits for that year: `sl_no` and `state_code` are the row's `Sl. No.`, `gsdp` is the parsed cell, `state` is the renamed state |
| IngestionProofs.RecordsSplit | backend/utils/dataLoader.js:34-92 | a year's list is the records of the rows before a row, then that row's own contribution, then the records of the rows after it: row order is kept, and each row's part depends on that row alone |
| IngestionProofs.RecordsAppend | backend/utils/dataLoader.js:34-92 | the list for two consecutive stretches of rows is the first stretch's list followed by the second's |
| IngestionProofs.SameRowSameIdentity | backend/utils/dataLoader.js:48-92 | two records a row emits in different years carry the same `sl_no`, `state_code` and renamed state |
| IngestionProofs.CanonicalNameIsTableLookup | backend/utils/dataLoader.js:48-85 | the source's table lookup (entry used when truthy) renames `Odisha` to `Orissa` and `Jammu & Kashmir` to `Jammu and Kashmir` and leaves every other name, listed or not, unchanged; it equals `CanonicalName` on every name |
| IngestionProofs.AddCellEffect | backend/utils/dataLoader.js:39-92 | one inner-loop step keeps the object well formed, appends the year to the keys only when it was absent, sets that year's list to its old list (or `[]`) followed by the row's contribution, and changes no other key |
| IngestionProofs.AddCellsFresh | backend/utils/dataLoader.js:39-42 | the first row to pass the state check creates every column as a key, in column order, each holding just that row's contribution |
| IngestionProofs.AddCellsExisting | backend/utils/dataLoader.js:39-46 | once every column is a key, a row leaves the keys as they are and extends each column's list by its contribution, touching no other key |
| IngestionProofs.SingleRowIndex | backend/utils/dataLoader.js:27-95 | a single-row file whose row passes the state check: the keys are its year columns, each holding that row's contribution |
| IngestionProofs.SingleRowYear | backend/utils/dataLoader.js:39-92 | in such a file, a year column whose cell parses holds exactly the row's record with that value |
| IngestionProofs.EmptyWellFormedIsEmpty | backend/utils/dataLoader.js:10-16 | a well-formed object with no keys is the empty object the module starts with |
| JsNumber.ParseFloatIntegerPrefix | backend/utils/dataLoader.js:45-46 | a cell starting with a decimal integer that nothing extends parses to that integer, whatever text follows |
| JsNumber.ParseFloatRendersNat | backend/utils/dataLoader.js:45-46 | the decimal rendering of any natural number parses back to that number |
| JsNumber.ParseFloatIgnoresLeadingWhiteSpace | backend/utils/dataLoader.js:45-46 | leading white space never changes the parse |
| JsNumber.ParseFloatMinus | backend/utils/dataLoader.js:45-46 | a leading minus sign before a text that does not itself start with white space or a sign negates its parse, and NaN stays NaN |
| JsNumber.ParseFloatWithoutDigitsIsNaN | backend/utils/dataLoader.js:45-46 | a cell containing no digit and no `I`, such as an empty cell, `NA` or `-`, is NaN and so contributes nothing |
| JsNumber.ParseFloatInfinity | backend/utils/dataLoader.js:45-46 | a cell starting with `Infinity` or `-Infinity` is not NaN, so it is kept |
| DataLoader.GsdpCache.constructor | backend/utils/dataLoader.js:10 | the cache starts as the empty, valid object |
| DataLoader.GsdpCache.Load | backend/utils/dataLoader.js:13-112 | the in-place load keeps the cache valid (distinct year-column keys, each with a list) and leaves exactly the state and result `LoadStep` gives for the old cache and the stream |
| DataLoader.GsdpCache.AddRowInPlace | backend/utils/dataLoader.js:39-94 | the loop over the year columns for one row leaves the object equal to `AddCells` of its old value |
| DataLoader.GsdpCache.AddCellInPlace | backend/utils/dataLoader.js:40-93 | creating the key when missing and pushing the record when the cell parses leaves the object equal to `AddCell` of its old value |
| DataLoader.LoadIntoEmptyCache | backend/utils/dataLoader.js:16-102 | the first load into the empty cache, from a stream with rows, resolves with `BuildIndex` of the rows and caches it |
| DataLoader.LoadStep | backend/utils/dataLoader.js:13-112 | one call of `loadGsdpData`: the promise resolves with the cache object itself, and a rejected load (a parser error, or no row for `results[0]`) leaves the cache as it found it, which was empty |
| DataLoader.LoadFailsIff | backend/utils/dataLoader.js:16-111 | a load rejects exactly when the cache is empty and either the `csv-parser` stream emits `error` or it delivers no row, so that `results[0]` is undefined |
| DataLoader.LoadIsCached | backend/utils/dataLoader.js:16-18 | once a load leaves keys in the cache, every later load returns that same object and ingests nothing, whatever the stream holds |
| DataLoader.EmptyResultIsNotCached | backend/utils/dataLoader.js:16-42 | when no row passes the state check, or the first row has no year column, the cache stays empty and the next load ingests its own rows afresh |
| DataLoader.SecondLoadReturnsFirstIndex | backend/utils/dataLoader.js:16-18 | a second load after a first load that produced keys returns the first file's index |
| DataRoutes.FindFirstStartingWith | backend/routes/data.js:69 | `find`: the index returned is of a key that starts with the request, and no earlier key does; none is found exactly when no key starts with it |
| DataRoutes.ExactYearWins | backend/routes/data.js:61-66 | an exact key's list is returned, even an empty one and even when an earlier key has the request as a prefix |
| DataRoutes.FirstPrefixMatchWins | backend/routes/data.js:68-75 | without an exact key, the list of the first key in key order that starts with the request is returned |
| DataRoutes.UnknownYearIsEmpty | backend/routes/data.js:77-79 | a request that is no key and no key's prefix gets `[]`, not an error |
| DataRoutes.ResolveYear | backend/routes/data.js:54-79 | the answer is `[]` or the list of a key that starts with the request, never anything else |
| DataRoutes.YearsResponse | backend/routes/data.js:37-45 | status 200 exactly when the load resolves, with the object's keys as body; otherwise a 500 with `message: 'Server error'` and the rejection's message |
| DataRoutes.YearResponse | backend/routes/data.js:49-84 | status 200 exactly when the load resolves, with the year resolved in the object as body; otherwise a 500 with `message: 'Server error'` and the rejection's message |
| DataRoutes.YearsOfFirstLoad | backend/routes/data.js:39-40 | after the first load, `/gsdp/years` lists the first row's year columns in header order when some row passes the state check, and `[]` otherwise |
| DataRoutes.YearOfFirstLoad | backend/routes/data.js:54-79 | after the first load, `/gsdp/:year` answers with the year resolved in the file's index |
| DataRoutes.ResolvedRecordsComeFromRows | backend/routes/data.js:54-79 | every record resolved for a request is the record some row emits for a year column that starts with the request |
| DataRoutes.FailedLoadIsServerError | backend/routes/data.js:80-83 | a rejected load makes both routes answer with a server error carrying the error's message, never a list |
| GsdpScenario.FirstCellParses | backend/utils/dataLoader.js:45 | the example's cell `120000` parses to 120000 |
| GsdpScenario.SecondCellParses | backend/utils/dataLoader.js:45 | the example's cell `135000` parses to 135000 |
| GsdpScenario.ScenarioResponses | backend/routes/data.js:37-79 | for the example file, the years are `2016-17, 2017-18`. `2016-17` answers with `{sl_no: "1", state: "Orissa", state_code: "1", gsdp}`, `2016` gives the same list by prefix, and `2020` gives `[]` |
| GsdpScenario.ScenarioResolution | backend/routes/data.js:61-79 | in an index keyed `2016-17, 2017-18`, each key resolves to its own list, `2016` resolves to `2016-17`'s list and `2020` resolves to `[]` |

## Left out

- Reading the file is not modelled: the stream, `csv-parser`, the
  `__dirname` path and the pushes into `results`. The rows the parser delivers,
  or the parser's own `error` event (`ParserError`), are an input (`Source`). Header handling, quoting and
  duplicate columns are the parser's business. A row is taken to be an object
  with distinct keys in header order.
- `parseFloat` is modelled only to the extent the loader depends on it.
  Values are exact decimals, so there is no IEEE-754 rounding, no overflow of
  huge literals to Infinity and no negative zero. `1.50` and `1.5` are
  different `Num` values even though the JSON output would print them alike.
- Errors of the file stream itself are not modelled. The `error` listener
  is attached to the stream that `.pipe(csv())` returns, and `pipe` does not
  forward errors of the `fs.createReadStream` source. A missing or unreadable
  file therefore raises an unhandled `error` event instead of rejecting: the
  promise never settles, the event is an uncaught exception and, with no
  handler for it in `backend/index.js`, the server process exits. `Source`
  has no case for this, and `LoadFailsIff` covers only the parser's own
  errors and a file without rows.
- Concurrency: two overlapping first calls would both ingest into the shared
  object and duplicate every record. The model runs one load at a time, and
  the promise is a plain result.
- Aliasing: the promise resolves with the cache object itself. The model
  returns a copy of its value, so a caller that mutated the object would not
  be modelled.
- Inherited object properties: a request such as `constructor`, or a state
  named after an `Object.prototype` member, would find an inherited property
  where the model finds no entry.
- `Object.keys` puts integer-like keys first. Year columns contain a `-` and
  are never integer-like, so insertion order is used throughout.
- The message of the `MissingFirstRow` rejection is V8's text for
  `Object.keys(undefined)`. Other engines word it differently.
- HTTP is not modelled: Express routing, request decoding, `res.json`
  serialisation and status codes other than the 200/500 split in `Response`.
- Also not modelled: the `/geojson` route, the tags routes and models, the
  server wiring, the GeoJSON download script and the whole frontend.
- Logging is not modelled: every `console.log` and `console.error`.
- GsdpScenario.ScenarioResponses: stated for cell texts whose parse is given
  as a precondition. The example's own values, 120000 and 135000, come from
  `FirstCellParses` and `SecondCellParses`.
