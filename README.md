# Stage-progression engine — a Dafny model

This project models the core of the barcode tracking service in `app.py`. A stage catalog names the processing stages and gives each one an integer position. A barcode state table holds each barcode's current stage, its creation time and its last-update time. An event log records every reported sighting.

The `/ingest` handler resolves the reported stage once. It then handles each barcode of the batch in order:

- It looks up the barcode's current position by joining its row to the catalog.
- It classifies the barcode:
  - `new`: the barcode has never been seen.
  - `old`: its stored position is below the target; the barcode moves forward.
  - `same`: it is already at or past the target.
- It inserts a row, advances the row, or leaves the table alone.
- It always appends one event and bumps the counter for that outcome.

Before the handler runs, the request body is validated. The barcode list is stripped of surrounding whitespace. Blank entries are dropped, and a list with nothing left is rejected.

Modules:

- `Wrappers` (`wrappers.dfy`): `Option` and `Result`.
- `Validation` (`validation.dfy`): Python's `str.strip()`, the list cleaning and the `barcodes` validator, written as functions. Lemmas prove that cleaning keeps exactly the non-blank entries, stripped and in their original order.
- `Progression` (`progression.dfy`): the rule stated on values. The catalog is a `map<string, int>` and the state table a `map<string, Row>`. `Classify` decides one barcode's outcome and `Apply` makes its state change. `After` and `Outcomes` fold these over a batch, `Tally` counts the outcomes and `Sightings` gives the appended events. The lemmas prove the forward-only and idempotence properties.
- `Engine` (`engine.dfy`): the class `Tracker`. Its `const` catalog is never written. Its `rows` and `events` fields are the state table and the event log. The database helpers are methods that update these fields. `Ingest` is the handler's loop, proved against the `Progression` folds. `Submit` validates a request body and then ingests it.

The current time, taken as `datetime.now` in the source, is a parameter: `clock(i)` is the reading taken when the i-th barcode's row is written. The caller's `event_time` is also a parameter. Both are opaque ISO-8601 strings, as the source stores them.

## Model

| member | source | states |
|---|---|---|
| `Validation.TrimStart` | app.py:66 | the result is a suffix of the input, everything removed is whitespace, and the result does not start with whitespace |
| `Validation.TrimEnd` | app.py:66 | the result is a prefix of the input, everything removed is whitespace, and the result does not end with whitespace |
| `Validation.Strip` | app.py:66 | `b.strip()` is the slice of `b` left after cutting whitespace-only runs off both ends; it is empty or has no whitespace at either end, and it is empty exactly when `b` is all whitespace |
| `Validation.StripIdempotent` | app.py:66 | stripping twice is the same as stripping once |
| `Validation.Clean` | app.py:66 | every cleaned entry is non-empty with no surrounding whitespace, and cleaning never lengthens the list |
| `Validation.CleanLength` | app.py:66 | cleaning leaves exactly one entry per surviving index |
| `Validation.KeptIncreasing` | app.py:66 | the surviving indices are indices of the input in strictly increasing order, so the original order is kept |
| `Validation.CleanAt` | app.py:66 | the k-th cleaned barcode is the stripped entry at the k-th surviving index |
| `Validation.KeptExactlyNonBlank` | app.py:66 | an entry survives cleaning exactly when it is not all whitespace |
| `Validation.CleanEmptyIffAllBlank` | app.py:66-67 | cleaning leaves nothing exactly when every entry is blank |
| `Validation.EnsureBarcodesNonempty` | app.py:63-69 | the validator fails exactly when every entry is blank, with the source's message; otherwise it returns the cleaned list, which is never empty |
| `Engine.StageNameProblems` | app.py:59 | `stage_name` has no field error exactly when it is non-empty, and every error it reports is on `stage_name` |
| `Engine.BarcodeProblems` | app.py:60-69 | `barcodes` has no field error exactly when some entry is not all whitespace, and every error it reports is on `barcodes` |
| `Engine.ValidatePayload` | app.py:56-69 | a body is accepted exactly when `stage_name` is non-empty and some barcode is not blank; the accepted body carries the cleaned, non-empty list; a rejection lists at least one field error |
| `Engine.Tracker.GetStage` | app.py:95-100 | succeeds exactly when the name is in the catalog, returning that name with its catalog position; otherwise returns not-found with the source's detail text |
| `Progression.StoredPosition` | app.py:103-114 | the join finds a position only for a barcode that has a row; `StoredPositionOfRow` states the rest |
| `Progression.StoredPositionOfRow` | app.py:103-114 | when every row names a catalog stage, the join finds no position exactly when the barcode has no row; otherwise it finds the position of the row's stage |
| `Progression.Classify` | app.py:117-124 | no stored position gives `New` whatever the target; a position below the target gives `Old`; one at or above gives `Same`; each outcome holds exactly under its condition |
| `Engine.Tracker.AddNewBarcode` | app.py:127-133 | inserts a row at the stage with `created == updated == now`; the log is unchanged |
| `Engine.Tracker.AdvanceBarcode` | app.py:136-139 | a stored row gets the new stage and update time and keeps its creation time; a barcode without a row changes nothing; the log is unchanged |
| `Engine.Tracker.AddEvent` | app.py:142-147 | appends exactly one event with the barcode, the reported stage name and the caller's event time; the state table is unchanged |
| `Engine.Tracker.ProcessBarcode` | app.py:161-171 | one pass of the loop: the outcome is the classification against the current table, the table takes that outcome's state change, exactly one event with the reported stage and event time is appended, and rows stay inside the catalog |
| `Progression.Apply` | app.py:164-169 | only a `new` outcome adds a barcode to the table, and it adds exactly that one; no other barcode's row changes; afterwards a row of the barcode names the target stage unless the outcome was `same`; `StepEffects` states each outcome's row contents |
| `Progression.StepEffects` | app.py:160-171 | for one barcode, `new` inserts a row at the target with equal timestamps; `old` changes only the stage and update time; `same` writes nothing; no other row changes; afterwards the barcode is at or past the target and not below its old position |
| `Progression.OutcomeAt` | app.py:160-162 | the k-th outcome is the classification against the table left by the first k barcodes |
| `Progression.AfterEffects` | app.py:160-172 | across a batch, rows stay inside the catalog, exactly the batch's barcodes are added, barcodes outside the batch keep their rows, no stored position decreases, and every batch barcode ends at or past the target |
| `Progression.OutcomeOfOccurrence` | app.py:160-172 | a barcode's first occurrence in a batch is classified against the table before the batch; every repeat occurrence, including the repeat of a new barcode, is `same` |
| `Progression.SettledBatchIsNoop` | app.py:160-172 | a batch whose barcodes are all at or past the target counts each one `same` and leaves the table unchanged |
| `Progression.RerunIsNoop` | app.py:160-172 | re-running a batch at the same stage, under any clock, counts every barcode `same` (never `new`) and leaves the table unchanged |
| `Progression.Bump` | app.py:172 | adds exactly one to the counter of the given outcome and leaves the other two counters alone |
| `Progression.Tally` | app.py:159-172 | the counters after one bump per outcome, from zero; `TallyCounts` states what each counter equals |
| `Progression.TallyCounts` | app.py:159-172 | each counter equals the number of outcomes of its kind, and `new + old + same` equals the number of barcodes |
| `Progression.Sightings` | app.py:171 | a batch appends exactly one event per barcode; `SightingsAt` states each event's contents |
| `Progression.SightingsAt` | app.py:171 | the k-th appended event is the k-th barcode with the reported stage name and the caller's event time |
| `Engine.Tracker.Ingest` | app.py:153-179 | an unknown stage returns not-found and writes neither store; otherwise the table becomes the batch's fold, the log becomes the old log plus one event per barcode, and the reply carries the stage, its position, the per-outcome counts and the fixed message; the catalog invariant is kept |
| `Engine.IngestGuarantees` | app.py:156-179 | an ingest succeeds exactly for a catalog stage; the log is only appended to, by exactly N events for N barcodes, each with the reported stage and event time; no stored position decreases; every batch barcode ends at or past the target; the counts sum to N |
| `Engine.IngestTwice` | app.py:156-179 | submitting the same batch again at the same stage counts `{new: 0, old: 0, same: N}` and leaves the state table as the first run left it, while still logging N events |
| `Engine.Tracker.Submit` | app.py:153-157 | a body that fails validation is rejected with all its field errors before either store is touched; a valid body is ingested with its cleaned barcode list |

## Left out

- Database plumbing is not modelled: the pyodbc connection, the connection string, the SQL text and the environment settings (app.py:35-51, app.py:90-92). The three tables are in-memory maps and a sequence. Storage never fails in the model, so the 500 responses for database and unexpected errors (app.py:180-188) are not modelled. Neither is a partial batch left committed by a mid-batch failure under autocommit.
- String matching is exact. SQL Server's default collation compares case-insensitively and ignores trailing spaces, so it could match stage names and barcodes that the model treats as different.
- The model assumes every stored row names a stage of the catalog (`Tracker.Valid`). Outside that assumption the join in app.py:103-114 finds no position, the barcode is classified `new`, and its insert would collide with its existing row.
- Engine.Tracker.AddNewBarcode: requires the barcode to have no row. The database would reject a duplicate insert with an error instead. The engine calls it only after the join found no row.
- Timestamps are opaque. Nothing models the time-zone localization of a naive `event_time` (app.py:71-79) or the formatting of `datetime.now` (app.py:128, app.py:137). Parsing `event_time` and rejecting extra fields (`extra="forbid"`) are request decoding and are left out too.
- FastAPI routing and HTTP status codes are left out. Not-found and validation failures are `Error` values.
- The `/analytics`, `/stages` and `/health` routes are read-only queries or fixed payloads (app.py:191-241), so they are left out.
- Requests are modelled as one sequential caller. The check-then-act race between concurrent ingests of the same barcode is not modelled.
- The log line written for a `same` barcode (app.py:169) is left out.
- main.py, push_data.py and csv_to_olddata.py are not part of this model. They fetch data over HTTP, read and write files and SQLite, and push to git.
