# CarZone core in Dafny

CarZone is a small CRUD backend for cars and engines. This project models
the three parts of it that carry logic:

- **Engine request validation** (`Models`). Three field validators, each
  rejecting a value `<= 0` with an error that names its field, and
  `ValidateEngineRequest`, which runs them in the order displacement,
  cylinders, range and returns the first failure.
- **Engine service** (`Service`). Each write validates first and then
  delegates to the engine store; each read only delegates. The store is any
  function from the call it receives to the `(Engine, error)` answer it
  gives. Each reply records the calls the service made on the store, so "no
  store call on an invalid request" is stated as an equation.
- **Car store** (`CarStore`). The control flow around the SQL, with the SQL
  kept abstract. The database is an abstract car table (`map<Uuid, Car>`)
  plus the set of engine ids. Three things come from that table: whether
  the engine lookup finds the id (unless the query itself fails), how many
  rows the DELETE affects, and the effect of the INSERT and the DELETE on
  the transaction's view of the table. Every other answer is an input of
  the operation: each Scan's row and error, and each `BeginTx`, `Exec`,
  `RowsAffected` and `Commit` error. A successful commit publishes the
  transaction's view. A ghost log records what the four writes
  (`CreateCar`, `UpdateCar`, `DeleteCar` and the corrected
  `DeleteCarIntended`) ask of the database: the engine lookup, a successful
  `BeginTx` (a failed one logs nothing), each statement, and the commit or
  rollback. The reads (`GetCarById`, `GetCarByBrand`) take the database's
  answer as an input and log nothing.

The model follows the code as written, including these behaviours:

- `Store.Finalize` models the closure each write defers after `BeginTx`. It
  rolls back when the captured `err` is set and commits otherwise. The
  write's return values are fixed before the closure runs, so a failed
  commit is never reported: the caller sees success and the table stays as
  it was.
- In `DeleteCar`, the pre-delete select's error is dropped, so the "Car not
  found" branch is never taken; a missing car gets "No rows were deleted"
  (see Findings).
- That "No rows were deleted" reply does not set the captured `err`, so the
  transaction is committed on that path.
- On the `isEngine` path, `GetCarByBrand` returns every car with the zero
  engine, not with the joined engine's fields.
- `UpdateCar`'s statement is not valid SQL, so its effect on the table is
  not modelled (see Left out).

## Model

| member | source | states |
|---|---|---|
| `Models.ValidateDisplacement` | carZone/models/engine.go:35-40 | nil exactly when the displacement is positive (zero is rejected); otherwise the error whose message names `displacement` |
| `Models.ValidateNoOfCylinders` | carZone/models/engine.go:42-47 | nil exactly when the cylinder count is positive; otherwise the error whose message names `noOfCylinders` |
| `Models.ValidateCarRange` | carZone/models/engine.go:49-54 | nil exactly when the range is positive; otherwise the error whose message names `carRange` |
| `Models.ValidateEngineRequest` | carZone/models/engine.go:22-33 | nil iff all three fields are positive; the displacement error iff displacement <= 0, the cylinders error iff displacement passes and cylinders fail, the range error iff only the range fails |
| `Models.ValidationIsFirstFailure` | carZone/models/engine.go:22-33 | the validator equals the fail-fast composition (`FirstFailure`: first failing check's error, nil when none fails) of the three field checks in the fixed order |
| `Models.DisplacementDecidesFirst` | carZone/models/engine.go:23-25 | a non-positive displacement yields the displacement error whatever the other two fields hold |
| `Models.ValidationErrorsDistinct` | carZone/models/engine.go:35-54 | the three validation errors differ, so the error tells which field was rejected |
| `Service.GetEngineById` | carZone/service/engine/engine.go:20-26 | no validation: exactly one store call, `EngineById(id)`; the store's error is passed on unchanged with a nil engine, otherwise the store's engine is returned |
| `Service.CreateEngine` | carZone/service/engine/engine.go:28-37 | the store is called iff the request is valid; an invalid request gives (nil, validation error) with no store call; otherwise one `EngineCreate(req)` call with the request unchanged, whose error passes through unwrapped with nil, or whose engine is returned |
| `Service.UpdateEngine` | carZone/service/engine/engine.go:39-48 | as `CreateEngine`, with one `EngineUpdate(id, req)` call carrying the id and request unchanged |
| `Service.DeleteEngine` | carZone/service/engine/engine.go:50-56 | no validation: exactly one `EngineDelete(id)` call; error passed through with nil, otherwise the store's engine |
| `Service.InvalidWriteIgnoresStore` | carZone/service/engine/engine.go:28-42 | on an invalid request the replies of create and update are the same whatever store stands behind the service |
| `CarStore.GetCarById` | carZone/store/car/car.go:21-51 | `sql.ErrNoRows` (which a Scan reports before writing anything) becomes the zero car with a nil error; any other Scan error is returned as it is, beside what the Scan wrote; a read row is returned with nil |
| `CarStore.NotFoundIsIndistinguishable` | carZone/store/car/car.go:44-47 | a missing car and a stored zero row give the same reply, (zero car, nil) |
| `CarStore.GetCarByBrand` | carZone/store/car/car.go:53-112 | all or nothing: nil error iff the query, every row's Scan and `rows.Err()` succeed; with an error the list is empty; the error is the query's, else the first unreadable row's, else `rows.Err()`'s; on success one car per row in row order, with the zero engine on the `isEngine` path |
| `CarStore.NewCar` | carZone/store/car/car.go:125-139 | the inserted car carries the generated id, the request's fields (its request part is the request) and one clock reading as both `CreatedAt` and `UpdatedAt` |
| `CarStore.Store.constructor` | carZone/store/car/car.go:17-19 | a store over the given car table and engine ids, with nothing asked of the database yet |
| `CarStore.Store.Finalize` | carZone/store/car/car.go:145-151 | captured error set: rollback, table unchanged, error kept; nil: commit, the transaction's view published iff the commit succeeds, the commit's error assigned to the captured variable |
| `CarStore.Store.CreateCar` | carZone/store/car/car.go:114-182 | the engine check (line 118, `LookupEngine`) yields the query's own error, else `sql.ErrNoRows` when the id is not in the engine table; an absent engine gives the "engine_id does not exists" error with the table unchanged and only the engine lookup issued (no transaction, no insert); other lookup and `BeginTx` errors likewise; otherwise one insert of `NewCar` and exactly one finaliser, rollback iff the insert failed; the table gains the new car only on a successful commit; a failed commit is reported as success; referential integrity of the table is preserved |
| `CarStore.Store.UpdateCar` | carZone/store/car/car.go:184-228 | `BeginTx` error: zero car and that error, nothing issued; otherwise one update statement with the id, request and clock reading bound, the returned row (or partial row) and Scan error as the result, and exactly one finaliser, rollback iff that error is set |
| `CarStore.Store.DeleteCar` | carZone/store/car/car.go:230-268 | after `BeginTx` the select and the DELETE are always both issued (the select's error is dropped) and exactly one finaliser follows; every error comes with the zero car; an `Exec` or `RowsAffected` error rolls back; an id absent from the table gives "No rows were deleted" and commits; a present id gives the selected snapshot with nil, and the table loses the id iff the commit succeeds |
| `CarStore.Store.DeleteCarIntended` | carZone/store/car/car.go:245-254 | the corrected delete: a select that finds no row gives "Car not found", issues no DELETE and rolls back; other select errors are returned likewise; the remaining paths are those of `DeleteCar` |
| `CarStore.Store.IssueDelete` | carZone/store/car/car.go:255-267 | one DELETE issued, table untouched; an `Exec` or `RowsAffected` error is the reply and the captured `err`; otherwise the captured `err` stays nil, the view loses the id, and the reply is the selected car with nil when the id was in the view, "No rows were deleted" when not |
| `CarStore.DeleteTwice` | carZone/store/car/car.go:230-267 | deleting a stored car twice, every call but the select succeeding, the first select reading the stored row and the second finding none: the first reply is the stored car with nil, the second is (zero car, "No rows were deleted"), and the car is gone from the table |
| `CarStore.MissingCarAsWritten` | carZone/store/car/car.go:245-265 | deleting an id with no row, as written: the reply is "No rows were deleted", not "Car not found" |
| `CarStore.MissingCarIntended` | carZone/store/car/car.go:249-251 | the same input against the corrected delete: "Car not found" |

## Left out

- HTTP handlers, JSON encoding, routing, environment loading, schema execution and the database driver setup: these are I/O around the core.
- The SQL text. The engine lookup, the DELETE's affected-row count and the effect of the INSERT and DELETE come from the abstract table; every other answer (each Scan's row and error, each `BeginTx`, `Exec`, `RowsAffected` and `Commit` error) is an input. The column-count mismatches in the `isEngine` query (12 columns, 13 destinations) and in the delete select (9 columns, 8 destinations) are therefore not modelled; a Scan's result is whatever the input says.
- `CarStore.Store.UpdateCar`: the effect of its UPDATE statement on the car table is not modelled, so the model leaves the table unchanged. The statement is not valid SQL (`UPDATED`, `RETURN`, `$4` never used), and stating its effect would mean inventing database behaviour.
- `CarStore.Store.DeleteCar`: states only that a "Car not found" reply is an error some database call itself answered, not that the store never gives it. Go compares `errors.New` values by identity; the model compares errors by value.
- `context.Context` arguments, cancellation, isolation levels and concurrent requests. In particular, the race between the engine check and the insert is not modelled: the engine-id set never changes during an operation.
- `uuid.New()` and `time.Now()` are inputs of the operation (`newId`, `now`).
- The engine store's behaviour. It is any function from call to answer. The engine table appears in the car store only as the set of engine ids.
- Wrapped errors: `errors.Is(err, sql.ErrNoRows)` is modelled as equality with `sql.ErrNoRows`.
- The errors returned by `tx.Rollback()` and `rows.Close()` are ignored by the code, and the model does not represent them.
- A nil `*EngineRequest` or `*CarRequest` pointer, which would make the code panic: requests are values.
- The difference between a nil slice and an empty slice returned by `GetCarByBrand`. Both are `[]`.
- `CarStore.Store.CreateCar`: a primary-key clash on insert is not modelled. The insert's success is an input, and a successful insert whose generated id is already a key overwrites the stored car in the transaction's view, where a database would reject the row. `uuid.New()` ids are random, so the code does not guard against a clash either.
- `carZone/models/car.go` is not part of this model. `Car` and `CarRequest` take their fields from the store's Scan targets: `year` is text, and `price` (a `float64` that is only ever copied) is a `real`.

## Findings

| source | as written | input that shows it | evidently intended | confidence | as-written member | corrected member |
|---|---|---|---|---|---|---|
| carZone/store/car/car.go:245-254 | the pre-delete select's Scan error is dropped, so the `err` tested at line 249 is still `BeginTx`'s nil and the "Car not found" branch can never be taken | `DeleteCar` on an id with no row, every database call succeeding: the select finds no row, the DELETE is issued anyway, affects 0 rows, the reply is "No rows were deleted" and the transaction commits | assign the Scan's error to `err`, so a missing car is reported as "Car not found" before any DELETE and the transaction is rolled back | high; not executed | `CarStore.MissingCarAsWritten` | `CarStore.Store.DeleteCarIntended` |
