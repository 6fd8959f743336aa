/** The car store (package `store/car`). The SQL text is not modelled: what a
    query, a `Scan`, an `Exec`, `RowsAffected`, `BeginTx` or `Commit` answers
    is an input of the operation, and the model states what the store does
    with each answer. The database behind the store is an abstract car table
    keyed by id and the set of engine ids; the writes go through a
    transaction whose uncommitted view of the table is published only by a
    successful commit. */
module CarStore {
  import opened Base
  import opened Models

  /** An error other than `sql.ErrNoRows`. */
  type DbError = e: Error | e != ErrNoRows witness Message("")

  /** What `QueryRowContext(...).Scan(dest...)` yields: the row read into the
      destination; `sql.ErrNoRows`, which is reported before anything is
      written and so leaves the destination untouched; or another error,
      after which the destination holds whatever was written to it before
      the failure. */
  datatype Scan<T> = Scanned(value: T) | NoRows | Failed(err: DbError, partial: T)
  {
    /** The destination after the Scan, given what it held before. */
    function Dest(before: T): T {
      match this
      case Scanned(v) => v
      case NoRows => before
      case Failed(_, p) => p
    }

    /** The error the Scan returns. */
    function Err(): Option<Error> {
      match this
      case Scanned(_) => None
      case NoRows => Some(ErrNoRows)
      case Failed(e, _) => Some(e)
    }
  }

  const EngineMissing: Error := Message("engine_id does not exists in the engine table")
  const CarNotFound: Error := Message("Car not found")
  const NoRowsDeleted: Error := Message("No rows were deleted")

  /** `GetCarById`: a missing row (`sql.ErrNoRows`) is no error and yields the
      car as it was before the Scan, the zero car; any other error is returned
      as it is, beside whatever the Scan wrote. */
  function GetCarById(scan: Scan<Car>): (r: (Car, Option<Error>))
    ensures r.0 == scan.Dest(ZeroCar)
    ensures r.1.None? <==> scan.Err().None? || scan.Err() == Some(ErrNoRows)
    ensures r.1.Some? ==> r.1 == scan.Err()
    ensures scan.Err() == Some(ErrNoRows) ==> r == (ZeroCar, None)
  {
    var car := scan.Dest(ZeroCar);
    var err := scan.Err();
    if err.Some? then
      if err == Some(ErrNoRows) then (car, None) else (car, err)
    else (car, None)
  }

  /** A caller cannot tell a missing car from a stored row that holds the zero
      car: both come back as the zero car with a nil error. */
  lemma NotFoundIsIndistinguishable()
    ensures GetCarById(NoRows) == GetCarById(Scanned(ZeroCar)) == (ZeroCar, None)
  {
  }

  /** What `rows.Scan` yields for one row of a multi-row query. */
  datatype RowScan = RowRead(car: Car) | RowUnreadable(err: Error)

  /** What `QueryContext` answers: an error, or the rows that `rows.Next()`
      hands out, in order, followed by what `rows.Err()` reports once
      `rows.Next()` returns false. */
  datatype BrandRows = QueryFailed(err: Error) | Rows(scans: seq<RowScan>, iterErr: Option<Error>)

  /** `GetCarByBrand`, over the rows the database returns for the brand with
      the query `isEngine` selects. All or nothing: an error never comes with
      a partial list. On success there is one car per row, in row order; on
      the `isEngine` path each car's engine is overwritten with the zero
      engine before it is appended. A nil slice and an empty one are both
      `[]`. */
  method GetCarByBrand(isEngine: bool, rows: BrandRows) returns (cars: seq<Car>, err: Option<Error>)
    ensures err.None? <==>
      rows.Rows? && (forall k | 0 <= k < |rows.scans| :: rows.scans[k].RowRead?) && rows.iterErr.None?
    ensures err.Some? ==> cars == []
    ensures err.None? ==>
      |cars| == |rows.scans| &&
      forall k | 0 <= k < |cars| ::
        cars[k] == if isEngine then rows.scans[k].car.(engine := ZeroEngine) else rows.scans[k].car
    ensures rows.QueryFailed? ==> err == Some(rows.err)
    ensures rows.Rows? && (exists k | 0 <= k < |rows.scans| :: rows.scans[k].RowUnreadable?) ==>
      exists k | 0 <= k < |rows.scans| ::
        rows.scans[k].RowUnreadable? && err == Some(rows.scans[k].err) &&
        forall j | 0 <= j < k :: rows.scans[j].RowRead?
    ensures rows.Rows? && (forall k | 0 <= k < |rows.scans| :: rows.scans[k].RowRead?) ==>
      err == rows.iterErr
  {
    if rows.QueryFailed? {
      return [], Some(rows.err);
    }
    cars := [];
    var i := 0;
    while i < |rows.scans|
      invariant 0 <= i <= |rows.scans|
      invariant |cars| == i
      invariant forall k | 0 <= k < i :: rows.scans[k].RowRead?
      invariant forall k | 0 <= k < i ::
        cars[k] == if isEngine then rows.scans[k].car.(engine := ZeroEngine) else rows.scans[k].car
    {
      var scan := rows.scans[i];
      if scan.RowUnreadable? {
        return [], Some(scan.err);
      }
      var car := scan.car;
      if isEngine {
        var engine := ZeroEngine;
        car := car.(engine := engine);
      }
      cars := cars + [car];
      i := i + 1;
    }
    if rows.iterErr.Some? {
      return [], rows.iterErr;
    }
    err := None;
  }

  /** The car `CreateCar` inserts: a fresh id, the request's fields, and one
      clock reading used for both timestamps. */
  function NewCar(req: CarRequest, id: Uuid, now: Time): (car: Car)
    ensures RequestOf(car) == req
    ensures car.id == id
    ensures car.createdAt == car.updatedAt == now
  {
    Car(id, req.name, req.year, req.brand, req.fuelType, req.engine, req.price, now, now)
  }

  /** The error of `SELECT id FROM engine WHERE id=$1` followed by Scan, given
      the failure of the query itself, if any. */
  function LookupEngine(engines: set<Uuid>, engineId: Uuid, failure: Option<DbError>): Option<Error> {
    if failure.Some? then failure
    else if engineId in engines then None
    else Some(ErrNoRows)
  }

  /** A statement issued inside a transaction, with the arguments bound to it. */
  datatype Statement =
    | InsertRow(car: Car)
    | UpdateRow(id: Uuid, req: CarRequest, at: Time)
    | SelectRow(id: Uuid)
    | DeleteRow(id: Uuid)

  /** What the store asks of its database, in order. */
  datatype Event =
    | EngineLookup(engineId: Uuid)
    | Began
    | Issued(stmt: Statement)
    | Committed(failure: Option<Error>)
    | RolledBack
  {
    predicate Finalises() { Committed? || RolledBack? }
  }

  /** A transaction was begun exactly when a finaliser (commit or rollback)
      ran, and that finaliser ran once, as the last thing. */
  ghost predicate FinalisedOnce(trace: seq<Event>) {
    (Began in trace <==> exists k | 0 <= k < |trace| :: trace[k].Finalises()) &&
    forall k | 0 <= k < |trace| && trace[k].Finalises() :: k == |trace| - 1
  }

  /** A trace that begins a transaction and ends with its only finaliser is
      finalised once. */
  lemma FinalisedAtEnd(trace: seq<Event>, start: nat)
    requires start < |trace| && trace[start] == Began && trace[|trace| - 1].Finalises()
    requires forall k | 0 <= k < |trace| - 1 :: !trace[k].Finalises()
    ensures FinalisedOnce(trace)
  {
  }

  /** What the database and the clock answer during one `CreateCar`.
      `engineLookup` is a failure of the engine-id query itself, never
      `sql.ErrNoRows`; without one, the query finds the id exactly when it is
      in the engine table. */
  datatype CreateAnswers = CreateAnswers(
    engineLookup: Option<DbError>,
    newId: Uuid,
    now: Time,
    begin: Option<Error>,
    insert: Scan<Car>,
    commit: Option<Error>)

  /** What the database and the clock answer during one `UpdateCar`. */
  datatype UpdateAnswers = UpdateAnswers(
    begin: Option<Error>,
    now: Time,
    update: Scan<Car>,
    commit: Option<Error>)

  /** What the database answers during one `DeleteCar`. */
  datatype DeleteAnswers = DeleteAnswers(
    begin: Option<Error>,
    select: Scan<Car>,
    exec: Option<Error>,
    rowsAffected: Option<Error>,
    commit: Option<Error>)

  class Store {
    /** The committed car table. */
    var cars: map<Uuid, Car>
    /** The ids in the engine table. */
    var engines: set<Uuid>
    /** Everything the store has asked of the database. */
    ghost var log: seq<Event>

    /** Every stored car sits under its own id and references a stored
        engine. */
    ghost predicate Valid()
      reads this
    {
      forall id | id in cars :: cars[id].id == id && cars[id].engine.engineId in engines
    }

    /** `New`: a store over a database holding these tables. */
    constructor (cars: map<Uuid, Car>, engines: set<Uuid>)
      ensures this.cars == cars && this.engines == engines && log == []
      ensures Valid() <==> forall id | id in cars :: cars[id].id == id && cars[id].engine.engineId in engines
    {
      this.cars := cars;
      this.engines := engines;
      log := [];
    }

    /** The closure each write defers right after `BeginTx` succeeds. It runs
        once, when the write returns, and reads the captured `err`: set, it
        rolls back; nil, it commits, publishing the transaction's view
        `working` when the commit succeeds, and assigns the commit's error to
        `err`. That assignment is all it returns: the write's results were
        fixed before the closure ran. Only `CreateCar`, `UpdateCar`,
        `DeleteCar` and `DeleteCarIntended` call it, each with the view its
        own transaction built. */
    method Finalize(working: map<Uuid, Car>, err: Option<Error>, commit: Option<Error>)
      returns (errAfter: Option<Error>)
      modifies this
      ensures engines == old(engines)
      ensures err.Some? ==> errAfter == err && cars == old(cars) && log == old(log) + [RolledBack]
      ensures err.None? ==> errAfter == commit && log == old(log) + [Committed(commit)]
      ensures err.None? ==> cars == if commit.None? then working else old(cars)
    {
      if err.Some? {
        log := log + [RolledBack];
        return err;
      }
      errAfter := commit;
      if commit.None? {
        cars := working;
      }
      log := log + [Committed(commit)];
    }

    /** `CreateCar`: the engine check runs first, outside any transaction, and
        when the engine is absent nothing else happens. Otherwise the new car
        is inserted inside a transaction and the row the insert returns is the
        result. */
    method CreateCar(req: CarRequest, a: CreateAnswers) returns (car: Car, err: Option<Error>)
      modifies this
      ensures engines == old(engines)
      ensures old(Valid()) ==> Valid()
      ensures old(log) <= log && FinalisedOnce(log[|old(log)|..])
      ensures LookupEngine(engines, req.engine.engineId, a.engineLookup) == Some(ErrNoRows) ==>
        car == ZeroCar && err == Some(EngineMissing) &&
        cars == old(cars) && log == old(log) + [EngineLookup(req.engine.engineId)]
      ensures var lookup := LookupEngine(engines, req.engine.engineId, a.engineLookup);
        lookup.Some? && lookup != Some(ErrNoRows) ==>
        car == ZeroCar && err == lookup &&
        cars == old(cars) && log == old(log) + [EngineLookup(req.engine.engineId)]
      ensures LookupEngine(engines, req.engine.engineId, a.engineLookup).None? && a.begin.Some? ==>
        car == ZeroCar && err == a.begin &&
        cars == old(cars) && log == old(log) + [EngineLookup(req.engine.engineId)]
      ensures LookupEngine(engines, req.engine.engineId, a.engineLookup).None? && a.begin.None? ==>
        car == a.insert.Dest(ZeroCar) && err == a.insert.Err() &&
        log == old(log) + [EngineLookup(req.engine.engineId), Began,
                           Issued(InsertRow(NewCar(req, a.newId, a.now))),
                           if err.Some? then RolledBack else Committed(a.commit)] &&
        cars == if err.None? && a.commit.None? then old(cars)[a.newId := NewCar(req, a.newId, a.now)]
                else old(cars)
      // a failed commit is not reported: the caller sees success and the table is unchanged
      ensures (LookupEngine(engines, req.engine.engineId, a.engineLookup).None? && a.begin.None? &&
               a.insert.Err().None? && a.commit.Some?) ==>
        err.None? && cars == old(cars)
    {
      var createCar := ZeroCar;
      log := log + [EngineLookup(req.engine.engineId)];
      var lookupErr := LookupEngine(engines, req.engine.engineId, a.engineLookup);
      if lookupErr.Some? {
        if lookupErr == Some(ErrNoRows) {
          return createCar, Some(EngineMissing);
        }
        return createCar, lookupErr;
      }
      var newCar := NewCar(req, a.newId, a.now);

      // `txErr` is the `err` variable the deferred closure captures
      var txErr := a.begin;
      if txErr.Some? {
        return createCar, txErr;
      }
      log := log + [Began];
      var working := cars;

      log := log + [Issued(InsertRow(newCar))];
      txErr := a.insert.Err();
      if txErr.None? {
        working := working[newCar.id := newCar];
      }
      createCar := a.insert.Dest(createCar);
      car, err := createCar, txErr;
      txErr := Finalize(working, txErr, a.commit);
      assert log[|old(log)|..] == [EngineLookup(req.engine.engineId), Began, Issued(InsertRow(newCar)), log[|log| - 1]];
      FinalisedAtEnd(log[|old(log)|..], 1);
    }

    /** `UpdateCar`: inside a transaction, one statement that should update
        the car's fields and return the updated row, which is the result. */
    method UpdateCar(id: Uuid, req: CarRequest, a: UpdateAnswers) returns (car: Car, err: Option<Error>)
      modifies this
      ensures engines == old(engines)
      ensures cars == old(cars)
      ensures old(log) <= log && FinalisedOnce(log[|old(log)|..])
      ensures a.begin.Some? ==> car == ZeroCar && err == a.begin && log == old(log)
      ensures a.begin.None? ==>
        car == a.update.Dest(ZeroCar) && err == a.update.Err() &&
        log == old(log) + [Began, Issued(UpdateRow(id, req, a.now)),
                           if err.Some? then RolledBack else Committed(a.commit)]
    {
      var updatedCar := ZeroCar;
      var txErr := a.begin;
      if txErr.Some? {
        return updatedCar, txErr;
      }
      log := log + [Began];
      var working := cars;

      log := log + [Issued(UpdateRow(id, req, a.now))];
      txErr := a.update.Err();
      updatedCar := a.update.Dest(updatedCar);
      car, err := updatedCar, txErr;
      txErr := Finalize(working, txErr, a.commit);
      assert log == old(log) + [Began, Issued(UpdateRow(id, req, a.now)), log[|log| - 1]];
      assert log[|old(log)|..] == [Began, Issued(UpdateRow(id, req, a.now)), log[|log| - 1]];
      FinalisedAtEnd(log[|old(log)|..], 0);
    }

    /** The DELETE that follows the pre-delete select, and the `RowsAffected`
        check after it, up to the return. `selected` is what the select wrote
        into the destination; `working` is the transaction's view. Besides the
        reply it yields the captured `err` the deferred closure will read,
        which stays nil on the "No rows were deleted" path, and the view after
        the statement. */
    method IssueDelete(id: Uuid, selected: Car, working: map<Uuid, Car>, a: DeleteAnswers)
      returns (car: Car, err: Option<Error>, captured: Option<Error>, after: map<Uuid, Car>)
      modifies this
      ensures cars == old(cars) && engines == old(engines)
      ensures log == old(log) + [Issued(DeleteRow(id))]
      ensures captured == if a.exec.Some? then a.exec else a.rowsAffected
      ensures after == if a.exec.Some? then working else working - {id}
      ensures err.Some? ==> car == ZeroCar
      ensures a.exec.Some? ==> err == a.exec
      ensures a.exec.None? && a.rowsAffected.Some? ==> err == a.rowsAffected
      ensures a.exec.None? && a.rowsAffected.None? ==>
        if id in working then car == selected && err.None? else err == Some(NoRowsDeleted)
    {
      log := log + [Issued(DeleteRow(id))];
      after := working;
      captured := a.exec;
      if captured.Some? {
        return ZeroCar, captured, captured, after;
      }
      var rowsAffected := if id in working then 1 else 0;
      after := working - {id};
      captured := a.rowsAffected;
      if captured.Some? {
        car, err := ZeroCar, captured;
      } else if rowsAffected == 0 {
        car, err := ZeroCar, Some(NoRowsDeleted);
      } else {
        car, err := selected, None;
      }
    }

    /** `DeleteCar` as written. The pre-delete select's Scan result is
        dropped, so the `err` tested after it is still the nil from `BeginTx`
        and the "Car not found" reply can never be given; a missing car is
        reported only as "No rows were deleted". That reply does not set the
        captured `err`, so the transaction is committed on that path. Every
        error after `BeginTx` comes with the zero car. */
    method DeleteCar(id: Uuid, a: DeleteAnswers) returns (car: Car, err: Option<Error>)
      modifies this
      ensures engines == old(engines)
      ensures old(Valid()) ==> Valid()
      ensures old(log) <= log && FinalisedOnce(log[|old(log)|..])
      ensures err == Some(CarNotFound) ==> err in {a.begin, a.exec, a.rowsAffected}
      ensures a.begin.Some? ==> car == ZeroCar && err == a.begin && cars == old(cars) && log == old(log)
      ensures a.begin.None? ==>
        |log| == |old(log)| + 4 &&
        log[..|old(log)| + 3] == old(log) + [Began, Issued(SelectRow(id)), Issued(DeleteRow(id))]
      ensures a.begin.None? && err.Some? ==> car == ZeroCar
      ensures a.begin.None? && a.exec.Some? ==>
        err == a.exec && cars == old(cars) && log[|log| - 1] == RolledBack
      ensures a.begin.None? && a.exec.None? && a.rowsAffected.Some? ==>
        err == a.rowsAffected && cars == old(cars) && log[|log| - 1] == RolledBack
      ensures a.begin.None? && a.exec.None? && a.rowsAffected.None? && id !in old(cars) ==>
        car == ZeroCar && err == Some(NoRowsDeleted) && cars == old(cars) &&
        log[|log| - 1] == Committed(a.commit)
      ensures a.begin.None? && a.exec.None? && a.rowsAffected.None? && id in old(cars) ==>
        car == a.select.Dest(ZeroCar) && err.None? && log[|log| - 1] == Committed(a.commit) &&
        cars == if a.commit.None? then old(cars) - {id} else old(cars)
    {
      var deletedCar := ZeroCar;
      var txErr := a.begin;
      if txErr.Some? {
        return deletedCar, txErr;
      }
      log := log + [Began];
      var working := cars;

      // the Scan writes into deletedCar; the error it returns is dropped
      log := log + [Issued(SelectRow(id))];
      deletedCar := a.select.Dest(deletedCar);

      car, err, txErr, working := IssueDelete(id, deletedCar, working, a);
      txErr := Finalize(working, txErr, a.commit);
      assert log[|old(log)|..] == [Began, Issued(SelectRow(id)), Issued(DeleteRow(id)), log[|log| - 1]];
      FinalisedAtEnd(log[|old(log)|..], 0);
    }

    /** `DeleteCar` as its not-found branch evidently intends: the pre-delete
        select's Scan error is assigned to the captured `err`, so a missing car
        is reported as "Car not found" before any DELETE is issued, and the
        transaction is rolled back. The other paths are those of `DeleteCar`. */
    method DeleteCarIntended(id: Uuid, a: DeleteAnswers) returns (car: Car, err: Option<Error>)
      modifies this
      ensures engines == old(engines)
      ensures old(Valid()) ==> Valid()
      ensures old(log) <= log && FinalisedOnce(log[|old(log)|..])
      ensures a.begin.Some? ==> car == ZeroCar && err == a.begin && cars == old(cars) && log == old(log)
      ensures a.begin.None? && a.select.Err() == Some(ErrNoRows) ==>
        car == ZeroCar && err == Some(CarNotFound) && cars == old(cars) &&
        log == old(log) + [Began, Issued(SelectRow(id)), RolledBack]
      ensures a.begin.None? && a.select.Err().Some? && a.select.Err() != Some(ErrNoRows) ==>
        car == ZeroCar && err == a.select.Err() && cars == old(cars) &&
        log == old(log) + [Began, Issued(SelectRow(id)), RolledBack]
      ensures a.begin.None? && a.select.Err().None? ==>
        |log| == |old(log)| + 4 &&
        log[..|old(log)| + 3] == old(log) + [Began, Issued(SelectRow(id)), Issued(DeleteRow(id))]
      ensures a.begin.None? && a.select.Err().None? && err.Some? ==> car == ZeroCar
      ensures a.begin.None? && a.select.Err().None? && a.exec.Some? ==>
        err == a.exec && cars == old(cars) && log[|log| - 1] == RolledBack
      ensures a.begin.None? && a.select.Err().None? && a.exec.None? && a.rowsAffected.Some? ==>
        err == a.rowsAffected && cars == old(cars) && log[|log| - 1] == RolledBack
      ensures (a.begin.None? && a.select.Err().None? && a.exec.None? && a.rowsAffected.None? &&
               id !in old(cars)) ==>
        car == ZeroCar && err == Some(NoRowsDeleted) && cars == old(cars) &&
        log[|log| - 1] == Committed(a.commit)
      ensures (a.begin.None? && a.select.Err().None? && a.exec.None? && a.rowsAffected.None? &&
               id in old(cars)) ==>
        car == a.select.Dest(ZeroCar) && err.None? && log[|log| - 1] == Committed(a.commit) &&
        cars == if a.commit.None? then old(cars) - {id} else old(cars)
    {
      var deletedCar := ZeroCar;
      var txErr := a.begin;
      if txErr.Some? {
        return deletedCar, txErr;
      }
      log := log + [Began];
      var working := cars;

      log := log + [Issued(SelectRow(id))];
      deletedCar := a.select.Dest(deletedCar);
      txErr := a.select.Err();
      if txErr.Some? {
        car, err := ZeroCar, if txErr == Some(ErrNoRows) then Some(CarNotFound) else txErr;
      } else {
        car, err, txErr, working := IssueDelete(id, deletedCar, working, a);
      }
      txErr := Finalize(working, txErr, a.commit);
      if a.select.Err().Some? {
        assert log[|old(log)|..] == [Began, Issued(SelectRow(id)), log[|log| - 1]];
      } else {
        assert log[|old(log)|..] == [Began, Issued(SelectRow(id)), Issued(DeleteRow(id)), log[|log| - 1]];
      }
      FinalisedAtEnd(log[|old(log)|..], 0);
    }
  }

  /** Answers under which every database call of a delete except the
      pre-delete select succeeds. */
  predicate CallsSucceed(a: DeleteAnswers) {
    a.begin.None? && a.exec.None? && a.rowsAffected.None? && a.commit.None?
  }

  /** Deleting the same stored car twice, against a database that agrees with
      the table: the first select reads the stored row and the second finds
      none. The first delete returns the stored row and removes it; the second
      finds no row to delete. */
  method DeleteTwice(store: Store, id: Uuid, a: DeleteAnswers, b: DeleteAnswers)
    returns (first: (Car, Option<Error>), second: (Car, Option<Error>))
    requires id in store.cars
    requires CallsSucceed(a) && a.select == Scanned(store.cars[id])
    requires CallsSucceed(b) && b.select == NoRows
    modifies store
    ensures first == (old(store.cars[id]), None)
    ensures second == (ZeroCar, Some(NoRowsDeleted))
    ensures store.cars == old(store.cars) - {id}
  {
    var car, err := store.DeleteCar(id, a);
    first := (car, err);
    car, err := store.DeleteCar(id, b);
    second := (car, err);
  }

  /** The scenario that shows the dead branch of `DeleteCar`: the car is not in
      the table and the select reports no row, yet the reply is "No rows were
      deleted", given after a DELETE was issued. */
  method MissingCarAsWritten() returns (err: Option<Error>)
    ensures err == Some(NoRowsDeleted)
  {
    var store := new Store(map[], {});
    var car;
    car, err := store.DeleteCar("0b5e6f0a-3c1d-4e8e-9a51-2f7d6c4b8a90", DeleteAnswers(None, NoRows, None, None, None));
  }

  /** The same scenario against the intended delete: "Car not found". */
  method MissingCarIntended() returns (err: Option<Error>)
    ensures err == Some(CarNotFound)
  {
    var store := new Store(map[], {});
    var car;
    car, err := store.DeleteCarIntended("0b5e6f0a-3c1d-4e8e-9a51-2f7d6c4b8a90", DeleteAnswers(None, NoRows, None, None, None));
  }
}
