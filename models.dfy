/** The records exchanged between the layers and the validation of an engine
    request (package `models`). */
module Models {
  import opened Base

  datatype Engine = Engine(engineId: Uuid, displacement: Int64, noOfCylinders: Int64, carRange: Int64)

  /** The zero `models.Engine`. */
  const ZeroEngine: Engine := Engine(NilUuid, 0, 0, 0)

  datatype EngineRequest = EngineRequest(displacement: Int64, noOfCylinders: Int64, carRange: Int64)

  /** A stored car. `price` is a `float64` that is only ever copied, never
      computed with. */
  datatype Car = Car(
    id: Uuid,
    name: string,
    year: string,
    brand: string,
    fuelType: string,
    engine: Engine,
    price: real,
    createdAt: Time,
    updatedAt: Time)

  /** The zero `models.Car`. */
  const ZeroCar: Car := Car(NilUuid, "", "", "", "", ZeroEngine, 0.0, ZeroTime, ZeroTime)

  datatype CarRequest = CarRequest(
    name: string,
    year: string,
    brand: string,
    fuelType: string,
    engine: Engine,
    price: real)

  /** The request fields a car carries; the inverse of building a car from a
      request. */
  function RequestOf(car: Car): CarRequest {
    CarRequest(car.name, car.year, car.brand, car.fuelType, car.engine, car.price)
  }

  /** The error a field validator returns: its message is the field's name
      followed by the rule the value breaks. */
  function FieldError(field: string): Error {
    Message(field + " must be greater than zero")
  }

  const DisplacementError: Error := FieldError("displacement")
  const CylindersError: Error := FieldError("noOfCylinders")
  const CarRangeError: Error := FieldError("carRange")

  function ValidateDisplacement(displacement: Int64): (err: Option<Error>)
    ensures err.None? <==> displacement > 0
    ensures err.Some? ==> err.value == FieldError("displacement")
  {
    if displacement <= 0 then Some(DisplacementError) else None
  }

  function ValidateNoOfCylinders(noOfCylinders: Int64): (err: Option<Error>)
    ensures err.None? <==> noOfCylinders > 0
    ensures err.Some? ==> err.value == FieldError("noOfCylinders")
  {
    if noOfCylinders <= 0 then Some(CylindersError) else None
  }

  function ValidateCarRange(carRange: Int64): (err: Option<Error>)
    ensures err.None? <==> carRange > 0
    ensures err.Some? ==> err.value == FieldError("carRange")
  {
    if carRange <= 0 then Some(CarRangeError) else None
  }

  /** The three checks run in a fixed order and the first one that fails
      decides the error; zero is rejected for every field. */
  function ValidateEngineRequest(req: EngineRequest): (err: Option<Error>)
    ensures err.None? <==> req.displacement > 0 && req.noOfCylinders > 0 && req.carRange > 0
    ensures err == Some(DisplacementError) <==> req.displacement <= 0
    ensures err == Some(CylindersError) <==> req.displacement > 0 && req.noOfCylinders <= 0
    ensures err == Some(CarRangeError) <==>
      req.displacement > 0 && req.noOfCylinders > 0 && req.carRange <= 0
  {
    var displacementErr := ValidateDisplacement(req.displacement);
    if displacementErr.Some? then displacementErr
    else
      var cylindersErr := ValidateNoOfCylinders(req.noOfCylinders);
      if cylindersErr.Some? then cylindersErr
      else
        var rangeErr := ValidateCarRange(req.carRange);
        if rangeErr.Some? then rangeErr
        else None
  }

  /** Fail-fast composition of a list of checks: the error of the first check
      that fails, or None when every check passes. */
  function FirstFailure(checks: seq<Option<Error>>): (r: Option<Error>)
    ensures r.None? <==> forall k | 0 <= k < |checks| :: checks[k].None?
    ensures r.Some? ==>
      exists k | 0 <= k < |checks| :: checks[k] == r && forall j | 0 <= j < k :: checks[j].None?
  {
    if checks == [] then None
    else if checks[0].Some? then checks[0]
    else
      var rest := FirstFailure(checks[1..]);
      assert forall k | 1 <= k < |checks| :: checks[k] == checks[1..][k - 1];
      rest
  }

  /** The engine validator is exactly the fail-fast composition of the three
      field validators, in the order displacement, cylinders, range. */
  lemma {:induction false} ValidationIsFirstFailure(req: EngineRequest)
    ensures ValidateEngineRequest(req) == FirstFailure([
      ValidateDisplacement(req.displacement),
      ValidateNoOfCylinders(req.noOfCylinders),
      ValidateCarRange(req.carRange)])
  {
    var checks := [
      ValidateDisplacement(req.displacement),
      ValidateNoOfCylinders(req.noOfCylinders),
      ValidateCarRange(req.carRange)];
    assert checks[1..] == [checks[1], checks[2]];
    assert checks[1..][1..] == [checks[2]];
    assert checks[1..][1..][1..] == [];
  }

  /** A request whose displacement is not positive is rejected with the
      displacement error, whatever its other two fields hold. */
  lemma DisplacementDecidesFirst(a: EngineRequest, b: EngineRequest)
    requires a.displacement == b.displacement && a.displacement <= 0
    ensures ValidateEngineRequest(a) == ValidateEngineRequest(b) == Some(DisplacementError)
  {
  }

  /** The three validation errors are pairwise distinct, so the error returned
      tells the caller which field was rejected. */
  lemma ValidationErrorsDistinct()
    ensures DisplacementError != CylindersError
    ensures CylindersError != CarRangeError
    ensures DisplacementError != CarRangeError
  {
  }
}
