/** The engine service (package `service/engine`): each write validates the
    request and then delegates to the engine store; each read delegates only.
    The store itself is not part of this model: it is any function from the
    call it receives to the answer it gives, so every property below holds
    whatever the store does. */
module Service {
  import opened Base
  import opened Models

  /** A call on the engine store interface, with the arguments it receives. */
  datatype StoreCall =
    | EngineById(id: Uuid)
    | EngineCreate(req: EngineRequest)
    | EngineUpdate(id: Uuid, req: EngineRequest)
    | EngineDelete(id: Uuid)

  /** What a store method returns: an engine value and an error, as Go's
      `(models.Engine, error)` pair. */
  datatype StoreAnswer = StoreAnswer(engine: Engine, err: Option<Error>)

  datatype EngineStore = EngineStore(answer: StoreCall -> StoreAnswer)

  /** `EngineService`; its constructor plays the part of `NewEngineService`,
      which sets the one field, the store, once. */
  datatype EngineService = EngineService(store: EngineStore)

  /** A service result, `(*models.Engine, error)`, together with the calls the
      service made on its store, in order. */
  datatype Reply = Reply(engine: Option<Engine>, err: Option<Error>, calls: seq<StoreCall>)

  /** Exactly one of the two results is set: an error never comes with an
      engine, and a nil error always does. */
  predicate WellFormed(r: Reply) {
    r.err.Some? <==> r.engine.None?
  }

  /** Hands `call` to the store unchanged and passes its answer on: the store's
      error, unwrapped, with a nil engine; or the store's engine itself. */
  function Delegate(s: EngineService, call: StoreCall): (r: Reply)
    ensures r.calls == [call]
    ensures WellFormed(r)
    ensures r.err == s.store.answer(call).err
    ensures r.err.None? ==> r.engine == Some(s.store.answer(call).engine)
  {
    var answer := s.store.answer(call);
    if answer.err.Some? then Reply(None, answer.err, [call])
    else Reply(Some(answer.engine), None, [call])
  }

  function GetEngineById(s: EngineService, id: Uuid): (r: Reply)
    ensures r.calls == [EngineById(id)]
    ensures WellFormed(r)
    ensures r.err == s.store.answer(EngineById(id)).err
    ensures r.err.None? ==> r.engine == Some(s.store.answer(EngineById(id)).engine)
  {
    Delegate(s, EngineById(id))
  }

  function CreateEngine(s: EngineService, req: EngineRequest): (r: Reply)
    ensures WellFormed(r)
    ensures r.calls == [] <==> ValidateEngineRequest(req).Some?
    ensures ValidateEngineRequest(req).Some? ==> r.err == ValidateEngineRequest(req)
    ensures ValidateEngineRequest(req).None? ==>
      r.calls == [EngineCreate(req)] &&
      r.err == s.store.answer(EngineCreate(req)).err &&
      (r.err.None? ==> r.engine == Some(s.store.answer(EngineCreate(req)).engine))
  {
    var invalid := ValidateEngineRequest(req);
    if invalid.Some? then Reply(None, invalid, [])
    else Delegate(s, EngineCreate(req))
  }

  function UpdateEngine(s: EngineService, id: Uuid, req: EngineRequest): (r: Reply)
    ensures WellFormed(r)
    ensures r.calls == [] <==> ValidateEngineRequest(req).Some?
    ensures ValidateEngineRequest(req).Some? ==> r.err == ValidateEngineRequest(req)
    ensures ValidateEngineRequest(req).None? ==>
      r.calls == [EngineUpdate(id, req)] &&
      r.err == s.store.answer(EngineUpdate(id, req)).err &&
      (r.err.None? ==> r.engine == Some(s.store.answer(EngineUpdate(id, req)).engine))
  {
    var invalid := ValidateEngineRequest(req);
    if invalid.Some? then Reply(None, invalid, [])
    else Delegate(s, EngineUpdate(id, req))
  }

  function DeleteEngine(s: EngineService, id: Uuid): (r: Reply)
    ensures r.calls == [EngineDelete(id)]
    ensures WellFormed(r)
    ensures r.err == s.store.answer(EngineDelete(id)).err
    ensures r.err.None? ==> r.engine == Some(s.store.answer(EngineDelete(id)).engine)
  {
    Delegate(s, EngineDelete(id))
  }

  /** Validation shields the store: on an invalid request the reply of a write
      is the same whatever store stands behind the service. */
  lemma InvalidWriteIgnoresStore(s: EngineService, t: EngineService, id: Uuid, req: EngineRequest)
    requires ValidateEngineRequest(req).Some?
    ensures CreateEngine(s, req) == CreateEngine(t, req)
    ensures UpdateEngine(s, id, req) == UpdateEngine(t, id, req)
  {
  }
}
