/**
 * The TODO handler: dispatch on the HTTP method, request validation, the
 * calls into the service, and the mapping of service results to statuses.
 *
 * `Decide` is what the handler does before touching the service (reject
 * with a status, or call one service operation with given arguments);
 * `Respond` is how a service result becomes a response. `ServeHTTP` follows
 * the source step by step and is proved to be `Decide` followed by the
 * service call and `Respond`.
 */
module Handler {
  import opened Wrappers
  import opened Model
  import opened Http
  import opened Service

  /** Integer parsing of a query value, as `strconv.Atoi` does it: None is a parse error. */
  type Atoi = string -> Option<int>

  /** The one service operation a request leads to, with its arguments. */
  datatype Call =
    | CreateCall(create: CreateTODORequest)
    | ReadCall(read: ReadTODORequest)
    | UpdateCall(update: UpdateTODORequest)
    | DeleteCall(delete: DeleteTODORequest)

  /** Before the service: answer with an error status at once, or invoke the service. */
  datatype Action = Reject(status: int) | Invoke(call: Call)

  predicate KnownMethod(verb: string)
  {
    verb == MethodPost || verb == MethodGet || verb == MethodPut || verb == MethodDelete
  }

  /** A query parameter is acceptable when it is absent or empty, or parses as an integer. */
  predicate ParamParses(query: map<string, string>, key: string, atoi: Atoi)
  {
    QueryGet(query, key) == "" || atoi(QueryGet(query, key)).Some?
  }

  /** The handler's decision before any service call. */
  function Decide(r: Request, atoi: Atoi): (a: Action)
    // any other method is 405, and that is the only source of 405
    ensures a == Reject(StatusMethodNotAllowed) <==> !KnownMethod(r.verb)
    ensures a.Reject? ==> a.status == StatusBadRequest || a.status == StatusMethodNotAllowed
    // POST: only an undecodable body is refused here; an empty subject is left to the service
    ensures r.verb == MethodPost ==>
              (a.Reject? <==> r.body.asCreate.None?) &&
              (a.Invoke? ==> a.call == CreateCall(r.body.asCreate.value))
    // GET: a present, non-integer prev_id or size is refused
    ensures r.verb == MethodGet ==>
              (a.Reject? <==> !ParamParses(r.query, "prev_id", atoi) || !ParamParses(r.query, "size", atoi))
    // GET: absent or empty prev_id reads from the newest row, absent or empty size reads 5 rows
    ensures r.verb == MethodGet && a.Invoke? ==>
              a.call.ReadCall? &&
              (QueryGet(r.query, "prev_id") == "" ==> a.call.read.prevID == 0) &&
              (QueryGet(r.query, "prev_id") != "" ==> atoi(QueryGet(r.query, "prev_id")) == Some(a.call.read.prevID)) &&
              (QueryGet(r.query, "size") == "" ==> a.call.read.size == 5) &&
              (QueryGet(r.query, "size") != "" ==> atoi(QueryGet(r.query, "size")) == Some(a.call.read.size))
    // PUT: id 0 or an empty subject is refused before the service is asked
    ensures r.verb == MethodPut ==>
              (a.Reject? <==> r.body.asUpdate.None? || r.body.asUpdate.value.id == 0 ||
                              r.body.asUpdate.value.subject == "") &&
              (a.Invoke? ==> a.call == UpdateCall(r.body.asUpdate.value))
    // DELETE: an empty id list is refused before the service is asked
    ensures r.verb == MethodDelete ==>
              (a.Reject? <==> r.body.asDelete.None? || |r.body.asDelete.value.ids| == 0) &&
              (a.Invoke? ==> a.call == DeleteCall(r.body.asDelete.value))
  {
    if r.verb == MethodPost then
      (match r.body.asCreate
       case None => Reject(StatusBadRequest)
       case Some(req) => Invoke(CreateCall(req)))
    else if r.verb == MethodGet then
      var prevID := QueryGet(r.query, "prev_id");
      var size := QueryGet(r.query, "size");
      if prevID != "" && atoi(prevID).None? then Reject(StatusBadRequest)
      else if size != "" && atoi(size).None? then Reject(StatusBadRequest)
      else Invoke(ReadCall(ReadTODORequest(if prevID == "" then 0 else atoi(prevID).value,
                                           if size == "" then 5 else atoi(size).value)))
    else if r.verb == MethodPut then
      (match r.body.asUpdate
       case None => Reject(StatusBadRequest)
       case Some(req) => if req.id == 0 || req.subject == "" then Reject(StatusBadRequest) else Invoke(UpdateCall(req)))
    else if r.verb == MethodDelete then
      (match r.body.asDelete
       case None => Reject(StatusBadRequest)
       case Some(req) => if |req.ids| == 0 then Reject(StatusBadRequest) else Invoke(DeleteCall(req)))
    else
      Reject(StatusMethodNotAllowed)
  }

  /** What the wrapper of the service call returned; NotCalled when the service was not asked. */
  datatype Outcome =
    | NotCalled
    | Created(created: Result<CreateTODOResponse, ErrorKind>)
    | Listed(listed: Result<ReadTODOResponse, ErrorKind>)
    | Updated(updated: Result<UpdateTODOResponse, ErrorKind>)
    | Deleted(deleted: Result<DeleteTODOResponse, ErrorKind>)

  predicate Succeeded(o: Outcome)
  {
    match o
    case NotCalled => false
    case Created(r) => r.Success?
    case Listed(r) => r.Success?
    case Updated(r) => r.Success?
    case Deleted(r) => r.Success?
  }

  /** How a service result becomes the response. */
  function Respond(o: Outcome): (resp: Response)
    requires !o.NotCalled?
    ensures resp.status == StatusOK <==> Succeeded(o)
    // every create failure is a client error
    ensures o.Created? && o.created.Failure? ==> resp.status == StatusBadRequest
    // every read failure is a server error
    ensures o.Listed? && o.listed.Failure? ==> resp.status == StatusInternalServerError
    // every update failure is reported as not found
    ensures o.Updated? && o.updated.Failure? ==> resp.status == StatusNotFound
    // a delete that matched nothing is 404, any other delete failure 500
    ensures o.Deleted? && o.deleted.Failure? ==>
              resp.status == (if o.deleted.error == NotFound then StatusNotFound else StatusInternalServerError)
    // a success encodes exactly the envelope the wrapper returned
    ensures o.Created? && o.created.Success? ==> resp.payload == CreateBody(o.created.value)
    ensures o.Listed? && o.listed.Success? ==> resp.payload == ReadBody(o.listed.value)
    ensures o.Updated? && o.updated.Success? ==> resp.payload == UpdateBody(o.updated.value)
    ensures o.Deleted? && o.deleted.Success? ==> resp.payload == DeleteBody(o.deleted.value)
  {
    match o
    case Created(r) =>
      if r.Failure? then ErrorResponse(StatusBadRequest) else Encoded(CreateBody(r.value))
    case Listed(r) =>
      if r.Failure? then ErrorResponse(StatusInternalServerError) else Encoded(ReadBody(r.value))
    case Updated(r) =>
      if r.Failure? then ErrorResponse(StatusNotFound) else Encoded(UpdateBody(r.value))
    case Deleted(r) =>
      if r.Failure? then
        if r.error == NotFound then ErrorResponse(StatusNotFound) else ErrorResponse(StatusInternalServerError)
      else Encoded(DeleteBody(r.value))
  }

  // The wrappers' conversions of service results into response envelopes.

  function AsCreated(r: Result<Todo, ErrorKind>): Result<CreateTODOResponse, ErrorKind>
  {
    match r
    case Success(todo) => Success(CreateTODOResponse(todo))
    case Failure(e) => Failure(e)
  }

  function AsListed(r: Result<seq<Todo>, ErrorKind>): Result<ReadTODOResponse, ErrorKind>
  {
    match r
    case Success(todos) => Success(ReadTODOResponse(todos))
    case Failure(e) => Failure(e)
  }

  function AsUpdated(r: Result<Todo, ErrorKind>): Result<UpdateTODOResponse, ErrorKind>
  {
    match r
    case Success(todo) => Success(UpdateTODOResponse(todo))
    case Failure(e) => Failure(e)
  }

  function AsDeleted(err: Option<ErrorKind>): Result<DeleteTODOResponse, ErrorKind>
  {
    match err
    case None => Success(DeleteTODOResponse)
    case Some(e) => Failure(e)
  }

  /** The service performed `call`, taking the table from `t0` to `t1` and yielding `o`. */
  ghost predicate Performed(t0: Table, t1: Table, call: Call, eng: Engine, o: Outcome)
    requires WellFormed(t0)
  {
    match call
    case CreateCall(req) =>
      var (t, res) := CreateSpec(t0, req.subject, req.description, eng);
      t1 == t && o == Created(AsCreated(res))
    case ReadCall(req) =>
      t1 == t0 && o == Listed(AsListed(ReadSpec(t0, req.prevID, req.size, eng)))
    case UpdateCall(req) =>
      var (t, res) := UpdateSpec(t0, req.id, req.subject, req.description, eng);
      t1 == t && o == Updated(AsUpdated(res))
    case DeleteCall(req) =>
      var (t, err) := DeleteSpec(t0, req.ids, eng);
      t1 == t && o == Deleted(AsDeleted(err))
  }

  // End to end: what a request does to the table and what it gets back.

  /**
   * A listing answers 200 whenever the query runs, with the beginning of a
   * page of the table, newest first, 5 rows unless `size` says otherwise: the
   * whole page unless the cursor stopped early, and 200 even then.
   */
  lemma ServedPage(t0: Table, t1: Table, r: Request, atoi: Atoi, eng: Engine, o: Outcome)
    requires WellFormed(t0) && r.verb == MethodGet && Decide(r, atoi).Invoke?
    requires Performed(t0, t1, Decide(r, atoi).call, eng, o)
    ensures t1 == t0
    ensures Respond(o).status == StatusOK <==> !eng.execFails
    ensures Respond(o).status == StatusOK ==>
              Respond(o).payload.ReadBody? &&
              PartialPage(t0.rows, Decide(r, atoi).call.read.prevID, Decide(r, atoi).call.read.size,
                          Respond(o).payload.read.todos)
    ensures Respond(o).status == StatusOK && eng.cursorStop.None? ==>
              IsPage(t0.rows, Decide(r, atoi).call.read.prevID, Decide(r, atoi).call.read.size,
                     Respond(o).payload.read.todos)
    ensures QueryGet(r.query, "size") == "" && Respond(o).status == StatusOK ==>
              |Respond(o).payload.read.todos| <= 5
  {
  }

  /** A create with an empty subject reaches the service, fails there, and answers 400 with the table untouched. */
  lemma EmptySubjectCreate(t0: Table, t1: Table, r: Request, atoi: Atoi, eng: Engine, o: Outcome)
    requires WellFormed(t0) && r.verb == MethodPost && r.body.asCreate.Some? && r.body.asCreate.value.subject == ""
    requires Performed(t0, t1, Decide(r, atoi).call, eng, o)
    ensures Decide(r, atoi).Invoke?
    ensures t1 == t0 && Respond(o).status == StatusBadRequest
  {
  }

  /** An update of an id that is not stored answers 404 and changes nothing. */
  lemma UpdateUnknown(t0: Table, t1: Table, r: Request, atoi: Atoi, eng: Engine, o: Outcome)
    requires WellFormed(t0) && r.verb == MethodPut && Decide(r, atoi).Invoke?
    requires r.body.asUpdate.value.id !in t0.rows
    requires Performed(t0, t1, Decide(r, atoi).call, eng, o)
    ensures t1 == t0 && Respond(o).status == StatusNotFound
  {
  }

  /** A delete that names no stored id answers 404, or 500 when the statement itself fails, and removes nothing. */
  lemma DeleteUnknown(t0: Table, t1: Table, r: Request, atoi: Atoi, eng: Engine, o: Outcome)
    requires WellFormed(t0) && r.verb == MethodDelete && Decide(r, atoi).Invoke?
    requires forall i :: 0 <= i < |r.body.asDelete.value.ids| ==> r.body.asDelete.value.ids[i] !in t0.rows
    requires Performed(t0, t1, Decide(r, atoi).call, eng, o)
    ensures t1 == t0
    ensures Respond(o).status == (if eng.execFails then StatusInternalServerError else StatusNotFound)
  {
  }

  /** `TODOHandler`: the HTTP endpoint over a TODO service. */
  class TODOHandler {
    const svc: TODOService

    constructor (svc: TODOService)
      ensures this.svc == svc
    {
      this.svc := svc;
    }

    /** `Create`: hands subject and description to the service and wraps the created TODO. */
    method Create(req: CreateTODORequest, eng: Engine) returns (r: Result<CreateTODOResponse, ErrorKind>)
      requires svc.Valid()
      modifies svc
      ensures svc.Valid()
      ensures var (t, res) := CreateSpec(old(svc.State()), req.subject, req.description, eng);
              svc.State() == t && r == AsCreated(res)
    {
      var todo := svc.CreateTODO(req.subject, req.description, eng);
      if todo.Failure? {
        return Failure(todo.error);
      }
      r := Success(CreateTODOResponse(todo.value));
    }

    /** `Read`: asks the service for a page and copies it, in order, into the response. */
    method Read(req: ReadTODORequest, eng: Engine) returns (r: Result<ReadTODOResponse, ErrorKind>)
      requires svc.Valid()
      // the same rows, as many and in the same order, as the service returned
      ensures r == AsListed(ReadSpec(svc.State(), req.prevID, req.size, eng))
      ensures r.Success? ==> PartialPage(svc.rows, req.prevID, req.size, r.value.todos)
    {
      var todos := svc.ReadTODO(req.prevID, req.size, eng);
      if todos.Failure? {
        return Failure(todos.error);
      }
      var todoList := new Todo[|todos.value|];
      for i := 0 to |todos.value|
        invariant forall j :: 0 <= j < i ==> todoList[j] == todos.value[j]
      {
        todoList[i] := todos.value[i];
      }
      assert todoList[..] == todos.value;
      r := Success(ReadTODOResponse(todoList[..]));
    }

    /** `Update`: hands id, subject and description to the service and wraps the updated TODO. */
    method Update(req: UpdateTODORequest, eng: Engine) returns (r: Result<UpdateTODOResponse, ErrorKind>)
      requires svc.Valid()
      modifies svc
      ensures svc.Valid()
      ensures var (t, res) := UpdateSpec(old(svc.State()), req.id, req.subject, req.description, eng);
              svc.State() == t && r == AsUpdated(res)
    {
      var todo := svc.UpdateTODO(req.id, req.subject, req.description, eng);
      if todo.Failure? {
        return Failure(todo.error);
      }
      r := Success(UpdateTODOResponse(todo.value));
    }

    /** `Delete`: hands the ids to the service and acknowledges with an empty envelope. */
    method Delete(req: DeleteTODORequest, eng: Engine) returns (r: Result<DeleteTODOResponse, ErrorKind>)
      requires svc.Valid()
      modifies svc
      ensures svc.Valid()
      ensures var (t, err) := DeleteSpec(old(svc.State()), req.ids, eng);
              svc.State() == t && r == AsDeleted(err)
    {
      var err := svc.DeleteTODO(req.ids, eng);
      if err.Some? {
        return Failure(err.value);
      }
      r := Success(DeleteTODOResponse);
    }

    /**
     * `ServeHTTP`: dispatches on the method, validates, calls the service at
     * most once, and answers. `outcome` records what the service returned.
     */
    method ServeHTTP(r: Request, atoi: Atoi, eng: Engine) returns (resp: Response, ghost outcome: Outcome)
      requires svc.Valid()
      modifies svc
      ensures svc.Valid()
      // the service is called exactly when the handler does not reject up front
      ensures outcome.NotCalled? <==> Decide(r, atoi).Reject?
      ensures Decide(r, atoi).Reject? ==>
                resp == ErrorResponse(Decide(r, atoi).status) && svc.State() == old(svc.State())
      ensures Decide(r, atoi).Invoke? ==>
                Performed(old(svc.State()), svc.State(), Decide(r, atoi).call, eng, outcome) &&
                resp == Respond(outcome)
    {
      if r.verb == MethodPost {
        if r.body.asCreate.None? {
          resp, outcome := ErrorResponse(StatusBadRequest), NotCalled;
          return;
        }
        var res := Create(r.body.asCreate.value, eng);
        outcome := Created(res);
        if res.Failure? {
          resp := ErrorResponse(StatusBadRequest);
          return;
        }
        resp := Encoded(CreateBody(res.value));

      } else if r.verb == MethodGet {
        var req := ReadTODORequest(0, 0);
        var query := r.query;
        if QueryGet(query, "prev_id") == "" {
          req := req.(prevID := 0);
        } else {
          var prevID := atoi(QueryGet(query, "prev_id"));
          if prevID.None? {
            resp, outcome := ErrorResponse(StatusBadRequest), NotCalled;
            return;
          }
          req := req.(prevID := prevID.value);
        }
        if QueryGet(query, "size") == "" {
          req := req.(size := 5);
        } else {
          var size := atoi(QueryGet(query, "size"));
          if size.None? {
            resp, outcome := ErrorResponse(StatusBadRequest), NotCalled;
            return;
          }
          req := req.(size := size.value);
        }
        var res := Read(req, eng);
        outcome := Listed(res);
        if res.Failure? {
          resp := ErrorResponse(StatusInternalServerError);
          return;
        }
        resp := Encoded(ReadBody(res.value));

      } else if r.verb == MethodPut {
        if r.body.asUpdate.None? {
          resp, outcome := ErrorResponse(StatusBadRequest), NotCalled;
          return;
        }
        var req := r.body.asUpdate.value;
        if req.id == 0 || req.subject == "" {
          resp, outcome := ErrorResponse(StatusBadRequest), NotCalled;
          return;
        }
        var res := Update(req, eng);
        outcome := Updated(res);
        if res.Failure? {
          resp := ErrorResponse(StatusNotFound);
          return;
        }
        resp := Encoded(UpdateBody(res.value));

      } else if r.verb == MethodDelete {
        if r.body.asDelete.None? {
          resp, outcome := ErrorResponse(StatusBadRequest), NotCalled;
          return;
        }
        var req := r.body.asDelete.value;
        if |req.ids| == 0 {
          resp, outcome := ErrorResponse(StatusBadRequest), NotCalled;
          return;
        }
        var res := Delete(req, eng);
        outcome := Deleted(res);
        if res.Failure? {
          if res.error == NotFound {
            resp := ErrorResponse(StatusNotFound);
            return;
          }
          resp := ErrorResponse(StatusInternalServerError);
          return;
        }
        resp := Encoded(DeleteBody(res.value));

      } else {
        resp, outcome := ErrorResponse(StatusMethodNotAllowed), NotCalled;
      }
    }
  }
}
