/**
 * The status the service shows and the endpoints that read and change it.
 *
 * The state is a record of the current status and the time it was last set. At
 * start-up it is read from `status.json` when that file exists, and otherwise
 * defaults to the first allowed status. `/set` (GET with query parameters, POST with
 * a JSON body) checks the credentials, checks the requested status against the
 * allow-list, and only then updates the state and writes it back to the file.
 */
module Store {
  import opened Wrappers
  import opened Auth
  import opened Config
  import opened Slug

  /** The service state, as kept in memory and in `status.json`; `updated_at` may be absent from a file. */
  datatype Record = Record(status: string, updatedAt: Option<int>)

  /** Start-up cannot pick a default status when there is no file and the allow-list is empty. */
  datatype LoadError = NoDefaultStatus

  /**
   * `load_status()`: the file's record when the file exists, otherwise the first
   * allowed status stamped with the start-up time.
   */
  function Load(allowed: seq<string>, file: Option<Record>, now: int): (r: Result<Record, LoadError>)
    ensures r.Ok? <==> file.Some? || allowed != []
    ensures file.Some? ==> r == Ok(file.value)
    ensures file.None? && r.Ok? ==> r.value.status in allowed && r.value.updatedAt == Some(now)
    ensures file.None? && allowed != [] ==> r == Ok(Record(allowed[0], Some(now)))
  {
    match file
    case Some(record) => Ok(record)
    case None => if allowed == [] then Err(NoDefaultStatus) else Ok(Record(allowed[0], Some(now)))
  }

  /** A JSON value as the request parser returns it (numbers are whole numbers here). */
  datatype Json =
    | JNull
    | JBool(b: bool)
    | JNumber(n: int)
    | JString(s: string)
    | JArray(items: seq<Json>)
    | JObject(fields: map<string, Json>)

  /** Python truthiness of a parsed JSON value. */
  predicate Truthy(j: Json) {
    match j
    case JNull => false
    case JBool(b) => b
    case JNumber(n) => n != 0
    case JString(s) => s != ""
    case JArray(items) => items != []
    case JObject(fields) => fields != map[]
  }

  /** A truthy body that is not an object has no `.get`: the request fails with a server error. */
  datatype BodyError = BodyNotAnObject

  /**
   * The status a POST body asks for. A missing or unparsable body, and any falsy one,
   * stands for `{}`; a `status` member that is not a string can never be in the
   * allow-list and so is reported as no status.
   */
  function PostedStatus(body: Option<Json>): (r: Result<Option<string>, BodyError>)
    ensures r.Err? <==> body.Some? && Truthy(body.value) && !body.value.JObject?
    ensures r.Ok? && r.value.Some? <==>
      body.Some? && body.value.JObject? && "status" in body.value.fields && body.value.fields["status"].JString?
    ensures r.Ok? && r.value.Some? ==> r.value.value == body.value.fields["status"].s
  {
    match body
    case None => Ok(None)
    case Some(j) =>
      if !Truthy(j) then Ok(None)
      else if !j.JObject? then Err(BodyNotAnObject)
      else if "status" in j.fields && j.fields["status"].JString? then Ok(Some(j.fields["status"].s))
      else Ok(None)
  }

  /** The `Authorization` header and the `token` query parameter of a request, if present. */
  datatype Credentials = Credentials(authorization: Option<string>, tokenArg: Option<string>)

  /** A request to `/set`: GET carries the status as a query parameter, POST in a JSON body. */
  datatype SetRequest =
    | SetByQuery(credentials: Credentials, statusArg: Option<string>)
    | SetByBody(credentials: Credentials, body: Option<Json>)

  /** The answer to a `/set` request. */
  datatype Response =
    | Unauthorized
    | InvalidStatus(allowed: seq<string>)
    | Updated(record: Record)
    | ServerError
  {
    function Code(): int {
      match this
      case Unauthorized => 401
      case InvalidStatus(_) => 400
      case Updated(_) => 200
      case ServerError => 500
    }
  }

  predicate Authorized(config: Config, credentials: Credentials) {
    CheckAuth(config.token, credentials.authorization, credentials.tokenArg)
  }

  /** The status a request asks for, or the failure to read one. */
  function Requested(req: SetRequest): Result<Option<string>, BodyError> {
    match req
    case SetByQuery(_, statusArg) => Ok(statusArg)
    case SetByBody(_, body) => PostedStatus(body)
  }

  /**
   * One `/set` request against the state: the response and the state after it.
   * Credentials are checked first; a request that fails for any reason leaves the
   * state as it was; a 400 lists the allow-list; a successful request sets the
   * status to the requested one, which is allowed, stamped with the current time.
   */
  function Step(config: Config, state: Record, req: SetRequest, now: int): (out: (Response, Record))
    ensures out.0.Unauthorized? <==> !Authorized(config, req.credentials)
    ensures out.0.Code() != 200 ==> out.1 == state
    ensures out.0.InvalidStatus? ==> out.0.allowed == config.allowed
    ensures out.0.ServerError? <==> Authorized(config, req.credentials) && Requested(req).Err?
    ensures out.0.InvalidStatus? <==>
      Authorized(config, req.credentials) && Requested(req).Ok?
      && (Requested(req).value.None? || Requested(req).value.value !in config.allowed)
    ensures out.0.Updated? <==>
      Authorized(config, req.credentials) && Requested(req).Ok? && Requested(req).value.Some?
      && Requested(req).value.value in config.allowed
    ensures out.0.Updated? ==>
      out.0.record == out.1 && out.1 == Record(Requested(req).value.value, Some(now))
    ensures out.1.status in config.allowed || out.1 == state
  {
    if !Authorized(config, req.credentials) then (Unauthorized, state)
    else
      match Requested(req)
      case Err(_) => (ServerError, state)
      case Ok(requested) =>
        if requested.Some? && requested.value in config.allowed then
          var record := Record(requested.value, Some(now));
          (Updated(record), record)
        else (InvalidStatus(config.allowed), state)
  }

  /** The state after a sequence of `/set` requests, each with the time it arrived. */
  function Run(config: Config, state: Record, reqs: seq<(SetRequest, int)>): Record
    decreases |reqs|
  {
    if reqs == [] then state
    else Run(config, Step(config, state, reqs[0].0, reqs[0].1).1, reqs[1..])
  }

  /** No sequence of requests moves the status outside the allow-list. */
  lemma {:induction false} RunKeepsAllowed(config: Config, state: Record, reqs: seq<(SetRequest, int)>)
    requires state.status in config.allowed
    ensures Run(config, state, reqs).status in config.allowed
    decreases |reqs|
  {
    if reqs != [] {
      RunKeepsAllowed(config, Step(config, state, reqs[0].0, reqs[0].1).1, reqs[1..]);
    }
  }

  /** Started without a status file, the service only ever shows allowed statuses. */
  lemma RunFromStartup(config: Config, now: int, reqs: seq<(SetRequest, int)>)
    requires config.allowed != []
    ensures Load(config.allowed, None, now).Ok?
    ensures Run(config, Load(config.allowed, None, now).value, reqs).status in config.allowed
  {
    RunKeepsAllowed(config, Load(config.allowed, None, now).value, reqs);
  }

  /** A request that carries neither the bearer header nor the query token for the configured token. */
  predicate LacksToken(config: Config, req: SetRequest) {
    req.credentials.authorization != Some(BearerScheme + " " + config.token)
    && req.credentials.tokenArg != Some(config.token)
  }

  /** With a token configured, requests that do not present it change nothing. */
  lemma {:induction false} RunWithoutTokenChangesNothing(config: Config, state: Record, reqs: seq<(SetRequest, int)>)
    requires config.token != ""
    requires forall i :: 0 <= i < |reqs| ==> LacksToken(config, reqs[i].0)
    ensures Run(config, state, reqs) == state
    decreases |reqs|
  {
    if reqs != [] {
      assert LacksToken(config, reqs[0].0);
      RunWithoutTokenChangesNothing(config, state, reqs[1..]);
    }
  }

  /** What `/api/status` reports. */
  datatype StatusView = StatusView(status: string, allowed: seq<string>, image: string, updatedAt: int)

  /**
   * The `/api/status` document for a state: a missing `updated_at` reads as 0, and the
   * image is the status's slug inside the content directory with the `.png` extension.
   */
  function View(config: Config, state: Record): (v: StatusView)
    ensures v.status == state.status && v.allowed == config.allowed && v.updatedAt == state.updatedAt.GetOr(0)
    ensures state.status in config.allowed ==> v.status in v.allowed
    ensures |ImageDir| + |ImageExt| <= |v.image|
    ensures ImageDir <= v.image && v.image[|v.image| - |ImageExt|..] == ImageExt
    ensures v.image[|ImageDir|..|v.image| - |ImageExt|] == Slugify(v.status)
  {
    StatusView(state.status, config.allowed, ImagePath(state.status), state.updatedAt.GetOr(0))
  }

  /**
   * After a successful `/set`, `/api/status` reports the requested status, its image
   * under the content directory named by the status's slug, and the time of the request.
   */
  lemma SetThenView(config: Config, state: Record, req: SetRequest, now: int)
    requires Step(config, state, req, now).0.Updated?
    ensures var v := View(config, Step(config, state, req, now).1);
      && v.status == Requested(req).value.value
      && v.status in v.allowed
      && v.updatedAt == now
      && v.image == ImageDir + Slugify(v.status) + ImageExt
  {
  }

  /**
   * The running service: its configuration, the in-memory state, and the contents of
   * `status.json` (`None` while no file has been written).
   */
  class StatusService {
    const config: Config
    var status: string
    var updatedAt: Option<int>
    var file: Option<Record>

    function State(): Record
      reads this
    {
      Record(status, updatedAt)
    }

    /** The status shown is one of the allowed statuses. */
    ghost predicate Valid()
      reads this
    {
      status in config.allowed
    }

    /** Start-up: the state is loaded from the file, or defaulted when there is none. */
    constructor (config: Config, file: Option<Record>, now: int)
      requires Load(config.allowed, file, now).Ok?
      ensures this.config == config && this.file == file
      ensures State() == Load(config.allowed, file, now).value
      ensures file.None? || file.value.status in config.allowed ==> Valid()
    {
      this.config := config;
      this.file := file;
      var record := Load(config.allowed, file, now).value;
      status := record.status;
      updatedAt := record.updatedAt;
    }

    /** `GET /api/status`. */
    method GetStatus() returns (v: StatusView)
      ensures v == View(config, State())
      ensures Valid() ==> v.status in v.allowed
    {
      v := View(config, State());
    }

    /** `GET /set?status=...`. */
    method SetGet(credentials: Credentials, statusArg: Option<string>, now: int) returns (resp: Response)
      modifies this
      ensures (resp, State()) == Step(config, old(State()), SetByQuery(credentials, statusArg), now)
      ensures file == if resp.Updated? then Some(State()) else old(file)
      ensures old(Valid()) ==> Valid()
    {
      if !CheckAuth(config.token, credentials.authorization, credentials.tokenArg) {
        return Unauthorized;
      }
      resp := Commit(statusArg, now);
    }

    /** `POST /set` with a JSON body. */
    method SetPost(credentials: Credentials, body: Option<Json>, now: int) returns (resp: Response)
      modifies this
      ensures (resp, State()) == Step(config, old(State()), SetByBody(credentials, body), now)
      ensures file == if resp.Updated? then Some(State()) else old(file)
      ensures old(Valid()) ==> Valid()
    {
      if !CheckAuth(config.token, credentials.authorization, credentials.tokenArg) {
        return Unauthorized;
      }
      var requested := PostedStatus(body);
      if requested.Err? {
        return ServerError;
      }
      resp := Commit(requested.value, now);
    }

    /** The shared tail of both `/set` handlers: validate against the allow-list, then update and save. */
    method Commit(newStatus: Option<string>, now: int) returns (resp: Response)
      modifies this
      ensures if newStatus.Some? && newStatus.value in config.allowed then
          && State() == Record(newStatus.value, Some(now))
          && file == Some(State())
          && resp == Updated(State())
        else
          && unchanged(this)
          && resp == InvalidStatus(config.allowed)
    {
      if newStatus.None? || newStatus.value !in config.allowed {
        return InvalidStatus(config.allowed);
      }
      status := newStatus.value;
      updatedAt := Some(now);
      file := Some(Record(status, updatedAt));
      resp := Updated(Record(status, updatedAt));
    }
  }
}
