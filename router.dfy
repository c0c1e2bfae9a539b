/** `Router::route` and `routeController`: from the controller name, the
    HTTP method, the query parameters, the id and the request body to the
    controller call that serves the request, or to the coded exception
    that refuses it. */
module Router {
  import opened PhpValues

  /** The two entries of `$controllerMap`. */
  datatype Controller = Categories | Courses

  function ControllerNamed(name: string): (c: Option<Controller>)
    ensures c == Some(Categories) <==> name == "categories"
    ensures c == Some(Courses) <==> name == "courses"
    ensures c.None? <==> name != "categories" && name != "courses"
  {
    if name == "categories" then Some(Categories)
    else if name == "courses" then Some(Courses)
    else None
  }

  /** The controller methods a request can reach, with their arguments. */
  datatype Action =
    | Get(id: string)
    | GetAll(query: map<string, string>)
    | Create(data: JsonValue)
    | Update(id: string, data: JsonValue)
    | Delete(id: string)

  /** What routing yields: the empty response of a preflight request, a
      controller call, a coded exception, or a type error raised when a
      body that is not a PHP array is passed where the controller declares
      `array $data`; that error is not an `Exception`, so nothing catches it. */
  datatype Routed =
    | NoContent
    | Dispatch(controller: Controller, action: Action)
    | Refused(failure: Failure)
    | TypeFault

  predicate IsArray(v: JsonValue) {
    v.JObject? || v.JList?
  }

  /** `$data`: the decoded body when the raw body is truthy, otherwise an
      empty array. `decoded` is what `json_decode($body, true)` returns,
      JNull for a body that is not valid JSON. */
  function BodyData(rawBody: string, decoded: JsonValue): (data: JsonValue)
    ensures !TruthyString(rawBody) ==> data == JObject(map[])
    ensures TruthyString(rawBody) ==> data == decoded
  {
    if TruthyString(rawBody) then decoded else JObject(map[])
  }

  predicate HasId(id: Option<string>) {
    id.Some? && TruthyString(id.value)
  }

  /** The `switch` of `routeController`. */
  function RouteController(controller: Controller, httpMethod: string, query: map<string, string>,
                           id: Option<string>, data: JsonValue): (r: Routed)
    ensures r.NoContent? == false
    ensures r.Dispatch? ==> r.controller == controller
  {
    if httpMethod == "GET" then
      if HasId(id) then Dispatch(controller, Get(id.value)) else Dispatch(controller, GetAll(query))
    else if httpMethod == "POST" then
      if IsArray(data) then Dispatch(controller, Create(data)) else TypeFault
    else if httpMethod == "PUT" then
      if !HasId(id) then Refused(Failure("ID is required for update", 400))
      else if IsArray(data) then Dispatch(controller, Update(id.value, data))
      else TypeFault
    else if httpMethod == "DELETE" then
      if !HasId(id) then Refused(Failure("ID is required for delete", 400))
      else Dispatch(controller, Delete(id.value))
    else Refused(Failure("HTTP Method not supported", 405))
  }

  /** `Router::route`. */
  function Route(name: string, httpMethod: string, query: map<string, string>, id: Option<string>,
                 rawBody: string, decoded: JsonValue): (r: Routed)
    // A preflight request is answered before anything else is looked at.
    ensures httpMethod == "OPTIONS" ==> r == NoContent
    ensures r == NoContent ==> httpMethod == "OPTIONS"
    // Any other request for an unknown controller is refused with 404.
    ensures httpMethod != "OPTIONS" && ControllerNamed(name).None? ==>
      r == Refused(Failure("Controller not found", 404))
    // A request that is served goes to the controller named.
    ensures r.Dispatch? ==> Some(r.controller) == ControllerNamed(name)
  {
    if httpMethod == "OPTIONS" then NoContent
    else
      match ControllerNamed(name)
      case None => Refused(Failure("Controller not found", 404))
      case Some(c) => RouteController(c, httpMethod, query, id, BodyData(rawBody, decoded))
  }

  /** GET asks for one entity when there is an id, else for the list. */
  lemma GetDispatch(c: Controller, name: string, query: map<string, string>, id: Option<string>,
                    rawBody: string, decoded: JsonValue)
    requires ControllerNamed(name) == Some(c)
    ensures Route(name, "GET", query, id, rawBody, decoded) ==
      Dispatch(c, if HasId(id) then Get(id.value) else GetAll(query))
  {
  }

  /** POST always creates, with the body as data; an empty body is an
      empty array, a body decoding to anything but an array is a type error. */
  lemma PostDispatch(c: Controller, name: string, query: map<string, string>, id: Option<string>,
                     rawBody: string, decoded: JsonValue)
    requires ControllerNamed(name) == Some(c)
    ensures !TruthyString(rawBody) ==>
      Route(name, "POST", query, id, rawBody, decoded) == Dispatch(c, Create(JObject(map[])))
    ensures TruthyString(rawBody) ==>
      Route(name, "POST", query, id, rawBody, decoded) ==
        if IsArray(decoded) then Dispatch(c, Create(decoded)) else TypeFault
  {
  }

  /** PUT and DELETE are refused with 400 exactly when there is no truthy id;
      with one, DELETE deletes it and PUT updates it with the body, which
      must be an array. */
  lemma IdRequired(name: string, httpMethod: string, query: map<string, string>, id: Option<string>,
                   rawBody: string, decoded: JsonValue)
    requires ControllerNamed(name).Some? && (httpMethod == "PUT" || httpMethod == "DELETE")
    ensures (Route(name, httpMethod, query, id, rawBody, decoded).Refused? &&
             Route(name, httpMethod, query, id, rawBody, decoded).failure.code == 400) <==> !HasId(id)
    ensures HasId(id) && httpMethod == "DELETE" ==>
      Route(name, httpMethod, query, id, rawBody, decoded) == Dispatch(ControllerNamed(name).value, Delete(id.value))
    ensures HasId(id) && httpMethod == "PUT" ==>
      Route(name, httpMethod, query, id, rawBody, decoded) ==
        if IsArray(BodyData(rawBody, decoded))
        then Dispatch(ControllerNamed(name).value, Update(id.value, BodyData(rawBody, decoded)))
        else TypeFault
  {
  }

  /** Every method other than the five handled is refused with 405 once the
      controller is known. */
  lemma OtherMethodsRefused(name: string, httpMethod: string, query: map<string, string>, id: Option<string>,
                            rawBody: string, decoded: JsonValue)
    requires ControllerNamed(name).Some?
    ensures (Route(name, httpMethod, query, id, rawBody, decoded) == Refused(Failure("HTTP Method not supported", 405)))
      <==> httpMethod !in {"GET", "POST", "PUT", "DELETE", "OPTIONS"}
  {
  }

  /** A request reaches a controller exactly when the controller is known,
      the method is one of the four served, an id is present where one is
      needed, and a body is an array where one is passed on. */
  lemma DispatchExactly(name: string, httpMethod: string, query: map<string, string>, id: Option<string>,
                        rawBody: string, decoded: JsonValue)
    ensures Route(name, httpMethod, query, id, rawBody, decoded).Dispatch? <==>
      && ControllerNamed(name).Some?
      && httpMethod in {"GET", "POST", "PUT", "DELETE"}
      && (httpMethod in {"PUT", "DELETE"} ==> HasId(id))
      && (httpMethod in {"POST", "PUT"} ==> IsArray(BodyData(rawBody, decoded)))
  {
  }
}
