/**
 * Route registration: BaseHandler of handlers.go, which wraps a route's
 * handler in a timing logger and, for an authorized route, in the JWT
 * middleware configured in router.go; and Router, which registers each route
 * of the table with the HTTP router.
 */
module Routing {

  import opened Wrappers
  import opened RouteTable

  /** A handler chain: the logging closure of BaseHandler around a route's handler, optionally behind the JWT middleware. */
  datatype Handler = Timed(routeName: string, inner: Option<Func>) | Jwt(guarded: Handler)

  /** BaseHandler(route): the logging closure, wrapped by the JWT middleware exactly when the route asks for authorization. */
  function BaseHandler(route: Route): (h: Handler)
    ensures h.Jwt? <==> route.authorize
    ensures (if h.Jwt? then h.guarded else h) == Timed(route.name, route.httpHandlerFunc)
  {
    var handler := Timed(route.name, route.httpHandlerFunc);
    if route.authorize then Jwt(handler) else handler
  }

  /** An HTTP response's status and content-type header. */
  datatype Response = Response(contentType: string, status: int)

  const StatusUnauthorized := 401
  const ContentTypeJson := "application/json; charset=UTF-8"

  /** The middleware's ErrorHandler: status 401 with a JSON content type. */
  function AuthErrorResponse(): (r: Response)
    ensures r.status == 401 && r.contentType == "application/json; charset=UTF-8"
  {
    Response(ContentTypeJson, StatusUnauthorized)
  }

  /** The middleware's ValidationKeyGetter: the shared secret, whatever the token. */
  function ValidationKey(sharedSecret: string, token: string): (key: string)
    ensures key == sharedSecret
  {
    sharedSecret
  }

  /** What serving a request through a handler chain comes to: a refusal, or the route's handler run. */
  datatype Outcome = Rejected(response: Response) | Served(routeName: string, handler: Option<Func>)

  /**
   * A request carrying `token` meets the chain. `verifies(token, key)` is the
   * middleware's HS256 check of the token under the key the getter returns.
   */
  function Serve(h: Handler, token: string, sharedSecret: string, verifies: (string, string) -> bool): Outcome
  {
    match h
    case Timed(name, f) => Served(name, f)
    case Jwt(inner) =>
      if verifies(token, ValidationKey(sharedSecret, token)) then Serve(inner, token, sharedSecret, verifies)
      else Rejected(AuthErrorResponse())
  }

  /**
   * A route's BaseHandler turns a request away with 401 and a JSON content type
   * exactly when the route is authorized and the token does not verify under
   * the shared secret; otherwise the route's own handler runs.
   */
  lemma BaseHandlerGuards(route: Route, token: string, sharedSecret: string, verifies: (string, string) -> bool)
    ensures Serve(BaseHandler(route), token, sharedSecret, verifies)
         == if route.authorize && !verifies(token, sharedSecret)
            then Rejected(Response("application/json; charset=UTF-8", 401))
            else Served(route.name, route.httpHandlerFunc)
  {
  }

  /** What a registration with the HTTP router dispatches to. */
  datatype Target =
    | ThroughBase(handler: Handler)   // a closure that stores the path parameters in the request context, then serves handler
    | Direct(handle: Func)

  /** One `router.Handle(method, pattern, handle)`. */
  datatype Registration = Registration(httpMethod: string, pattern: string, target: Target)

  /**
   * What Router registers for one route: the BaseHandler wrapper when the route
   * has an HttpHandlerFunc, which wins over a RouterHandleFunc; else that
   * handle itself; else nothing.
   */
  function Registered(route: Route): (r: Option<Registration>)
    ensures r.Some? <==> route.httpHandlerFunc.Some? || route.routerHandleFunc.Some?
    ensures r.Some? ==> r.value.httpMethod == route.httpMethod && r.value.pattern == route.pattern
    ensures route.httpHandlerFunc.Some? ==> r.value.target == ThroughBase(BaseHandler(route))
    ensures route.httpHandlerFunc.None? && route.routerHandleFunc.Some? ==> r.value.target == Direct(route.routerHandleFunc.value)
  {
    if route.httpHandlerFunc.Some? then
      Some(Registration(route.httpMethod, route.pattern, ThroughBase(BaseHandler(route))))
    else if route.routerHandleFunc.Some? then
      Some(Registration(route.httpMethod, route.pattern, Direct(route.routerHandleFunc.value)))
    else None
  }

  /** The registrations of a table, in table order. */
  function Registrations(routes: seq<Route>): (regs: seq<Registration>)
    ensures |regs| <= |routes|
    decreases |routes|
  {
    if routes == [] then []
    else
      var last := routes[|routes| - 1];
      Registrations(routes[..|routes| - 1]) + (if Registered(last).Some? then [Registered(last).value] else [])
  }

  /**
   * Where each registration comes from: the route indexes, strictly
   * increasing, of the routes that register, so at most one registration per
   * route, in table order, and every route with a handler registers.
   */
  function Origins(routes: seq<Route>): (idx: seq<nat>)
    ensures |idx| == |Registrations(routes)| <= |routes|
    ensures forall k :: 0 <= k < |idx| ==> idx[k] < |routes| && Registered(routes[idx[k]]) == Some(Registrations(routes)[k])
    ensures forall k, l :: 0 <= k < l < |idx| ==> idx[k] < idx[l]
    ensures forall j :: 0 <= j < |routes| && Registered(routes[j]).Some? ==> j in idx
    decreases |routes|
  {
    if routes == [] then []
    else
      var n := |routes| - 1;
      var front := routes[..n];
      var earlier := Origins(front);
      assert forall k :: 0 <= k < |earlier| ==> routes[earlier[k]] == front[earlier[k]];
      if Registered(routes[n]).Some? then earlier + [n] else earlier
  }

  /** Router(): register every route of the table, in order. */
  method Router(routes: seq<Route>) returns (registrations: seq<Registration>)
    ensures registrations == Registrations(routes)
  {
    registrations := [];
    for i := 0 to |routes|
      invariant registrations == Registrations(routes[..i])
    {
      assert routes[..i + 1][..i] == routes[..i];
      var route := routes[i];
      if route.httpHandlerFunc.Some? {
        var handler := BaseHandler(route);
        registrations := registrations + [Registration(route.httpMethod, route.pattern, ThroughBase(handler))];
      } else if route.routerHandleFunc.Some? {
        registrations := registrations + [Registration(route.httpMethod, route.pattern, Direct(route.routerHandleFunc.value))];
      }
    }
    assert routes[..|routes|] == routes;
  }

  /** The table registers one handler: GET / through BaseHandler, behind the JWT middleware. */
  lemma TableRegistration()
    ensures Registrations(Routes())
         == [Registration("GET", "/", ThroughBase(Jwt(Timed("Websocket", Some(WebsocketUpgrade)))))]
  {
    var table := Routes();
    assert table[..0] == [];
  }

  /** The upgrade endpoint refuses a request whose token does not verify, and otherwise reaches the websocket handler. */
  lemma TableGuardsUpgrade(token: string, sharedSecret: string, verifies: (string, string) -> bool)
    ensures Serve(BaseHandler(Routes()[0]), token, sharedSecret, verifies)
         == if verifies(token, sharedSecret) then Served("Websocket", Some(WebsocketUpgrade)) else Rejected(AuthErrorResponse())
  {
    BaseHandlerGuards(Routes()[0], token, sharedSecret, verifies);
  }
}
