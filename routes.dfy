/** The constant route table of routes.go and the Route record it is made of. */
module RouteTable {

  import opened Wrappers

  /** A Go function value (an http.HandlerFunc or an httprouter.Handle), known by the name it is written as. */
  datatype Func = Func(name: string)

  /** The upgrade handler the table installs: `websocket.Handler(WebsocketHandler).ServeHTTP`. */
  const WebsocketUpgrade := Func("websocket.Handler(WebsocketHandler).ServeHTTP")

  /** One Route: a nil handler field is None. */
  datatype Route = Route(
    name: string,
    httpMethod: string,
    pattern: string,
    httpHandlerFunc: Option<Func>,
    routerHandleFunc: Option<Func>,
    authorize: bool)

  /** The `routes` table: the authorized websocket upgrade on GET /. */
  function Routes(): (table: seq<Route>)
    ensures |table| == 1
    ensures table[0].httpMethod == "GET" && table[0].pattern == "/"
    ensures table[0].authorize
    ensures table[0].httpHandlerFunc == Some(WebsocketUpgrade) && table[0].routerHandleFunc == None
  {
    [Route("Websocket", "GET", "/", Some(WebsocketUpgrade), None, true)]
  }
}
