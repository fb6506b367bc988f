/**
 * Process start-up of main.go: the listen address, whether to consume the SQS
 * queue, and whether to serve TLS. Environment variables, file stats and the
 * AWS configuration are parameters.
 */
module Server {

  import opened Wrappers
  import opened RouteTable
  import opened Routing

  /** buildListenAddr(): all interfaces, on WEBSOCKET_PORT or 8080 when it is empty; a port is taken verbatim. */
  method BuildListenAddr(websocketPort: string) returns (addr: string)
    ensures |addr| > 8 && addr[..8] == "0.0.0.0:"
    ensures websocketPort == "" ==> addr == "0.0.0.0:8080"
    ensures websocketPort != "" ==> addr[8..] == websocketPort
  {
    var listenPort := websocketPort;
    if listenPort == "" {
      listenPort := "8080";
    }
    addr := "0.0.0.0:" + listenPort;
  }

  /**
   * shouldServeTLS(cert, key): true exactly when both stats succeed; the key is
   * stat'ed only once the certificate's stat has succeeded. `statted` lists
   * the paths stat'ed, in order.
   */
  method ShouldServeTLS(certificatePath: string, privateKeyPath: string, statSucceeds: string -> bool)
    returns (tls: bool, statted: seq<string>)
    ensures tls <==> statSucceeds(certificatePath) && statSucceeds(privateKeyPath)
    ensures statted == if statSucceeds(certificatePath) then [certificatePath, privateKeyPath] else [certificatePath]
  {
    tls := false;
    statted := [certificatePath];
    if statSucceeds(certificatePath) {
      statted := statted + [privateKeyPath];
      if statSucceeds(privateKeyPath) {
        tls := true;
      }
    }
  }

  /** shouldConsumeSqsQueue(): whether the configuration names a default queue. */
  function ShouldConsumeSqsQueue(defaultSqsQueueUrl: Option<string>): (consume: bool)
    ensures consume <==> defaultSqsQueueUrl != None
  {
    defaultSqsQueueUrl.Some?
  }

  /** A consumer of a queue, delivering to the named callback. */
  datatype Subscription = Subscription(queueUrl: string, callback: string)

  /** consumeSqsQueue(): subscribe SqsQueueHandler to the default queue, when there is one. */
  function ConsumeSqsQueue(defaultSqsQueueUrl: Option<string>): (sub: Option<Subscription>)
    ensures sub.Some? <==> ShouldConsumeSqsQueue(defaultSqsQueueUrl)
    ensures sub.Some? ==> sub.value == Subscription(defaultSqsQueueUrl.value, "SqsQueueHandler")
  {
    match defaultSqsQueueUrl
    case Some(url) => Some(Subscription(url, "SqsQueueHandler"))
    case None => None
  }

  /** The listener main starts. */
  datatype Listener = Plain(addr: string) | Tls(addr: string, certificatePath: string, privateKeyPath: string)

  /** Everything main sets up before it blocks in the listener. */
  datatype Startup = Startup(registrations: seq<Registration>, subscription: Option<Subscription>, listener: Listener)

  /**
   * main(): build the router, consume the queue when configured, and listen on
   * the listen address with TLS exactly when both the certificate and the key
   * can be stat'ed. `getenv` is os.Getenv; both configuration reads see the
   * same `defaultSqsQueueUrl`.
   */
  method Start(getenv: string -> string, statSucceeds: string -> bool, defaultSqsQueueUrl: Option<string>)
    returns (startup: Startup)
    ensures startup.registrations == Registrations(Routes())
    ensures startup.subscription == ConsumeSqsQueue(defaultSqsQueueUrl)
    ensures startup.listener.Tls? <==> statSucceeds(getenv("SSL_CERTIFICATE_PATH")) && statSucceeds(getenv("SSL_PRIVATE_KEY_PATH"))
    ensures startup.listener.Tls? ==>
              startup.listener.certificatePath == getenv("SSL_CERTIFICATE_PATH")
              && startup.listener.privateKeyPath == getenv("SSL_PRIVATE_KEY_PATH")
    ensures startup.listener.addr == "0.0.0.0:" + if getenv("WEBSOCKET_PORT") == "" then "8080" else getenv("WEBSOCKET_PORT")
  {
    var router := Router(Routes());
    var certificatePath := getenv("SSL_CERTIFICATE_PATH");
    var privateKeyPath := getenv("SSL_PRIVATE_KEY_PATH");
    var listenAddr := BuildListenAddr(getenv("WEBSOCKET_PORT"));
    assert listenAddr == listenAddr[..8] + listenAddr[8..];
    var subscription := None;
    if ShouldConsumeSqsQueue(defaultSqsQueueUrl) {
      subscription := ConsumeSqsQueue(defaultSqsQueueUrl);
    }
    var tls, _ := ShouldServeTLS(certificatePath, privateKeyPath, statSucceeds);
    if tls {
      startup := Startup(router, subscription, Tls(listenAddr, certificatePath, privateKeyPath));
    } else {
      startup := Startup(router, subscription, Plain(listenAddr));
    }
  }
}
