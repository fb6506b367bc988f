# go-websocket-heartbeat in Dafny

A model of a websocket gateway written in Go. The gateway keeps a registry of
live websocket connections (`sockets`). It answers Pings, forwards client Text
frames to an SQS queue, and sends a `"ping"` frame to every connection every 30
seconds. It also fans out SQS messages to every registered connection, and
builds its HTTP routes and listener at start-up.

The model is sequential. Each transport call (NewFrameReader, Read,
NewFrameWriter, Write) and each marshal step is an oracle that the caller
supplies: a read outcome, a write outcome, or a function. What the Go program
does to the outside world becomes a returned log:
- `Write`: a frame written to a connection, and whether the write succeeded;
- `Publish`: a message handed to the queue.

Modules, one per part of the program:

- `Registry`: the `sockets` slice, as class `Sockets` holding a backing array
  and a length. `Link` appends. `Unlink` searches for the first equal entry and
  shifts the tail left inside the same array. The last cell keeps its stale
  value, as Go's `append(s[:k], s[k+1:]...)` leaves it.
- `Frames`: the payload buffer and the NUL trim (`bytes.Trim(payload, "\x00")`),
  readFrame's if-chain on the opcode, and `pong` and `send`. The opcodes are
  those of section 5.2 of RFC 6455: continuation 0x0, text 0x1, ping 0x9,
  pong 0xA.
- `Lifecycle`: the read loop of `WebsocketHandler` and the keepalive loop
  `ping`, each run on a finite script of transport answers.
- `Broadcast`: `SqsQueueHandler` exactly as written, and a corrected broadcast
  over a snapshot (see Findings).
- `RouteTable`, `Routing`: the route table, `BaseHandler`, the JWT middleware
  options, and `Router`.
- `Server`: `buildListenAddr`, `shouldServeTLS`, the queue-consumption decision,
  and the choice of listener in `main`.

Behaviour of the code worth knowing:
- The text payload is trimmed of NULs at both ends, not only at the end.
- `link` does not deduplicate, so the registry can hold one connection twice.
- The Pong reply carries the fixed payload `"pong"`. It does not echo the Ping's
  application data, as section 5.5.3 of RFC 6455 asks.
- The registry has no lock, and a broadcast does not snapshot the registry.
- A Close frame (opcode 0x8) that is read falls through readFrame's if-chain:
  the read loop neither stops nor unlinks, and reads on.

## Model

| member | source | states |
|---|---|---|
| `Registry.IndexOf` | handlers.go:173-179 | the search gives -1 exactly when the connection is absent; otherwise it gives a position holding it, with no equal entry before it |
| `Registry.Unlinked` | handlers.go:172-184 | unlink of a present connection shortens the registry by one, removing the first occurrence and keeping the rest in order; unlink of an absent one changes nothing |
| `Registry.UnlinkedMultiset` | handlers.go:180-181 | unlink removes exactly one copy of the connection, if there is one, and no other entry |
| `Registry.UnlinkedIsRemoveFirst` | handlers.go:172-184 | the index-and-slice definition equals an independent recursive "remove the first occurrence" |
| `Registry.LinkThenUnlink` | handlers.go:167-184 | linking a new connection and then unlinking it gives back the registry as it was |
| `Registry.UnlinkTwiceIsUnlinkOnce` | handlers.go:172-184 | a second unlink of a connection linked once is a no-op |
| `Registry.UnlinkKeepsOthers` | handlers.go:180-181 | every other connection keeps its number of occurrences |
| `Registry.UnlinkCells` | handlers.go:181 | the in-place shift keeps the array's size, its slice is the unlinked registry, and the length drops by one exactly when the connection was present |
| `Registry.Sockets.constructor` | handlers.go:19 | the registry starts empty |
| `Registry.Sockets.Link` | handlers.go:167-170 | the new registry is the old one with the connection appended, even when the connection is already present |
| `Registry.Sockets.Find` | handlers.go:173-179 | the search loop returns -1 exactly when the connection is absent; otherwise the position of an equal entry with no equal entry before it |
| `Registry.Sockets.RemoveAt` | handlers.go:181 | the cells after the found position move one place left in the same backing array, the last cell keeps its old value, and the slice length drops by one |
| `Registry.Sockets.Unlink` | handlers.go:172-184 | the search loop finds the first equal entry; the array afterwards is the left-shifted array, and the registry is the unlinked registry |
| `Frames.Filled` | handlers.go:66-67 | the payload buffer has the frame's declared length; bytes Read did not deliver stay zero |
| `Frames.Trim` | handlers.go:86 | the result has no NUL at either end; it is the contiguous slice of the input that starts at the first non-NUL byte; every byte cut off is NUL |
| `Frames.TrimIdempotent` | handlers.go:86 | trimming twice gives the same result as trimming once |
| `Frames.TrimHelloExample` | handlers.go:86 | "hello\x00\x00\x00" is trimmed to "hello" |
| `Frames.TrimBothEndsExample` | handlers.go:86 | leading NULs are removed as well, and interior NULs are kept |
| `Frames.React` | handlers.go:74-89 | only a Ping is answered; only a Text frame with a non-empty queue URL is published, and what is published is the trimmed payload; every other opcode is ignored |
| `Frames.Attempt` | handlers.go:118-129 | a write attempt logs no frame when NewFrameWriter fails, and otherwise logs exactly one frame, recording whether Write succeeded |
| `Frames.AfterWrite` | handlers.go:118-127 | a failure of either NewFrameWriter or Write unlinks the connection; a success leaves the registry alone |
| `Frames.ReadFrameEffect` | handlers.go:59-92 | readFrame fails exactly when the read fails, and then does nothing else; a Ping leads to exactly one Pong attempt with payload "pong", and ws is unlinked exactly when that attempt fails; no other frame changes the registry; a publish of the trimmed payload happens exactly for a Text frame with a queue URL |
| `Frames.Pong` | handlers.go:116-131 | one attempt to write "pong" in a Pong frame; ws is unlinked if NewFrameWriter or Write fails; no retry |
| `Frames.Send` | handlers.go:133-148 | one attempt to write the message in a Text frame; ws is unlinked on any failure |
| `Frames.ReadFrame` | handlers.go:59-92 | the method's error result, writes, publishes and new registry are those of ReadFrameEffect |
| `Lifecycle.SessionStopsAtFirstError` | handlers.go:49-56 | frames are handled in arrival order up to the first read error, which stops the loop; later arrivals are never read |
| `Lifecycle.SessionFailsIffReadError` | handlers.go:49-56 | the loop stops (and unlinks) exactly when some read fails |
| `Lifecycle.Session` | handlers.go:49-56 | the read loop writes at most one Pong per Ping frame it reads, and publishes at most once per arrival |
| `Lifecycle.SessionRestoresRegistry` | handlers.go:44-57 | for a connection that was not already registered: link, any failed Pongs, and the final unlink together leave the registry as it was once the loop stops |
| `Lifecycle.SessionWritesOnlyPongs` | handlers.go:76-78 | every write of the read loop is a Pong frame carrying "pong" to ws |
| `Lifecycle.SessionPublishesToQueue` | handlers.go:84-88 | with an empty queue URL nothing is published; otherwise everything goes to that URL |
| `Lifecycle.SessionIgnoresClose` | handlers.go:74-91 | a Close frame that is read changes nothing: the loop neither stops nor unlinks ws and goes on with the next arrival |
| `Lifecycle.WebsocketHandler` | handlers.go:44-57 | link once, then the read loop over the arrivals; the final registry, writes and publishes are those of Session |
| `Lifecycle.KeepaliveEffect` | handlers.go:95-113 | at most one write per round, and the registry is touched only when the loop stops, by unlinking ws |
| `Lifecycle.KeepaliveUnlinksOnce` | handlers.go:94-114 | the keepalive stops exactly when some round fails; with KeepaliveEffect's contract, it has then unlinked ws once |
| `Lifecycle.KeepaliveStopsAtFirstFailure` | handlers.go:95-113 | the keepalive pings, delivered, in every round before the first failed one, makes that round's attempt, and then stops with no further ping |
| `Lifecycle.KeepalivePings` | handlers.go:95-111 | every write is a Ping frame carrying "ping" to ws; only the last write can have failed; a loop still running delivered a ping in every round |
| `Lifecycle.KeepaliveFailureRemovesOne` | handlers.go:97-108 | a registered connection whose ping fails in any round leaves the registry one shorter, with every other connection unaffected |
| `Lifecycle.Ping` | handlers.go:94-114 | the method's writes, stop flag and new registry are those of KeepaliveEffect |
| `Broadcast.FanStep` | handlers.go:188-194 | one round of the range loop keeps the backing array's size and keeps it a valid slice |
| `Broadcast.FanOut` | handlers.go:186-197 | the rounds of the loop never resize the backing array the range loop indexes |
| `Broadcast.FanOutAllDelivered` | handlers.go:186-197 | when marshalling and every send succeed, each connection linked at the start gets exactly one Text frame with the message, in registry order, and the registry is unchanged |
| `Broadcast.FanOutMarshalFails` | handlers.go:189-191 | a message that cannot be marshalled is sent to nobody, and the registry is unchanged |
| `Broadcast.FanOutTwoConnections` | handlers.go:186-197 | with two connections, where the send to the first succeeds and the send to the second fails, the first has the message and only the first stays registered |
| `Broadcast.FanOutSkipsAfterFailure` | handlers.go:188 | on [1, 2, 3], a failed send to 1 makes the loop skip 2 and send to 3 twice |
| `Broadcast.SqsQueueHandler` | handlers.go:186-197 | the method reads each recipient from the live array with the round count fixed at the start; its writes and final array are those of FanOut |
| `Broadcast.Attempts` | handlers.go:133-148 | one send attempt per snapshot entry, in order: no more writes than entries |
| `Broadcast.AttemptsMembers` | handlers.go:133-148 | the writes of the attempts are exactly the Text frames of the entries whose frame writer could be had, each delivered as its own Write says |
| `Broadcast.AttemptsOncePerEntry` | handlers.go:133-148 | over distinct connections, each entry is written to exactly once when its frame writer can be had and never otherwise |
| `Broadcast.SnapshotOut` | handlers.go:186-197 | the corrected broadcast's writes are the per-entry attempts, in snapshot order, whatever unlinks happen on the way |
| `Broadcast.SnapshotOncePerEntry` | handlers.go:186-197 | corrected broadcast: each distinct registered connection is written to exactly once when its writer can be had, and receives the message exactly when its own send succeeds, whatever the other sends do |
| `Broadcast.SnapshotAllDelivered` | handlers.go:186-197 | corrected broadcast with every send succeeding: each entry gets exactly one Text frame with the message, in order, and the registry is unchanged |
| `Broadcast.AttemptsDeliveries` | handlers.go:133-148 | the attempts of a broadcast deliver as many frames as there are sends that succeed |
| `Broadcast.SnapshotUnlinks` | handlers.go:133-148 | over distinct registered connections, each failed send removes exactly one registry entry |
| `Broadcast.FailedEntries` | handlers.go:138-143 | the entries whose send fails, one per failed send |
| `Broadcast.SnapshotRemovesFailed` | handlers.go:133-148 | the registry after the snapshot broadcast is the old registry less one copy of each failed connection, and no other entry |
| `Broadcast.SnapshotPartialFailure` | handlers.go:186-197 | over N distinct registered connections of which K fail: N - K deliveries, and the registry loses exactly the K failed connections' entries, one each, and nothing else |
| `Broadcast.SnapshotWritesMessage` | handlers.go:186-197 | the snapshot broadcast writes only Text frames carrying the message, and only to connections of the snapshot |
| `Broadcast.BroadcastSnapshot` | handlers.go:186-197 | corrected broadcast: nothing is sent when marshalling fails; otherwise one send attempt per snapshot entry, as SnapshotOut states |
| `RouteTable.Routes` | routes.go:20-29 | the table has one route: GET "/", authorized, with an HttpHandlerFunc and no RouterHandleFunc |
| `Routing.BaseHandler` | handlers.go:21-42 | the handler is the route's logging closure, wrapped by the JWT middleware exactly when the route is authorized |
| `Routing.BaseHandlerGuards` | router.go:15-27 | an authorized route's handler answers 401 with content type "application/json; charset=UTF-8" exactly when the token does not verify under the shared secret; otherwise the route's handler runs |
| `Routing.AuthErrorResponse` | router.go:19-22 | the authorization error response has status 401 and content type "application/json; charset=UTF-8" |
| `Routing.ValidationKey` | router.go:16-18 | the key getter returns the shared secret, whatever the token |
| `Routing.Registered` | router.go:32-42 | an HttpHandlerFunc gives the BaseHandler wrapper, and wins over a RouterHandleFunc; a RouterHandleFunc alone is registered directly; neither gives no registration; method and pattern pass unchanged |
| `Routing.Origins` | router.go:31-44 | registrations come from routes at strictly increasing positions: at most one per route, so no more than there are routes; every route with a handler registers |
| `Routing.Registrations` | router.go:31-44 | the router registers at most one handler per route |
| `Routing.Router` | router.go:29-46 | the loop registers exactly Registrations(routes) |
| `Routing.TableRegistration` | routes.go:20-29 | the table yields one registration: GET "/" through BaseHandler behind the JWT middleware |
| `Routing.TableGuardsUpgrade` | routes.go:27 | the upgrade route refuses a request whose token does not verify, and otherwise reaches the websocket handler |
| `Server.BuildListenAddr` | main.go:31-38 | every address starts with "0.0.0.0:"; an empty port gives exactly "0.0.0.0:8080"; a non-empty port is used verbatim |
| `Server.ShouldServeTLS` | main.go:51-59 | true exactly when both stats succeed; the key is stat'ed only after the certificate's stat succeeds |
| `Server.ShouldConsumeSqsQueue` | main.go:47-49 | true exactly when the configuration names a default queue |
| `Server.ConsumeSqsQueue` | main.go:40-49 | SqsQueueHandler is subscribed to the default queue exactly when shouldConsumeSqsQueue holds |
| `Server.Start` | main.go:13-29 | main registers the table's routes, consumes the queue as configured, and uses the TLS listener exactly when shouldServeTLS holds, else the plain listener |

## Findings

| source | as written | input that shows it | evidently intended | confidence | as-written member | corrected member |
|---|---|---|---|---|---|---|
| handlers.go:186-197 | `range sockets` keeps indexing the backing array while a failed `send` calls `unlink`, which shifts that array left | registry [1, 2, 3], send to 1 fails, sends to the others succeed: 2 gets nothing, 3 gets the message twice | every connection registered when the message arrives gets exactly one send attempt | not executed | `Broadcast.FanOutSkipsAfterFailure` | `Broadcast.BroadcastSnapshot` |

`Broadcast.SqsQueueHandler` models the loop as written, over the live array, and
`Broadcast.FanOutSkipsAfterFailure` exhibits the skipped and doubled recipient.
`Broadcast.BroadcastSnapshot` marshals once and iterates over a copy of the
registry. `Broadcast.SnapshotOncePerEntry` proves the intended property of it:
each distinct registered connection gets exactly one send attempt, and receives
the message exactly when its own send succeeds. The as-written loop fails this
on the input above. `Broadcast.SnapshotPartialFailure` proves its
partial-failure counts. Nothing else in the model calls a broadcast.

## Left out

- Goroutines (`go ping`, `push`'s goroutine, the goroutine in SqsQueueHandler) and the unsynchronised access to `sockets`. Each path runs here as a sequential step, so interleavings and the data race are not modelled.
- `time.Sleep` between pings, and the request timing that BaseHandler logs: the model has no clock.
- Logging, everywhere.
- The SQS client of `push` (`sqs.New`, `SendMessage`, and the log line on a failed send): each push is a `Publish` entry in the returned log.
- `json.Marshal`: the `marshal` function parameter, returning bytes or None.
- The framing internals of golang.org/x/net/websocket (byte-level framing, masking, and whatever the library does with a Close frame below NewFrameReader). Reads and writes are oracle outcomes plus an opcode; a frame that is read reaches readFrame's if-chain with its opcode, so a Close frame is one more opcode it ignores, and a read the library fails is a read failure.
- JWT/HS256 verification and missing-token handling inside the middleware: the `verifies` parameter.
- httprouter's dispatch, including its panic on a duplicate (method, pattern).
- `os.Getenv`, `os.Stat` and `awsconf.GetConfig`: parameters. Both GetConfig calls in main are assumed to return the same configuration.
- `ListenAndServe[TLS]` socket I/O: the model only records which listener main starts.
- Registry.Sockets.Link: grows a full backing array to 2n+1 cells, not Go's growth policy. Only the spare capacity differs; the registry contents are exact.
- Lifecycle.WebsocketHandler, Lifecycle.Ping: the Go loops end only on a failure. Given a script that runs out first, the model returns with `stopped` false, meaning the loop is still running.
- Reassembly of fragmented messages: the source only logs continuation frames, and so does the model.
