# Shared grid actor, modelled in Dafny

This project models the `GridStorage` actor. The actor owns a fixed 20×20
grid of strings. The grid is stored in a lazily created table keyed by
(x, y), and every committed change is pushed to the registered websockets. The
project also models the websocket route in front of the actor, which checks
the `Upgrade` header and normalises the path.

- `grid_storage.dfy`, module `Durable`: the actor is the class
  `GridStorage`. Its fields are the process-local schema flag
  (`initialized`), the durable table (`tableExists`, and `rows`, a map from
  (x, y) to string), and the registered sockets (`subscribers`). Each socket
  is a record with a `healthy` flag and an outbox of push messages
  (`Snapshot`, `CellMsg`, `ClearMsg`). Pure specification functions sit beside
  the class. `GridOf` is the dense grid a table stands for. `Deliver` is one
  broadcast over a list of sockets. `Handshake` is the upgrade decision.
  The class invariant `Valid()` includes "each socket's first message is a
  snapshot", and every operation preserves it.
- `ws_route.dfy`, module `WsRoute`: the GET handler, as functions. The
  `/\/?$/` replace is modelled as a regular-expression search for the
  leftmost match, taking the longer alternative there (`FirstMatchFrom`).
  It is proved equal to "turn one trailing slash into `/ws`, or append `/ws`".
  The lemma `ForwardedIsAccepted` ties the route to the actor: a forwarded
  request always passes the actor's `endsWith('/ws')` check.

A JavaScript number is `Num = Int(i) | NonInt`. `NonInt` stands for every
value `Number.isInteger` rejects. Errors are values (`Result`, `Error`), not
exceptions. Sockets are sequence entries that the methods reassign, not
platform objects.

## Model

| member | source | states |
|---|---|---|
| `Durable.AssertInBounds` | src/lib/durable/grid-storage.ts:24-35 | Accepts exactly the integer pairs in [0,20)×[0,20) and yields them unchanged. Rejects a non-integer coordinate with `NotIntegers` (checked first), and any other out-of-range pair with `OutOfBounds(x, y)`. |
| `Durable.GridShape` | src/lib/durable/grid-storage.ts:63-69 | The grid has HEIGHT rows of WIDTH entries. Entry [y][x] is the stored value, or "" when there is no row. |
| `Durable.GridOfIgnoresOutOfBounds` | src/lib/durable/grid-storage.ts:83-85 | Rows stored outside the bounds have no effect on the grid. |
| `Durable.GridOfUpsert` | src/lib/durable/grid-storage.ts:43-48 | Upserting an in-bounds cell changes exactly entry [y][x] of the grid, to the new value. |
| `Durable.GridOfEmpty` | src/lib/durable/grid-storage.ts:91-96 | An empty table reads as the all-"" grid. |
| `Durable.CornersScenario` | src/lib/durable/grid-storage.ts:63-89 | After writing "a" at (0,0) and "b" at (19,19), those two entries hold the values and every other entry is "". |
| `Durable.CornersThroughActor` | src/lib/durable/grid-storage.ts:37-89 | On a fresh actor, `setCell(0,0,"a")`, `setCell(19,19,"b")` and `getGrid()` give the grid of exactly those two rows: "a" at [0][0], "b" at [19][19], "" elsewhere. |
| `Durable.ReplayHoldsMostRecent` | src/lib/durable/grid-storage.ts:43-48 | After a series of upserts on an empty table, (x, y) has a row exactly when some write targeted it, and the row holds the most recent such value. |
| `Durable.SnapshotAfterWrites` | src/lib/durable/grid-storage.ts:114-116 | A snapshot taken after a series of writes shows, at each cell, the latest value written there, or "" if none was. |
| `Durable.Handshake` | src/lib/durable/grid-storage.ts:99-105 | 404 exactly when the path does not end in `/ws`. 426 exactly when it does but the Upgrade header is not `websocket` (a missing header included). 101 exactly when both hold. |
| `Durable.Deliver` | src/lib/durable/grid-storage.ts:129-135 | A broadcast keeps the socket list's length. |
| `Durable.DeliverReachesHealthy` | src/lib/durable/grid-storage.ts:129-135 | Every healthy socket gets the message appended to its outbox. A failing socket keeps its outbox. No socket's health changes. |
| `Durable.DeliverAppend` | src/lib/durable/grid-storage.ts:129-135 | Delivery to one group of sockets does not depend on another group, so one failure cannot stop delivery to the rest. |
| `Durable.DeliverKeepsSnapshotFirst` | src/lib/durable/grid-storage.ts:114-116 | A broadcast only extends outboxes. A socket whose first message was its snapshot keeps it first. |
| `Durable.Materialize` | src/lib/durable/grid-storage.ts:66-88 | The matrix is newly allocated. It has HEIGHT×WIDTH entries. Entry [y][x] is the stored value or "", whatever order the rows arrive in. The result equals `GridOf(rows)`. |
| `Durable.GridStorage.constructor` | src/lib/durable/grid-storage.ts:7-11 | A cold start: the flag is clear, the durable table is whatever storage held, and the registry holds the hibernated sockets of earlier lifetimes. Such sockets exist only if the table does, and each one's first message is its snapshot. |
| `Durable.GridStorage.EnsureSchema` | src/lib/durable/grid-storage.ts:13-21 | Afterwards the flag is set and the table exists, with its rows unchanged. When the flag was already set, nothing changes (idempotence). |
| `Durable.GridStorage.Broadcast` | src/lib/durable/grid-storage.ts:120-136 | The socket list becomes `Deliver(old list, m)`. The table and the flag do not change. |
| `Durable.GridStorage.SetCell` | src/lib/durable/grid-storage.ts:37-50 | After the schema step: bad coordinates return the check's error, leave the table and sockets unchanged and broadcast nothing. Otherwise the table becomes the old table upserted at (x, y), then `CellMsg(x, y, value)` goes to every healthy socket. |
| `Durable.GridStorage.GetCell` | src/lib/durable/grid-storage.ts:52-61 | The intended read. Returns the check's error for bad coordinates. Otherwise returns the stored string, or `None` (not an error) when no row exists. Never changes the table or the sockets. |
| `Durable.GridStorage.GetCellAsWritten` | src/lib/durable/grid-storage.ts:56-60 | The read as the code is written, given that the cursor's `one()` throws unless exactly one row matches. A stored cell gives its value. An unset in-bounds cell gives the error `NotExactlyOneRow`, not null. |
| `Durable.UnsetCellDiscrepancy` | src/lib/durable/grid-storage.ts:56-59 | On a fresh grid, reading (0, 0) gives `Err(NotExactlyOneRow)` as written, and `Ok(None)` as intended. |
| `Durable.GridStorage.GetGrid` | src/lib/durable/grid-storage.ts:63-89 | Returns a newly allocated HEIGHT×WIDTH matrix equal to `GridOf(rows)`. Only the schema step changes state. |
| `Durable.GridStorage.Clear` | src/lib/durable/grid-storage.ts:91-96 | The table becomes empty, then `ClearMsg` goes to every healthy socket. |
| `Durable.GridStorage.Fetch` | src/lib/durable/grid-storage.ts:98-118 | The response is `Handshake(req)`. On 404 and 426 nothing changes: no socket, no schema step. On 101 exactly one healthy socket is added, and its only message is `Snapshot(GridOf(rows))`. |
| `Durable.GridStorage.SocketClosed` | src/lib/durable/grid-storage.ts:130-134 | The transport marks socket i as failing, so later sends to it throw. Nothing else changes. |
| `Durable.SetThenGet` | src/lib/durable/grid-storage.ts:38-61 | An in-bounds `setCell(x, y, v)` followed by `getCell(x, y)` returns v. Every other grid entry keeps its value. |
| `Durable.ClearThenRead` | src/lib/durable/grid-storage.ts:91-96 | After `clear()`, `getCell` returns absent for an in-bounds cell and `getGrid` is all "". |
| `Durable.ConnectThenSet` | src/lib/durable/grid-storage.ts:114-116 | A socket that connects to a fresh grid and then sees `setCell(5,5,"x")` holds exactly a blank snapshot followed by that cell message. |
| `Durable.WritesThenConnect` | src/lib/durable/grid-storage.ts:37-118 | After a series of in-bounds `setCell` calls, the table is the writes replayed in order. A socket that then connects holds exactly one snapshot of that table. Starting from an empty table, the snapshot shows the latest value written to each cell, or "". |
| `Durable.FailedSocketScenario` | src/lib/durable/grid-storage.ts:120-136 | With two sockets connected and the first one failed, `setCell(1,2,"q")` still reaches the second. The first keeps only its snapshot. |
| `Durable.RejectOutOfRange` | src/lib/durable/grid-storage.ts:28-34 | `setCell(20, 0, "x")` fails with `OutOfBounds(20, 0)` and leaves the table unchanged. |
| `WsRoute.FirstMatchFrom` | src/routes/api/grid/ws/+server.ts:18 | The match found is a real match of `/\/?$/`. No earlier position matches. At its position the slash is taken whenever it can be. |
| `WsRoute.ReplaceTrailingSlash` | src/routes/api/grid/ws/+server.ts:18 | A path ending in `/` has that one slash replaced by `/ws`. Any other path gets `/ws` appended. |
| `WsRoute.NormalisePath` | src/routes/api/grid/ws/+server.ts:16-18 | The result always ends in `/ws`. A path that already ends in `/ws` is returned unchanged. Any other path goes through the trailing-slash replace. |
| `WsRoute.NormaliseIdempotent` | src/routes/api/grid/ws/+server.ts:16-18 | Normalising twice gives the same path as normalising once. |
| `WsRoute.NormaliseExamples` | src/routes/api/grid/ws/+server.ts:17-18 | `/api/grid` and `/api/grid/` both become `/api/grid/ws`, and `/api/grid/ws` stays as it is. |
| `WsRoute.Get` | src/routes/api/grid/ws/+server.ts:7-19 | Answers 426 without forwarding exactly when the Upgrade header is not `websocket`. Otherwise it forwards the request with the same header and its path replaced by `NormalisePath(path)`, which ends in `/ws`. The request is left untouched when its path already ends in `/ws`; so `/api/grid` is forwarded as `/api/grid/ws`. |
| `WsRoute.ForwardedIsAccepted` | src/routes/api/grid/ws/+server.ts:16-19 | A forwarded request always passes the actor's handshake. A client of the route sees 101 or 426, never 404. |

## Left out

- Durable.GridStorage.GetCell: returns `None` for an unset cell, as the doc comment on line 52 (`or null if unset`) promises. As written, the code most likely throws there instead; that behaviour is `GetCellAsWritten` (see Findings).
- The platform runtime: the SQL text and `sql.exec` cursors. The table is a map. `.one()` appears only as the error `NotExactlyOneRow` in `GetCellAsWritten` (see Findings). The order in which the cursor yields rows is arbitrary in the model (a nondeterministic choice of the next key).
- Storage failures (`StorageError`): the model's table operations always succeed, so `clear` is trivially all-or-nothing.
- `WebSocketPair`, `acceptWebSocket`, hibernation and `serializeAttachment` (whose failure is ignored anyway). `getWebSockets` throwing makes `#broadcast` return early with nothing sent, which is the same as an empty registry. The model's registry is always readable.
- Socket closure: a closed socket stays in the list, marked not healthy, instead of disappearing from `getWebSockets`. Either way it receives nothing further. When a socket fails is outside the actor, so it is the separate method `SocketClosed`.
- The snapshot send in `fetch` is not wrapped in a `try`. The model sends it to the socket just accepted, which is healthy.
- JSON framing of messages: messages are an abstract datatype, and `Matrix` stands for the value that `JSON.stringify` serialises.
- The `typeof value !== 'string'` check in `setCell`, and the `typeof` checks on cursor rows in `getGrid` and `getCell`. These checks always pass because `setCell` is the only writer and it validates the coordinates and the value before the upsert. The declared column types alone would not guarantee this, since SQLite treats them only as affinities. A stored non-integer coordinate or non-string value cannot be represented.
- Concurrency and actor serialisation: the model runs one operation at a time.
- The client-to-server `set`/`clear` frames and the `error` frame described in the ws route's comment. The actor has no message handler, so nothing implements them.
- In the ws route: the `platform` check, the namespace/stub lookup, and the forwarding call itself. The rest of the URL (host, query) is not modelled, nor is any re-encoding by the `pathname` setter. A request is just its path and its `Upgrade` header.
- The thin HTTP routes for the grid, the cell and clear, the chat-platform client code, the schema declaration and the worker re-export.

## Findings

| source | as written | input that shows it | evidently intended | confidence | as-written member | corrected member |
|---|---|---|---|---|---|---|
| src/lib/durable/grid-storage.ts:56-59 | `getCell` reads with `.one()`, which the platform documents as throwing unless the query returns exactly one row, so the `if (!row ...) return null` branch cannot run | `getCell(0, 0)` on a fresh grid | an unset in-bounds cell reads as null, as the doc comment on line 52 says | medium: depends on the platform's documented `one()` behaviour; not executed | `Durable.GridStorage.GetCellAsWritten`, `Durable.UnsetCellDiscrepancy` | `Durable.GridStorage.GetCell` |
