/**
  The shared grid actor: a fixed WIDTH x HEIGHT grid of strings kept in a
  lazily created table keyed by (x, y), a process-local schema flag, and the
  websocket subscribers that every committed change is pushed to.
 */
module Durable {

  const WIDTH: int := 20
  const HEIGHT: int := 20

  /** A JavaScript number as `Number.isInteger` sees it: an integral value,
      or anything it rejects (a fraction, NaN, an infinity). */
  datatype Num = Int(i: int) | NonInt

  datatype Option<T> = None | Some(value: T)

  /** The two ways the coordinate check throws, and the throw of a cursor's
      `one()` when the query does not return exactly one row. */
  datatype Error = NotIntegers | OutOfBounds(x: int, y: int) | NotExactlyOneRow

  datatype Result<T> = Ok(value: T) | Err(error: Error)

  /** The primary key of the table. */
  type Key = (int, int)

  /** Server-to-subscriber push messages (the JSON frames, without their text form). */
  datatype Msg =
    | Snapshot(grid: seq<seq<string>>)
    | CellMsg(x: int, y: int, value: string)
    | ClearMsg

  /** One registered websocket: whether a send to it still succeeds, and what it has been sent. */
  datatype Subscriber = Subscriber(healthy: bool, outbox: seq<Msg>)

  /** The parts of an HTTP request the handshake looks at: the URL path and the Upgrade header. */
  datatype Request = Request(path: string, upgrade: Option<string>)

  datatype Response = NotFound | UpgradeRequired | SwitchingProtocols

  function StatusCode(r: Response): (code: int) {
    match r
    case NotFound => 404
    case UpgradeRequired => 426
    case SwitchingProtocols => 101
  }

  predicate InBounds(x: int, y: int) {
    0 <= x < WIDTH && 0 <= y < HEIGHT
  }

  predicate EndsWith(s: string, suffix: string) {
    |suffix| <= |s| && s[|s| - |suffix|..] == suffix
  }

  /** The coordinate check: non-integers first, then the range, never clamped. */
  function AssertInBounds(x: Num, y: Num): (r: Result<Key>)
    ensures r.Ok? <==> x.Int? && y.Int? && InBounds(x.i, y.i)
    ensures r.Ok? ==> r.value == (x.i, y.i)
    ensures r == Err(NotIntegers) <==> !(x.Int? && y.Int?)
    ensures x.Int? && y.Int? && !InBounds(x.i, y.i) ==> r == Err(OutOfBounds(x.i, y.i))
  {
    if !x.Int? || !y.Int? then Err(NotIntegers)
    else if x.i < 0 || x.i >= WIDTH || y.i < 0 || y.i >= HEIGHT then Err(OutOfBounds(x.i, y.i))
    else Ok((x.i, y.i))
  }

  /** The value a read presents for (x, y): the stored one, or "" when there is no row. */
  function Lookup(rows: map<Key, string>, x: int, y: int): (r: string) {
    if (x, y) in rows then rows[(x, y)] else ""
  }

  /** The dense grid the table stands for: HEIGHT rows of WIDTH entries, indexed [y][x]. */
  function GridOf(rows: map<Key, string>): (r: seq<seq<string>>) {
    seq(HEIGHT, y => seq(WIDTH, x => Lookup(rows, x, y)))
  }

  function Blank(): (r: seq<seq<string>>) {
    seq(HEIGHT, _ => seq(WIDTH, _ => ""))
  }

  /** The stored rows that fall inside the grid. */
  function InBoundsRows(rows: map<Key, string>): (r: map<Key, string>) {
    map k | k in rows && InBounds(k.0, k.1) :: rows[k]
  }

  /** The value of a filled matrix, as it is serialised into a snapshot. */
  function Matrix(a: array2<string>): (r: seq<seq<string>>)
    reads a
  {
    seq(a.Length0, y requires 0 <= y < a.Length0 reads a =>
      seq(a.Length1, x requires 0 <= x < a.Length1 reads a => a[y, x]))
  }

  lemma GridShape(rows: map<Key, string>, x: int, y: int)
    requires InBounds(x, y)
    ensures |GridOf(rows)| == HEIGHT && |GridOf(rows)[y]| == WIDTH
    ensures GridOf(rows)[y][x] == Lookup(rows, x, y)
  {
  }

  /** Rows outside the bounds never show in the grid. */
  lemma GridOfIgnoresOutOfBounds(rows: map<Key, string>)
    ensures GridOf(rows) == GridOf(InBoundsRows(rows))
  {
    var a, b := GridOf(rows), GridOf(InBoundsRows(rows));
    forall y | 0 <= y < HEIGHT ensures a[y] == b[y] {
      forall x | 0 <= x < WIDTH ensures a[y][x] == b[y][x] {
        assert (x, y) in rows <==> (x, y) in InBoundsRows(rows);
      }
    }
  }

  /** Upserting an in-bounds cell changes exactly that entry of the grid. */
  lemma GridOfUpsert(rows: map<Key, string>, x: int, y: int, v: string)
    requires InBounds(x, y)
    ensures GridOf(rows[(x, y) := v]) == GridOf(rows)[y := GridOf(rows)[y][x := v]]
  {
    var a, b := GridOf(rows[(x, y) := v]), GridOf(rows)[y := GridOf(rows)[y][x := v]];
    forall j | 0 <= j < HEIGHT ensures a[j] == b[j] {
      forall i | 0 <= i < WIDTH ensures a[j][i] == b[j][i] {
        if (i, j) != (x, y) {
          assert Lookup(rows[(x, y) := v], i, j) == Lookup(rows, i, j);
        }
      }
    }
  }

  /** An empty table reads as an all-"" grid. */
  lemma GridOfEmpty()
    ensures GridOf(map[]) == Blank()
    ensures forall y, x :: 0 <= y < HEIGHT && 0 <= x < WIDTH ==> Blank()[y][x] == ""
  {
    var a, b := GridOf(map[]), Blank();
    forall y | 0 <= y < HEIGHT ensures a[y] == b[y] {
      assert forall x :: 0 <= x < WIDTH ==> a[y][x] == "" == b[y][x];
    }
  }

  /** setCell(0, 0, "a") and setCell(19, 19, "b") on an empty table: the two
      corners hold the values and every other entry is "". */
  lemma CornersScenario()
    ensures var g := GridOf(map[(0, 0) := "a"][(19, 19) := "b"]);
      g[0][0] == "a" && g[19][19] == "b" &&
      forall y, x :: 0 <= y < HEIGHT && 0 <= x < WIDTH && (x, y) != (0, 0) && (x, y) != (19, 19) ==> g[y][x] == ""
  {
  }

  /** One successful setCell, as a value. */
  datatype Write = Write(x: int, y: int, value: string)

  /** The table after a series of successful writes, applied in order. */
  function Replay(rows: map<Key, string>, ws: seq<Write>): (r: map<Key, string>)
    decreases |ws|
  {
    if ws == [] then rows
    else
      var last := ws[|ws| - 1];
      Replay(rows, ws[..|ws| - 1])[(last.x, last.y) := last.value]
  }

  /** The value of the most recent write to (x, y), if any. */
  function MostRecent(ws: seq<Write>, x: int, y: int): (r: Option<string>)
    decreases |ws|
  {
    if ws == [] then None
    else if ws[|ws| - 1].x == x && ws[|ws| - 1].y == y then Some(ws[|ws| - 1].value)
    else MostRecent(ws[..|ws| - 1], x, y)
  }

  /** A table that holds exactly the most recent writes, starting from empty. */
  lemma {:induction false} ReplayHoldsMostRecent(ws: seq<Write>, x: int, y: int)
    ensures (x, y) in Replay(map[], ws) <==> MostRecent(ws, x, y).Some?
    ensures MostRecent(ws, x, y).Some? ==> Replay(map[], ws)[(x, y)] == MostRecent(ws, x, y).value
    decreases |ws|
  {
    if ws != [] {
      ReplayHoldsMostRecent(ws[..|ws| - 1], x, y);
    }
  }

  /** A snapshot taken after a series of writes on an empty table shows, at
      each cell, the most recent value written there, or "" if none was. */
  lemma SnapshotAfterWrites(ws: seq<Write>, x: int, y: int)
    requires InBounds(x, y)
    ensures GridOf(Replay(map[], ws))[y][x] == (match MostRecent(ws, x, y) case Some(v) => v case None => "")
  {
    ReplayHoldsMostRecent(ws, x, y);
  }

  /** The upgrade handshake's answer: 404 off the /ws path, 426 without the
      websocket Upgrade header, 101 otherwise. */
  function Handshake(req: Request): (r: Response)
    ensures r == NotFound <==> !EndsWith(req.path, "/ws")
    ensures r == UpgradeRequired <==> EndsWith(req.path, "/ws") && req.upgrade != Some("websocket")
    ensures r == SwitchingProtocols <==> EndsWith(req.path, "/ws") && req.upgrade == Some("websocket")
  {
    if !EndsWith(req.path, "/ws") then NotFound
    else if req.upgrade != Some("websocket") then UpgradeRequired
    else SwitchingProtocols
  }

  /** One send inside the broadcast loop: a failing socket throws, and the throw is swallowed. */
  function Send(s: Subscriber, m: Msg): (t: Subscriber) {
    if s.healthy then s.(outbox := s.outbox + [m]) else s
  }

  /** One message sent to every registered socket in turn. */
  function Deliver(subs: seq<Subscriber>, m: Msg): (r: seq<Subscriber>)
    ensures |r| == |subs|
    decreases |subs|
  {
    if subs == [] then [] else [Send(subs[0], m)] + Deliver(subs[1..], m)
  }

  /** Every healthy socket gets the message appended; a failing one is left
      as it was and nobody else is affected by it. */
  lemma {:induction false} DeliverReachesHealthy(subs: seq<Subscriber>, m: Msg)
    ensures |Deliver(subs, m)| == |subs|
    ensures forall i :: 0 <= i < |subs| ==>
      Deliver(subs, m)[i].healthy == subs[i].healthy &&
      Deliver(subs, m)[i].outbox == (if subs[i].healthy then subs[i].outbox + [m] else subs[i].outbox)
    decreases |subs|
  {
    if subs != [] {
      DeliverReachesHealthy(subs[1..], m);
      assert forall i :: 1 <= i < |subs| ==> Deliver(subs, m)[i] == Deliver(subs[1..], m)[i - 1];
    }
  }

  /** Delivery to one group of sockets is independent of delivery to another. */
  lemma {:induction false} DeliverAppend(a: seq<Subscriber>, b: seq<Subscriber>, m: Msg)
    ensures Deliver(a + b, m) == Deliver(a, m) + Deliver(b, m)
    decreases |a|
  {
    if a == [] {
      assert a + b == b;
    } else {
      assert (a + b)[0] == a[0];
      assert (a + b)[1..] == a[1..] + b;
      DeliverAppend(a[1..], b, m);
    }
  }

  /** One turn of the broadcast loop: socket i gets its send, the rest wait. */
  lemma BroadcastStep(s: seq<Subscriber>, i: nat, m: Msg)
    requires i < |s|
    ensures (Deliver(s[..i], m) + s[i..])[i := Send(s[i], m)] == Deliver(s[..i + 1], m) + s[i + 1..]
  {
    DeliverReachesHealthy(s[..i], m);
    assert s[..i + 1] == s[..i] + [s[i]];
    DeliverAppend(s[..i], [s[i]], m);
    assert Deliver([s[i]], m) == [Send(s[i], m)];
    var lhs := (Deliver(s[..i], m) + s[i..])[i := Send(s[i], m)];
    var rhs := Deliver(s[..i + 1], m) + s[i + 1..];
    assert |lhs| == |rhs|;
    forall k | 0 <= k < |lhs| ensures lhs[k] == rhs[k] {
    }
  }

  /** An outbox whose first message is a snapshot. */
  predicate SnapshotFirst(s: Subscriber) {
    |s.outbox| > 0 && s.outbox[0].Snapshot?
  }

  /** A broadcast only appends, so the snapshot stays each socket's first message. */
  lemma DeliverKeepsSnapshotFirst(subs: seq<Subscriber>, m: Msg)
    requires forall i :: 0 <= i < |subs| ==> SnapshotFirst(subs[i])
    ensures |Deliver(subs, m)| == |subs|
    ensures forall i :: 0 <= i < |subs| ==> SnapshotFirst(Deliver(subs, m)[i])
    ensures forall i :: 0 <= i < |subs| ==> subs[i].outbox <= Deliver(subs, m)[i].outbox
  {
    DeliverReachesHealthy(subs, m);
  }

  /** The matrix getGrid builds: all "", then every in-bounds row, taken from
      the table's cursor one at a time in whatever order it yields them. */
  method Materialize(rows: map<Key, string>) returns (grid: array2<string>)
    ensures fresh(grid)
    ensures grid.Length0 == HEIGHT && grid.Length1 == WIDTH
    ensures forall y, x :: 0 <= y < HEIGHT && 0 <= x < WIDTH ==> grid[y, x] == Lookup(rows, x, y)
    ensures Matrix(grid) == GridOf(rows)
  {
    grid := new string[HEIGHT, WIDTH]((_, _) => "");
    var pending := rows.Keys;
    while pending != {}
      invariant pending <= rows.Keys
      invariant forall y, x :: 0 <= y < HEIGHT && 0 <= x < WIDTH ==>
        grid[y, x] == (if (x, y) in rows && (x, y) !in pending then rows[(x, y)] else "")
      decreases pending
    {
      var k :| k in pending;
      pending := pending - {k};
      if 0 <= k.0 < WIDTH && 0 <= k.1 < HEIGHT {
        grid[k.1, k.0] := rows[k];
      }
    }
    var a, b := Matrix(grid), GridOf(rows);
    forall y | 0 <= y < HEIGHT ensures a[y] == b[y] {
      assert forall x :: 0 <= x < WIDTH ==> a[y][x] == grid[y, x] == b[y][x];
    }
  }

  class GridStorage {
    /** Whether this in-memory lifetime has run the schema statement. */
    var initialized: bool
    /** Whether the durable table exists. */
    var tableExists: bool
    /** The durable table's rows. */
    var rows: map<Key, string>
    /** The registered websockets, in registration order. */
    var subscribers: seq<Subscriber>

    ghost predicate StoreValid()
      reads this
    {
      (initialized ==> tableExists) && (!tableExists ==> rows == map[])
    }

    ghost predicate Valid()
      reads this
    {
      StoreValid() && forall i :: 0 <= i < |subscribers| ==> SnapshotFirst(subscribers[i])
    }

    /** A cold start over whatever the platform kept: the durable table
        (`None` when it was never created) and the hibernated websockets
        accepted by an earlier lifetime. Only the flag starts afresh. A socket
        is only ever accepted by a handshake, which creates the table and sends
        the socket its snapshot, hence the two requirements. */
    constructor (durable: Option<map<Key, string>>, sockets: seq<Subscriber>)
      requires durable.None? ==> sockets == []
      requires forall i :: 0 <= i < |sockets| ==> SnapshotFirst(sockets[i])
      ensures Valid()
      ensures !initialized && subscribers == sockets
      ensures tableExists == durable.Some?
      ensures rows == (if durable.Some? then durable.value else map[])
    {
      initialized := false;
      tableExists := durable.Some?;
      rows := if durable.Some? then durable.value else map[];
      subscribers := sockets;
    }

    /** Creates the table if it is absent, once per lifetime; afterwards a no-op. */
    method EnsureSchema()
      requires StoreValid()
      modifies this
      ensures StoreValid() && initialized && tableExists
      ensures rows == old(rows) && subscribers == old(subscribers)
      ensures old(initialized) ==> unchanged(this)
    {
      if initialized {
        return;
      }
      // CREATE TABLE IF NOT EXISTS: an existing table keeps its rows.
      tableExists := true;
      initialized := true;
    }

    /** Sends one message to every registered socket, ignoring failed sends. */
    method Broadcast(m: Msg)
      modifies this
      ensures subscribers == Deliver(old(subscribers), m)
      ensures rows == old(rows) && initialized == old(initialized) && tableExists == old(tableExists)
    {
      var sockets := subscribers;
      var i := 0;
      while i < |sockets|
        invariant 0 <= i <= |sockets|
        invariant subscribers == Deliver(sockets[..i], m) + sockets[i..]
        invariant rows == old(rows) && initialized == old(initialized) && tableExists == old(tableExists)
      {
        BroadcastStep(sockets, i, m);
        subscribers := subscribers[i := Send(sockets[i], m)];
        i := i + 1;
      }
      assert sockets[..i] == sockets;
    }

    /** Upserts one cell and then broadcasts it; bad coordinates are rejected
        after the schema step and before any storage access. */
    method SetCell(x: Num, y: Num, value: string) returns (r: Result<()>)
      requires Valid()
      modifies this
      ensures Valid() && initialized
      ensures r.Ok? <==> AssertInBounds(x, y).Ok?
      ensures r.Err? ==> r.error == AssertInBounds(x, y).error
      ensures r.Err? ==> rows == old(rows) && subscribers == old(subscribers)
      ensures r.Ok? ==> rows == old(rows)[(x.i, y.i) := value]
      ensures r.Ok? ==> subscribers == Deliver(old(subscribers), CellMsg(x.i, y.i, value))
    {
      EnsureSchema();
      var check := AssertInBounds(x, y);
      if check.Err? {
        return Err(check.error);
      }
      rows := rows[check.value := value];
      DeliverKeepsSnapshotFirst(subscribers, CellMsg(x.i, y.i, value));
      Broadcast(CellMsg(x.i, y.i, value));
      r := Ok(());
    }

    /** The stored value at a coordinate, `None` when no row exists. */
    method GetCell(x: Num, y: Num) returns (r: Result<Option<string>>)
      requires Valid()
      modifies this
      ensures Valid() && initialized
      ensures rows == old(rows) && subscribers == old(subscribers)
      ensures r.Ok? <==> AssertInBounds(x, y).Ok?
      ensures r.Err? ==> r.error == AssertInBounds(x, y).error
      ensures r.Ok? && (x.i, y.i) in rows ==> r.value == Some(rows[(x.i, y.i)])
      ensures r.Ok? && (x.i, y.i) !in rows ==> r.value == None
    {
      EnsureSchema();
      var check := AssertInBounds(x, y);
      if check.Err? {
        return Err(check.error);
      }
      if check.value in rows {
        r := Ok(Some(rows[check.value]));
      } else {
        r := Ok(None);
      }
    }

    /** getCell as the code reads with the platform's cursor: `one()` throws
        unless exactly one row matches, so an unset in-bounds cell is an error
        and the `null` branch is never reached. */
    method GetCellAsWritten(x: Num, y: Num) returns (r: Result<string>)
      requires Valid()
      modifies this
      ensures Valid() && initialized
      ensures rows == old(rows) && subscribers == old(subscribers)
      ensures AssertInBounds(x, y).Err? ==> r == Err(AssertInBounds(x, y).error)
      ensures AssertInBounds(x, y).Ok? && (x.i, y.i) in rows ==> r == Ok(rows[(x.i, y.i)])
      ensures AssertInBounds(x, y).Ok? && (x.i, y.i) !in rows ==> r == Err(NotExactlyOneRow)
    {
      EnsureSchema();
      var check := AssertInBounds(x, y);
      if check.Err? {
        return Err(check.error);
      }
      // The primary key allows at most one matching row.
      if check.value in rows {
        r := Ok(rows[check.value]);
      } else {
        r := Err(NotExactlyOneRow);
      }
    }

    /** The whole grid, HEIGHT rows of WIDTH columns, "" where nothing is stored. */
    method GetGrid() returns (grid: array2<string>)
      requires StoreValid()
      modifies this
      ensures StoreValid() && initialized
      ensures rows == old(rows) && subscribers == old(subscribers)
      ensures fresh(grid)
      ensures grid.Length0 == HEIGHT && grid.Length1 == WIDTH
      ensures Matrix(grid) == GridOf(rows)
    {
      EnsureSchema();
      grid := Materialize(rows);
    }

    /** Deletes every row and then broadcasts the reset. */
    method Clear()
      requires Valid()
      modifies this
      ensures Valid() && initialized
      ensures rows == map[]
      ensures subscribers == Deliver(old(subscribers), ClearMsg)
    {
      EnsureSchema();
      rows := map[];
      DeliverKeepsSnapshotFirst(subscribers, ClearMsg);
      Broadcast(ClearMsg);
    }

    /** The upgrade handshake. On success the new socket is registered and a
        snapshot of the current grid is the first thing sent to it. */
    method Fetch(req: Request) returns (resp: Response)
      requires Valid()
      modifies this
      ensures Valid()
      ensures resp == Handshake(req)
      ensures resp != SwitchingProtocols ==> unchanged(this)
      ensures resp == SwitchingProtocols ==> initialized && rows == old(rows)
      ensures resp == SwitchingProtocols ==>
        subscribers == old(subscribers) + [Subscriber(true, [Snapshot(GridOf(old(rows)))])]
    {
      if !EndsWith(req.path, "/ws") {
        return NotFound;
      }
      if req.upgrade != Some("websocket") {
        return UpgradeRequired;
      }
      // acceptWebSocket: the server end joins the registry before anything is sent.
      subscribers := subscribers + [Subscriber(true, [])];
      var grid := GetGrid();
      var n := |subscribers| - 1;
      subscribers := subscribers[n := Subscriber(true, [Snapshot(Matrix(grid))])];
      resp := SwitchingProtocols;
    }

    /** The transport reports that socket `i` has gone: from now on sends to it fail. */
    method SocketClosed(i: nat)
      requires Valid() && i < |subscribers|
      modifies this
      ensures Valid()
      ensures subscribers == old(subscribers)[i := old(subscribers)[i].(healthy := false)]
      ensures rows == old(rows) && initialized == old(initialized) && tableExists == old(tableExists)
    {
      subscribers := subscribers[i := subscribers[i].(healthy := false)];
    }
  }

  /** A read after a successful write sees the written value, and every other
      cell reads as before. */
  method SetThenGet(g: GridStorage, x: int, y: int, v: string) returns (got: Result<Option<string>>)
    requires g.Valid() && InBounds(x, y)
    modifies g
    ensures got == Ok(Some(v))
    ensures forall j, i :: 0 <= j < HEIGHT && 0 <= i < WIDTH && (i, j) != (x, y) ==>
      GridOf(g.rows)[j][i] == GridOf(old(g.rows))[j][i]
  {
    var r := g.SetCell(Int(x), Int(y), v);
    got := g.GetCell(Int(x), Int(y));
  }

  /** After a clear every in-bounds cell reads as absent and the grid is all "". */
  method ClearThenRead(g: GridStorage, x: int, y: int) returns (got: Result<Option<string>>, grid: array2<string>)
    requires g.Valid() && InBounds(x, y)
    modifies g
    ensures got == Ok(None)
    ensures Matrix(grid) == Blank()
  {
    g.Clear();
    got := g.GetCell(Int(x), Int(y));
    grid := g.GetGrid();
    GridOfEmpty();
  }

  /** A socket that connects to a fresh grid and then sees setCell(5, 5, "x")
      holds a blank snapshot followed by that cell change. */
  method ConnectThenSet() returns (outbox: seq<Msg>)
    ensures outbox == [Snapshot(Blank()), CellMsg(5, 5, "x")]
  {
    var g := new GridStorage(None, []);
    var resp := g.Fetch(Request("/api/grid/ws", Some("websocket")));
    assert EndsWith("/api/grid/ws", "/ws") by {
      assert "/api/grid/ws"[9..] == "/ws";
    }
    var r := g.SetCell(Int(5), Int(5), "x");
    GridOfEmpty();
    outbox := g.subscribers[0].outbox;
  }

  /** On a fresh grid, reading cell (0, 0) throws as the code is written,
      where the documented behaviour is an absent value. */
  method UnsetCellDiscrepancy() returns (asWritten: Result<string>, intended: Result<Option<string>>)
    ensures asWritten == Err(NotExactlyOneRow)
    ensures intended == Ok(None)
  {
    var g := new GridStorage(None, []);
    asWritten := g.GetCellAsWritten(Int(0), Int(0));
    var h := new GridStorage(None, []);
    intended := h.GetCell(Int(0), Int(0));
  }

  /** A series of in-bounds setCell calls followed by a connection: the table
      is the writes replayed in order, and the new socket's only message is a
      snapshot of that table, showing the latest value written to each cell. */
  method WritesThenConnect(g: GridStorage, ws: seq<Write>) returns (resp: Response)
    requires g.Valid()
    requires forall k :: 0 <= k < |ws| ==> InBounds(ws[k].x, ws[k].y)
    modifies g
    ensures g.Valid()
    ensures resp == SwitchingProtocols
    ensures g.rows == Replay(old(g.rows), ws)
    ensures |g.subscribers| > 0
    ensures g.subscribers[|g.subscribers| - 1].outbox == [Snapshot(GridOf(Replay(old(g.rows), ws)))]
    ensures old(g.rows) == map[] ==> forall y, x :: 0 <= y < HEIGHT && 0 <= x < WIDTH ==>
      GridOf(g.rows)[y][x] == (match MostRecent(ws, x, y) case Some(v) => v case None => "")
  {
    var i := 0;
    while i < |ws|
      invariant 0 <= i <= |ws|
      invariant g.Valid()
      invariant g.rows == Replay(old(g.rows), ws[..i])
    {
      assert ws[..i + 1][..i] == ws[..i];
      var r := g.SetCell(Int(ws[i].x), Int(ws[i].y), ws[i].value);
      i := i + 1;
    }
    assert ws[..i] == ws;
    assert EndsWith("/api/grid/ws", "/ws") by {
      assert "/api/grid/ws"[9..] == "/ws";
    }
    resp := g.Fetch(Request("/api/grid/ws", Some("websocket")));
    if old(g.rows) == map[] {
      forall y, x | 0 <= y < HEIGHT && 0 <= x < WIDTH
        ensures GridOf(g.rows)[y][x] == (match MostRecent(ws, x, y) case Some(v) => v case None => "")
      {
        SnapshotAfterWrites(ws, x, y);
      }
    }
  }

  /** setCell(0, 0, "a"), setCell(19, 19, "b") and getGrid() on a fresh actor. */
  method CornersThroughActor() returns (grid: array2<string>)
    ensures Matrix(grid) == GridOf(map[(0, 0) := "a"][(19, 19) := "b"])
  {
    var g := new GridStorage(None, []);
    var r1 := g.SetCell(Int(0), Int(0), "a");
    var r2 := g.SetCell(Int(19), Int(19), "b");
    grid := g.GetGrid();
  }

  /** Two sockets connect, the first one fails, and a cell changes: the
      second socket still gets the change. */
  method FailedSocketScenario() returns (first: seq<Msg>, second: seq<Msg>)
    ensures first == [Snapshot(Blank())]
    ensures second == [Snapshot(Blank()), CellMsg(1, 2, "q")]
  {
    var g := new GridStorage(None, []);
    assert EndsWith("/api/grid/ws", "/ws") by {
      assert "/api/grid/ws"[9..] == "/ws";
    }
    var resp1 := g.Fetch(Request("/api/grid/ws", Some("websocket")));
    var resp2 := g.Fetch(Request("/api/grid/ws", Some("websocket")));
    g.SocketClosed(0);
    var before := g.subscribers;
    var r := g.SetCell(Int(1), Int(2), "q");
    DeliverReachesHealthy(before, CellMsg(1, 2, "q"));
    GridOfEmpty();
    first := g.subscribers[0].outbox;
    second := g.subscribers[1].outbox;
  }

  /** A write outside the grid is rejected and leaves the table as it was. */
  method RejectOutOfRange(g: GridStorage) returns (r: Result<()>)
    requires g.Valid()
    modifies g
    ensures r == Err(OutOfBounds(20, 0))
    ensures g.rows == old(g.rows)
  {
    r := g.SetCell(Int(20), Int(0), "x");
  }
}
