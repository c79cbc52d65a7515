/**
 * The device registry as a value: the IMEI-to-record dictionary, the order in
 * which the dictionary enumerates its entries, and the next relay port. Each
 * function here is the new value after one server operation; the server class
 * is proved to follow them.
 */
module DeviceRegistry {
  import opened Wrappers
  import opened Devices
  import opened Protocol
  import Relay

  /** The first relay port handed out. */
  const BasePort: int := 6000

  /**
   * `order` lists the keys in the order the dictionary enumerates them,
   * taken to be the order of first insertion. That is how .NET's Dictionary
   * enumerates when no key is removed, but it is not a documented guarantee.
   */
  datatype Registry = Registry(devices: map<string, Record>, order: seq<string>, nextPort: int)

  /** The columns of a Devices row that loading reads. */
  datatype Row = Row(imei: string, port: int, sourceAddress: string, state: string)

  /** A reply written on a control connection. */
  datatype Send = Send(conn: ConnId, text: string)

  /** A database write, kept as an abstract log. Timestamps are the caller's clock readings. */
  datatype PersistEvent =
    | Insert(imei: string, port: int, sourceAddress: string, state: string, registeredAt: int, lastConnectedAt: int)
    | UpdateStateAndLastConnected(imei: string, state: string, sourceAddress: string, lastConnectedAt: int)
    | UpdateSourceAddress(imei: string, sourceAddress: string)
    | UpdateLastConnected(imei: string, lastConnectedAt: int)
    | UpdateState(imei: string, state: string)

  /** The registry of a freshly constructed server, before loading. */
  function Initial(): Registry
  {
    Registry(map[], [], BasePort)
  }

  /** Keys, order and stored IMEIs agree, and every port lies below the next one, which is at least the base. */
  ghost predicate WellFormed(reg: Registry)
  {
    (forall k :: k in reg.devices <==> k in reg.order) &&
    (forall i, j :: 0 <= i < j < |reg.order| ==> reg.order[i] != reg.order[j]) &&
    (forall k :: k in reg.devices ==> reg.devices[k].imei == k) &&
    (forall k :: k in reg.devices ==> reg.devices[k].port < reg.nextPort) &&
    reg.nextPort >= BasePort
  }

  /** No two IMEIs share a relay port. */
  ghost predicate PortsDistinct(reg: Registry)
  {
    forall k1, k2 :: k1 in reg.devices && k2 in reg.devices && k1 != k2 ==>
      reg.devices[k1].port != reg.devices[k2].port
  }

  ghost predicate Inv(reg: Registry)
  {
    WellFormed(reg) && PortsDistinct(reg)
  }

  // ---------------------------------------------------------------- loading

  /** The record built for a loaded row: Connected, no client, no listener; the row's State is not used. */
  function LoadedRecord(row: Row): Record
  {
    Record(row.imei, row.port, row.sourceAddress, None, Connected, false, false)
  }

  function Max(a: int, b: int): int
  {
    if a < b then b else a
  }

  /** Loading one row: store its record under its IMEI and move the next port past its port. */
  function LoadRow(reg: Registry, row: Row): (r: Registry)
    ensures r.devices.Keys == reg.devices.Keys + {row.imei}
    ensures forall k :: k in reg.devices && k != row.imei ==> r.devices[k] == reg.devices[k]
    ensures r.nextPort >= reg.nextPort && r.nextPort > row.port
  {
    Registry(
      reg.devices[row.imei := LoadedRecord(row)],
      if row.imei in reg.devices then reg.order else reg.order + [row.imei],
      Max(reg.nextPort, row.port + 1))
  }

  /** Loading rows in the order the query returns them. */
  function Load(reg: Registry, rows: seq<Row>): (r: Registry)
    ensures reg.devices.Keys <= r.devices.Keys
    ensures r.nextPort >= reg.nextPort
    decreases |rows|
  {
    if |rows| == 0 then reg else Load(LoadRow(reg, rows[0]), rows[1..])
  }

  /** The IMEIs of a run of rows. */
  ghost function Imeis(rows: seq<Row>): set<string>
  {
    set row | row in rows :: row.imei
  }

  /** Loading keeps every key, adds the rows' IMEIs and nothing else. */
  lemma {:induction false} LoadKeys(reg: Registry, rows: seq<Row>)
    ensures Load(reg, rows).devices.Keys == reg.devices.Keys + Imeis(rows)
    decreases |rows|
  {
    if |rows| > 0 {
      LoadKeys(LoadRow(reg, rows[0]), rows[1..]);
      assert rows == [rows[0]] + rows[1..];
      assert Imeis(rows) == {rows[0].imei} + Imeis(rows[1..]);
    }
  }

  /** Loading never lowers the next port and leaves it above every loaded port. */
  lemma {:induction false} LoadNextPort(reg: Registry, rows: seq<Row>)
    ensures Load(reg, rows).nextPort >= reg.nextPort
    ensures forall row :: row in rows ==> row.port < Load(reg, rows).nextPort
    decreases |rows|
  {
    if |rows| > 0 {
      LoadNextPort(LoadRow(reg, rows[0]), rows[1..]);
      assert forall row :: row in rows ==> row == rows[0] || row in rows[1..];
    }
  }

  /** A key no row names keeps its record. */
  lemma {:induction false} LoadUntouched(reg: Registry, rows: seq<Row>, k: string)
    requires k in reg.devices && k !in Imeis(rows)
    ensures k in Load(reg, rows).devices && Load(reg, rows).devices[k] == reg.devices[k]
    decreases |rows|
  {
    if |rows| > 0 {
      assert rows[0] in rows;
      assert Imeis(rows[1..]) <= Imeis(rows);
      LoadUntouched(LoadRow(reg, rows[0]), rows[1..], k);
    }
  }

  /** Rows with distinct IMEIs: each row's IMEI ends up holding the record built from that row. */
  lemma {:induction false} LoadRecords(reg: Registry, rows: seq<Row>)
    requires forall i, j :: 0 <= i < j < |rows| ==> rows[i].imei != rows[j].imei
    ensures forall row :: row in rows ==>
      row.imei in Load(reg, rows).devices && Load(reg, rows).devices[row.imei] == LoadedRecord(row)
    decreases |rows|
  {
    if |rows| > 0 {
      var next := LoadRow(reg, rows[0]);
      assert forall i, j :: 0 <= i < j < |rows[1..]| ==> rows[1..][i] == rows[i + 1] && rows[1..][j] == rows[j + 1];
      LoadRecords(next, rows[1..]);
      assert rows[0].imei !in Imeis(rows[1..]) by {
        forall row | row in rows[1..] ensures row.imei != rows[0].imei {
          var j :| 0 <= j < |rows[1..]| && rows[1..][j] == row;
          assert row == rows[j + 1];
        }
      }
      LoadUntouched(next, rows[1..], rows[0].imei);
      assert forall row :: row in rows ==> row == rows[0] || row in rows[1..];
    }
  }

  /** Loading keeps the registry well formed. */
  lemma {:induction false} LoadWellFormed(reg: Registry, rows: seq<Row>)
    requires WellFormed(reg)
    ensures WellFormed(Load(reg, rows))
    decreases |rows|
  {
    if |rows| > 0 {
      LoadRowWellFormed(reg, rows[0]);
      LoadWellFormed(LoadRow(reg, rows[0]), rows[1..]);
    }
  }

  lemma LoadRowWellFormed(reg: Registry, row: Row)
    requires WellFormed(reg)
    ensures WellFormed(LoadRow(reg, row))
  {
    var next := LoadRow(reg, row);
    forall i, j | 0 <= i < j < |next.order| ensures next.order[i] != next.order[j] {
      if row.imei !in reg.devices && j == |reg.order| {
        assert next.order[i] == reg.order[i];
      }
    }
  }

  /** Rows as the table holds them: one per IMEI (its primary key), and no port shared by two rows. */
  ghost predicate RowsDistinct(rows: seq<Row>)
  {
    forall i, j :: 0 <= i < j < |rows| ==> rows[i].imei != rows[j].imei && rows[i].port != rows[j].port
  }

  /** Loading rows with distinct IMEIs and ports, none already in use, keeps ports distinct. */
  lemma {:induction false} LoadPortsDistinct(reg: Registry, rows: seq<Row>)
    requires PortsDistinct(reg) && RowsDistinct(rows)
    requires forall j, k :: 0 <= j < |rows| && k in reg.devices ==> rows[j].port != reg.devices[k].port
    ensures PortsDistinct(Load(reg, rows))
    decreases |rows|
  {
    if |rows| > 0 {
      var next := LoadRow(reg, rows[0]);
      forall j, k | 0 <= j < |rows[1..]| && k in next.devices
        ensures rows[1..][j].port != next.devices[k].port
      {
        assert rows[1..][j] == rows[j + 1];
      }
      forall i, j | 0 <= i < j < |rows[1..]|
        ensures rows[1..][i].imei != rows[1..][j].imei && rows[1..][i].port != rows[1..][j].port
      {
        assert rows[1..][i] == rows[i + 1] && rows[1..][j] == rows[j + 1];
      }
      LoadPortsDistinct(next, rows[1..]);
    }
  }

  /** Every record after loading is either one that was there before or the record built from some row of its IMEI. */
  lemma {:induction false} LoadOrigin(reg: Registry, rows: seq<Row>, k: string)
    requires k in Load(reg, rows).devices
    ensures (k in reg.devices && Load(reg, rows).devices[k] == reg.devices[k]) ||
      exists row :: row in rows && row.imei == k && Load(reg, rows).devices[k] == LoadedRecord(row)
    decreases |rows|
  {
    if |rows| > 0 {
      var next := LoadRow(reg, rows[0]);
      LoadOrigin(next, rows[1..], k);
      if k == rows[0].imei && k in next.devices && Load(reg, rows).devices[k] == next.devices[k] {
        assert rows[0] in rows;
      } else if exists row :: row in rows[1..] && row.imei == k && Load(reg, rows).devices[k] == LoadedRecord(row) {
        var row :| row in rows[1..] && row.imei == k && Load(reg, rows).devices[k] == LoadedRecord(row);
        assert row in rows;
      }
    }
  }

  /**
   * Construction followed by loading: the keys are the rows' IMEIs, every
   * record is built from a row of its IMEI and so is Connected with no client
   * and no listener whatever State the row holds, and the next port is at
   * least the base and above every loaded port.
   */
  lemma LoadFromTable(rows: seq<Row>)
    ensures WellFormed(Load(Initial(), rows))
    ensures Load(Initial(), rows).devices.Keys == Imeis(rows)
    ensures Load(Initial(), rows).nextPort >= BasePort
    ensures forall row :: row in rows ==> row.port < Load(Initial(), rows).nextPort
    ensures forall k :: k in Load(Initial(), rows).devices ==>
      exists row :: row in rows && row.imei == k && Load(Initial(), rows).devices[k] == LoadedRecord(row)
    ensures forall k :: k in Load(Initial(), rows).devices ==>
      var d := Load(Initial(), rows).devices[k]; d.client == None && d.state == Connected && !d.hasListener
  {
    LoadKeys(Initial(), rows);
    LoadNextPort(Initial(), rows);
    LoadWellFormed(Initial(), rows);
    var r := Load(Initial(), rows);
    forall k | k in r.devices
      ensures exists row :: row in rows && row.imei == k && r.devices[k] == LoadedRecord(row)
    {
      LoadOrigin(Initial(), rows, k);
    }
  }

  /**
   * Rows as the server writes them (one per IMEI, no port shared): each IMEI
   * holds the record built from its own row and the invariant holds.
   */
  lemma LoadDistinctRows(rows: seq<Row>)
    requires RowsDistinct(rows)
    ensures Inv(Load(Initial(), rows))
    ensures forall row :: row in rows ==>
      row.imei in Load(Initial(), rows).devices && Load(Initial(), rows).devices[row.imei] == LoadedRecord(row)
  {
    LoadRecords(Initial(), rows);
    LoadWellFormed(Initial(), rows);
    LoadPortsDistinct(Initial(), rows);
  }

  // ------------------------------------------------------- control messages

  /**
   * `INF;<imei>` from connection `conn` at address `addr`: a new IMEI gets the
   * next port, a Connected record owning `conn` and a started listener; a
   * known IMEI gets `conn`, Connected and `addr`, and keeps its port.
   */
  function Register(reg: Registry, imei: string, conn: ConnId, addr: string): (r: Registry)
    ensures r.devices.Keys == reg.devices.Keys + {imei}
    ensures imei in r.devices && r.devices[imei].client == Some(conn) &&
      r.devices[imei].state == Connected && r.devices[imei].sourceAddress == addr
    ensures r.nextPort == if imei in reg.devices then reg.nextPort else reg.nextPort + 1
  {
    if imei !in reg.devices then
      Registry(
        reg.devices[imei := Record(imei, reg.nextPort, addr, Some(conn), Connected, true, true)],
        reg.order + [imei],
        reg.nextPort + 1)
    else
      Registry(
        reg.devices[imei := reg.devices[imei].(client := Some(conn), state := Connected, sourceAddress := addr)],
        reg.order,
        reg.nextPort)
  }

  /** The registry after one message; a heartbeat changes only the database. */
  function Receive(reg: Registry, conn: ConnId, addr: string, message: string): (r: Registry)
    ensures reg.devices.Keys <= r.devices.Keys
    ensures reg.nextPort <= r.nextPort <= reg.nextPort + 1
  {
    match Parse(message)
    case Inf(imei) => Register(reg, imei, conn, addr)
    case Heartbeat(_) => reg
    case Ignored => reg
  }

  /** The replies to one message: an acknowledgement on the same connection for a known IMEI's heartbeat. */
  function Replies(reg: Registry, conn: ConnId, message: string): (out: seq<Send>)
    ensures |out| <= 1
    ensures forall s :: s in out ==> s == Send(conn, HeartbeatAck)
  {
    match Parse(message)
    case Heartbeat(imei) => if imei in reg.devices then [Send(conn, HeartbeatAck)] else []
    case _ => []
  }

  /** The database writes for one message. */
  function Persisted(reg: Registry, addr: string, message: string, now: int): (events: seq<PersistEvent>)
    ensures |events| <= 2
    ensures Parse(message).Ignored? ==> events == []
  {
    match Parse(message)
    case Inf(imei) =>
      if imei !in reg.devices then [Insert(imei, reg.nextPort, addr, StateName(Connected), now, now)]
      else [UpdateStateAndLastConnected(imei, StateName(Connected), addr, now)]
    case Heartbeat(imei) =>
      if imei in reg.devices then [UpdateSourceAddress(imei, addr), UpdateLastConnected(imei, now)] else []
    case Ignored => []
  }

  /** A message that is neither `INF;<imei>` nor `HEARTBEAT;<imei>` changes nothing, is not answered and is not persisted. */
  lemma IgnoredMessage(reg: Registry, conn: ConnId, addr: string, message: string, now: int)
    requires !exists imei ::
      Delimiter !in imei && (message == InfTag + [Delimiter] + imei || message == HeartbeatTag + [Delimiter] + imei)
    ensures Receive(reg, conn, addr, message) == reg
    ensures Replies(reg, conn, message) == []
    ensures Persisted(reg, addr, message, now) == []
  {
    ParseIgnored(message);
  }

  /**
   * `INF;<imei>` for an unseen IMEI assigns the current next port and advances
   * it by one, creates a Connected record owning `conn` with a started
   * listener, leaves every other entry alone and persists a Connected row
   * whose registration and last-connected times are equal.
   */
  lemma InfNewDevice(reg: Registry, conn: ConnId, addr: string, imei: string, now: int)
    requires Delimiter !in imei && imei !in reg.devices
    ensures var r := Receive(reg, conn, addr, InfTag + [Delimiter] + imei);
      r.nextPort == reg.nextPort + 1 &&
      r.devices == reg.devices[imei := Record(imei, reg.nextPort, addr, Some(conn), Connected, true, true)] &&
      r.order == reg.order + [imei]
    ensures Replies(reg, conn, InfTag + [Delimiter] + imei) == []
    ensures Persisted(reg, addr, InfTag + [Delimiter] + imei, now) ==
      [Insert(imei, reg.nextPort, addr, "Connected", now, now)]
  {
    ParseInf(InfTag + [Delimiter] + imei, imei);
  }

  /**
   * `INF;<imei>` for a known IMEI keeps its port and listener, sets client,
   * state and source address, changes no other entry and does not move the
   * next port.
   */
  lemma InfKnownDevice(reg: Registry, conn: ConnId, addr: string, imei: string, now: int)
    requires Delimiter !in imei && imei in reg.devices
    ensures var r := Receive(reg, conn, addr, InfTag + [Delimiter] + imei);
      r.nextPort == reg.nextPort && r.order == reg.order &&
      r.devices.Keys == reg.devices.Keys &&
      r.devices[imei].port == reg.devices[imei].port &&
      r.devices[imei].hasListener == reg.devices[imei].hasListener &&
      r.devices[imei].client == Some(conn) &&
      r.devices[imei].state == Connected &&
      r.devices[imei].sourceAddress == addr &&
      (forall k :: k in reg.devices && k != imei ==> r.devices[k] == reg.devices[k])
    ensures Replies(reg, conn, InfTag + [Delimiter] + imei) == []
    ensures Persisted(reg, addr, InfTag + [Delimiter] + imei, now) ==
      [UpdateStateAndLastConnected(imei, "Connected", addr, now)]
  {
    ParseInf(InfTag + [Delimiter] + imei, imei);
  }

  /**
   * `HEARTBEAT;<imei>` never changes the in-memory registry (not even the
   * source address). A known IMEI gets exactly one acknowledgement on the
   * same connection and its address and time are persisted; an unknown one
   * gets nothing.
   */
  lemma HeartbeatRule(reg: Registry, conn: ConnId, addr: string, imei: string, now: int)
    requires Delimiter !in imei
    ensures Receive(reg, conn, addr, HeartbeatTag + [Delimiter] + imei) == reg
    ensures Replies(reg, conn, HeartbeatTag + [Delimiter] + imei) ==
      if imei in reg.devices then [Send(conn, "HEARTBEAT_ACK")] else []
    ensures Persisted(reg, addr, HeartbeatTag + [Delimiter] + imei, now) ==
      if imei in reg.devices then [UpdateSourceAddress(imei, addr), UpdateLastConnected(imei, now)] else []
  {
    ParseHeartbeat(HeartbeatTag + [Delimiter] + imei, imei);
  }

  /** A reply is only ever one acknowledgement, on the sending connection, to a heartbeat of a known IMEI. */
  lemma RepliesOnlyToKnownHeartbeat(reg: Registry, conn: ConnId, message: string)
    requires Replies(reg, conn, message) != []
    ensures Replies(reg, conn, message) == [Send(conn, HeartbeatAck)]
    ensures exists imei :: Delimiter !in imei && imei in reg.devices && message == HeartbeatTag + [Delimiter] + imei
  {
    var imei := Parse(message).imei;
    ParseHeartbeat(message, imei);
  }

  /** A new IMEI's port is at least the base and strictly above every port already assigned. */
  lemma NewPortAboveAll(reg: Registry, imei: string, conn: ConnId, addr: string)
    requires WellFormed(reg) && imei !in reg.devices
    ensures var r := Register(reg, imei, conn, addr);
      r.devices[imei].port >= BasePort &&
      forall k :: k in reg.devices ==> r.devices[imei].port > reg.devices[k].port
  {
  }

  lemma RegisterWellFormed(reg: Registry, imei: string, conn: ConnId, addr: string)
    requires WellFormed(reg)
    ensures WellFormed(Register(reg, imei, conn, addr))
  {
    var r := Register(reg, imei, conn, addr);
    if imei !in reg.devices {
      forall i, j | 0 <= i < j < |r.order| ensures r.order[i] != r.order[j] {
        if j == |reg.order| { assert r.order[i] == reg.order[i]; }
      }
    }
  }

  /** Every message keeps the invariant. */
  lemma ReceiveKeepsInv(reg: Registry, conn: ConnId, addr: string, message: string)
    requires Inv(reg)
    ensures Inv(Receive(reg, conn, addr, message))
  {
    var c := Parse(message);
    if c.Inf? {
      RegisterWellFormed(reg, c.imei, conn, addr);
    }
  }

  // ------------------------------------------------------------ disconnects

  /** Whether entry `k` holds connection `conn` as its Client. */
  predicate Owns(devices: map<string, Record>, k: string, conn: ConnId)
  {
    k in devices && devices[k].client == Some(conn)
  }

  /** The position of the first entry, in enumeration order, whose Client is `conn`; `|order|` if there is none. */
  function FirstOwner(order: seq<string>, devices: map<string, Record>, conn: ConnId): (i: nat)
    ensures i <= |order|
    ensures forall j :: 0 <= j < i ==> !Owns(devices, order[j], conn)
    ensures i < |order| ==> Owns(devices, order[i], conn)
  {
    if |order| == 0 then 0
    else if Owns(devices, order[0], conn) then 0
    else 1 + FirstOwner(order[1..], devices, conn)
  }

  /** Closing `conn`: the first entry owning it loses its client and becomes Disconnected; with no owner nothing changes. */
  function Disconnect(reg: Registry, conn: ConnId): (r: Registry)
    ensures r.order == reg.order && r.nextPort == reg.nextPort && r.devices.Keys == reg.devices.Keys
    ensures forall k :: k in reg.devices ==>
      r.devices[k].port == reg.devices[k].port && r.devices[k].hasListener == reg.devices[k].hasListener
  {
    var i := FirstOwner(reg.order, reg.devices, conn);
    if i == |reg.order| then reg
    else
      var k := reg.order[i];
      reg.(devices := reg.devices[k := reg.devices[k].(client := None, state := Disconnected)])
  }

  /** The database writes for closing `conn`: one state update for the entry found, if any. */
  function DisconnectPersisted(reg: Registry, conn: ConnId): (events: seq<PersistEvent>)
    ensures |events| <= 1
    ensures forall e :: e in events ==> e.UpdateState? && e.state == "Disconnected"
  {
    var i := FirstOwner(reg.order, reg.devices, conn);
    if i == |reg.order| then [] else [UpdateState(reg.order[i], StateName(Disconnected))]
  }

  /**
   * On a well-formed registry: when some entry owns `conn`, exactly that first
   * entry is cleared and marked Disconnected (port kept) and one state update
   * is persisted; when none does, closing changes and persists nothing.
   */
  lemma DisconnectRule(reg: Registry, conn: ConnId)
    requires WellFormed(reg)
    ensures (forall k :: k in reg.devices ==> !Owns(reg.devices, k, conn)) ==>
      Disconnect(reg, conn) == reg && DisconnectPersisted(reg, conn) == []
    ensures forall k :: Owns(reg.devices, k, conn) ==>
      exists f :: Owns(reg.devices, f, conn) &&
        Disconnect(reg, conn) == reg.(devices := reg.devices[f := reg.devices[f].(client := None, state := Disconnected)]) &&
        DisconnectPersisted(reg, conn) == [UpdateState(f, "Disconnected")]
  {
    var i := FirstOwner(reg.order, reg.devices, conn);
    if i < |reg.order| {
      assert Owns(reg.devices, reg.order[i], conn);
    }
    forall k | Owns(reg.devices, k, conn) ensures i < |reg.order| {
      var j :| 0 <= j < |reg.order| && reg.order[j] == k;
    }
  }

  /** Closing keeps the invariant. */
  lemma DisconnectKeepsInv(reg: Registry, conn: ConnId)
    requires Inv(reg)
    ensures Inv(Disconnect(reg, conn))
  {
  }

  /**
   * When at most one entry owns `conn`, closing it leaves no entry owning it,
   * so the Disconnected transition happens once: closing again changes nothing.
   */
  lemma DisconnectOnce(reg: Registry, conn: ConnId)
    requires WellFormed(reg)
    requires forall k1, k2 :: Owns(reg.devices, k1, conn) && Owns(reg.devices, k2, conn) ==> k1 == k2
    ensures forall k :: k in Disconnect(reg, conn).devices ==> !Owns(Disconnect(reg, conn).devices, k, conn)
    ensures Disconnect(Disconnect(reg, conn), conn) == Disconnect(reg, conn)
  {
    var r := Disconnect(reg, conn);
    var i := FirstOwner(reg.order, reg.devices, conn);
    if i < |reg.order| {
      forall k | k in r.devices ensures !Owns(r.devices, k, conn) {
        if k != reg.order[i] {
          assert !Owns(reg.devices, k, conn);
        }
      }
    } else {
      forall k | k in r.devices ensures !Owns(r.devices, k, conn) {
        var j :| 0 <= j < |reg.order| && reg.order[j] == k;
      }
    }
    var i2 := FirstOwner(r.order, r.devices, conn);
    assert i2 == |r.order|;
  }

  /**
   * A connection that registered two IMEIs: closing it clears only the one
   * enumerated first; the other keeps its State and still names the closed
   * connection as its Client.
   */
  lemma DisconnectLeavesSecondOwner(reg: Registry, conn: ConnId, a: string, b: string)
    requires WellFormed(reg) && a != b && Owns(reg.devices, a, conn) && Owns(reg.devices, b, conn)
    ensures var r := Disconnect(reg, conn);
      (Owns(r.devices, a, conn) && r.devices[a].state == reg.devices[a].state) ||
      (Owns(r.devices, b, conn) && r.devices[b].state == reg.devices[b].state)
  {
    DisconnectRule(reg, conn);
  }

  // --------------------------------------------------------------- lifetime

  /** What the server does, one step at a time: a message received on a connection, or a connection closing. */
  datatype Event = Message(conn: ConnId, addr: string, text: string) | Close(conn: ConnId)

  function Apply(reg: Registry, e: Event): Registry
  {
    match e
    case Message(conn, addr, text) => Receive(reg, conn, addr, text)
    case Close(conn) => Disconnect(reg, conn)
  }

  function Run(reg: Registry, events: seq<Event>): Registry
    decreases |events|
  {
    if |events| == 0 then reg else Run(Apply(reg, events[0]), events[1..])
  }

  /** One step keeps every key and its port, keeps listeners started, and never lowers the next port. */
  ghost predicate Stable(before: Registry, after: Registry)
  {
    after.nextPort >= before.nextPort &&
    forall k :: k in before.devices ==>
      k in after.devices && after.devices[k].port == before.devices[k].port &&
      (before.devices[k].hasListener ==> after.devices[k].hasListener)
  }

  lemma ApplyStable(reg: Registry, e: Event)
    requires Inv(reg)
    ensures Inv(Apply(reg, e)) && Stable(reg, Apply(reg, e))
  {
    match e
    case Message(conn, addr, text) => ReceiveKeepsInv(reg, conn, addr, text);
    case Close(conn) => DisconnectKeepsInv(reg, conn);
  }

  /**
   * Over any sequence of messages and closes the invariant holds, no key is
   * removed, and every IMEI keeps the port it had: the IMEI-to-port mapping
   * is fixed for the lifetime of the process.
   */
  lemma {:induction false} RunStable(reg: Registry, events: seq<Event>)
    requires Inv(reg)
    ensures Inv(Run(reg, events)) && Stable(reg, Run(reg, events))
    decreases |events|
  {
    if |events| > 0 {
      ApplyStable(reg, events[0]);
      RunStable(Apply(reg, events[0]), events[1..]);
    }
  }

  /**
   * The end-to-end scenario: from an empty registry, `INF;123` gets port 6000
   * and Connected; `hello` sent by an external client on the relay port
   * reaches the device's connection, exactly; a heartbeat is acknowledged on
   * the same connection; closing the connection makes the record
   * Disconnected; `INF;123` on a new connection brings it back to Connected
   * on the same port 6000.
   */
  lemma Scenario(c1: ConnId, c2: ConnId, a1: string, a2: string)
    ensures var r1 := Receive(Initial(), c1, a1, "INF;123");
      "123" in r1.devices && r1.devices["123"] == Record("123", 6000, a1, Some(c1), Connected, true, true) &&
      var hello: seq<byte> := [104, 101, 108, 108, 111];
      Relay.Forward([Relay.Step(true, Relay.Bytes(hello), r1.devices["123"].client, true)]).delivered ==
        [Relay.Delivery(c1, hello)] &&
      Replies(r1, c1, "HEARTBEAT;123") == [Send(c1, "HEARTBEAT_ACK")] &&
      var r2 := Disconnect(Receive(r1, c1, a1, "HEARTBEAT;123"), c1);
      "123" in r2.devices && r2.devices["123"].state == Disconnected && r2.devices["123"].client == None &&
      var r3 := Receive(r2, c2, a2, "INF;123");
      "123" in r3.devices && r3.devices["123"].state == Connected && r3.devices["123"].port == 6000 && r3.devices["123"].client == Some(c2)
  {
    var inf, beat := InfTag + [Delimiter] + "123", HeartbeatTag + [Delimiter] + "123";
    assert inf == "INF;123" && beat == "HEARTBEAT;123";
    InfNewDevice(Initial(), c1, a1, "123", 0);
    var r1 := Receive(Initial(), c1, a1, inf);
    HeartbeatRule(r1, c1, a1, "123", 0);
    assert r1.order == ["123"];
    var r2 := Disconnect(r1, c1);
    assert FirstOwner(r1.order, r1.devices, c1) == 0;
    InfKnownDevice(r2, c2, a2, "123", 0);
  }
}
