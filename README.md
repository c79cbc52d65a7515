# ESNETServer device registry, in Dafny

ESNETServer is a TCP relay for tracking devices. A device opens a control
connection to the server and registers with `INF;<imei>`. The server gives
each new IMEI its own relay port, counting up from 6000, and starts a relay
listener on that port. External clients connect to the relay port, and the
bytes they send are forwarded to the device's current control connection.
`HEARTBEAT;<imei>` is answered with `HEARTBEAT_ACK` for known IMEIs. When a
control connection closes, the device record that owns it becomes
`Disconnected`. Records survive restarts through an SQLite table.

This project models the in-memory registry behind all of that. That covers:

- the IMEI-to-`DeviceConnection` dictionary and the `_nextPort` counter;
- loading the persisted rows;
- the dispatch of one received control message;
- the close of a control connection;
- the `DeviceConnection` record and its read-and-forward loop.

Sockets become connection ids, and a peer address is a string parameter.
The clock is a parameter too. Database writes become a log of `PersistEvent`
values.

Modules, one per concern:

- `Wrappers` (wrappers.dfy): `Option`, which stands for a reference that may be null.
- `Protocol` (protocol.dfy): `String.Split(';')` as `Split`, with its inverse
  `Join`. `Parse`, the dispatch on the parts, returns `Inf`, `Heartbeat` or
  `Ignored`.
- `Devices` (device_connection.dfy): the mutable `DeviceConnection` class.
  `AsRecord()` gives its value at one instant as a `Record`.
- `Relay` (device_connection.dfy): the forwarding loop `HandleIncomingData`.
  - Another thread may change the record's `Client` and run flag while the
    loop runs. So the loop is given what each iteration observes, as a
    sequence of `Step`s.
  - The method is proved equal to the pure rule `Forward`, and the
    forwarding properties are proved about `Forward`.
- `DeviceRegistry` (registry.dfy): the registry as a value, a `Registry` of
  dictionary, enumeration order and next port.
  - Each server operation is a function of the old value.
  - The lemmas state each operation's rule and the invariant it keeps: every
    port is below the next port, and ports are pairwise distinct.
  - `RunStable` proves, over any sequence of messages and closes, that keys
    are never removed and every IMEI keeps its port.
- `Server` (server.dfy): the `TcpServer` class.
  - Its dictionary `registeredDevices` maps IMEIs to `DeviceConnection`
    objects, which are updated in place.
  - `entryOrder` gives the dictionary's enumeration order, taken to be
    insertion order. That is how .NET's `Dictionary` enumerates when no key
    is ever removed, but the order is not a documented guarantee. Only
    `FirstOwner`, and so which owner a close clears, depends on it;
    `DisconnectRule` holds for any order.
  - Each method is proved to move `View()` exactly as the matching
    `DeviceRegistry` function does. Each also appends exactly that
    function's database writes to `persistLog`.

### Behaviour worth knowing

- **A heartbeat refreshes only the database row.** The peer address and the
  time are written to the database. The in-memory `SourceAddress` keeps its
  old value (Program.cs:139-152). `HeartbeatRule` proves that `Receive`
  leaves the registry unchanged.
- **Loaded records.**
  - A loaded record is created `Connected`, with no client, whatever State
    its row holds (Program.cs:65-70, DeviceConnection.cs:23).
  - Its relay listener is never started, and re-registering a known IMEI
    starts none either. So after a restart, a known device has no relay
    listener for the rest of the process.
  - `LoadFromTable` and `InfKnownDevice` state both facts.
  - Stopping such a record fails, because it has no listener to stop.
    `DeviceConnection.StopListening` returns `false` for that case.
- **Forwarding ends at a null Client instead of dropping the chunk.** While
  the device is disconnected, `Client` is null. Then `Client.GetStream()`
  throws, the exception ends the loop, and the external connection is
  closed (DeviceConnection.cs:68-75). See `LostDeviceEndsForwarding`.
- **Only the first owner is cleared on close.** One control connection can
  register two IMEIs. When it closes, only the entry enumerated first is
  cleared (Program.cs:171-179). The other entry keeps its State and still
  names the closed connection as its Client (`DisconnectLeavesSecondOwner`).
- **Nothing is locked.** The dictionary, `_nextPort` and the record fields
  are shared by threads without a lock. Every step is modelled as atomic.

## Model

| member | source | states |
|---|---|---|
| Protocol.Split | ESNETServer/Program.cs:111 | `String.Split(';')`: always at least one part, and a message without `;` is its own single part |
| Protocol.JoinSplit | ESNETServer/Program.cs:111 | joining the parts of `Split(';')` with `;` gives back the message, so no character is lost or invented |
| Protocol.SplitPartsFree | ESNETServer/Program.cs:111 | no part of a split contains the delimiter |
| Protocol.SplitLength | ESNETServer/Program.cs:111 | a split has exactly one part more than the message has delimiters, empty parts included |
| Protocol.SplitJoin | ESNETServer/Program.cs:111 | splitting the join of delimiter-free parts gives back exactly those parts |
| Protocol.SplitPrepend | ESNETServer/Program.cs:111 | splitting `a;b`, for `a` free of `;`, yields `a` followed by the parts of `b` |
| Protocol.Parse | ESNETServer/Program.cs:111-141 | a message acts only when it holds exactly one `;`; the IMEI it yields holds no `;` |
| Protocol.ParseInf | ESNETServer/Program.cs:111-114 | a message is a registration for `imei` if and only if it is `INF;<imei>` with `imei` free of `;` |
| Protocol.ParseHeartbeat | ESNETServer/Program.cs:111-141 | a message is a heartbeat for `imei` if and only if it is `HEARTBEAT;<imei>` with `imei` free of `;` |
| Protocol.ParseIgnored | ESNETServer/Program.cs:111-152 | a message is ignored if and only if it is neither `INF;<imei>` nor `HEARTBEAT;<imei>` for any `;`-free `imei` |
| Protocol.Tagged | ESNETServer/Program.cs:111-112 | the split is exactly `[tag, imei]` if and only if the message is `tag;imei` with `imei` free of `;` |
| Devices.StateName | ESNETServer/Program.cs:127 | the State string is "Connected" exactly for the Connected state; the "Disconnected" literal of Program.cs:185-186 is the one `DisconnectPersisted` writes |
| Devices.DeviceConnection.constructor | ESNETServer/DeviceConnection.cs:17-24 | the IMEI, port, source address and client are stored unchanged; State is always Connected; there is no listener or run flag yet |
| Devices.DeviceConnection.Reattach | ESNETServer/Program.cs:132-134 | re-registration sets Client, State Connected and SourceAddress in place and changes no other field |
| Devices.DeviceConnection.Detach | ESNETServer/Program.cs:184-185 | a close clears Client and sets State Disconnected in place, changing no other field |
| Devices.DeviceConnection.StartListening | ESNETServer/DeviceConnection.cs:26-33 | creates the relay listener and raises the run flag; nothing else changes |
| Devices.DeviceConnection.StopListening | ESNETServer/DeviceConnection.cs:81-86 | lowers the run flag; stopping succeeds exactly when a listener was started |
| Relay.Forwards | ESNETServer/DeviceConnection.cs:56-69 | an iteration goes round again exactly when the flag is up, the read returned bytes, Client is set and the write succeeds |
| Relay.EndingOf | ESNETServer/DeviceConnection.cs:56-75 | an iteration that does not forward always ends the loop, for the first reason checked: run flag, read error, end of stream, null Client, failed write |
| Relay.Forward | ESNETServer/DeviceConnection.cs:56-79 | never more chunks are delivered than iterations run; while still waiting, every iteration has delivered its chunk |
| Relay.ForwardCharacterized | ESNETServer/DeviceConnection.cs:56-79 | the leading forwarding iterations each deliver their own chunk, whole, to the Client observed at that iteration; the first non-forwarding iteration gives the ending; nothing after it is delivered |
| Relay.ForwardPreservesBytes | ESNETServer/DeviceConnection.cs:60-69 | the bytes written are exactly the bytes read up to the end of forwarding, in the same order |
| Relay.ZeroReadEndsForwarding | ESNETServer/DeviceConnection.cs:61-65 | a zero-length read writes nothing and nothing after it is written; when reached, it is the end-of-stream ending |
| Relay.LostDeviceEndsForwarding | ESNETServer/DeviceConnection.cs:68-75 | once Client is null or a write fails, no chunk from that iteration or any later one is delivered |
| Relay.ReconnectRedirects | ESNETServer/DeviceConnection.cs:68 | each chunk goes to the Client seen at its own iteration; two chunks go to the same connection if and only if the same Client was seen at both |
| Relay.StoppedEndsForwarding | ESNETServer/DeviceConnection.cs:56 | once the run flag is seen down, nothing more is written |
| Relay.HandleIncomingData | ESNETServer/DeviceConnection.cs:49-79 | the loop delivers exactly the chunks `Forward` gives and ends the way it says |
| DeviceRegistry.LoadRow | ESNETServer/Program.cs:65-70 | one row adds its IMEI as a key, leaves every other entry alone, never lowers the next port and moves it above the row's port |
| DeviceRegistry.Load | ESNETServer/Program.cs:63-71 | loading the rows in query order keeps every key and never lowers the next port |
| DeviceRegistry.LoadKeys | ESNETServer/Program.cs:63-71 | loading keeps every key and adds exactly the IMEIs of the rows |
| DeviceRegistry.LoadNextPort | ESNETServer/Program.cs:70 | loading never lowers the next port and leaves it above every loaded port |
| DeviceRegistry.LoadUntouched | ESNETServer/Program.cs:69 | a key that no row names keeps its record |
| DeviceRegistry.LoadRecords | ESNETServer/Program.cs:65-69 | with one row per IMEI, each IMEI holds the record built from its row |
| DeviceRegistry.LoadWellFormed | ESNETServer/Program.cs:63-71 | loading keeps keys, order and stored IMEIs in agreement, and all ports below the next one |
| DeviceRegistry.LoadRowWellFormed | ESNETServer/Program.cs:69-70 | loading one row keeps the registry well formed |
| DeviceRegistry.LoadPortsDistinct | ESNETServer/Program.cs:66-70 | rows with distinct IMEIs and ports, none already in use, keep all ports pairwise distinct |
| DeviceRegistry.LoadOrigin | ESNETServer/Program.cs:69 | every record after loading was there before or is the record built from a row of its IMEI |
| DeviceRegistry.LoadFromTable | ESNETServer/Program.cs:54-74 | after construction and loading, the keys are the rows' IMEIs; every record is Connected with no client and no listener, whatever the State column; the next port is at least 6000 and above every loaded port |
| DeviceRegistry.LoadDistinctRows | ESNETServer/Program.cs:54-74 | rows as the server writes them load to the record of each row, and ports are pairwise distinct |
| DeviceRegistry.Register | ESNETServer/Program.cs:119-136 | the `INF` rule: the IMEI becomes a key whose record holds the sending connection, Connected and the sender's address; the next port moves by one exactly for an unseen IMEI |
| DeviceRegistry.Receive | ESNETServer/Program.cs:111-152 | one message keeps every key and moves the next port by at most one |
| DeviceRegistry.Replies | ESNETServer/Program.cs:139-150 | one message gets at most one reply, and only `HEARTBEAT_ACK` on the sending connection |
| DeviceRegistry.Persisted | ESNETServer/Program.cs:119-148 | one message writes at most two database updates, and an ignored message writes none |
| DeviceRegistry.IgnoredMessage | ESNETServer/Program.cs:111-152 | any other message changes nothing, is not answered and writes nothing |
| DeviceRegistry.InfNewDevice | ESNETServer/Program.cs:119-127 | a first `INF` assigns the current next port and advances it by exactly one; it creates a Connected record owning the connection, with a started listener, leaving other entries alone; it persists a Connected row whose two times are equal |
| DeviceRegistry.InfKnownDevice | ESNETServer/Program.cs:129-136 | a repeated `INF` keeps the port and listener; it sets Client, State Connected and the source address; it changes no other entry, does not move the next port and persists one update |
| DeviceRegistry.HeartbeatRule | ESNETServer/Program.cs:139-152 | a heartbeat never changes the in-memory registry; a known IMEI gets exactly one `HEARTBEAT_ACK` on the same connection and two database updates; an unknown one gets nothing |
| DeviceRegistry.RepliesOnlyToKnownHeartbeat | ESNETServer/Program.cs:139-150 | a reply is only ever a single acknowledgement, on the sending connection, to a heartbeat of a known IMEI |
| DeviceRegistry.NewPortAboveAll | ESNETServer/Program.cs:121 | a new IMEI's port is at least 6000 and strictly above every port already assigned |
| DeviceRegistry.RegisterWellFormed | ESNETServer/Program.cs:119-136 | registration keeps the registry well formed |
| DeviceRegistry.ReceiveKeepsInv | ESNETServer/Program.cs:111-152 | every message keeps every port below the next port and all ports pairwise distinct |
| DeviceRegistry.FirstOwner | ESNETServer/Program.cs:171-179 | the search stops at the first entry, in enumeration order, whose Client is the connection; no earlier entry owns it; it returns the number of entries when none does |
| DeviceRegistry.Disconnect | ESNETServer/Program.cs:169-188 | a close keeps the keys, the order, the next port, every port and every listener |
| DeviceRegistry.DisconnectPersisted | ESNETServer/Program.cs:181-187 | a close writes at most one update, which sets State to Disconnected |
| DeviceRegistry.DisconnectRule | ESNETServer/Program.cs:169-188 | when some entry owns the connection, exactly one owner is cleared and made Disconnected, with its port kept, and one state update is persisted; when none does, nothing changes and nothing is written |
| DeviceRegistry.DisconnectKeepsInv | ESNETServer/Program.cs:183-186 | a close keeps the invariant |
| DeviceRegistry.DisconnectOnce | ESNETServer/Program.cs:169-188 | with at most one owner, no entry owns the connection after the close, and closing again changes nothing |
| DeviceRegistry.DisconnectLeavesSecondOwner | ESNETServer/Program.cs:171-179 | with two owners, one of them still names the closed connection as its Client and keeps its State |
| DeviceRegistry.ApplyStable | ESNETServer/Program.cs:111-188 | a message or a close keeps the invariant, every key, every port and every started listener, and never lowers the next port |
| DeviceRegistry.RunStable | ESNETServer/Program.cs:111-188 | over any sequence of messages and closes, the invariant holds, no key is removed and each IMEI keeps its port |
| DeviceRegistry.Scenario | ESNETServer/Program.cs:111-188 | `INF;123` from an empty registry gives port 6000, Connected; `hello` from an external client on the relay port reaches that connection exactly; the heartbeat is acknowledged; the close makes the record Disconnected; a new `INF;123` makes it Connected again on port 6000 with the new connection |
| Server.TcpServer.constructor | ESNETServer/Program.cs:18-24 | an empty dictionary and next port 6000, followed by loading the rows, gives exactly `Load` of the rows and writes nothing |
| Server.TcpServer.LoadRegisteredDevices | ESNETServer/Program.cs:54-74 | the read loop follows `Load` over the rows and writes nothing to the database |
| Server.TcpServer.LoadRegisteredDevice | ESNETServer/Program.cs:65-70 | one row stores a newly allocated record with no client under its IMEI and moves the next port past the row's port |
| Server.TcpServer.HandleMessage | ESNETServer/Program.cs:111-152 | one message moves the registry as `Receive` does, replies as `Replies` does and logs what `Persisted` gives; existing record objects stay the same objects |
| Server.TcpServer.RegisterDevice | ESNETServer/Program.cs:112-137 | the `INF` branch follows `Register`; a new IMEI gets a fresh record object, and a known one keeps its object |
| Server.TcpServer.AddDevice | ESNETServer/Program.cs:119-127 | a first `INF` adds a fresh, listening record on the old next port and inserts one row |
| Server.TcpServer.UpdateDevice | ESNETServer/Program.cs:129-136 | a repeated `INF` updates the record object in place, leaves the dictionary alone and writes one update |
| Server.TcpServer.FindOwner | ESNETServer/Program.cs:171-179 | the search loop returns the position of the first owner in enumeration order, as `FirstOwner` does |
| Server.TcpServer.HandleClientDisconnection | ESNETServer/Program.cs:169-188 | a close moves the registry as `Disconnect` does, logs what `DisconnectPersisted` gives and leaves the dictionary's objects in place |
| Server.TcpServer.DetachDevice | ESNETServer/Program.cs:183-186 | the entry found loses its Client and turns Disconnected in place, and one state update is written |

## Left out

- SQLite (`InitializeDatabase`, `SaveDeviceInfo`, the `Update*` methods) is left out because it is I/O. Writes appear only as `PersistEvent` entries in `persistLog`. The table's contents on load are the `rows` parameter, in the order the query returns them.
- TCP plumbing is left out because it is I/O: the listeners, the `Pending`/`AcceptTcpClient` polling with its 100 ms sleep, the stream reads and writes, and the formatting of `RemoteEndPoint`. A connection is a `ConnId` and its peer address a string parameter.
- The control read loop around one message is left out, with its run flag and its 4096-byte buffer. So are ASCII decoding and TCP framing: each read is taken to be exactly one message.
- Threads, `Start`, `Stop`, `ListenForClients`, `ListenForData` and `Main` are left out because they are concurrency and process control. No lock guards the dictionary or `_nextPort`, and every step is modelled as atomic and sequential.
- In the forwarding loop, other threads' writes to `Client` and the run flag are given per iteration as observations, not interleaved.
- `DateTime.Now` becomes the `now` parameter, and its `ToString("o")` formatting is not modelled. `Console` output is left out.
- `Devices.DeviceConnection.Reattach` and `Devices.DeviceConnection.Detach` are each one call for property assignments that the server writes one after another. Nothing reads the record between those writes in the sequential model.
- `DeviceRegistry.LoadRow` does not model 32-bit overflow: `port + 1` on a row with port `int.MaxValue` is unbounded here, and so is `_nextPort++`.
- `DeviceRegistry.LoadRecords` and `DeviceRegistry.LoadDistinctRows` assume one row per IMEI, which the table's primary key guarantees. `LoadDistinctRows` also assumes no two rows share a port, which holds for every table the server itself writes.
- `Devices.DeviceConnection.StartListening` assumes that the relay listener always starts. In the source, creating the listener throws for a port above 65535, and starting it throws for a port already bound, such as the control port 11001 (DeviceConnection.cs:28-29, Program.cs:280). The model does not exclude those ports.
- `DeviceRegistry.InfNewDevice` assumes the same: a first `INF` always gives a listening record and an `Insert`. In the source, when the start throws, the record is already stored and `_nextPort` already advanced, the row is not inserted, and the exception ends the control connection (Program.cs:121-127).
- `Server.TcpServer.AddDevice` assumes the same: it always starts the listener and logs the `Insert`, where the source, on a failed start, keeps the stored record and the advanced `_nextPort` but writes no row (Program.cs:121-127).
- A NULL column read by `GetString` or `GetInt32` throws in the source and aborts construction. That case is not modelled: a `Row` always has all four values.
- An exception thrown while the peer address is read, inside the control loop, is not modelled. It ends the connection like a read error, which is outside the modelled message step.
