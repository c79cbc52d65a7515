/**
 * The registry state held by the TCP server: the IMEI-to-record dictionary,
 * whose records are objects updated in place, and the next relay port. The
 * socket layer is abstracted away: a connection is an id, its peer address
 * and the clock are parameters, and database writes go to a log.
 */
module Server {
  import opened Wrappers
  import opened Devices
  import opened Protocol
  import opened DeviceRegistry

  class TcpServer {
    var registeredDevices: map<string, DeviceConnection>
    /** The keys in the order the dictionary enumerates them. */
    var entryOrder: seq<string>
    var nextPort: int
    /** Every database write so far, oldest first. */
    var persistLog: seq<PersistEvent>
    /** The value of every record object, by key. */
    ghost var records: map<string, Record>

    /** The registry's current value. */
    ghost function View(): Registry
      reads this
    {
      Registry(records, entryOrder, nextPort)
    }

    /**
     * `records` holds the value of each record object, each record carries
     * its own key as IMEI (so no record object is shared by two keys), and every key in the enumeration order has an
     * entry. That the value stays well formed is proved about the functions
     * the methods follow.
     */
    ghost predicate Valid()
      reads this, registeredDevices.Values
    {
      records.Keys == registeredDevices.Keys &&
      (forall k :: k in registeredDevices ==> registeredDevices[k].AsRecord() == records[k]) &&
      (forall k :: k in registeredDevices ==> registeredDevices[k].imei == k) &&
      (forall i :: 0 <= i < |entryOrder| ==> entryOrder[i] in registeredDevices)
    }

    /** The server's constructor: an empty dictionary, the base port, then the persisted rows loaded. */
    constructor (rows: seq<Row>)
      ensures Valid()
      ensures View() == Load(Initial(), rows)
      ensures persistLog == []
    {
      registeredDevices := map[];
      entryOrder := [];
      nextPort := BasePort;
      persistLog := [];
      records := map[];
      new;
      LoadRegisteredDevices(rows);
    }

    /** Loads the persisted rows one by one; nothing is written back to the database. */
    method LoadRegisteredDevices(rows: seq<Row>)
      requires Valid()
      modifies this
      ensures Valid()
      ensures View() == Load(old(View()), rows)
      ensures persistLog == old(persistLog)
    {
      var i := 0;
      while i < |rows|
        invariant 0 <= i <= |rows|
        invariant Valid()
        invariant Load(View(), rows[i..]) == Load(old(View()), rows)
        invariant persistLog == old(persistLog)
      {
        LoadRegisteredDevice(rows[i]);
        assert rows[i..][1..] == rows[i + 1..];
        i := i + 1;
      }
    }

    /**
     * One row read by the load loop: a fresh record with no client replaces
     * any entry of that IMEI, and the next port moves past the row's port.
     */
    method LoadRegisteredDevice(row: Row)
      requires Valid()
      modifies this
      ensures Valid()
      ensures View() == LoadRow(old(View()), row)
      ensures row.imei in registeredDevices && fresh(registeredDevices[row.imei])
      ensures persistLog == old(persistLog)
    {
      var device := new DeviceConnection(row.imei, row.port, row.sourceAddress, None);
      if row.imei !in registeredDevices {
        entryOrder := entryOrder + [row.imei];
      }
      registeredDevices := registeredDevices[row.imei := device];
      nextPort := Max(nextPort, row.port + 1);
      records := records[row.imei := LoadedRecord(row)];
    }

    /**
     * One message read from control connection `conn`, whose peer is
     * `sourceAddress`, at time `now`: returns the replies written on `conn`.
     * Record objects already registered stay the same objects.
     */
    method HandleMessage(conn: ConnId, sourceAddress: string, message: string, now: int)
      returns (replies: seq<Send>)
      requires Valid()
      modifies this, registeredDevices.Values
      ensures Valid()
      ensures View() == Receive(old(View()), conn, sourceAddress, message)
      ensures replies == Replies(old(View()), conn, message)
      ensures persistLog == old(persistLog) + Persisted(old(View()), sourceAddress, message, now)
      ensures forall k :: k in old(registeredDevices) ==>
        k in registeredDevices && registeredDevices[k] == old(registeredDevices[k])
    {
      var parts := Split(message, Delimiter);
      replies := [];
      if |parts| == 2 && parts[0] == InfTag {
        RegisterDevice(parts[1], conn, sourceAddress, now);
      } else if |parts| == 2 && parts[0] == HeartbeatTag {
        var imei := parts[1];
        if imei in registeredDevices {
          persistLog := persistLog + [UpdateSourceAddress(imei, sourceAddress), UpdateLastConnected(imei, now)];
          replies := [Send(conn, HeartbeatAck)];
        }
      }
    }

    /**
     * The `INF` branch: an unseen IMEI gets the next port, a record owning
     * `conn`, a started listener and an inserted row; a known IMEI's record is
     * updated in place and its row updated.
     */
    method RegisterDevice(imei: string, conn: ConnId, sourceAddress: string, now: int)
      requires Valid()
      modifies this, registeredDevices.Values
      ensures Valid()
      ensures View() == Register(old(View()), imei, conn, sourceAddress)
      ensures persistLog == old(persistLog) +
        if imei !in old(registeredDevices) then [Insert(imei, old(nextPort), sourceAddress, StateName(Connected), now, now)]
        else [UpdateStateAndLastConnected(imei, StateName(Connected), sourceAddress, now)]
      ensures imei in registeredDevices && registeredDevices == old(registeredDevices)[imei := registeredDevices[imei]]
      ensures imei in old(registeredDevices) ==> registeredDevices[imei] == old(registeredDevices[imei])
      ensures imei !in old(registeredDevices) ==> fresh(registeredDevices[imei])
    {
      if imei !in registeredDevices {
        AddDevice(imei, conn, sourceAddress, now);
      } else {
        UpdateDevice(imei, conn, sourceAddress, now);
      }
    }

    /** A first `INF` for `imei`: a new record on the next port, listening, and an inserted row. */
    method AddDevice(imei: string, conn: ConnId, sourceAddress: string, now: int)
      requires Valid() && imei !in registeredDevices
      modifies this
      ensures Valid()
      ensures View() == Register(old(View()), imei, conn, sourceAddress)
      ensures persistLog == old(persistLog) + [Insert(imei, old(nextPort), sourceAddress, StateName(Connected), now, now)]
      ensures imei in registeredDevices && fresh(registeredDevices[imei])
      ensures registeredDevices == old(registeredDevices)[imei := registeredDevices[imei]]
    {
      var port := nextPort;
      nextPort := nextPort + 1;
      var device := new DeviceConnection(imei, port, sourceAddress, Some(conn));
      registeredDevices := registeredDevices[imei := device];
      device.StartListening();
      entryOrder := entryOrder + [imei];
      persistLog := persistLog + [Insert(imei, port, sourceAddress, StateName(Connected), now, now)];
      records := records[imei := device.AsRecord()];
    }

    /** A repeated `INF` for `imei`: its record takes `conn`, Connected and the new address, in place. */
    method UpdateDevice(imei: string, conn: ConnId, sourceAddress: string, now: int)
      requires Valid() && imei in registeredDevices
      modifies this, registeredDevices[imei]
      ensures Valid()
      ensures View() == Register(old(View()), imei, conn, sourceAddress)
      ensures persistLog == old(persistLog) + [UpdateStateAndLastConnected(imei, StateName(Connected), sourceAddress, now)]
      ensures registeredDevices == old(registeredDevices)
    {
      var device := registeredDevices[imei];
      device.Reattach(conn, sourceAddress);
      persistLog := persistLog + [UpdateStateAndLastConnected(imei, StateName(Connected), sourceAddress, now)];
      records := records[imei := device.AsRecord()];
      forall k | k in registeredDevices
        ensures registeredDevices[k].AsRecord() == records[k]
      {
        if k != imei {
          assert registeredDevices[k] != device;
        }
      }
    }

    /**
     * The search of HandleClientDisconnection: the position, in enumeration
     * order, of the first entry whose Client is `conn`, or the number of
     * entries when there is none.
     */
    method FindOwner(conn: ConnId) returns (i: nat)
      requires Valid()
      ensures i == FirstOwner(entryOrder, records, conn)
    {
      i := 0;
      while i < |entryOrder|
        invariant 0 <= i <= |entryOrder|
        invariant forall j :: 0 <= j < i ==> !Owns(records, entryOrder[j], conn)
      {
        var key := entryOrder[i];
        if registeredDevices[key].client == Some(conn) {
          break;
        }
        i := i + 1;
      }
    }

    /**
     * The close of control connection `conn`: the first entry, in enumeration
     * order, whose Client is `conn` is cleared and marked Disconnected, and
     * the new state is persisted.
     */
    method HandleClientDisconnection(conn: ConnId)
      requires Valid()
      modifies this, registeredDevices.Values
      ensures Valid()
      ensures View() == Disconnect(old(View()), conn)
      ensures persistLog == old(persistLog) + DisconnectPersisted(old(View()), conn)
      ensures registeredDevices == old(registeredDevices)
    {
      var i := FindOwner(conn);
      if i < |entryOrder| {
        DetachDevice(entryOrder[i]);
      }
    }

    /** The update of the entry found: its record loses its Client and turns Disconnected, in place, and its row follows. */
    method DetachDevice(key: string)
      requires Valid() && key in registeredDevices
      modifies this, registeredDevices[key]
      ensures Valid()
      ensures View() == old(View()).(devices := old(records)[key := old(records)[key].(client := None, state := Disconnected)])
      ensures persistLog == old(persistLog) + [UpdateState(key, StateName(Disconnected))]
      ensures registeredDevices == old(registeredDevices)
    {
      var device := registeredDevices[key];
      device.Detach();
      persistLog := persistLog + [UpdateState(key, StateName(Disconnected))];
      records := records[key := device.AsRecord()];
      forall k | k in registeredDevices
        ensures registeredDevices[k].AsRecord() == records[k]
      {
        if k != key {
          assert registeredDevices[k] != device;
        }
      }
    }
  }
}
