/**
 * A device record: the registry's in-memory entry for one IMEI, whose
 * properties the server rewrites in place when the device re-registers or
 * its control connection closes.
 */
module Devices {
  import opened Wrappers

  /** An accepted TCP connection; the server compares connections by identity, so an id stands for one. */
  type ConnId = nat

  newtype byte = x: int | 0 <= x < 256

  /** The two values the record's State string ever takes. */
  datatype DeviceState = Connected | Disconnected

  /** The State string written to the database. */
  function StateName(s: DeviceState): (name: string)
    ensures name == "Connected" <==> s == Connected
  {
    match s
    case Connected => "Connected"
    case Disconnected => "Disconnected"
  }

  /**
   * The value of a record at one instant. `hasListener` says that the relay
   * listener of the record has been created and started on `port`;
   * `running` is the record's own run flag.
   */
  datatype Record = Record(
    imei: string,
    port: int,
    sourceAddress: string,
    client: Option<ConnId>,
    state: DeviceState,
    hasListener: bool,
    running: bool)

  class DeviceConnection {
    const imei: string
    const port: int
    var sourceAddress: string
    var client: Option<ConnId>
    var state: DeviceState
    var hasListener: bool
    var isRunning: bool

    function AsRecord(): Record
      reads this
    {
      Record(imei, port, sourceAddress, client, state, hasListener, isRunning)
    }

    /** Stores its arguments unchanged and always starts out Connected, with no listener yet. */
    constructor (imei: string, port: int, sourceAddress: string, client: Option<ConnId>)
      ensures AsRecord() == Record(imei, port, sourceAddress, client, Connected, false, false)
    {
      this.imei := imei;
      this.port := port;
      this.sourceAddress := sourceAddress;
      this.client := client;
      this.state := Connected;
      this.hasListener := false;
      this.isRunning := false;
    }

    /** Re-registration on a new control connection: Client, State and SourceAddress are set; nothing else changes. */
    method Reattach(client: ConnId, sourceAddress: string)
      modifies this
      ensures AsRecord() == old(AsRecord()).(client := Some(client), state := Connected, sourceAddress := sourceAddress)
    {
      this.client := Some(client);
      this.state := Connected;
      this.sourceAddress := sourceAddress;
    }

    /** The close of its control connection: Client is cleared and State set to Disconnected; nothing else changes. */
    method Detach()
      modifies this
      ensures AsRecord() == old(AsRecord()).(client := None, state := Disconnected)
    {
      client := None;
      state := Disconnected;
    }

    /** Creates the relay listener on `port` and raises the run flag; nothing else changes. */
    method StartListening()
      requires !hasListener  // a second listener on the same port could not bind
      modifies this
      ensures AsRecord() == old(AsRecord()).(hasListener := true, running := true)
    {
      hasListener := true;
      isRunning := true;
    }

    /**
     * Lowers the run flag, then stops the listener. A record whose listener was
     * never started has none to stop: `stopped` is false for that failure,
     * which happens after the flag is already down.
     */
    method StopListening() returns (stopped: bool)
      modifies this
      ensures AsRecord() == old(AsRecord()).(running := false)
      ensures stopped == hasListener
    {
      isRunning := false;
      stopped := hasListener;
    }
  }
}

/**
 * The forwarding loop run for each external client accepted on a device's
 * relay port. Other threads may change the record's Client and run flag while
 * the loop runs, so each iteration is given what it observes of them.
 */
module Relay {
  import opened Wrappers
  import opened Devices

  /** One read from the external client: the bytes it returned (none at end of stream), or an exception. */
  datatype ReadResult = Bytes(data: seq<byte>) | ReadFailed

  /**
   * One iteration: the run flag seen by the loop test, the read, the record's
   * Client when the device stream is looked up, and whether writing to it succeeds.
   */
  datatype Step = Step(running: bool, read: ReadResult, client: Option<ConnId>, writeSucceeds: bool)

  /** One chunk written, whole, to a device's control connection. */
  datatype Delivery = Delivery(conn: ConnId, data: seq<byte>)

  /**
   * Why forwarding ended; `Waiting` means the loop is still blocked on its
   * next read. For every other ending the external connection is closed once.
   */
  datatype Ending = Stopped | EndOfStream | ReadError | NoDevice | WriteError | Waiting

  datatype Outcome = Outcome(delivered: seq<Delivery>, ending: Ending)

  /** An iteration that forwards its chunk and goes round again. */
  predicate Forwards(s: Step)
  {
    s.running && s.read.Bytes? && |s.read.data| > 0 && s.client.Some? && s.writeSucceeds
  }

  /** The ending an iteration that does not forward causes. */
  function EndingOf(s: Step): (e: Ending)
    requires !Forwards(s)
    ensures e != Waiting
  {
    if !s.running then Stopped
    else if s.read.ReadFailed? then ReadError
    else if |s.read.data| == 0 then EndOfStream
    else if s.client.None? then NoDevice
    else WriteError
  }

  /** The forwarding rule: what the loop writes, and how it ends, for a run of iterations. */
  function Forward(steps: seq<Step>): (r: Outcome)
    ensures |r.delivered| <= |steps|
    ensures r.ending == Waiting ==> |r.delivered| == |steps|
  {
    if |steps| == 0 then Outcome([], Waiting)
    else if !Forwards(steps[0]) then Outcome([], EndingOf(steps[0]))
    else
      var rest := Forward(steps[1..]);
      Outcome([Delivery(steps[0].client.value, steps[0].read.data)] + rest.delivered, rest.ending)
  }

  /**
   * Forwarding delivers the chunks of the leading forwarding iterations, each
   * to the connection observed at that iteration, and ends with the first
   * iteration that does not forward; nothing after it is delivered.
   */
  lemma {:induction false} ForwardCharacterized(steps: seq<Step>)
    ensures var r := Forward(steps); var n := |r.delivered|;
      n <= |steps| &&
      (forall i :: 0 <= i < n ==>
        Forwards(steps[i]) && r.delivered[i] == Delivery(steps[i].client.value, steps[i].read.data)) &&
      (n < |steps| ==> !Forwards(steps[n]) && r.ending == EndingOf(steps[n])) &&
      (n == |steps| ==> r.ending == Waiting)
  {
    if |steps| > 0 && Forwards(steps[0]) {
      ForwardCharacterized(steps[1..]);
      var r := Forward(steps);
      var rest := Forward(steps[1..]);
      assert forall i :: 1 <= i <= |rest.delivered| ==> r.delivered[i] == rest.delivered[i - 1] && steps[i] == steps[1..][i - 1];
    }
  }

  /** All the bytes written, in write order. */
  function Stream(ds: seq<Delivery>): seq<byte>
  {
    if |ds| == 0 then [] else ds[0].data + Stream(ds[1..])
  }

  /** All the bytes read by a run of iterations, in read order. */
  function ReadBytes(steps: seq<Step>): seq<byte>
  {
    if |steps| == 0 then []
    else (if steps[0].read.Bytes? then steps[0].read.data else []) + ReadBytes(steps[1..])
  }

  /** The bytes written are exactly the bytes read before forwarding ended, in the same order. */
  lemma {:induction false} ForwardPreservesBytes(steps: seq<Step>)
    ensures Stream(Forward(steps).delivered) == ReadBytes(steps[..|Forward(steps).delivered|])
  {
    if |steps| > 0 && Forwards(steps[0]) {
      ForwardPreservesBytes(steps[1..]);
      var n := |Forward(steps[1..]).delivered|;
      assert steps[..n + 1][1..] == steps[1..][..n];
    }
  }

  /** A zero-length read ends forwarding: neither its iteration nor a later one writes anything. */
  lemma ZeroReadEndsForwarding(steps: seq<Step>, j: nat)
    requires j < |steps| && steps[j].running && steps[j].read == Bytes([])
    ensures |Forward(steps).delivered| <= j
    ensures |Forward(steps).delivered| == j ==> Forward(steps).ending == EndOfStream
  {
    ForwardCharacterized(steps);
  }

  /**
   * Once Client is null or a write fails, no later chunk reaches any device;
   * when that iteration is reached with a non-empty read, it gives the ending.
   */
  lemma LostDeviceEndsForwarding(steps: seq<Step>, j: nat)
    requires j < |steps| && (steps[j].client.None? || !steps[j].writeSucceeds)
    ensures |Forward(steps).delivered| <= j
    ensures |Forward(steps).delivered| == j && steps[j].running && steps[j].read.Bytes? && |steps[j].read.data| > 0 ==>
      Forward(steps).ending == (if steps[j].client.None? then NoDevice else WriteError)
  {
    ForwardCharacterized(steps);
  }

  /**
   * Client is looked up again for every chunk: when the device reconnects
   * between two forwarded chunks, the later chunk goes to the new connection.
   */
  lemma ReconnectRedirects(steps: seq<Step>, i: nat, j: nat)
    requires i < j < |Forward(steps).delivered|
    ensures steps[i].client == Some(Forward(steps).delivered[i].conn)
    ensures steps[j].client == Some(Forward(steps).delivered[j].conn)
    ensures Forward(steps).delivered[i].conn == Forward(steps).delivered[j].conn <==> steps[i].client == steps[j].client
  {
    ForwardCharacterized(steps);
  }

  /** The run flag is tested before every read: once it is seen down, nothing more is written. */
  lemma StoppedEndsForwarding(steps: seq<Step>, j: nat)
    requires j < |steps| && !steps[j].running
    ensures |Forward(steps).delivered| <= j
  {
    ForwardCharacterized(steps);
  }

  /** The read-and-forward loop of HandleIncomingData. */
  method HandleIncomingData(steps: seq<Step>) returns (delivered: seq<Delivery>, ending: Ending)
    ensures Outcome(delivered, ending) == Forward(steps)
  {
    delivered := [];
    ending := Waiting;
    var i := 0;
    while i < |steps|
      invariant 0 <= i <= |steps|
      invariant Forward(steps) == Outcome(delivered + Forward(steps[i..]).delivered, Forward(steps[i..]).ending)
      invariant ending == Waiting
    {
      var step := steps[i];
      if !step.running {
        ending := Stopped;
        break;
      }
      if step.read.ReadFailed? {
        ending := ReadError;
        break;
      }
      var bytesRead := |step.read.data|;
      if bytesRead == 0 {
        ending := EndOfStream;
        break;
      }
      if step.client.None? {
        ending := NoDevice;
        break;
      }
      if !step.writeSucceeds {
        ending := WriteError;
        break;
      }
      assert steps[i..][1..] == steps[i + 1..];
      delivered := delivered + [Delivery(step.client.value, step.read.data)];
      i := i + 1;
    }
    assert ending == Waiting ==> steps[i..] == [];
  }
}
