/** The connection driver (crates/mqtt/v3/src/connection.rs). The code between
    two await points is one step; what an await point delivers is a stimulus. */
module Connection {
  import opened Backoff
  import opened Channel
  import opened Link
  import opened Mqtt

  datatype ReturnCode =
    | Success
    | RefusedProtocolVersion
    | BadClientId
    | ServiceUnavailable
    | BadUserNamePassword
    | NotAuthorized

  datatype IoKind = AddrInUse | PermissionDenied | InvalidInput | OtherKind

  datatype StateError = InvalidState | EmptySubscription | OtherStateError

  datatype ConnectionError =
    | Tls
    | NotConnAck
    | RequestsDone
    | ConnectionRefused(code: ReturnCode)
    | Io(kind: IoKind)
    | MqttState(error: StateError)
    | NetworkTimeout
    | FlushTimeout

  predicate IsFatal(e: ConnectionError) {
    match e
    case Tls => true
    case NotConnAck => true
    case RequestsDone => true
    case ConnectionRefused(code) =>
      code.RefusedProtocolVersion? || code.BadClientId? || code.BadUserNamePassword? || code.NotAuthorized?
    case Io(kind) => !kind.OtherKind?
    case MqttState(error) => !error.OtherStateError?
    case _ => false
  }

  /** What travels through the request queue: samples of the scheduler's
      entries and the driver's own status and DISCONNECT requests. */
  datatype Request = Sample(entry: nat, packet: Packet) | Online | Offline | Disconnect

  /** Where the driver awaits: the event loop, the reconnect sleep, the final
      flush; or how it ended. */
  datatype DriverPc = Polling | Sleeping | Flushing | Stopped(fatal: bool)

  datatype PollResult =
    | ConnAck(code: ReturnCode)
    | DisconnectSent
    | OtherEvent
    | Failed(error: ConnectionError, reason: string)

  datatype Stimulus = Polled(result: PollResult) | SleepOver | ShutdownSeen | GraceOver

  datatype Conn = Conn(pc: DriverPc, backoff: Schedule, link: Watch, queue: Queue<Request>) {

    /** The driver returns: its sender and its end of the queue are dropped. */
    function Stop(fatal: bool): Conn {
      this.(pc := Stopped(fatal), link := link.(closed := true), queue := queue.(open := false))
    }

    function Finish(): Conn {
      this.(link := link.Set(Disconnected("shutdown"))).Stop(false)
    }

    /** `unit` is the uniform draw that a retry would take from the generator. */
    function OnPoll(result: PollResult, unit: real): Conn {
      match result
      case ConnAck(code) =>
        if code == Success then
          this.(backoff := backoff.Reset(), link := link.Set(Connected), queue := queue.TryPush(Online))
        else this
      case Failed(error, reason) =>
        if IsFatal(error) then this.(link := link.Set(FatalExit(reason))).Stop(true)
        else
          var (delay, advanced) := backoff.NextDelay(unit);
          this.(pc := Sleeping, backoff := advanced,
                link := link.Set(Disconnected(reason)).Set(Reconnecting(delay)))
      case _ => this
    }

    function OnDisconnect(): Conn {
      if link.value == Connected then
        this.(pc := Flushing, queue := queue.TryPush(Offline).TryPush(Disconnect))
      else Finish()
    }

    function OnFlush(result: PollResult): Conn {
      if result.DisconnectSent? || result.Failed? then Finish() else this
    }

    /** One step; a stimulus the driver is not waiting for changes nothing. */
    function On(s: Stimulus, unit: real): Conn {
      match (pc, s)
      case (Polling, Polled(result)) => OnPoll(result, unit)
      case (Polling, ShutdownSeen) => OnDisconnect()
      case (Sleeping, SleepOver) => this.(pc := Polling)
      case (Sleeping, ShutdownSeen) => Stop(false)
      case (Flushing, Polled(result)) => OnFlush(result)
      case (Flushing, GraceOver) => Finish()
      case _ => this
    }

    function Drive(script: seq<Stimulus>, units: seq<real>): Conn
      requires |units| == |script|
      decreases |script|
    {
      if script == [] then this
      else
        var n := |script| - 1;
        Drive(script[..n], units[..n]).On(script[n], units[n])
    }
  }

  /** The driver task. `pc` remembers the await point at which it is parked. */
  class Driver {
    var pc: DriverPc
    const backoff: Timer
    const link: Cell
    const client: Requests<Request>

    ghost function View(): Conn
      reads this, backoff, link, client
    {
      Conn(pc, backoff.View(), link.View(), client.View())
    }

    constructor (capacity: nat, hash: bv64)
      ensures View() == Conn(Polling, DEFAULT, Watch(Connecting, 0, false), Queue(capacity, true, [], []))
      ensures fresh(backoff) && fresh(link) && fresh(client) && backoff.rng != 0
    {
      pc := Polling;
      backoff := new Timer(1.0, 60.0, Finite(2.0), hash);
      link := new Cell();
      client := new Requests(capacity);
      new;
      backoff.WithJitter(Finite(0.2));
    }

    method Return(fatal: bool)
      modifies this, link, client
      ensures View() == old(View()).Stop(fatal)
    {
      link.Close();
      client.Close();
      pc := Stopped(fatal);
    }

    /** One pass of the loop in `run` after the event loop answered. */
    method HandlePoll(result: PollResult)
      modifies this, backoff, link, client
      ensures View() == old(View()).OnPoll(result, old(backoff.Draw()))
    {
      match result {
        case ConnAck(code) =>
          if code == Success {
            backoff.Reset();
            link.Set(Connected);
            var _ := client.TryPublish(Online);
          }
        case Failed(error, reason) =>
          if IsFatal(error) {
            link.Set(FatalExit(reason));
            Return(true);
          } else {
            var delay := backoff.NextDelay();
            link.Set(Disconnected(reason));
            link.Set(Reconnecting(delay));
            pc := Sleeping;
          }
        case _ =>
      }
    }

    /** `disconnect` up to its first await point. */
    method BeginDisconnect()
      modifies this, link, client
      ensures View() == old(View()).OnDisconnect()
    {
      if link.value == Connected {
        var _ := client.TryPublish(Offline);
        var _ := client.TryPublish(Disconnect);
        pc := Flushing;
      } else {
        FinishDisconnect();
      }
    }

    method FinishDisconnect()
      modifies this, link, client
      ensures View() == old(View()).Finish()
    {
      link.Set(Disconnected("shutdown"));
      Return(false);
    }

    method Handle(s: Stimulus)
      modifies this, backoff, link, client
      ensures View() == old(View()).On(s, old(backoff.Draw()))
    {
      match s {
        case Polled(result) =>
          if pc == Polling {
            HandlePoll(result);
          } else if pc == Flushing && (result.DisconnectSent? || result.Failed?) {
            FinishDisconnect();
          }
        case SleepOver =>
          if pc == Sleeping {
            pc := Polling;
          }
        case ShutdownSeen =>
          if pc == Polling {
            BeginDisconnect();
          } else if pc == Sleeping {
            Return(false);
          }
        case GraceOver =>
          if pc == Flushing {
            FinishDisconnect();
          }
      }
    }

    /** The driver's loop, fed with what its await points deliver; the draws
        are whatever the generator yields on the way. */
    method Run(script: seq<Stimulus>) returns (ghost units: seq<real>)
      modifies this, backoff, link, client
      ensures |units| == |script| && (forall u | u in units :: 0.0 <= u < 1.0)
      ensures View() == old(View()).Drive(script, units)
    {
      units := [];
      for i := 0 to |script|
        invariant |units| == i && (forall u | u in units :: 0.0 <= u < 1.0)
        invariant View() == old(View()).Drive(script[..i], units)
      {
        ghost var unit := backoff.Draw();
        Handle(script[i]);
        assert script[..i + 1][..i] == script[..i] && (units + [unit])[..i] == units;
        units := units + [unit];
      }
      assert script[..|script|] == script;
    }
  }
}
