/** What every run of the agent guarantees, whatever the interleaving. */
module Guarantees {
  import opened Agent
  import opened Backoff
  import opened Basics
  import opened Channel
  import opened Connection
  import opened Link
  import opened Framer
  import opened Mqtt
  import opened Publisher
  import opened Scheduler

  function Reach(entries: nat, capacity: nat, es: seq<Event>): Agent {
    Start(entries, capacity).Run(es)
  }

  // ------------------------------------------------------------- pause and resume

  /** A paused scheduler never sleeps through a restored connection: the change
      is still unseen, so the early wake is ready, and it starts a cycle. */
  lemma NoLostWakeUp(entries: nat, capacity: nat, es: seq<Event>)
    ensures var a := Reach(entries, capacity, es);
            a.loop.pc.Waiting? && a.loop.paused && a.conn.link.value.Connected? ==>
              && a.Possible(Awake(Changed))
              && var b := a.Step(Awake(Changed));
                 && b.loop.pc == b.loop.StartAt(0)
                 && !b.loop.paused && b.loop.skipped == 0
                 && b.loop.seen == b.conn.link.version
  {
    Reachable(entries, capacity, es);
  }

  /** A cycle starts only on a wake-up that finds the link connected, and while
      it runs a link change since then is one the scheduler has not seen. */
  lemma CyclesFollowConnected(entries: nat, capacity: nat, es: seq<Event>, e: Event)
    ensures var a := Reach(entries, capacity, es);
            var b := a.Step(e);
            && (!a.loop.pc.InCycle? && b.loop.pc.InCycle? ==>
                  e.Awake? && a.conn.link.value.Connected? && b.loop.pc == InCycle(0))
            && (a.loop.pc.InCycle? && !a.conn.link.value.Connected? ==> a.loop.seen < a.conn.link.version)
            && (a.loop.skipped > 0 <==> a.loop.paused)
  {
    Reachable(entries, capacity, es);
  }

  /** Whatever wakes the waiting loop, in any reachable state, it does what the
      link asks for: a whole cycle if it is connected, paused before or not, the
      end after a fatal error, one more skipped cycle otherwise. */
  lemma WakeExact(entries: nat, capacity: nat, es: seq<Event>, how: Wake)
    ensures var a := Reach(entries, capacity, es);
            a.LoopHears(how) ==>
              var b := a.Step(Awake(how));
              && b.loop.failures == a.loop.failures && |b.loop.failures| == entries
              && b.loop.seen == a.conn.link.version
              && (a.conn.link.value.Connected? ==>
                    && b.loop.pc == (if entries > 0 then InCycle(0) else Waiting)
                    && b.loop.published == 0 && b.loop.skipped == 0 && !b.loop.paused && b.loop.everConnected)
              && (a.conn.link.value.FatalExit? ==> b.loop.pc == Returned)
              && (!a.conn.link.value.Connected? && !a.conn.link.value.FatalExit? ==>
                    && b.loop.pc == Waiting && b.loop.paused
                    && b.loop.skipped == a.loop.skipped + 1 && b.loop.everConnected == a.loop.everConnected)
  {
    Reachable(entries, capacity, es);
    CapacityFixed(Start(entries, capacity), es);
  }

  /** Cycles that begin during a run. */
  function CyclesBegun(a: Agent, es: seq<Event>): nat {
    if es == [] then 0
    else
      var before := es[..|es| - 1];
      CyclesBegun(a, before) + if !a.Run(before).loop.pc.InCycle? && a.Run(es).loop.pc.InCycle? then 1 else 0
  }

  /** Wake-ups of the loop that find the link connected. */
  function ConnectedWakes(a: Agent, es: seq<Event>): nat {
    if es == [] then 0
    else
      var before := es[..|es| - 1];
      var e := es[|es| - 1];
      ConnectedWakes(a, before)
      + if e.Awake? && a.Run(before).LoopHears(e.how) && a.Run(before).conn.link.value.Connected? then 1 else 0
  }

  lemma CycleStep(a: Agent, e: Event)
    requires Inv(a) && |a.loop.failures| > 0
    ensures !a.loop.pc.InCycle? && a.Step(e).loop.pc.InCycle? <==>
            e.Awake? && a.LoopHears(e.how) && a.conn.link.value.Connected?
  {
  }

  /** Every wake-up that finds the link connected begins a cycle, and nothing else
      does: over any run there are as many of the one as of the other. */
  lemma {:induction false} CyclesAreConnectedWakes(entries: nat, capacity: nat, es: seq<Event>)
    requires entries > 0
    ensures CyclesBegun(Start(entries, capacity), es) == ConnectedWakes(Start(entries, capacity), es)
  {
    if es != [] {
      hide Inv;
      var before := es[..|es| - 1];
      CyclesAreConnectedWakes(entries, capacity, before);
      Reachable(entries, capacity, before);
      CapacityFixed(Start(entries, capacity), before);
      CycleStep(Start(entries, capacity).Run(before), es[|es| - 1]);
    }
  }

  // ------------------------------------------------------------- outages

  predicate NoWakes(es: seq<Event>) {
    forall e | e in es :: !e.Awake?
  }

  function Acks(es: seq<Event>): nat {
    if es == [] then 0
    else
      var e := es[|es| - 1];
      Acks(es[..|es| - 1]) + if e.Drive? && Acknowledged(e.stimulus) then 1 else 0
  }

  function Turns(a: Agent): nat {
    |a.trace.log|
  }

  lemma TurnsStep(a: Agent, e: Event)
    requires Inv(a) && (e.Awake? ==> !a.conn.link.value.Connected?)
    ensures var b := a.Step(e);
            Turns(b) + b.loop.Remaining() <= Turns(a) + a.loop.Remaining()
  {
  }

  /** Only a successful CONNACK ends an outage. */
  lemma LinkStaysDown(a: Agent, e: Event)
    requires Inv(a) && !a.conn.link.value.Connected?
    requires !(e.Drive? && Acknowledged(e.stimulus))
    ensures !a.Step(e).conn.link.value.Connected?
  {
  }

  /** Until it next observes the link the scheduler only finishes the running
      cycle: every turn uses up one remaining entry. */
  lemma {:induction false} UntilNextWake(a: Agent, es: seq<Event>)
    requires Inv(a) && NoWakes(es)
    ensures var b := a.Run(es);
            Turns(b) + b.loop.Remaining() <= Turns(a) + a.loop.Remaining()
  {
    if es != [] {
      var before := es[..|es| - 1];
      assert es[|es| - 1] in es;
      InvRun(a, before);
      UntilNextWake(a, before);
      TurnsStep(a.Run(before), es[|es| - 1]);
    }
  }

  /** However long an outage lasts and however often the scheduler wakes, it
      takes at most the turns left in the cycle that was running. */
  lemma {:induction false} OutageBound(a: Agent, es: seq<Event>)
    requires Inv(a) && !a.conn.link.value.Connected? && Acks(es) == 0
    ensures var b := a.Run(es);
            && !b.conn.link.value.Connected?
            && Turns(b) + b.loop.Remaining() <= Turns(a) + a.loop.Remaining()
  {
    if es != [] {
      var before := es[..|es| - 1];
      InvRun(a, before);
      OutageBound(a, before);
      TurnsStep(a.Run(before), es[|es| - 1]);
      LinkStaysDown(a.Run(before), es[|es| - 1]);
    }
  }

  /** A fatal error is the driver's last act: the link never changes again,
      nothing more enters the queue, the running cycle is the last one, and the
      next wake-up ends the scheduler's loop. */
  lemma {:induction false} FatalIsFinal(a: Agent, es: seq<Event>)
    requires Inv(a) && a.conn.link.value.FatalExit?
    ensures var b := a.Run(es);
            && b.conn == a.conn
            && Turns(b) + b.loop.Remaining() <= Turns(a) + a.loop.Remaining()
            && (forall how | b.LoopHears(how) :: b.Step(Awake(how)).loop.pc.Returned?)
            && (b.loop.pc.Waiting? ==> b.LoopHears(Tick))
  {
    if es != [] {
      var before := es[..|es| - 1];
      InvRun(a, before);
      FatalIsFinal(a, before);
      TurnsStep(a.Run(before), es[|es| - 1]);
      FatalFreezes(a.Run(before), es[|es| - 1]);
    }
    InvRun(a, es);
    FatalWake(a.Run(es));
  }

  lemma FatalFreezes(a: Agent, e: Event)
    requires Inv(a) && a.conn.link.value.FatalExit?
    ensures a.Step(e).conn == a.conn
  {
    if e.Answer? && a.Possible(e) {
      TurnEffect(a.conn.queue, a.loop.pc.entry, e.outcome);
      assert a.conn.queue.pending + [] == a.conn.queue.pending && a.conn.queue.sent + [] == a.conn.queue.sent;
    }
  }

  lemma FatalWake(a: Agent)
    requires Inv(a) && a.conn.link.value.FatalExit?
    ensures forall how | a.LoopHears(how) :: a.Step(Awake(how)).loop.pc.Returned?
  {
  }

  /** The process exits with status 1 only after a fatal connection error, and a
      fatal error leads there unless a signal comes first: a scheduler that waits
      returns at its next wake-up, and main sees the loop end. */
  lemma ExitStatus(entries: nat, capacity: nat, es: seq<Event>)
    ensures var a := Reach(entries, capacity, es);
            && (a.main.ShuttingDown? ==> a.main.exit == 0 || (a.main.exit == 1 && a.conn.pc == Stopped(true)))
            && (a.conn.link.value.FatalExit? && a.main.Running? ==>
                  && (a.loop.pc.Waiting? ==> a.Step(Awake(Tick)).Step(LoopEnded).main == ShuttingDown(1))
                  && (a.loop.pc.Returned? ==> a.Step(LoopEnded).main == ShuttingDown(1)))
  {
    var a := Reach(entries, capacity, es);
    Reachable(entries, capacity, es);
    if a.conn.link.value.FatalExit? && a.loop.pc.Waiting? {
      FatalWake(a);
      assert a.LoopHears(Tick);
    }
  }

  /** A signal ends the agent with status 0: the scheduler is dropped where it
      stands and the driver told, and neither connection nor queue is touched. */
  lemma SignalShutsDown(entries: nat, capacity: nat, es: seq<Event>)
    ensures var a := Reach(entries, capacity, es);
            var b := a.Step(Signal);
            a.main.Running? ==>
              b.main == ShuttingDown(0) && b.shutdown && b.loop.pc == Dropped && b.conn == a.conn && Turns(b) == Turns(a)
  {
    Reachable(entries, capacity, es);
  }

  lemma ShutdownStep(a: Agent, e: Event)
    requires LoopInv(a) && a.main.ShuttingDown?
    ensures a.Step(e).main == a.main && a.Step(e).loop == a.loop && Turns(a.Step(e)) == Turns(a)
  {
    hide Conn.On, Turn, Schedule.NextDelay;
  }

  lemma AbortStops(a: Agent)
    requires a.main.ShuttingDown?
    ensures a.Step(Abort).conn.pc.Stopped?
  {
  }

  /** Once it has begun, a shutdown is final: the exit status stays, no entry has
      another turn, and giving up on the driver stops it. */
  lemma {:induction false} ShutdownIsFinal(a: Agent, es: seq<Event>)
    requires Inv(a) && a.main.ShuttingDown?
    ensures var b := a.Run(es);
            b.main == a.main && b.loop == a.loop && Turns(b) == Turns(a) && b.Step(Abort).conn.pc.Stopped?
  {
    if es != [] {
      hide Conn.On, LinkInv, ShowInv, LoopInv, QueueInv, DelayInv, Turn;
      var before := es[..|es| - 1];
      InvRun(a, before);
      ShutdownIsFinal(a, before);
      ShutdownStep(a.Run(before), es[|es| - 1]);
    }
    AbortStops(a.Run(es));
  }

  // ------------------------------------------------------------- status messages

  /** Of the states in between, an observer sees `Disconnected` only as the mark
      of a clean shutdown, and `Reconnecting` once the driver has begun to wait. */
  lemma ObservableStates(entries: nat, capacity: nat, es: seq<Event>)
    ensures var a := Reach(entries, capacity, es);
            && (a.conn.link.value.Disconnected? ==>
                  a.conn.link.value.reason == "shutdown" && a.conn.pc == Stopped(false) && a.shutdown)
            && (a.conn.pc.Sleeping? ==> a.conn.link.value.Reconnecting?)
            && (a.conn.link.value.FatalExit? <==> a.conn.pc == Stopped(true))
  {
    Reachable(entries, capacity, es);
  }

  /** While the driver polls or sleeps, the link shows the history of the
      connection: connected exactly if the last thing that happened to it was a
      success, waiting to reconnect exactly after a retried error. */
  lemma LinkShowsHistory(entries: nat, capacity: nat, es: seq<Event>)
    ensures var a := Reach(entries, capacity, es);
            a.conn.pc.Polling? || a.conn.pc.Sleeping? ==>
              && (a.conn.link.value.Connected? <==> a.trace.connacks > 0 && a.trace.streak == 0)
              && (a.conn.link.value.Reconnecting? <==> a.trace.streak > 0)
              && (a.conn.link.value.Connecting? <==> a.trace.connacks == 0 && a.trace.streak == 0)
  {
    Reachable(entries, capacity, es);
  }

  /** The errors that end the driver, and those it retries, one by one. */
  lemma FatalErrors(e: ConnectionError)
    ensures IsFatal(e) <==>
            e in {
              Tls, NotConnAck, RequestsDone,
              ConnectionRefused(RefusedProtocolVersion), ConnectionRefused(BadClientId),
              ConnectionRefused(BadUserNamePassword), ConnectionRefused(NotAuthorized),
              Io(AddrInUse), Io(PermissionDenied), Io(InvalidInput),
              MqttState(InvalidState), MqttState(EmptySubscription)}
    ensures !IsFatal(e) <==>
            e in {
              ConnectionRefused(Success), ConnectionRefused(ServiceUnavailable),
              Io(OtherKind), MqttState(OtherStateError), NetworkTimeout, FlushTimeout}
  {
  }

  lemma AckEffect(c: Conn, unit: real)
    requires c.pc.Polling?
    ensures var d := c.On(Polled(ConnAck(Success)), unit);
            && d.pc == Polling && d.link.value == Connected && d.backoff == c.backoff.Reset()
            && d.queue.sent == c.queue.sent + (if c.queue.Free() > 0 then [Online] else [])
            && (c.link.value == Connected <==> d.link.version == c.link.version)
  {
    assert c.queue.sent + [] == c.queue.sent;
  }

  lemma FailureEffect(c: Conn, e: ConnectionError, reason: string, unit: real)
    requires c.pc.Polling?
    ensures var d := c.On(Polled(Failed(e, reason)), unit);
            && d.queue.sent == c.queue.sent && d.queue.pending == c.queue.pending
            && if IsFatal(e) then d.pc == Stopped(true) && d.link.value == FatalExit(reason)
               else d.pc == Sleeping && d.link.value == Reconnecting(c.backoff.NextDelay(unit).0)
  {
    hide Schedule.NextDelay, IsFatal;
  }

  /** A successful CONNACK, in any reachable state in which the driver polls, shows
      `Connected`, restarts the delays and offers one `online`. */
  lemma ConnackConnects(entries: nat, capacity: nat, es: seq<Event>, unit: real)
    requires 0.0 <= unit < 1.0
    ensures var a := Reach(entries, capacity, es);
            a.conn.pc.Polling? && !a.shutdown ==>
              var b := a.Step(Drive(Polled(ConnAck(Success)), unit));
              && b.conn.pc == Polling && b.conn.link.value == Connected
              && b.conn.backoff.next == 1.0
              && b.conn.queue.sent == a.conn.queue.sent + (if a.conn.queue.Free() > 0 then [Online] else [])
              && (a.conn.link.value == Connected <==> b.conn.link.version == a.conn.link.version)
              && b.trace.connacks == a.trace.connacks + 1 && b.trace.streak == 0
  {
    var a := Reach(entries, capacity, es);
    Reachable(entries, capacity, es);
    if a.conn.pc.Polling? {
      hide Conn.On, Queue.Free, LinkInv, ShowInv, LoopInv, QueueInv, InBand;
      AckEffect(a.conn, unit);
    }
  }

  /** A fatal error stops a polling driver and shows why; any other error sends it
      to sleep on a delay of its band, which the link shows. The queue is kept. */
  lemma ErrorExact(entries: nat, capacity: nat, es: seq<Event>, e: ConnectionError, reason: string, unit: real)
    requires 0.0 <= unit < 1.0
    ensures var a := Reach(entries, capacity, es);
            a.conn.pc.Polling? && !a.shutdown ==>
              var b := a.Step(Drive(Polled(Failed(e, reason)), unit));
              && b.conn.queue.sent == a.conn.queue.sent && b.conn.queue.pending == a.conn.queue.pending
              && if IsFatal(e) then b.conn.pc == Stopped(true) && b.conn.link.value == FatalExit(reason)
                 else
                   && b.conn.pc == Sleeping && b.conn.link.value.Reconnecting?
                   && InBand(b.conn.link.value.seconds, a.trace.streak)
  {
    var a := Reach(entries, capacity, es);
    Reachable(entries, capacity, es);
    if a.conn.pc.Polling? {
      RetryDelay(a.conn.backoff, a.trace.streak, unit);
      hide Conn.On, LinkInv, ShowInv, LoopInv, QueueInv, InBand, IsFatal;
      FailureEffect(a.conn, e, reason, unit);
    }
  }

  /** No other answer of the event loop does anything, nor does a refused CONNACK
      that is reported as an event. */
  lemma OtherAnswersDoNothing(a: Agent, result: PollResult, unit: real)
    requires a.conn.pc.Polling? && !result.Failed? && result != ConnAck(Success)
    ensures a.Step(Drive(Polled(result), unit)) == a
  {
  }

  /** A flushing driver waits for its DISCONNECT to be written: that, a failed poll
      or the end of the grace period stops it at once, anything else does nothing. */
  lemma FlushEnds(entries: nat, capacity: nat, es: seq<Event>, s: Stimulus, unit: real)
    requires 0.0 <= unit < 1.0
    ensures var a := Reach(entries, capacity, es);
            var b := a.Step(Drive(s, unit));
            a.conn.pc.Flushing? ==>
              if s.GraceOver? || s == Polled(DisconnectSent) || (s.Polled? && s.result.Failed?) then
                && b.conn.pc == Stopped(false) && b.conn.link.value == Disconnected("shutdown")
                && b.conn.queue.sent == a.conn.queue.sent
              else b.conn == a.conn
  {
    Reachable(entries, capacity, es);
  }

  lemma InvStep(a: Agent, e: Event)
    requires Inv(a)
    ensures Inv(a.Step(e))
  {
    hide LinkInv, ShowInv, LoopInv, QueueInv, DelayInv;
    LinkStep(a, e);
    ShowStep(a, e);
    LoopStep(a, e);
    QueueStep(a, e);
    DelayStep(a, e);
  }

  lemma TurnKeepsTaken(q: Queue<Request>, entry: nat, outcome: Outcome)
    requires q.Valid()
    ensures var q' := Turn(q, entry, outcome).1;
            |q'.pending| <= |q'.sent| && q'.Taken() == q.Taken()
  {
    hide Turn;
    TurnEffect(q, entry, outcome);
  }

  lemma DriverKeepsTaken(c: Conn, s: Stimulus, unit: real)
    requires c.queue.Valid()
    ensures var q' := c.On(s, unit).queue;
            |q'.pending| <= |q'.sent| && q'.Taken() == c.queue.Taken()
  {
    hide Conn.On;
    DriverQueue(c, s, unit);
  }

  lemma StepTakes(a: Agent, e: Event)
    requires a.conn.queue.Valid()
    ensures var q, q' := a.conn.queue, a.Step(e).conn.queue;
            && |q'.pending| <= |q'.sent|
            && q'.Taken() == q.Taken() + (if e.Take? && a.Possible(e) then q.pending[..e.count] else [])
  {
    hide Turn, Conn.On;
    var q := a.conn.queue;
    assert q.Taken() + [] == q.Taken();
    if a.Possible(e) {
      match e
      case Take(n) => q.DrainTakesOldest(n);
      case Answer(outcome) => TurnKeepsTaken(q, a.loop.pc.entry, outcome);
      case Drive(s, unit) => DriverKeepsTaken(a.conn, s, unit);
      case _ =>
    }
  }

  lemma QueueIsValid(a: Agent)
    requires Inv(a)
    ensures a.conn.queue.Valid() && a.conn.queue.sent == a.conn.queue.Taken() + a.conn.queue.pending
  {
    hide LinkInv, ShowInv, LoopInv, DelayInv, StatusLanguage;
  }

  /** Nothing that was queued is lost or overtaken: each step of the event loop
      takes the oldest requests, and no other step touches what was taken. */
  lemma TakenInOrder(entries: nat, capacity: nat, es: seq<Event>, e: Event)
    ensures var a := Reach(entries, capacity, es);
            var q, q' := a.conn.queue, a.Step(e).conn.queue;
            && q.Valid() && q'.Valid()
            && q'.Taken() == q.Taken() + (if e.Take? && a.Possible(e) then q.pending[..e.count] else [])
            && q'.sent == q'.Taken() + q'.pending
  {
    hide Inv, Turn, Conn.On;
    var a := Reach(entries, capacity, es);
    Reachable(entries, capacity, es);
    QueueIsValid(a);
    InvStep(a, e);
    QueueIsValid(a.Step(e));
    StepTakes(a, e);
  }

  /** The queue's whole history reads (sample | online)* [offline [DISCONNECT]],
      with no more `online`s than successful CONNACKs; what is still queued is
      its tail and never exceeds the capacity. */
  lemma StatusMessages(entries: nat, capacity: nat, es: seq<Event>)
    ensures var a := Reach(entries, capacity, es);
            var q := a.conn.queue;
            && StatusLanguage(q.sent)
            && Onlines(q.sent) <= a.trace.connacks
            && |q.pending| <= capacity && |q.pending| <= |q.sent|
            && q.pending == q.sent[|q.sent| - |q.pending|..]
  {
    Reachable(entries, capacity, es);
    CapacityFixed(Start(entries, capacity), es);
  }

  lemma {:induction false} CapacityFixed(a: Agent, es: seq<Event>)
    ensures a.Run(es).conn.queue.capacity == a.conn.queue.capacity
    ensures |a.Run(es).loop.failures| == |a.loop.failures|
  {
    if es != [] {
      var before := a.Run(es[..|es| - 1]);
      CapacityFixed(a, es[..|es| - 1]);
      var e := es[|es| - 1];
      if e.Answer? && before.Possible(e) {
        TurnEffect(before.conn.queue, before.loop.pc.entry, e.outcome);
      } else if e.Drive? && before.Possible(e) {
        DriverQueue(before.conn, e.stimulus, e.unit);
      }
    }
  }

  /** A shutdown from the connected state queues `offline` and DISCONNECT as far
      as they fit; from any other state nothing. Either way two steps stop the
      driver, and the link then shows the shutdown unless it was asleep. */
  lemma Farewell(a: Agent, unit: real)
    requires 0.0 <= unit < 1.0 && Inv(a) && a.shutdown && (a.conn.pc.Polling? || a.conn.pc.Sleeping?)
    ensures var seen := a.Step(Drive(ShutdownSeen, unit));
            var done := seen.Step(Drive(GraceOver, unit));
            var goodbye := if a.conn.link.value.Connected? then [Offline, Disconnect] else [];
            && seen.conn.queue.sent == a.conn.queue.sent + goodbye[..Min(|goodbye|, a.conn.queue.Free())]
            && done.conn.pc == Stopped(false)
            && (done.conn.link.value == Disconnected("shutdown") <==> !a.conn.pc.Sleeping?)
  {
    var q := a.conn.queue;
    TryPushTwice(q, Offline, Disconnect);
    q.PushAllExact([Offline, Disconnect]);
    assert q.sent + [] == q.sent;
  }

  // ------------------------------------------------------------- reconnect delays

  /** The k-th retried error in a row waits on min(2^(k-1), 60) seconds, give or
      take 20 %, and so does the delay that the link shows. */
  lemma DelaysFollowHistory(entries: nat, capacity: nat, es: seq<Event>)
    ensures var a := Reach(entries, capacity, es);
            && (forall i | 0 <= i < |a.trace.waits| ::
                  InBand(a.trace.waits[i].1, a.trace.waits[i].0) && 0.8 <= a.trace.waits[i].1 < 72.0)
            && (a.conn.link.value.Reconnecting? ==>
                  a.trace.streak > 0 && InBand(a.conn.link.value.seconds, a.trace.streak - 1))
  {
    Reachable(entries, capacity, es);
    var a := Reach(entries, capacity, es);
    forall i | 0 <= i < |a.trace.waits|
      ensures 0.8 <= a.trace.waits[i].1 < 72.0
    {
      DefaultBase(a.trace.waits[i].0);
      DefaultBand(Base(1.0, 60.0, 2.0, a.trace.waits[i].0), a.trace.waits[i].1);
    }
  }

  // ------------------------------------------------------------- queue capacity

  /** With framing off a turn queues one packet at most. */
  predicate Unframed(es: seq<Event>) {
    forall e | e in es && e.Answer? && e.outcome.Sampled? :: |e.outcome.packets| <= 1
  }

  /** What an entry's turn hands to the queue when its sample is published. */
  function Published(cfg: Settings, streamId: u64, encoded: Encoded, meta: Meta): Outcome {
    match Prepare(cfg, streamId, encoded, meta)
    case Err(_) => Refused
    case Ok(packets) => Sampled(packets)
  }

  ghost predicate AreSamples(requests: seq<Request>, entry: nat, packets: seq<Packet>) {
    && |requests| == |packets|
    && forall i | 0 <= i < |packets| :: requests[i] == Sample(entry, packets[i])
  }

  /** The turn of an entry is the publish of its sample: on a queue in the same
      state it succeeds and grows alike, and with framing off it queues at most
      one packet. */
  lemma TurnIsPublish(cfg: Settings, streamId: u64, encoded: Encoded, meta: Meta, q: Queue<Request>, p: Queue<Packet>, entry: nat)
    requires q.Free() == p.Free()
    ensures var outcome := Published(cfg, streamId, encoded, meta);
            var (ok, q') := Turn(q, entry, outcome);
            var (r, p') := Publish(cfg, streamId, encoded, meta, p);
            && ok == r.Ok?
            && q.sent <= q'.sent && p.sent <= p'.sent
            && AreSamples(q'.sent[|q.sent|..], entry, p'.sent[|p.sent|..])
            && (!cfg.framing && outcome.Sampled? ==> |outcome.packets| == 1)
  {
    TurnEffect(q, entry, Published(cfg, streamId, encoded, meta));
    PublishExact(cfg, streamId, encoded, meta, p);
  }

  /** A cycle that starts on an empty queue finds a free slot at every turn, even
      if nothing is drained, as long as the driver queues no more `online`s than
      the capacity exceeds the entries by. */
  lemma {:induction false} CapacityCoversCycle(a: Agent, es: seq<Event>)
    requires Inv(a) && a.loop.pc == InCycle(0) && a.conn.queue.pending == []
    requires NoWakes(es) && Unframed(es)
    requires |a.loop.failures| + Acks(es) <= a.conn.queue.capacity
    ensures var b := a.Run(es);
            && (b.loop.pc.InCycle? ==> |b.conn.queue.pending| <= b.loop.pc.entry + Acks(es))
            && (b.loop.pc.InCycle? && b.conn.queue.open ==> b.conn.queue.Free() > 0)
  {
    CapacityFixed(a, es);
    InvRun(a, es);
    if es != [] {
      var before := a.Run(es[..|es| - 1]);
      CapacityCoversCycle(a, es[..|es| - 1]);
      var e := es[|es| - 1];
      assert e in es;
      if e.Answer? && before.Possible(e) {
        TurnEffect(before.conn.queue, before.loop.pc.entry, e.outcome);
      } else if e.Drive? && before.Possible(e) {
        InvRun(a, es[..|es| - 1]);
        StatusGrowth(before.conn, e.stimulus, e.unit);
      }
    }
  }

  lemma StatusGrowth(c: Conn, s: Stimulus, unit: real)
    ensures var grown := |c.On(s, unit).queue.pending| - |c.queue.pending|;
            grown <= (if Acknowledged(s) then 1 else if c.pc.Polling? && s.ShutdownSeen? then 2 else 0)
  {
    DriverQueue(c, s, unit);
  }

  const LOST: Event := Drive(Polled(Failed(NetworkTimeout, "network timeout")), 0.0)

  const RETRY: Event := Drive(SleepOver, 0.0)

  const BACK: Event := Drive(Polled(ConnAck(Success)), 0.0)

  /** k reconnects, each a lost connection, the delay and a new CONNACK, then j
      turns of one packet each, nothing drained. */
  function Flood(k: nat, j: nat, p: Packet): seq<Event> {
    if j > 0 then Flood(k, j - 1, p) + [Answer(Sampled([p]))]
    else if k > 0 then Flood(k - 1, 0, p) + [LOST, RETRY, BACK]
    else []
  }

  ghost predicate CycleStarts(a: Agent) {
    && Inv(a) && a.loop.pc == InCycle(0) && a.conn.queue.pending == []
    && a.conn.pc.Polling? && !a.shutdown
  }

  ghost predicate Flooded(a: Agent, b: Agent, k: nat, j: nat) {
    && b.conn.pc.Polling? && !b.shutdown && b.conn.queue.open
    && b.conn.queue.capacity == a.conn.queue.capacity
    && |b.conn.queue.pending| == Min(a.conn.queue.capacity, k + j)
    && |b.loop.failures| == |a.loop.failures| && b.loop.pc == b.loop.StartAt(j)
    && Turns(b) == Turns(a) + j
  }

  lemma FloodTurn(a: Agent, b: Agent, k: nat, j: nat, p: Packet)
    requires Flooded(a, b, k, j) && j < |a.loop.failures|
    ensures Flooded(a, b.Step(Answer(Sampled([p]))), k, j + 1)
  {
    hide Turn;
    TurnEffect(b.conn.queue, j, Sampled([p]));
  }

  lemma FloodReconnect(a: Agent, b: Agent, k: nat)
    requires Flooded(a, b, k, 0)
    ensures Flooded(a, b.Step(LOST).Step(RETRY).Step(BACK), k + 1, 0)
  {
    hide Schedule.NextDelay;
    var sleeping := b.Step(LOST);
    assert sleeping.conn.pc == Sleeping && sleeping.conn.queue == b.conn.queue;
    assert sleeping.loop == b.loop && !sleeping.shutdown && sleeping.trace.log == b.trace.log;
  }

  lemma CountReconnect(es: seq<Event>)
    requires NoWakes(es) && Unframed(es)
    ensures var more := es + [LOST, RETRY, BACK];
            NoWakes(more) && Unframed(more) && Acks(more) == Acks(es) + 1
  {
    assert (es + [LOST, RETRY, BACK])[..|es| + 2] == es + [LOST, RETRY];
    assert (es + [LOST, RETRY])[..|es| + 1] == es + [LOST];
    assert (es + [LOST])[..|es|] == es;
    assert Acks(es + [LOST]) == Acks(es);
    assert Acks(es + [LOST, RETRY]) == Acks(es);
  }

  lemma {:induction false} FloodEvents(k: nat, j: nat, p: Packet)
    ensures NoWakes(Flood(k, j, p)) && Unframed(Flood(k, j, p)) && Acks(Flood(k, j, p)) == k
    decreases k + j
  {
    var es := Flood(k, j, p);
    if j > 0 {
      FloodEvents(k, j - 1, p);
      assert es[..|es| - 1] == Flood(k, j - 1, p);
    } else if k > 0 {
      FloodEvents(k - 1, 0, p);
      CountReconnect(Flood(k - 1, 0, p));
    }
  }

  lemma {:induction false} FloodRun(a: Agent, k: nat, j: nat, p: Packet)
    requires CycleStarts(a) && j <= |a.loop.failures|
    ensures Flooded(a, a.Run(Flood(k, j, p)), k, j)
    decreases k + j
  {
    var es := Flood(k, j, p);
    if j > 0 {
      hide Flooded;
      FloodRun(a, k, j - 1, p);
      assert es[..|es| - 1] == Flood(k, j - 1, p);
      FloodTurn(a, a.Run(Flood(k, j - 1, p)), k, j - 1, p);
    } else if k > 0 {
      hide Flooded;
      FloodRun(a, k - 1, 0, p);
      FloodReconnect(a, a.Run(Flood(k - 1, 0, p)), k - 1);
      RunThree(a, Flood(k - 1, 0, p), LOST, RETRY, BACK);
    }
  }

  lemma FullTurn(a: Agent, b: Agent, k: nat, j: nat, p: Packet)
    requires Flooded(a, b, k, j) && j < |a.loop.failures| && a.conn.queue.capacity <= k + j
    ensures var c := b.Step(Answer(Sampled([p])));
            Turns(c) > 0 && c.trace.log[Turns(c) - 1] == Attempt(j, false, Sampled([p]))
  {
    hide Turn;
    TurnEffect(b.conn.queue, j, Sampled([p]));
  }

  /** The bound is exact: one reconnect more and, if nothing leaves the queue, not
      even when a poll fails, the last entry of the cycle finds it full. */
  lemma CycleCanOverflow(a: Agent, m: nat, p: Packet)
    requires CycleStarts(a) && a.conn.queue.capacity == |a.loop.failures| + m
    ensures var es := Flood(m + 1, |a.loop.failures|, p);
            var b := a.Run(es);
            && NoWakes(es) && Unframed(es) && Acks(es) == m + 1
            && Turns(b) == Turns(a) + |a.loop.failures|
            && b.trace.log[Turns(b) - 1] == Attempt(|a.loop.failures| - 1, false, Sampled([p]))
  {
    var n := |a.loop.failures|;
    var es := Flood(m + 1, n, p);
    FloodEvents(m + 1, n, p);
    FloodRun(a, m + 1, n, p);
    FloodRun(a, m + 1, n - 1, p);
    assert es[..|es| - 1] == Flood(m + 1, n - 1, p);
    hide Flood;
    FullTurn(a, a.Run(Flood(m + 1, n - 1, p)), m + 1, n - 1, p);
  }

  lemma Connects(entries: nat, capacity: nat)
    requires 0 < capacity
    ensures var a := Start(entries, capacity);
            var b := a.Step(BACK);
            && b.conn.queue == Queue(capacity, true, [Online], [Online])
            && b.conn.pc == Polling && b.conn.link.value == Connected
            && b.loop == a.loop && !b.shutdown
  {
  }

  /** Such a cycle does start: connect, wake, let the event loop take `online`. */
  lemma CycleCanStart(entries: nat, capacity: nat)
    requires 0 < entries && 0 < capacity
    ensures var es := [BACK, Awake(Tick), Take(1)];
            var a := Reach(entries, capacity, es);
            CycleStarts(a) && a.conn.queue.capacity == capacity && |a.loop.failures| == entries
  {
    hide Inv, Conn.On;
    var a := Start(entries, capacity);
    Reachable(entries, capacity, [BACK, Awake(Tick), Take(1)]);
    RunThree(a, [], BACK, Awake(Tick), Take(1));
    assert [] + [BACK, Awake(Tick), Take(1)] == [BACK, Awake(Tick), Take(1)];
    Connects(entries, capacity);
  }

  // ------------------------------------------------------------- failure counters

  /** The results of one entry, oldest first. */
  function Results(log: seq<Attempt>, entry: nat): seq<bool> {
    if log == [] then []
    else
      var last := log[|log| - 1];
      Results(log[..|log| - 1], entry) + if last.entry == entry then [last.ok] else []
  }

  ghost predicate CounterMatches(a: Agent, entry: nat) {
    entry < |a.loop.failures| && a.loop.failures[entry] == FailuresAfter(Results(a.trace.log, entry))
  }

  lemma ResultsGrow(log: seq<Attempt>, attempt: Attempt, entry: nat)
    ensures Results(log + [attempt], entry) ==
            Results(log, entry) + if attempt.entry == entry then [attempt.ok] else []
  {
    assert (log + [attempt])[..|log|] == log;
  }

  lemma FailuresGrow(history: seq<bool>, ok: bool)
    ensures FailuresAfter(history + [ok]) == NextFailures(FailuresAfter(history), ok)
  {
    assert (history + [ok])[..|history|] == history;
  }

  lemma OnlyAnswersCount(a: Agent, e: Event)
    requires !e.Answer?
    ensures a.Step(e).trace.log == a.trace.log && a.Step(e).loop.failures == a.loop.failures
  {
  }

  lemma CounterStep(a: Agent, e: Event, entry: nat)
    requires CounterMatches(a, entry)
    ensures CounterMatches(a.Step(e), entry)
  {
    if !e.Answer? {
      OnlyAnswersCount(a, e);
    } else if a.Possible(e) {
      var (ok, _) := Turn(a.conn.queue, a.loop.pc.entry, e.outcome);
      ResultsGrow(a.trace.log, Attempt(a.loop.pc.entry, ok, e.outcome), entry);
      FailuresGrow(Results(a.trace.log, entry), ok);
      assert Results(a.trace.log, entry) + [] == Results(a.trace.log, entry);
    }
  }

  lemma {:induction false} CountersMatch(a: Agent, es: seq<Event>, entry: nat)
    requires CounterMatches(a, entry)
    ensures CounterMatches(a.Run(es), entry)
  {
    if es != [] {
      CountersMatch(a, es[..|es| - 1], entry);
      CounterStep(a.Run(es[..|es| - 1]), es[|es| - 1], entry);
    }
  }

  /** After any run an entry's counter is the length of its own current run of
      failures, saturated, whatever the other entries did. */
  lemma FailureIsolation(entries: nat, capacity: nat, es: seq<Event>, entry: nat)
    requires entry < entries
    ensures var a := Reach(entries, capacity, es);
            && |a.loop.failures| == entries
            && a.loop.failures[entry] == Min(FailureRun(Results(a.trace.log, entry)), U32_MAX)
  {
    CapacityFixed(Start(entries, capacity), es);
    CountersMatch(Start(entries, capacity), es, entry);
    FailureAccounting(Results(Reach(entries, capacity, es).trace.log, entry));
  }
}
