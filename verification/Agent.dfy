/** The whole agent: driver, scheduler and main as cooperating tasks that share
    one watch cell and one bounded queue. On the current-thread runtime they
    interleave only at await points, so a run is a sequence of the steps below
    in any order; a step that is not possible in a state changes nothing. */
module Agent {
  import opened Basics
  import opened Backoff
  import opened Channel
  import opened Connection
  import opened Link
  import opened Scheduler

  datatype MainPc = Running | ShuttingDown(exit: nat)

  datatype Event =
    | Drive(stimulus: Stimulus, unit: real)  // an await point of the driver completes
    | Take(count: nat)                       // the event loop moves requests out of the queue
    | Awake(how: Wake)                       // an await point of the scheduler's loop completes
    | Answer(outcome: Outcome)               // the collector of the current entry answers
    | Signal                                 // SIGTERM or SIGINT reaches main
    | LoopEnded                              // main sees that the scheduler's loop returned
    | Abort                                  // main gives up waiting for the driver

  datatype Attempt = Attempt(entry: nat, ok: bool, outcome: Outcome)

  /** What happened so far; nothing in the agent reads it. `streak` counts the
      retried errors since the last successful CONNACK or the start. */
  datatype Trace = Trace(connacks: nat, streak: nat, waits: seq<(nat, real)>, log: seq<Attempt>)

  datatype Agent = Agent(conn: Conn, loop: Loop, shutdown: bool, main: MainPc, trace: Trace) {

    predicate DriverHears(s: Stimulus) {
      match s
      case Polled(_) => (conn.pc.Polling? && !shutdown) || conn.pc.Flushing?
      case SleepOver => conn.pc.Sleeping? && !shutdown
      case ShutdownSeen => shutdown && (conn.pc.Polling? || conn.pc.Sleeping?)
      case GraceOver => conn.pc.Flushing?
    }

    predicate LoopHears(how: Wake) {
      loop.pc.Waiting? && (how.Changed? ==> loop.paused && (conn.link.version != loop.seen || conn.link.closed))
    }

    predicate Possible(e: Event) {
      match e
      case Drive(s, unit) => DriverHears(s) && 0.0 <= unit < 1.0
      case Take(n) => !conn.pc.Stopped? && n <= |conn.queue.pending|
      case Awake(how) => LoopHears(how)
      case Answer(_) => loop.pc.InCycle? && loop.pc.entry < |loop.failures|
      case Signal => main.Running?
      case LoopEnded => main.Running? && loop.pc.Returned?
      case Abort => main.ShuttingDown? && !conn.pc.Stopped?
    }

    function Step(e: Event): Agent {
      if !Possible(e) then this
      else
        match e
        case Drive(s, unit) => this.(conn := conn.On(s, unit), trace := Note(s, unit))
        case Take(n) => this.(conn := conn.(queue := conn.queue.Drain(n)))
        case Awake(how) => this.(loop := loop.OnWake(conn.link, how))
        case Answer(outcome) =>
          var (ok, queue) := Turn(conn.queue, loop.pc.entry, outcome);
          this.(conn := conn.(queue := queue), loop := loop.OnOutcome(ok),
                trace := trace.(log := trace.log + [Attempt(loop.pc.entry, ok, outcome)]))
        case Signal => BeginShutdown(0)
        case LoopEnded => BeginShutdown(1)
        case Abort => this.(conn := conn.Stop(false))
    }

    /** The scheduler is dropped before the driver is told to shut down. */
    function BeginShutdown(exit: nat): Agent {
      this.(loop := loop.(pc := SchedulerPc.Dropped), shutdown := true, main := ShuttingDown(exit))
    }

    function Note(s: Stimulus, unit: real): Trace {
      if !conn.pc.Polling? || !s.Polled? then trace
      else if Acknowledged(s) then trace.(connacks := trace.connacks + 1, streak := 0)
      else if s.result.Failed? && !IsFatal(s.result.error) then
        trace.(streak := trace.streak + 1, waits := trace.waits + [(trace.streak, conn.backoff.NextDelay(unit).0)])
      else trace
    }

    function Run(es: seq<Event>): Agent
      decreases |es|
    {
      if es == [] then this else Run(es[..|es| - 1]).Step(es[|es| - 1])
    }
  }

  lemma RunThree(a: Agent, es: seq<Event>, x: Event, y: Event, z: Event)
    ensures a.Run(es + [x, y, z]) == a.Run(es).Step(x).Step(y).Step(z)
  {
    hide Agent.Step;
    assert (es + [x, y, z])[..|es| + 2] == es + [x, y];
    assert (es + [x, y])[..|es| + 1] == es + [x];
    assert (es + [x])[..|es|] == es;
    assert a.Run(es + [x]) == a.Run(es).Step(x);
    assert a.Run(es + [x, y]) == a.Run(es).Step(x).Step(y);
  }

  predicate Acknowledged(s: Stimulus) {
    s.Polled? && s.result.ConnAck? && s.result.code == Success
  }

  function Start(entries: nat, capacity: nat): Agent {
    Agent(Conn(Polling, DEFAULT, Watch(Connecting, 0, false), Queue(capacity, true, [], [])),
          Loop(Waiting, false, false, 0, 0, 0, seq(entries, _ => 0)),
          false, Running, Trace(0, 0, [], []))
  }

  // ------------------------------------------------------------- invariants

  /** What the link shows at every await point, driver side. `Disconnected` is
      overwritten by `Reconnecting` before the driver awaits, so it is only ever
      observable after a clean shutdown. */
  ghost predicate LinkInv(a: Agent) {
    && (a.shutdown <==> a.main.ShuttingDown?)
    && (a.conn.link.closed <==> a.conn.pc.Stopped?)
    && (a.conn.queue.open <==> !a.conn.pc.Stopped?)
    && (a.conn.link.value.FatalExit? <==> a.conn.pc == Stopped(true))
    && (a.conn.link.value.Disconnected? ==> a.conn.link.value.reason == "shutdown" && a.conn.pc.Stopped?)
    && (a.conn.pc.Sleeping? ==> a.conn.link.value.Reconnecting?)
    && (a.conn.pc.Flushing? ==> a.conn.link.value.Connected? && a.shutdown)
    && (a.conn.pc.Stopped? && a.main.Running? ==> a.conn.pc.fatal)
  }

  /** What the scheduler knows about the link. A version it has seen is one
      whose value it has acted upon. */
  ghost predicate LoopInv(a: Agent) {
    var upToDate := a.loop.seen == a.conn.link.version;
    var live := a.loop.pc.Waiting? || a.loop.pc.InCycle?;
    && a.loop.seen <= a.conn.link.version
    && (a.loop.skipped > 0 <==> a.loop.paused)
    && (a.loop.paused && upToDate ==> !a.conn.link.value.Connected?)
    && (a.loop.everConnected && !a.loop.paused && live && upToDate ==> a.conn.link.value.Connected?)
    && (a.loop.pc.InCycle? ==>
          a.loop.everConnected && !a.loop.paused && a.loop.published <= a.loop.pc.entry < |a.loop.failures|)
    && a.loop.published <= |a.loop.failures|
    && (a.loop.pc.Returned? ==> a.conn.link.value.FatalExit?)
    && (a.loop.pc.Dropped? <==> a.main.ShuttingDown?)
    && (a.main.ShuttingDown? ==> a.main.exit == 0 || (a.main.exit == 1 && a.conn.link.value.FatalExit?))
  }

  predicate IsLive(r: Request) {
    r.Sample? || r.Online?
  }

  predicate AllLive(s: seq<Request>) {
    forall r | r in s :: IsLive(r)
  }

  /** (sample | online)* then optionally offline, then optionally DISCONNECT. */
  predicate StatusLanguage(s: seq<Request>) {
    || AllLive(s)
    || (|s| >= 1 && s[|s| - 1] == Offline && AllLive(s[..|s| - 1]))
    || (|s| >= 2 && s[|s| - 2] == Offline && s[|s| - 1] == Disconnect && AllLive(s[..|s| - 2]))
  }

  function Onlines(s: seq<Request>): nat {
    if s == [] then 0 else Onlines(s[..|s| - 1]) + if s[|s| - 1].Online? then 1 else 0
  }

  /** What was ever queued. */
  ghost predicate QueueInv(a: Agent) {
    && History(a.conn.queue, a.trace.connacks)
    && (!AllLive(a.conn.queue.sent) ==> a.shutdown && (a.conn.pc.Flushing? || a.conn.pc.Stopped?))
  }

  ghost predicate History(q: Queue<Request>, connacks: nat) {
    q.Valid() && StatusLanguage(q.sent) && Onlines(q.sent) <= connacks
  }

  ghost predicate InBand(delay: real, k: nat) {
    var base := Base(1.0, 60.0, 2.0, k);
    base * (1.0 - 0.2) <= delay < base * (1.0 + 0.2)
  }

  /** The reconnect delays as a function of the history. */
  ghost predicate DelayInv(a: Agent) {
    && IsDefault(a.conn.backoff)
    && a.conn.backoff.next == Base(1.0, 60.0, 2.0, a.trace.streak)
    && (forall i | 0 <= i < |a.trace.waits| :: InBand(a.trace.waits[i].1, a.trace.waits[i].0))
    && (a.conn.link.value.Reconnecting? ==>
          && a.trace.streak > 0 && |a.trace.waits| > 0
          && a.trace.waits[|a.trace.waits| - 1] == (a.trace.streak - 1, a.conn.link.value.seconds))
  }

  lemma TurnEffect(queue: Queue<Request>, entry: nat, outcome: Outcome)
    ensures var (ok, q) := Turn(queue, entry, outcome);
            var items := if outcome.Sampled? then Samples(entry, outcome.packets) else [];
            var k := Min(|items|, queue.Free());
            && q == queue.(pending := queue.pending + items[..k], sent := queue.sent + items[..k])
            && ok == (outcome.Sampled? && k == |items|)
  {
    if outcome.Sampled? {
      queue.PushAllExact(Samples(entry, outcome.packets));
    } else {
      assert queue.pending + [] == queue.pending && queue.sent + [] == queue.sent;
    }
  }

  lemma LinkStep(a: Agent, e: Event)
    requires LinkInv(a)
    ensures LinkInv(a.Step(e))
  {
    if e.Answer? && a.Possible(e) {
      TurnEffect(a.conn.queue, a.loop.pc.entry, e.outcome);
    }
  }

  /** While the driver polls or sleeps, what the link shows is a function of the
      history: how many connections succeeded and what failed since the last. */
  ghost predicate ShowInv(a: Agent) {
    a.conn.pc.Polling? || a.conn.pc.Sleeping? ==>
      && (a.conn.link.value.Connecting? <==> a.trace.connacks == 0 && a.trace.streak == 0)
      && (a.conn.link.value.Connected? <==> a.trace.connacks > 0 && a.trace.streak == 0)
      && (a.conn.link.value.Reconnecting? <==> a.trace.streak > 0)
  }

  lemma ShowStep(a: Agent, e: Event)
    requires LinkInv(a) && ShowInv(a)
    ensures ShowInv(a.Step(e))
  {
    hide Turn;
    if e.Answer? && a.Possible(e) {
      TurnEffect(a.conn.queue, a.loop.pc.entry, e.outcome);
    }
  }

  lemma LoopStep(a: Agent, e: Event)
    requires LinkInv(a) && LoopInv(a)
    ensures LoopInv(a.Step(e))
  {
  }

  lemma {:induction false} OnlinesOfSamples(s: seq<Request>, more: seq<Request>)
    requires forall r | r in more :: r.Sample?
    ensures Onlines(s + more) == Onlines(s)
    decreases |more|
  {
    if more == [] {
      assert s + more == s;
    } else {
      var shorter := more[..|more| - 1];
      assert (s + more)[..|s + more| - 1] == s + shorter;
      assert (s + more)[|s + more| - 1] == more[|more| - 1] && more[|more| - 1] in more;
      OnlinesOfSamples(s, shorter);
    }
  }

  lemma QueueStep(a: Agent, e: Event)
    requires LinkInv(a) && LoopInv(a) && QueueInv(a)
    ensures QueueInv(a.Step(e))
  {
    if a.Possible(e) {
      match e
      case Answer(outcome) =>
        TurnHistory(a.conn.queue, a.trace.connacks, a.loop.pc.entry, outcome);
      case Drive(s, unit) =>
        StatusStep(a, s, unit);
      case _ =>
    }
  }

  lemma TurnHistory(q: Queue<Request>, connacks: nat, entry: nat, outcome: Outcome)
    requires History(q, connacks) && AllLive(q.sent)
    ensures var q' := Turn(q, entry, outcome).1;
            History(q', connacks) && AllLive(q'.sent)
  {
    TurnEffect(q, entry, outcome);
    if outcome.Sampled? {
      var items := Samples(entry, outcome.packets);
      q.PushAllValid(items);
      OnlinesOfSamples(q.sent, items[..Min(|items|, q.Free())]);
    }
  }

  lemma PushOnline(q: Queue<Request>, connacks: nat)
    requires History(q, connacks) && AllLive(q.sent)
    ensures History(q.TryPush(Online), connacks + 1) && AllLive(q.TryPush(Online).sent)
  {
    assert (q.sent + [Online])[..|q.sent|] == q.sent;
    q.PushAllValid([Online]);
    TryPushIsPushAll(q, Online);
  }

  lemma FarewellLanguage(s: seq<Request>)
    requires AllLive(s)
    ensures StatusLanguage(s + [Offline]) && Onlines(s + [Offline]) == Onlines(s)
    ensures StatusLanguage(s + [Offline, Disconnect]) && Onlines(s + [Offline, Disconnect]) == Onlines(s)
  {
    hide AllLive;
    assert (s + [Offline])[..|s|] == s;
    assert (s + [Offline, Disconnect])[..|s|] == s;
    assert (s + [Offline, Disconnect])[..|s| + 1] == s + [Offline];
    assert Onlines(s + [Offline, Disconnect]) == Onlines(s + [Offline]);
  }

  lemma PushFarewell(q: Queue<Request>, connacks: nat)
    requires History(q, connacks) && AllLive(q.sent)
    ensures History(q.TryPush(Offline).TryPush(Disconnect), connacks)
  {
    var farewell := [Offline, Disconnect];
    q.PushAllExact(farewell);
    q.PushAllValid(farewell);
    TryPushTwice(q, Offline, Disconnect);
    FarewellLanguage(q.sent);
    hide AllLive, StatusLanguage, Onlines, Queue.PushAll, Queue.TryPush, Queue.Valid;
    assert farewell[..0] == [] && farewell[..1] == [Offline] && farewell[..2] == farewell;
    assert q.sent + [] == q.sent;
  }

  /** The driver's own requests: `online` on a successful CONNACK, `offline` and
      DISCONNECT once, together, on a shutdown from the connected state. */
  lemma StatusStep(a: Agent, s: Stimulus, unit: real)
    requires LinkInv(a) && QueueInv(a) && a.Possible(Drive(s, unit))
    ensures QueueInv(a.Step(Drive(s, unit)))
  {
    hide Conn.On, Schedule.NextDelay, History, AllLive, Queue.TryPush;
    var q := a.conn.queue;
    DriverQueue(a.conn, s, unit);
    DriverGoesOn(a.conn, s, unit);
    StillHistory(q, a.trace.connacks);
    if a.conn.pc.Polling? && Acknowledged(s) {
      PushOnline(q, a.trace.connacks);
    } else if a.conn.pc.Polling? && s.ShutdownSeen? && a.conn.link.value.Connected? {
      PushFarewell(q, a.trace.connacks);
    }
  }

  lemma StillHistory(q: Queue<Request>, connacks: nat)
    requires History(q, connacks)
    ensures History(q.(open := false), connacks) && History(q, connacks + 1)
  {
  }

  /** The driver only ever moves towards its end once it has been told to stop. */
  lemma DriverGoesOn(c: Conn, s: Stimulus, unit: real)
    ensures var pc := c.On(s, unit).pc;
            && (c.pc.Flushing? ==> pc.Flushing? || pc.Stopped?)
            && (c.pc.Stopped? ==> pc == c.pc)
            && (c.pc.Polling? && s.ShutdownSeen? ==> if c.link.value == Connected then pc.Flushing? else pc.Stopped?)
  {
    hide Schedule.NextDelay;
  }

  lemma DriverQueue(c: Conn, s: Stimulus, unit: real)
    ensures var q := c.On(s, unit).queue;
            if c.pc.Polling? && Acknowledged(s) then q == c.queue.TryPush(Online)
            else if c.pc.Polling? && s.ShutdownSeen? && c.link.value == Connected then
              q == c.queue.TryPush(Offline).TryPush(Disconnect)
            else q == c.queue || q == c.queue.(open := false)
  {
  }

  lemma TryPushIsPushAll<T>(q: Queue<T>, x: T)
    ensures q.TryPush(x) == q.PushAll([x]).1
  {
  }

  /** The second of two pushes without a drain between succeeds only if the first did. */
  lemma TryPushTwice<T>(q: Queue<T>, x: T, y: T)
    ensures q.TryPush(x).TryPush(y) == q.PushAll([x, y]).1
  {
    assert [x, y][1..] == [y];
    TryPushIsPushAll(q.TryPush(x), y);
  }

  ghost predicate IsDefault(b: Schedule) {
    b.Valid() && (b.initial, b.max, b.factor, b.jitter) == (1.0, 60.0, 2.0, 0.2)
  }

  lemma RetryDelay(b: Schedule, k: nat, unit: real)
    requires 0.0 <= unit < 1.0 && IsDefault(b) && b.next == Base(1.0, 60.0, 2.0, k)
    ensures var (delay, advanced) := b.NextDelay(unit);
            InBand(delay, k) && IsDefault(advanced) && advanced.next == Base(1.0, 60.0, 2.0, k + 1)
  {
    NextDelayBounds(b, unit);
    IteratedCap(1.0, 60.0, 2.0, k);
  }

  lemma DelayStep(a: Agent, e: Event)
    requires LinkInv(a) && DelayInv(a)
    ensures DelayInv(a.Step(e))
  {
    if a.Possible(e) && e.Drive? && a.conn.pc.Polling? {
      RetryDelay(a.conn.backoff, a.trace.streak, e.unit);
      BaseZero(1.0, 60.0, 2.0);
    }
  }

  ghost predicate Inv(a: Agent) {
    LinkInv(a) && ShowInv(a) && LoopInv(a) && QueueInv(a) && DelayInv(a)
  }

  lemma {:induction false} InvRun(a: Agent, es: seq<Event>)
    requires Inv(a)
    ensures Inv(a.Run(es))
  {
    if es != [] {
      var before := a.Run(es[..|es| - 1]);
      var e := es[|es| - 1];
      InvRun(a, es[..|es| - 1]);
      LinkStep(before, e);
      ShowStep(before, e);
      LoopStep(before, e);
      QueueStep(before, e);
      DelayStep(before, e);
    }
  }

  lemma InvStart(entries: nat, capacity: nat)
    ensures Inv(Start(entries, capacity))
  {
    DefaultSchedule();
    var a := Start(entries, capacity);
    assert LinkInv(a) && ShowInv(a) && LoopInv(a) && QueueInv(a);
  }

  /** Every interleaving keeps every invariant. */
  lemma Reachable(entries: nat, capacity: nat, es: seq<Event>)
    ensures Inv(Start(entries, capacity).Run(es))
  {
    InvStart(entries, capacity);
    InvRun(Start(entries, capacity), es);
  }
}
