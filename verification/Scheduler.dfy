/** The sampling loop (src/core/scheduler.rs). */
module Scheduler {
  import opened Basics
  import opened Channel
  import opened Connection
  import opened Link
  import opened Mqtt

  const FAILURE_LOG_EVERY: nat := 120

  const U32_MAX: nat := 0xFFFF_FFFF

  /** Where the loop awaits: the next tick (or, while paused, a tick or a state
      change), or the collector of an entry; or how it ended. */
  datatype SchedulerPc = Waiting | InCycle(entry: nat) | Returned | Dropped

  datatype Wake = Tick | Changed

  /** What one entry's turn produced: no sample, a sample the publisher refused
      before queueing anything, or the packets it went on to queue. */
  datatype Outcome = CollectFailed | Refused | Sampled(packets: seq<Packet>)

  datatype Loop = Loop(
    pc: SchedulerPc,
    paused: bool,
    everConnected: bool,
    skipped: nat,
    seen: nat,
    published: nat,
    failures: seq<nat>) {

    function StartAt(entry: nat): SchedulerPc {
      if entry < |failures| then InCycle(entry) else Waiting
    }

    /** Runs the loop from a wake-up to its next await point. */
    function OnWake(link: Watch, how: Wake): Loop {
      if how == Changed && link.version == seen then this.(pc := Returned)
      else
        var woken := this.(seen := link.version);
        match link.value
        case FatalExit(_) => woken.(pc := Returned)
        case Connected =>
          woken.(pc := StartAt(0), paused := false, skipped := if paused then 0 else skipped,
                 everConnected := true, published := 0)
        case _ => woken.(paused := true, skipped := skipped + 1)
    }

    function OnOutcome(ok: bool): Loop
      requires pc.InCycle? && pc.entry < |failures|
    {
      var i := pc.entry;
      this.(pc := StartAt(i + 1), published := published + (if ok then 1 else 0),
            failures := failures[i := NextFailures(failures[i], ok)])
    }

    /** Entries of the running cycle that have not had their turn yet. */
    function Remaining(): nat {
      if pc.InCycle? && pc.entry < |failures| then |failures| - pc.entry else 0
    }
  }

  function NextFailures(failures: nat, ok: bool): nat {
    if ok then 0 else if failures >= U32_MAX then U32_MAX else failures + 1
  }

  predicate LogsWarning(failures: nat) {
    failures == 1 || failures % FAILURE_LOG_EVERY == 0
  }

  function Samples(entry: nat, packets: seq<Packet>): seq<Request> {
    seq(|packets|, k requires 0 <= k < |packets| => Sample(entry, packets[k]))
  }

  /** Queues what the entry produced; a turn succeeds when all of it went in. */
  function Turn(queue: Queue<Request>, entry: nat, outcome: Outcome): (bool, Queue<Request>) {
    match outcome
    case Sampled(packets) => queue.PushAll(Samples(entry, packets))
    case _ => (false, queue)
  }

  /** The turns of a cycle, in entry order, and which of them succeeded. */
  function Cycle(loop: Loop, queue: Queue<Request>, outcomes: seq<Outcome>): (Loop, Queue<Request>, seq<bool>) {
    if outcomes == [] then (loop, queue, [])
    else
      var n := |outcomes| - 1;
      var (l, q, oks) := Cycle(loop, queue, outcomes[..n]);
      if l.pc.InCycle? && l.pc.entry < |l.failures| then
        var (ok, q') := Turn(q, l.pc.entry, outcomes[n]);
        (l.OnOutcome(ok), q', oks + [ok])
      else (l, q, oks)
  }

  function Successes(oks: seq<bool>): nat {
    if oks == [] then 0 else Successes(oks[..|oks| - 1]) + if oks[|oks| - 1] then 1 else 0
  }

  /** A cycle gives every entry exactly one turn: each counter is advanced once,
      by its own entry's result, the successes are counted, and the cycle ends
      after the last entry. */
  lemma {:induction false} CycleVisitsEveryEntry(loop: Loop, queue: Queue<Request>, outcomes: seq<Outcome>)
    requires loop.pc == loop.StartAt(0) && |outcomes| <= |loop.failures|
    ensures var (l, q, oks) := Cycle(loop, queue, outcomes);
            && |oks| == |outcomes| && |l.failures| == |loop.failures|
            && l.pc == l.StartAt(|outcomes|)
            && l.published == loop.published + Successes(oks)
            && (forall i | 0 <= i < |oks| :: l.failures[i] == NextFailures(loop.failures[i], oks[i]))
            && (forall i | |oks| <= i < |loop.failures| :: l.failures[i] == loop.failures[i])
  {
    if outcomes != [] {
      hide Turn;
      var n := |outcomes| - 1;
      CycleVisitsEveryEntry(loop, queue, outcomes[..n]);
      var (_, _, before) := Cycle(loop, queue, outcomes[..n]);
      var (_, _, oks) := Cycle(loop, queue, outcomes);
      assert oks[..n] == before;
    }
  }

  // ------------------------------------------------------- failure accounting

  function FailuresAfter(history: seq<bool>): nat {
    if history == [] then 0
    else NextFailures(FailuresAfter(history[..|history| - 1]), history[|history| - 1])
  }

  /** Length of the current run of failures. */
  function FailureRun(history: seq<bool>): nat {
    if history == [] || history[|history| - 1] then 0 else 1 + FailureRun(history[..|history| - 1])
  }

  /** Warnings logged during the current run of failures. */
  function Warnings(history: seq<bool>): nat {
    if history == [] || history[|history| - 1] then 0
    else
      var before := history[..|history| - 1];
      Warnings(before) + (if LogsWarning(FailuresAfter(history)) then 1 else 0)
  }

  /** The counter is the length of the current run of failures, saturated. A run
      of n failures has logged 1 + n / 120 warnings while the counter still
      counts; once it saturates no further warning ever comes. */
  lemma {:induction false} FailureAccounting(history: seq<bool>)
    ensures FailuresAfter(history) == Min(FailureRun(history), U32_MAX)
    ensures Warnings(history) ==
            if FailureRun(history) == 0 then 0
            else 1 + Min(FailureRun(history), U32_MAX) / FAILURE_LOG_EVERY
  {
    if history != [] && !history[|history| - 1] {
      FailureAccounting(history[..|history| - 1]);
      WarningStep(FailureRun(history[..|history| - 1]));
    }
  }

  lemma WarningStep(n: nat)
    ensures LogsWarning(Min(n + 1, U32_MAX)) <==>
            n == 0 || (n < U32_MAX && (n + 1) / FAILURE_LOG_EVERY == n / FAILURE_LOG_EVERY + 1)
    ensures n + 1 <= U32_MAX && n > 0 && !LogsWarning(n + 1) ==> (n + 1) / FAILURE_LOG_EVERY == n / FAILURE_LOG_EVERY
  {
  }

  /** Wakes that all find the link down, oldest first. */
  function Wakes(loop: Loop, links: seq<(Watch, Wake)>): Loop {
    if links == [] then loop
    else
      var (link, how) := links[|links| - 1];
      Wakes(loop, links[..|links| - 1]).OnWake(link, how)
  }

  function Ticks(links: seq<(Watch, Wake)>): nat {
    if links == [] then 0
    else Ticks(links[..|links| - 1]) + if links[|links| - 1].1.Tick? then 1 else 0
  }

  ghost predicate FindsLinkDown(loop: Loop, links: seq<(Watch, Wake)>) {
    links != [] ==>
      var (link, how) := links[|links| - 1];
      && FindsLinkDown(loop, links[..|links| - 1])
      && !link.value.Connected? && !link.value.FatalExit?
      && (how.Changed? ==> link.version != Wakes(loop, links[..|links| - 1]).seen)
  }

  predicate AllTicks(links: seq<(Watch, Wake)>) {
    forall i | 0 <= i < |links| :: links[i].1.Tick?
  }

  lemma {:induction false} TicksExact(links: seq<(Watch, Wake)>)
    ensures Ticks(links) <= |links|
    ensures Ticks(links) == |links| <==> AllTicks(links)
  {
    if links != [] {
      TicksExact(links[..|links| - 1]);
    }
  }

  /** A pause reports as skipped cycles every wake-up that found the link down,
      so the report equals the ticks that passed exactly when no state change
      woke the loop in between. */
  lemma {:induction false} SkippedCountsWakes(loop: Loop, links: seq<(Watch, Wake)>)
    requires loop.pc.Waiting? && FindsLinkDown(loop, links)
    ensures Wakes(loop, links).skipped == loop.skipped + |links|
    ensures Wakes(loop, links).pc.Waiting? && (links != [] ==> Wakes(loop, links).paused)
    ensures Ticks(links) == |links| <==> AllTicks(links)
    ensures Ticks(links) <= |links|
  {
    TicksExact(links);
    if links != [] {
      SkippedCountsWakes(loop, links[..|links| - 1]);
    }
  }

  // ---------------------------------------------------------------- the object

  class Scheduler {
    const link: Cell
    const client: Requests<Request>
    var pc: SchedulerPc
    var paused: bool
    var everConnected: bool
    var skipped: nat
    var seen: nat
    var published: nat
    var failures: seq<nat>

    ghost function View(): Loop
      reads this
    {
      Loop(pc, paused, everConnected, skipped, seen, published, failures)
    }

    constructor (entries: nat, link: Cell, client: Requests<Request>)
      ensures View() == Loop(Waiting, false, false, 0, link.version, 0, seq(entries, _ => 0))
      ensures this.link == link && this.client == client
    {
      this.link, this.client := link, client;
      pc, paused, everConnected, skipped, published := Waiting, false, false, 0, 0;
      seen := link.version;
      failures := seq(entries, _ => 0);
    }

    /** From the wake-up to the next await point. */
    method Wake(how: Wake)
      modifies this
      ensures View() == old(View()).OnWake(link.View(), how)
    {
      if how == Changed && link.version == seen {
        pc := Returned;
        return;
      }
      var state := link.value;
      seen := link.version;
      if state.FatalExit? {
        pc := Returned;
        return;
      }
      if state != Connected {
        if !paused {
          paused := true;
        }
        skipped := skipped + 1;
        return;
      }
      if paused {
        paused := false;
        skipped := 0;
      }
      everConnected := true;
      published := 0;
      pc := if 0 < |failures| then InCycle(0) else Waiting;
    }

    /** `run_entry` once the collector of the current entry has answered. Only
        that entry's counter changes. */
    method RunEntry(outcome: Outcome) returns (ok: bool, warned: bool)
      requires pc.InCycle? && pc.entry < |failures|
      modifies this, client
      ensures (ok, client.View()) == Turn(old(client.View()), old(pc.entry), outcome)
      ensures View() == old(View()).OnOutcome(ok)
      ensures warned == (!ok && LogsWarning(failures[old(pc.entry)]))
    {
      var i := pc.entry;
      ok := outcome.Sampled?;
      if outcome.Sampled? {
        ok := PublishAll(Samples(i, outcome.packets));
      }
      warned := false;
      if ok {
        failures := failures[i := 0];
        published := published + 1;
      } else {
        var count := if failures[i] >= U32_MAX then U32_MAX else failures[i] + 1;
        failures := failures[i := count];
        warned := count == 1 || count % FAILURE_LOG_EVERY == 0;
      }
      pc := if i + 1 < |failures| then InCycle(i + 1) else Waiting;
    }

    /** The publisher's loop: stops at the first packet the queue refuses. */
    method PublishAll(items: seq<Request>) returns (ok: bool)
      modifies client
      ensures (ok, client.View()) == old(client.View()).PushAll(items)
    {
      var i := 0;
      while i < |items|
        invariant 0 <= i <= |items|
        invariant old(client.View()).PushAll(items) == client.View().PushAll(items[i..])
      {
        ok := client.TryPublish(items[i]);
        if !ok {
          return;
        }
        i := i + 1;
      }
      ok := true;
    }

    /** One whole cycle: every entry has its turn, in order. */
    method RunCycle(outcomes: seq<Outcome>) returns (oks: seq<bool>)
      requires pc == InCycle(0) && 0 < |outcomes| == |failures|
      modifies this, client
      ensures (View(), client.View(), oks) == Cycle(old(View()), old(client.View()), outcomes)
    {
      oks := [];
      for i := 0 to |outcomes|
        invariant |failures| == |outcomes| && pc == View().StartAt(i)
        invariant (View(), client.View(), oks) == Cycle(old(View()), old(client.View()), outcomes[..i])
      {
        assert outcomes[..i + 1][..i] == outcomes[..i];
        var ok, _ := RunEntry(outcomes[i]);
        oks := oks + [ok];
      }
      assert outcomes[..|outcomes|] == outcomes;
    }
  }
}
