/** The filesystem collector and its stuck `statvfs` calls
    (src/core/collectors/filesys.rs). */
module Filesystem {
  import opened Basics

  /** Deadline of one `statvfs` call, in seconds. */
  const STATVFS_TIMEOUT: real := 2.0

  /** Deadline of a whole collect, set by the scheduler. */
  const COLLECT_TIMEOUT: real := 10.0

  type Path = bytes

  datatype Usage = Usage(
    totalBytes: nat,
    usedBytes: nat,
    availableBytes: nat,
    totalInodes: nat,
    usedInodes: nat,
    availableInodes: nat)

  /** What the surroundings do during one turn: the outstanding calls that have
      returned by its start, and for a new call whether it answers before the
      deadline, how long the turn waits for it, and its result. */
  datatype Reply = Reply(returned: set<nat>, inTime: bool, waited: real, result: Option<Usage>)

  /** `stuck` is the collector's own map from mount points to handles; `running`
      are the calls parked on blocking threads. */
  datatype Calls = Calls(stuck: map<Path, nat>, running: map<nat, Path>, next: nat) {

    function Return(returned: set<nat>): Calls {
      this.(running := running - returned)
    }

    function Spawn(p: Path): Calls {
      this.(running := running[next := p], next := next + 1)
    }

    /** One `usage` turn: the result if there is one, and the calls afterwards. */
    function Turn(p: Path, r: Reply): (Option<Usage>, Calls) {
      var c := Return(r.returned);
      if p in stuck then
        if stuck[p] in c.running then (None, c)
        else (r.result, c.(stuck := stuck - {p}))
      else if r.inTime then
        (r.result, c.Spawn(p).Return({next}))
      else
        (None, c.Spawn(p).(stuck := stuck[p := next]))
    }

    function Waits(p: Path, r: Reply): real {
      if p in stuck then 0.0 else r.waited
    }

    /** The turns of a collect that runs to its end. */
    function Collect(mounts: seq<Path>, replies: seq<Reply>): Calls
      requires |mounts| == |replies|
    {
      if mounts == [] then this
      else
        var n := |mounts| - 1;
        Collect(mounts[..n], replies[..n]).Turn(mounts[n], replies[n]).1
    }

    /** Seconds it spends waiting. */
    function Elapsed(mounts: seq<Path>, replies: seq<Reply>): real
      requires |mounts| == |replies|
    {
      if mounts == [] then 0.0
      else
        var n := |mounts| - 1;
        Elapsed(mounts[..n], replies[..n]) + Collect(mounts[..n], replies[..n]).Waits(mounts[n], replies[n])
    }

    /** The scheduler drops the collect while it waits for the new call to `p`:
        the handle is lost but the call goes on. */
    function Abandon(p: Path, returned: set<nat>): Calls {
      Return(returned).Spawn(p)
    }
  }

  ghost predicate OnePerMount(c: Calls) {
    forall i, j | i in c.running && j in c.running && c.running[i] == c.running[j] :: i == j
  }

  /** Every outstanding call has its handle in the map. */
  ghost predicate Tracked(c: Calls) {
    && (forall i | i in c.running :: c.running[i] in c.stuck && c.stuck[c.running[i]] == i)
    && (forall i | i in c.running :: i < c.next)
    && (forall p | p in c.stuck :: c.stuck[p] < c.next && (c.stuck[p] in c.running ==> c.running[c.stuck[p]] == p))
  }

  lemma TrackedIsOnePerMount(c: Calls)
    requires Tracked(c)
    ensures OnePerMount(c)
  {
  }

  /** A turn keeps every outstanding call tracked, and even while a new call is
      being awaited no mount has two. */
  lemma TurnKeepsTracked(c: Calls, p: Path, r: Reply)
    requires Tracked(c)
    ensures Tracked(c.Turn(p, r).1)
    ensures p !in c.stuck ==> OnePerMount(c.Return(r.returned).Spawn(p))
  {
  }

  lemma {:induction false} CollectKeepsTracked(c: Calls, mounts: seq<Path>, replies: seq<Reply>)
    requires Tracked(c) && |mounts| == |replies|
    ensures Tracked(c.Collect(mounts, replies))
  {
    if mounts != [] {
      var n := |mounts| - 1;
      CollectKeepsTracked(c, mounts[..n], replies[..n]);
      TurnKeepsTracked(c.Collect(mounts[..n], replies[..n]), mounts[n], replies[n]);
    }
  }

  // ---------------------------------------------------------------- what is reported

  /** The k-th mount is answered for: a new call comes back before its deadline, or
      the call it was stuck on has returned by its turn. */
  ghost predicate Answers(c: Calls, mounts: seq<Path>, replies: seq<Reply>, k: nat)
    requires k < |mounts| == |replies|
  {
    if mounts[k] in c.stuck then
      c.stuck[mounts[k]] !in c.running || exists i | 0 <= i <= k :: c.stuck[mounts[k]] in replies[i].returned
    else replies[k].inTime
  }

  /** What the turns of a collect report. */
  function Stats(c: Calls, mounts: seq<Path>, replies: seq<Reply>): seq<(Path, Usage)>
    requires |mounts| == |replies|
  {
    if mounts == [] then []
    else
      var n := |mounts| - 1;
      var u := c.Collect(mounts[..n], replies[..n]).Turn(mounts[n], replies[n]).0;
      Stats(c, mounts[..n], replies[..n]) + if u.Some? then [(mounts[n], u.value)] else []
  }

  /** The mounts that are answered for with a result, in the order of the table. */
  ghost function Report(c: Calls, mounts: seq<Path>, replies: seq<Reply>): seq<(Path, Usage)>
    requires |mounts| == |replies|
  {
    if mounts == [] then []
    else
      var n := |mounts| - 1;
      Report(c, mounts[..n], replies[..n])
      + if Answers(c, mounts, replies, n) && replies[n].result.Some? then [(mounts[n], replies[n].result.value)] else []
  }

  /** A handle that the collect did not start itself is still running after it
      exactly if it was and has not been reported as returned. */
  lemma {:induction false} StillRunning(c: Calls, mounts: seq<Path>, replies: seq<Reply>, h: nat)
    requires |mounts| == |replies| && h < c.next
    ensures var d := c.Collect(mounts, replies);
            && c.next <= d.next
            && (h in d.running <==> h in c.running && forall i | 0 <= i < |replies| :: h !in replies[i].returned)
  {
    if mounts != [] {
      var n := |mounts| - 1;
      StillRunning(c, mounts[..n], replies[..n], h);
      assert forall i | 0 <= i < n :: replies[i] == replies[..n][i];
    }
  }

  lemma {:induction false} OthersKeepTheirHandle(c: Calls, mounts: seq<Path>, replies: seq<Reply>, p: Path)
    requires |mounts| == |replies| && p !in mounts
    ensures var d := c.Collect(mounts, replies);
            && (p in d.stuck <==> p in c.stuck)
            && (p in c.stuck ==> d.stuck[p] == c.stuck[p])
  {
    if mounts != [] {
      var n := |mounts| - 1;
      assert mounts[n] in mounts && forall q | q in mounts[..n] :: q in mounts;
      OthersKeepTheirHandle(c, mounts[..n], replies[..n], p);
    }
  }

  /** The last mount's turn, in terms of the state at the start of the collect. */
  lemma LastTurn(c: Calls, mounts: seq<Path>, replies: seq<Reply>)
    requires Tracked(c) && |mounts| == |replies| > 0 && Distinct(mounts)
    ensures var n := |mounts| - 1;
            var (u, d) := c.Collect(mounts[..n], replies[..n]).Turn(mounts[n], replies[n]);
            && u == (if Answers(c, mounts, replies, n) then replies[n].result else None)
            && (mounts[n] in d.stuck <==> !Answers(c, mounts, replies, n))
  {
    var n := |mounts| - 1;
    var p := mounts[n];
    OthersKeepTheirHandle(c, mounts[..n], replies[..n], p);
    if p in c.stuck {
      StillRunning(c, mounts[..n], replies[..n], c.stuck[p]);
      assert forall i | 0 <= i < n :: replies[i] == replies[..n][i];
    }
  }

  lemma AnswersOfPrefix(c: Calls, mounts: seq<Path>, replies: seq<Reply>, k: nat)
    requires k < |mounts| - 1 && |mounts| == |replies|
    ensures Answers(c, mounts[..|mounts| - 1], replies[..|mounts| - 1], k) == Answers(c, mounts, replies, k)
  {
    var n := |mounts| - 1;
    assert forall i | 0 <= i < n :: replies[i] == replies[..n][i];
  }

  /** A collect reports exactly the mounts that are answered for with a result,
      and afterwards exactly the others are stuck. */
  lemma {:induction false} CollectExact(c: Calls, mounts: seq<Path>, replies: seq<Reply>)
    requires Tracked(c) && |mounts| == |replies| && Distinct(mounts)
    ensures Stats(c, mounts, replies) == Report(c, mounts, replies)
    ensures forall k | 0 <= k < |mounts| ::
              mounts[k] in c.Collect(mounts, replies).stuck <==> !Answers(c, mounts, replies, k)
  {
    if mounts != [] {
      hide Tracked, Answers, Calls.Turn;
      var n := |mounts| - 1;
      CollectExact(c, mounts[..n], replies[..n]);
      LastTurn(c, mounts, replies);
      forall k | 0 <= k < n
        ensures mounts[k] in c.Collect(mounts, replies).stuck <==> !Answers(c, mounts, replies, k)
      {
        AnswersOfPrefix(c, mounts, replies, k);
        assert mounts[..n][k] == mounts[k];
        TurnKeepsOthers(c.Collect(mounts[..n], replies[..n]), mounts[n], replies[n], mounts[k]);
      }
    }
  }

  lemma TurnKeepsOthers(c: Calls, p: Path, r: Reply, q: Path)
    requires p != q
    ensures q in c.Turn(p, r).1.stuck <==> q in c.stuck
  {
  }

  ghost predicate IsReported(c: Calls, mounts: seq<Path>, replies: seq<Reply>, entry: (Path, Usage), k: nat)
    requires |mounts| == |replies|
  {
    k < |mounts| && Answers(c, mounts, replies, k) && mounts[k] == entry.0 && replies[k].result == Some(entry.1)
  }

  /** An entry is in the report exactly if its mount is answered for with it. */
  lemma {:induction false} ReportedExactly(c: Calls, mounts: seq<Path>, replies: seq<Reply>, entry: (Path, Usage))
    requires |mounts| == |replies|
    ensures entry in Report(c, mounts, replies) <==> exists k: nat :: IsReported(c, mounts, replies, entry, k)
  {
    if mounts != [] {
      hide Answers;
      var n := |mounts| - 1;
      ReportedExactly(c, mounts[..n], replies[..n], entry);
      forall k: nat | k < n
        ensures IsReported(c, mounts[..n], replies[..n], entry, k) == IsReported(c, mounts, replies, entry, k)
      {
        AnswersOfPrefix(c, mounts, replies, k);
      }
      if IsReported(c, mounts, replies, entry, n) {
        assert entry in Report(c, mounts, replies);
      }
      if entry in Report(c, mounts, replies) && entry !in Report(c, mounts[..n], replies[..n]) {
        assert IsReported(c, mounts, replies, entry, n);
      }
      if k: nat :| IsReported(c, mounts[..n], replies[..n], entry, k) {
        assert IsReported(c, mounts, replies, entry, k);
      }
    }
  }

  // ---------------------------------------------------------------- waiting time

  /** Mounts without an outstanding handle when the collect starts. */
  function Fresh(stuck: map<Path, nat>, mounts: seq<Path>): nat {
    if mounts == [] then 0
    else Fresh(stuck, mounts[..|mounts| - 1]) + if mounts[|mounts| - 1] in stuck then 0 else 1
  }

  /** No single wait lasts longer than `longest`: the deadline plus whatever the
      timer and the runtime add to it. */
  ghost predicate Plausible(replies: seq<Reply>, longest: real) {
    STATVFS_TIMEOUT <= longest && forall r | r in replies :: 0.0 <= r.waited <= longest
  }

  /** The last turn waits exactly if its mount was not stuck at the start. */
  lemma LastWait(c: Calls, mounts: seq<Path>, replies: seq<Reply>)
    requires |mounts| == |replies| > 0 && Distinct(mounts)
    ensures var n := |mounts| - 1;
            && c.Elapsed(mounts, replies) ==
               c.Elapsed(mounts[..n], replies[..n]) + (if mounts[n] in c.stuck then 0.0 else replies[n].waited)
            && Fresh(c.stuck, mounts) == Fresh(c.stuck, mounts[..n]) + (if mounts[n] in c.stuck then 0 else 1)
  {
    hide Calls.Turn, Calls.Collect;
    var n := |mounts| - 1;
    OthersKeepTheirHandle(c, mounts[..n], replies[..n], mounts[n]);
  }

  /** A collect waits at most once for each mount that is not stuck. */
  lemma {:induction false} WaitsOncePerFreshMount(c: Calls, mounts: seq<Path>, replies: seq<Reply>, longest: real)
    requires |mounts| == |replies| && Distinct(mounts) && Plausible(replies, longest)
    ensures 0.0 <= c.Elapsed(mounts, replies) <= Times(Fresh(c.stuck, mounts), longest)
  {
    hide Calls.Collect, Calls.Elapsed, Fresh, Times;
    if mounts == [] {
      NothingElapses(c, longest);
    } else {
      var n := |mounts| - 1;
      assert replies[n] in replies && forall r | r in replies[..n] :: r in replies;
      WaitsOncePerFreshMount(c, mounts[..n], replies[..n], longest);
      LastWait(c, mounts, replies);
      AddOne(Fresh(c.stuck, mounts[..n]), longest);
    }
  }

  lemma NothingElapses(c: Calls, x: real)
    ensures c.Elapsed([], []) == 0.0 == Times(Fresh(c.stuck, []), x)
  {
  }

  function Times(n: nat, x: real): real {
    n as real * x
  }

  lemma TimesZero(x: real)
    ensures Times(0, x) == 0.0
  {
  }

  lemma AddOne(n: nat, x: real)
    ensures Times(n + 1, x) == Times(n, x) + x
  {
  }

  // ---------------------------------------------------------------- cancellation

  /** The scheduler's deadline can pass while the collect, having dealt with the
      mounts before position k, waits for the new call to mount k. */
  ghost predicate CanBeCancelledAt(c: Calls, mounts: seq<Path>, replies: seq<Reply>, k: nat, longest: real) {
    && k < |mounts| && |replies| == k && Plausible(replies, longest)
    && mounts[k] !in c.Collect(mounts[..k], replies).stuck
    && c.Elapsed(mounts[..k], replies) <= COLLECT_TIMEOUT < c.Elapsed(mounts[..k], replies) + longest
  }

  ghost predicate CanBeCancelled(c: Calls, mounts: seq<Path>, longest: real) {
    exists k: nat, replies: seq<Reply> :: CanBeCancelledAt(c, mounts, replies, k, longest)
  }

  lemma {:induction false} FreshOfPrefix(stuck: map<Path, nat>, mounts: seq<Path>, k: nat)
    requires k < |mounts| && mounts[k] !in stuck
    ensures Fresh(stuck, mounts[..k]) + 1 <= Fresh(stuck, mounts)
    decreases |mounts|
  {
    var n := |mounts| - 1;
    if k < n {
      FreshOfPrefix(stuck, mounts[..n], k);
      assert mounts[..n][..k] == mounts[..k];
    }
  }

  /** Enough mounts that are not stuck are needed to reach the deadline. */
  lemma CancellationNeedsFreshMounts(c: Calls, mounts: seq<Path>, longest: real)
    requires Distinct(mounts) && CanBeCancelled(c, mounts, longest)
    ensures Times(Fresh(c.stuck, mounts), longest) > COLLECT_TIMEOUT
  {
    hide Calls.Collect, Calls.Elapsed, Fresh, Times;
    var k: nat, replies: seq<Reply> :| CanBeCancelledAt(c, mounts, replies, k, longest);
    WaitsOncePerFreshMount(c, mounts[..k], replies, longest);
    OthersKeepTheirHandle(c, mounts[..k], replies, mounts[k]);
    FreshOfPrefix(c.stuck, mounts, k);
    AddOne(Fresh(c.stuck, mounts[..k]), longest);
    MoreIsLonger(Fresh(c.stuck, mounts[..k]) + 1, Fresh(c.stuck, mounts), longest);
  }

  lemma MoreIsLonger(m: nat, n: nat, x: real)
    requires m <= n && 0.0 <= x
    ensures Times(m, x) <= Times(n, x)
  {
    var d := (n - m) as real;
    assert n as real == m as real + d;
    assert 0.0 <= d * x;
    assert (m as real + d) * x == m as real * x + d * x;
  }

  /** Every new call answers after `wait` seconds. */
  function Slow(k: nat, wait: real): seq<Reply> {
    seq(k, _ => Reply({}, true, wait, None))
  }

  lemma {:induction false} SlowElapsed(c: Calls, mounts: seq<Path>, wait: real)
    requires Distinct(mounts)
    ensures c.Elapsed(mounts, Slow(|mounts|, wait)) == Times(Fresh(c.stuck, mounts), wait)
  {
    hide Calls.Collect, Calls.Elapsed, Fresh, Times;
    if mounts == [] {
      assert Slow(0, wait) == [];
      NothingElapses(c, wait);
    } else {
      var n := |mounts| - 1;
      SlowElapsed(c, mounts[..n], wait);
      assert Slow(|mounts|, wait)[..n] == Slow(n, wait);
      LastWait(c, mounts, Slow(|mounts|, wait));
      AddOne(Fresh(c.stuck, mounts[..n]), wait);
    }
  }

  lemma {:induction false} LastFresh(stuck: map<Path, nat>, mounts: seq<Path>) returns (k: nat)
    requires Fresh(stuck, mounts) > 0
    ensures k < |mounts| && mounts[k] !in stuck && Fresh(stuck, mounts[..k]) + 1 == Fresh(stuck, mounts)
  {
    var n := |mounts| - 1;
    k := n;
    if mounts[n] in stuck {
      k := LastFresh(stuck, mounts[..n]);
      assert mounts[..n][..k] == mounts[..k];
    }
  }

  /** Once that many mounts are not stuck, calls that all answer, only slowly,
      use up the deadline while the last of them is being asked. */
  lemma SlowMountsCancel(c: Calls, mounts: seq<Path>, longest: real) returns (k: nat, replies: seq<Reply>)
    requires Distinct(mounts) && STATVFS_TIMEOUT <= longest
    requires Times(Fresh(c.stuck, mounts), longest) > COLLECT_TIMEOUT
    ensures CanBeCancelledAt(c, mounts, replies, k, longest)
    ensures mounts[k] !in c.stuck
  {
    hide Calls.Collect, Calls.Elapsed, Fresh, Times;
    var f := Fresh(c.stuck, mounts);
    TimesZero(longest);
    k := LastFresh(c.stuck, mounts);
    var wait := COLLECT_TIMEOUT / f as real;
    ShareOfDeadline(f, longest);
    replies := Slow(k, wait);
    SlowElapsed(c, mounts[..k], wait);
    OthersKeepTheirHandle(c, mounts[..k], replies, mounts[k]);
    AddOne(f - 1, wait);
  }

  lemma ShareOfDeadline(f: nat, longest: real)
    requires f > 0 && Times(f, longest) > COLLECT_TIMEOUT
    ensures 0.0 <= COLLECT_TIMEOUT / f as real < longest
    ensures Times(f, COLLECT_TIMEOUT / f as real) == COLLECT_TIMEOUT
  {
    var x := COLLECT_TIMEOUT / f as real;
    assert f as real * x == COLLECT_TIMEOUT;
    ScaleLess(f as real, longest, x);
  }

  lemma ScaleLess(f: real, x: real, y: real)
    requires 0.0 < f && f * x > f * y
    ensures x > y
  {
  }

  /** The scheduler's timeout can interrupt a collect exactly when the mounts
      that are not stuck, at the longest wait each, exceed it. */
  lemma CancellationExact(c: Calls, mounts: seq<Path>, longest: real)
    requires Distinct(mounts) && STATVFS_TIMEOUT <= longest
    ensures CanBeCancelled(c, mounts, longest) <==> Times(Fresh(c.stuck, mounts), longest) > COLLECT_TIMEOUT
  {
    if CanBeCancelled(c, mounts, longest) {
      CancellationNeedsFreshMounts(c, mounts, longest);
    }
    if Times(Fresh(c.stuck, mounts), longest) > COLLECT_TIMEOUT {
      var k, replies := SlowMountsCancel(c, mounts, longest);
    }
  }

  // ---------------------------------------------------------------- histories

  /** One collect: it ran to its end, or the scheduler dropped it while it waited
      for the call to the k-th mount. */
  datatype Round =
    | Completed(mounts: seq<Path>, replies: seq<Reply>)
    | Cancelled(mounts: seq<Path>, replies: seq<Reply>, k: nat, returned: set<nat>)

  ghost predicate CanHappen(c: Calls, round: Round, longest: real) {
    && Distinct(round.mounts)
    && match round
       case Completed(mounts, replies) => |mounts| == |replies| && Plausible(replies, longest)
       case Cancelled(mounts, replies, k, _) => CanBeCancelledAt(c, mounts, replies, k, longest)
  }

  function AfterRound(c: Calls, round: Round): Calls {
    match round
    case Completed(mounts, replies) => if |mounts| == |replies| then c.Collect(mounts, replies) else c
    case Cancelled(mounts, replies, k, returned) =>
      if k < |mounts| && |replies| == k then c.Collect(mounts[..k], replies).Abandon(mounts[k], returned) else c
  }

  function After(rounds: seq<Round>): Calls {
    if rounds == [] then Calls(map[], map[], 0) else AfterRound(After(rounds[..|rounds| - 1]), rounds[|rounds| - 1])
  }

  /** A history in which no collect is dropped, or at most where the deadline
      cannot pass. */
  ghost predicate NoneDropped(rounds: seq<Round>, longest: real) {
    rounds != [] ==>
      var n := |rounds| - 1;
      && NoneDropped(rounds[..n], longest)
      && CanHappen(After(rounds[..n]), rounds[n], longest)
      && (rounds[n].Completed? || Times(Fresh(After(rounds[..n]).stuck, rounds[n].mounts), longest) <= COLLECT_TIMEOUT)
  }

  /** Every collect ran to its end, whatever mounts it was given and however long
      their calls took. */
  ghost predicate AllCompleted(rounds: seq<Round>) {
    forall i | 0 <= i < |rounds| :: rounds[i].Completed? && |rounds[i].mounts| == |rounds[i].replies|
  }

  /** No mount has two calls, neither now nor at any await point of a next collect. */
  ghost predicate NeverTwoCalls(c: Calls) {
    && OnePerMount(c)
    && forall mounts, replies, p, returned | |mounts| == |replies| && p !in c.Collect(mounts, replies).stuck ::
         OnePerMount(c.Collect(mounts, replies).Return(returned).Spawn(p))
  }

  lemma TrackedNeverTwoCalls(c: Calls)
    requires Tracked(c)
    ensures NeverTwoCalls(c)
  {
    hide Calls.Collect, OnePerMount, Tracked;
    TrackedIsOnePerMount(c);
    forall mounts, replies, p, returned | |mounts| == |replies| && p !in c.Collect(mounts, replies).stuck
      ensures OnePerMount(c.Collect(mounts, replies).Return(returned).Spawn(p))
    {
      CollectKeepsTracked(c, mounts, replies);
      TurnKeepsTracked(c.Collect(mounts, replies), p, Reply(returned, true, 0.0, None));
    }
  }

  /** Over any sequence of collects that run to their end every outstanding call
      keeps its handle, so no mount ever has two. */
  lemma {:induction false} UncancelledHistory(rounds: seq<Round>)
    requires AllCompleted(rounds)
    ensures Tracked(After(rounds)) && NeverTwoCalls(After(rounds))
  {
    if rounds != [] {
      hide Calls.Collect, Tracked, NeverTwoCalls;
      var n := |rounds| - 1;
      UncancelledHistory(rounds[..n]);
      CollectKeepsTracked(After(rounds[..n]), rounds[n].mounts, rounds[n].replies);
    }
    TrackedNeverTwoCalls(After(rounds));
  }

  /** The same with the scheduler's deadline in play, as long as no collect that
      it could interrupt is dropped. */
  lemma {:induction false} HistoryKeepsTracked(rounds: seq<Round>, longest: real)
    requires NoneDropped(rounds, longest)
    ensures Tracked(After(rounds)) && NeverTwoCalls(After(rounds))
  {
    if rounds != [] {
      hide Calls.Collect, Calls.Elapsed, Fresh, Times, Tracked, NeverTwoCalls;
      var n := |rounds| - 1;
      var before := After(rounds[..n]);
      HistoryKeepsTracked(rounds[..n], longest);
      match rounds[n]
      case Completed(mounts, replies) =>
        CollectKeepsTracked(before, mounts, replies);
      case Cancelled(mounts, replies, k, _) =>
        CancellationNeedsFreshMounts(before, mounts, longest);
    }
    TrackedNeverTwoCalls(After(rounds));
  }

  lemma {:induction false} QuickKeepsRunning(c: Calls, mounts: seq<Path>, i: nat)
    requires i in c.running && i < c.next
    ensures var d := c.Collect(mounts, Slow(|mounts|, 0.0));
            i in d.running && d.running[i] == c.running[i] && c.next <= d.next
  {
    if mounts != [] {
      var n := |mounts| - 1;
      QuickKeepsRunning(c, mounts[..n], i);
      assert Slow(|mounts|, 0.0)[..n] == Slow(n, 0.0);
    }
  }

  /** A dropped collect forgets the call it waits for: whenever that happens, the
      next collect can start a second one for the same mount. */
  lemma DropForgetsCall(c: Calls, mounts: seq<Path>, replies: seq<Reply>, k: nat, longest: real)
    requires Distinct(mounts) && CanBeCancelledAt(c, mounts, replies, k, longest)
    ensures var dropped := c.Collect(mounts[..k], replies).Abandon(mounts[k], {});
            var next := dropped.Collect(mounts[..k], Slow(k, 0.0));
            mounts[k] !in next.stuck && !OnePerMount(next.Spawn(mounts[k])) && !NeverTwoCalls(dropped)
  {
    hide Calls.Elapsed, Calls.Turn;
    var p := mounts[k];
    var before := c.Collect(mounts[..k], replies);
    var dropped := before.Abandon(p, {});
    OthersKeepTheirHandle(dropped, mounts[..k], Slow(k, 0.0), p);
    QuickKeepsRunning(dropped, mounts[..k], before.next);
    var next := dropped.Collect(mounts[..k], Slow(k, 0.0));
    var both := next.Spawn(p);
    assert both.running[before.next] == p && both.running[next.next] == p && before.next != next.next;
    assert next.Return({}) == next;
  }

  /** Once enough mounts are not stuck this can happen. */
  lemma SecondCall(c: Calls, mounts: seq<Path>, longest: real) returns (k: nat, replies: seq<Reply>)
    requires Distinct(mounts) && STATVFS_TIMEOUT <= longest
    requires Times(Fresh(c.stuck, mounts), longest) > COLLECT_TIMEOUT
    ensures CanBeCancelledAt(c, mounts, replies, k, longest)
    ensures var dropped := c.Collect(mounts[..k], replies).Abandon(mounts[k], {});
            var next := dropped.Collect(mounts[..k], Slow(k, 0.0));
            mounts[k] !in next.stuck && !OnePerMount(next.Spawn(mounts[k]))
  {
    hide Calls.Collect, Calls.Elapsed, Fresh, Times, OnePerMount;
    k, replies := SlowMountsCancel(c, mounts, longest);
    DropForgetsCall(c, mounts, replies, k, longest);
  }

  // ---------------------------------------------------------------- the objects

  /** The blocking threads. A call that has returned is no longer running. */
  class BlockingPool {
    var running: map<nat, Path>
    var next: nat

    constructor ()
      ensures running == map[] && next == 0
    {
      running, next := map[], 0;
    }

    method Spawn(p: Path) returns (handle: nat)
      modifies this
      ensures handle == old(next) && next == old(next) + 1 && running == old(running)[handle := p]
    {
      handle := next;
      running := running[next := p];
      next := next + 1;
    }

    method Settle(returned: set<nat>)
      modifies this`running
      ensures running == old(running) - returned
    {
      running := running - returned;
    }
  }

  class FilesystemCollector {
    const pool: BlockingPool
    var stuck: map<Path, nat>

    ghost function View(): Calls
      reads this, pool
    {
      Calls(stuck, pool.running, pool.next)
    }

    constructor (pool: BlockingPool)
      ensures this.pool == pool && stuck == map[]
    {
      this.pool := pool;
      stuck := map[];
    }

    method UsageOf(p: Path, reply: Reply) returns (u: Option<Usage>)
      modifies this, pool
      ensures (u, View()) == old(View()).Turn(p, reply)
    {
      pool.Settle(reply.returned);
      if p in stuck {
        if stuck[p] in pool.running {
          return None;
        }
        stuck := stuck - {p};
        return reply.result;
      }
      var handle := pool.Spawn(p);
      if reply.inTime {
        pool.Settle({handle});
        return reply.result;
      }
      stuck := stuck[p := handle];
      return None;
    }

    method Collect(mounts: seq<Path>, replies: seq<Reply>) returns (stats: seq<(Path, Usage)>)
      requires |mounts| == |replies|
      modifies this, pool
      ensures View() == old(View()).Collect(mounts, replies)
      ensures stats == Stats(old(View()), mounts, replies)
      ensures Tracked(old(View())) && Distinct(mounts) ==> stats == Report(old(View()), mounts, replies)
    {
      stats := [];
      for i := 0 to |mounts|
        invariant View() == old(View()).Collect(mounts[..i], replies[..i])
        invariant stats == Stats(old(View()), mounts[..i], replies[..i])
      {
        assert mounts[..i + 1][..i] == mounts[..i] && replies[..i + 1][..i] == replies[..i];
        var u := UsageOf(mounts[i], replies[i]);
        if u.Some? {
          stats := stats + [(mounts[i], u.value)];
        }
      }
      assert mounts[..|mounts|] == mounts && replies[..|mounts|] == replies;
      if Tracked(old(View())) && Distinct(mounts) {
        CollectExact(old(View()), mounts, replies);
      }
    }
  }
}
