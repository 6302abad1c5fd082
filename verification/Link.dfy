/** The versioned cell that carries the connection state from the driver to
    the scheduler (a watch channel), and the states it holds. */
module Link {

  datatype State =
    | Connecting
    | Connected
    | Disconnected(reason: string)
    | Reconnecting(seconds: real)
    | FatalExit(reason: string)

  /** `version` counts modifications; a receiver that has seen version v is
      woken exactly by a larger one. `closed` once the sender is gone. */
  datatype Watch = Watch(value: State, version: nat, closed: bool) {

    /** `send_if_modified`: storing an equal value is not a modification. */
    function Set(next: State): Watch {
      if value == next then this else this.(value := next, version := version + 1)
    }
  }

  function SetAll(w: Watch, states: seq<State>): Watch {
    if states == [] then w else SetAll(w, states[..|states| - 1]).Set(states[|states| - 1])
  }

  /** How often the value differs from the one before it. */
  function Changes(first: State, states: seq<State>): nat {
    if states == [] then 0
    else
      var n := |states| - 1;
      Changes(first, states[..n]) + if states[n] == (if n == 0 then first else states[n - 1]) then 0 else 1
  }

  /** The cell holds the last value stored, and its version counts the changes:
      a receiver is woken by those and by nothing else. */
  lemma {:induction false} VersionCountsChanges(w: Watch, states: seq<State>)
    ensures var v := SetAll(w, states);
            && v.value == (if states == [] then w.value else states[|states| - 1])
            && v.version == w.version + Changes(w.value, states)
            && v.closed == w.closed
  {
    if states != [] {
      VersionCountsChanges(w, states[..|states| - 1]);
    }
  }

  class Cell {
    var value: State
    var version: nat
    var closed: bool

    constructor ()
      ensures View() == Watch(Connecting, 0, false)
    {
      value, version, closed := Connecting, 0, false;
    }

    ghost function View(): Watch
      reads this
    {
      Watch(value, version, closed)
    }

    method Set(next: State)
      modifies this
      ensures View() == old(View()).Set(next)
    {
      if value != next {
        value := next;
        version := version + 1;
      }
    }

    method Close()
      modifies this
      ensures View() == old(View()).(closed := true)
    {
      closed := true;
    }
  }
}
