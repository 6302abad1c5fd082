/** The bounded request queue between publishers and the event loop. */
module Channel {
  import opened Basics

  /** `pending` is what the event loop has not taken yet; `sent` is the history
      of everything ever accepted. The queue is open while its reader lives. */
  datatype Queue<T> = Queue(capacity: nat, open: bool, pending: seq<T>, sent: seq<T>) {

    ghost predicate Valid() {
      && |pending| <= capacity
      && |pending| <= |sent|
      && pending == sent[|sent| - |pending|..]
    }

    function Free(): nat {
      if open && |pending| < capacity then capacity - |pending| else 0
    }

    function Push(x: T): Queue<T> {
      this.(pending := pending + [x], sent := sent + [x])
    }

    /** `try_send`: never waits, refuses when full or when the reader is gone. */
    function TryPush(x: T): Queue<T> {
      if Free() > 0 then Push(x) else this
    }

    /** Pushes in order and stops at the first refusal. */
    function PushAll(items: seq<T>): (r: (bool, Queue<T>))
      decreases |items|
    {
      if items == [] then (true, this)
      else if Free() == 0 then (false, this)
      else Push(items[0]).PushAll(items[1..])
    }

    function Drain(n: nat): Queue<T>
      requires n <= |pending|
    {
      this.(pending := pending[n..])
    }

    /** A batch enters as exactly the prefix that fits, in order, and is
        reported as accepted exactly when all of it fitted. */
    lemma {:induction false} PushAllExact(items: seq<T>)
      ensures var k := Min(|items|, Free());
              && PushAll(items) == (k == |items|, this.(pending := pending + items[..k], sent := sent + items[..k]))
      decreases |items|
    {
      if items == [] || Free() == 0 {
        assert pending + items[..0] == pending && sent + items[..0] == sent;
      } else {
        var k := Min(|items|, Free());
        Push(items[0]).PushAllExact(items[1..]);
        assert [items[0]] + items[1..][..k - 1] == items[..k];
        assert pending + [items[0]] + items[1..][..k - 1] == pending + items[..k];
        assert sent + [items[0]] + items[1..][..k - 1] == sent + items[..k];
      }
    }

    /** What the event loop has taken so far. */
    function Taken(): seq<T>
      requires |pending| <= |sent|
    {
      sent[..|sent| - |pending|]
    }

    /** The oldest requests are taken first, none is lost and none taken twice. */
    lemma DrainTakesOldest(n: nat)
      requires Valid() && n <= |pending|
      ensures Drain(n).Valid()
      ensures Drain(n).Taken() == Taken() + pending[..n]
      ensures Drain(n).Taken() + Drain(n).pending == sent
    {
      var k := |sent| - |pending|;
      assert pending[..n] == sent[k..k + n];
      assert pending[n..] == sent[k + n..];
      assert sent[..k] + sent[k..k + n] == sent[..k + n];
      assert sent[..k + n] + sent[k + n..] == sent;
    }

    lemma PushAllValid(items: seq<T>)
      requires Valid()
      ensures PushAll(items).1.Valid()
    {
      PushAllExact(items);
      var k := Min(|items|, Free());
      var q := PushAll(items).1;
      assert q.pending == q.sent[|q.sent| - |q.pending|..];
    }
  }

  /** The queue as an object shared by the client handles and the event loop. */
  class Requests<T> {
    const capacity: nat
    var open: bool
    var pending: seq<T>
    ghost var sent: seq<T>

    constructor (capacity: nat)
      ensures View() == Queue(capacity, true, [], [])
    {
      this.capacity := capacity;
      open := true;
      pending := [];
      sent := [];
    }

    ghost function View(): Queue<T>
      reads this
    {
      Queue(capacity, open, pending, sent)
    }

    method TryPublish(x: T) returns (ok: bool)
      modifies this
      ensures ok == (old(View()).Free() > 0)
      ensures View() == old(View()).TryPush(x)
    {
      ok := open && |pending| < capacity;
      if ok {
        pending := pending + [x];
        sent := sent + [x];
      }
    }

    /** The event loop takes the oldest request. */
    method Take() returns (x: Option<T>)
      modifies this
      ensures x == if old(pending) == [] then None else Some(old(pending)[0])
      ensures View() == old(View()).Drain(if old(pending) == [] then 0 else 1)
    {
      if |pending| == 0 {
        return None;
      }
      x := Some(pending[0]);
      pending := pending[1..];
    }

    method Close()
      modifies this
      ensures View() == old(View()).(open := false)
    {
      open := false;
    }
  }
}
