/** Listener lists: the semaphores of waiting threads, and the list of listeners that a
    process or thread notifies when it ends.  The methods are the bodies of the critical
    sections; the lock around them is part of the protocol of module Wait. */
module Listeners {

  import opened Common

  /** A counting semaphore that one thread sleeps on. */
  class Semaphore {
    const sleeper: Handle
    var notifier: Handle
    var notified: bool
    var count: nat

    constructor (sleeper: Handle)
      ensures this.sleeper == sleeper && count == 0 && !notified && notifier == INVALID_HANDLE
    {
      this.sleeper, count, notified, notifier := sleeper, 0, false, INVALID_HANDLE;
    }

    method Notify()
      modifies this`count
      ensures count == old(count) + 1
    {
      count := count + 1;
    }

    /** The end of a wait: the loop around the condition variable is left only with a
        count that is not zero. */
    method Wait()
      requires count > 0
      modifies this`count
      ensures count + 1 == old(count)
    {
      count := count - 1;
    }

    /** Notified once, with the handle of whoever came first. */
    twostate predicate NotifiedBy(handle: Handle)
      reads this
    {
      && notified
      && (if old(notified) then notifier == old(notifier) && count == old(count)
          else notifier == handle && count == old(count) + 1)
    }
  }

  class Blockable {
    var listeners: seq<Semaphore>

    constructor ()
      ensures listeners == []
    {
      listeners := [];
    }

    method AddListener(listener: Semaphore)
      modifies this
      ensures listeners == old(listeners) + [listener]
    {
      listeners := listeners + [listener];
    }

    /** Notifies every listener in the list that was not notified yet, also if it is in
        the list more than once, and empties the list. */
    method NotifyRemoveListeners(handle: Handle)
      modifies this, set l | l in listeners
      ensures listeners == []
      ensures forall l | l in old(listeners) :: l.NotifiedBy(handle)
    {
      var i := 0;
      while i < |listeners|
        invariant i <= |listeners| && listeners == old(listeners)
        invariant forall k | 0 <= k < i :: listeners[k].NotifiedBy(handle)
        invariant forall l | l in listeners :: l.NotifiedBy(handle) || (l.notified == old(l.notified) && l.notifier == old(l.notifier) && l.count == old(l.count))
      {
        var listener := listeners[i];
        if !listener.notified {
          listener.notified := true;
          listener.notifier := handle;
          listener.Notify();
        }
        i := i + 1;
      }
      listeners := [];
    }

    /** Removes the listeners of one thread.  The loop moves on only over what it removes,
        so all that are in the list must be that thread's (see RemovalEndsIff). */
    method RemoveListener(handle: Handle)
      requires forall k | 0 <= k < |listeners| :: listeners[k].sleeper == handle
      modifies this
      ensures listeners == []
    {
      while listeners != []
        invariant forall k | 0 <= k < |listeners| :: listeners[k].sleeper == handle
        decreases |listeners|
      {
        if listeners[0].sleeper == handle {
          listeners := listeners[1..];
        }
      }
    }
  }

  // ----- when removing ends -----------------------------------------------------------

  /** One round of the removal loop on the sleepers of a list. */
  function RemovalRound(sleepers: seq<Handle>, handle: Handle): seq<Handle> {
    if sleepers != [] && sleepers[0] == handle then sleepers[1..] else sleepers
  }

  function Rounds(sleepers: seq<Handle>, handle: Handle, n: nat): seq<Handle> {
    if n == 0 then sleepers else Rounds(RemovalRound(sleepers, handle), handle, n - 1)
  }

  /** The loop ends, after as many rounds as the list is long, if and only if nobody else
      listens; otherwise the first foreign listener stays at the front for good. */
  lemma {:induction false} RemovalEndsIff(sleepers: seq<Handle>, handle: Handle, n: nat)
    requires n >= |sleepers|
    ensures Rounds(sleepers, handle, n) == [] <==> forall k | 0 <= k < |sleepers| :: sleepers[k] == handle
    decreases n
  {
    if n > 0 {
      if sleepers != [] && sleepers[0] == handle {
        RemovalEndsIff(sleepers[1..], handle, n - 1);
        assert (forall k | 0 <= k < |sleepers[1..]| :: sleepers[1..][k] == handle)
          <==> forall k | 0 <= k < |sleepers| :: sleepers[k] == handle by {
          assert forall k | 0 < k < |sleepers| :: sleepers[k] == sleepers[1..][k - 1];
        }
      } else {
        RoundsStay(sleepers, handle, n);
      }
    }
  }

  lemma {:induction false} RoundsStay(sleepers: seq<Handle>, handle: Handle, n: nat)
    requires RemovalRound(sleepers, handle) == sleepers
    ensures Rounds(sleepers, handle, n) == sleepers
  {
    if n > 0 {
      RoundsStay(sleepers, handle, n - 1);
    }
  }
}
