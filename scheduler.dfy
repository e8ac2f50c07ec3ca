/// `tools/scheduler.py`: a list of (due time, callback) events; `schedule` appends one due
/// a delay from now, `run_pending` fires every event that is due, in list order, and
/// removes it. Times are whole numbers of clock ticks; the clock reading is a parameter.
/// A callback is known by its identity, which is what Python's tuple equality compares.
module Scheduler {

  type CallbackId = int

  datatype Event = Event(due: int, callback: CallbackId)

  /** The events not yet due at `now`, in their original order. */
  function Pending(s: seq<Event>, now: int): (p: seq<Event>)
    ensures |p| <= |s|
  {
    if s == [] then []
    else if now < s[0].due then [s[0]] + Pending(s[1..], now)
    else Pending(s[1..], now)
  }

  /** The events due at `now`, in their original order. */
  function Due(s: seq<Event>, now: int): (d: seq<Event>)
    ensures |d| <= |s|
  {
    if s == [] then []
    else if s[0].due <= now then [s[0]] + Due(s[1..], now)
    else Due(s[1..], now)
  }

  /** The callbacks of the events, in order. */
  function Callbacks(s: seq<Event>): (cs: seq<CallbackId>)
    ensures |cs| == |s|
  {
    if s == [] then [] else [s[0].callback] + Callbacks(s[1..])
  }

  /** The `i`th callback is that of the `i`th event. */
  lemma {:induction false} CallbacksAt(s: seq<Event>, i: nat)
    requires i < |s|
    ensures Callbacks(s)[i] == s[i].callback
  {
    if 0 < i {
      CallbacksAt(s[1..], i - 1);
    }
  }

  /** The index of the first occurrence of `x` in `s`. */
  function IndexOf(s: seq<Event>, x: Event): (i: nat)
    requires x in s
    ensures i < |s| && s[i] == x && x !in s[..i]
  {
    if s[0] == x then 0 else 1 + IndexOf(s[1..], x)
  }

  /** `list.remove(x)`: drop the first occurrence of `x`. */
  function RemoveFirst(s: seq<Event>, x: Event): (r: seq<Event>)
    requires x in s
    ensures |r| == |s| - 1
    ensures multiset(r) == multiset(s) - multiset{x}
  {
    var i := IndexOf(s, x);
    assert s == s[..i] + [x] + s[i + 1..];
    s[..i] + s[i + 1..]
  }

  /** An event is pending exactly when it is in the list and not yet due. */
  lemma {:induction false} PendingMembers(s: seq<Event>, now: int, e: Event)
    ensures e in Pending(s, now) <==> e in s && now < e.due
  {
    if s != [] {
      PendingMembers(s[1..], now, e);
      assert s == [s[0]] + s[1..];
    }
  }

  /** An event is due exactly when it is in the list and its time has come. */
  lemma {:induction false} DueMembers(s: seq<Event>, now: int, e: Event)
    ensures e in Due(s, now) <==> e in s && e.due <= now
  {
    if s != [] {
      DueMembers(s[1..], now, e);
      assert s == [s[0]] + s[1..];
    }
  }

  /** Every event is either pending or due, never both and never lost. */
  lemma {:induction false} PendingDuePartition(s: seq<Event>, now: int)
    ensures multiset(Pending(s, now)) + multiset(Due(s, now)) == multiset(s)
    ensures |Pending(s, now)| + |Due(s, now)| == |s|
  {
    if s != [] {
      PendingDuePartition(s[1..], now);
      assert s == [s[0]] + s[1..];
    }
  }

  /** What is left pending at `now` has nothing due at `now` any more. */
  lemma {:induction false} PendingIdempotent(s: seq<Event>, now: int)
    ensures Pending(Pending(s, now), now) == Pending(s, now)
    ensures Due(Pending(s, now), now) == []
  {
    if s != [] {
      PendingIdempotent(s[1..], now);
    }
  }

  /** Leaving the events pending at `t1` and then those pending at a later `t2` leaves
      what leaving those pending at `t2` does at once. */
  lemma {:induction false} PendingLater(s: seq<Event>, t1: int, t2: int)
    requires t1 <= t2
    ensures Pending(Pending(s, t1), t2) == Pending(s, t2)
  {
    if s != [] {
      PendingLater(s[1..], t1, t2);
    }
  }

  /** The events due at `t1`, together with those that then come due by a later `t2`, are
      the events due at `t2`: each fires once. */
  lemma {:induction false} DueLater(s: seq<Event>, t1: int, t2: int)
    requires t1 <= t2
    ensures multiset(Due(s, t1)) + multiset(Due(Pending(s, t1), t2)) == multiset(Due(s, t2))
  {
    if s != [] {
      DueLater(s[1..], t1, t2);
    }
  }

  /** Filtering out the due events distributes over concatenation. */
  lemma {:induction false} PendingAppend(a: seq<Event>, b: seq<Event>, now: int)
    ensures Pending(a + b, now) == Pending(a, now) + Pending(b, now)
  {
    if a == [] {
      assert a + b == b;
    } else {
      assert (a + b)[1..] == a[1..] + b;
      PendingAppend(a[1..], b, now);
    }
  }

  /** Keeping the due events distributes over concatenation. */
  lemma {:induction false} DueAppend(a: seq<Event>, b: seq<Event>, now: int)
    ensures Due(a + b, now) == Due(a, now) + Due(b, now)
  {
    if a == [] {
      assert a + b == b;
    } else {
      assert (a + b)[1..] == a[1..] + b;
      DueAppend(a[1..], b, now);
    }
  }

  /** An event scheduled with a positive delay is not fired by a run at the same clock
      reading and stays last among the pending events; one with a delay of zero or less
      fires after every earlier due event. */
  lemma ScheduleThenRun(s: seq<Event>, delay: int, callback: CallbackId, now: int)
    ensures var e := Event(now + delay, callback);
            && (0 < delay ==> Pending(s + [e], now) == Pending(s, now) + [e]
                              && Due(s + [e], now) == Due(s, now))
            && (delay <= 0 ==> Pending(s + [e], now) == Pending(s, now)
                               && Due(s + [e], now) == Due(s, now) + [e])
  {
    var e := Event(now + delay, callback);
    PendingAppend(s, [e], now);
    DueAppend(s, [e], now);
  }

  /** Removing a due event that follows only not-yet-due events removes that event. */
  lemma RemoveAfterPending(p: seq<Event>, e: Event, rest: seq<Event>, now: int)
    requires forall j | 0 <= j < |p| :: now < p[j].due
    requires e.due <= now
    ensures RemoveFirst(p + [e] + rest, e) == p + rest
  {
    var s := p + [e] + rest;
    assert s[|p|] == e;
    assert e !in p by {
      if j :| 0 <= j < |p| && p[j] == e {
        assert false;
      }
    }
    assert s[..|p|] == p;
    var i := IndexOf(s, e);
    if i < |p| {
      assert false;
    } else if i > |p| {
      assert false;
    }
    assert s[i + 1..] == rest;
  }

  /** The events list after `run_pending` has walked the first `i` events of its snapshot:
      the walked events that are not yet due, then the events not walked yet. */
  function Walked(snapshot: seq<Event>, i: nat, now: int): seq<Event>
    requires i <= |snapshot|
  {
    Pending(snapshot[..i], now) + snapshot[i..]
  }

  /** The callbacks `run_pending` has called after walking the first `i` events. */
  function FiredSoFar(snapshot: seq<Event>, i: nat, now: int): seq<CallbackId>
    requires i <= |snapshot|
  {
    Callbacks(Due(snapshot[..i], now))
  }

  /** Before the walk the list is the snapshot and nothing has fired; after it, the list holds
      the pending events and the due ones have fired. */
  lemma WalkedEnds(snapshot: seq<Event>, now: int)
    ensures Walked(snapshot, 0, now) == snapshot && FiredSoFar(snapshot, 0, now) == []
    ensures Walked(snapshot, |snapshot|, now) == Pending(snapshot, now)
    ensures FiredSoFar(snapshot, |snapshot|, now) == Callbacks(Due(snapshot, now))
  {
    assert snapshot[..0] == [] && snapshot[0..] == snapshot;
    assert snapshot[..|snapshot|] == snapshot && snapshot[|snapshot|..] == [];
  }

  /** One step of `run_pending`'s walk over the snapshot: a due event is in the list and
      removing it gives the list after the step; a not-yet-due one is skipped. */
  lemma RunStepEvents(snapshot: seq<Event>, i: nat, now: int)
    requires i < |snapshot|
    ensures snapshot[i].due <= now ==>
              (snapshot[i] in Walked(snapshot, i, now)
               && RemoveFirst(Walked(snapshot, i, now), snapshot[i]) == Walked(snapshot, i + 1, now))
    ensures now < snapshot[i].due ==> Walked(snapshot, i, now) == Walked(snapshot, i + 1, now)
  {
    var e := snapshot[i];
    assert snapshot[..i + 1] == snapshot[..i] + [e];
    assert snapshot[i..] == [e] + snapshot[i + 1..];
    PendingAppend(snapshot[..i], [e], now);
    if e.due <= now {
      var p := Pending(snapshot[..i], now);
      assert Pending([e], now) == [];
      assert Walked(snapshot, i, now) == p + [e] + snapshot[i + 1..];
      assert Walked(snapshot, i + 1, now) == p + snapshot[i + 1..];
      RunStepDue(snapshot[..i], e, snapshot[i + 1..], now);
    } else {
      assert Pending([e], now) == [e];
    }
  }

  /** The walked events not yet due, a due event, and the rest: the event is found there,
      after every walked pending event, and removing it leaves the others in place. */
  lemma RunStepDue(walked: seq<Event>, e: Event, rest: seq<Event>, now: int)
    requires e.due <= now
    ensures e in Pending(walked, now) + [e] + rest
    ensures RemoveFirst(Pending(walked, now) + [e] + rest, e) == Pending(walked, now) + rest
  {
    var p := Pending(walked, now);
    forall j | 0 <= j < |p| ensures now < p[j].due {
      PendingMembers(walked, now, p[j]);
    }
    assert (p + [e] + rest)[|p|] == e;
    RemoveAfterPending(p, e, rest, now);
  }

  /** One whole step of the walk, on the list and the callbacks called so far. */
  lemma RunStep(snapshot: seq<Event>, i: nat, now: int, events: seq<Event>, fired: seq<CallbackId>)
    requires i < |snapshot|
    requires events == Walked(snapshot, i, now) && fired == FiredSoFar(snapshot, i, now)
    ensures snapshot[i].due <= now ==>
              (snapshot[i] in events
               && RemoveFirst(events, snapshot[i]) == Walked(snapshot, i + 1, now)
               && fired + [snapshot[i].callback] == FiredSoFar(snapshot, i + 1, now))
    ensures now < snapshot[i].due ==>
              events == Walked(snapshot, i + 1, now) && fired == FiredSoFar(snapshot, i + 1, now)
  {
    RunStepEvents(snapshot, i, now);
    RunStepFired(snapshot, i, now);
  }

  /** One step of the walk calls the event's callback exactly when the event is due. */
  lemma RunStepFired(snapshot: seq<Event>, i: nat, now: int)
    requires i < |snapshot|
    ensures FiredSoFar(snapshot, i + 1, now)
         == FiredSoFar(snapshot, i, now) + (if snapshot[i].due <= now then [snapshot[i].callback] else [])
  {
    var e := snapshot[i];
    assert snapshot[..i + 1] == snapshot[..i] + [e];
    DueAppend(snapshot[..i], [e], now);
    CallbacksAppend(Due(snapshot[..i], now), Due([e], now));
  }

  class SimpleScheduler {
    var events: seq<Event>

    /** `SimpleScheduler()`: no events. */
    constructor()
      ensures events == []
    {
      events := [];
    }

    /** `schedule(delay, func)` at clock reading `now`: append an event due at `now + delay`. */
    method Schedule(delay: int, callback: CallbackId, now: int)
      modifies this
      ensures events == old(events) + [Event(now + delay, callback)]
    {
      events := events + [Event(now + delay, callback)];
    }

    /** `run_pending()` at clock reading `now`: walk a snapshot of the events, call each due
        callback in order and remove its event. Afterwards exactly the events not yet due
        remain, in their order, and the callbacks called are those of the due events, in
        their order. */
    method RunPending(now: int) returns (fired: seq<CallbackId>)
      modifies this
      ensures events == Pending(old(events), now)
      ensures fired == Callbacks(Due(old(events), now))
    {
      var snapshot := events;
      WalkedEnds(snapshot, now);
      fired := [];
      var i := 0;
      while i < |snapshot|
        invariant 0 <= i <= |snapshot|
        invariant events == Walked(snapshot, i, now)
        invariant fired == FiredSoFar(snapshot, i, now)
      {
        var e := snapshot[i];
        RunStep(snapshot, i, now, events, fired);
        if e.due <= now {
          fired := fired + [e.callback];
          events := RemoveFirst(events, e);
        }
        i := i + 1;
      }
    }
  }

  lemma {:induction false} CallbacksAppend(a: seq<Event>, b: seq<Event>)
    ensures Callbacks(a + b) == Callbacks(a) + Callbacks(b)
  {
    if a != [] {
      assert (a + b)[0] == a[0] && (a + b)[1..] == a[1..] + b;
      CallbacksAppend(a[1..], b);
      assert Callbacks(a + b) == [a[0].callback] + (Callbacks(a[1..]) + Callbacks(b));
    } else {
      assert a + b == b;
    }
  }
}
