/**
 The timers of drivers/timer.c on top of the radix heap, proved against the plain set of
 deadlines they stand for.
 */
module Timers {
  import opened Deadlines
  import opened Lists
  import opened RadixHeap

  class TimerDriver {
    const crh: Crh
    var now: nat
    /** The timers whose status is TIMER_OPEN. */
    var open: set<nat>
    /** The activations made through event_activate. */
    var log: seq<Fire>

    ghost predicate Valid()
      reads this, crh
    {
      crh.Valid() && crh.base == now && open == crh.Due().Keys
    }

    ghost function State(): Deadlines
      reads this, crh
    {
      Deadlines(now, crh.Due(), log)
    }

    constructor ()
      ensures Valid() && fresh(crh) && State() == Deadlines(0, map[], [])
    {
      crh := new Crh();
      now, open, log := 0, {}, [];
    }

    lemma ValidWf()
      requires Valid()
      ensures Wf(State())
    {
      crh.DueIs();
    }

    /** Activates every timer of the ring once, in order, and closes it. */
    method QueueAppend(queue: seq<nat>)
      modifies this`open, this`log
      ensures open == old(open) - (set x | x in queue) && log == old(log) + FiredAt(queue, now)
    {
      if queue != [] {
        var ring := queue;
        ghost var i := 0;
        while true
          invariant i < |queue| && ring == queue[i..]
          invariant open == old(open) - (set x | x in queue[..i]) && log == old(log) + FiredAt(queue[..i], now)
          decreases |ring|
        {
          var t := ring[0];
          open := open - {t};
          log := log + [Fire(t, now)];
          assert queue[..i + 1] == queue[..i] + [t];
          assert FiredAt(queue[..i + 1], now) == FiredAt(queue[..i], now) + [Fire(t, now)];
          if |ring| == 1 {
            assert queue[..i + 1] == queue;
            break;
          }
          ring := ring[1..];
          i := i + 1;
        }
      }
    }

    /** Opens a timer: an equal tick fires at once, a later one becomes a deadline. */
    method OpenTimer(id: nat, tick: nat)
      requires Valid() && id !in open && now <= tick < KEY_LIMIT
      modifies this`open, this`log, crh
      ensures Valid() && Step(old(State()), Open(id, tick), State())
    {
      open := open + {id};
      var ok := crh.Insert(id, tick);
      if !ok {
        QueueAppend([id]);
        assert FiredAt([id], now) == [Fire(id, now)];
      }
    }

    method CloseTimer(id: nat)
      requires Valid()
      modifies this`open, crh
      ensures Valid() && Step(old(State()), Close(id), State())
    {
      if id in open {
        crh.Remove(id);
      }
      open := open - {id};
    }

    /** A step that passes no deadline. */
    method Advance(n: nat)
      requires Valid() && 0 < n && now + n < KEY_LIMIT && forall id :: id in crh.Due() ==> now + n <= crh.Due()[id]
      modifies this, crh
      ensures Valid() && now == old(now) + n && Step(old(State()), Tick(n), State())
    {
      hide Step, Crh.Valid, Crh.Due, Wf;
      ValidWf();
      ghost var s := State();
      var fired := crh.SetBase(now + n);
      now := now + n;
      QueueAppend(fired);
      OneStep(s, n, fired, State());
    }

    /** With nothing pending the base moves at once, and what comes out of the heap is dropped: it is empty. */
    method AdvanceIdle(n: nat)
      requires Valid() && 0 < n && now + n < KEY_LIMIT && crh.Due() == map[]
      modifies this`now, crh
      ensures Valid() && now == old(now) + n && Step(old(State()), Tick(n), State())
    {
      hide Step, Crh.Valid, Crh.Due, Wf;
      ValidWf();
      ghost var s := State();
      now := now + n;
      assert crh.Due() == map[];
      var dropped := crh.SetBase(now);
      assert forall id :: id !in dropped;
      OneStep(s, n, [], State());
    }

    /** Ticks reach every deadline in between, whatever the steps the heap allows. */
    method TickHandler(tick: nat)
      requires Valid() && now + tick < KEY_LIMIT
      modifies this, crh
      ensures Valid() && Step(old(State()), Tick(tick), State())
    {
      hide Step, Valid, State, Wf, Crh.Due;
      ValidWf();
      ghost var s0 := State();
      NoTick(s0);
      var left := tick;
      while left > 0
        invariant 0 <= left <= tick && Valid() && now + left == old(now) + tick
        invariant Step(s0, Tick(tick - left), State())
        decreases left
      {
        ghost var s1 := State();
        ValidHeap();
        var s := crh.MaxStep();
        Steps(s);
        if s == 0 {
          AdvanceIdle(left);
          TickTwice(s0, tick - left, s1, left, State());
          break;
        }
        if left < s {
          s := left;
        }
        Advance(s);
        TickTwice(s0, tick - left, s1, s, State());
        left := left - s;
      }
    }

    lemma ValidHeap()
      requires Valid()
      ensures crh.Valid()
    {
    }

    lemma Steps(s: int)
      requires Valid() && StepOk(crh.base, crh.keys, crh.heads, s)
      ensures s >= 0 && (s == 0 ==> crh.Due() == map[])
      ensures forall id :: id in crh.Due() ==> now + s <= crh.Due()[id]
    {
      hide Placed, BitsOk;
      crh.DueIs();
    }
  }
}
