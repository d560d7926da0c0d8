/**
 The event loop of kern-river: proc/event.c with the wait and notify words of proc/proc.c.
 Sections with interrupts off are single steps; an activation may come between any two.
 */
module Events {
  import opened Lists

  datatype EventStatus = Wait | Queued | QueuedStrong

  /** The status word of the owning process. */
  datatype ProcStatus = Weak | Strong | Waiting

  /** Where the owning process stands: before a look at the queue, in a handler, having found nothing, or asleep. */
  datatype Point = Top | Handling(event: nat) | Exhausted | Asleep

  datatype State = State(status: map<nat, EventStatus>, queue: seq<nat>, proc: ProcStatus, at: Point)

  /** An activation from anywhere, or a step of the owning process. */
  datatype Op = Activate(event: nat) | Look | Return | WaitTry | Resume

  /** Notifying makes a runnable process' word strong and a waiting process runnable. */
  function Notified(p: ProcStatus): ProcStatus
  {
    match p
    case Weak => Strong
    case Strong => Strong
    case Waiting => Weak
  }

  ghost predicate Step(s: State, op: Op, t: State)
  {
    match op
    case Activate(e) =>
      e in s.status && t.at == s.at && t.proc == Notified(s.proc) &&
      t.status == s.status[e := if s.status[e] == Wait then Queued else QueuedStrong] &&
      t.queue == if s.status[e] == Wait then s.queue + [e] else s.queue
    case Look =>
      s.at == Top && t.proc == s.proc &&
      if s.queue == [] then t == s.(at := Exhausted)
      else
        s.queue[0] in s.status && t.at == Handling(s.queue[0]) &&
        if s.status[s.queue[0]] == QueuedStrong
        then t.status == s.status[s.queue[0] := Queued] && t.queue == s.queue[1..] + [s.queue[0]]
        else t.status == s.status[s.queue[0] := Wait] && t.queue == s.queue[1..]
    case Return => s.at.Handling? && t == s.(at := Top)
    case WaitTry =>
      s.at == Exhausted && s.proc != Waiting &&
      t == if s.proc == Weak then s.(proc := Waiting, at := Asleep) else s.(proc := Weak, at := Top)
    case Resume => s.at == Asleep && s.proc != Waiting && t == s.(at := Top)
  }

  /** Queued once and exactly when not waiting; and no sleeping on, or about to sleep on, a queue that is not empty. */
  ghost predicate Inv(s: State)
  {
    && NoDup(s.queue) && (forall e :: e in s.queue <==> e in s.status && s.status[e] != Wait)
    && (s.proc == Waiting ==> s.at == Asleep && s.queue == [])
    && (s.at == Exhausted && s.queue != [] ==> s.proc == Strong)
  }

  /** Every step keeps the invariant. */
  lemma StepInv(s: State, op: Op, t: State)
    requires Inv(s) && Step(s, op, t)
    ensures Inv(t)
  {
    if op.Look? && s.queue != [] {
      TailNoDup(s.queue);
      NoDupSnoc(s.queue[1..], s.queue[0]);
    }
  }

  /** The process is never asleep on a queue that holds something. */
  lemma NeverAsleepOnWork(s: State)
    requires Inv(s) && s.queue != []
    ensures s.proc != Waiting
    ensures s.at == Exhausted ==> forall t :: Step(s, WaitTry, t) ==> t.at == Top
  {
  }

  /** A queued event moves one place forward with every look, and nothing else moves it. */
  lemma Advances(s: State, op: Op, t: State, k: nat)
    requires Inv(s) && Step(s, op, t) && k < |s.queue|
    ensures op == Look && k == 0 ==> t.at == Handling(s.queue[0])
    ensures op == Look && k > 0 ==> k - 1 < |t.queue| && t.queue[k - 1] == s.queue[k]
    ensures op != Look ==> k < |t.queue| && t.queue[k] == s.queue[k]
  {
  }

  /** After an activation the event is queued. */
  lemma ActivatedIsQueued(s: State, e: nat, t: State)
    requires Inv(s) && Step(s, Activate(e), t)
    ensures e in t.queue
  {
    StepInv(s, Activate(e), t);
  }

  ghost predicate Run(run: seq<State>, ops: seq<Op>)
  {
    |run| == |ops| + 1 && Inv(run[0]) && forall i :: 0 <= i < |ops| ==> Step(run[i], ops[i], run[i + 1])
  }

  /** How many of the steps are the owning process' own. */
  function OwnerSteps(ops: seq<Op>): nat
  {
    if ops == [] then 0 else OwnerSteps(ops[1..]) + if ops[0].Activate? then 0 else 1
  }

  lemma RunTail(run: seq<State>, ops: seq<Op>)
    requires Run(run, ops) && ops != []
    ensures Run(run[1..], ops[1..])
  {
    StepInv(run[0], ops[0], run[1]);
    var r, o := run[1..], ops[1..];
    forall j | 0 <= j < |o|
      ensures Step(r[j], o[j], r[j + 1])
    {
      assert Step(run[j + 1], ops[j + 1], run[j + 1 + 1]);
    }
  }

  /** What the owning process does next. */
  function OwnerOp(s: State): Op
  {
    match s.at
    case Top => Look
    case Handling(_) => Return
    case Exhausted => WaitTry
    case Asleep => Resume
  }

  /** The owning process is runnable and has a step to take. */
  ghost predicate OwnerEnabled(s: State)
  {
    exists t :: Step(s, OwnerOp(s), t)
  }

  /** With work queued the owning process looks at the queue after at most one other step of its own. */
  lemma OwnerProgress(s: State, t: State)
    requires Inv(s) && s.queue != [] && Step(s, OwnerOp(s), t)
    ensures OwnerOp(s) == Look || OwnerOp(t) == Look
  {
  }

  /** With work queued the owning process can always take its next step. */
  lemma OwnerCanStep(s: State)
    requires Inv(s) && s.queue != []
    ensures OwnerEnabled(s)
  {
    var t := s.(at := Top);
    match s.at
    case Top =>
      var e := s.queue[0];
      assert e in s.queue;
      t := s.(at := Handling(e));
      if s.status[e] == QueuedStrong {
        t := t.(status := s.status[e := Queued], queue := s.queue[1..] + [e]);
      } else {
        t := t.(status := s.status[e := Wait], queue := s.queue[1..]);
      }
      assert Step(s, OwnerOp(s), t);
    case Handling(_) => assert Step(s, OwnerOp(s), t);
    case Exhausted =>
      t := t.(proc := Weak);
      assert Step(s, OwnerOp(s), t);
    case Asleep => assert Step(s, OwnerOp(s), t);
  }

  /** Own steps enough for the owning process to come to the k-th queued event. */
  function StepsTo(s: State, k: nat): nat
  {
    2 * k + if OwnerOp(s) == Look then 1 else 2
  }

  /** In any run with enough steps of the owning process the handler of a queued event is started, and up to
      then the process is never without a step to take. */
  lemma {:induction false} HandlerStarts(run: seq<State>, ops: seq<Op>, k: nat) returns (i: nat)
    requires Run(run, ops) && k < |run[0].queue| && OwnerSteps(ops) >= StepsTo(run[0], k)
    ensures i < |ops| && ops[i] == Look && run[i + 1].at == Handling(run[0].queue[k])
    ensures forall j :: 0 <= j <= i ==> OwnerEnabled(run[j])
    decreases |ops|
  {
    hide OwnerEnabled;
    var op := ops[0];
    OwnerCanStep(run[0]);
    Advances(run[0], op, run[1], k);
    if op == Look && k == 0 {
      i := 0;
    } else {
      var r, o := run[1..], ops[1..];
      RunTail(run, ops);
      if !op.Activate? {
        OwnerProgress(run[0], run[1]);
      }
      var next := HandlerStarts(r, o, if op == Look then k - 1 else k);
      i := next + 1;
      forall j | 0 < j <= i
        ensures OwnerEnabled(run[j])
      {
        assert OwnerEnabled(r[j - 1]);
      }
    }
  }

  /** No activation is lost: after it, the owning process always has a step to take, and enough of them
      start the event's handler. */
  lemma NoLostActivation(run: seq<State>, ops: seq<Op>, e: nat) returns (i: nat)
    requires Run(run, ops) && ops != [] && ops[0] == Activate(e) && OwnerSteps(ops) >= 2 * |run[0].queue| + 2
    ensures 0 < i < |ops| && ops[i] == Look && run[i + 1].at == Handling(e)
    ensures forall j :: 0 < j <= i ==> OwnerEnabled(run[j])
  {
    hide OwnerEnabled;
    ActivatedIsQueued(run[0], e, run[1]);
    var k :| 0 <= k < |run[1].queue| && run[1].queue[k] == e;
    var r, o := run[1..], ops[1..];
    RunTail(run, ops);
    var next := HandlerStarts(r, o, k);
    i := next + 1;
    forall j | 0 < j <= i
      ensures OwnerEnabled(run[j])
    {
      assert OwnerEnabled(r[j - 1]);
    }
  }

  class EventProc {
    var status: map<nat, EventStatus>
    var queue: seq<nat>
    var proc: ProcStatus
    var at: Point

    ghost function Now(): State
      reads this
    {
      State(status, queue, proc, at)
    }

    /** A new event process sleeps on an empty pool. */
    constructor ()
      ensures Inv(Now())
    {
      status, queue, proc, at := map[], [], Waiting, Asleep;
    }

    method Open(e: nat)
      requires Inv(Now()) && e !in status
      modifies this`status
      ensures Inv(Now()) && Now() == old(Now()).(status := old(status)[e := Wait])
    {
      status := status[e := Wait];
    }

    method Notify()
      modifies this`proc
      ensures proc == Notified(old(proc))
    {
      if proc == Weak {
        proc := Strong;
      } else if proc == Waiting {
        proc := Weak;
      }
    }

    method ActivateEvent(e: nat)
      requires Inv(Now()) && e in status
      modifies this`proc, this`status, this`queue
      ensures Inv(Now()) && Step(old(Now()), Activate(e), Now())
    {
      ghost var s := Now();
      Notify();
      if status[e] == Wait {
        status := status[e := Queued];
        queue := queue + [e];
      } else if status[e] == Queued {
        status := status[e := QueuedStrong];
      }
      StepInv(s, Activate(e), Now());
    }

    /** One look at the queue by the loop. */
    method LookOnce()
      requires Inv(Now()) && at == Top
      modifies this`status, this`queue, this`at
      ensures Inv(Now()) && Step(old(Now()), Look, Now())
    {
      ghost var s := Now();
      if queue == [] {
        at := Exhausted;
      } else {
        var e := queue[0];
        assert e in queue;
        at := Handling(e);
        if status[e] == QueuedStrong {
          status := status[e := Queued];
          if |queue| > 1 {
            queue := queue[1..] + [e];
          }
        } else {
          status := status[e := Wait];
          queue := queue[1..];
        }
      }
      StepInv(s, Look, Now());
    }

    /** Goes to sleep, unless notified since the last try. */
    method TryWait()
      requires Inv(Now()) && at == Exhausted
      modifies this`proc, this`at
      ensures Inv(Now()) && Step(old(Now()), WaitTry, Now())
    {
      ghost var s := Now();
      if proc == Weak {
        proc, at := Waiting, Asleep;
      } else if proc == Strong {
        proc, at := Weak, Top;
      }
      StepInv(s, WaitTry, Now());
    }
  }
}
