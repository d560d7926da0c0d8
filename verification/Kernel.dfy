/**
 Kernel semaphores, wait queues and run queues on one processor: sync/sem.c, sync/wait.c,
 schedule/sched.c, sched_MLFQ.c and sched_RR.c. Sections with interrupts off are single
 steps; a process blocked in `down` finishes it when it is scheduled again.
 */
module Kernel {
  import opened Lists

  const LEVELS: nat := 4

  datatype RunState = Uninit | Sleeping | Runnable | Zombie

  /** What a process waits for: nothing, a kernel semaphore, or something else. */
  datatype WaitState = NoWait | KSem | Elsewhere

  /** How a wait on a semaphore was ended, or that it has not been. */
  datatype WakeupFlags = Interrupted | ByKSem

  /** The wait record of a process inside `down`. */
  datatype Wait = None | On(sem: nat, flags: WakeupFlags)

  datatype Level = Nowhere | Queue(index: nat)

  datatype Proc = Proc(state: RunState, waitState: WaitState, level: Level, slice: nat, wait: Wait, resched: bool)

  datatype Sem = Sem(value: nat, queue: seq<nat>)

  /** A semaphore's past: grants and releases, who blocked in order, and who was handed the semaphore in order. */
  datatype History = History(init: nat, grants: nat, releases: nat, arrivals: seq<nat>, handed: seq<nat>)

  type Procs = map<nat, Proc>
  type Queues = seq<seq<nat>>
  type Sems = map<nat, Sem>
  type Histories = map<nat, History>

  /** The time slice of a level: 8 ticks, doubled from level to level. */
  function MaxSlice(l: nat): nat
  {
    if l == 0 then 8 else 2 * MaxSlice(l - 1)
  }

  lemma MaxSlicePositive(l: nat)
    ensures MaxSlice(l) > 0
  {
  }

  // ---------- run queues ----------

  /** The process waits for the processor. */
  ghost predicate Ready(procs: Procs, current: nat, idle: nat, p: nat)
  {
    p in procs && procs[p].state == Runnable && p != idle && p != current
  }

  /** Runnable processes other than the idle and the running one are queued, exactly once, on their level, with a slice left. */
  ghost predicate RunOk(procs: Procs, queues: Queues, current: nat, idle: nat)
  {
    && |queues| == LEVELS && idle in procs && current in procs && procs[idle].state == Runnable && procs[idle].wait == None
    && (forall l :: 0 <= l < LEVELS ==> NoDup(queues[l]))
    && (forall l, p :: 0 <= l < LEVELS ==> (p in queues[l] <==> Ready(procs, current, idle, p) && procs[p].level == Queue(l)))
    && (forall p :: Ready(procs, current, idle, p) ==> Placed(procs[p]))
  }

  ghost predicate Placed(r: Proc)
  {
    r.level.Queue? && r.level.index < LEVELS && 0 < r.slice <= MaxSlice(r.level.index)
  }

  /** Where a process goes: one level down when its slice is used up, otherwise to the top. */
  function EnqueueLevel(r: Proc): nat
  {
    if r.level.Queue? && r.slice == 0 then
      if r.level.index + 1 < LEVELS then r.level.index + 1 else r.level.index
    else 0
  }

  function Slice(r: Proc, l: nat): nat
  {
    if r.slice == 0 || r.slice > MaxSlice(l) then MaxSlice(l) else r.slice
  }

  function Enqueued(r: Proc, l: nat): Proc
  {
    r.(level := Queue(l), slice := Slice(r, l))
  }

  lemma EnqueuedPlaced(r: Proc)
    requires r.level.Queue? ==> r.level.index < LEVELS
    ensures EnqueueLevel(r) < LEVELS && Placed(Enqueued(r, EnqueueLevel(r)))
  {
    MaxSlicePositive(EnqueueLevel(r));
  }

  /** A process that becomes ready is appended to its level; `next` is who runs from then on. */
  lemma RunEnter(procs: Procs, queues: Queues, current: nat, idle: nat, p: nat, r: Proc, next: nat)
    requires RunOk(procs, queues, current, idle) && p in procs && p != idle && !Ready(procs, current, idle, p)
    requires r.state == Runnable && Placed(r) && p != next && next in procs
    requires next == current || (p == current && next == idle)
    ensures var l := r.level.index; RunOk(procs[p := r], queues[l := queues[l] + [p]], next, idle)
  {
    hide NoDup;
    var l := r.level.index;
    var procs1, queues1 := procs[p := r], queues[l := queues[l] + [p]];
    assert p !in queues[l];
    NoDupSnoc(queues[l], p);
    assert forall x :: x != p ==> (Ready(procs1, next, idle, x) <==> Ready(procs, current, idle, x));
    assert Ready(procs1, next, idle, p);
  }

  /** A process that is not ready may change as long as it does not become ready. */
  lemma RunAside(procs: Procs, queues: Queues, current: nat, idle: nat, p: nat, r: Proc)
    requires RunOk(procs, queues, current, idle) && p in procs && p != idle && !Ready(procs, current, idle, p)
    requires p == current || r.state != Runnable
    ensures RunOk(procs[p := r], queues, current, idle)
  {
    hide NoDup;
    var procs1 := procs[p := r];
    assert forall x :: Ready(procs1, current, idle, x) <==> Ready(procs, current, idle, x);
    assert forall x :: Ready(procs, current, idle, x) ==> procs1[x] == procs[x];
  }

  /** Its wait record plays no part in the queues. */
  lemma RunWait(procs: Procs, queues: Queues, current: nat, idle: nat, p: nat, w: Wait)
    requires RunOk(procs, queues, current, idle) && p in procs && p != idle
    ensures RunOk(procs[p := procs[p].(wait := w)], queues, current, idle)
  {
    hide NoDup;
    var procs1 := procs[p := procs[p].(wait := w)];
    assert forall x :: Ready(procs1, current, idle, x) <==> Ready(procs, current, idle, x);
    assert forall x :: x in procs1 ==> procs1[x].level == procs[x].level && procs1[x].slice == procs[x].slice;
  }

  /** When the running process is idle or no longer runnable, all that are runnable are queued. */
  lemma RunNobody(procs: Procs, queues: Queues, current: nat, idle: nat)
    requires RunOk(procs, queues, current, idle) && (current == idle || procs[current].state != Runnable)
    ensures RunOk(procs, queues, idle, idle)
  {
    hide NoDup;
    assert forall x :: Ready(procs, idle, idle, x) <==> Ready(procs, current, idle, x);
  }

  /** The head of a level leaves its queue and runs. */
  lemma RunLeave(procs: Procs, queues: Queues, idle: nat, l: nat)
    requires RunOk(procs, queues, idle, idle) && l < LEVELS && queues[l] != []
    ensures var p := queues[l][0]; p in procs && p != idle && procs[p].state == Runnable && procs[p].level == Queue(l)
    ensures var p := queues[l][0]; RunOk(procs, queues[l := Without(queues[l], p)], p, idle)
  {
    hide NoDup, Without;
    var p := queues[l][0];
    assert p in queues[l];
    assert Ready(procs, idle, idle, p) && procs[p].level == Queue(l);
    WithoutOk(queues[l], p);
    assert forall x :: Ready(procs, p, idle, x) <==> Ready(procs, idle, idle, x) && x != p;
  }

  // ---------- semaphores ----------

  /** The process is suspended in `down` on the semaphore. */
  ghost predicate Suspended(procs: Procs, p: nat, s: nat)
  {
    p in procs && procs[p].wait == On(s, Interrupted)
  }

  /** Waiters are asleep for the semaphore and queued once; those handed it are awake; a positive value means nobody waits. */
  ghost predicate SemOk(procs: Procs, sems: Sems)
  {
    && (forall s :: s in sems ==> NoDup(sems[s].queue) && (sems[s].value > 0 ==> sems[s].queue == []))
    && (forall s, p :: s in sems ==> (p in sems[s].queue <==> Suspended(procs, p, s)))
    && (forall p :: p in procs ==> WaitOk(procs[p], sems))
  }

  ghost predicate WaitOk(r: Proc, sems: Sems)
  {
    match r.wait
    case None => true
    case On(s, Interrupted) => s in sems && r.state == Sleeping && r.waitState == KSem
    case On(s, ByKSem) => s in sems && r.state == Runnable
  }

  /** Values and grants balance against releases, and the semaphore was handed on in order of arrival. */
  ghost predicate HistOk(sems: Sems, hist: Histories)
  {
    hist.Keys == sems.Keys && forall s :: s in sems ==> SemHist(sems[s], hist[s])
  }

  ghost predicate SemHist(m: Sem, h: History)
  {
    m.value + h.grants == h.init + h.releases && h.arrivals == h.handed + m.queue
  }

  lemma HistSet(sems: Sems, hist: Histories, s: nat, m: Sem, h: History)
    requires HistOk(sems, hist) && s in sems && SemHist(m, h)
    ensures HistOk(sems[s := m], hist[s := h])
  {
  }

  lemma HistAt(sems: Sems, hist: Histories, s: nat)
    requires HistOk(sems, hist) && s in sems
    ensures s in hist && SemHist(sems[s], hist[s])
  {
  }

  /** Never more holders than the semaphore began with: with 1, mutual exclusion. */
  lemma Holders(sems: Sems, hist: Histories, s: nat)
    requires HistOk(sems, hist) && s in sems
    ensures hist[s].grants - hist[s].releases <= hist[s].init
    ensures hist[s].grants - hist[s].releases == hist[s].init <==> sems[s].value == 0
  {
    assert SemHist(sems[s], hist[s]);
  }

  /** Those handed the semaphore are the first to have arrived, in that order. */
  lemma FirstComeFirstServed(sems: Sems, hist: Histories, s: nat, i: nat)
    requires HistOk(sems, hist) && s in sems && i < |hist[s].handed|
    ensures i < |hist[s].arrivals| && hist[s].handed[i] == hist[s].arrivals[i]
  {
    assert SemHist(sems[s], hist[s]);
  }

  lemma SemAside(procs: Procs, sems: Sems, p: nat, r: Proc)
    requires SemOk(procs, sems) && p in procs && r.wait == procs[p].wait && WaitOk(r, sems)
    ensures SemOk(procs[p := r], sems)
  {
    hide NoDup;
    var procs1 := procs[p := r];
    assert forall x, s :: Suspended(procs1, x, s) <==> Suspended(procs, x, s);
  }

  lemma WaitOkKeys(r: Proc, sems: Sems, sems1: Sems)
    requires WaitOk(r, sems) && sems.Keys == sems1.Keys
    ensures WaitOk(r, sems1)
  {
  }

  /** Only the value changes, and nobody waits. */
  lemma SemValue(procs: Procs, sems: Sems, s: nat, v: nat)
    requires SemOk(procs, sems) && s in sems && sems[s].queue == []
    ensures SemOk(procs, sems[s := sems[s].(value := v)])
  {
    hide NoDup, WaitOk;
    var sems1 := sems[s := sems[s].(value := v)];
    forall p | p in procs
      ensures WaitOk(procs[p], sems1)
    {
      WaitOkKeys(procs[p], sems, sems1);
    }
  }

  /** A process blocks at the tail of the wait queue. */
  lemma SemBlock(procs: Procs, sems: Sems, s: nat, p: nat, r: Proc)
    requires SemOk(procs, sems) && s in sems && p in procs && procs[p].wait == None && sems[s].value == 0
    requires r.wait == On(s, Interrupted) && r.state == Sleeping && r.waitState == KSem
    ensures SemOk(procs[p := r], sems[s := sems[s].(queue := sems[s].queue + [p])])
  {
    hide NoDup, WaitOk;
    var procs1, sems1 := procs[p := r], sems[s := sems[s].(queue := sems[s].queue + [p])];
    assert !Suspended(procs, p, s);
    NoDupSnoc(sems[s].queue, p);
    assert forall x, t :: Suspended(procs1, x, t) <==> Suspended(procs, x, t) || (x == p && t == s);
    forall x | x in procs1
      ensures WaitOk(procs1[x], sems1)
    {
      if x == p {
        BlockedOk(r, sems1);
      } else {
        WaitOkKeys(procs[x], sems, sems1);
      }
    }
  }

  lemma BlockedOk(r: Proc, sems: Sems)
    requires r.wait.On? && r.wait.sem in sems && r.wait.flags == Interrupted && r.state == Sleeping && r.waitState == KSem
    ensures WaitOk(r, sems)
  {
  }

  lemma GrantedOk(r: Proc, sems: Sems)
    requires r.wait.On? && r.wait.sem in sems && r.wait.flags == ByKSem && r.state == Runnable
    ensures WaitOk(r, sems)
  {
  }

  /** The first waiter is handed the semaphore. */
  lemma SemHand(procs: Procs, sems: Sems, s: nat, r: Proc)
    requires SemOk(procs, sems) && s in sems && sems[s].queue != []
    requires r.wait == On(s, ByKSem) && r.state == Runnable
    ensures var p := sems[s].queue[0];
      SemOk(procs[p := r], sems[s := sems[s].(queue := sems[s].queue[1..])])
  {
    hide NoDup, WaitOk;
    var q := sems[s].queue;
    var p := q[0];
    TailNoDup(q);
    assert p in q;
    assert Suspended(procs, p, s);
    var procs1, sems1 := procs[p := r], sems[s := sems[s].(queue := q[1..])];
    assert forall x, t :: Suspended(procs1, x, t) <==> Suspended(procs, x, t) && !(x == p && t == s);
    forall x | x in procs1
      ensures WaitOk(procs1[x], sems1)
    {
      if x == p {
        GrantedOk(r, sems1);
      } else {
        WaitOkKeys(procs[x], sems, sems1);
      }
    }
  }

  /** The first waiter is asleep for the semaphore. */
  lemma FirstWaiter(procs: Procs, sems: Sems, s: nat)
    requires SemOk(procs, sems) && s in sems && sems[s].queue != []
    ensures var p := sems[s].queue[0];
      p in procs && procs[p].state == Sleeping && procs[p].waitState == KSem && procs[p].wait == On(s, Interrupted)
  {
    assert sems[s].queue[0] in sems[s].queue;
    assert Suspended(procs, sems[s].queue[0], s);
  }

  /** A process whose wait is over forgets it. */
  lemma SemDone(procs: Procs, sems: Sems, p: nat)
    requires SemOk(procs, sems) && p in procs && procs[p].state == Runnable && procs[p].wait != None
    ensures procs[p].wait.flags == ByKSem && SemOk(procs[p := procs[p].(wait := None)], sems)
  {
    hide NoDup;
    assert WaitOk(procs[p], sems);
    var procs1 := procs[p := procs[p].(wait := None)];
    assert forall x, s :: Suspended(procs1, x, s) <==> Suspended(procs, x, s);
    forall x | x in procs1
      ensures WaitOk(procs1[x], sems)
    {
      if x != p {
        assert WaitOk(procs[x], sems);
      }
    }
  }

  // ---------- one processor ----------

  /** Every process that was ever queued knows a level there is. */
  ghost predicate LevelsOk(procs: Procs)
  {
    forall p :: p in procs && procs[p].level.Queue? ==> procs[p].level.index < LEVELS
  }

  /** Each level counts its processes. */
  ghost predicate CountsOk(queues: Queues, counts: seq<nat>)
  {
    |queues| == |counts| == LEVELS && forall l :: 0 <= l < LEVELS ==> counts[l] == |queues[l]|
  }

  /** A process made runnable, and queued unless it is the running one. */
  function Awake(r: Proc, queued: bool): Proc
  {
    var a := r.(state := Runnable, waitState := NoWait);
    if queued then Enqueued(a, EnqueueLevel(a)) else a
  }

  class Cpu {
    const idle: nat
    var procs: Procs
    var queues: Queues
    var counts: seq<nat>
    var current: nat
    var sems: Sems
    ghost var hist: Histories

    ghost predicate RunValid()
      reads this
    {
      RunOk(procs, queues, current, idle) && LevelsOk(procs) && CountsOk(queues, counts)
    }

    ghost predicate Valid()
      reads this
    {
      RunValid() && SemOk(procs, sems) && HistOk(sems, hist)
    }

    constructor (idle: nat)
      ensures Valid() && current == idle && procs.Keys == {idle} && sems == map[]
    {
      this.idle := idle;
      procs := map[idle := Proc(Runnable, NoWait, Nowhere, 0, None, true)];
      queues, counts := [[], [], [], []], [0, 0, 0, 0];
      current, sems, hist := idle, map[], map[];
    }

    // ---------- the scheduling classes ----------

    /** Round robin: to the tail of a level, with a slice within its limit. */
    method RrEnqueue(l: nat, p: nat)
      requires p in procs && l < LEVELS && CountsOk(queues, counts)
      modifies this`procs, this`queues, this`counts
      ensures CountsOk(queues, counts) && queues == old(queues)[l := old(queues)[l] + [p]]
      ensures procs == old(procs)[p := Enqueued(old(procs[p]), l)]
    {
      var r := procs[p];
      queues := queues[l := queues[l] + [p]];
      if r.slice == 0 || r.slice > MaxSlice(l) {
        r := r.(slice := MaxSlice(l));
      }
      procs := procs[p := r.(level := Queue(l))];
      counts := counts[l := counts[l] + 1];
    }

    /** Multi-level feedback: a used-up slice costs one level, anything else goes to the top. */
    method MlfqEnqueue(p: nat)
      requires p in procs && LevelsOk(procs) && CountsOk(queues, counts)
      modifies this`procs, this`queues, this`counts
      ensures CountsOk(queues, counts)
      ensures var l := EnqueueLevel(old(procs[p])); l < LEVELS && queues == old(queues)[l := old(queues)[l] + [p]]
      ensures procs == old(procs)[p := Enqueued(old(procs[p]), EnqueueLevel(old(procs[p])))]
    {
      var r := procs[p];
      var n := 0;
      if r.level != Nowhere && r.slice == 0 {
        n := (r.level.index + 1) % LEVELS;
        if n == 0 {
          n := r.level.index;
        }
      }
      RrEnqueue(n, p);
    }

    method MlfqDequeue(p: nat)
      requires p in procs && procs[p].level.Queue? && procs[p].level.index < LEVELS && CountsOk(queues, counts)
      requires p in queues[procs[p].level.index] && NoDup(queues[procs[p].level.index])
      modifies this`queues, this`counts
      ensures var l := procs[p].level.index; queues == old(queues)[l := Without(old(queues)[l], p)]
      ensures CountsOk(queues, counts)
    {
      var l := procs[p].level.index;
      WithoutOk(queues[l], p);
      queues := queues[l := Without(queues[l], p)];
      counts := counts[l := counts[l] - 1];
    }

    /** The head of the first level that has one. */
    method MlfqPickNext() returns (found: bool, p: nat, l: nat)
      requires |queues| == LEVELS
      ensures found ==> l < LEVELS && queues[l] != [] && p == queues[l][0]
      ensures forall k :: 0 <= k < (if found then l else LEVELS) ==> queues[k] == []
    {
      l, p := 0, 0;
      while l < LEVELS
        invariant l <= LEVELS && forall k :: 0 <= k < l ==> queues[k] == []
      {
        if queues[l] != [] {
          return true, queues[l][0], l;
        }
        l := l + 1;
      }
      found := false;
    }

    /** A tick of the running process: its slice runs down, and at its end it is to be rescheduled. */
    method ProcTick()
      requires Valid()
      modifies this`procs
      ensures Valid() && procs == old(procs)[current := procs[current]]
      ensures var r := old(procs[current]);
        procs[current] == if current == idle then r.(resched := true)
          else r.(slice := if r.slice > 0 then r.slice - 1 else 0, resched := r.resched || r.slice <= 1)
    {
      var r := procs[current];
      if current != idle {
        if r.slice > 0 {
          r := r.(slice := r.slice - 1);
        }
        if r.slice == 0 {
          r := r.(resched := true);
        }
        RunAside(procs, queues, current, idle, current, r);
      } else {
        r := r.(resched := true);
        RunIdle(procs, queues, current, idle, r);
      }
      assert WaitOk(procs[current], sems);
      SemAside(procs, sems, current, r);
      procs := procs[current := r];
    }

    // ---------- scheduling ----------

    /** Makes a process runnable; it joins a run queue unless it is the running one. */
    method WakeupProc(p: nat)
      requires RunValid() && p in procs && p != idle && procs[p].state != Zombie
      modifies this`procs, this`queues, this`counts
      ensures RunValid()
      ensures procs == if old(procs[p].state) == Runnable then old(procs) else old(procs)[p := Awake(old(procs[p]), p != current)]
    {
      hide RunOk;
      if procs[p].state != Runnable {
        ghost var procs0, queues0 := procs, queues;
        RunSize(procs, queues, current, idle);
        var r := procs[p].(state := Runnable, waitState := NoWait);
        procs := procs[p := r];
        if p != current {
          EnqueuedPlaced(r);
          RunEnter(procs0, queues0, current, idle, p, Enqueued(r, EnqueueLevel(r)), current);
          MlfqEnqueue(p);
          assert procs == procs0[p := Enqueued(r, EnqueueLevel(r))];
        } else {
          RunAside(procs0, queues0, current, idle, p, r);
        }
      }
    }

    /** Hands the processor to a ready process of the best level, or to the idle one when there is none. */
    method Schedule()
      requires Valid()
      modifies this`procs, this`queues, this`counts, this`current
      ensures Valid() && procs.Keys == old(procs.Keys) && procs[current].state == Runnable
      ensures current == idle <==> forall p :: p in procs && p != idle ==> procs[p].state != Runnable
      ensures current != idle ==> procs[current].level.Queue?
      ensures forall p :: Ready(procs, current, idle, p) ==> current != idle && procs[p].level.Queue? && procs[current].level.index <= procs[p].level.index
      ensures forall p :: p in procs ==> procs[p].state == old(procs[p]).state && procs[p].wait == old(procs[p]).wait
    {
      hide RunOk, SemOk, HistOk, WaitOk, Slice, EnqueueLevel;
      RunSize(procs, queues, current, idle);
      Yield();
      RunSize(procs, queues, idle, idle);
      var found, next, l := MlfqPickNext();
      if found {
        RunLeave(procs, queues, idle, l);
        QueueNoDup(procs, queues, idle, l);
        ghost var queues0 := queues;
        MlfqDequeue(next);
        BestLevel(procs, queues0, idle, l);
        current := next;
        assert current in procs && current != idle && procs[current].state == Runnable;
      } else {
        NoneReady(procs, queues, idle);
        current := idle;
        assert forall p :: p in procs && p != idle && procs[p].state == Runnable ==> Ready(procs, idle, idle, p);
      }
    }

    /** The running process stops running; it is queued if it still can run. */
    method Yield()
      requires Valid()
      modifies this`procs, this`queues, this`counts
      ensures RunOk(procs, queues, idle, idle) && LevelsOk(procs) && CountsOk(queues, counts)
      ensures SemOk(procs, sems) && procs.Keys == old(procs.Keys)
      ensures forall p :: p in procs ==> procs[p].state == old(procs[p]).state && procs[p].wait == old(procs[p]).wait
    {
      hide RunOk, SemOk, HistOk, Slice, EnqueueLevel;
      RunSize(procs, queues, current, idle);
      ghost var procs0, queues0 := procs, queues;
      var r := procs[current].(resched := false);
      if current != idle {
        RunAside(procs, queues, current, idle, current, r);
      } else {
        RunIdle(procs, queues, current, idle, r);
      }
      SemWaits(procs, sems, current);
      SemAside(procs, sems, current, r);
      procs := procs[current := r];
      ghost var procs1 := procs;
      if r.state == Runnable && current != idle {
        EnqueuedPlaced(r);
        ghost var e := Enqueued(r, EnqueueLevel(r));
        RunEnter(procs1, queues0, current, idle, current, e, idle);
        SemAside(procs1, sems, current, e);
        MlfqEnqueue(current);
      } else {
        RunNobody(procs1, queues0, current, idle);
      }
    }

    // ---------- semaphores ----------

    method SemInit(s: nat, value: nat)
      requires Valid() && s !in sems
      modifies this`sems, this`hist
      ensures Valid() && sems == old(sems)[s := Sem(value, [])] && hist == old(hist)[s := History(value, 0, 0, [], [])]
    {
      NewSem(procs, sems, s, value);
      sems := sems[s := Sem(value, [])];
      hist := hist[s := History(value, 0, 0, [], [])];
    }

    /** Releases: the first waiter gets the semaphore, or else the value goes up. */
    method Up(s: nat)
      requires Valid() && s in sems
      modifies this`procs, this`queues, this`counts, this`sems, this`hist
      ensures Valid() && sems.Keys == old(sems.Keys)
      ensures hist == old(hist)[s := hist[s]] && hist[s].releases == old(hist[s]).releases + 1 && hist[s].arrivals == old(hist[s]).arrivals
      ensures old(sems[s]).queue == [] ==> sems == old(sems)[s := Sem(old(sems[s]).value + 1, [])] && procs == old(procs)
      ensures old(sems[s]).queue != [] ==> (
        var p := old(sems[s]).queue[0];
        && hist[s].handed == old(hist[s]).handed + [p] && sems == old(sems)[s := Sem(0, old(sems[s]).queue[1..])]
        && p in procs && procs == old(procs)[p := procs[p]] && procs[p].state == Runnable && procs[p].wait == On(s, ByKSem))
    {
      hide RunOk, SemOk, HistOk;
      SemAt(procs, sems, s);
      HistAt(sems, hist, s);
      ghost var h, m := hist[s], sems[s];
      if sems[s].queue == [] {
        SemValue(procs, sems, s, sems[s].value + 1);
        HistSet(sems, hist, s, m.(value := m.value + 1), h.(releases := h.releases + 1));
        sems := sems[s := sems[s].(value := sems[s].value + 1)];
        hist := hist[s := h.(releases := h.releases + 1)];
      } else {
        assert m.queue == [m.queue[0]] + m.queue[1..];
        ghost var g := h.(releases := h.releases + 1, grants := h.grants + 1, handed := h.handed + [m.queue[0]]);
        HistSet(sems, hist, s, m.(queue := m.queue[1..]), g);
        WakeupFirst(s);
        hist := hist[s := g];
      }
    }

    /** The first waiter leaves the wait queue with the semaphore's flag and becomes runnable. */
    method WakeupFirst(s: nat)
      requires RunValid() && SemOk(procs, sems) && s in sems && sems[s].queue != []
      modifies this`procs, this`queues, this`counts, this`sems
      ensures RunValid() && SemOk(procs, sems) && sems == old(sems)[s := old(sems[s]).(queue := old(sems[s]).queue[1..])]
      ensures var p := old(sems[s]).queue[0];
        p in procs && procs == old(procs)[p := procs[p]] && procs[p].state == Runnable && procs[p].wait == On(s, ByKSem)
    {
      hide RunOk, SemOk, Slice, EnqueueLevel;
      var p := sems[s].queue[0];
      FirstWaiter(procs, sems, s);
      assert procs[p].waitState == KSem;
      NotIdle(procs, queues, current, idle, p);
      ghost var procs0 := procs;
      RunWait(procs, queues, current, idle, p, On(s, ByKSem));
      procs := procs[p := procs[p].(wait := On(s, ByKSem))];
      WakeupProc(p);
      SemHand(procs0, sems, s, procs[p]);
      assert procs == procs0[p := procs[p]];
      sems := sems[s := sems[s].(queue := sems[s].queue[1..])];
    }

    /** Takes the semaphore at once, or blocks the running process at the tail of its queue. */
    method Down(s: nat) returns (taken: bool)
      requires Valid() && s in sems && procs[current].wait == None && procs[current].state == Runnable
      requires sems[s].value == 0 ==> current != idle
      modifies this`procs, this`sems, this`hist
      ensures Valid() && sems.Keys == old(sems.Keys) && (taken <==> old(sems[s]).value > 0)
      ensures hist == old(hist)[s := hist[s]] && hist[s].releases == old(hist[s]).releases && hist[s].handed == old(hist[s]).handed
      ensures taken ==> sems == old(sems)[s := old(sems[s]).(value := old(sems[s]).value - 1)] && procs == old(procs)
      ensures !taken ==> sems == old(sems)[s := old(sems[s]).(queue := old(sems[s]).queue + [current])]
      ensures !taken ==> hist[s].arrivals == old(hist[s]).arrivals + [current] && procs[current].state == Sleeping
    {
      hide RunOk, SemOk, HistOk;
      SemAt(procs, sems, s);
      HistAt(sems, hist, s);
      ghost var h, m := hist[s], sems[s];
      taken := TryDown(s);
      if !taken {
        HistSet(sems, hist, s, m.(queue := m.queue + [current]), h.(arrivals := h.arrivals + [current]));
        RunHere(procs, queues, current, idle);
        var r := procs[current].(state := Sleeping, waitState := KSem, wait := On(s, Interrupted));
        RunAside(procs, queues, current, idle, current, r);
        SemBlock(procs, sems, s, current, r);
        procs := procs[current := r];
        sems := sems[s := sems[s].(queue := sems[s].queue + [current])];
        hist := hist[s := h.(arrivals := h.arrivals + [current])];
      }
    }

    /** The rest of a `down` that blocked: it ends only by being handed the semaphore. */
    method FinishDown() returns (flags: WakeupFlags)
      requires Valid() && current != idle && procs[current].state == Runnable && procs[current].wait.On?
      modifies this`procs
      ensures Valid() && flags == ByKSem && procs == old(procs)[current := old(procs[current]).(wait := None)]
    {
      hide RunOk, SemOk;
      RunHere(procs, queues, current, idle);
      SemDone(procs, sems, current);
      RunWait(procs, queues, current, idle, current, None);
      flags := procs[current].wait.flags;
      procs := procs[current := procs[current].(wait := None)];
    }

    /** Takes the semaphore only if its value allows; never past a waiter. */
    method TryDown(s: nat) returns (ok: bool)
      requires Valid() && s in sems
      modifies this`sems, this`hist
      ensures Valid() && (ok <==> old(sems[s]).value > 0) && (ok ==> old(sems[s]).queue == [])
      ensures sems == if ok then old(sems)[s := old(sems[s]).(value := old(sems[s]).value - 1)] else old(sems)
      ensures hist == if ok then old(hist)[s := old(hist[s]).(grants := old(hist[s]).grants + 1)] else old(hist)
    {
      hide RunOk, SemOk, HistOk;
      SemAt(procs, sems, s);
      HistAt(sems, hist, s);
      ok := false;
      if sems[s].value > 0 {
        HistSet(sems, hist, s, sems[s].(value := sems[s].value - 1), hist[s].(grants := hist[s].grants + 1));
        SemValue(procs, sems, s, sems[s].value - 1);
        sems := sems[s := sems[s].(value := sems[s].value - 1)];
        hist := hist[s := hist[s].(grants := hist[s].grants + 1)];
        ok := true;
      }
    }

    // ---------- the rest of the kernel ----------

    /** The running process sleeps for something other than a kernel semaphore. */
    method Sleep()
      requires Valid() && current != idle && procs[current].wait == None
      modifies this`procs
      ensures Valid() && procs == old(procs)[current := old(procs[current]).(state := Sleeping, waitState := Elsewhere)]
    {
      hide RunOk, SemOk;
      RunHere(procs, queues, current, idle);
      var r := procs[current].(state := Sleeping, waitState := Elsewhere);
      RunAside(procs, queues, current, idle, current, r);
      SemAside(procs, sems, current, r);
      procs := procs[current := r];
    }

    /** Anything but a kernel semaphore may be woken from elsewhere. */
    method Wake(p: nat)
      requires Valid() && p in procs && p != idle && procs[p].state == Sleeping && procs[p].waitState == Elsewhere
      modifies this`procs, this`queues, this`counts
      ensures Valid() && procs == old(procs)[p := Awake(old(procs[p]), p != current)]
    {
      hide RunOk, SemOk, Slice, EnqueueLevel;
      ElsewhereNoWait(procs, sems, p);
      ghost var procs0 := procs;
      WakeupProc(p);
      SemAside(procs0, sems, p, procs[p]);
    }

    /** The parent's part of do_fork: it gives away half of its slice, rounded down. */
    method HalveSlice() returns (half: nat)
      requires Valid()
      modifies this`procs
      ensures Valid() && half == old(procs[current]).slice / 2
      ensures procs == old(procs)[current := old(procs[current]).(slice := old(procs[current]).slice - half)]
    {
      var r := procs[current];
      half := r.slice / 2;
      r := r.(slice := r.slice - half);
      if current != idle {
        RunAside(procs, queues, current, idle, current, r);
      } else {
        RunIdle(procs, queues, current, idle, r);
      }
      assert WaitOk(procs[current], sems);
      SemAside(procs, sems, current, r);
      procs := procs[current := r];
    }

    /** do_fork, for the scheduler: a new process with half of the parent's slice, made runnable. */
    method Spawn(p: nat)
      requires Valid() && p !in procs
      modifies this`procs, this`queues, this`counts
      ensures Valid() && current in old(procs)
      ensures var r, half := old(procs[current]), old(procs[current]).slice / 2;
        procs == old(procs)[current := r.(slice := r.slice - half)][p := Awake(Proc(Uninit, NoWait, Nowhere, half, None, false), true)]
    {
      hide RunOk, SemOk, Slice, EnqueueLevel;
      RunHere(procs, queues, current, idle);
      var half := HalveSlice();
      var r := Proc(Uninit, NoWait, Nowhere, half, None, false);
      RunNew(procs, queues, current, idle, p, r);
      SemNew(procs, sems, p, r);
      procs := procs[p := r];
      ghost var procs0 := procs;
      WakeupProc(p);
      SemAside(procs0, sems, p, procs[p]);
    }

    method Exit()
      requires Valid() && current != idle && procs[current].wait == None
      modifies this`procs
      ensures Valid() && procs == old(procs)[current := old(procs[current]).(state := Zombie)]
    {
      hide RunOk, SemOk;
      RunHere(procs, queues, current, idle);
      var r := procs[current].(state := Zombie);
      RunAside(procs, queues, current, idle, current, r);
      SemAside(procs, sems, current, r);
      procs := procs[current := r];
    }
  }

  // ---------- small facts about the parts ----------

  lemma RunSize(procs: Procs, queues: Queues, current: nat, idle: nat)
    requires RunOk(procs, queues, current, idle)
    ensures |queues| == LEVELS && current in procs && idle in procs && procs[idle].state == Runnable && procs[idle].wait == None
  {
  }

  lemma RunHere(procs: Procs, queues: Queues, current: nat, idle: nat)
    requires RunOk(procs, queues, current, idle)
    ensures current in procs && idle in procs && !Ready(procs, current, idle, current)
  {
  }

  lemma RunIdle(procs: Procs, queues: Queues, current: nat, idle: nat, r: Proc)
    requires RunOk(procs, queues, current, idle) && r.state == Runnable && r.wait == None
    ensures RunOk(procs[idle := r], queues, current, idle)
  {
    hide NoDup, Placed;
    var procs1 := procs[idle := r];
    assert forall x :: Ready(procs1, current, idle, x) <==> Ready(procs, current, idle, x);
    assert forall x :: Ready(procs, current, idle, x) ==> procs1[x] == procs[x];
  }

  lemma RunNew(procs: Procs, queues: Queues, current: nat, idle: nat, p: nat, r: Proc)
    requires RunOk(procs, queues, current, idle) && p !in procs && r.state != Runnable
    ensures RunOk(procs[p := r], queues, current, idle) && !Ready(procs[p := r], current, idle, p) && p != idle && p != current
  {
    hide NoDup, Placed;
    var procs1 := procs[p := r];
    assert forall x :: Ready(procs1, current, idle, x) <==> Ready(procs, current, idle, x);
    assert forall x :: Ready(procs, current, idle, x) ==> procs1[x] == procs[x];
  }

  lemma SemNew(procs: Procs, sems: Sems, p: nat, r: Proc)
    requires SemOk(procs, sems) && p !in procs && r.wait == None
    ensures SemOk(procs[p := r], sems)
  {
    hide NoDup;
    var procs1 := procs[p := r];
    assert forall x, s :: Suspended(procs1, x, s) <==> Suspended(procs, x, s);
    forall x | x in procs1
      ensures WaitOk(procs1[x], sems)
    {
      if x != p {
        assert WaitOk(procs[x], sems);
      }
    }
  }

  lemma NewSem(procs: Procs, sems: Sems, s: nat, value: nat)
    requires SemOk(procs, sems) && s !in sems
    ensures SemOk(procs, sems[s := Sem(value, [])])
  {
    hide NoDup;
    var sems1 := sems[s := Sem(value, [])];
    assert NoDup([]) by {
      NoDupNone();
    }
    forall p | p in procs
      ensures WaitOk(procs[p], sems1) && !Suspended(procs, p, s)
    {
      assert WaitOk(procs[p], sems);
    }
  }

  lemma NoDupNone()
    ensures NoDup([])
  {
  }

  lemma SemAt(procs: Procs, sems: Sems, s: nat)
    requires SemOk(procs, sems) && s in sems
    ensures sems[s].value > 0 ==> sems[s].queue == []
  {
  }

  lemma SemWaits(procs: Procs, sems: Sems, p: nat)
    requires SemOk(procs, sems) && p in procs
    ensures WaitOk(procs[p], sems)
  {
  }

  lemma NotIdle(procs: Procs, queues: Queues, current: nat, idle: nat, p: nat)
    requires RunOk(procs, queues, current, idle) && p in procs && procs[p].state != Runnable
    ensures p != idle
  {
  }

  lemma ElsewhereNoWait(procs: Procs, sems: Sems, p: nat)
    requires SemOk(procs, sems) && p in procs && procs[p].state == Sleeping && procs[p].waitState == Elsewhere
    ensures procs[p].wait == None
  {
    assert WaitOk(procs[p], sems);
  }

  lemma QueueNoDup(procs: Procs, queues: Queues, idle: nat, l: nat)
    requires RunOk(procs, queues, idle, idle) && l < LEVELS && queues[l] != []
    ensures NoDup(queues[l]) && queues[l][0] in queues[l]
  {
  }

  lemma NoneReady(procs: Procs, queues: Queues, idle: nat)
    requires RunOk(procs, queues, idle, idle) && forall k :: 0 <= k < LEVELS ==> queues[k] == []
    ensures forall p :: !Ready(procs, idle, idle, p)
  {
    BestLevel(procs, queues, idle, LEVELS - 1);
    forall p
      ensures !Ready(procs, idle, idle, p)
    {
      assert p !in queues[LEVELS - 1];
    }
  }

  /** With the better levels empty, every ready process is on the chosen level or a worse one. */
  lemma BestLevel(procs: Procs, queues: Queues, idle: nat, l: nat)
    requires RunOk(procs, queues, idle, idle) && l < LEVELS && forall k :: 0 <= k < l ==> queues[k] == []
    ensures forall p :: Ready(procs, idle, idle, p) ==> procs[p].level.Queue? && l <= procs[p].level.index
  {
    forall p | Ready(procs, idle, idle, p)
      ensures procs[p].level.Queue? && l <= procs[p].level.index
    {
      assert Placed(procs[p]);
      assert p in queues[procs[p].level.index];
    }
  }
}
