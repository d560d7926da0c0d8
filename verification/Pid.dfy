/**
 Process identifiers of process/proc.c: the scan for a free pid, which remembers an
 interval known to be free and starts over when it runs into a used pid at its end.
 */
module Pid {
  import opened Lists

  const MAX_PROCESS: nat := 4096
  const MAX_PID: nat := 8192

  /** No process has a pid strictly between the last one given out and the next known one. */
  ghost predicate Safe(last: nat, next: nat, procs: seq<nat>)
  {
    forall i :: 0 <= i < |procs| ==> !(last < procs[i] < next)
  }

  /** What a scan has established about the processes seen so far. */
  ghost predicate Clear(last: nat, next: nat, procs: seq<nat>, n: nat)
  {
    forall i :: 0 <= i < n && i < |procs| ==> procs[i] < last || next <= procs[i]
  }

  ghost predicate AllUsed(procs: seq<nat>, a: nat, b: nat)
  {
    forall p :: a <= p < b ==> p in procs
  }

  /** The first pid that no process has, from `start` up and then, around the wrap, from 1. */
  ghost predicate FirstFree(procs: seq<nat>, start: nat, pid: nat)
  {
    pid !in procs && if start <= pid then AllUsed(procs, start, pid) else AllUsed(procs, start, MAX_PID) && AllUsed(procs, 1, pid)
  }

  /** Everything a scan from `start` has passed on its way is used. */
  ghost predicate Passed(procs: seq<nat>, start: nat, last: nat)
  {
    (start <= last && AllUsed(procs, start, last)) || (AllUsed(procs, start, MAX_PID) && AllUsed(procs, 1, last))
  }

  /** A pid of an idle process is chosen exactly when the scan meets one that is not in the list: on its way up, or
      after the wrap, with every pid from its start on used. */
  lemma IdlePid(procs: seq<nat>, start: nat, pid: nat, lcpuCount: nat)
    requires FirstFree(procs, start, pid) && 1 <= pid < MAX_PID && 1 <= start <= MAX_PID && lcpuCount <= MAX_PID
    ensures pid < lcpuCount <==>
      || (start < lcpuCount && !AllUsed(procs, start, lcpuCount))
      || (AllUsed(procs, start, MAX_PID) && !AllUsed(procs, 1, lcpuCount))
  {
  }

  /** That happens: with the pids from 5000 up in use and two processors, the next pid is that of the second idle process. */
  lemma IdlePidTaken(pid: nat)
    requires FirstFree(seq(3192, i => 5000 + i), 5000, pid) && 1 <= pid < MAX_PID
    ensures var procs := seq(3192, i => 5000 + i); NoDup(procs) && |procs| < MAX_PROCESS && Safe(4999, 5000, procs)
    ensures pid == 1 < 2
  {
    var procs := seq(3192, i => 5000 + i);
    forall p | 5000 <= p < MAX_PID
      ensures p in procs
    {
      assert procs[p - 5000] == p;
    }
    assert forall p :: p in procs ==> p >= 5000;
    assert 1 !in procs;
  }

  /** How far a scan is from a given free pid, around the wrap from the largest pid to 1. */
  function Distance(last: nat, free: nat): nat
    requires last <= MAX_PID
  {
    if last <= free then free - last else (MAX_PID - last) + free
  }

  /** With fewer processes than pids some pid is free. */
  lemma SomeFree(procs: seq<nat>) returns (f: nat)
    requires NoDup(procs) && |procs| <= MAX_PROCESS
    ensures 1 <= f < MAX_PID && f !in procs
  {
    hide Below, Elems, NoDup;
    var pids := Below(MAX_PID) - {0};
    assert |pids| == MAX_PID - 1;
    ElemsSize(procs);
    if pids <= Elems(procs) {
      SubsetSize(pids, Elems(procs));
    }
    f :| f in pids && f !in Elems(procs);
  }

  /** The interval survives a fork that takes the last pid, and any exit. */
  lemma SafeFork(last: nat, next: nat, procs: seq<nat>)
    requires Safe(last, next, procs)
    ensures Safe(last, next, procs + [last])
  {
  }

  lemma SafeExit(last: nat, next: nat, procs: seq<nat>, pid: nat)
    requires Safe(last, next, procs) && NoDup(procs)
    ensures Safe(last, next, Without(procs, pid))
  {
    WithoutOk(procs, pid);
    var r := Without(procs, pid);
    forall i | 0 <= i < |r|
      ensures !(last < r[i] < next)
    {
      assert r[i] in r;
    }
  }

  class ProcTable {
    const lcpuCount: nat
    var lastPid: nat
    var nextSafe: nat
    var procs: seq<nat>

    ghost predicate Valid()
      reads this
    {
      && 1 <= lcpuCount < MAX_PID && 1 <= lastPid <= MAX_PID && nextSafe <= MAX_PID
      && NoDup(procs) && Safe(lastPid, nextSafe, procs)
    }

    constructor (lcpuCount: nat)
      requires 1 <= lcpuCount < MAX_PID
      ensures Valid() && procs == []
    {
      this.lcpuCount := lcpuCount;
      lastPid, nextSafe, procs := MAX_PID, MAX_PID, [];
    }

    /** A pid no process has; the scan always ends, and the interval after it stays free. */
    method GetPid() returns (pid: nat)
      requires Valid() && |procs| <= MAX_PROCESS
      modifies this`lastPid, this`nextSafe
      ensures Valid() && 1 <= pid < MAX_PID && pid !in procs && pid == lastPid < nextSafe
      ensures old(lastPid) + 1 < old(nextSafe) ==> pid == old(lastPid) + 1 && nextSafe == old(nextSafe)
      ensures FirstFree(procs, if old(lastPid) + 1 < MAX_PID then old(lastPid) + 1 else lcpuCount, pid)
    {
      lastPid := lastPid + 1;
      if lastPid >= MAX_PID {
        lastPid := lcpuCount;
        Scan();
      } else if lastPid >= nextSafe {
        Scan();
      }
      pid := lastPid;
    }

    /** Moves to the next free pid, starting over whenever the scan runs into the end of its interval. */
    method Scan()
      requires 1 <= lastPid < MAX_PID && NoDup(procs) && |procs| <= MAX_PROCESS
      modifies this`lastPid, this`nextSafe
      ensures 1 <= lastPid < nextSafe <= MAX_PID && Clear(lastPid, nextSafe, procs, |procs|)
      ensures FirstFree(procs, old(lastPid), lastPid)
    {
      ghost var free := SomeFree(procs);
      nextSafe := MAX_PID;
      var i := 0;
      while i < |procs|
        invariant 0 <= i <= |procs| && 1 <= lastPid < nextSafe <= MAX_PID && Clear(lastPid, nextSafe, procs, i)
        invariant Passed(procs, old(lastPid), lastPid)
        decreases Distance(lastPid, free), |procs| - i
      {
        var p := procs[i];
        i := i + 1;
        if p == lastPid {
          lastPid := lastPid + 1;
          if lastPid >= nextSafe {
            if lastPid >= MAX_PID {
              lastPid := 1;
            }
            nextSafe := MAX_PID;
            i := 0;
          }
        } else if p > lastPid && nextSafe > p {
          nextSafe := p;
        }
      }
    }

    /** A new process under a fresh pid. */
    method Fork() returns (pid: nat)
      requires Valid() && |procs| < MAX_PROCESS
      modifies this
      ensures Valid() && 1 <= pid < MAX_PID && pid !in old(procs) && procs == old(procs) + [pid]
    {
      pid := GetPid();
      SafeFork(lastPid, nextSafe, procs);
      procs := procs + [pid];
    }

    method Exit(pid: nat)
      requires Valid() && pid in procs
      modifies this`procs
      ensures Valid() && pid !in procs && forall p :: p in procs <==> p in old(procs) && p != pid
    {
      WithoutOk(procs, pid);
      SafeExit(lastPid, nextSafe, procs, pid);
      procs := Without(procs, pid);
    }
  }
}
