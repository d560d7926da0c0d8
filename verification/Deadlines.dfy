/**
 Timers as a plain set of deadlines: opening, closing and ticking, and what whole runs of
 these operations activate. Both timer implementations are proved against it.
 */
module Deadlines {
  import opened Lists

  /** An activation of a timer's event, and the tick at which it happened. */
  datatype Fire = Fire(id: nat, tick: nat)

  /** The specification state: the time, the open timers' deadlines and the activations so far. */
  datatype Deadlines = Deadlines(now: nat, due: map<nat, nat>, log: seq<Fire>)

  datatype Op = Open(id: nat, key: nat) | Close(id: nat) | Tick(n: nat)

  /** Exactly the timers due in `(from, to]`, each once, each at its deadline, in time order. */
  ghost predicate FiresOk(due: map<nat, nat>, from: nat, to: nat, f: seq<Fire>)
  {
    && (forall i :: 0 <= i < |f| ==> f[i].id in due && f[i].tick == due[f[i].id] && from < f[i].tick <= to)
    && (forall i, j :: 0 <= i < j < |f| ==> f[i].id != f[j].id && f[i].tick <= f[j].tick)
    && (forall id :: id in due && due[id] <= to ==> Fire(id, due[id]) in f)
  }

  function Later(due: map<nat, nat>, to: nat): map<nat, nat>
  {
    map id | id in due && to < due[id] :: due[id]
  }

  ghost predicate Wf(s: Deadlines)
  {
    forall id :: id in s.due ==> s.now < s.due[id]
  }

  ghost predicate Step(s: Deadlines, op: Op, t: Deadlines)
  {
    match op
    case Open(id, k) =>
      && id !in s.due && s.now <= k && t.now == s.now
      && (if k == s.now then t.due == s.due && t.log == s.log + [Fire(id, k)] else t.due == s.due[id := k] && t.log == s.log)
    case Close(id) => t.now == s.now && t.due == s.due - {id} && t.log == s.log
    case Tick(n) =>
      && t.now == s.now + n && t.due == Later(s.due, t.now)
      && |s.log| <= |t.log| && t.log[..|s.log|] == s.log && FiresOk(s.due, s.now, t.now, t.log[|s.log|..])
  }

  // ---------- whole runs ----------

  ghost predicate Run(run: seq<Deadlines>, ops: seq<Op>)
  {
    |run| == |ops| + 1 && Wf(run[0]) && forall i :: 0 <= i < |ops| ==> Step(run[i], ops[i], run[i + 1])
  }

  lemma StepWf(s: Deadlines, op: Op, t: Deadlines)
    requires Wf(s) && Step(s, op, t)
    ensures Wf(t) && |s.log| <= |t.log| && t.log[..|s.log|] == s.log
  {
  }

  /** The entries of a log that belong to one timer. */
  function Entries(log: seq<Fire>, id: nat): seq<Fire>
  {
    if log == [] then []
    else if log[|log| - 1].id == id then Entries(log[..|log| - 1], id) + [log[|log| - 1]]
    else Entries(log[..|log| - 1], id)
  }

  lemma {:induction false} EntriesConcat(a: seq<Fire>, b: seq<Fire>, id: nat)
    ensures Entries(a + b, id) == Entries(a, id) + Entries(b, id)
  {
    if b == [] {
      assert a + b == a;
    } else {
      var c := b[..|b| - 1];
      EntriesConcat(a, c, id);
      assert (a + b)[..|a + b| - 1] == a + c;
    }
  }

  lemma {:induction false} EntriesNone(f: seq<Fire>, id: nat)
    requires forall i :: 0 <= i < |f| ==> f[i].id != id
    ensures Entries(f, id) == []
  {
    if f != [] {
      EntriesNone(f[..|f| - 1], id);
    }
  }

  lemma EntriesOne(f: seq<Fire>, id: nat, k: nat)
    requires k < |f| && f[k].id == id && forall i :: 0 <= i < |f| && i != k ==> f[i].id != id
    ensures Entries(f, id) == [f[k]]
  {
    var a, b := f[..k], f[k + 1..];
    EntriesNone(a, id);
    EntriesNone(b, id);
    EntriesConcat(a, [f[k]], id);
    EntriesConcat(a + [f[k]], b, id);
    assert f == a + [f[k]] + b;
    assert Entries([f[k]], id) == [f[k]];
  }

  lemma EntriesOfTick(due: map<nat, nat>, from: nat, to: nat, f: seq<Fire>, id: nat)
    requires FiresOk(due, from, to, f)
    ensures Entries(f, id) == if id in due && due[id] <= to then [Fire(id, due[id])] else []
  {
    if id in due && due[id] <= to {
      var k :| 0 <= k < |f| && f[k] == Fire(id, due[id]);
      forall i | 0 <= i < |f| && i != k
        ensures f[i].id != id
      {
        assert if i < k then f[i].id != f[k].id else f[k].id != f[i].id;
      }
      EntriesOne(f, id, k);
    } else {
      EntriesNone(f, id);
    }
  }

  /** The timer waits with its key, or its key has come and it fired once, at its key. */
  ghost predicate Served(s: Deadlines, mark: nat, id: nat, k: nat)
  {
    && mark <= |s.log|
    && (if s.now < k then id in s.due && s.due[id] == k && Entries(s.log[mark..], id) == []
        else id !in s.due && Entries(s.log[mark..], id) == [Fire(id, k)])
  }

  function Added(s: Deadlines, op: Op, to: nat, id: nat): seq<Fire>
  {
    match op
    case Open(x, k) => if x == id && k == s.now then [Fire(id, k)] else []
    case Close(_) => []
    case Tick(_) => if id in s.due && s.due[id] <= to then [Fire(id, s.due[id])] else []
  }

  /** What an operation adds to the log about one timer. */
  lemma StepEntries(s: Deadlines, op: Op, t: Deadlines, mark: nat, id: nat)
    requires Wf(s) && Step(s, op, t) && mark <= |s.log|
    ensures mark <= |t.log|
    ensures Entries(t.log[mark..], id) == Entries(s.log[mark..], id) + Added(s, op, t.now, id)
  {
    StepWf(s, op, t);
    var f := t.log[|s.log|..];
    assert t.log[mark..] == s.log[mark..] + f;
    EntriesConcat(s.log[mark..], f, id);
    match op
    case Open(x, k) =>
      if k == s.now {
        assert f == [Fire(x, k)];
        if x == id {
          EntriesOne(f, id, 0);
        } else {
          EntriesNone(f, id);
        }
      } else {
        assert f == [];
      }
    case Close(_) =>
      assert f == [];
    case Tick(_) =>
      EntriesOfTick(s.due, s.now, t.now, f, id);
  }

  lemma ServedStep(s: Deadlines, op: Op, t: Deadlines, mark: nat, id: nat, k: nat)
    requires Wf(s) && Step(s, op, t) && Served(s, mark, id, k)
    requires op != Close(id) && !(op.Open? && op.id == id)
    ensures Served(t, mark, id, k)
  {
    hide FiresOk, Entries;
    StepEntries(s, op, t, mark, id);
  }

  /**
   Over any run, a timer opened with a deadline and neither closed nor opened again is
   activated exactly once if its deadline has passed, at that very tick, and not at all before.
   */
  lemma {:induction false} FiresExactlyOnce(run: seq<Deadlines>, ops: seq<Op>, id: nat, k: nat, n: nat)
    requires Run(run, ops) && 0 < n <= |ops| && ops[0] == Open(id, k)
    requires forall i :: 0 < i < n ==> ops[i] != Close(id) && !(ops[i].Open? && ops[i].id == id)
    ensures Wf(run[n]) && Served(run[n], |run[0].log|, id, k)
  {
    if n == 1 {
      StepWf(run[0], ops[0], run[1]);
      StepEntries(run[0], ops[0], run[1], |run[0].log|, id);
      assert run[0].log[|run[0].log|..] == [];
    } else {
      FiresExactlyOnce(run, ops, id, k, n - 1);
      StepWf(run[n - 1], ops[n - 1], run[n]);
      ServedStep(run[n - 1], ops[n - 1], run[n], |run[0].log|, id, k);
    }
  }

  /** A timer that is closed before its deadline is never activated. */
  lemma {:induction false} ClosedStaysQuiet(run: seq<Deadlines>, ops: seq<Op>, id: nat, n: nat)
    requires Run(run, ops) && 0 < n <= |ops| && ops[0] == Close(id)
    requires forall i :: 0 < i < n ==> !(ops[i].Open? && ops[i].id == id)
    ensures Wf(run[n]) && id !in run[n].due && |run[0].log| <= |run[n].log| && Entries(run[n].log[|run[0].log|..], id) == []
  {
    if n == 1 {
      StepWf(run[0], ops[0], run[1]);
      StepEntries(run[0], ops[0], run[1], |run[0].log|, id);
      assert run[0].log[|run[0].log|..] == [];
    } else {
      ClosedStaysQuiet(run, ops, id, n - 1);
      StepWf(run[n - 1], ops[n - 1], run[n]);
      StepEntries(run[n - 1], ops[n - 1], run[n], |run[0].log|, id);
    }
  }

  // ---------- ticks ----------

  lemma FiresConcat(due: map<nat, nat>, from: nat, mid: nat, to: nat, f: seq<Fire>, g: seq<Fire>)
    requires FiresOk(due, from, mid, f) && FiresOk(Later(due, mid), mid, to, g) && from <= mid <= to
    ensures FiresOk(due, from, to, f + g)
  {
    var h := f + g;
    forall id | id in due && due[id] <= to
      ensures Fire(id, due[id]) in h
    {
      if due[id] <= mid {
        assert Fire(id, due[id]) in f;
      } else {
        assert id in Later(due, mid);
        assert Fire(id, due[id]) in g;
      }
    }
    forall i, j | 0 <= i < j < |h|
      ensures h[i].id != h[j].id && h[i].tick <= h[j].tick
    {
      if i < |f| <= j {
        assert h[i] == f[i] && h[j] == g[j - |f|];
        assert g[j - |f|].id in Later(due, mid);
      }
    }
  }

  lemma LaterTwice(due: map<nat, nat>, mid: nat, to: nat)
    requires mid <= to
    ensures Later(Later(due, mid), to) == Later(due, to)
  {
  }

  /** Ticking in two parts is ticking once. */
  lemma TickTwice(s: Deadlines, a: nat, m: Deadlines, b: nat, t: Deadlines)
    requires Step(s, Tick(a), m) && Step(m, Tick(b), t)
    ensures Step(s, Tick(a + b), t)
  {
    hide FiresOk, Later;
    var f, g := m.log[|s.log|..], t.log[|m.log|..];
    FiresConcat(s.due, s.now, m.now, t.now, f, g);
    LaterTwice(s.due, m.now, t.now);
    assert t.log[|s.log|..] == f + g;
    assert t.log[..|s.log|] == s.log by {
      assert t.log[..|s.log|] == t.log[..|m.log|][..|s.log|];
    }
  }

  function FiredAt(ids: seq<nat>, tick: nat): (f: seq<Fire>)
    ensures |f| == |ids| && forall i :: 0 <= i < |f| ==> f[i] == Fire(ids[i], tick)
  {
    seq(|ids|, i requires 0 <= i < |ids| => Fire(ids[i], tick))
  }

  /** A step that passes no deadline fires exactly what is due at its end. */
  lemma OneStep(s: Deadlines, n: nat, ids: seq<nat>, t: Deadlines)
    requires Wf(s) && 0 < n && NoDup(ids) && forall id :: id in s.due ==> s.now + n <= s.due[id]
    requires forall id :: id in ids <==> id in s.due && s.due[id] == s.now + n
    requires t.now == s.now + n && t.log == s.log + FiredAt(ids, t.now)
    requires t.due == map id | id in s.due && s.due[id] != t.now :: s.due[id]
    ensures Step(s, Tick(n), t)
  {
    var f := t.log[|s.log|..];
    assert f == FiredAt(ids, t.now);
    assert t.due == Later(s.due, t.now);
    forall id | id in s.due && s.due[id] <= t.now
      ensures Fire(id, s.due[id]) in f
    {
      var i :| 0 <= i < |ids| && ids[i] == id;
      assert f[i] == Fire(id, t.now);
    }
    forall i | 0 <= i < |f|
      ensures f[i].id in s.due && f[i].tick == s.due[f[i].id]
    {
      assert ids[i] in ids;
    }
  }

  lemma NoTick(s: Deadlines)
    requires Wf(s)
    ensures Step(s, Tick(0), s)
  {
    assert s.log[|s.log|..] == [];
    assert Later(s.due, s.now) == s.due;
  }
}
