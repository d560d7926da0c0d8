/**
 The delta timer list of schedule/sched.c: every entry holds the ticks after its
 predecessor, so a tick touches only the head. Proved against the plain set of deadlines.
 */
module DeltaTimers {
  import opened Deadlines
  import opened Lists

  datatype Entry = Entry(id: nat, expires: nat)

  ghost predicate Distinct(l: seq<Entry>)
  {
    forall i, j :: 0 <= i < j < |l| ==> l[i].id != l[j].id
  }

  /** The deadlines the list stands for, counted from `base`. */
  ghost function Dues(l: seq<Entry>, base: nat): map<nat, nat>
  {
    if l == [] then map[] else Dues(l[1..], base + l[0].expires)[l[0].id := base + l[0].expires]
  }

  function Sum(l: seq<Entry>): nat
  {
    if l == [] then 0 else l[0].expires + Sum(l[1..])
  }

  lemma {:induction false} SumNext(l: seq<Entry>, i: nat)
    requires i < |l|
    ensures Sum(l[..i + 1]) == Sum(l[..i]) + l[i].expires
  {
    if i > 0 {
      SumNext(l[1..], i - 1);
      assert l[..i + 1][1..] == l[1..][..i] && l[..i][1..] == l[1..][..i - 1];
    } else {
      assert l[..1][1..] == [];
    }
  }

  lemma {:induction false} DuesKeys(l: seq<Entry>, base: nat, id: nat)
    ensures id in Dues(l, base) <==> exists i :: 0 <= i < |l| && l[i].id == id
    ensures id in Dues(l, base) ==> base <= Dues(l, base)[id]
  {
    if l != [] {
      DuesKeys(l[1..], base + l[0].expires, id);
      if id != l[0].id && id in Dues(l[1..], base + l[0].expires) {
        var i :| 0 <= i < |l[1..]| && l[1..][i].id == id;
        assert l[i + 1].id == id;
      }
      if exists i :: 0 <= i < |l| && l[i].id == id {
        var i :| 0 <= i < |l| && l[i].id == id;
        if i > 0 {
          assert l[1..][i - 1].id == id;
        }
      }
    }
  }

  /** A new entry at position `i` takes its ticks off the entry it goes before. */
  function Inserted(l: seq<Entry>, i: nat, x: Entry): seq<Entry>
    requires i <= |l| && (i < |l| ==> x.expires <= l[i].expires)
  {
    if i == |l| then l + [x]
    else l[..i] + [x, l[i].(expires := l[i].expires - x.expires)] + l[i + 1..]
  }

  /** Inserting adds one deadline and moves no other. */
  lemma {:induction false} DuesInserted(l: seq<Entry>, base: nat, i: nat, x: Entry)
    requires i <= |l| && (i < |l| ==> x.expires <= l[i].expires)
    requires forall j :: 0 <= j < |l| ==> l[j].id != x.id
    ensures Dues(Inserted(l, i, x), base) == Dues(l, base)[x.id := base + Sum(l[..i]) + x.expires]
  {
    hide Dues, Sum;
    var r := Inserted(l, i, x);
    DuesStep(r, base);
    if i > 0 {
      var t := l[1..];
      DuesInserted(t, base + l[0].expires, i - 1, x);
      assert r[0] == l[0] && r[1..] == Inserted(t, i - 1, x);
      SumStep(l[..i]);
      assert l[..i][1..] == t[..i - 1];
      DuesStep(l, base);
    } else {
      SumNone(l[..0]);
      if l == [] {
        assert r[1..] == [];
        DuesNone(base);
        DuesNone(base + x.expires);
      } else {
        var y := l[0].(expires := l[0].expires - x.expires);
        assert r[0] == x && r[1..] == [y] + l[1..];
        DuesStep(r[1..], base + x.expires);
        assert r[1..][1..] == l[1..];
        DuesStep(l, base);
      }
    }
  }

  lemma {:induction false} DistinctInserted(l: seq<Entry>, i: nat, x: Entry)
    requires i <= |l| && (i < |l| ==> x.expires <= l[i].expires)
    requires Distinct(l) && forall j :: 0 <= j < |l| ==> l[j].id != x.id
    ensures Distinct(Inserted(l, i, x))
  {
    var r := Inserted(l, i, x);
    assert forall j :: 0 <= j < |r| ==> r[j].id == if j < i then l[j].id else if j == i then x.id else l[j - 1].id;
  }

  /** The list without entry `i`, whose ticks go to its successor. */
  function Deleted(l: seq<Entry>, i: nat): seq<Entry>
    requires i < |l|
  {
    if i + 1 == |l| then l[..i]
    else l[..i] + [l[i + 1].(expires := l[i + 1].expires + l[i].expires)] + l[i + 2..]
  }

  /** Deleting removes one deadline and moves no other. */
  lemma {:induction false} DuesDeleted(l: seq<Entry>, base: nat, i: nat)
    requires i < |l| && Distinct(l)
    ensures Dues(Deleted(l, i), base) == Dues(l, base) - {l[i].id}
  {
    hide Dues, Distinct;
    var r := Deleted(l, i);
    DuesStep(l, base);
    DistinctTail(l);
    if i > 0 {
      DuesDeleted(l[1..], base + l[0].expires, i - 1);
      assert r[0] == l[0] && r[1..] == Deleted(l[1..], i - 1);
      DuesStep(r, base);
      assert l[i] == l[1..][i - 1];
    } else {
      DuesKeys(l[1..], base + l[0].expires, l[0].id);
      if |l| > 1 {
        assert r[0] == l[1].(expires := l[1].expires + l[0].expires) && r[1..] == l[1..][1..];
        DuesStep(r, base);
        DuesStep(l[1..], base + l[0].expires);
      } else {
        DuesNone(base);
        DuesNone(base + l[0].expires);
      }
    }
  }

  lemma SumStep(l: seq<Entry>)
    requires l != []
    ensures Sum(l) == l[0].expires + Sum(l[1..])
  {
  }

  lemma SumNone(l: seq<Entry>)
    requires l == []
    ensures Sum(l) == 0
  {
  }

  lemma DuesStep(l: seq<Entry>, base: nat)
    requires l != []
    ensures Dues(l, base) == Dues(l[1..], base + l[0].expires)[l[0].id := base + l[0].expires]
  {
  }

  lemma DistinctTail(l: seq<Entry>)
    requires Distinct(l) && l != []
    ensures Distinct(l[1..]) && (forall j :: 0 <= j < |l[1..]| ==> l[1..][j].id != l[0].id)
    ensures forall j :: 0 < j < |l| ==> l[j].id != l[0].id
  {
  }

  lemma DistinctDeleted(l: seq<Entry>, i: nat)
    requires i < |l| && Distinct(l)
    ensures Distinct(Deleted(l, i))
  {
    var r := Deleted(l, i);
    assert forall j :: 0 <= j < |r| ==> r[j].id == if j < i then l[j].id else l[j + 1].id;
  }

  /** One tick off the head is one tick for every deadline. */
  lemma DuesTick(l: seq<Entry>, base: nat)
    requires l != [] && l[0].expires > 0
    ensures Dues(l[0 := l[0].(expires := l[0].expires - 1)], base + 1) == Dues(l, base)
  {
    var r := l[0 := l[0].(expires := l[0].expires - 1)];
    assert r[1..] == l[1..];
  }

  /** With a head still to wait for, every deadline lies ahead. */
  lemma DuesAhead(l: seq<Entry>, base: nat)
    requires l != [] ==> l[0].expires > 0
    ensures forall id :: id in Dues(l, base) ==> base < Dues(l, base)[id]
  {
    if l != [] {
      forall id | id in Dues(l, base)
        ensures base < Dues(l, base)[id]
      {
        DuesKeys(l[1..], base + l[0].expires, id);
      }
    }
  }

  /** While due entries are taken off the head: what is woken, and what is left, is what was due and what was not. */
  ghost predicate Draining(s: Deadlines, ids: seq<nat>, l: seq<Entry>, now: nat)
  {
    && Distinct(l) && NoDup(ids)
    && (forall id :: id in ids <==> id in s.due && id !in Dues(l, now))
    && (forall id :: id in Dues(l, now) ==> id in s.due && Dues(l, now)[id] == s.due[id])
    && (forall id :: id in ids ==> s.due[id] == now)
  }

  lemma DrainStart(s: Deadlines, l: seq<Entry>, now: nat)
    requires Distinct(l) && Dues(l, now) == s.due
    ensures Draining(s, [], l, now)
  {
    hide Dues;
  }

  lemma DrainStep(s: Deadlines, ids: seq<nat>, l: seq<Entry>, now: nat)
    requires Draining(s, ids, l, now) && l != [] && l[0].expires == 0
    ensures Draining(s, ids + [l[0].id], Deleted(l, 0), now)
  {
    hide Deleted;
    var t := l[0].id;
    HeadDue(l, now);
    hide Dues;
    DuesDeleted(l, now, 0);
    DistinctDeleted(l, 0);
    assert t !in ids;
  }

  lemma DuesNone(now: nat)
    ensures Dues([], now) == map[]
  {
  }

  lemma HeadDue(l: seq<Entry>, now: nat)
    requires l != []
    ensures l[0].id in Dues(l, now) && Dues(l, now)[l[0].id] == now + l[0].expires
  {
  }

  class TimerList {
    var list: seq<Entry>
    /** The ticks so far, and the timers that have woken their process. */
    var now: nat
    var log: seq<Fire>

    ghost predicate Valid()
      reads this
    {
      Distinct(list) && (list != [] ==> list[0].expires > 0)
    }

    ghost function State(): Deadlines
      reads this
    {
      Deadlines(now, Dues(list, now), log)
    }

    constructor ()
      ensures Valid() && State() == Deadlines(0, map[], [])
    {
      list, now, log := [], 0, [];
    }

    /** A timer added with `expires` is due that many ticks from now; no other deadline moves. */
    method AddTimer(id: nat, expires: nat)
      requires Valid() && id !in State().due && expires > 0
      modifies this`list
      ensures Valid() && Step(old(State()), Open(id, now + expires), State())
    {
      hide Dues, Sum;
      var i: nat, e: nat := 0, expires;
      ghost var l := list;
      SumNone(l[..0]);
      forall j | 0 <= j < |l|
        ensures l[j].id != id
      {
        DuesKeys(l, now, l[j].id);
      }
      while i < |list|
        invariant 0 <= i <= |list| && list == l && e + Sum(l[..i]) == expires
        invariant i == 0 ==> e == expires
        invariant i > 0 && e == 0 ==> Sum(l[..i]) > 0
      {
        if e < list[i].expires {
          break;
        }
        SumNext(l, i);
        e := e - list[i].expires;
        i := i + 1;
      }
      var x := Entry(id, e);
      DuesInserted(l, now, i, x);
      DistinctInserted(l, i, x);
      if i < |list| {
        var next := list[i].(expires := list[i].expires - e);
        list := list[..i] + [x, next] + list[i + 1..];
      } else {
        list := list + [x];
      }
    }

    /** A deleted timer is no longer due; no other deadline moves. */
    method DelTimer(id: nat)
      requires Valid()
      modifies this`list
      ensures Valid() && Step(old(State()), Close(id), State())
    {
      var i := 0;
      while i < |list| && list[i].id != id
        invariant 0 <= i <= |list| && forall j :: 0 <= j < i ==> list[j].id != id
      {
        i := i + 1;
      }
      DuesKeys(list, now, id);
      if i < |list| {
        DuesDeleted(list, now, i);
        DistinctDeleted(list, i);
        Unlink(i);
      }
    }

    method Unlink(i: nat)
      requires i < |list|
      modifies this`list
      ensures list == Deleted(old(list), i)
    {
      if list[i].expires != 0 && i + 1 < |list| {
        list := list[i + 1 := list[i + 1].(expires := list[i + 1].expires + list[i].expires)];
      }
      list := list[..i] + list[i + 1..];
    }

    /** A tick wakes exactly the timers that are due, and leaves a head that is still to come. */
    method RunTimerList()
      requires Valid()
      modifies this
      ensures Valid() && Step(old(State()), Tick(1), State())
    {
      ghost var s := State();
      hide Dues, Step, Draining;
      DuesAhead(list, now);
      now := now + 1;
      ghost var ids: seq<nat> := [];
      if list != [] {
        DuesTick(list, now - 1);
        list := list[0 := list[0].(expires := list[0].expires - 1)];
        DrainStart(s, list, now);
        while list != [] && list[0].expires == 0
          invariant now == s.now + 1 && log == s.log + FiredAt(ids, now) && Draining(s, ids, list, now)
          decreases |list|
        {
          var t := list[0].id;
          DrainStep(s, ids, list, now);
          log := log + [Fire(t, now)];
          assert FiredAt(ids + [t], now) == FiredAt(ids, now) + [Fire(t, now)];
          ids := ids + [t];
          Unlink(0);
        }
      } else {
        DuesNone(now);
        DuesNone(now - 1);
        DrainStart(s, list, now);
      }
      DuesAhead(list, now);
      Ticked(s, ids, list, State());
    }
  }

  lemma Ticked(s: Deadlines, ids: seq<nat>, l: seq<Entry>, t: Deadlines)
    requires Wf(s) && Wf(t) && Draining(s, ids, l, t.now) && t.due == Dues(l, t.now)
    requires t.now == s.now + 1 && t.log == s.log + FiredAt(ids, t.now)
    ensures Step(s, Tick(1), t) && Distinct(l)
  {
    hide Step, FiredAt;
    assert t.due == map id | id in s.due && s.due[id] != t.now :: s.due[id];
    OneStep(s, 1, ids, t);
  }
}
