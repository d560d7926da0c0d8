/**
 The slab allocator of mm/slab.c: slabs set up on pages from the page allocator, objects
 taken from and given back to their bufctl chains, and control areas that may themselves
 be objects of another cache.
 */
module Slab {
  import opened Lists
  import opened Powers
  import opened SlabLayout
  import opened SlabCore

  datatype Result = Object(addr: nat) | Null | Panic

  /** More pages in hand change nothing else. */
  lemma TakenPages(cfg: seq<Cfg>, st: State, more: set<nat>)
    requires Inv(cfg, st) && st.pages.Keys <= more
    ensures Inv(cfg, st.(taken := more)) && UsersSame(cfg, st, st.(taken := more))
  {
    hide CfgsOk, NoDup, SlabOk;
    var u := st.(taken := more);
    assert forall t, i :: LiveObj(cfg, u, t, i) <==> LiveObj(cfg, st, t, i);
    assert forall a, c :: LiveIn(cfg, u, a, c) <==> LiveIn(cfg, st, a, c);
    assert forall k, c :: Listed(u, k, c) <==> Listed(st, k, c);
  }

  lemma EmptyInv(cfg: seq<Cfg>, st: State)
    requires CfgsOk(cfg) && st == State(map[], map[], seq(|cfg|, i => []), seq(|cfg|, i => []), map[], {})
    ensures Inv(cfg, st) && Busy(cfg, st, {}) && forall a :: !User(cfg, st, a)
  {
    hide CfgsOk;
  }

  /** What a user's address leads to. */
  lemma UserObject(cfg: seq<Cfg>, st: State, a: nat) returns (k: nat, x: nat)
    requires Inv(cfg, st) && User(cfg, st, a)
    ensures LiveObj(cfg, st, k, x) && k in st.slabs && st.slabs[k].cache < |cfg| && a == Addr(cfg, st.slabs[k], x)
    ensures a / PGSIZE in st.pages && st.pages[a / PGSIZE] == k && !OffSlab(cfg, st, a)
    ensures cfg[st.slabs[k].cache].objsize > 0 && SMem(cfg, st.slabs[k]) <= a
    ensures (a - SMem(cfg, st.slabs[k])) / cfg[st.slabs[k].cache].objsize == x
    ensures k in st.chains && x < |st.slabs[k].bufctl| && x !in st.chains[k] && st.slabs[k].inuse > 0
    ensures st.slabs[k].inuse + |st.chains[k]| == cfg[st.slabs[k].cache].num
  {
    hide LiveIn, LiveObj, Addr, Inv, CfgsOk, SMem, OffSlab;
    var c :| LiveIn(cfg, st, a, c);
    k, x := LiveWitness(cfg, st, a, c);
    PageOf(cfg, st, k, x);
    InvCfg(cfg, st, k, x);
    ObjectNumber(cfg, st.slabs[k], x);
    LiveSlab(cfg, st, k, x);
  }

  /** A slab with an allocated object counts it as in use. */
  lemma LiveSlab(cfg: seq<Cfg>, st: State, k: nat, x: nat)
    requires Inv(cfg, st) && LiveObj(cfg, st, k, x) && k in st.slabs && st.slabs[k].cache < |cfg|
    ensures k in st.chains && x < |st.slabs[k].bufctl| && x !in st.chains[k] && st.slabs[k].inuse > 0
    ensures st.slabs[k].inuse + |st.chains[k]| == cfg[st.slabs[k].cache].num
  {
    hide ListsOk, PagesOk, KeysOk, CfgsOk;
    assert SlabOk(cfg, st.slabs[k], st.chains[k]);
    if st.slabs[k].inuse == 0 {
      FullChain(st.chains[k], cfg[st.slabs[k].cache].num, x);
    }
  }

  lemma FullChain(c: seq<nat>, num: nat, x: nat)
    requires NoDup(c) && (forall j :: 0 <= j < |c| ==> c[j] < num) && |c| == num && x < num
    ensures x in c
  {
    ElemsSize(c);
    if x !in c {
      assert Elems(c) + {x} <= Below(num);
      SubsetSize(Elems(c) + {x}, Below(num));
    }
  }

  lemma ChainSize(num: nat, free: nat, bufctl: seq<nat>, c: seq<nat>)
    requires ChainOk(num, free, bufctl, c)
    ensures |bufctl| == num
  {
  }

  lemma ListHead(cfg: seq<Cfg>, st: State, c: nat)
    requires Inv(cfg, st) && c < |cfg|
    ensures |st.full| == |st.notfull| == |cfg|
    ensures st.notfull[c] != [] ==> (
      var k := st.notfull[c][0];
      && k in st.slabs && k in st.chains && st.slabs[k].cache == c && st.chains[k] != []
      && SlabOk(cfg, st.slabs[k], st.chains[k]))
  {
    hide CfgsOk, KeysOk, PagesOk, SlabOk;
    if st.notfull[c] != [] {
      assert st.notfull[c][0] in st.notfull[c];
      assert Listed(st, st.notfull[c][0], c);
    }
  }

  function PageRun(base: nat, n: nat): set<nat>
  {
    set p: nat | p < base + n && InRange(base, n, p)
  }

  lemma TakenBusy(cfg: seq<Cfg>, st: State, k: nat, u: State, x: set<nat>)
    requires Taken(st, k, u) && Busy(cfg, st, x) && x <= {k}
    ensures Busy(cfg, u, {}) && u.pages == st.pages && u.taken == st.taken
  {
  }

  lemma PagesTaken(cfg: seq<Cfg>, st: State)
    requires Inv(cfg, st)
    ensures st.pages.Keys <= st.taken
  {
  }

  lemma RoomHere(cfg: seq<Cfg>, st: State, c: nat, base: nat, n: nat, key: nat, st1: State)
    requires c < |cfg| && n == Pow2(cfg[c].order) && PageRun(base, n) <= st.taken - st.pages.Keys
    requires if cfg[c].off then LiveIn(cfg, st, key, cfg[c].ctl) && UsersPlus(cfg, st1, st, key) else key == base * PGSIZE
    ensures Room(cfg, st, c, base, key)
  {
    hide LiveIn, Pow2;
    forall p: nat | base <= p < base + n
      ensures p in st.taken && p !in st.pages
    {
      assert p in PageRun(base, n);
    }
  }

  lemma MarkedKeys(pages: map<nat, nat>, base: nat, n: nat, k: nat)
    ensures Marked(pages, base, n, k).Keys == pages.Keys + PageRun(base, n)
  {
  }

  /** The pages of a slab are slab pages. */
  lemma RunLoose(cfg: seq<Cfg>, st: State, k: nat)
    requires Inv(cfg, st) && k in st.slabs && st.slabs[k].cache < |cfg|
    ensures var s := st.slabs[k]; var n := Pow2(cfg[s.cache].order);
      PageRun(s.base, n) <= st.pages.Keys && Unmarked(st.pages, s.base, n).Keys == st.pages.Keys - PageRun(s.base, n)
  {
    hide CfgsOk, ListsOk, KeysOk, SlabsOk, Pow2;
    var s := st.slabs[k];
    var n := Pow2(cfg[s.cache].order);
    forall p | p in PageRun(s.base, n)
      ensures p in st.pages
    {
      assert InRun(cfg, s, p);
    }
  }

  /** The not-full lists of all other caches are as they were. */
  ghost predicate OthersKept(l: seq<seq<nat>>, r: seq<seq<nat>>, c: nat)
  {
    |l| == |r| && forall d :: 0 <= d < |l| && d != c ==> r[d] == l[d]
  }

  lemma KeptSelf(l: seq<seq<nat>>, c: nat)
    ensures OthersKept(l, l, c)
  {
  }

  lemma KeptSet(l: seq<seq<nat>>, r: seq<seq<nat>>, c: nat, x: seq<nat>)
    requires OthersKept(l, r, c) && c < |r|
    ensures OthersKept(l, r[c := x], c)
  {
  }

  /** Pages taken for a slab that is then not set up. */
  lemma LooseBack(pages0: set<nat>, taken0: set<nat>, run: set<nat>, pages: set<nat>, taken: set<nat>)
    requires run !! taken0 && pages0 <= taken0 && pages <= taken && taken - pages == (taken0 + run) - pages0
    ensures pages <= taken - run && (taken - run) - pages == taken0 - pages0 && run <= taken - pages
  {
    forall x | x in run
      ensures x in taken - pages
    {
      assert x in (taken0 + run) - pages0;
    }
    forall x
      ensures x in (taken - run) - pages <==> x in taken0 - pages0
    {
      assert x in taken - pages <==> x in (taken0 + run) - pages0;
    }
  }

  lemma KeptAt(l: seq<seq<nat>>, r: seq<seq<nat>>, c: nat, d: nat)
    requires OthersKept(l, r, c) && d < |l| && d != c
    ensures |r| == |l| && r[d] == l[d]
  {
  }

  lemma UsersSelf(cfg: seq<Cfg>, st: State)
    ensures UsersSame(cfg, st, st)
  {
  }

  lemma ConfigAt(cfg: seq<Cfg>, st: State, c: nat)
    requires Inv(cfg, st) && c < |cfg|
    ensures 0 < cfg[c].num && (cfg[c].off ==> cfg[c].ctl < |cfg| && !cfg[cfg[c].ctl].off && cfg[c].ctl != c)
  {
    InvKeys(cfg, st);
    NumPositive(cfg, c);
  }

  lemma BusyTaken(cfg: seq<Cfg>, st: State, more: set<nat>)
    requires Busy(cfg, st, {})
    ensures Busy(cfg, st.(taken := more), {})
  {
  }

  /** Returning the pages when there is no control area for them. */
  lemma GaveUp(cfg: seq<Cfg>, st0: State, st1: State, st2: State, less: set<nat>)
    requires UsersSame(cfg, st0, st1) && UsersSame(cfg, st1, st2) && Inv(cfg, st2) && Busy(cfg, st2, {}) && st2.pages.Keys <= less
    ensures Inv(cfg, st2.(taken := less)) && Busy(cfg, st2.(taken := less), {}) && UsersSame(cfg, st0, st2.(taken := less))
  {
    hide Inv, UsersSame;
    TakenPages(cfg, st2, less);
    BusyTaken(cfg, st2, less);
    UsersTrans(cfg, st0, st1, st2, 0);
    UsersTrans(cfg, st0, st2, st2.(taken := less), 0);
  }

  /** The control area of a slab given up is a user's object of a cache whose control areas are on the slab. */
  lemma ControlHome(cfg: seq<Cfg>, st: State, k: nat, u: State, a: nat)
    requires Inv(cfg, st) && Inv(cfg, u) && OffSlab(cfg, st, k) && LiveIn(cfg, u, k, cfg[st.slabs[k].cache].ctl)
    requires UsersSwap(cfg, st, u, a, k)
    ensures User(cfg, u, k) && k / PGSIZE in u.pages && u.pages[k / PGSIZE] in u.slabs
    ensures u.slabs[u.pages[k / PGSIZE]].cache < |cfg| && !cfg[u.slabs[u.pages[k / PGSIZE]].cache].off
  {
    hide Inv, LiveIn, LiveObj, Addr;
    ConfigAt(cfg, st, st.slabs[k].cache);
    var t, i := LiveWitness(cfg, u, k, cfg[st.slabs[k].cache].ctl);
    PageOf(cfg, u, t, i);
  }

  // ---------- accounting ----------

  /** The bytes of all allocated objects of the first `n` caches. */
  ghost function LiveBytes(cfg: seq<Cfg>, st: State, n: nat): nat
    requires n <= |cfg|
  {
    if n == 0 then 0 else LiveBytes(cfg, st, n - 1) + |LiveOf(cfg, st, n - 1)| * cfg[n - 1].objsize
  }

  /** The allocated objects of a cache, each as slab and number. */
  ghost function LiveOf(cfg: seq<Cfg>, st: State, c: nat): set<(nat, nat)>
  {
    set t, i | t in st.slabs && st.slabs[t].cache == c < |cfg| && 0 <= i < cfg[c].num && LiveObj(cfg, st, t, i) :: (t, i)
  }

  /** Which list a slab is in says how full it is. */
  lemma CacheSlab(cfg: seq<Cfg>, st: State, c: nat, k: nat)
    requires Inv(cfg, st) && c < |cfg|
    ensures |st.full| == |st.notfull| == |cfg| && NoDup(st.full[c]) && NoDup(st.notfull[c])
    ensures k in st.full[c] ==> k in st.slabs && st.slabs[k].cache == c && st.slabs[k].inuse == cfg[c].num && k !in st.notfull[c]
    ensures k in st.notfull[c] ==> k in st.slabs && st.slabs[k].cache == c
    ensures k in st.slabs && st.slabs[k].cache == c ==> k in st.full[c] || k in st.notfull[c]
  {
    hide NoDup, KeysOk, PagesOk, CfgsOk;
    assert Listed(st, k, c) <==> k in st.slabs && st.slabs[k].cache == c;
    if Listed(st, k, c) {
      assert SlabOk(cfg, st.slabs[k], st.chains[k]);
    }
  }

  lemma CacheSlabs(cfg: seq<Cfg>, st: State, c: nat)
    requires Inv(cfg, st) && c < |cfg|
    ensures |st.full| == |st.notfull| == |cfg| && NoDup(st.full[c]) && NoDup(st.notfull[c])
    ensures forall i :: 0 <= i < |st.full[c]| ==> st.full[c][i] in st.slabs && st.slabs[st.full[c][i]].cache == c
    ensures forall i :: 0 <= i < |st.notfull[c]| ==> st.notfull[c][i] in st.slabs && st.slabs[st.notfull[c][i]].cache == c
    ensures forall i :: 0 <= i < |st.full[c]| ==> st.slabs[st.full[c][i]].inuse == cfg[c].num
    ensures forall k :: k in st.slabs && st.slabs[k].cache == c ==> k in st.full[c] || k in st.notfull[c]
    ensures forall k :: k in st.full[c] ==> k !in st.notfull[c]
  {
    hide NoDup, KeysOk, PagesOk, CfgsOk, Inv, Listed, SlabOk;
    CacheSlab(cfg, st, c, 0);
    forall k: nat
      ensures k in st.full[c] ==> k in st.slabs && st.slabs[k].cache == c && st.slabs[k].inuse == cfg[c].num && k !in st.notfull[c]
      ensures k in st.notfull[c] ==> k in st.slabs && st.slabs[k].cache == c
      ensures k in st.slabs && st.slabs[k].cache == c ==> k in st.full[c] || k in st.notfull[c]
      ensures |st.full| == |st.notfull| == |cfg| && NoDup(st.full[c]) && NoDup(st.notfull[c])
    {
      CacheSlab(cfg, st, c, k);
    }
    assert forall i :: 0 <= i < |st.full[c]| ==> st.full[c][i] in st.full[c];
    assert forall i :: 0 <= i < |st.notfull[c]| ==> st.notfull[c][i] in st.notfull[c];
  }

  lemma {:induction false} InUseFull(st: State, l: seq<nat>, n: nat)
    requires forall i :: 0 <= i < |l| ==> l[i] in st.slabs && st.slabs[l[i]].inuse == n
    ensures InUse(st, l) == |l| * n
  {
    if l != [] {
      InUseFull(st, l[1..], n);
      assert (|l| - 1) * n + n == |l| * n;
    }
  }

  lemma {:induction false} InUseConcat(st: State, l: seq<nat>, r: seq<nat>)
    requires forall i :: 0 <= i < |l| ==> l[i] in st.slabs
    requires forall i :: 0 <= i < |r| ==> r[i] in st.slabs
    ensures InUse(st, l + r) == InUse(st, l) + InUse(st, r)
  {
    if l == [] {
      assert l + r == r;
    } else {
      InUseConcat(st, l[1..], r);
      assert (l + r)[1..] == l[1..] + r;
    }
  }

  lemma InUseNext(st: State, l: seq<nat>, j: nat)
    requires j < |l| && forall i :: 0 <= i < |l| ==> l[i] in st.slabs
    ensures InUse(st, l[..j + 1]) == InUse(st, l[..j]) + st.slabs[l[j]].inuse
  {
    InUseConcat(st, l[..j], [l[j]]);
    assert l[..j + 1] == l[..j] + [l[j]];
    assert InUse(st, [l[j]]) == st.slabs[l[j]].inuse;
  }

  lemma InUseNone(st: State, l: seq<nat>)
    ensures l[..0] == [] && InUse(st, []) == 0
  {
  }

  lemma Add(a: nat, b: nat, s: nat)
    ensures (a + b) * s == a * s + b * s
  {
  }

  /** Full slabs count whole, the others by their counters: together the cache's allocated objects. */
  lemma CacheBytes(cfg: seq<Cfg>, st: State, c: nat)
    requires Inv(cfg, st) && c < |cfg| && |st.full| == |st.notfull| == |cfg|
    requires forall i :: 0 <= i < |st.notfull[c]| ==> st.notfull[c][i] in st.slabs
    ensures |LiveOf(cfg, st, c)| * cfg[c].objsize ==
      |st.full[c]| * (cfg[c].num * cfg[c].objsize) + InUse(st, st.notfull[c]) * cfg[c].objsize
  {
    hide Inv, NoDup, LiveOf, Pairs, InUse;
    CacheSlabs(cfg, st, c);
    var f, n := st.full[c], st.notfull[c];
    NoDupConcat(f, n);
    ListedPairs(cfg, st, c);
    PairsSize(cfg, st, f + n);
    InUseConcat(st, f, n);
    InUseFull(st, f, cfg[c].num);
    Distribute(|f|, cfg[c].num, cfg[c].objsize, InUse(st, n));
  }

  lemma ListedPairs(cfg: seq<Cfg>, st: State, c: nat)
    requires Inv(cfg, st) && c < |cfg| && |st.full| == |st.notfull| == |cfg|
    ensures var l := st.full[c] + st.notfull[c];
      && (forall i :: 0 <= i < |l| ==> l[i] in st.slabs && st.slabs[l[i]].cache < |cfg|)
      && Pairs(cfg, st, l) == LiveOf(cfg, st, c)
  {
    hide Inv, NoDup, LiveObj, LiveOf, Pairs;
    CacheSlabs(cfg, st, c);
    var l := st.full[c] + st.notfull[c];
    forall p: (nat, nat)
      ensures p in Pairs(cfg, st, l) <==> p in LiveOf(cfg, st, c)
    {
      PairsIn(cfg, st, l, p);
      LiveOfIs(cfg, st, c, p);
      assert p.0 in l <==> p.0 in st.full[c] || p.0 in st.notfull[c];
      InListIs(cfg, st, c, p.0);
    }
  }

  lemma InListIs(cfg: seq<Cfg>, st: State, c: nat, k: nat)
    requires Inv(cfg, st) && c < |cfg| && |st.full| == |st.notfull| == |cfg|
    ensures k in st.full[c] || k in st.notfull[c] <==> k in st.slabs && st.slabs[k].cache == c
  {
    hide Inv, NoDup;
    CacheSlab(cfg, st, c, k);
  }

  lemma LiveOfIs(cfg: seq<Cfg>, st: State, c: nat, p: (nat, nat))
    requires Inv(cfg, st) && c < |cfg|
    ensures p in LiveOf(cfg, st, c) <==> p.0 in st.slabs && st.slabs[p.0].cache == c && LiveObj(cfg, st, p.0, p.1)
  {
    hide Inv;
  }

  lemma NoDupConcat(f: seq<nat>, n: seq<nat>)
    requires NoDup(f) && NoDup(n) && forall k :: k in f ==> k !in n
    ensures NoDup(f + n)
  {
    var l := f + n;
    forall i, j | 0 <= i < j < |l|
      ensures l[i] != l[j]
    {
      if i < |f| <= j {
        assert l[i] in f && l[j] in n;
      }
    }
  }

  lemma Distribute(a: nat, n: nat, s: nat, b: nat)
    ensures (a * n + b) * s == a * (n * s) + b * s
  {
  }

  class SlabAllocator {
    const cfg: seq<Cfg>
    var slabs: map<nat, SlabCore.Slab>
    var pages: map<nat, nat>
    var full: seq<seq<nat>>
    var notfull: seq<seq<nat>>
    var taken: set<nat>
    ghost var chains: map<nat, seq<nat>>

    ghost function St(): State
      reads this
    {
      State(slabs, pages, full, notfull, chains, taken)
    }

    /** Sound, with no empty slab kept. */
    ghost predicate Sound()
      reads this
    {
      Inv(cfg, St()) && Busy(cfg, St(), {})
    }

    /** Pages in hand but not part of a slab yet. */
    ghost function Loose(): set<nat>
      reads this
    {
      taken - pages.Keys
    }

    ghost predicate Valid()
      reads this
    {
      Sound() && taken == pages.Keys
    }

    constructor ()
      ensures Valid() && taken == {} && forall a :: !User(cfg, St(), a)
    {
      var c := SlabInit();
      cfg := c;
      slabs, pages, chains, taken := map[], map[], map[], {};
      full, notfull := seq(|c|, i => []), seq(|c|, i => []);
      new;
      EmptyInv(cfg, St());
    }

    /** The page allocator: a run of pages not in hand yet, or none. */
    method AllocPages(n: nat) returns (ok: bool, base: nat)
      modifies this`taken
      ensures !ok ==> taken == old(taken)
      ensures ok ==> taken == old(taken) + PageRun(base, n) && PageRun(base, n) !! old(taken)
    {
      base := *;
      var run := PageRun(base, n);
      ok := run !! taken;
      if ok {
        taken := taken + run;
      }
    }

    method FreePages(base: nat, n: nat)
      modifies this`taken
      ensures taken == old(taken) - PageRun(base, n)
    {
      taken := taken - PageRun(base, n);
    }

    /** Takes the first free object of a slab; a slab that becomes full changes lists. */
    method AllocOne(c: nat, k: nat) returns (a: nat)
      requires Inv(cfg, St()) && c < |cfg| && notfull[c] != [] && k == notfull[c][0]
      modifies this`slabs, this`full, this`notfull, this`chains
      ensures Taken(old(St()), k, St()) && k in old(slabs) && c == old(slabs[k]).cache
      ensures a == Addr(cfg, old(slabs[k]), old(slabs[k]).free)
      ensures forall d :: 0 <= d < |cfg| && d != c ==> notfull[d] == old(notfull)[d]
    {
      hide Inv, SlabsOk, NoDup, ChainOk, Without;
      ListHead(cfg, St(), c);
      var s := slabs[k];
      ghost var ch := chains[k];
      ChainTake(cfg[c].num, s.free, s.bufctl, ch);
      ChainSize(cfg[c].num, s.free, s.bufctl, ch);
      var r := s.(inuse := s.inuse + 1);
      a := SMem(cfg, s) + s.free * cfg[c].objsize;
      r := r.(free := s.bufctl[s.free]);
      slabs := slabs[k := r];
      chains := chains[k := ch[1..]];
      if r.free == BUFCTL_END {
        notfull := notfull[c := Without(notfull[c], k)];
        full := full[c := [k] + full[c]];
      }
    }

    /** The bufctl array of a new slab, filled in order and ended. */
    method InitBufctl(num: nat) returns (b: seq<nat>)
      requires num > 0
      ensures b == Linked(num)
    {
      b := [];
      var i := 0;
      while i < num
        invariant i == |b| <= num && forall j :: 0 <= j < i ==> b[j] == j + 1
      {
        b := b + [i + 1];
        i := i + 1;
      }
      b := b[num - 1 := BUFCTL_END];
    }

    /** An object of the cache, from a new slab when no slab has a free one. */
    method Alloc(c: nat) returns (ok: bool, a: nat)
      requires Sound() && c < |cfg|
      modifies this`slabs, this`pages, this`full, this`notfull, this`taken, this`chains
      ensures Sound() && Loose() == old(Loose())
      ensures ok ==> LiveIn(cfg, St(), a, c) && UsersPlus(cfg, old(St()), St(), a)
      ensures !ok ==> UsersSame(cfg, old(St()), St())
      ensures |notfull| == |cfg| == |old(notfull)| && (!cfg[c].off ==> OthersKept(old(notfull), notfull, c))
      decreases if cfg[c].off then 1 else 0, 1
    {
      hide Inv, LiveIn, UsersPlus, UsersSame, OthersKept, Busy;
      ghost var st0 := St();
      ListHead(cfg, st0, c);
      KeptSelf(notfull, c);
      UsersSelf(cfg, st0);
      ok, a := true, 0;
      ghost var x: set<nat> := {};
      if notfull[c] == [] {
        var key;
        ok, key := Grow(c);
        if !ok {
          return;
        }
        x := {key};
        ListHead(cfg, St(), c);
      }
      a := TakeHead(c, x, st0);
    }

    method TakeHead(c: nat, ghost x: set<nat>, ghost st0: State) returns (a: nat)
      requires Inv(cfg, St()) && c < |cfg| == |notfull| == |st0.notfull| && notfull[c] != [] && x <= {notfull[c][0]}
      requires Busy(cfg, St(), x) && UsersSame(cfg, st0, St())
      modifies this`slabs, this`full, this`notfull, this`chains
      ensures Sound() && LiveIn(cfg, St(), a, c) && UsersPlus(cfg, st0, St(), a) && |notfull| == |cfg|
      ensures OthersKept(st0.notfull, old(notfull), c) ==> OthersKept(st0.notfull, notfull, c)
    {
      hide Inv, LiveIn, UsersPlus, UsersSame, Addr, Taken, Busy;
      ghost var st := St();
      var k := notfull[c][0];
      a := AllocOne(c, k);
      TakenInv(cfg, st, k, St());
      TakenBusy(cfg, st, k, St(), x);
      TakenUser(cfg, st, k, St());
      UsersTrans(cfg, st0, st, St(), a);
      ListHead(cfg, St(), c);
    }

    /** Marks the pages of a run with their slab. */
    method MarkPages(base: nat, n: nat, key: nat)
      modifies this`pages
      ensures pages == Marked(old(pages), base, n, key)
    {
      var i := 0;
      while i < n
        invariant 0 <= i <= n && pages == Marked(old(pages), base, i, key)
      {
        pages := pages[base + i := key];
        i := i + 1;
      }
    }

    /** A new slab at the head of the cache's not-full list, if pages and a control area can be had. */
    method Grow(c: nat) returns (ok: bool, key: nat)
      requires Sound() && c < |cfg| == |notfull| && notfull[c] == []
      modifies this`slabs, this`pages, this`full, this`notfull, this`taken, this`chains
      ensures Inv(cfg, St()) && Loose() == old(Loose()) && |notfull| == |cfg| == |old(notfull)|
      ensures Busy(cfg, St(), if ok then {key} else {}) && (ok ==> notfull[c] == [key])
      ensures UsersSame(cfg, old(St()), St())
      ensures !cfg[c].off ==> OthersKept(old(notfull), notfull, c)
      decreases if cfg[c].off then 1 else 0, 0
    {
      hide Inv, LiveIn, UsersPlus, UsersSame, OthersKept, Busy;
      ghost var st0 := St();
      UsersSelf(cfg, st0);
      KeptSelf(notfull, c);
      ConfigAt(cfg, st0, c);
      var n := Pow2(cfg[c].order);
      var base;
      ok, base := AllocPages(n);
      key := 0;
      if !ok {
        return;
      }
      PagesTaken(cfg, st0);
      TakenPages(cfg, st0, taken);
      BusyTaken(cfg, st0, taken);
      ghost var st1 := St();
      if cfg[c].off {
        ok, key := Alloc(cfg[c].ctl);
        if !ok {
          ghost var st2 := St();
          PagesTaken(cfg, st2);
          LooseBack(st0.pages.Keys, st0.taken, PageRun(base, n), st2.pages.Keys, st2.taken);
          FreePages(base, n);
          GaveUp(cfg, st0, st1, st2, taken);
          return;
        }
        KeptAt(st1.notfull, notfull, cfg[c].ctl, c);
      } else {
        key := base * PGSIZE;
        KeptSet(st0.notfull, notfull, c, [key]);
      }
      PagesTaken(cfg, St());
      LooseBack(st0.pages.Keys, st0.taken, PageRun(base, n), pages.Keys, taken);
      SetUp(c, base, key, st0, st1);
    }

    /** Sets up a slab on pages in hand, with its control area at `key`. */
    method SetUp(c: nat, base: nat, key: nat, ghost st0: State, ghost st1: State)
      requires Sound() && c < |cfg| == |notfull| && notfull[c] == [] && PageRun(base, Pow2(cfg[c].order)) <= Loose()
      requires UsersSame(cfg, st0, st1) && st1.notfull == st0.notfull
      requires if cfg[c].off then LiveIn(cfg, St(), key, cfg[c].ctl) && UsersPlus(cfg, st1, St(), key)
        else key == base * PGSIZE && St() == st1
      modifies this`slabs, this`pages, this`notfull, this`chains
      ensures Inv(cfg, St()) && Busy(cfg, St(), {key}) && notfull == old(notfull)[c := [key]]
      ensures Loose() == old(Loose()) - PageRun(base, Pow2(cfg[c].order)) && UsersSame(cfg, st0, St())
    {
      hide Inv, LiveIn, UsersPlus, UsersSame, Marked, Linked, Count, UsersMinus;
      ghost var st := St();
      ConfigAt(cfg, st, c);
      var n := Pow2(cfg[c].order);
      RoomHere(cfg, st, c, base, n, key, st1);
      MarkPages(base, n, key);
      var bufctl := InitBufctl(cfg[c].num);
      slabs := slabs[key := SlabCore.Slab(c, base, 0, 0, bufctl)];
      chains := chains[key := Count(cfg[c].num)];
      assert [key] + notfull[c] == [key];
      notfull := notfull[c := [key] + notfull[c]];
      GrownInv(cfg, st, c, base, key, St());
      MarkedKeys(st.pages, base, n, key);
      assert Loose() == (st.taken - st.pages.Keys) - PageRun(base, n);
      UsersTrans(cfg, st1, st, St(), key);
      assert UsersSame(cfg, st1, St());
      UsersTrans(cfg, st0, st1, St(), key);
    }

    /** Gives an object back; its slab changes lists when it was full, and is given up with its last object. */
    method Free(a: nat)
      requires Sound() && User(cfg, St(), a)
      requires a / PGSIZE in pages && pages[a / PGSIZE] in slabs && slabs[pages[a / PGSIZE]].cache < |cfg|
      modifies this`slabs, this`pages, this`full, this`notfull, this`taken, this`chains
      ensures Sound() && Loose() == old(Loose()) && UsersMinus(cfg, old(St()), St(), a)
      decreases if cfg[slabs[pages[a / PGSIZE]].cache].off then 1 else 0
    {
      hide Inv, User, LiveIn, LiveObj, Addr, Without, NoDup, UsersMinus;
      ghost var st := St();
      ghost var kk, xx := UserObject(cfg, st, a);
      var k := pages[a / PGSIZE];
      var s := slabs[k];
      var c := s.cache;
      ListHead(cfg, st, c);
      var x := (a - SMem(cfg, s)) / cfg[c].objsize;
      var inuse := s.inuse - 1;
      if inuse == 0 {
        SlabDestroy(k, x);
        return;
      }
      slabs := slabs[k := s.(bufctl := s.bufctl[x := s.free], free := x, inuse := inuse)];
      chains := chains[k := [x] + chains[k]];
      if inuse == cfg[c].num - 1 {
        full := full[c := Without(full[c], k)];
        notfull := notfull[c := [k] + notfull[c]];
      }
      GivenInv(cfg, st, k, x, St());
      GivenUser(cfg, st, k, x, St());
    }

    /** The last object of a slab came back: off its list, its pages returned, and its control area freed if it is an object. */
    method SlabDestroy(k: nat, x: nat)
      requires Sound() && LiveObj(cfg, St(), k, x) && k in slabs && slabs[k].inuse == 1 && slabs[k].cache < |cfg|
      requires User(cfg, St(), Addr(cfg, slabs[k], x)) && |full| == |notfull| == |cfg| && k in chains
      modifies this`slabs, this`pages, this`full, this`notfull, this`taken, this`chains
      ensures Sound() && Loose() == old(Loose())
      ensures UsersMinus(cfg, old(St()), St(), old(Addr(cfg, slabs[k], x)))
      decreases if cfg[slabs[k].cache].off then 1 else 0, 0
    {
      hide Inv, LiveIn, LiveObj, Addr, Without, NoDup, Unmarked, UsersMinus, UsersSwap;
      ghost var st := St();
      var s := slabs[k];
      var c := s.cache;
      var n := Pow2(cfg[c].order);
      full := full[c := Without(full[c], k)];
      notfull := notfull[c := Without(notfull[c], k)];
      pages := Unmarked(pages, s.base, n);
      FreePages(s.base, n);
      slabs := slabs - {k};
      chains := chains - {k};
      ghost var u := St();
      DroppedInv(cfg, st, k, x, u);
      RunLoose(cfg, st, k);
      if cfg[c].off {
        ControlHome(cfg, st, k, u, Addr(cfg, s, x));
        Free(k);
        UsersSwapped(cfg, st, u, St(), Addr(cfg, s, x), k);
      }
    }

    // ---------- the interface ----------

    /** Some object of a cache large enough, apart from everything in use; a panic only beyond the largest size. */
    method KMalloc(size: nat) returns (r: Result)
      requires Valid() && size > 0
      modifies this`slabs, this`pages, this`full, this`notfull, this`taken, this`chains
      ensures Valid() && (r.Panic? <==> size > Pow2(MAX_SIZE_ORDER))
      ensures r.Object? ==> UsersPlus(cfg, old(St()), St(), r.addr)
      ensures r.Object? ==> exists c :: 0 <= c < |cfg| && LiveIn(cfg, St(), r.addr, c) && size <= cfg[c].objsize
      ensures !r.Object? ==> UsersSame(cfg, old(St()), St())
    {
      hide Inv, LiveIn, UsersPlus, UsersSame, Pow2, OthersKept, Busy;
      UsersSelf(cfg, St());
      ghost var st := St();
      var order := GetOrder(size);
      if order.None? {
        return Panic;
      }
      var c := order.value - MIN_SIZE_ORDER;
      InvKeys(cfg, st);
      NumPositive(cfg, c);
      PagesTaken(cfg, st);
      assert Loose() == {};
      var ok, a := Alloc(c);
      PagesTaken(cfg, St());
      assert Loose() == {};
      assert taken == Loose() + pages.Keys;
      r := if ok then Object(a) else Null;
    }

    /** Frees a user's object, and nothing else. */
    method KFree(a: nat)
      requires Valid() && User(cfg, St(), a)
      modifies this`slabs, this`pages, this`full, this`notfull, this`taken, this`chains
      ensures Valid() && UsersMinus(cfg, old(St()), St(), a)
    {
      hide Inv, User, LiveIn, UsersMinus, Busy;
      ghost var k, x := UserObject(cfg, St(), a);
      PagesTaken(cfg, St());
      assert Loose() == {};
      Free(a);
      PagesTaken(cfg, St());
      assert Loose() == {};
      assert taken == Loose() + pages.Keys;
    }

    /** Every full slab counts with all its objects. */
    method SumFull(i: nat) returns (total: nat)
      requires i < |cfg| && i < |full|
      ensures total == |full[i]| * (cfg[i].num * cfg[i].objsize)
    {
      total := 0;
      var j, size := 0, cfg[i].num * cfg[i].objsize;
      while j < |full[i]|
        invariant j <= |full[i]| && total == j * size
      {
        total := total + size;
        j := j + 1;
      }
    }

    /** Every other slab counts with its objects in use. */
    method SumNotFull(i: nat) returns (total: nat)
      requires i < |cfg| && i < |notfull| && forall j :: 0 <= j < |notfull[i]| ==> notfull[i][j] in slabs
      ensures total == InUse(St(), notfull[i]) * cfg[i].objsize
    {
      hide InUse;
      total := 0;
      var j := 0;
      InUseNone(St(), notfull[i]);
      while j < |notfull[i]|
        invariant j <= |notfull[i]| && total == InUse(St(), notfull[i][..j]) * cfg[i].objsize
      {
        InUseNext(St(), notfull[i], j);
        Add(InUse(St(), notfull[i][..j]), slabs[notfull[i][j]].inuse, cfg[i].objsize);
        total := total + slabs[notfull[i][j]].inuse * cfg[i].objsize;
        j := j + 1;
      }
      assert notfull[i][..j] == notfull[i];
    }

    /** The total equals the sizes of all allocated objects. */
    method SlabAllocated() returns (total: nat)
      requires Valid()
      ensures total == LiveBytes(cfg, St(), |cfg|)
    {
      hide Inv, Busy, LiveOf, InUse, NoDup;
      total := 0;
      var i := 0;
      while i < |cfg|
        invariant i <= |cfg| && total == LiveBytes(cfg, St(), i)
      {
        CacheSlabs(cfg, St(), i);
        var f := SumFull(i);
        var n := SumNotFull(i);
        CacheBytes(cfg, St(), i);
        total := total + f + n;
        i := i + 1;
      }
    }
  }
}
