/**
 The state of the slab allocator as a value: slabs named by the address of their control
 area, the pages they own, the full and not-full lists, and the chain of free objects in
 each slab; with the invariant and what every transition does to it.
 */
module SlabCore {
  import opened Lists
  import opened Powers
  import opened SlabLayout

  /** A control area; `cache` and `base` name the cache and the first page of the slab. */
  datatype Slab = Slab(cache: nat, base: nat, inuse: nat, free: nat, bufctl: seq<nat>)

  /** `taken` holds the pages obtained from the page allocator, `pages` those marked as slab pages. */
  datatype State = State(slabs: map<nat, Slab>, pages: map<nat, nat>, full: seq<seq<nat>>, notfull: seq<seq<nat>>,
                         chains: map<nat, seq<nat>>, taken: set<nat>)

  // ---------- one slab ----------

  /** The link of a chain's element `j`. */
  function After(c: seq<nat>, j: nat): nat
  {
    if j + 1 < |c| then c[j + 1] else BUFCTL_END
  }

  /** The free objects in the order the bufctl array links them. */
  ghost predicate ChainOk(num: nat, free: nat, bufctl: seq<nat>, c: seq<nat>)
  {
    && |bufctl| == num < BUFCTL_END && NoDup(c)
    && (forall j :: 0 <= j < |c| ==> c[j] < num)
    && (forall j :: 0 <= j < |c| ==> bufctl[c[j]] == After(c, j))
    && free == if c == [] then BUFCTL_END else c[0]
  }

  ghost predicate SlabOk(cfg: seq<Cfg>, s: Slab, c: seq<nat>)
  {
    s.cache < |cfg| && ChainOk(cfg[s.cache].num, s.free, s.bufctl, c) && s.inuse + |c| == cfg[s.cache].num
  }

  lemma ChainTake(num: nat, free: nat, bufctl: seq<nat>, c: seq<nat>)
    requires ChainOk(num, free, bufctl, c) && c != []
    ensures free == c[0] < num && ChainOk(num, bufctl[free], bufctl, c[1..]) && c[0] !in c[1..]
    ensures bufctl[free] == BUFCTL_END <==> c[1..] == []
  {
    var d := c[1..];
    assert forall j :: 0 <= j < |d| ==> d[j] == c[j + 1];
    assert bufctl[c[0]] == After(c, 0);
    forall j | 0 <= j < |d|
      ensures bufctl[d[j]] == After(d, j)
    {
      assert bufctl[c[j + 1]] == After(c, j + 1);
    }
  }

  lemma ChainGive(num: nat, free: nat, bufctl: seq<nat>, c: seq<nat>, i: nat)
    requires ChainOk(num, free, bufctl, c) && i < num && i !in c
    ensures ChainOk(num, i, bufctl[i := free], [i] + c)
  {
    hide NoDup;
    var d, b := [i] + c, bufctl[i := free];
    NoDupPush(c, i);
    forall j | 0 <= j < |d|
      ensures d[j] < num && b[d[j]] == After(d, j)
    {
      if j > 0 {
        assert d[j] == c[j - 1] && c[j - 1] in c;
        assert bufctl[c[j - 1]] == After(c, j - 1);
      }
    }
  }

  /** All numbers below `num`, in order. */
  function Count(num: nat): (c: seq<nat>)
    ensures |c| == num && forall j :: 0 <= j < num ==> c[j] == j
  {
    seq(num, i => i)
  }

  /** The bufctl array of a new slab links every object in order. */
  function Linked(num: nat): (b: seq<nat>)
    ensures |b| == num && forall j :: 0 <= j < num ==> b[j] == if j + 1 < num then j + 1 else BUFCTL_END
  {
    seq(num, i => if i + 1 < num then i + 1 else BUFCTL_END)
  }

  lemma ChainNew(num: nat)
    requires 0 < num < BUFCTL_END
    ensures ChainOk(num, 0, Linked(num), Count(num))
  {
  }

  // ---------- addresses ----------

  function SMem(cfg: seq<Cfg>, s: Slab): nat
    requires s.cache < |cfg|
  {
    s.base * PGSIZE + cfg[s.cache].offset
  }

  function Addr(cfg: seq<Cfg>, s: Slab, i: nat): nat
    requires s.cache < |cfg|
  {
    SMem(cfg, s) + i * cfg[s.cache].objsize
  }

  ghost predicate InRun(cfg: seq<Cfg>, s: Slab, p: nat)
  {
    s.cache < |cfg| && s.base <= p < s.base + Pow2(cfg[s.cache].order)
  }

  /** An object lies within its slab, past the control area. */
  lemma ObjectWithin(cfg: seq<Cfg>, s: Slab, i: nat)
    requires CfgsOk(cfg) && s.cache < |cfg| && i < cfg[s.cache].num
    ensures var c := cfg[s.cache]; var a := Addr(cfg, s, i);
      s.base * PGSIZE + c.offset <= a && a + c.objsize <= (s.base + Pow2(c.order)) * PGSIZE
    ensures InRun(cfg, s, Addr(cfg, s, i) / PGSIZE)
  {
    hide Pow2, Mgmt;
    var c := cfg[s.cache];
    assert LayoutOk(c);
    MulLe(i + 1, c.num, c.objsize);
    assert (i + 1) * c.objsize == i * c.objsize + c.objsize;
    assert (s.base + Pow2(c.order)) * PGSIZE == s.base * PGSIZE + SlabSize(c.order);
  }

  /** Two objects of one slab do not overlap. */
  lemma ObjectsApartWithin(cfg: seq<Cfg>, s: Slab, i: nat, j: nat)
    requires CfgsOk(cfg) && s.cache < |cfg| && i < j
    ensures Addr(cfg, s, i) + cfg[s.cache].objsize <= Addr(cfg, s, j)
  {
    MulLe(i + 1, j, cfg[s.cache].objsize);
    assert (i + 1) * cfg[s.cache].objsize == i * cfg[s.cache].objsize + cfg[s.cache].objsize;
  }

  /** The object number computed from an address. */
  lemma ObjectNumber(cfg: seq<Cfg>, s: Slab, i: nat)
    requires CfgsOk(cfg) && s.cache < |cfg|
    ensures cfg[s.cache].objsize > 0 && SMem(cfg, s) <= Addr(cfg, s, i)
    ensures (Addr(cfg, s, i) - SMem(cfg, s)) / cfg[s.cache].objsize == i
  {
    assert LayoutOk(cfg[s.cache]);
    DivExact(i, cfg[s.cache].objsize);
  }

  lemma DivExact(i: nat, d: nat)
    requires d > 0
    ensures i * d / d == i
  {
    var q := i * d / d;
    assert i * d == q * d + i * d % d;
    if q < i {
      MulLe(q + 1, i, d);
    } else if i < q {
      MulLe(i + 1, q, d);
    }
  }

  // ---------- the invariant ----------

  ghost predicate SlabsOk(cfg: seq<Cfg>, st: State)
  {
    st.chains.Keys == st.slabs.Keys && forall k :: k in st.slabs ==> SlabOk(cfg, st.slabs[k], st.chains[k])
  }

  /** A page is marked exactly when it belongs to a slab, and then with that slab. */
  ghost predicate PagesOk(cfg: seq<Cfg>, st: State)
  {
    && (forall p :: p in st.pages ==> st.pages[p] in st.slabs && InRun(cfg, st.slabs[st.pages[p]], p) && p in st.taken)
    && (forall k: nat, p: nat :: k in st.slabs && InRun(cfg, st.slabs[k], p) ==> p in st.pages && st.pages[p] == k)
  }

  /** A slab is listed once: as full when it has no free object, otherwise as not full. */
  ghost predicate ListsOk(cfg: seq<Cfg>, st: State)
  {
    && |st.full| == |st.notfull| == |cfg|
    && (forall c :: 0 <= c < |cfg| ==> NoDup(st.full[c]) && NoDup(st.notfull[c]))
    && (forall c, k :: 0 <= c < |cfg| ==> (k in st.full[c] <==> Listed(st, k, c) && st.chains[k] == []))
    && (forall c, k :: 0 <= c < |cfg| ==> (k in st.notfull[c] <==> Listed(st, k, c) && st.chains[k] != []))
  }

  ghost predicate Listed(st: State, k: nat, c: nat)
  {
    k in st.slabs && k in st.chains && st.slabs[k].cache == c
  }

  /** Object `i` of slab `t` is allocated. */
  ghost predicate LiveObj(cfg: seq<Cfg>, st: State, t: nat, i: nat)
  {
    t in st.slabs && t in st.chains && st.slabs[t].cache < |cfg| && i < cfg[st.slabs[t].cache].num && i !in st.chains[t]
  }

  /** Address `a` is an allocated object of cache `c`. */
  ghost predicate LiveIn(cfg: seq<Cfg>, st: State, a: nat, c: nat)
  {
    exists t, i :: LiveObj(cfg, st, t, i) && st.slabs[t].cache == c && a == Addr(cfg, st.slabs[t], i)
  }

  ghost predicate OffSlab(cfg: seq<Cfg>, st: State, k: nat)
  {
    k in st.slabs && st.slabs[k].cache < |cfg| && cfg[st.slabs[k].cache].off
  }

  /** A control area stands at the start of its slab, or is an allocated object of its control cache. */
  ghost predicate KeysOk(cfg: seq<Cfg>, st: State)
  {
    forall k :: k in st.slabs ==>
      st.slabs[k].cache < |cfg| &&
      if OffSlab(cfg, st, k) then LiveIn(cfg, st, k, cfg[st.slabs[k].cache].ctl) else k == st.slabs[k].base * PGSIZE
  }

  ghost predicate Inv(cfg: seq<Cfg>, st: State)
  {
    CfgsOk(cfg) && SlabsOk(cfg, st) && PagesOk(cfg, st) && ListsOk(cfg, st) && KeysOk(cfg, st)
  }

  /** Allocated, and not the control area of a slab: what users hold. */
  ghost predicate User(cfg: seq<Cfg>, st: State, a: nat)
  {
    (exists c :: LiveIn(cfg, st, a, c)) && !OffSlab(cfg, st, a)
  }

  /** The users hold the same objects, one more, one less, or one instead of another. */
  ghost predicate UsersSame(cfg: seq<Cfg>, st: State, u: State)
  {
    forall b :: User(cfg, u, b) <==> User(cfg, st, b)
  }

  ghost predicate UsersPlus(cfg: seq<Cfg>, st: State, u: State, a: nat)
  {
    !User(cfg, st, a) && forall b :: User(cfg, u, b) <==> User(cfg, st, b) || b == a
  }

  ghost predicate UsersMinus(cfg: seq<Cfg>, st: State, u: State, a: nat)
  {
    forall b :: User(cfg, u, b) <==> User(cfg, st, b) && b != a
  }

  ghost predicate UsersSwap(cfg: seq<Cfg>, st: State, u: State, a: nat, c: nat)
  {
    forall b :: User(cfg, u, b) <==> (User(cfg, st, b) && b != a) || b == c
  }

  /** How these follow each other. */
  lemma UsersTrans(cfg: seq<Cfg>, st: State, u: State, v: State, a: nat)
    ensures UsersSame(cfg, st, u) && UsersSame(cfg, u, v) ==> UsersSame(cfg, st, v)
    ensures UsersSame(cfg, st, u) && UsersPlus(cfg, u, v, a) ==> UsersPlus(cfg, st, v, a)
    ensures UsersPlus(cfg, st, u, a) && UsersMinus(cfg, u, v, a) ==> UsersSame(cfg, st, v)
    ensures UsersPlus(cfg, st, u, a) && UsersSame(cfg, u, v) ==> UsersPlus(cfg, st, v, a)
  {
    hide User;
  }

  lemma UsersSwapped(cfg: seq<Cfg>, st: State, u: State, v: State, a: nat, c: nat)
    requires UsersSwap(cfg, st, u, a, c) && UsersMinus(cfg, u, v, c) && !User(cfg, st, c)
    ensures UsersMinus(cfg, st, v, a)
  {
    hide User;
  }

  /** Every slab outside `x` has an allocated object. */
  ghost predicate Busy(cfg: seq<Cfg>, st: State, x: set<nat>)
  {
    forall k :: k in st.slabs && k !in x ==> st.slabs[k].inuse > 0
  }

  /** An object's page leads back to its slab. */
  lemma PageOf(cfg: seq<Cfg>, st: State, t: nat, i: nat)
    requires Inv(cfg, st) && LiveObj(cfg, st, t, i)
    ensures var p := Addr(cfg, st.slabs[t], i) / PGSIZE; p in st.pages && st.pages[p] == t
  {
    hide Addr, CfgsOk, KeysOk, ListsOk, SlabsOk;
    ObjectWithin(cfg, st.slabs[t], i);
  }

  lemma AddrUnique(cfg: seq<Cfg>, st: State, t: nat, i: nat, u: nat, j: nat)
    requires Inv(cfg, st) && LiveObj(cfg, st, t, i) && LiveObj(cfg, st, u, j)
    requires Addr(cfg, st.slabs[t], i) == Addr(cfg, st.slabs[u], j)
    ensures t == u && i == j
  {
    hide Inv, LiveObj, Addr;
    PageOf(cfg, st, t, i);
    PageOf(cfg, st, u, j);
    InvCfg(cfg, st, t, i);
    ObjectNumber(cfg, st.slabs[t], i);
    ObjectNumber(cfg, st.slabs[t], j);
  }

  lemma InvCfg(cfg: seq<Cfg>, st: State, t: nat, i: nat)
    requires Inv(cfg, st) && LiveObj(cfg, st, t, i)
    ensures CfgsOk(cfg) && t in st.slabs && st.slabs[t].cache < |cfg| && i < cfg[st.slabs[t].cache].num
  {
  }

  lemma OneRun(cfg: seq<Cfg>, st: State, t: nat, u: nat, p: nat)
    requires PagesOk(cfg, st) && t in st.slabs && u in st.slabs
    requires InRun(cfg, st.slabs[t], p) && InRun(cfg, st.slabs[u], p)
    ensures t == u
  {
    assert p in st.pages && st.pages[p] == t;
  }

  /** Runs of different slabs share no address. */
  lemma RunsApart(cfg: seq<Cfg>, st: State, t: nat, u: nat)
    requires Inv(cfg, st) && t in st.slabs && u in st.slabs && t != u
    ensures st.slabs[t].cache < |cfg| && st.slabs[u].cache < |cfg|
    ensures var s, r := st.slabs[t], st.slabs[u];
      s.base + Pow2(cfg[s.cache].order) <= r.base || r.base + Pow2(cfg[r.cache].order) <= s.base
  {
    hide KeysOk, ListsOk, CfgsOk, Pow2, PagesOk;
    var s, r := st.slabs[t], st.slabs[u];
    assert SlabOk(cfg, s, st.chains[t]) && SlabOk(cfg, r, st.chains[u]);
    var p := if s.base <= r.base then r.base else s.base;
    if InRun(cfg, s, p) && InRun(cfg, r, p) {
      OneRun(cfg, st, t, u, p);
    }
  }

  /** Allocated objects never overlap, lie within their slab's pages, and never reach a control area kept on a slab. */
  lemma ObjectsApart(cfg: seq<Cfg>, st: State, t: nat, i: nat, u: nat, j: nat)
    requires Inv(cfg, st) && LiveObj(cfg, st, t, i) && LiveObj(cfg, st, u, j) && (t != u || i != j)
    ensures var s, r := st.slabs[t], st.slabs[u];
      || Addr(cfg, s, i) + cfg[s.cache].objsize <= Addr(cfg, r, j)
      || Addr(cfg, r, j) + cfg[r.cache].objsize <= Addr(cfg, s, i)
  {
    hide Inv, Addr;
    InvCfg(cfg, st, t, i);
    InvCfg(cfg, st, u, j);
    var s, r := st.slabs[t], st.slabs[u];
    if t == u {
      if i < j {
        ObjectsApartWithin(cfg, s, i, j);
      } else {
        ObjectsApartWithin(cfg, s, j, i);
      }
    } else {
      RunsApart(cfg, st, t, u);
      ObjectWithin(cfg, s, i);
      ObjectWithin(cfg, r, j);
    }
  }

  lemma ControlApart(cfg: seq<Cfg>, st: State, k: nat, t: nat, i: nat)
    requires Inv(cfg, st) && k in st.slabs && !OffSlab(cfg, st, k) && LiveObj(cfg, st, t, i)
    ensures st.slabs[k].cache < |cfg|
    ensures var m, s := Mgmt(cfg[st.slabs[k].cache].num), st.slabs[t];
      k + m <= Addr(cfg, s, i) || Addr(cfg, s, i) + cfg[s.cache].objsize <= k
  {
    hide Addr, Pow2, Mgmt;
    InvCfg(cfg, st, t, i);
    var s, r := st.slabs[t], st.slabs[k];
    assert SlabOk(cfg, r, st.chains[k]) && LayoutOk(cfg[r.cache]);
    ObjectWithin(cfg, s, i);
    if t != k {
      RunsApart(cfg, st, t, k);
      MulLe(1, cfg[r.cache].num, cfg[r.cache].objsize);
      assert (r.base + Pow2(cfg[r.cache].order)) * PGSIZE == r.base * PGSIZE + SlabSize(cfg[r.cache].order);
    }
  }

  // ---------- changing one slab in place ----------

  /** Slab `k` with a new control area and chain, and new lists. */
  function Changed(st: State, k: nat, s: Slab, ch: seq<nat>, full: seq<seq<nat>>, notfull: seq<seq<nat>>): State
  {
    st.(slabs := st.slabs[k := s], chains := st.chains[k := ch], full := full, notfull := notfull)
  }

  /** The slab stays where it is. */
  ghost predicate SamePlace(s: Slab, r: Slab)
  {
    s.cache == r.cache && s.base == r.base
  }

  lemma SlabsChanged(cfg: seq<Cfg>, st: State, k: nat, s: Slab, ch: seq<nat>, f: seq<seq<nat>>, n: seq<seq<nat>>)
    requires SlabsOk(cfg, st) && k in st.slabs && SlabOk(cfg, s, ch)
    ensures SlabsOk(cfg, Changed(st, k, s, ch, f, n))
  {
    hide SlabOk;
  }

  lemma PagesChanged(cfg: seq<Cfg>, st: State, k: nat, s: Slab, ch: seq<nat>, f: seq<seq<nat>>, n: seq<seq<nat>>)
    requires PagesOk(cfg, st) && k in st.slabs && SamePlace(st.slabs[k], s)
    ensures PagesOk(cfg, Changed(st, k, s, ch, f, n))
  {
    hide Pow2;
    var u := Changed(st, k, s, ch, f, n);
    forall j, p | j in u.slabs
      ensures InRun(cfg, u.slabs[j], p) <==> InRun(cfg, st.slabs[j], p)
    {
    }
    hide InRun;
  }

  lemma LiveChanged(cfg: seq<Cfg>, st: State, k: nat, s: Slab, ch: seq<nat>, f: seq<seq<nat>>, n: seq<seq<nat>>, t: nat, i: nat)
    requires k in st.slabs && k in st.chains && SamePlace(st.slabs[k], s)
    ensures var u := Changed(st, k, s, ch, f, n);
      && (t != k ==> (LiveObj(cfg, u, t, i) <==> LiveObj(cfg, st, t, i)))
      && (t == k && s.cache < |cfg| ==> (LiveObj(cfg, u, t, i) <==> i < cfg[s.cache].num && i !in ch))
      && (OffSlab(cfg, u, t) <==> OffSlab(cfg, st, t))
  {
  }

  /** Allocation status moves with the chain, in every cache. */
  lemma LiveInGains(cfg: seq<Cfg>, st: State, k: nat, s: Slab, ch: seq<nat>, f: seq<seq<nat>>, n: seq<seq<nat>>, x: nat, a: nat, c: nat)
    requires Inv(cfg, st) && k in st.slabs && SamePlace(st.slabs[k], s) && s.cache < |cfg| && x < cfg[s.cache].num
    requires forall i :: i in ch <==> i in st.chains[k] && i != x
    ensures var u := Changed(st, k, s, ch, f, n);
      LiveIn(cfg, u, a, c) <==> LiveIn(cfg, st, a, c) || (c == s.cache && a == Addr(cfg, s, x))
  {
    hide Inv, LiveObj, LiveIn, Addr;
    InvKeys(cfg, st);
    var u := Changed(st, k, s, ch, f, n);
    SameAddr(cfg, st.slabs[k], s);
    if LiveIn(cfg, u, a, c) {
      var t, i := LiveWitness(cfg, u, a, c);
      LiveChanged(cfg, st, k, s, ch, f, n, t, i);
      LiveObjIs(cfg, st, k, i);
      if t != k || i != x {
        LiveShown(cfg, st, t, i);
      }
    }
    if LiveIn(cfg, st, a, c) {
      var t, i := LiveWitness(cfg, st, a, c);
      LiveChanged(cfg, st, k, s, ch, f, n, t, i);
      LiveObjIs(cfg, st, k, i);
      LiveShown(cfg, u, t, i);
    }
    if c == s.cache && a == Addr(cfg, s, x) {
      LiveChanged(cfg, st, k, s, ch, f, n, k, x);
      LiveShown(cfg, u, k, x);
    }
  }

  lemma LiveInLoses(cfg: seq<Cfg>, st: State, k: nat, s: Slab, ch: seq<nat>, f: seq<seq<nat>>, n: seq<seq<nat>>, x: nat, a: nat, c: nat)
    requires Inv(cfg, st) && k in st.slabs && SamePlace(st.slabs[k], s) && s.cache < |cfg| && LiveObj(cfg, st, k, x)
    requires forall i :: i in ch <==> i in st.chains[k] || i == x
    ensures var u := Changed(st, k, s, ch, f, n);
      LiveIn(cfg, u, a, c) <==> LiveIn(cfg, st, a, c) && a != Addr(cfg, s, x)
  {
    hide Inv, LiveObj, LiveIn, Addr;
    InvKeys(cfg, st);
    var u := Changed(st, k, s, ch, f, n);
    SameAddr(cfg, st.slabs[k], s);
    if LiveIn(cfg, u, a, c) {
      var t, i := LiveWitness(cfg, u, a, c);
      LiveChanged(cfg, st, k, s, ch, f, n, t, i);
      LiveObjIs(cfg, st, k, i);
      LiveShown(cfg, st, t, i);
      if a == Addr(cfg, s, x) {
        AddrUnique(cfg, st, t, i, k, x);
      }
    }
    if LiveIn(cfg, st, a, c) && a != Addr(cfg, s, x) {
      var t, i := LiveWitness(cfg, st, a, c);
      LiveChanged(cfg, st, k, s, ch, f, n, t, i);
      LiveObjIs(cfg, st, k, i);
      LiveShown(cfg, u, t, i);
    }
  }

  lemma LiveWitness(cfg: seq<Cfg>, st: State, a: nat, c: nat) returns (t: nat, i: nat)
    requires LiveIn(cfg, st, a, c)
    ensures LiveObj(cfg, st, t, i) && t in st.slabs && st.slabs[t].cache == c < |cfg| && a == Addr(cfg, st.slabs[t], i)
  {
    t, i :| LiveObj(cfg, st, t, i) && st.slabs[t].cache == c && a == Addr(cfg, st.slabs[t], i);
  }

  lemma LiveShown(cfg: seq<Cfg>, st: State, t: nat, i: nat)
    requires LiveObj(cfg, st, t, i)
    ensures t in st.slabs && st.slabs[t].cache < |cfg| && LiveIn(cfg, st, Addr(cfg, st.slabs[t], i), st.slabs[t].cache)
  {
  }

  lemma InvKeys(cfg: seq<Cfg>, st: State)
    requires Inv(cfg, st)
    ensures CfgsOk(cfg) && st.chains.Keys == st.slabs.Keys && forall k :: k in st.slabs ==> st.slabs[k].cache < |cfg|
  {
  }

  lemma SameAddr(cfg: seq<Cfg>, s: Slab, r: Slab)
    requires SamePlace(s, r) && s.cache < |cfg|
    ensures forall i: nat :: Addr(cfg, s, i) == Addr(cfg, r, i)
  {
  }

  lemma LiveObjIs(cfg: seq<Cfg>, st: State, t: nat, i: nat)
    requires t in st.slabs && t in st.chains && st.slabs[t].cache < |cfg|
    ensures LiveObj(cfg, st, t, i) <==> i < cfg[st.slabs[t].cache].num && i !in st.chains[t]
  {
  }

  // ---------- lists ----------

  /** Slab `k` moved to the list its new chain calls for, or left in the list it is in. */
  ghost predicate Moved(st: State, k: nat, c: nat, ch: seq<nat>, f: seq<seq<nat>>, n: seq<seq<nat>>)
  {
    && c < |st.full| == |st.notfull| && k in st.chains
    && (if (ch == []) == (st.chains[k] == []) then f == st.full && n == st.notfull
        else if ch == [] then f == st.full[c := [k] + st.full[c]] && n == st.notfull[c := Without(st.notfull[c], k)]
        else f == st.full[c := Without(st.full[c], k)] && n == st.notfull[c := [k] + st.notfull[c]])
  }

  lemma ListsChanged(cfg: seq<Cfg>, st: State, k: nat, s: Slab, ch: seq<nat>, f: seq<seq<nat>>, n: seq<seq<nat>>)
    requires ListsOk(cfg, st) && k in st.slabs && k in st.chains && SamePlace(st.slabs[k], s) && s.cache < |cfg|
    requires Moved(st, k, s.cache, ch, f, n)
    ensures ListsOk(cfg, Changed(st, k, s, ch, f, n))
  {
    hide NoDup, Without;
    var c := s.cache;
    var u := Changed(st, k, s, ch, f, n);
    WithoutOk(st.notfull[c], k);
    WithoutOk(st.full[c], k);
    if (ch == []) != (st.chains[k] == []) {
      if ch == [] {
        NoDupPush(st.full[c], k);
      } else {
        NoDupPush(st.notfull[c], k);
      }
    }
    assert forall d, j :: 0 <= d < |cfg| && j != k ==> (Listed(u, j, d) <==> Listed(st, j, d));
    assert forall d :: 0 <= d < |cfg| ==> (Listed(u, k, d) <==> d == c) && (Listed(st, k, d) <==> d == c);
  }

  // ---------- taking and giving back an object ----------

  lemma KeysChanged(cfg: seq<Cfg>, st: State, k: nat, s: Slab, ch: seq<nat>, f: seq<seq<nat>>, n: seq<seq<nat>>)
    requires KeysOk(cfg, st) && k in st.slabs && SamePlace(st.slabs[k], s)
    requires forall a, c :: OffSlab(cfg, st, a) && LiveIn(cfg, st, a, c) ==> LiveIn(cfg, Changed(st, k, s, ch, f, n), a, c)
    ensures KeysOk(cfg, Changed(st, k, s, ch, f, n))
  {
    hide LiveIn;
  }

  /** The state after the first free object of slab `k` is taken. */
  ghost predicate Taken(st: State, k: nat, u: State)
  {
    && k in st.slabs && k in st.chains && st.chains[k] != [] && st.slabs[k].free < |st.slabs[k].bufctl|
    && var s := st.slabs[k];
       && u == Changed(st, k, s.(inuse := s.inuse + 1, free := s.bufctl[s.free]), st.chains[k][1..], u.full, u.notfull)
       && Moved(st, k, s.cache, st.chains[k][1..], u.full, u.notfull)
  }

  lemma TakenInv(cfg: seq<Cfg>, st: State, k: nat, u: State)
    requires Inv(cfg, st) && Taken(st, k, u)
    ensures Inv(cfg, u) && SamePlace(st.slabs[k], u.slabs[k]) && u.slabs[k].cache < |cfg| && st.slabs[k].free < cfg[u.slabs[k].cache].num
    ensures st.slabs[k].free == st.chains[k][0]
    ensures forall i :: i in st.chains[k][1..] <==> i in st.chains[k] && i != st.slabs[k].free
  {
    hide KeysOk, ListsOk, PagesOk, LiveIn, CfgsOk, Moved;
    var s, ch := st.slabs[k], st.chains[k];
    assert SlabOk(cfg, s, ch);
    ChainTake(cfg[s.cache].num, s.free, s.bufctl, ch);
    assert ch == [ch[0]] + ch[1..];
    var r := u.slabs[k];
    SlabsChanged(cfg, st, k, r, ch[1..], u.full, u.notfull);
    PagesChanged(cfg, st, k, r, ch[1..], u.full, u.notfull);
    ListsChanged(cfg, st, k, r, ch[1..], u.full, u.notfull);
    forall a, c | LiveIn(cfg, st, a, c)
      ensures LiveIn(cfg, u, a, c)
    {
      LiveInGains(cfg, st, k, r, ch[1..], u.full, u.notfull, s.free, a, c);
    }
    KeysChanged(cfg, st, k, r, ch[1..], u.full, u.notfull);
  }

  /** Taking an object makes exactly that one a user's. */
  lemma TakenUser(cfg: seq<Cfg>, st: State, k: nat, u: State)
    requires Inv(cfg, st) && Taken(st, k, u)
    ensures st.slabs[k].cache < |cfg|
    ensures var x := Addr(cfg, st.slabs[k], st.slabs[k].free);
      UsersPlus(cfg, st, u, x) && LiveIn(cfg, u, x, st.slabs[k].cache)
  {
    hide Inv, LiveIn, Addr, Moved;
    TakenInv(cfg, st, k, u);
    InvKeys(cfg, st);
    var s, r, ch := st.slabs[k], u.slabs[k], st.chains[k];
    SameAddr(cfg, s, r);
    var x := Addr(cfg, s, s.free);
    forall b, c
      ensures LiveIn(cfg, u, b, c) <==> LiveIn(cfg, st, b, c) || (c == s.cache && b == x)
    {
      LiveInGains(cfg, st, k, r, ch[1..], u.full, u.notfull, s.free, b, c);
    }
    forall c
      ensures !LiveIn(cfg, st, x, c)
    {
      NotLiveBefore(cfg, st, k, u, c);
    }
    NotAControl(cfg, st, x);
    assert forall b :: OffSlab(cfg, u, b) <==> OffSlab(cfg, st, b);
    assert LiveIn(cfg, u, x, s.cache);
  }

  lemma NotLiveBefore(cfg: seq<Cfg>, st: State, k: nat, u: State, c: nat)
    requires Inv(cfg, st) && Taken(st, k, u)
    ensures st.slabs[k].cache < |cfg| && !LiveIn(cfg, st, Addr(cfg, st.slabs[k], st.slabs[k].free), c)
  {
    hide Inv, LiveIn, Addr, Moved, LiveObj;
    TakenInv(cfg, st, k, u);
    InvKeys(cfg, st);
    InvKeys(cfg, u);
    var s, r, ch := st.slabs[k], u.slabs[k], st.chains[k];
    SameAddr(cfg, s, r);
    var x := Addr(cfg, s, s.free);
    if LiveIn(cfg, st, x, c) {
      var t, i := LiveWitness(cfg, st, x, c);
      LiveChanged(cfg, st, k, r, ch[1..], u.full, u.notfull, t, i);
      LiveChanged(cfg, st, k, r, ch[1..], u.full, u.notfull, k, s.free);
      LiveObjIs(cfg, st, k, i);
      AddrUnique(cfg, u, t, i, k, s.free);
    }
  }

  /** An address that is not allocated is no control area off its slab. */
  lemma NotAControl(cfg: seq<Cfg>, st: State, x: nat)
    requires Inv(cfg, st) && forall c :: !LiveIn(cfg, st, x, c)
    ensures !OffSlab(cfg, st, x)
  {
    hide LiveIn;
  }

  /** The state after object `x` of slab `k` is given back, other objects of the slab being allocated. */
  ghost predicate Given(st: State, k: nat, x: nat, u: State)
  {
    && k in st.slabs && k in st.chains && st.slabs[k].inuse > 1 && x < |st.slabs[k].bufctl|
    && var s := st.slabs[k];
       && u == Changed(st, k, s.(inuse := s.inuse - 1, free := x, bufctl := s.bufctl[x := s.free]), [x] + st.chains[k], u.full, u.notfull)
       && Moved(st, k, s.cache, [x] + st.chains[k], u.full, u.notfull)
  }

  lemma GivenInv(cfg: seq<Cfg>, st: State, k: nat, x: nat, u: State)
    requires Inv(cfg, st) && LiveObj(cfg, st, k, x) && Given(st, k, x, u)
    requires !OffSlab(cfg, st, Addr(cfg, st.slabs[k], x))
    ensures Inv(cfg, u) && SamePlace(st.slabs[k], u.slabs[k]) && u.slabs[k].cache < |cfg|
  {
    hide KeysOk, ListsOk, PagesOk, LiveIn, CfgsOk, Moved;
    var s, ch := st.slabs[k], st.chains[k];
    assert SlabOk(cfg, s, ch);
    ChainGive(cfg[s.cache].num, s.free, s.bufctl, ch, x);
    var r := u.slabs[k];
    SlabsChanged(cfg, st, k, r, [x] + ch, u.full, u.notfull);
    PagesChanged(cfg, st, k, r, [x] + ch, u.full, u.notfull);
    ListsChanged(cfg, st, k, r, [x] + ch, u.full, u.notfull);
    SameAddr(cfg, s, r);
    forall a, c | OffSlab(cfg, st, a) && LiveIn(cfg, st, a, c)
      ensures LiveIn(cfg, u, a, c)
    {
      LiveInLoses(cfg, st, k, r, [x] + ch, u.full, u.notfull, x, a, c);
    }
    KeysChanged(cfg, st, k, r, [x] + ch, u.full, u.notfull);
  }

  /** Giving an object back takes exactly that one from the users. */
  lemma GivenUser(cfg: seq<Cfg>, st: State, k: nat, x: nat, u: State)
    requires Inv(cfg, st) && LiveObj(cfg, st, k, x) && Given(st, k, x, u)
    requires !OffSlab(cfg, st, Addr(cfg, st.slabs[k], x))
    ensures UsersMinus(cfg, st, u, Addr(cfg, st.slabs[k], x))
  {
    hide Inv, LiveIn, Addr, Moved;
    GivenInv(cfg, st, k, x, u);
    InvKeys(cfg, st);
    var s, r, ch := st.slabs[k], u.slabs[k], st.chains[k];
    SameAddr(cfg, s, r);
    forall a, c
      ensures LiveIn(cfg, u, a, c) <==> LiveIn(cfg, st, a, c) && a != Addr(cfg, s, x)
    {
      LiveInLoses(cfg, st, k, r, [x] + ch, u.full, u.notfull, x, a, c);
    }
    assert forall a :: OffSlab(cfg, u, a) <==> OffSlab(cfg, st, a);
  }

  // ---------- a new slab ----------

  /** The pages of a run marked with their slab. */
  function Marked(pages: map<nat, nat>, base: nat, n: nat, k: nat): map<nat, nat>
  {
    pages + map p: nat | p < base + n && InRange(base, n, p) :: k
  }

  /** The state after a slab of cache `c` is set up on the pages from `base`, with its control area at `key`. */
  ghost predicate Grown(cfg: seq<Cfg>, st: State, c: nat, base: nat, key: nat, u: State)
  {
    && c < |cfg| && |st.notfull| == |cfg|
    && u == st.(slabs := st.slabs[key := Slab(c, base, 0, 0, Linked(cfg[c].num))],
                chains := st.chains[key := Count(cfg[c].num)],
                pages := Marked(st.pages, base, Pow2(cfg[c].order), key),
                notfull := st.notfull[c := [key] + st.notfull[c]])
  }

  /** Where a new slab may go: on pages of its own, its control area at their start or in a user's object of the control cache. */
  ghost predicate Room(cfg: seq<Cfg>, st: State, c: nat, base: nat, key: nat)
  {
    && c < |cfg| && (forall p: nat :: base <= p < base + Pow2(cfg[c].order) ==> p in st.taken && p !in st.pages)
    && (if cfg[c].off then LiveIn(cfg, st, key, cfg[c].ctl) && !OffSlab(cfg, st, key) else key == base * PGSIZE)
  }

  lemma BaseInRun(cfg: seq<Cfg>, st: State, k: nat)
    requires Inv(cfg, st) && k in st.slabs
    ensures st.slabs[k].base in st.pages && st.pages[st.slabs[k].base] == k
  {
    hide ListsOk, KeysOk, CfgsOk, Pow2, ChainOk;
    assert SlabOk(cfg, st.slabs[k], st.chains[k]);
    assert InRun(cfg, st.slabs[k], st.slabs[k].base);
  }

  /** A new control area is at an address no slab is named by. */
  lemma KeyFresh(cfg: seq<Cfg>, st: State, c: nat, base: nat, key: nat)
    requires Inv(cfg, st) && Room(cfg, st, c, base, key)
    ensures key !in st.slabs
  {
    hide LiveIn, Addr, Inv, LiveObj, Mgmt;
    if key in st.slabs {
      InvKeys(cfg, st);
      KeyIs(cfg, st, key);
      if cfg[c].off {
        NumPositive(cfg, c);
        KeyNotObject(cfg, st, key, cfg[c].ctl);
      } else {
        assert InRange(base, Pow2(cfg[c].order), base);
        assert base * PGSIZE / PGSIZE == base;
        if OffSlab(cfg, st, key) {
          var t, i := LiveWitness(cfg, st, key, cfg[st.slabs[key].cache].ctl);
          PageOf(cfg, st, t, i);
        } else {
          BaseInRun(cfg, st, key);
        }
      }
    }
  }

  predicate InRange(base: nat, n: nat, p: nat)
  {
    base <= p < base + n
  }

  lemma KeyIs(cfg: seq<Cfg>, st: State, k: nat)
    requires Inv(cfg, st) && k in st.slabs
    ensures st.slabs[k].cache < |cfg|
    ensures if OffSlab(cfg, st, k) then LiveIn(cfg, st, k, cfg[st.slabs[k].cache].ctl) else k == st.slabs[k].base * PGSIZE
  {
    hide LiveIn;
  }

  /** An allocated object that is no slab's control area off its slab names no slab at all. */
  lemma KeyNotObject(cfg: seq<Cfg>, st: State, key: nat, d: nat)
    requires Inv(cfg, st) && LiveIn(cfg, st, key, d) && d < |cfg| && !cfg[d].off && !OffSlab(cfg, st, key)
    ensures key !in st.slabs
  {
    hide LiveIn, Addr, Inv, LiveObj, CfgsOk, Pow2;
    if key in st.slabs {
      KeyIs(cfg, st, key);
      var t, i := LiveWitness(cfg, st, key, d);
      PageOf(cfg, st, t, i);
      BaseInRun(cfg, st, key);
      InvCfg(cfg, st, t, i);
      ObjectWithin(cfg, st.slabs[t], i);
      OffsetPositive(cfg, d);
    }
  }

  lemma OffsetPositive(cfg: seq<Cfg>, d: nat)
    requires CfgsOk(cfg) && d < |cfg| && !cfg[d].off
    ensures cfg[d].offset > 0
  {
    assert LayoutOk(cfg[d]);
    MgmtMono(0, cfg[d].num);
  }

  lemma GrownSlabs(cfg: seq<Cfg>, st: State, c: nat, base: nat, key: nat, u: State)
    requires CfgsOk(cfg) && SlabsOk(cfg, st) && Grown(cfg, st, c, base, key, u)
    ensures SlabsOk(cfg, u)
  {
    assert LayoutOk(cfg[c]);
    ChainNew(cfg[c].num);
    assert SlabOk(cfg, u.slabs[key], u.chains[key]);
  }

  lemma GrownPages(cfg: seq<Cfg>, st: State, c: nat, base: nat, key: nat, u: State)
    requires PagesOk(cfg, st) && Grown(cfg, st, c, base, key, u) && key !in st.slabs
    requires forall p: nat :: base <= p < base + Pow2(cfg[c].order) ==> p in st.taken && p !in st.pages
    ensures PagesOk(cfg, u)
  {
    hide Linked, Count;
    forall p | p in u.pages
      ensures u.pages[p] in u.slabs && InRun(cfg, u.slabs[u.pages[p]], p) && p in u.taken
    {
    }
    forall k: nat, p: nat | k in u.slabs && InRun(cfg, u.slabs[k], p)
      ensures p in u.pages && u.pages[p] == k
    {
      if k != key {
        assert InRun(cfg, st.slabs[k], p);
      }
    }
  }

  lemma GrownLists(cfg: seq<Cfg>, st: State, c: nat, base: nat, key: nat, u: State)
    requires ListsOk(cfg, st) && Grown(cfg, st, c, base, key, u) && key !in st.slabs && CfgsOk(cfg)
    ensures ListsOk(cfg, u)
  {
    hide NoDup, CfgsOk, Linked, Marked;
    assert |Count(cfg[c].num)| > 0 by {
      NumPositive(cfg, c);
    }
    assert key !in st.notfull[c] by {
      assert !Listed(st, key, c);
    }
    NoDupPush(st.notfull[c], key);
    assert forall d, j :: 0 <= d < |cfg| && j != key ==> (Listed(u, j, d) <==> Listed(st, j, d));
    assert forall d :: 0 <= d < |cfg| ==> (Listed(u, key, d) <==> d == c) && !Listed(st, key, d);
  }

  lemma NumPositive(cfg: seq<Cfg>, c: nat)
    requires CfgsOk(cfg) && c < |cfg|
    ensures 0 < cfg[c].num < BUFCTL_END && cfg[c].objsize > 0 && cfg[c].objsize == Pow2(c + MIN_SIZE_ORDER)
    ensures cfg[c].off ==> cfg[c].ctl < |cfg| && !cfg[cfg[c].ctl].off
  {
    assert LayoutOk(cfg[c]);
  }

  /** A new slab has no allocated object, and leaves all others as they were. */
  lemma GrownLive(cfg: seq<Cfg>, st: State, c: nat, base: nat, key: nat, u: State, t: nat, i: nat)
    requires Grown(cfg, st, c, base, key, u) && key !in st.slabs
    ensures LiveObj(cfg, u, t, i) <==> LiveObj(cfg, st, t, i)
    ensures LiveObj(cfg, st, t, i) ==> t in u.slabs && u.slabs[t] == st.slabs[t]
  {
    if t == key && i < cfg[c].num {
      assert Count(cfg[c].num)[i] == i;
    }
  }

  lemma GrownLiveIn(cfg: seq<Cfg>, st: State, c: nat, base: nat, key: nat, u: State, a: nat, d: nat)
    requires Grown(cfg, st, c, base, key, u) && key !in st.slabs
    ensures LiveIn(cfg, u, a, d) <==> LiveIn(cfg, st, a, d)
  {
    hide LiveObj, Grown;
    if LiveIn(cfg, u, a, d) {
      var t, i := LiveWitness(cfg, u, a, d);
      GrownLive(cfg, st, c, base, key, u, t, i);
      LiveShown(cfg, st, t, i);
    }
    if LiveIn(cfg, st, a, d) {
      var t, i := LiveWitness(cfg, st, a, d);
      GrownLive(cfg, st, c, base, key, u, t, i);
      LiveShown(cfg, u, t, i);
    }
  }

  lemma GrownInv(cfg: seq<Cfg>, st: State, c: nat, base: nat, key: nat, u: State)
    requires Inv(cfg, st) && Room(cfg, st, c, base, key) && Grown(cfg, st, c, base, key, u)
    ensures Inv(cfg, u) && key !in st.slabs
    ensures if cfg[c].off then UsersMinus(cfg, st, u, key) else UsersSame(cfg, st, u)
  {
    hide LiveIn, CfgsOk, SlabsOk, PagesOk, ListsOk, Linked, Count, Marked, LiveObj;
    KeyFresh(cfg, st, c, base, key);
    GrownSlabs(cfg, st, c, base, key, u);
    GrownPages(cfg, st, c, base, key, u);
    GrownLists(cfg, st, c, base, key, u);
    forall a, d
      ensures LiveIn(cfg, u, a, d) <==> LiveIn(cfg, st, a, d)
    {
      GrownLiveIn(cfg, st, c, base, key, u, a, d);
    }
    assert forall a :: OffSlab(cfg, u, a) <==> OffSlab(cfg, st, a) || (cfg[c].off && a == key);
    assert KeysOk(cfg, u);
  }

  // ---------- a slab given up ----------

  function Unmarked(pages: map<nat, nat>, base: nat, n: nat): map<nat, nat>
  {
    map p | p in pages && !InRange(base, n, p) :: pages[p]
  }

  /** The state after slab `k`, whose last allocated object came back, is given up with its pages. */
  ghost predicate Dropped(cfg: seq<Cfg>, st: State, k: nat, u: State)
  {
    && k in st.slabs && k in st.chains && st.slabs[k].cache < |cfg| && |st.full| == |st.notfull| == |cfg|
    && var s := st.slabs[k]; var c := s.cache; var n := Pow2(cfg[c].order);
       u == State(st.slabs - {k}, Unmarked(st.pages, s.base, n),
                  st.full[c := Without(st.full[c], k)], st.notfull[c := Without(st.notfull[c], k)],
                  st.chains - {k}, st.taken - (set p: nat | p < s.base + n && InRange(s.base, n, p)))
  }

  lemma DroppedPages(cfg: seq<Cfg>, st: State, k: nat, u: State)
    requires PagesOk(cfg, st) && Dropped(cfg, st, k, u)
    ensures PagesOk(cfg, u)
  {
    hide Pow2, Without;
    var s := st.slabs[k];
    forall p | p in u.pages
      ensures u.pages[p] in u.slabs && InRun(cfg, u.slabs[u.pages[p]], p) && p in u.taken
    {
      assert u.pages[p] == st.pages[p];
      assert InRun(cfg, st.slabs[st.pages[p]], p);
      assert !InRange(s.base, Pow2(cfg[s.cache].order), p);
    }
    forall j: nat, p: nat | j in u.slabs && InRun(cfg, u.slabs[j], p)
      ensures p in u.pages && u.pages[p] == j
    {
      assert st.pages[p] == j;
      if InRange(s.base, Pow2(cfg[s.cache].order), p) {
        assert InRun(cfg, s, p);
        OneRun(cfg, st, j, k, p);
      }
    }
  }

  lemma DroppedLists(cfg: seq<Cfg>, st: State, k: nat, u: State)
    requires ListsOk(cfg, st) && Dropped(cfg, st, k, u)
    ensures ListsOk(cfg, u)
  {
    hide NoDup, Without, Unmarked, Pow2;
    var c := st.slabs[k].cache;
    WithoutOk(st.full[c], k);
    WithoutOk(st.notfull[c], k);
    assert forall d, j :: 0 <= d < |cfg| && j != k ==> (Listed(u, j, d) <==> Listed(st, j, d));
    assert forall d :: 0 <= d < |cfg| ==> !Listed(u, k, d) && (Listed(st, k, d) <==> d == c);
  }

  /** A chain of all objects but one leaves only that one out. */
  lemma OnlyOne(c: seq<nat>, num: nat, x: nat, i: nat)
    requires NoDup(c) && (forall j :: 0 <= j < |c| ==> c[j] < num) && |c| + 1 == num && x < num && x !in c
    requires i < num && i !in c
    ensures i == x
  {
    ElemsSize(c);
    hide NoDup, Elems, Below;
    if i != x {
      var e := Elems(c);
      assert forall y :: y in e ==> y < num;
      assert |e + {x} + {i}| == |e| + 2;
      SubsetSize(e + {x} + {i}, Below(num));
    }
  }

  lemma DroppedLive(cfg: seq<Cfg>, st: State, k: nat, x: nat, u: State, t: nat, i: nat)
    requires Inv(cfg, st) && Dropped(cfg, st, k, u) && LiveObj(cfg, st, k, x) && st.slabs[k].inuse == 1
    ensures LiveObj(cfg, u, t, i) <==> LiveObj(cfg, st, t, i) && !(t == k && i == x)
    ensures LiveObj(cfg, u, t, i) ==> u.slabs[t] == st.slabs[t]
  {
    hide KeysOk, ListsOk, PagesOk, CfgsOk, Without, Unmarked, Pow2;
    if t == k && LiveObj(cfg, st, k, i) {
      var s, ch := st.slabs[k], st.chains[k];
      assert SlabOk(cfg, s, ch);
      OnlyOne(ch, cfg[s.cache].num, x, i);
    }
  }

  lemma DroppedLiveIn(cfg: seq<Cfg>, st: State, k: nat, x: nat, u: State, a: nat, d: nat)
    requires Inv(cfg, st) && Dropped(cfg, st, k, u) && LiveObj(cfg, st, k, x) && st.slabs[k].inuse == 1
    ensures LiveIn(cfg, u, a, d) <==> LiveIn(cfg, st, a, d) && a != Addr(cfg, st.slabs[k], x)
  {
    hide Inv, LiveObj, LiveIn, Dropped, Addr;
    InvCfg(cfg, st, k, x);
    if LiveIn(cfg, u, a, d) {
      var t, i := LiveWitness(cfg, u, a, d);
      DroppedLive(cfg, st, k, x, u, t, i);
      LiveShown(cfg, st, t, i);
      if a == Addr(cfg, st.slabs[k], x) {
        AddrUnique(cfg, st, t, i, k, x);
      }
    }
    if LiveIn(cfg, st, a, d) && a != Addr(cfg, st.slabs[k], x) {
      var t, i := LiveWitness(cfg, st, a, d);
      DroppedLive(cfg, st, k, x, u, t, i);
      LiveShown(cfg, u, t, i);
    }
  }

  lemma DroppedInv(cfg: seq<Cfg>, st: State, k: nat, x: nat, u: State)
    requires Inv(cfg, st) && Dropped(cfg, st, k, u) && LiveObj(cfg, st, k, x) && st.slabs[k].inuse == 1
    requires !OffSlab(cfg, st, Addr(cfg, st.slabs[k], x))
    ensures Inv(cfg, u)
    ensures OffSlab(cfg, st, k) ==> LiveIn(cfg, u, k, cfg[st.slabs[k].cache].ctl) && !User(cfg, st, k)
    ensures if OffSlab(cfg, st, k) then UsersSwap(cfg, st, u, Addr(cfg, st.slabs[k], x), k)
      else UsersMinus(cfg, st, u, Addr(cfg, st.slabs[k], x))
  {
    hide LiveIn, CfgsOk, PagesOk, ListsOk, LiveObj, Addr, Without, Unmarked, SlabOk;
    InvCfg(cfg, st, k, x);
    DroppedPages(cfg, st, k, u);
    DroppedLists(cfg, st, k, u);
    var b := Addr(cfg, st.slabs[k], x);
    forall a, d
      ensures LiveIn(cfg, u, a, d) <==> LiveIn(cfg, st, a, d) && a != b
    {
      DroppedLiveIn(cfg, st, k, x, u, a, d);
    }
    assert forall a :: OffSlab(cfg, u, a) <==> OffSlab(cfg, st, a) && a != k;
    assert KeysOk(cfg, u);
    if OffSlab(cfg, st, k) {
      assert LiveIn(cfg, st, k, cfg[st.slabs[k].cache].ctl);
    }
  }

  // ---------- nothing left behind ----------

  /** A slab in use has an allocated object. */
  lemma BusyObject(cfg: seq<Cfg>, st: State, k: nat) returns (i: nat)
    requires Inv(cfg, st) && k in st.slabs && st.slabs[k].inuse > 0
    ensures LiveObj(cfg, st, k, i)
  {
    hide KeysOk, ListsOk, PagesOk, CfgsOk;
    var s, ch := st.slabs[k], st.chains[k];
    assert SlabOk(cfg, s, ch);
    ElemsSize(ch);
    var n := cfg[s.cache].num;
    if Below(n) <= Elems(ch) {
      SubsetSize(Below(n), Elems(ch));
    }
    i :| i in Below(n) && i !in Elems(ch);
  }

  /** A live object nobody uses is a control area, so its cache keeps its own control areas on the slab. */
  lemma UnusedIsControl(cfg: seq<Cfg>, st: State, k: nat) returns (key: nat)
    requires Inv(cfg, st) && Busy(cfg, st, {}) && k in st.slabs && forall a :: !User(cfg, st, a)
    ensures st.slabs[k].cache < |cfg| && !cfg[st.slabs[k].cache].off && OffSlab(cfg, st, key)
  {
    hide Inv, LiveIn, LiveObj, Addr;
    var i := BusyObject(cfg, st, k);
    InvCfg(cfg, st, k, i);
    LiveShown(cfg, st, k, i);
    key := Addr(cfg, st.slabs[k], i);
    assert OffSlab(cfg, st, key) by {
      assert !User(cfg, st, key);
    }
    KeyIs(cfg, st, key);
    var d := cfg[st.slabs[key].cache].ctl;
    NumPositive(cfg, st.slabs[key].cache);
    var t, j := LiveWitness(cfg, st, key, d);
    AddrUnique(cfg, st, t, j, k, i);
  }

  /** When no object is in use, no slab and no page is held. */
  lemma NothingLeft(cfg: seq<Cfg>, st: State)
    requires Inv(cfg, st) && Busy(cfg, st, {}) && st.taken == st.pages.Keys && forall a :: !User(cfg, st, a)
    ensures st.slabs == map[] && st.taken == {}
  {
    if st.slabs != map[] {
      var k :| k in st.slabs;
      var key := UnusedIsControl(cfg, st, k);
      var other := UnusedIsControl(cfg, st, key);
      assert false;
    }
  }

  // ---------- how much is allocated ----------

  /** The allocated objects of the slabs in a list. */
  ghost function Pairs(cfg: seq<Cfg>, st: State, l: seq<nat>): set<(nat, nat)>
    requires forall i :: 0 <= i < |l| ==> l[i] in st.slabs && st.slabs[l[i]].cache < |cfg|
  {
    if l == [] then {}
    else Pairs(cfg, st, l[1..]) + Objects(cfg, st, l[0])
  }

  ghost function Objects(cfg: seq<Cfg>, st: State, k: nat): set<(nat, nat)>
    requires k in st.slabs && st.slabs[k].cache < |cfg|
  {
    set i: nat | i < cfg[st.slabs[k].cache].num && LiveObj(cfg, st, k, i) :: (k, i)
  }

  function InUse(st: State, l: seq<nat>): nat
    requires forall i :: 0 <= i < |l| ==> l[i] in st.slabs
  {
    if l == [] then 0 else InUse(st, l[1..]) + st.slabs[l[0]].inuse
  }

  /** The numbers below `n` outside a list, paired with `k`. */
  lemma {:induction false} CountOutside(c: seq<nat>, n: nat, k: nat, s: set<(nat, nat)>)
    requires NoDup(c) && (forall j :: 0 <= j < |c| ==> c[j] < n)
    requires forall t, i :: (t, i) in s <==> t == k && 0 <= i < n && i !in c
    ensures |s| + |c| == n
  {
    var firsts := Below(n) - Elems(c);
    ElemsSize(c);
    assert Elems(c) <= Below(n);
    assert |firsts| + |Elems(c)| == n by {
      assert Below(n) == firsts + Elems(c);
    }
    PairUp(firsts, k, s);
  }

  lemma {:induction false} PairUp(f: set<nat>, k: nat, s: set<(nat, nat)>)
    requires forall t, i :: (t, i) in s <==> t == k && i in f
    ensures |s| == |f|
    decreases f
  {
    if f == {} {
      forall p | p in s
        ensures p.1 in f
      {
        assert (p.0, p.1) in s;
      }
      assert s == {};
    } else {
      var x :| x in f;
      PairUp(f - {x}, k, s - {(k, x)});
      assert s == (s - {(k, x)}) + {(k, x)};
    }
  }

  lemma ObjectsSize(cfg: seq<Cfg>, st: State, k: nat)
    requires Inv(cfg, st) && k in st.slabs
    ensures st.slabs[k].cache < |cfg| && |Objects(cfg, st, k)| == st.slabs[k].inuse
  {
    hide KeysOk, ListsOk, PagesOk, CfgsOk;
    var s, ch := st.slabs[k], st.chains[k];
    assert SlabOk(cfg, s, ch);
    var n := cfg[s.cache].num;
    assert forall t, i :: (t, i) in Objects(cfg, st, k) <==> t == k && 0 <= i < n && i !in ch;
    CountOutside(ch, n, k, Objects(cfg, st, k));
  }

  lemma {:induction false} PairsIn(cfg: seq<Cfg>, st: State, l: seq<nat>, p: (nat, nat))
    requires forall i :: 0 <= i < |l| ==> l[i] in st.slabs && st.slabs[l[i]].cache < |cfg|
    ensures p in Pairs(cfg, st, l) <==> p.0 in l && LiveObj(cfg, st, p.0, p.1)
  {
    if l != [] {
      PairsIn(cfg, st, l[1..], p);
      assert l == [l[0]] + l[1..];
    }
  }

  /** The allocated objects of distinct slabs number as many as their counters say. */
  lemma {:induction false} PairsSize(cfg: seq<Cfg>, st: State, l: seq<nat>)
    requires Inv(cfg, st) && NoDup(l) && forall i :: 0 <= i < |l| ==> l[i] in st.slabs && st.slabs[l[i]].cache < |cfg|
    ensures |Pairs(cfg, st, l)| == InUse(st, l)
  {
    hide Inv, LiveObj, NoDup;
    if l != [] {
      TailNoDup(l);
      PairsSize(cfg, st, l[1..]);
      ObjectsSize(cfg, st, l[0]);
      forall p | p in Pairs(cfg, st, l[1..])
        ensures p !in Objects(cfg, st, l[0])
      {
        PairsIn(cfg, st, l[1..], p);
      }
      assert Pairs(cfg, st, l[1..]) !! Objects(cfg, st, l[0]);
    }
  }
}
