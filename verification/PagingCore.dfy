/**
 The bookkeeping behind private mappings, as values: page table entries, page
 frames with their reference counts, swap slots with theirs, and the swap cache.
 A missing page table entry is an invalid (zero) one.
 */
module PagingCore {
  import opened Lists

  const SWAP_UNUSED: nat := 0xFFFF
  const MAX_SWAP_REF: nat := 0xFFFE

  const MAX_PROCESS: nat := 4096

  /** Every process has at most one address space, and at most one more that it is setting up for a child. */
  const MAX_SPACES: nat := 2 * MAX_PROCESS

  /** The number of an address space among those alive. */
  type Space = m: nat | m < MAX_SPACES

  /** A page address in an address space. */
  datatype Addr = Addr(mm: Space, la: nat)

  datatype Pte =
    | Present(frame: nat, write: bool, accessed: bool, dirty: bool)
    | Swapped(slot: nat)

  type Ptes = map<Addr, Pte>

  /** A page descriptor: reference count, PG_swap and the swap entry, PG_dirty, PG_active. */
  datatype Frame = Frame(ref: nat, swap: bool, index: nat, dirty: bool, active: bool)

  /** The entries that map a frame, and those that hold a swap entry. */
  ghost function Refs(p: Ptes, f: nat): set<Addr>
  {
    set a | a in p && p[a].Present? && p[a].frame == f
  }

  ghost function Swaps(p: Ptes, s: nat): set<Addr>
  {
    set a | a in p && p[a].Swapped? && p[a].slot == s
  }

  /** Reference counts are exact, up to the references in `pins` that an operation is moving; a frame
      is free exactly when nothing uses it, except the frames `held` by an operation. */
  ghost predicate FramesOk(p: Ptes, frames: seq<Frame>, free: set<nat>, pins: multiset<nat>, held: set<nat>)
  {
    (forall a :: a in p && p[a].Present? ==> p[a].frame < |frames|) &&
    (forall f: nat :: f < |frames| ==> frames[f].ref == |Refs(p, f)| + pins[f]) &&
    (forall f: nat :: f in free ==> f < |frames|) &&
    (forall f: nat :: f < |frames| ==> (f in free <==> frames[f].ref == 0 && !frames[f].swap && f !in held))
  }

  /** The swap cache is one frame per entry, as the frames themselves say. */
  ghost predicate CacheOk(frames: seq<Frame>, cache: map<nat, nat>, max: nat)
  {
    (forall s :: s in cache ==> 0 < s < max && cache[s] < |frames| && frames[cache[s]].swap && frames[cache[s]].index == s) &&
    (forall f: nat :: f < |frames| && frames[f].swap ==> frames[f].index in cache && cache[frames[f].index] == f)
  }

  /** Slot counts are exact, up to the entries in `extras`; an unused slot has no entry and no
      cached page, and a slot without entries is kept only for its cached page. */
  ghost predicate SlotsOk(p: Ptes, mem: seq<nat>, cache: map<nat, nat>, extras: multiset<nat>)
  {
    (forall a :: a in p && p[a].Swapped? ==> 0 < p[a].slot < |mem|) &&
    (forall s: nat :: 0 < s < |mem| ==> SlotOk(|Swaps(p, s)| + extras[s], mem[s], s in cache))
  }

  predicate SlotOk(refs: nat, count: nat, cached: bool)
  {
    if count == SWAP_UNUSED then refs == 0 && !cached
    else count <= MAX_SWAP_REF && count == refs && (refs == 0 ==> cached)
  }

  /** Two entries lead to one page, in memory or in swap. */
  predicate SamePage(frames: seq<Frame>, p: Pte, q: Pte)
  {
    p.Present? && p.frame < |frames| &&
    match q
    case Present(f, _, _, _) => f == p.frame
    case Swapped(s) => frames[p.frame].swap && frames[p.frame].index == s
  }

  /** Copy-on-write isolation: a writable entry is the only way to its page. */
  ghost predicate Isolated(p: Ptes, frames: seq<Frame>)
  {
    forall a, b :: a in p && b in p && a != b && p[a].Present? && p[a].write ==> !SamePage(frames, p[a], p[b])
  }

  /** The same, also for two swap entries. */
  predicate Meet(frames: seq<Frame>, p: Pte, q: Pte)
  {
    SamePage(frames, p, q) || (p.Swapped? && q == p)
  }

  /** All ways to a page have one page address, in different address spaces. */
  ghost predicate OneAddress(p: Ptes, frames: seq<Frame>)
  {
    forall a, b :: a in p && b in p && Meet(frames, p[a], p[b]) ==> a.la == b.la
  }

  ghost predicate CowOk(p: Ptes, frames: seq<Frame>)
  {
    Isolated(p, frames) && OneAddress(p, frames)
  }

  // ---------- how one entry changes the counts ----------

  lemma RefsAdd(p: Ptes, a: Addr, q: Pte)
    requires a !in p
    ensures forall f :: |Refs(p[a := q], f)| == |Refs(p, f)| + (if q.Present? && q.frame == f then 1 else 0)
    ensures forall s :: |Swaps(p[a := q], s)| == |Swaps(p, s)| + (if q.Swapped? && q.slot == s then 1 else 0)
  {
    forall f
      ensures |Refs(p[a := q], f)| == |Refs(p, f)| + (if q.Present? && q.frame == f then 1 else 0)
    {
      RefsAddOne(p, a, q, f);
    }
    forall s
      ensures |Swaps(p[a := q], s)| == |Swaps(p, s)| + (if q.Swapped? && q.slot == s then 1 else 0)
    {
      SwapsAddOne(p, a, q, s);
    }
  }

  lemma RefsAddOne(p: Ptes, a: Addr, q: Pte, f: nat)
    requires a !in p
    ensures |Refs(p[a := q], f)| == |Refs(p, f)| + (if q.Present? && q.frame == f then 1 else 0)
  {
    if q.Present? && q.frame == f {
      assert Refs(p[a := q], f) == Refs(p, f) + {a};
    } else {
      assert Refs(p[a := q], f) == Refs(p, f);
    }
  }

  lemma SwapsAddOne(p: Ptes, a: Addr, q: Pte, s: nat)
    requires a !in p
    ensures |Swaps(p[a := q], s)| == |Swaps(p, s)| + (if q.Swapped? && q.slot == s then 1 else 0)
  {
    if q.Swapped? && q.slot == s {
      assert Swaps(p[a := q], s) == Swaps(p, s) + {a};
    } else {
      assert Swaps(p[a := q], s) == Swaps(p, s);
    }
  }

  lemma RefsDrop(p: Ptes, a: Addr)
    requires a in p
    ensures forall f :: |Refs(p - {a}, f)| + (if p[a].Present? && p[a].frame == f then 1 else 0) == |Refs(p, f)|
    ensures forall s :: |Swaps(p - {a}, s)| + (if p[a].Swapped? && p[a].slot == s then 1 else 0) == |Swaps(p, s)|
  {
    RefsAdd(p - {a}, a, p[a]);
    assert (p - {a})[a := p[a]] == p;
  }

  lemma CowDrop(p: Ptes, frames: seq<Frame>, a: Addr)
    requires CowOk(p, frames)
    ensures CowOk(p - {a}, frames)
  {
  }

  // ---------- what the parts of the invariant depend on ----------

  /** The frames differ in reference counts and dirty flags only. */
  ghost predicate SameCached(frames: seq<Frame>, frames': seq<Frame>)
  {
    |frames| == |frames'| && forall f: nat :: f < |frames| ==>
      frames'[f].swap == frames[f].swap && frames'[f].index == frames[f].index
  }

  lemma CacheSame(frames: seq<Frame>, frames': seq<Frame>, cache: map<nat, nat>, max: nat)
    requires CacheOk(frames, cache, max) && SameCached(frames, frames')
    ensures CacheOk(frames', cache, max)
  {
  }

  lemma CowSame(p: Ptes, frames: seq<Frame>, frames': seq<Frame>)
    requires CowOk(p, frames) && SameCached(frames, frames')
    ensures CowOk(p, frames')
  {
    forall a, b | a in p && b in p && a != b && p[a].Present? && p[a].write
      ensures !SamePage(frames', p[a], p[b])
    {
      assert !SamePage(frames, p[a], p[b]);
    }
    forall a, b | a in p && b in p && Meet(frames', p[a], p[b])
      ensures a.la == b.la
    {
      assert Meet(frames, p[a], p[b]);
    }
  }

  // ---------- moving references ----------

  lemma DropFrames(p: Ptes, frames: seq<Frame>, free: set<nat>, pins: multiset<nat>, held: set<nat>, a: Addr)
    requires FramesOk(p, frames, free, pins, held) && a in p
    ensures FramesOk(p - {a}, frames, free, if p[a].Present? then pins + multiset{p[a].frame} else pins, held)
  {
    RefsDrop(p, a);
  }

  lemma DropSlots(p: Ptes, mem: seq<nat>, cache: map<nat, nat>, extras: multiset<nat>, a: Addr)
    requires SlotsOk(p, mem, cache, extras) && a in p
    ensures SlotsOk(p - {a}, mem, cache, if p[a].Swapped? then extras + multiset{p[a].slot} else extras)
  {
    RefsDrop(p, a);
  }

  lemma AddFrames(p: Ptes, frames: seq<Frame>, free: set<nat>, pins: multiset<nat>, held: set<nat>, a: Addr, q: Pte)
    requires FramesOk(p, frames, free, pins, held) && a !in p && (q.Present? ==> q.frame < |frames| && q.frame in pins)
    ensures FramesOk(p[a := q], frames, free, if q.Present? then pins - multiset{q.frame} else pins, held)
  {
    RefsAdd(p, a, q);
  }

  lemma AddSlots(p: Ptes, mem: seq<nat>, cache: map<nat, nat>, extras: multiset<nat>, a: Addr, q: Pte)
    requires SlotsOk(p, mem, cache, extras) && a !in p && (q.Swapped? ==> 0 < q.slot < |mem| && q.slot in extras)
    ensures SlotsOk(p[a := q], mem, cache, if q.Swapped? then extras - multiset{q.slot} else extras)
  {
    RefsAdd(p, a, q);
  }

  // ---------- the whole state ----------

  /** Everything but the page table entries. */
  datatype Swap = Swap(frames: seq<Frame>, free: set<nat>, mem: seq<nat>, cache: map<nat, nat>,
                       active: seq<nat>, inactive: seq<nat>)

  /** What an operation has in its hands: references to frames and slots not in any entry, frames
      taken from the free pool, and a cached frame (if not -1) taken off its list. */
  datatype Transit = Transit(pins: multiset<nat>, held: set<nat>, extras: multiset<nat>, off: int)

  const REST: Transit := Transit(multiset{}, {}, multiset{}, -1)

  /** The two swap lists hold the frames in the swap cache, apart from `off`. */
  ghost predicate ListsOk(frames: seq<Frame>, active: seq<nat>, inactive: seq<nat>, off: int)
  {
    NoDup(active) && NoDup(inactive) &&
    (forall f: nat :: f in active <==> OnList(frames, f, true, off)) &&
    (forall f: nat :: f in inactive <==> OnList(frames, f, false, off))
  }

  predicate OnList(frames: seq<Frame>, f: nat, which: bool, off: int)
  {
    f < |frames| && frames[f].swap && frames[f].active == which && f != off
  }

  ghost predicate Inv(st: Swap, p: Ptes, t: Transit)
  {
    1 < |st.mem| && FramesOk(p, st.frames, st.free, t.pins, t.held) && CacheOk(st.frames, st.cache, |st.mem|) &&
    SlotsOk(p, st.mem, st.cache, t.extras) && CowOk(p, st.frames) && ListsOk(st.frames, st.active, st.inactive, t.off)
  }

  function SetFrame(st: Swap, f: nat, d: Frame): Swap
    requires f < |st.frames|
  {
    st.(frames := st.frames[f := d])
  }

  /** page_ref_inc and page_ref_dec. */
  function IncRef(st: Swap, f: nat): Swap
    requires f < |st.frames|
  {
    SetFrame(st, f, st.frames[f].(ref := st.frames[f].ref + 1))
  }

  function DecRef(st: Swap, f: nat): Swap
    requires f < |st.frames| && st.frames[f].ref > 0
  {
    SetFrame(st, f, st.frames[f].(ref := st.frames[f].ref - 1))
  }

  lemma SameOthers(st: Swap, p: Ptes, t: Transit, frames': seq<Frame>)
    requires Inv(st, p, t) && SameCached(st.frames, frames')
    requires forall f: nat :: f < |frames'| ==> frames'[f].active == st.frames[f].active
    ensures CacheOk(frames', st.cache, |st.mem|) && CowOk(p, frames') && ListsOk(frames', st.active, st.inactive, t.off)
  {
    CacheSame(st.frames, frames', st.cache, |st.mem|);
    CowSame(p, st.frames, frames');
    assert forall f: nat :: OnList(frames', f, true, t.off) <==> OnList(st.frames, f, true, t.off);
    assert forall f: nat :: OnList(frames', f, false, t.off) <==> OnList(st.frames, f, false, t.off);
  }

  lemma IncRefOk(st: Swap, p: Ptes, t: Transit, f: nat)
    requires Inv(st, p, t) && f < |st.frames| && f !in st.free
    ensures Inv(IncRef(st, f), p, t.(pins := t.pins + multiset{f}))
  {
    hide CacheOk, SlotsOk, CowOk, ListsOk;
    SameOthers(st, p, t, IncRef(st, f).frames);
  }

  lemma DecRefOk(st: Swap, p: Ptes, t: Transit, f: nat)
    requires Inv(st, p, t) && f in t.pins && f < |st.frames|
    ensures st.frames[f].ref > 0 && Inv(DecRef(st, f), p, t.(pins := t.pins - multiset{f}, held := t.held + {f}))
  {
    hide CacheOk, SlotsOk, CowOk, ListsOk;
    SameOthers(st, p, t, st.frames[f := st.frames[f].(ref := st.frames[f].ref - 1)]);
  }

  /** A frame in use need not be held. */
  lemma Unhold(st: Swap, p: Ptes, t: Transit, f: nat)
    requires Inv(st, p, t) && f < |st.frames| && (st.frames[f].ref > 0 || st.frames[f].swap || f in st.free)
    ensures Inv(st, p, t.(held := t.held - {f}))
  {
  }

  lemma FreeOk(st: Swap, p: Ptes, t: Transit, f: nat)
    requires Inv(st, p, t) && f < |st.frames| && st.frames[f].ref == 0 && !st.frames[f].swap && f in t.held
    ensures Inv(st.(free := st.free + {f}), p, t.(held := t.held - {f}))
  {
  }

  lemma AllocOk(st: Swap, p: Ptes, t: Transit, f: nat)
    requires Inv(st, p, t) && f in st.free
    ensures f < |st.frames| && f !in t.held && Inv(st.(free := st.free - {f}), p, t.(held := t.held + {f}))
    ensures st.frames[f].ref == 0 && !st.frames[f].swap && f !in t.pins && Refs(p, f) == {}
  {
  }

  /** An entry is cleared: its reference passes into the operation's hands. */
  function Dropped(t: Transit, q: Pte): Transit
  {
    if q.Present? then t.(pins := t.pins + multiset{q.frame}) else t.(extras := t.extras + multiset{q.slot})
  }

  lemma DropOk(st: Swap, p: Ptes, t: Transit, a: Addr)
    requires Inv(st, p, t) && a in p
    ensures Inv(st, p - {a}, Dropped(t, p[a]))
  {
    hide FramesOk, SlotsOk, CacheOk, CowOk, ListsOk;
    DropFrames(p, st.frames, st.free, t.pins, t.held, a);
    DropSlots(p, st.mem, st.cache, t.extras, a);
    CowDrop(p, st.frames, a);
  }

  /** An entry is set from a reference in hand. */
  ghost predicate InHand(st: Swap, t: Transit, q: Pte)
  {
    if q.Present? then q.frame < |st.frames| && q.frame in t.pins else 0 < q.slot < |st.mem| && q.slot in t.extras
  }

  function Placed(t: Transit, q: Pte): Transit
  {
    if q.Present? then t.(pins := t.pins - multiset{q.frame}) else t.(extras := t.extras - multiset{q.slot})
  }

  lemma PlaceOk(st: Swap, p: Ptes, t: Transit, a: Addr, q: Pte)
    requires Inv(st, p, t) && a !in p && InHand(st, t, q) && CowOk(p[a := q], st.frames)
    ensures Inv(st, p[a := q], Placed(t, q))
  {
    hide FramesOk, SlotsOk, CacheOk, CowOk, ListsOk;
    AddFrames(p, st.frames, st.free, t.pins, t.held, a, q);
    AddSlots(p, st.mem, st.cache, t.extras, a, q);
  }

  // ---------- slots, cache and lists ----------

  /** swap_duplicate. */
  lemma SlotIncOk(st: Swap, p: Ptes, t: Transit, s: nat)
    requires Inv(st, p, t) && 0 < s < |st.mem| && st.mem[s] < MAX_SWAP_REF
    ensures Inv(st.(mem := st.mem[s := st.mem[s] + 1]), p, t.(extras := t.extras + multiset{s}))
  {
    hide FramesOk, CacheOk, CowOk, ListsOk;
  }

  /** One entry fewer, while others or a cached page keep the slot. */
  lemma SlotDecOk(st: Swap, p: Ptes, t: Transit, s: nat)
    requires Inv(st, p, t) && 0 < s < |st.mem| && s in t.extras && (st.mem[s] > 1 || s in st.cache)
    ensures 0 < st.mem[s] <= MAX_SWAP_REF
    ensures Inv(st.(mem := st.mem[s := st.mem[s] - 1]), p, t.(extras := t.extras - multiset{s}))
  {
    hide FramesOk, CacheOk, CowOk, ListsOk;
    assert SlotOk(|Swaps(p, s)| + t.extras[s], st.mem[s], s in st.cache);
  }

  /** The last entry of a slot without cached page. */
  lemma SlotFreeOk(st: Swap, p: Ptes, t: Transit, s: nat)
    requires Inv(st, p, t) && 0 < s < |st.mem| && s in t.extras && st.mem[s] == 1 && s !in st.cache
    ensures Inv(st.(mem := st.mem[s := SWAP_UNUSED]), p, t.(extras := t.extras - multiset{s}))
  {
    hide FramesOk, CacheOk, CowOk, ListsOk;
    assert SlotOk(|Swaps(p, s)| + t.extras[s], st.mem[s], s in st.cache);
  }

  /** A slot that is cached or referenced is in use. */
  lemma SlotUsed(st: Swap, p: Ptes, t: Transit, s: nat)
    requires Inv(st, p, t) && 0 < s < |st.mem| && (s in st.cache || s in t.extras || Swaps(p, s) != {})
    ensures st.mem[s] <= MAX_SWAP_REF && (s in t.extras || Swaps(p, s) != {} ==> st.mem[s] > 0)
    ensures st.mem[s] == |Swaps(p, s)| + t.extras[s]
  {
    assert SlotOk(|Swaps(p, s)| + t.extras[s], st.mem[s], s in st.cache);
  }

  /** swap_list_del. */
  function ListDel(st: Swap, f: nat): Swap
    requires f < |st.frames|
  {
    if st.frames[f].active then st.(active := Without(st.active, f)) else st.(inactive := Without(st.inactive, f))
  }

  lemma ListDelOk(st: Swap, p: Ptes, t: Transit, f: nat)
    requires Inv(st, p, t) && f < |st.frames| && st.frames[f].swap && t.off == -1
    ensures Inv(ListDel(st, f), p, t.(off := f))
  {
    hide FramesOk, SlotsOk, CacheOk, CowOk;
    WithoutOk(st.active, f);
    WithoutOk(st.inactive, f);
  }

  /** swap_active_list_add and swap_inactive_list_add. */
  function ListAdd(st: Swap, f: nat, which: bool): Swap
    requires f < |st.frames|
  {
    var st' := SetFrame(st, f, st.frames[f].(active := which));
    if which then st'.(active := st.active + [f]) else st'.(inactive := st.inactive + [f])
  }

  lemma ListAddOk(st: Swap, p: Ptes, t: Transit, f: nat, which: bool)
    requires Inv(st, p, t) && f < |st.frames| && st.frames[f].swap && t.off == f
    ensures Inv(ListAdd(st, f, which), p, t.(off := -1))
  {
    hide CacheOk, CowOk, SlotsOk;
    var st' := ListAdd(st, f, which);
    CacheSame(st.frames, st'.frames, st.cache, |st.mem|);
    CowSame(p, st.frames, st'.frames);
    ListAddLists(st, f, which);
  }

  lemma ListAddLists(st: Swap, f: nat, which: bool)
    requires f < |st.frames| && st.frames[f].swap && ListsOk(st.frames, st.active, st.inactive, f)
    ensures var st' := ListAdd(st, f, which); ListsOk(st'.frames, st'.active, st'.inactive, -1)
  {
    var st' := ListAdd(st, f, which);
    assert !OnList(st.frames, f, true, f) && !OnList(st.frames, f, false, f);
    assert f !in st.active && f !in st.inactive;
    assert forall g: nat :: OnList(st'.frames, g, true, -1) <==> OnList(st.frames, g, true, f) || (g == f && which);
    assert forall g: nat :: OnList(st'.frames, g, false, -1) <==> OnList(st.frames, g, false, f) || (g == f && !which);
  }

  /** A frame leaves the swap cache; a slot with no entries goes with it. */
  function Uncached(st: Swap, f: nat): Swap
    requires f < |st.frames| && 0 < st.frames[f].index < |st.mem|
  {
    var s := st.frames[f].index;
    var st' := SetFrame(st, f, st.frames[f].(swap := false)).(cache := st.cache - {s});
    if st.mem[s] == 0 then st'.(mem := st.mem[s := SWAP_UNUSED]) else st'
  }

  lemma UncachedOk(st: Swap, p: Ptes, t: Transit, f: nat)
    requires Inv(st, p, t) && f < |st.frames| && st.frames[f].swap && t.off == f
    ensures 0 < st.frames[f].index < |st.mem|
    ensures Inv(Uncached(st, f), p, t.(off := -1, held := t.held + {f}))
  {
    var s := st.frames[f].index;
    var st' := Uncached(st, f);
    hide CowOk, SlotsOk, FramesOk, CacheOk, ListsOk;
    UncachedFrames(p, st, t, f);
    UncachedSlots(p, st.mem, st.cache, t.extras, s);
    UncachedCow(p, st.frames, st'.frames);
    UncachedLists(st.frames, st'.frames, st.active, st.inactive, f);
  }

  lemma UncachedLists(frames: seq<Frame>, frames': seq<Frame>, active: seq<nat>, inactive: seq<nat>, f: nat)
    requires f < |frames| && frames' == frames[f := frames[f].(swap := false)] && ListsOk(frames, active, inactive, f)
    ensures ListsOk(frames', active, inactive, -1)
  {
    assert forall g: nat :: OnList(frames', g, true, -1) <==> OnList(frames, g, true, f);
    assert forall g: nat :: OnList(frames', g, false, -1) <==> OnList(frames, g, false, f);
  }

  lemma UncachedFrames(p: Ptes, st: Swap, t: Transit, f: nat)
    requires FramesOk(p, st.frames, st.free, t.pins, t.held) && CacheOk(st.frames, st.cache, |st.mem|)
    requires f < |st.frames| && st.frames[f].swap
    ensures 0 < st.frames[f].index < |st.mem| && st.frames[f].index in st.cache
    ensures var st' := Uncached(st, f);
            FramesOk(p, st'.frames, st'.free, t.pins, t.held + {f}) && CacheOk(st'.frames, st'.cache, |st'.mem|)
  {
    hide Refs;
    UncachedCache(st.frames, st.cache, |st.mem|, f);
  }

  lemma UncachedCache(frames: seq<Frame>, cache: map<nat, nat>, max: nat, f: nat)
    requires CacheOk(frames, cache, max) && f < |frames| && frames[f].swap
    ensures 0 < frames[f].index < max && frames[f].index in cache
    ensures CacheOk(frames[f := frames[f].(swap := false)], cache - {frames[f].index}, max)
  {
  }

  lemma UncachedSlots(p: Ptes, mem: seq<nat>, cache: map<nat, nat>, extras: multiset<nat>, s: nat)
    requires SlotsOk(p, mem, cache, extras) && s in cache && 0 < s < |mem|
    ensures SlotsOk(p, if mem[s] == 0 then mem[s := SWAP_UNUSED] else mem, cache - {s}, extras)
  {
    assert SlotOk(|Swaps(p, s)| + extras[s], mem[s], true);
  }

  lemma UncachedCow(p: Ptes, frames: seq<Frame>, frames': seq<Frame>)
    requires CowOk(p, frames) && |frames'| == |frames|
    requires forall f: nat :: f < |frames| && frames'[f].swap ==> frames[f].swap && frames'[f].index == frames[f].index
    ensures CowOk(p, frames')
  {
    forall a, b | a in p && b in p && a != b && p[a].Present? && p[a].write
      ensures !SamePage(frames', p[a], p[b])
    {
      assert !SamePage(frames, p[a], p[b]);
    }
    forall a, b | a in p && b in p && Meet(frames', p[a], p[b])
      ensures a.la == b.la
    {
      assert Meet(frames, p[a], p[b]);
    }
  }

  /** swap_page_add: the frame enters the cache for slot `s`. */
  function Cached(st: Swap, f: nat, s: nat): Swap
    requires f < |st.frames| && s < |st.mem|
  {
    var st' := SetFrame(st, f, st.frames[f].(swap := true, index := s)).(cache := st.cache[s := f]);
    if st.mem[s] == SWAP_UNUSED then st'.(mem := st.mem[s := 0]) else st'
  }

  lemma CachedOk(st: Swap, p: Ptes, t: Transit, f: nat, s: nat)
    requires Inv(st, p, t) && f < |st.frames| && !st.frames[f].swap && t.off == -1 && f !in st.free
    requires 0 < s < |st.mem| && s !in st.cache && (Swaps(p, s) == {} || Refs(p, f) == {})
    ensures Inv(Cached(st, f, s), p, t.(off := f))
  {
    hide CowOk, SlotsOk, FramesOk, CacheOk, Swaps, Refs;
    var st' := Cached(st, f, s);
    CachedSlots(p, st.mem, st.cache, t.extras, s, f);
    CachedCow(p, st.frames, st'.frames, f, s);
    CachedFrames(p, st, t, f, s);
    CachedCache(st, f, s);
    assert forall g: nat :: OnList(st'.frames, g, true, f) <==> OnList(st.frames, g, true, -1);
    assert forall g: nat :: OnList(st'.frames, g, false, f) <==> OnList(st.frames, g, false, -1);
  }

  lemma CachedCache(st: Swap, f: nat, s: nat)
    requires CacheOk(st.frames, st.cache, |st.mem|) && f < |st.frames| && !st.frames[f].swap
    requires 0 < s < |st.mem| && s !in st.cache
    ensures var st' := Cached(st, f, s); CacheOk(st'.frames, st'.cache, |st'.mem|)
  {
  }

  lemma CachedFrames(p: Ptes, st: Swap, t: Transit, f: nat, s: nat)
    requires FramesOk(p, st.frames, st.free, t.pins, t.held) && f < |st.frames| && f !in st.free && s < |st.mem|
    ensures FramesOk(p, Cached(st, f, s).frames, st.free, t.pins, t.held)
  {
  }

  lemma CachedSlots(p: Ptes, mem: seq<nat>, cache: map<nat, nat>, extras: multiset<nat>, s: nat, f: nat)
    requires SlotsOk(p, mem, cache, extras) && s !in cache && 0 < s < |mem|
    ensures SlotsOk(p, if mem[s] == SWAP_UNUSED then mem[s := 0] else mem, cache[s := f], extras)
  {
    assert SlotOk(|Swaps(p, s)| + extras[s], mem[s], false);
  }

  lemma CachedCow(p: Ptes, frames: seq<Frame>, frames': seq<Frame>, f: nat, s: nat)
    requires CowOk(p, frames) && f < |frames| && frames' == frames[f := frames[f].(swap := true, index := s)]
    requires Swaps(p, s) == {} || Refs(p, f) == {}
    ensures CowOk(p, frames')
  {
    forall a, b | a in p && b in p && a != b && p[a].Present? && p[a].write
      ensures !SamePage(frames', p[a], p[b])
    {
      assert !SamePage(frames, p[a], p[b]);
      assert p[a].frame == f ==> a in Refs(p, f);
      assert p[b] == Swapped(s) ==> b in Swaps(p, s);
    }
    forall a, b | a in p && b in p && Meet(frames', p[a], p[b])
      ensures a.la == b.la
    {
      EntryIn(p, a);
      EntryIn(p, b);
      assert Meet(frames, p[a], p[b]);
    }
  }

  /** Frames may have left the swap cache, nothing else about it changed. */
  ghost predicate Shrunk(frames: seq<Frame>, frames': seq<Frame>)
  {
    |frames'| == |frames| &&
    forall f: nat :: f < |frames| && frames'[f].swap ==> frames[f].swap && frames'[f].index == frames[f].index
  }

  /** Frames held by an operation are not in use otherwise. */
  ghost predicate HeldOk(frames: seq<Frame>, t: Transit)
  {
    forall h :: h in t.held ==> h < |frames| && frames[h].ref == 0 && !frames[h].swap
  }

  lemma HeldPins(frames: seq<Frame>, t: Transit, u: Transit)
    requires HeldOk(frames, t) && u.held == t.held
    ensures HeldOk(frames, u)
  {
  }

  lemma PinnedRef(st: Swap, p: Ptes, t: Transit, f: nat)
    requires Inv(st, p, t) && f < |st.frames| && (f in t.pins || Refs(p, f) != {})
    ensures st.frames[f].ref > 0
  {
  }

  lemma EntryIn(p: Ptes, a: Addr)
    requires a in p
    ensures p[a].Present? ==> a in Refs(p, p[a].frame)
    ensures p[a].Swapped? ==> a in Swaps(p, p[a].slot)
  {
  }

  lemma EntryFrame(st: Swap, p: Ptes, t: Transit, a: Addr)
    requires Inv(st, p, t) && a in p
    ensures p[a].Present? ==> p[a].frame < |st.frames| && st.frames[p[a].frame].ref > 0
    ensures p[a].Swapped? ==> 0 < p[a].slot < |st.mem| && 0 < st.mem[p[a].slot] <= MAX_SWAP_REF
  {
    EntryIn(p, a);
    if p[a].Present? {
      PinnedRef(st, p, t, p[a].frame);
    } else {
      SlotUsed(st, p, t, p[a].slot);
    }
  }

  lemma CowShrunk(p: Ptes, frames: seq<Frame>, frames': seq<Frame>)
    requires CowOk(p, frames) && Shrunk(frames, frames')
    ensures CowOk(p, frames')
  {
    UncachedCow(p, frames, frames');
  }

  lemma CowRefs(p: Ptes, frames: seq<Frame>, f: nat)
    requires CowOk(p, frames) && f < |frames|
    ensures CowOk(p, frames[f := frames[f].(ref := frames[f].ref + 1)])
  {
    CowSame(p, frames, frames[f := frames[f].(ref := frames[f].ref + 1)]);
  }

  /** Turning a present entry into the swap entry of its page keeps isolation. */
  lemma CowSwapOut(st: Swap, p: Ptes, t: Transit, a: Addr)
    requires Inv(st, p, t) && a in p && p[a].Present? && p[a].frame < |st.frames| && st.frames[p[a].frame].swap
    ensures CowOk(p[a := Swapped(st.frames[p[a].frame].index)], st.frames)
  {
    hide FramesOk, SlotsOk, ListsOk, OneAddress;
    var s := st.frames[p[a].frame].index;
    var p' := p[a := Swapped(s)];
    forall b, c | b in p' && c in p' && b != c && p'[b].Present? && p'[b].write
      ensures !SamePage(st.frames, p'[b], p'[c])
    {
      assert b != a && p'[b] == p[b];
      assert !SamePage(st.frames, p[b], p[c]);
    }
    SwapOutAddress(p, st.frames, st.cache, |st.mem|, a);
  }

  lemma SwapOutAddress(p: Ptes, frames: seq<Frame>, cache: map<nat, nat>, max: nat, a: Addr)
    requires OneAddress(p, frames) && CacheOk(frames, cache, max)
    requires a in p && p[a].Present? && p[a].frame < |frames| && frames[p[a].frame].swap
    ensures OneAddress(p[a := Swapped(frames[p[a].frame].index)], frames)
  {
    var p' := p[a := Swapped(frames[p[a].frame].index)];
    forall b, c | b in p' && c in p' && Meet(frames, p'[b], p'[c])
      ensures b.la == c.la
    {
      assert Meet(frames, p[b], p[c]) || Meet(frames, p[c], p[b]);
    }
  }

  /** Accessed and dirty bits, and giving up write permission, do not matter to the references. */
  lemma Retouch(st: Swap, p: Ptes, t: Transit, a: Addr, q: Pte)
    requires Inv(st, p, t) && a in p && p[a].Present? && q.Present? && q.frame == p[a].frame && (q.write ==> p[a].write)
    ensures Inv(st, p[a := q], t)
  {
    hide Inv, CowOk;
    CowRetouch(st, p, t, a, q);
    Reenter(st, p, t, a, q);
  }

  /** The same frame under other permissions, where copy-on-write allows them. */
  lemma Reenter(st: Swap, p: Ptes, t: Transit, a: Addr, q: Pte)
    requires Inv(st, p, t) && a in p && p[a].Present? && q.Present? && q.frame == p[a].frame && CowOk(p[a := q], st.frames)
    ensures Inv(st, p[a := q], t)
  {
    hide Inv, CowOk;
    DropOk(st, p, t, a);
    EntryFrame(st, p, t, a);
    assert (p - {a})[a := q] == p[a := q];
    PlaceOk(st, p - {a}, Dropped(t, p[a]), a, q);
    assert Placed(Dropped(t, p[a]), q) == t;
  }

  lemma CowRetouch(st: Swap, p: Ptes, t: Transit, a: Addr, q: Pte)
    requires Inv(st, p, t) && a in p && p[a].Present? && q.Present? && q.frame == p[a].frame && (q.write ==> p[a].write)
    ensures CowOk(p[a := q], st.frames)
  {
    var p' := p[a := q];
    forall b, c | b in p' && c in p' && b != c && p'[b].Present? && p'[b].write
      ensures !SamePage(st.frames, p'[b], p'[c])
    {
      assert !SamePage(st.frames, p[b], p[c]);
    }
    forall b, c | b in p' && c in p' && Meet(st.frames, p'[b], p'[c])
      ensures b.la == c.la
    {
      assert Meet(st.frames, p[b], p[c]);
    }
  }

  /** Mapping a page to which no other entry leads keeps isolation, whatever the permission. */
  lemma CowSole(p: Ptes, frames: seq<Frame>, a: Addr, q: Pte)
    requires CowOk(p, frames) && q.Present? && q.frame < |frames| && Refs(p, q.frame) <= {a}
    requires frames[q.frame].swap ==> Swaps(p, frames[q.frame].index) <= {a}
    ensures CowOk(p[a := q], frames)
  {
    var p' := p[a := q];
    forall b, c | b in p' && c in p' && b != c && p'[b].Present? && p'[b].write
      ensures !SamePage(frames, p'[b], p'[c])
    {
      if b != a && c != a {
        assert !SamePage(frames, p[b], p[c]);
      } else {
        var d := if b == a then c else b;
        EntryIn(p, d);
      }
    }
    forall b, c | b in p' && c in p' && Meet(frames, p'[b], p'[c])
      ensures b.la == c.la
    {
      if b != a && c != a {
        assert Meet(frames, p[b], p[c]);
      } else if b != c {
        EntryIn(p, if b == a then c else b);
        assert false;
      }
    }
  }

  /** Mapping a page read-only in place of its swap entry keeps isolation. */
  lemma CowReadOnly(p: Ptes, frames: seq<Frame>, a: Addr, q: Pte)
    requires CowOk(p, frames) && a in p && p[a].Swapped? && q.Present? && !q.write
    requires q.frame < |frames| && frames[q.frame].swap && frames[q.frame].index == p[a].slot
    ensures CowOk(p[a := q], frames)
  {
    var p' := p[a := q];
    forall b, c | b in p' && c in p' && b != c && p'[b].Present? && p'[b].write
      ensures !SamePage(frames, p'[b], p'[c])
    {
      assert !SamePage(frames, p[b], p[c]);
    }
    forall b, c | b in p' && c in p' && Meet(frames, p'[b], p'[c])
      ensures b.la == c.la
    {
      assert b == c || Meet(frames, p[b], p[c]) || Meet(frames, p[c], p[b]);
    }
  }

  /** One reference in all, present or swapped: the count test of the page fault handler. */
  lemma SoleReference(st: Swap, p: Ptes, t: Transit, a: Addr, f: nat)
    requires Inv(st, p, t) && f < |st.frames| && t.pins == multiset{} && t.extras == multiset{}
    requires st.frames[f].ref + (if st.frames[f].swap && st.frames[f].index < |st.mem| then st.mem[st.frames[f].index] else 0) <= 1
    requires a in p && (a in Refs(p, f) || (st.frames[f].swap && a in Swaps(p, st.frames[f].index)))
    ensures Refs(p, f) <= {a} && (st.frames[f].swap ==> Swaps(p, st.frames[f].index) <= {a})
  {
    var s := st.frames[f].index;
    if st.frames[f].swap {
      SlotUsed(st, p, t, s);
      if a in Refs(p, f) {
        Singleton(Refs(p, f), a);
        assert |Swaps(p, s)| == 0;
      } else {
        Singleton(Swaps(p, s), a);
        assert |Refs(p, f)| == 0;
      }
    } else {
      Singleton(Refs(p, f), a);
    }
  }

  lemma Singleton(s: set<Addr>, a: Addr)
    requires a in s && |s| <= 1
    ensures s == {a}
  {
    assert |s - {a}| == |s| - 1;
    assert s == (s - {a}) + {a};
  }

  /** The entry a fork gives the child, and leaves the parent: the same page, not writable. */
  function ParentEntry(q: Pte): Pte { if q.Present? then q.(write := false) else q }

  function ChildEntry(q: Pte): Pte { if q.Present? then Present(q.frame, false, false, false) else q }

  /** One more entry for a page that no entry can write keeps isolation. */
  lemma CowShare(p: Ptes, frames: seq<Frame>, a: Addr, b: Addr)
    requires CowOk(p, frames) && a in p && b !in p && b.la == a.la && (p[a].Present? ==> !p[a].write)
    ensures CowOk(p[b := ChildEntry(p[a])], frames)
  {
    var p' := p[b := ChildEntry(p[a])];
    forall c, d | c in p' && d in p' && c != d && p'[c].Present? && p'[c].write
      ensures !SamePage(frames, p'[c], p'[d])
    {
      assert c != b && c != a;
      assert !SamePage(frames, p[c], p[if d == b then a else d]);
    }
    forall c, d | c in p' && d in p' && Meet(frames, p'[c], p'[d])
      ensures c.la == d.la
    {
      assert c == d || Meet(frames, p[if c == b then a else c], p[if d == b then a else d]);
    }
  }

  /** The effect of copy_range at one address, and at a list of addresses. */
  function Forked(p: Ptes, from: Space, to: Space, la: nat): Ptes
  {
    var a, b := Addr(from, la), Addr(to, la);
    if a in p then p[a := ParentEntry(p[a])][b := ChildEntry(p[a])] else p
  }

  function ForkedAll(p: Ptes, from: Space, to: Space, las: seq<nat>): Ptes
  {
    if las == [] then p else Forked(ForkedAll(p, from, to, las[..|las| - 1]), from, to, las[|las| - 1])
  }

  lemma ForkedNone(p: Ptes, from: Space, to: Space, las: seq<nat>)
    ensures ForkedAll(p, from, to, las[..0]) == p
  {
    assert las[..0] == [];
  }

  /** One more address: nothing done so far concerns it. */
  lemma ForkedNext(p: Ptes, from: Space, to: Space, las: seq<nat>, n: nat)
    requires from != to && n < |las| && (forall i, j :: 0 <= i < j < |las| ==> las[i] != las[j])
    requires forall i :: 0 <= i < |las| ==> Addr(to, las[i]) !in p
    ensures var p' := ForkedAll(p, from, to, las[..n]);
      && Addr(to, las[n]) !in p' && (Addr(from, las[n]) in p' <==> Addr(from, las[n]) in p)
      && ForkedAll(p, from, to, las[..n + 1]) == Forked(p', from, to, las[n])
  {
    ForkShares(p, from, to, las[..n]);
    assert las[n] !in las[..n];
    assert las[..n + 1][..n] == las[..n];
  }

  /** After a fork the child reads exactly the parent's pages; neither can write them; all other entries stay. */
  lemma {:induction false} ForkShares(p: Ptes, from: Space, to: Space, las: seq<nat>)
    requires from != to && (forall i, j :: 0 <= i < j < |las| ==> las[i] != las[j])
    requires forall i :: 0 <= i < |las| ==> Addr(to, las[i]) !in p
    ensures var p' := ForkedAll(p, from, to, las);
      (forall i :: 0 <= i < |las| ==> ForkedAt(p, p', from, to, las[i])) &&
      (forall c: Addr :: !(c.mm in {from, to} && c.la in las) ==> (c in p' <==> c in p) && (c in p ==> p'[c] == p[c]))
  {
    if las != [] {
      var n := |las| - 1;
      ForkShares(p, from, to, las[..n]);
      var p1 := ForkedAll(p, from, to, las[..n]);
      var la := las[n];
      assert la !in las[..n];
      assert ForkedAt(p1, Forked(p1, from, to, la), from, to, la);
      forall i | 0 <= i < |las|
        ensures ForkedAt(p, ForkedAll(p, from, to, las), from, to, las[i])
      {
        if i < n {
          assert las[..n][i] == las[i];
          assert ForkedAt(p, p1, from, to, las[i]);
        }
      }
    }
  }

  predicate ForkedAt(p: Ptes, p': Ptes, from: Space, to: Space, la: nat)
  {
    var a, b := Addr(from, la), Addr(to, la);
    if a in p then a in p' && b in p' && p'[a] == ParentEntry(p[a]) && p'[b] == ChildEntry(p[a]) else a !in p' && b !in p'
  }

  // ---------- what the invariant says at rest ----------

  /** The counts of a page that an entry can write add up to that one entry. */
  lemma WritableSole(st: Swap, p: Ptes, a: Addr)
    requires Inv(st, p, REST) && a in p && p[a].Present? && p[a].write
    ensures var f := p[a].frame;
      f < |st.frames| && st.frames[f].ref == 1 && Refs(p, f) == {a} &&
      (st.frames[f].swap ==> 0 < st.frames[f].index < |st.mem| && st.mem[st.frames[f].index] == 0)
  {
    var f := p[a].frame;
    EntryIn(p, a);
    forall b | b in Refs(p, f)
      ensures b == a
    {
      assert b != a ==> !SamePage(st.frames, p[a], p[b]);
    }
    assert Refs(p, f) == {a};
    if st.frames[f].swap {
      var s := st.frames[f].index;
      forall b | b in p
        ensures b !in Swaps(p, s)
      {
        assert b == a || !SamePage(st.frames, p[a], p[b]);
      }
      assert Swaps(p, s) == {};
      SlotUsed(st, p, REST, s);
    }
  }

  /** Entries with one page address are no more than the address spaces. */
  lemma {:induction false} SpacesSize(s: set<Addr>)
    ensures (forall a, b :: a in s && b in s ==> a.la == b.la) ==> |set a | a in s :: a.mm| == |s|
  {
    if s != {} && forall a, b :: a in s && b in s ==> a.la == b.la {
      var x :| x in s;
      var r := s - {x};
      SpacesSize(r);
      var mms := set a | a in r :: a.mm;
      assert x.mm !in mms by {
        assert forall a :: a in r ==> a.la == x.la && a != x;
      }
      assert (set a | a in s :: a.mm) == mms + {x.mm};
    } else if s == {} {
      assert (set a | a in s :: a.mm) == {};
    }
  }

  lemma FewSpaces(s: set<Addr>)
    requires forall a, b :: a in s && b in s ==> a.la == b.la
    ensures |s| <= MAX_SPACES
  {
    SpacesSize(s);
    var mms: set<nat> := set a | a in s :: a.mm;
    SubsetSize(mms, Below(MAX_SPACES));
  }

  /** No slot's count comes near its limit: the assertion of swap_duplicate always holds. */
  lemma SlotNeverFull(st: Swap, p: Ptes, s: nat)
    requires Inv(st, p, REST) && 0 < s < |st.mem| && st.mem[s] != SWAP_UNUSED
    ensures st.mem[s] == |Swaps(p, s)| <= MAX_SPACES < MAX_SWAP_REF
  {
    assert SlotOk(|Swaps(p, s)| + REST.extras[s], st.mem[s], s in st.cache);
    forall a, b | a in Swaps(p, s) && b in Swaps(p, s)
      ensures a.la == b.la
    {
      assert Meet(st.frames, p[a], p[b]);
    }
    FewSpaces(Swaps(p, s));
  }

  /** Nothing free is referenced: not a free frame, not an unused slot. */
  lemma FreeUnreferenced(st: Swap, p: Ptes, a: Addr)
    requires Inv(st, p, REST) && a in p
    ensures p[a].Present? ==> p[a].frame !in st.free
    ensures p[a].Swapped? ==> 0 < p[a].slot < |st.mem| && st.mem[p[a].slot] != SWAP_UNUSED
  {
    EntryFrame(st, p, REST, a);
  }
}
