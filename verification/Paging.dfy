/**
 Private mappings under demand paging, copy-on-write and swapping: the parts of
 mm/swap.c, glue-ucore/pmm.c and do_pgfault that move references between page
 table entries, page frames and swap slots. Each method is one atomic step.
 */
module Paging {
  import opened Lists
  import opened PagingCore

  function UpTo(n: nat): (s: set<nat>)
    ensures forall f: nat :: f in s <==> f < n
  {
    if n == 0 then {} else UpTo(n - 1) + {n - 1}
  }

  const HASH_LIST_SIZE: nat := 1024

  /** entry_hashfn of the entry for a slot: hash32 on 32-bit words, its 10 highest bits. */
  function HashFn(s: nat): (h: nat)
    ensures h < HASH_LIST_SIZE
  {
    (s * 256 * 0x9e370001 % 0x1_0000_0000) / 0x40_0000
  }

  /** Page `f` is cached for an entry with hash value `h`. */
  ghost predicate CachedIn(cache: map<nat, nat>, h: nat, f: nat)
  {
    exists s :: s in cache && HashFn(s) == h && cache[s] == f
  }

  /** Each hash list holds, once, exactly the pages cached for the entries with its hash value. */
  ghost predicate HashOk(hash: seq<seq<nat>>, cache: map<nat, nat>)
  {
    |hash| == HASH_LIST_SIZE &&
    (forall h :: 0 <= h < |hash| ==> NoDup(hash[h]) && forall f :: f in hash[h] ==> CachedIn(cache, h, f)) &&
    (forall s :: s in cache ==> cache[s] in hash[HashFn(s)])
  }

  lemma InvCache(st: Swap, p: Ptes, t: Transit)
    requires Inv(st, p, t)
    ensures CacheOk(st.frames, st.cache, |st.mem|)
  {
  }

  lemma HashAdd(hash: seq<seq<nat>>, cache: map<nat, nat>, frames: seq<Frame>, max: nat, f: nat, s: nat)
    requires HashOk(hash, cache) && CacheOk(frames, cache, max) && f < |frames| && !frames[f].swap && s !in cache
    ensures |hash| == HASH_LIST_SIZE && HashOk(hash[HashFn(s) := [f] + hash[HashFn(s)]], cache[s := f])
  {
    hide HashFn;
    var hash', cache' := hash[HashFn(s) := [f] + hash[HashFn(s)]], cache[s := f];
    forall h | 0 <= h < |hash'|
      ensures NoDup(hash'[h]) && forall g :: g in hash'[h] ==> CachedIn(cache', h, g)
    {
      assert forall g :: g in hash[h] ==> CachedIn(cache, h, g);
      NoDupPush(hash[h], f);
      forall g | g in hash'[h]
        ensures CachedIn(cache', h, g)
      {
        if g in hash[h] {
          var k :| k in cache && HashFn(k) == h && cache[k] == g;
          assert cache'[k] == g;
        } else {
          assert cache'[s] == g;
        }
      }
    }
  }

  lemma HashDel(hash: seq<seq<nat>>, cache: map<nat, nat>, frames: seq<Frame>, max: nat, f: nat)
    requires HashOk(hash, cache) && CacheOk(frames, cache, max) && f < |frames| && frames[f].swap
    ensures |hash| == HASH_LIST_SIZE
    ensures var s := frames[f].index; HashOk(hash[HashFn(s) := Without(hash[HashFn(s)], f)], cache - {s})
  {
    hide HashFn;
    var s := frames[f].index;
    var hash', cache' := hash[HashFn(s) := Without(hash[HashFn(s)], f)], cache - {s};
    WithoutOk(hash[HashFn(s)], f);
    forall h | 0 <= h < |hash'|
      ensures NoDup(hash'[h]) && forall g :: g in hash'[h] ==> CachedIn(cache', h, g)
    {
      forall g | g in hash'[h]
        ensures CachedIn(cache', h, g)
      {
        assert CachedIn(cache, h, g);
        var k :| k in cache && HashFn(k) == h && cache[k] == g;
        assert k != s;
        assert cache'[k] == g;
      }
    }
  }

  /** Some slot is unused, or kept only for its cached page. */
  ghost predicate SlotLeft(mem: seq<nat>)
  {
    exists k :: 0 < k < |mem| && (mem[k] == SWAP_UNUSED || mem[k] == 0)
  }

  datatype FaultResult = Ok | Inval | NoMem | SwapFault

  class Pager {
    var ptes: Ptes
    var frames: seq<Frame>
    var free: set<nat>
    /** mem_map, indexed by swap offset; offset 0 is never used. */
    var mem: seq<nat>
    /** hash_list: the cached pages, one list per hash value of their swap entry. */
    var hash: seq<seq<nat>>
    /** The hash lists as a dictionary from swap entry to the page cached for it. */
    ghost var cache: map<nat, nat>
    var active: seq<nat>
    var inactive: seq<nat>
    var next: nat

    ghost function St(): Swap
      reads this`frames, this`free, this`mem, this`cache, this`active, this`inactive
    {
      Swap(frames, free, mem, cache, active, inactive)
    }

    /** The invariant for entries `p` while an operation has `t` in its hands. */
    ghost predicate Good(p: Ptes, t: Transit)
      reads this`frames, this`free, this`mem, this`cache, this`hash, this`active, this`inactive, this`next
    {
      Inv(St(), p, t) && 0 < next < |mem| && HashOk(hash, cache)
    }

    ghost predicate Valid()
      reads this
    {
      Good(ptes, REST)
    }

    /** swap_init over `n` free frames and `max` swap slots. */
    constructor (n: nat, max: nat)
      requires max >= 512
      ensures Valid() && ptes == map[] && |frames| == n && |mem| == max && free == UpTo(n)
      ensures forall k :: 0 <= k < max ==> mem[k] == SWAP_UNUSED
    {
      ptes, cache, active, inactive, next := map[], map[], [], [], 1;
      frames := seq(n, i => Frame(0, false, 0, false, false));
      free := UpTo(n);
      hash := seq(HASH_LIST_SIZE, i => []);
      mem := seq(max, i => SWAP_UNUSED);
      new;
      hide HashOk, Inv;
      StartInv(St(), n);
      StartHash(hash);
    }

    // ---------- frames and lists ----------

    method RefInc(f: nat)
      requires f < |frames|
      modifies this`frames
      ensures St() == IncRef(old(St()), f)
    {
      frames := frames[f := frames[f].(ref := frames[f].ref + 1)];
    }

    method RefDec(f: nat)
      requires f < |frames| && frames[f].ref > 0
      modifies this`frames
      ensures St() == DecRef(old(St()), f)
    {
      frames := frames[f := frames[f].(ref := frames[f].ref - 1)];
    }

    /** alloc_page: some free frame, or none (-1). */
    method AllocPage(ghost p: Ptes, ghost t: Transit) returns (f: int)
      requires Good(p, t)
      modifies this`free
      ensures f == -1 ==> Good(p, t) && free == {} && free == old(free)
      ensures f != -1 ==> f in old(free) && free == old(free) - {f}
      ensures f != -1 ==> 0 <= f < |frames| && f !in t.held && Good(p, t.(held := t.held + {f}))
      ensures f != -1 ==> frames[f].ref == 0 && !frames[f].swap && f !in t.pins && Refs(p, f) == {}
    {
      hide HashOk, Inv, Refs;
      if free == {} {
        f := -1;
      } else {
        f :| f in free;
        AllocOk(St(), p, t, f);
        free := free - {f};
      }
    }

    /** free_page. */
    method FreePage(f: nat, ghost p: Ptes, ghost t: Transit)
      requires Good(p, t) && f < |frames| && frames[f].ref == 0 && !frames[f].swap && f in t.held
      modifies this`free
      ensures Good(p, t.(held := t.held - {f})) && free == old(free) + {f}
    {
      hide HashOk, Inv;
      FreeOk(St(), p, t, f);
      free := free + {f};
    }

    /** swap_list_del. */
    method SwapListDel(f: nat)
      requires f < |frames|
      modifies this`active, this`inactive
      ensures St() == ListDel(old(St()), f)
    {
      if frames[f].active {
        active := Without(active, f);
      } else {
        inactive := Without(inactive, f);
      }
    }

    /** swap_active_list_add and swap_inactive_list_add. */
    method SwapListAdd(f: nat, which: bool)
      requires f < |frames|
      modifies this`frames, this`active, this`inactive
      ensures St() == ListAdd(old(St()), f, which)
    {
      frames := frames[f := frames[f].(active := which)];
      if which {
        active := active + [f];
      } else {
        inactive := inactive + [f];
      }
    }

    /** swap_hash_find: walks one hash list to the page cached for an entry, or to none (-1). */
    method SwapHashFind(s: nat, ghost p: Ptes, ghost t: Transit) returns (f: int)
      requires Good(p, t)
      ensures f != -1 ==> 0 <= f < |frames| && frames[f].swap && frames[f].index == s
      ensures f == -1 ==> forall g: nat :: g < |frames| && frames[g].swap ==> frames[g].index != s
      ensures f == if s in cache then cache[s] else -1
    {
      hide Inv, HashFn;
      InvCache(St(), p, t);
      var list := hash[HashFn(s)];
      for i := 0 to |list|
        invariant forall k :: 0 <= k < i ==> list[k] < |frames| && frames[list[k]].index != s
      {
        assert CachedIn(cache, HashFn(s), list[i]);
        if frames[list[i]].index == s {
          return list[i];
        }
      }
      f := -1;
    }

    /** swap_page_del followed by giving up a slot that nothing refers to. */
    method SwapPageDel(f: nat, ghost p: Ptes, ghost t: Transit)
      requires Good(p, t) && f < |frames| && frames[f].swap && t.off == f
      modifies this`frames, this`cache, this`hash, this`mem
      ensures Good(p, t.(off := -1, held := t.held + {f}))
      ensures frames == old(frames)[f := old(frames)[f].(swap := false)]
      ensures 0 < old(frames)[f].index < |old(mem)| && cache == old(cache) - {old(frames)[f].index}
      ensures var s := old(frames)[f].index; mem == if old(mem)[s] == 0 then old(mem)[s := SWAP_UNUSED] else old(mem)
    {
      hide HashOk, Inv;
      UncachedOk(St(), p, t, f);
      InvCache(St(), p, t);
      ghost var frames0 := frames;
      var s := frames[f].index;
      frames := frames[f := frames[f].(swap := false)];
      HashDel(hash, cache, frames0, |mem|, f);
      hash := hash[HashFn(s) := Without(hash[HashFn(s)], f)];
      cache := cache - {s};
      if mem[s] == 0 {
        mem := mem[s := SWAP_UNUSED];
      }
    }

    // ---------- entries ----------

    /** swap_remove_entry: gives up one reference to a slot. */
    method SwapRemoveEntry(s: nat, ghost p: Ptes, ghost t: Transit)
      requires Good(p, t) && s in t.extras && 0 < s < |mem| && t.off == -1 && HeldOk(frames, t)
      modifies this`frames, this`free, this`mem, this`cache, this`hash, this`active, this`inactive
      ensures Good(p, t.(extras := t.extras - multiset{s})) && HeldOk(frames, t)
      ensures Shrunk(old(frames), frames) && |mem| == |old(mem)|
      ensures forall f: nat :: f < |frames| && old(frames)[f].ref > 0 ==> frames[f] == old(frames)[f]
    {
      hide HashOk, Inv;
      SlotUsed(St(), p, t, s);
      ghost var t1 := t.(extras := t.extras - multiset{s});
      assert mem[s] > 0;
      var page := SwapHashFind(s, p, t);
      if page != -1 {
        CachedFrame(St(), p, t, s);
      }
      if mem[s] > 1 || page != -1 {
        SlotDecOk(St(), p, t, s);
        mem := mem[s := mem[s] - 1];
        if mem[s] == 0 && frames[page].ref == 0 {
          DropCached(page, s, p, t1);
        }
      } else {
        SlotFreeOk(St(), p, t, s);
        mem := mem[s := SWAP_UNUSED];
      }
    }

    /** swap_list_del and swap_free_page on a cached page that nothing maps. */
    method DropCached(f: nat, s: nat, ghost p: Ptes, ghost t: Transit)
      requires Good(p, t) && s in cache && cache[s] == f && f < |frames| && frames[f].ref == 0 && t.off == -1 && HeldOk(frames, t)
      modifies this`frames, this`free, this`mem, this`cache, this`hash, this`active, this`inactive
      ensures Good(p, t) && HeldOk(frames, t) && |mem| == |old(mem)|
      ensures frames == old(frames)[f := old(frames)[f].(swap := false)]
    {
      hide HashOk, Inv;
      CachedFrame(St(), p, t, s);
      ListDelOk(St(), p, t, f);
      SwapListDel(f);
      ghost var t1 := t.(off := f);
      SwapPageDel(f, p, t1);
      ghost var t2 := t1.(off := -1, held := t.held + {f});
      FreePage(f, p, t2);
      assert t2.(held := t2.held - {f}) == t;
    }

    /** The present case of page_remove_pte: gives up one reference to a frame. */
    method UnmapFrame(f: nat, dirty: bool, ghost p: Ptes, ghost t: Transit)
      requires f < |frames| && Good(p, t.(pins := t.pins + multiset{f})) && frames[f].ref > 0 && HeldOk(frames, t)
      modifies this`frames, this`free
      ensures Good(p, t) && |frames| == |old(frames)|
      ensures frames == old(frames)[f := frames[f]] && frames[f].ref == old(frames)[f].ref - 1
      ensures frames[f].swap == old(frames)[f].swap && frames[f].index == old(frames)[f].index
    {
      hide HashOk, Inv;
      ghost var t1 := t.(pins := t.pins + multiset{f});
      NoteDirty(f, dirty, p, t1);
      DropPin(f, p, t);
      ghost var t2 := t.(held := t.held + {f});
      if !frames[f].swap && frames[f].ref == 0 {
        FreePage(f, p, t2);
      } else {
        Unhold(St(), p, t2, f);
      }
      assert t2.(held := t2.held - {f}) == t;
    }

    /** A cached page takes over the dirty bit of an entry. */
    method NoteDirty(f: nat, dirty: bool, ghost p: Ptes, ghost t: Transit)
      requires f < |frames| && Good(p, t)
      modifies this`frames
      ensures Good(p, t) && |frames| == |old(frames)| && frames == old(frames)[f := old(frames)[f].(dirty := frames[f].dirty)]
    {
      hide HashOk, Inv;
      if frames[f].swap && dirty {
        SetDirtyOk(St(), p, t, f);
        frames := frames[f := frames[f].(dirty := true)];
      }
    }

    /** page_ref_dec with a reference in hand. */
    method DropPin(f: nat, ghost p: Ptes, ghost t: Transit)
      requires f < |frames| && Good(p, t.(pins := t.pins + multiset{f})) && frames[f].ref > 0
      modifies this`frames
      ensures Good(p, t.(held := t.held + {f})) && frames == old(frames)[f := old(frames)[f].(ref := old(frames)[f].ref - 1)]
    {
      hide HashOk, Inv;
      ghost var t1 := t.(pins := t.pins + multiset{f});
      DecRefOk(St(), p, t1, f);
      RefDec(f);
      assert t1.(pins := t1.pins - multiset{f}, held := t1.held + {f}) == t.(held := t.held + {f});
    }

    /** page_remove_pte on an entry that is not invalid. */
    method PageRemovePte(a: Addr, ghost t: Transit)
      requires Good(ptes, t) && a in ptes && t.off == -1 && HeldOk(frames, t)
      modifies this`ptes, this`frames, this`free, this`mem, this`cache, this`hash, this`active, this`inactive
      ensures ptes == old(ptes) - {a} && Good(ptes, t) && HeldOk(frames, t)
      ensures Shrunk(old(frames), frames) && |frames| == |old(frames)| && |mem| == |old(mem)|
      ensures forall f: nat :: f < |frames| && old(frames)[f].ref > 0 ==>
        frames[f].swap == old(frames)[f].swap && frames[f].index == old(frames)[f].index
    {
      hide HashOk, Inv;
      EntryFrame(St(), ptes, t, a);
      DropOk(St(), ptes, t, a);
      ghost var p, t1 := ptes - {a}, Dropped(t, ptes[a]);
      match ptes[a]
      case Present(f, _, _, dirty) =>
        UnmapFrame(f, dirty, p, t);
        ptes := ptes - {a};
      case Swapped(s) =>
        SwapRemoveEntry(s, p, t1);
        assert t1.(extras := t1.extras - multiset{s}) == t;
        ptes := ptes - {a};
    }

    /** page_insert; `hasTable` is false when no page table could be set up for the address. */
    method PageInsert(a: Addr, page: nat, write: bool, accessed: bool, dirty: bool, hasTable: bool, ghost t: Transit)
      returns (ok: bool)
      requires Good(ptes, t) && t.off == -1 && HeldOk(frames, t) && page < |frames| && page !in free
      requires CowOk(ptes[a := Present(page, write, accessed, dirty)], frames)
      modifies this`ptes, this`frames, this`free, this`mem, this`cache, this`hash, this`active, this`inactive
      ensures ok == hasTable && |frames| == |old(frames)|
      ensures !ok ==> ptes == old(ptes) && St() == old(St())
      ensures ok ==> ptes == old(ptes)[a := Present(page, write, accessed, dirty)]
      ensures ok ==> Good(ptes, t.(held := t.held - {page})) && HeldOk(frames, t.(held := t.held - {page}))
      ensures frames[page].swap == old(frames)[page].swap && frames[page].index == old(frames)[page].index
    {
      hide HashOk, Inv, CowOk, HeldOk;
      if !hasTable {
        return false;
      }
      ok := true;
      if a in ptes && ptes[a].Present? && ptes[a].frame == page {
        InsertSame(a, page, write, accessed, dirty, t);
      } else {
        InsertOther(a, page, write, accessed, dirty, t);
      }
    }

    /** page_insert of the page the entry already maps: its extra reference is given back. */
    method InsertSame(a: Addr, page: nat, write: bool, accessed: bool, dirty: bool, ghost t: Transit)
      requires Good(ptes, t) && HeldOk(frames, t) && a in ptes && ptes[a].Present? && ptes[a].frame == page
      requires CowOk(ptes[a := Present(page, write, accessed, dirty)], frames)
      modifies this`ptes, this`frames
      ensures ptes == old(ptes)[a := Present(page, write, accessed, dirty)] && frames == old(frames)
      ensures Good(ptes, t.(held := t.held - {page})) && HeldOk(frames, t.(held := t.held - {page}))
    {
      hide HashOk, Inv, CowOk, Refs, Swaps;
      EntryFrame(St(), ptes, t, a);
      Reenter(St(), ptes, t, a, Present(page, write, accessed, dirty));
      RefInc(page);
      RefDec(page);
      assert frames == old(frames);
      assert t.(held := t.held - {page}) == t;
      ptes := ptes[a := Present(page, write, accessed, dirty)];
    }

    /** page_insert in place of nothing, a swap entry or another page. */
    method InsertOther(a: Addr, page: nat, write: bool, accessed: bool, dirty: bool, ghost t: Transit)
      requires Good(ptes, t) && t.off == -1 && HeldOk(frames, t) && page < |frames| && page !in free
      requires !(a in ptes && ptes[a].Present? && ptes[a].frame == page)
      requires CowOk(ptes[a := Present(page, write, accessed, dirty)], frames)
      modifies this`ptes, this`frames, this`free, this`mem, this`cache, this`hash, this`active, this`inactive
      ensures ptes == old(ptes)[a := Present(page, write, accessed, dirty)] && |frames| == |old(frames)|
      ensures Good(ptes, t.(held := t.held - {page})) && HeldOk(frames, t.(held := t.held - {page}))
      ensures frames[page].swap == old(frames)[page].swap && frames[page].index == old(frames)[page].index
    {
      hide HashOk, Inv, CowOk, Shrunk, Refs, Swaps, HeldOk;
      ghost var q := Present(page, write, accessed, dirty);
      ghost var p := ptes - {a};
      assert p[a := q] == ptes[a := q];
      ghost var t0 := t.(held := t.held - {page});
      ghost var t1 := t0.(pins := t.pins + multiset{page});
      CowRefs(ptes[a := q], frames, page);
      Pin(page, ptes, t);
      if a in ptes {
        ghost var was := frames;
        PageRemovePte(a, t1);
        CowShrunk(p[a := q], was, frames);
      }
      assert ptes == p;
      PlaceOk(St(), p, t1, a, q);
      assert Placed(t1, q) == t0;
      HeldPins(frames, t1, t0);
      ptes := ptes[a := Present(page, write, accessed, dirty)];
    }

    /** page_ref_inc on a page about to be mapped. */
    method Pin(page: nat, ghost p: Ptes, ghost t: Transit)
      requires Good(p, t) && HeldOk(frames, t) && page < |frames| && page !in free
      modifies this`frames
      ensures frames == old(frames)[page := old(frames)[page].(ref := old(frames)[page].ref + 1)]
      ensures var t1 := t.(held := t.held - {page}, pins := t.pins + multiset{page}); Good(p, t1) && HeldOk(frames, t1)
    {
      hide HashOk, Inv;
      IncRefOk(St(), p, t, page);
      RefInc(page);
      Unhold(St(), p, t.(pins := t.pins + multiset{page}), page);
    }

    // ---------- swap entries ----------

    /** The scan of try_alloc_swap_entry: once around from `next`, stopping at an unused slot. */
    method ScanSlots() returns (empty: nat, zero: nat)
      requires 0 < next < |mem|
      modifies this`next
      ensures 0 < next < |mem| && empty < |mem| && zero < |mem|
      ensures empty != 0 ==> mem[empty] == SWAP_UNUSED
      ensures empty == 0 ==> forall k :: 0 < k < |mem| ==> mem[k] != SWAP_UNUSED
      ensures zero != 0 ==> mem[zero] == 0
      ensures empty == 0 && zero == 0 ==> forall k :: 0 < k < |mem| ==> mem[k] != 0
    {
      var end := next;
      empty, zero := 0, 0;
      ghost var wrapped := false;
      var going := true;
      while going
        invariant 0 < next < |mem| && empty < |mem| && zero < |mem| && 0 < end < |mem|
        invariant empty != 0 ==> mem[empty] == SWAP_UNUSED
        invariant zero != 0 ==> mem[zero] == 0
        invariant if wrapped then next <= end else end <= next
        invariant going ==> empty == 0 && (wrapped ==> next < end)
        invariant !going && empty == 0 ==> wrapped && next == end
        invariant empty == 0 ==> forall k :: Scanned(k, end, next, |mem|, wrapped) ==> mem[k] != SWAP_UNUSED && (zero == 0 ==> mem[k] != 0)
        decreases going, if wrapped then end - next else |mem| + end - next
      {
        if mem[next] == SWAP_UNUSED {
          empty := next;
        } else if mem[next] == 0 && zero == 0 {
          zero := next;
        }
        next := next + 1;
        if next == |mem| {
          next := 1;
          wrapped := true;
        }
        going := empty == 0 && next != end;
      }
    }

    /** try_alloc_swap_entry: an unused slot, if need be one whose cached page has no swap references. */
    method TryAllocSwapEntry(ghost p: Ptes, ghost t: Transit) returns (s: nat)
      requires Good(p, t) && t.off == -1 && HeldOk(frames, t)
      modifies this`frames, this`free, this`mem, this`cache, this`hash, this`active, this`inactive, this`next
      ensures Good(p, t) && HeldOk(frames, t) && Shrunk(old(frames), frames) && |mem| == |old(mem)|
      ensures forall f: nat :: f < |frames| ==> frames[f].ref == old(frames)[f].ref
      ensures s != 0 ==> 0 < s < |mem| && mem[s] == SWAP_UNUSED
      ensures s == 0 <==> !SlotLeft(old(mem))
      ensures s == 0 ==> St() == old(St())
    {
      hide HashOk, Inv;
      var empty, zero := ScanSlots();
      s := empty;
      if empty == 0 && zero != 0 {
        s := zero;
        Evict(zero, p, t);
      }
    }

    /** The slot of a cached page without swap references is taken back. */
    method Evict(s: nat, ghost p: Ptes, ghost t: Transit)
      requires Good(p, t) && t.off == -1 && HeldOk(frames, t) && 0 < s < |mem| && mem[s] == 0
      modifies this`frames, this`free, this`mem, this`cache, this`hash, this`active, this`inactive
      ensures Good(p, t) && HeldOk(frames, t) && Shrunk(old(frames), frames) && mem == old(mem)[s := SWAP_UNUSED]
      ensures forall f: nat :: f < |frames| ==> frames[f].ref == old(frames)[f].ref
    {
      hide HashOk, Inv;
      ZeroCached(St(), p, t, s);
      var page := SwapHashFind(s, p, t);
      assert page != -1 && frames[page].swap;
      ListDelOk(St(), p, t, page);
      SwapListDel(page);
      ghost var t1 := t.(off := page);
      SwapPageDel(page, p, t1);
      ghost var t2 := t.(held := t.held + {page});
      assert t1.(off := -1, held := t1.held + {page}) == t2;
      if frames[page].ref == 0 {
        FreePage(page, p, t2);
      } else {
        Unhold(St(), p, t2, page);
      }
      assert t2.(held := t2.held - {page}) == t;
    }

    /** swap_page_add with a new entry, and the page put on the active list. */
    method SwapPageAddNew(f: nat, ghost p: Ptes, ghost t: Transit) returns (ok: bool)
      requires Good(p, t) && t.off == -1 && HeldOk(frames, t) && f < |frames| && !frames[f].swap && frames[f].ref > 0
      modifies this`frames, this`free, this`mem, this`cache, this`hash, this`active, this`inactive, this`next
      ensures Good(p, t) && HeldOk(frames, t) && |frames| == |old(frames)| && |mem| == |old(mem)|
      ensures forall g: nat :: g < |frames| ==> frames[g].ref == old(frames)[g].ref
      ensures ok <==> frames[f].swap
      ensures ok <==> SlotLeft(old(mem))
      ensures ok ==> 0 < frames[f].index < |mem| && mem[frames[f].index] == 0
    {
      hide HashOk, Inv;
      var s := TryAllocSwapEntry(p, t);
      if s == 0 {
        return false;
      }
      UnusedSlot(St(), p, t, s);
      NotFree(St(), p, t, f);
      assert mem[s] == SWAP_UNUSED;
      SwapPageAdd(f, s, p, t);
      ok := true;
    }

    /** swap_page_add for a given entry, and the page put on the active list. */
    method SwapPageAdd(f: nat, s: nat, ghost p: Ptes, ghost t: Transit)
      requires Good(p, t) && t.off == -1 && f < |frames| && !frames[f].swap && f !in free
      requires 0 < s < |mem| && s !in cache && (Swaps(p, s) == {} || Refs(p, f) == {})
      modifies this`frames, this`mem, this`cache, this`hash, this`active, this`inactive
      ensures Good(p, t) && |frames| == |old(frames)|
      ensures frames == old(frames)[f := old(frames)[f].(swap := true, index := s, active := true, dirty := frames[f].dirty)]
      ensures mem == if old(mem)[s] == SWAP_UNUSED then old(mem)[s := 0] else old(mem)
      ensures cache == old(cache)[s := f]
    {
      hide HashOk, Inv, Swaps, Refs;
      if mem[s] == SWAP_UNUSED {
        SetDirtyOk(St(), p, t, f);
        frames := frames[f := frames[f].(dirty := true)];
      }
      CachedOk(St(), p, t, f, s);
      ghost var t1 := t.(off := f);
      InvCache(St(), p, t);
      HashAdd(hash, cache, frames, |mem|, f, s);
      frames := frames[f := frames[f].(swap := true, index := s)];
      hash := hash[HashFn(s) := [f] + hash[HashFn(s)]];
      cache := cache[s := f];
      if mem[s] == SWAP_UNUSED {
        mem := mem[s := 0];
      }
      ListAddOk(St(), p, t1, f, true);
      SwapListAdd(f, true);
      assert t1.(off := -1) == t;
    }

    /** swap_in_page: the page for a swap entry, from the cache or read into a new frame.
        `readOk` is whether reading the swap device succeeds. */
    method SwapInPage(s: nat, readOk: bool, ghost t: Transit) returns (page: int, err: FaultResult)
      requires Good(ptes, t) && t.off == -1 && HeldOk(frames, t) && 0 < s < |mem| && Swaps(ptes, s) != {}
      modifies this`frames, this`free, this`mem, this`cache, this`hash, this`active, this`inactive
      ensures Good(ptes, t) && HeldOk(frames, t) && |frames| == |old(frames)| && mem == old(mem)
      ensures page != -1 ==> 0 <= page < |frames| && s in cache && cache[s] == page && frames[page].swap && frames[page].index == s
      ensures page == -1 ==> St() == old(St()) && err == if free == {} then NoMem else SwapFault
      ensures page == -1 <==> s !in old(cache) && (old(free) == {} || !readOk)
      ensures s in old(cache) ==> page == old(cache)[s] && St() == old(St())
      ensures page != -1 && s !in old(cache) ==> frames[page].ref == 0
    {
      hide HashOk, Inv, Swaps, Refs;
      SlotUsed(St(), ptes, t, s);
      err := Ok;
      page := SwapHashFind(s, ptes, t);
      if page != -1 {
        CachedFrame(St(), ptes, t, s);
        return;
      }
      var newpage := AllocPage(ptes, t);
      if newpage == -1 {
        return -1, NoMem;
      }
      ghost var t1 := t.(held := t.held + {newpage});
      if !readOk {
        FreePage(newpage, ptes, t1);
        assert t1.(held := t1.held - {newpage}) == t;
        assert free == old(free);
        return -1, SwapFault;
      }
      NotFree(St(), ptes, t1, newpage);
      SwapPageAdd(newpage, s, ptes, t1);
      Unhold(St(), ptes, t1, newpage);
      assert t1.(held := t1.held - {newpage}) == t;
      page := newpage;
    }

    /** One entry in swap_out_vma: an entry not accessed lately turns into a swap entry. */
    method SwapOutPte(a: Addr) returns (done: bool)
      requires Valid()
      modifies this
      ensures Valid() && |frames| == |old(frames)|
      ensures a in old(ptes) && old(ptes)[a].Present? ==> old(ptes)[a].frame < |frames|
      ensures done <==> (a in old(ptes) && old(ptes)[a].Present? && !old(ptes)[a].accessed &&
        (old(frames)[old(ptes)[a].frame].swap || SlotLeft(old(mem))))
      ensures done ==> frames[old(ptes)[a].frame].swap && ptes == old(ptes)[a := Swapped(frames[old(ptes)[a].frame].index)]
      ensures done && old(frames)[old(ptes)[a].frame].swap ==> frames[old(ptes)[a].frame].index == old(frames)[old(ptes)[a].frame].index
      ensures !done ==> ptes == if a in old(ptes) && old(ptes)[a].Present? && old(ptes)[a].accessed
        then old(ptes)[a := old(ptes)[a].(accessed := false)] else old(ptes)
    {
      hide HashOk, Inv;
      if a !in ptes || !ptes[a].Present? {
        return false;
      }
      EntryFrame(St(), ptes, REST, a);
      var f := ptes[a].frame;
      if ptes[a].accessed {
        var q := ptes[a].(accessed := false);
        Retouch(St(), ptes, REST, a, q);
        ptes := ptes[a := q];
        return false;
      }
      if !frames[f].swap {
        var ok := SwapPageAddNew(f, ptes, REST);
        if !ok {
          return false;
        }
      } else {
        CachedIndex(St(), ptes, REST, f);
        if ptes[a].dirty {
          SetDirtyOk(St(), ptes, REST, f);
          frames := frames[f := frames[f].(dirty := true)];
        }
      }
      SwapOutCached(a, f);
      done := true;
    }

    /** The references move from the frame to its slot. */
    method SwapOutCached(a: Addr, f: nat)
      requires Valid() && a in ptes && ptes[a].Present? && ptes[a].frame == f && f < |frames| && frames[f].swap && frames[f].ref > 0
      modifies this`ptes, this`mem, this`frames
      ensures Valid() && |frames| == |old(frames)| && frames[f].swap && frames[f].index == old(frames)[f].index
      ensures ptes == old(ptes)[a := Swapped(old(frames)[f].index)]
    {
      hide HashOk, Inv, CowOk;
      var s := frames[f].index;
      CachedIndex(St(), ptes, REST, f);
      SlotNeverFull(St(), ptes, s);
      CowSwapOut(St(), ptes, REST, a);
      ghost var p, t1 := ptes - {a}, REST.(extras := multiset{s});
      assert REST.extras + multiset{s} == multiset{s};
      SlotIncOk(St(), ptes, REST, s);
      mem := mem[s := mem[s] + 1];
      DropOk(St(), ptes, t1, a);
      ghost var t2 := t1.(pins := multiset{f});
      assert Dropped(t1, ptes[a]) == t2;
      DecRefOk(St(), p, t2, f);
      ghost var was := frames;
      RefDec(f);
      assert t2.(pins := t2.pins - multiset{f}, held := t2.held + {f}) == t1.(held := {f});
      Unhold(St(), p, t1.(held := {f}), f);
      assert t1.(held := {f}).(held := t1.(held := {f}).held - {f}) == t1;
      assert p[a := Swapped(s)] == ptes[a := Swapped(s)];
      CowSame(p[a := Swapped(s)], was, frames);
      PlaceOk(St(), p, t1, a, Swapped(s));
      assert Placed(t1, Swapped(s)) == REST;
      ptes := ptes[a := Swapped(s)];
    }

    // ---------- page faults ----------

    /** pgdir_alloc_page at an address without entry. */
    method PgdirAllocPage(a: Addr, write: bool) returns (ok: bool)
      requires Valid() && a !in ptes
      modifies this
      ensures Valid() && |frames| == |old(frames)|
      ensures ok <==> old(free) != {}
      ensures ok ==> a in ptes && ptes[a].Present? && ptes == old(ptes)[a := Present(ptes[a].frame, write, false, false)]
      ensures ok ==> ptes[a].frame in old(free)
      ensures !ok ==> ptes == old(ptes)
    {
      hide HashOk, Inv, CowOk, Refs;
      var page := AllocPage(ptes, REST);
      if page == -1 {
        return false;
      }
      ghost var t := REST.(held := {page});
      assert REST.(held := REST.held + {page}) == t;
      InvCow(St(), ptes, t);
      FreshCow(ptes, frames, a, Present(page, write, false, false));
      ok := PageInsert(a, page, write, false, false, true, t);
      assert t.(held := t.held - {page}) == REST;
    }

    /** page_ref and swap_page_count together: how many entries, present or swapped, lead to the page. */
    function Uses(f: nat): nat
      requires f < |frames|
      reads this`frames, this`mem
    {
      frames[f].ref + if frames[f].swap && frames[f].index < |mem| then mem[frames[f].index] else 0
    }

    /** The same for the page behind an entry, whether it is in memory or still to be read. */
    ghost function EntryUses(q: Pte): nat
      reads this`frames, this`mem, this`cache
    {
      match q
      case Present(f, _, _, _) => if f < |frames| then Uses(f) else 0
      case Swapped(s) => (if s in cache && cache[s] < |frames| then frames[cache[s]].ref else 0) + if s < |mem| then mem[s] else 0
    }

    /** The frame mapped by a fault: the page itself when reading or when nothing else leads to it, and
        otherwise a fresh copy. */
    ghost predicate Served(was: Pte, f: nat, used: nat, pool: set<nat>, isWrite: bool)
      reads this`frames
    {
      if isWrite && used > 1 then f in pool else f < |frames| && LeadsTo(frames, was, f)
    }

    /** A fault on entry `q` finds the page: it is present or cached, or can be read into a frame left over
        from the one set aside for a copy. */
    ghost predicate PageFound(q: Pte, canWrite: bool, readOk: bool)
      reads this`free, this`cache
    {
      q.Present? || q.slot in cache || (readOk && |free| > if canWrite then 1 else 0)
    }

    /** A write needs a copy and no frame is free for it. */
    ghost predicate CopyFails(q: Pte, isWrite: bool)
      reads this`free, this`frames, this`mem, this`cache
    {
      isWrite && EntryUses(q) > 1 && free == {}
    }

    /** do_pgfault's gap: the page of a swapped entry is cached and shared, and the write gets no frame for its copy. */
    ghost predicate SilentlyUnserved(q: Pte, isWrite: bool)
      reads this`free, this`frames, this`mem, this`cache
    {
      q.Swapped? && isWrite && free == {} && q.slot in cache && cache[q.slot] < |frames| && Uses(cache[q.slot]) > 1
    }

    /** The last part of do_pgfault for an entry that is not invalid: copy, or use the page itself. */
    method ResolveFault(a: Addr, page: nat, newpage: int, mayCopy: bool, write: bool) returns (mapped: bool)
      requires newpage >= -1 && Good(ptes, Holding(newpage)) && a in ptes && page < |frames|
      requires newpage != -1 ==> newpage < |frames| && frames[newpage].ref == 0 && !frames[newpage].swap && Refs(ptes, newpage) == {}
      requires LeadsTo(frames, ptes[a], page) && newpage != page
      requires !mayCopy ==> ptes[a].Swapped? && !write
      modifies this
      ensures Valid() && |frames| == |old(frames)|
      ensures mapped ==> a in ptes && ptes[a].Present? && ptes == old(ptes)[a := Present(ptes[a].frame, write, false, false)]
      ensures !mapped ==> ptes == old(ptes)
      ensures !mapped <==> mayCopy && newpage == -1 && old(Uses(page)) > 1
      ensures mapped ==> ptes[a].frame == if mayCopy && old(Uses(page)) > 1 then newpage else page
      ensures mapped && ptes[a].frame == page ==>
        frames[page].swap == old(frames)[page].swap && frames[page].index == old(frames)[page].index
    {
      hide HashOk, Inv, CowOk, Refs, Swaps;
      ghost var t := Holding(newpage);
      InvCow(St(), ptes, t);
      LeadsFrame(St(), ptes, t, a, page);
      if mayCopy && Uses(page) > 1 {
        if newpage == -1 {
          return false;
        }
        FreshCow(ptes, frames, a, Present(newpage, write, false, false));
        NotFree(St(), ptes, t, newpage);
        mapped := PageInsert(a, newpage, write, false, false, true, t);
        assert t.(held := t.held - {newpage}) == REST;
      } else {
        if mayCopy {
          SoleReference(St(), ptes, t, a, page);
          CowSole(ptes, frames, a, Present(page, write, false, false));
        } else {
          CowReadOnly(ptes, frames, a, Present(page, write, false, false));
        }
        NotFree(St(), ptes, t, page);
        mapped := PageInsert(a, page, write, false, false, true, t);
        assert t.held - {page} == t.held;
        if newpage != -1 {
          FreePage(newpage, ptes, t);
          assert t.(held := t.held - {newpage}) == REST;
        }
      }
    }

    /** What the processor reports about the entry that faulted. */
    ghost predicate FaultMatches(a: Addr, isPresent: bool, isWrite: bool)
      reads this`ptes
    {
      (isPresent <==> a in ptes && ptes[a].Present?) && (isPresent && isWrite ==> !ptes[a].write)
    }

    /** do_pgfault inside a private area; `canWrite` and `canRead` are the permissions of the area. */
    method PgFault(a: Addr, isPresent: bool, isWrite: bool, canWrite: bool, canRead: bool, hasTable: bool, readOk: bool)
      returns (r: FaultResult, ghost mapped: bool)
      requires Valid() && FaultMatches(a, isPresent, isWrite)
      modifies this
      ensures Valid() && |frames| == |old(frames)|
      ensures r.Inval? <==> if isWrite then !canWrite else isPresent || !canRead
      ensures mapped ==> a in ptes && ptes[a].Present?
      ensures mapped ==> ptes == old(ptes)[a := Present(ptes[a].frame, canWrite && (isWrite || a !in old(ptes)), false, false)]
      ensures !mapped ==> ptes == old(ptes)
      ensures mapped ==> r.Ok?
      ensures !r.Inval? ==> (mapped <==>
        hasTable && if a in old(ptes) then old(PageFound(ptes[a], canWrite, readOk) && !CopyFails(ptes[a], isWrite)) else old(free) != {})
      ensures r.Ok? && !mapped <==> !r.Inval? && hasTable && a in old(ptes) && old(SilentlyUnserved(ptes[a], isWrite))
      ensures mapped && a !in old(ptes) ==> ptes[a].frame in old(free)
      ensures mapped && a in old(ptes) ==> Served(old(ptes)[a], ptes[a].frame, old(EntryUses(ptes[a])), old(free), isWrite)
    {
      hide HashOk, Inv, Refs, Swaps;
      mapped := false;
      if isWrite {
        if !canWrite {
          return Inval, false;
        }
      } else if isPresent || !canRead {
        return Inval, false;
      }
      if !hasTable {
        return NoMem, false;
      }
      if a !in ptes {
        var ok := PgdirAllocPage(a, canWrite);
        return if ok then Ok else NoMem, ok;
      }
      r, mapped := FaultOnEntry(a, isWrite, canWrite, readOk);
    }

    /** The branch of do_pgfault for an entry that is not invalid. */
    method FaultOnEntry(a: Addr, isWrite: bool, canWrite: bool, readOk: bool) returns (r: FaultResult, ghost mapped: bool)
      requires Valid() && a in ptes && (ptes[a].Present? ==> isWrite) && (isWrite ==> canWrite)
      modifies this
      ensures Valid() && |frames| == |old(frames)|
      ensures !r.Inval? && (mapped ==> r.Ok?)
      ensures mapped ==> a in ptes && ptes[a].Present? && ptes == old(ptes)[a := Present(ptes[a].frame, isWrite, false, false)]
      ensures !mapped ==> ptes == old(ptes)
      ensures mapped <==> old(PageFound(ptes[a], canWrite, readOk) && !CopyFails(ptes[a], isWrite))
      ensures r.Ok? && !mapped <==> old(SilentlyUnserved(ptes[a], isWrite))
      ensures mapped ==> Served(old(ptes)[a], ptes[a].frame, old(EntryUses(ptes[a])), old(free), isWrite)
    {
      hide HashOk, Inv, Refs, Swaps;
      mapped := false;
      EntryFrame(St(), ptes, REST, a);
      if ptes[a].Swapped? {
        CachedEntry(St(), ptes, REST, ptes[a].slot);
      }
      var newpage := -1;
      if canWrite {
        newpage := AllocPage(ptes, REST);
      }
      assert free != {} <==> |old(free)| > if canWrite then 1 else 0 by {
        assert newpage != -1 ==> old(free) == free + {newpage};
        assert free != {} ==> |free| > 0;
      }
      assert newpage != -1 ==> REST.(held := REST.held + {newpage}) == Holding(newpage);
      if ptes[a].Present? {
        PresentNotFree(St(), ptes, Holding(newpage), a, newpage);
        var ok := ResolveFault(a, ptes[a].frame, newpage, canWrite, true);
        return if ok then Ok else NoMem, ok;
      }
      r, mapped := FaultOnSwapped(a, newpage, isWrite, canWrite, readOk);
    }

    /** That branch for a swap entry, with a page for a copy or none (-1). */
    method FaultOnSwapped(a: Addr, newpage: int, isWrite: bool, canWrite: bool, readOk: bool)
      returns (r: FaultResult, ghost mapped: bool)
      requires newpage >= -1 && Good(ptes, Holding(newpage)) && a in ptes && ptes[a].Swapped? && (isWrite ==> canWrite)
      requires newpage != -1 ==> newpage < |frames| && frames[newpage].ref == 0 && !frames[newpage].swap && Refs(ptes, newpage) == {}
      modifies this
      ensures Valid() && |frames| == |old(frames)|
      ensures !r.Inval? && (mapped ==> r.Ok?)
      ensures mapped ==> a in ptes && ptes[a].Present? && ptes == old(ptes)[a := Present(ptes[a].frame, isWrite, false, false)]
      ensures !mapped ==> ptes == old(ptes)
      ensures r.Ok? <==> old(ptes)[a].slot in old(cache) || (old(free) != {} && readOk)
      ensures r.Ok? ==> (mapped <==> !(isWrite && newpage == -1 && old(EntryUses(ptes[a])) > 1))
      ensures mapped ==> ptes[a].frame < |frames|
      ensures mapped ==>
        if isWrite && old(EntryUses(ptes[a])) > 1 then ptes[a].frame == newpage else LeadsTo(frames, old(ptes)[a], ptes[a].frame)
    {
      hide HashOk, Inv, Refs, Swaps;
      mapped := false;
      ghost var t := Holding(newpage);
      EntryFrame(St(), ptes, t, a);
      EntryIn(ptes, a);
      CachedEntry(St(), ptes, t, ptes[a].slot);
      var page, err := SwapInPage(ptes[a].slot, readOk, t);
      if page == -1 {
        if newpage != -1 {
          FreePage(newpage, ptes, t);
          assert t.(held := t.held - {newpage}) == REST;
        }
        return err, false;
      }
      assert Uses(page) == old(EntryUses(ptes[a]));
      var ok := ResolveFault(a, page, newpage, canWrite && isWrite, isWrite);
      r, mapped := Ok, ok;
    }

    // ---------- fork and unmap ----------

    /** One address in copy_range, not sharing; `hasTable` is whether the child has a page table for it. */
    method CopyPte(from: Space, to: Space, la: nat, hasTable: bool) returns (ok: bool)
      requires Valid() && from != to && Addr(to, la) !in ptes
      modifies this
      ensures Valid() && |frames| == |old(frames)| && |mem| == |old(mem)|
      ensures ok <==> hasTable || Addr(from, la) !in old(ptes)
      ensures ptes == if ok then Forked(old(ptes), from, to, la) else old(ptes)
      ensures mem == if ok && Addr(from, la) in old(ptes) && old(ptes)[Addr(from, la)].Swapped?
        then old(mem)[old(ptes)[Addr(from, la)].slot := old(mem)[old(ptes)[Addr(from, la)].slot] + 1] else old(mem)
    {
      hide HashOk, Inv, CowOk;
      var a, b := Addr(from, la), Addr(to, la);
      if a !in ptes {
        return true;
      }
      if !hasTable {
        return false;
      }
      EntryFrame(St(), ptes, REST, a);
      match ptes[a]
      case Present(f, w, accessed, dirty) =>
        if w {
          Retouch(St(), ptes, REST, a, Present(f, false, accessed, dirty));
          ReinsertReadOnly(a, f, accessed, dirty);
        }
        InvCow(St(), ptes, REST);
        CowShare(ptes, frames, a, b);
        EntryFrame(St(), ptes, REST, a);
        NotFree(St(), ptes, REST, f);
        ok := InsertNew(b, f);
        assert ptes == Forked(old(ptes), from, to, la);
      case Swapped(s) =>
        CopySwapped(a, b, s);
        assert ptes == Forked(old(ptes), from, to, la);
        ok := true;
    }

    /** swap_duplicate of an entry for another address space. */
    method CopySwapped(a: Addr, b: Addr, s: nat)
      requires Valid() && a in ptes && ptes[a] == Swapped(s) && b !in ptes && b.la == a.la && 0 < s < |mem|
      requires mem[s] != SWAP_UNUSED
      modifies this`ptes, this`mem
      ensures Valid() && ptes == old(ptes)[b := Swapped(s)] && mem == old(mem)[s := old(mem)[s] + 1]
    {
      hide HashOk, Inv, CowOk;
      InvCow(St(), ptes, REST);
      CowShare(ptes, frames, a, b);
      SlotNeverFull(St(), ptes, s);
      SlotIncOk(St(), ptes, REST, s);
      mem := mem[s := mem[s] + 1];
      ghost var t := REST.(extras := multiset{s});
      assert REST.(extras := REST.extras + multiset{s}) == t;
      PlaceOk(St(), ptes, t, b, Swapped(s));
      assert Placed(t, Swapped(s)) == REST;
      ptes := ptes[b := Swapped(s)];
    }

    /** page_insert of the page already there, without write permission. */
    method ReinsertReadOnly(a: Addr, f: nat, accessed: bool, dirty: bool)
      requires Valid() && a in ptes && ptes[a].Present? && ptes[a].frame == f
      modifies this`ptes, this`frames
      ensures Valid() && ptes == old(ptes)[a := Present(f, false, accessed, dirty)] && St() == old(St())
    {
      hide HashOk, Inv;
      EntryFrame(St(), ptes, REST, a);
      Retouch(St(), ptes, REST, a, Present(f, false, accessed, dirty));
      RefInc(f);
      RefDec(f);
      assert frames == old(frames);
      ptes := ptes[a := Present(f, false, accessed, dirty)];
    }

    /** page_insert, read-only, at an address without entry. */
    method InsertNew(b: Addr, f: nat) returns (ok: bool)
      requires Valid() && b !in ptes && f < |frames| && f !in free && CowOk(ptes[b := Present(f, false, false, false)], frames)
      modifies this`ptes, this`frames
      ensures ok && Valid() && ptes == old(ptes)[b := Present(f, false, false, false)] && |frames| == |old(frames)|
    {
      hide HashOk, Inv, CowOk;
      ghost var q, t := Present(f, false, false, false), REST.(pins := multiset{f});
      CowRefs(ptes[b := q], frames, f);
      Pin(f, ptes, REST);
      assert REST.(held := REST.held - {f}, pins := REST.pins + multiset{f}) == t;
      PlaceOk(St(), ptes, t, b, q);
      assert Placed(t, q) == REST;
      ptes := ptes[b := Present(f, false, false, false)];
      ok := true;
    }

    /** The first address for which the child needs a page table and gets none, or the end. */
    ghost predicate CopyEnds(from: Space, las: seq<nat>, tables: seq<bool>, n: nat)
      requires |las| == |tables|
      reads this`ptes
    {
      n <= |las| && (forall m :: 0 <= m < n ==> tables[m] || Addr(from, las[m]) !in ptes) &&
      (n < |las| ==> !tables[n] && Addr(from, las[n]) in ptes)
    }

    /** copy_range over the page addresses `las`. */
    method CopyRange(from: Space, to: Space, las: seq<nat>, tables: seq<bool>) returns (ok: bool, ghost n: nat)
      requires Valid() && from != to && |tables| == |las| && (forall i, j :: 0 <= i < j < |las| ==> las[i] != las[j])
      requires forall i :: 0 <= i < |las| ==> Addr(to, las[i]) !in ptes
      modifies this
      ensures Valid() && |frames| == |old(frames)|
      ensures old(CopyEnds(from, las, tables, n)) && ptes == ForkedAll(old(ptes), from, to, las[..n])
      ensures ok <==> n == |las|
    {
      hide HashOk, Inv, ForkedAll;
      ForkedNone(ptes, from, to, las);
      n := 0;
      for i := 0 to |las|
        invariant Valid() && |frames| == |old(frames)| && n == i
        invariant forall m :: 0 <= m < i ==> tables[m] || Addr(from, las[m]) !in old(ptes)
        invariant ptes == ForkedAll(old(ptes), from, to, las[..i])
      {
        ForkedNext(old(ptes), from, to, las, i);
        ok := CopyPte(from, to, las[i], tables[i]);
        if !ok {
          return false, i;
        }
        n := i + 1;
      }
      ok := true;
    }

    /** unmap_range over the page addresses `las` of one address space. */
    method UnmapRange(mm: Space, las: seq<nat>)
      requires Valid()
      modifies this
      ensures Valid() && |frames| == |old(frames)|
      ensures ptes == old(ptes) - (set i | 0 <= i < |las| :: Addr(mm, las[i]))
    {
      hide HashOk, Inv;
      for n := 0 to |las|
        invariant Valid() && |frames| == |old(frames)|
        invariant ptes == old(ptes) - (set i | 0 <= i < n :: Addr(mm, las[i]))
      {
        var a := Addr(mm, las[n]);
        if a in ptes {
          PageRemovePte(a, REST);
        }
      }
    }

    // ---------- reclaiming ----------

    /** swapfs_write of a page to its slot, which an extra reference keeps meanwhile. */
    method WriteOut(page: nat, writeOk: bool, ghost t: Transit)
      requires Good(ptes, t) && page < |frames| && frames[page].index < |mem| && mem[frames[page].index] < MAX_SWAP_REF
      modifies this`frames, this`mem
      ensures Good(ptes, t) && mem == old(mem) && frames == old(frames)[page := old(frames)[page].(dirty := !writeOk)]
    {
      hide HashOk, Inv;
      var s := frames[page].index;
      SetFlagOk(St(), ptes, t, page, !writeOk);
      frames := frames[page := frames[page].(dirty := false)];
      mem := mem[s := mem[s] + 1];
      if !writeOk {
        frames := frames[page := frames[page].(dirty := true)];
      }
      mem := mem[s := mem[s] - 1];
      assert mem == old(mem);
      assert frames == old(frames)[page := old(frames)[page].(dirty := !writeOk)];
    }

    /** One page in page_launder, at the head of the inactive list; `writeOk` is whether writing it out succeeds. */
    method LaunderOne(writeOk: bool) returns (freed: bool)
      requires Valid() && inactive != []
      modifies this`frames, this`free, this`mem, this`cache, this`hash, this`active, this`inactive
      ensures Valid() && |frames| == |old(frames)|
      ensures freed ==> free == old(free) + {old(inactive)[0]} && old(inactive)[0] !in old(free)
      ensures !freed ==> free == old(free)
      ensures old(inactive)[0] < |old(frames)| && old(frames)[old(inactive)[0]].index < |old(mem)|
      ensures var d := old(frames)[old(inactive)[0]]; freed <==> d.ref == 0 && (old(mem)[d.index] == 0 || !d.dirty || writeOk)
    {
      hide HashOk, Inv;
      var page := inactive[0];
      HeadInactive(St(), ptes, page);
      CachedIndex(St(), ptes, REST, page);
      SlotNeverFull(St(), ptes, frames[page].index);
      NotFree(St(), ptes, REST, page);
      ListDelOk(St(), ptes, REST, page);
      SwapListDel(page);
      ghost var t := REST.(off := page);
      if frames[page].ref != 0 {
        ListAddOk(St(), ptes, t, page, true);
        SwapListAdd(page, true);
        return false;
      }
      var s := frames[page].index;
      if mem[s] != 0 && frames[page].dirty {
        WriteOut(page, writeOk, t);
        if frames[page].dirty {
          ListAddOk(St(), ptes, t, page, false);
          SwapListAdd(page, false);
          return false;
        }
      }
      SwapPageDel(page, ptes, t);
      ghost var t1 := REST.(held := {page});
      assert t.(off := -1, held := t.held + {page}) == t1;
      FreePage(page, ptes, t1);
      assert t1.(held := t1.held - {page}) == REST;
      freed := true;
    }

    /** page_launder: once through the inactive list. */
    method PageLaunder(writes: seq<bool>) returns (count: nat)
      requires Valid() && |writes| == |inactive|
      modifies this`frames, this`free, this`mem, this`cache, this`hash, this`active, this`inactive
      ensures Valid() && |frames| == |old(frames)|
      ensures free >= old(free) && |free| == |old(free)| + count
    {
      hide HashOk, Inv;
      var maxscan := |inactive|;
      count := 0;
      while maxscan > 0 && inactive != []
        invariant Valid() && |frames| == |old(frames)| && maxscan <= |writes|
        invariant free >= old(free) && |free| == |old(free)| + count
      {
        maxscan := maxscan - 1;
        var freed := LaunderOne(writes[maxscan]);
        if freed {
          count := count + 1;
        }
      }
    }

    /** refill_inactive_scan: active pages that nothing maps become inactive. */
    method RefillInactiveScan()
      requires Valid()
      modifies this`frames, this`active, this`inactive
      ensures Valid() && |frames| == |old(frames)|
      ensures forall f :: f in active <==> f in old(active) && f < |old(frames)| && old(frames)[f].ref > 0
    {
      hide HashOk, Inv;
      var i := 0;
      while i < |active|
        invariant Valid() && i <= |active| && SameRefs(old(frames), frames)
        invariant forall f :: f in active[..i] ==> f < |frames| && frames[f].ref > 0
        invariant forall f :: f in active ==> f in old(active)
        invariant forall f :: f in old(active) && f < |frames| && frames[f].ref > 0 ==> f in active
        decreases |active| - i
      {
        var page := active[i];
        HeadActive(St(), ptes, page);
        if frames[page].ref == 0 {
          Deactivate(i);
        } else {
          assert active[..i + 1] == active[..i] + [page];
          i := i + 1;
        }
      }
    }

    /** An active page that nothing maps goes to the inactive list. */
    method Deactivate(i: nat)
      requires Valid() && i < |active| && active[i] < |frames| && frames[active[i]].ref == 0
      modifies this`frames, this`active, this`inactive
      ensures Valid() && SameRefs(old(frames), frames) && |active| == |old(active)| - 1 && active[..i] == old(active)[..i]
      ensures forall f :: f in active <==> f in old(active) && f != old(active)[i]
    {
      hide HashOk, Inv;
      var page := active[i];
      HeadActive(St(), ptes, page);
      WithoutAt(active, i);
      WithoutOk(active, page);
      ListDelOk(St(), ptes, REST, page);
      SwapListDel(page);
      ghost var t := REST.(off := page);
      ListAddOk(St(), ptes, t, page, false);
      SwapListAdd(page, false);
    }
  }

  /** One frame, shared by a parent and its child and swapped out of both: the parent's next write returns
      success and leaves the swap entry in place. */
  method SilentFault() returns (r: FaultResult, ghost mapped: bool, ghost entry: Pte)
    ensures r.Ok? && !mapped && entry.Swapped?
  {
    hide HashOk, Inv;
    var a, b := Addr(0, 0), Addr(1, 0);
    var m := ForkOne();
    SwapOutBoth(m, a, b);
    SharedInSwap(m.St(), m.ptes, a, b, m.frames[0].index);
    r, mapped := m.PgFault(a, false, true, true, true, true, true);
    entry := m.ptes[a];
  }

  /** The frame is mapped by a write and then shared by a fork. */
  method ForkOne() returns (m: Pager)
    ensures fresh(m) && m.Valid() && |m.frames| == 1
    ensures m.ptes == map[Addr(0, 0) := Present(0, false, false, false), Addr(1, 0) := Present(0, false, false, false)]
  {
    hide HashOk, Inv;
    var a := Addr(0, 0);
    m := new Pager(1, 512);
    assert 0 in m.free;
    var r, mapped := m.PgFault(a, false, true, true, true, true, true);
    EntryFrame(m.St(), m.ptes, REST, a);
    assert m.ptes == map[a := Present(0, true, false, false)];
    ghost var p := m.ptes;
    var ok, n := m.CopyRange(0, 1, [0], [true]);
    ForkedNext(p, 0, 1, [0], 0);
    ForkedNone(p, 0, 1, [0]);
  }

  /** Both entries of a shared page turn into its swap entry. */
  method SwapOutBoth(m: Pager, a: Addr, b: Addr)
    requires m.Valid() && |m.frames| == 1 && a != b
    requires m.ptes == map[a := Present(0, false, false, false), b := Present(0, false, false, false)]
    modifies m
    ensures m.Valid() && |m.frames| == 1 && m.frames[0].swap
    ensures m.ptes == map[a := Swapped(m.frames[0].index), b := Swapped(m.frames[0].index)]
  {
    hide HashOk, Inv, SlotLeft;
    AllPresent(m.St(), m.ptes);
    SwapOutFirst(m, a, b);
    SwapOutSecond(m, a, b);
  }

  method SwapOutFirst(m: Pager, a: Addr, b: Addr)
    requires m.Valid() && |m.frames| == 1 && a != b && SlotLeft(m.mem)
    requires m.ptes == map[a := Present(0, false, false, false), b := Present(0, false, false, false)]
    modifies m
    ensures m.Valid() && |m.frames| == 1 && m.frames[0].swap
    ensures m.ptes == map[a := Swapped(m.frames[0].index), b := Present(0, false, false, false)]
  {
    hide HashOk, Inv, SlotLeft;
    var done := m.SwapOutPte(a);
  }

  method SwapOutSecond(m: Pager, a: Addr, b: Addr)
    requires m.Valid() && |m.frames| == 1 && a != b && m.frames[0].swap
    requires m.ptes == map[a := Swapped(m.frames[0].index), b := Present(0, false, false, false)]
    modifies m
    ensures m.Valid() && |m.frames| == 1 && m.frames[0].swap
    ensures m.ptes == map[a := Swapped(m.frames[0].index), b := Swapped(m.frames[0].index)]
  {
    hide HashOk, Inv, SlotLeft;
    var done := m.SwapOutPte(b);
  }

  lemma AllPresent(st: Swap, p: Ptes)
    requires Inv(st, p, REST) && forall a :: a in p ==> p[a].Present?
    ensures SlotLeft(st.mem)
  {
    assert Swaps(p, 1) == {};
    assert SlotOk(|Swaps(p, 1)| + REST.extras[1], st.mem[1], 1 in st.cache);
  }

  lemma SharedInSwap(st: Swap, p: Ptes, a: Addr, b: Addr, s: nat)
    requires Inv(st, p, REST) && |st.frames| == 1 && st.frames[0].swap && st.frames[0].index == s
    requires a != b && p == map[a := Swapped(s), b := Swapped(s)]
    ensures st.free == {} && s in st.cache && st.cache[s] == 0 && s < |st.mem| && st.mem[s] == 2
  {
    assert Swaps(p, s) == {a, b};
    SlotUsed(st, p, REST, s);
  }

  ghost predicate SameRefs(frames: seq<Frame>, frames': seq<Frame>)
  {
    |frames| == |frames'| && forall f :: 0 <= f < |frames| ==> frames'[f].ref == frames[f].ref
  }

  lemma HeadInactive(st: Swap, p: Ptes, f: nat)
    requires Inv(st, p, REST) && f in st.inactive
    ensures f < |st.frames| && st.frames[f].swap && !st.frames[f].active
  {
  }

  lemma HeadActive(st: Swap, p: Ptes, f: nat)
    requires Inv(st, p, REST) && f in st.active
    ensures f < |st.frames| && st.frames[f].swap && st.frames[f].active && NoDup(st.active)
  {
  }

  lemma {:induction false} WithoutAt(l: seq<nat>, i: nat)
    requires i < |l| && forall j, k :: 0 <= j < k < |l| ==> l[j] != l[k]
    ensures Without(l, l[i]) == l[..i] + l[i + 1..]
  {
    if i > 0 {
      assert l[0] != l[i];
      assert l[1..][i - 1] == l[i];
      WithoutAt(l[1..], i - 1);
      assert l[..i] + l[i + 1..] == [l[0]] + (l[1..][..i - 1] + l[1..][i..]);
    }
  }

  lemma SetFlagOk(st: Swap, p: Ptes, t: Transit, f: nat, dirty: bool)
    requires Inv(st, p, t) && f < |st.frames|
    ensures Inv(SetFrame(st, f, st.frames[f].(dirty := dirty)), p, t)
  {
    hide CacheOk, SlotsOk, CowOk, ListsOk;
    SameOthers(st, p, t, SetFrame(st, f, st.frames[f].(dirty := dirty)).frames);
  }

  /** Holding one new page, or none (-1). */
  function Holding(f: int): Transit
    requires f >= -1
  {
    if f == -1 then REST else REST.(held := {f})
  }

  lemma PresentNotFree(st: Swap, p: Ptes, t: Transit, a: Addr, f: int)
    requires Inv(st, p, t) && a in p && p[a].Present? && f >= -1 && (f >= 0 ==> f < |st.frames| && Refs(p, f) == {})
    ensures p[a].frame != f
  {
    EntryIn(p, a);
  }

  /** An entry leads to a frame: it maps it, or holds the swap entry the frame is cached for. */
  predicate LeadsTo(frames: seq<Frame>, q: Pte, f: nat)
    requires f < |frames|
  {
    match q
    case Present(g, _, _, _) => g == f
    case Swapped(s) => frames[f].swap && frames[f].index == s
  }

  lemma CachedEntry(st: Swap, p: Ptes, t: Transit, s: nat)
    requires Inv(st, p, t)
    ensures s in st.cache ==> st.cache[s] < |st.frames| && st.frames[st.cache[s]].swap && st.frames[st.cache[s]].index == s
  {
  }

  lemma InvCow(st: Swap, p: Ptes, t: Transit)
    requires Inv(st, p, t)
    ensures CowOk(p, st.frames)
  {
  }

  lemma FreshCow(p: Ptes, frames: seq<Frame>, a: Addr, q: Pte)
    requires CowOk(p, frames) && q.Present? && q.frame < |frames| && Refs(p, q.frame) == {} && !frames[q.frame].swap
    ensures CowOk(p[a := q], frames)
  {
    CowSole(p, frames, a, q);
  }

  lemma LeadsFrame(st: Swap, p: Ptes, t: Transit, a: Addr, f: nat)
    requires Inv(st, p, t) && a in p && f < |st.frames| && LeadsTo(st.frames, p[a], f)
    ensures a in Refs(p, f) || (st.frames[f].swap && a in Swaps(p, st.frames[f].index))
    ensures st.frames[f].swap ==> 0 < st.frames[f].index < |st.mem|
    ensures st.frames[f].ref > 0 || st.frames[f].swap
  {
    EntryIn(p, a);
    EntryFrame(st, p, t, a);
    if st.frames[f].swap {
      CachedIndex(st, p, t, f);
    }
  }

  lemma CachedIndex(st: Swap, p: Ptes, t: Transit, f: nat)
    requires Inv(st, p, t) && f < |st.frames| && st.frames[f].swap
    ensures var s := st.frames[f].index; 0 < s < |st.mem| && s in st.cache && st.cache[s] == f && st.mem[s] <= MAX_SWAP_REF
  {
    SlotUsed(st, p, t, st.frames[f].index);
  }

  lemma ZeroCached(st: Swap, p: Ptes, t: Transit, s: nat)
    requires Inv(st, p, t) && 0 < s < |st.mem| && st.mem[s] == 0
    ensures s in st.cache && st.cache[s] < |st.frames| && st.frames[st.cache[s]].swap && st.frames[st.cache[s]].index == s
  {
    assert SlotOk(|Swaps(p, s)| + t.extras[s], st.mem[s], s in st.cache);
  }

  lemma UnusedSlot(st: Swap, p: Ptes, t: Transit, s: nat)
    requires Inv(st, p, t) && 0 < s < |st.mem| && st.mem[s] == SWAP_UNUSED
    ensures s !in st.cache && Swaps(p, s) == {}
  {
    assert SlotOk(|Swaps(p, s)| + t.extras[s], st.mem[s], s in st.cache);
  }

  lemma NotFree(st: Swap, p: Ptes, t: Transit, f: nat)
    requires Inv(st, p, t) && f < |st.frames| && (st.frames[f].ref > 0 || st.frames[f].swap || f in t.held)
    ensures f !in st.free
  {
  }

  predicate Scanned(k: int, end: nat, next: nat, max: nat, wrapped: bool)
  {
    if wrapped then end <= k < max || 0 < k < next else end <= k < next
  }

  lemma CachedFrame(st: Swap, p: Ptes, t: Transit, s: nat)
    requires Inv(st, p, t) && s in st.cache
    ensures 0 < s < |st.mem| && st.cache[s] < |st.frames| && st.frames[st.cache[s]].swap
    ensures st.frames[st.cache[s]].index == s
  {
  }

  lemma SetDirtyOk(st: Swap, p: Ptes, t: Transit, f: nat)
    requires Inv(st, p, t) && f < |st.frames|
    ensures Inv(SetFrame(st, f, st.frames[f].(dirty := true)), p, t)
  {
    hide CacheOk, SlotsOk, CowOk, ListsOk;
    SameOthers(st, p, t, SetFrame(st, f, st.frames[f].(dirty := true)).frames);
  }

  lemma StartInv(st: Swap, n: nat)
    requires |st.frames| == n && st.free == UpTo(n) && 1 < |st.mem| && st.cache == map[] && st.active == [] && st.inactive == []
    requires forall f :: 0 <= f < n ==> st.frames[f] == Frame(0, false, 0, false, false)
    requires forall k :: 0 <= k < |st.mem| ==> st.mem[k] == SWAP_UNUSED
    ensures Inv(st, map[], REST)
  {
    hide Refs, Swaps;
    NoEntries();
  }

  lemma StartHash(hash: seq<seq<nat>>)
    requires |hash| == HASH_LIST_SIZE && forall h :: 0 <= h < |hash| ==> hash[h] == []
    ensures HashOk(hash, map[])
  {
  }

  lemma NoEntries()
    ensures forall f :: Refs(map[], f) == {}
    ensures forall s :: Swaps(map[], s) == {}
  {
  }
}
