/**
 The buddy page allocator of mm/buddy_pmm.c: page descriptors, one free list and
 counter per order, and zones whose first page is the origin for alignment.
 The ghost fields say which pages are managed and which blocks are free.
 */
module Buddy {
  import opened BuddyBlocks
  import opened Lists
  import opened Powers

  const MAX_ZONES: nat := 10

  /** A page descriptor: the flags PG_reserved and PG_property, the block order and the zone. */
  datatype Page = Page(reserved: bool, head: bool, order: nat, zone: nat)

  /** What buddy_alloc_pages does: pages, none left, or the panic for a request above the largest block. */
  datatype AllocResult = Allocated(page: nat) | NoMemory | Panic

  /** The least order whose block holds `n` pages. */
  ghost predicate OrderFor(n: nat, k: nat)
  {
    n <= Pow2(k) && forall j :: 0 <= j < k ==> Pow2(j) < n
  }

  /** No aligned block of order `k` is entirely free. */
  ghost predicate NoneFits(home: Home, b: Blocks, k: nat)
  {
    forall g :: BlockOk(home, g, k) ==> !AllFree(b, g, Pow2(k))
  }

  /** Some aligned block of the least order for `n` pages is entirely free. */
  ghost predicate Fits(home: Home, b: Blocks, n: nat)
  {
    exists k: nat :: k <= MAX_ORDER && OrderFor(n, k) && !NoneFits(home, b, k)
  }

  lemma OrderUnique(n: nat, j: nat, k: nat)
    requires OrderFor(n, j) && OrderFor(n, k)
    ensures j == k
  {
  }

  lemma FitsAt(home: Home, b: Blocks, n: nat, k: nat, g: nat)
    requires k <= MAX_ORDER && OrderFor(n, k) && BlockOk(home, g, k) && AllFree(b, g, Pow2(k))
    ensures Fits(home, b, n)
  {
  }

  lemma FitsNot(home: Home, b: Blocks, n: nat, k: nat)
    requires OrderFor(n, k) && NoneFits(home, b, k)
    ensures !Fits(home, b, n)
  {
    hide OrderFor, NoneFits;
    if Fits(home, b, n) {
      var j: nat :| j <= MAX_ORDER && OrderFor(n, j) && !NoneFits(home, b, j);
      OrderUnique(n, j, k);
    }
  }

  /** Where the pages of a new zone belong. */
  ghost function ZoneHome(base: nat, n: nat): Home
  {
    map p: nat | p < base + n && In(p, base, n) :: base
  }

  /** A free list holds exactly the free blocks of its order, each once. */
  ghost predicate ListOk(l: seq<nat>, b: Blocks, k: nat)
  {
    NoDup(l) && forall g :: g in l <==> g in b && b[g] == k
  }

  /** Every page that is not reserved belongs to a zone, named by its number and by its first page. */
  ghost predicate ZonesOk(pages: seq<Page>, memBase: seq<nat>, home: Home)
  {
    |memBase| <= MAX_ZONES &&
    (forall i, j :: 0 <= i < j < |memBase| ==> memBase[i] != memBase[j]) &&
    (forall i :: 0 <= i < |memBase| ==> memBase[i] in home && home[memBase[i]] == memBase[i]) &&
    (forall g :: 0 <= g < |pages| && !pages[g].reserved ==> g in home) &&
    forall g :: g in home ==>
      g < |pages| && !pages[g].reserved && pages[g].zone < |memBase| && home[g] == memBase[pages[g].zone] && home[g] <= g
  }

  lemma ZonesExtend(pages: seq<Page>, pages': seq<Page>, memBase: seq<nat>, home: Home, base: nat, n: nat)
    requires ZonesOk(pages, memBase, home) && |memBase| < MAX_ZONES && n > 0 && base + n <= |pages| && |pages'| == |pages|
    requires forall p :: base <= p < base + n ==> pages[p].reserved
    requires forall q :: 0 <= q < |pages| ==>
      pages'[q] == if base <= q < base + n then Page(false, false, 0, |memBase|) else pages[q]
    ensures ZonesOk(pages', memBase + [base], home + ZoneHome(base, n))
  {
    hide In;
    InZoneHome(base, n);
    var h, mb := home + ZoneHome(base, n), memBase + [base];
    forall i | 0 <= i < |mb|
      ensures mb[i] in h && h[mb[i]] == mb[i]
    {
      if i < |memBase| {
        assert memBase[i] in home;
      }
    }
  }

  /** The marks of a free block have no part in the zones. */
  lemma ZonesMarked(pages: seq<Page>, memBase: seq<nat>, home: Home, g: nat, d: Page)
    requires ZonesOk(pages, memBase, home) && g < |pages| && d.reserved == pages[g].reserved && d.zone == pages[g].zone
    ensures ZonesOk(pages[g := d], memBase, home)
  {
  }

  class BuddyManager {
    var pages: seq<Page>
    var freeList: seq<seq<nat>>
    var nrFree: seq<nat>
    /** zones[].mem_base of the zones set up so far. */
    var memBase: seq<nat>
    ghost var home: Home
    ghost var blocks: Blocks

    ghost predicate Lists()
      reads this
    {
      |freeList| == MAX_ORDER + 1 && |nrFree| == MAX_ORDER + 1 &&
      forall k :: 0 <= k <= MAX_ORDER ==> ListOk(freeList[k], blocks, k) && nrFree[k] == |freeList[k]|
    }

    /** The page descriptors mark the free blocks, except perhaps page `x`. */
    ghost predicate Flags(x: int)
      reads this
    {
      (forall g :: g in blocks ==> g < |pages|) &&
      forall g :: 0 <= g < |pages| && g != x ==>
        (pages[g].head <==> g in blocks) && (g in blocks ==> pages[g].order == blocks[g])
    }

    ghost predicate Zones()
      reads this
    {
      ZonesOk(pages, memBase, home)
    }

    ghost predicate Counted()
      reads this
    {
      Total(nrFree) == |FreeSet(blocks, |pages|)|
    }

    ghost predicate ValidBut(x: int)
      reads this
    {
      Lists() && Flags(x) && Zones() && Canon(home, blocks) && Counted()
    }

    ghost predicate Valid()
      reads this
    {
      ValidBut(-1)
    }

    /** buddy_init on `n` pages, all reserved until a zone takes them. */
    constructor (n: nat)
      ensures Valid() && |pages| == n && home == map[] && blocks == map[] && memBase == []
      ensures forall g :: 0 <= g < n ==> pages[g].reserved
    {
      pages := seq(n, i => Page(true, false, 0, 0));
      freeList := seq(MAX_ORDER + 1, i => []);
      nrFree := seq(MAX_ORDER + 1, i => 0);
      memBase := [];
      home, blocks := map[], map[];
      new;
      ZeroTotal(nrFree);
      assert FreeSet(blocks, |pages|) == {};
    }

    // ---------- the list operations ----------

    /** Marks `g` as the head of a free block and puts it on its list. */
    method Push(g: nat, k: nat)
      requires Lists() && g < |pages| && k <= MAX_ORDER && g !in blocks
      modifies this`pages, this`freeList, this`nrFree, this`blocks
      ensures pages == old(pages)[g := old(pages)[g].(order := k, head := true)]
      ensures blocks == old(blocks)[g := k] && nrFree == old(nrFree)[k := old(nrFree)[k] + 1]
      ensures Lists()
    {
      pages := pages[g := pages[g].(order := k, head := true)];
      nrFree := nrFree[k := nrFree[k] + 1];
      freeList := freeList[k := [g] + freeList[k]];
      blocks := blocks[g := k];
    }

    /** Takes `g` off its list; its PG_property flag is cleared separately. */
    method Unlink(g: nat, k: nat)
      requires Lists() && k <= MAX_ORDER && g in blocks && blocks[g] == k
      modifies this`freeList, this`nrFree, this`blocks
      ensures blocks == old(blocks) - {g} && old(nrFree)[k] > 0 && nrFree == old(nrFree)[k := old(nrFree)[k] - 1]
      ensures Lists()
    {
      WithoutOk(freeList[k], g);
      nrFree := nrFree[k := nrFree[k] - 1];
      freeList := freeList[k := Without(freeList[k], g)];
      blocks := blocks - {g};
    }

    lemma BlockInRange(g: nat, k: nat)
      requires Zones() && BlockOk(home, g, k)
      ensures g + Pow2(k) <= |pages| && k <= MAX_ORDER
    {
      assert g + Pow2(k) - 1 in home;
    }

    lemma BlockHome(g: nat, k: nat)
      requires Valid() && BlockOk(home, g, k)
      ensures k <= MAX_ORDER && g in home && g < |pages| && pages[g].zone < |memBase| && home[g] == memBase[pages[g].zone]
    {
    }

    lemma ValidCanon()
      requires Valid()
      ensures ValidBut(-1) && Canon(home, blocks)
    {
    }

    lemma HeadFacts(g: nat)
      requires Valid() && g in blocks
      ensures blocks[g] <= MAX_ORDER && BlockOk(home, g, blocks[g]) && g + Pow2(blocks[g]) <= |pages|
      ensures g in freeList[blocks[g]] && nrFree[blocks[g]] > 0
    {
      BlockInRange(g, blocks[g]);
    }

    /** A block whose buddy is not free becomes free. */
    method AddFreeBlock(g: nat, k: nat, ghost x: int)
      requires ValidBut(x) && BlockOk(home, g, k) && NoneFree(blocks, g, Pow2(k)) && g != x
      requires k < MAX_ORDER ==> !IsFreeBlock(home, blocks, Buddy(home, g, k), k, home[g])
      modifies this`pages, this`freeList, this`nrFree, this`blocks
      ensures ValidBut(x) && (x == -1 ==> Valid())
      ensures g !in old(blocks) && blocks == old(blocks)[g := k] && |pages| == |old(pages)|
      ensures x >= 0 && x < |pages| ==> pages[x] == old(pages)[x]
    {
      hide Pow2, Canon, Total, Free, NoneFree, BlockOk, Buddy, ListOk, Adds, IsFreeBlock, FreeSet, ZonesOk;
      BlockInRange(g, k);
      ZonesMarked(pages, memBase, home, g, pages[g].(order := k, head := true));
      Pow2Pos(k);
      AddBlock(home, blocks, g, k);
      AddsCount(blocks, blocks[g := k], g, Pow2(k), |pages|);
      TotalUp(nrFree, k);
      Push(g, k);
    }

    /** A free block is taken out of the lists. */
    method TakeFreeBlock(g: nat, k: nat)
      requires Valid() && g in blocks && blocks[g] == k
      modifies this`freeList, this`nrFree, this`blocks
      ensures ValidBut(g) && blocks == old(blocks) - {g}
    {
      hide Pow2, Total, Free, Canon, BlockOk, ListOk, Takes, FreeSet;
      HeadFacts(g);
      RemoveBlock(home, blocks, g);
      TakesCount(blocks, blocks - {g}, g, Pow2(k), |pages|);
      TotalDown(nrFree, k);
      Unlink(g, k);
    }

    /** ClearPageProperty. */
    method ClearHead(g: nat)
      requires ValidBut(g) && g < |pages| && g !in blocks
      modifies this`pages
      ensures Valid() && |pages| == |old(pages)|
    {
      hide Canon, Total, Free, ListOk;
      pages := pages[g := pages[g].(head := false)];
    }

    // ---------- freeing ----------

    /** page_is_buddy. */
    predicate PageIsBuddy(g: nat, k: nat, z: nat)
      reads this
    {
      g < |pages| && pages[g].zone == z && !pages[g].reserved && pages[g].head && pages[g].order == k
    }

    /** The test on flags, order and zone number recognises exactly the free blocks of the zone. */
    lemma BuddyTest(g: nat, k: nat, z: nat)
      requires Valid() && z < |memBase|
      ensures PageIsBuddy(g, k, z) <==> IsFreeBlock(home, blocks, g, k, memBase[z])
    {
      if g in blocks {
        HeadFacts(g);
      }
    }

    /** One turn of the merge loop: `page` and its free buddy become one block. */
    method MergeBuddy(page: nat, order: nat, z: nat) returns (merged: bool, low: nat)
      requires Valid() && BlockOk(home, page, order) && NoneFree(blocks, page, Pow2(order))
      requires order < MAX_ORDER && z < |memBase| && home[page] == memBase[z]
      modifies this`pages, this`freeList, this`nrFree, this`blocks
      ensures Valid() && |pages| == |old(pages)|
      ensures merged <==> IsFreeBlock(home, old(blocks), Buddy(home, page, order), order, home[page])
      ensures !merged ==> blocks == old(blocks) && low == page
      ensures merged ==> BlockOk(home, low, order + 1) && low in home && home[low] == memBase[z] && NoneFree(blocks, low, Pow2(order + 1))
      ensures merged ==> SameUnion(old(blocks), page, Pow2(order), blocks, low, Pow2(order + 1))
    {
      hide Pow2, Canon, Counted, Lists, NoneFree, Free, SameZone, Flags, Zones;
      var idx := page - memBase[z];
      BuddyJoin(home, page, order);
      var buddyIdx := if idx / Pow2(order) % 2 == 0 then idx + Pow2(order) else idx - Pow2(order);
      var buddy := memBase[z] + buddyIdx;
      BuddyTest(buddy, order, z);
      low := page;
      merged := PageIsBuddy(buddy, order, z);
      if merged {
        MergeStep(home, blocks, page, order);
        TakeFreeBlock(buddy, order);
        ClearHead(buddy);
        low := memBase[z] + (if idx < buddyIdx then idx else buddyIdx);
      }
    }

    /** buddy_free_pages_sub: frees one aligned block, merging it with free buddies. */
    method FreeBlock(base: nat, order0: nat)
      requires Valid() && BlockOk(home, base, order0) && NoneFree(blocks, base, Pow2(order0))
      modifies this`pages, this`freeList, this`nrFree, this`blocks
      ensures Valid() && Adds(old(blocks), blocks, base, Pow2(order0)) && |pages| == |old(pages)|
    {
      hide *;
      BlockHome(base, order0);
      SameUnionRefl(blocks, base, Pow2(order0));
      var z, order, page := pages[base].zone, order0, base;
      ClearFlags(base, order0);
      var going := true;
      while order < MAX_ORDER && going
        invariant Valid() && BlockOk(home, page, order) && NoneFree(blocks, page, Pow2(order))
        invariant |pages| == |old(pages)| && z < |memBase| && page in home && home[page] == memBase[z]
        invariant !going && order < MAX_ORDER ==> !IsFreeBlock(home, blocks, Buddy(home, page, order), order, home[page])
        invariant SameUnion(old(blocks), base, Pow2(order0), blocks, page, Pow2(order))
        decreases MAX_ORDER - order, going
      {
        ghost var b, g, n := blocks, page, Pow2(order);
        going, page := MergeBuddy(page, order, z);
        if going {
          SameUnionTrans(old(blocks), base, Pow2(order0), b, g, n, blocks, page, Pow2(order + 1));
          order := order + 1;
        }
      }
      ValidCanon();
      AddBlock(home, blocks, page, order);
      SameUnionAdds(old(blocks), base, Pow2(order0), blocks, page, Pow2(order), blocks[page := order]);
      AddFreeBlock(page, order, -1);
    }

    /** The loop that checks and clears the flags of the pages being freed. */
    method ClearFlags(base: nat, order: nat)
      requires Valid() && BlockOk(home, base, order) && NoneFree(blocks, base, Pow2(order))
      modifies this`pages
      ensures pages == old(pages)
    {
      BlockInRange(base, order);
      for p := base to base + Pow2(order)
        invariant pages == old(pages)
      {
        NotHead(blocks, base, Pow2(order), p);
        assert p in home;
        assert !pages[p].reserved && !pages[p].head;
        pages := pages[p := pages[p].(reserved := false, head := false)];
      }
    }

    /** One call of buddy_free_pages_sub inside buddy_free_pages. */
    method FreePiece(cur: nat, order: nat, ghost b0: Blocks, ghost base: nat, ghost m: nat, ghost z: nat)
      requires Valid() && Run(home, blocks, cur, m, z) && base <= cur && Adds(b0, blocks, base, cur - base)
      requires order <= MAX_ORDER && Pow2(order) <= m && (cur - z) % Pow2(order) == 0
      modifies this`pages, this`freeList, this`nrFree, this`blocks
      ensures Valid() && |pages| == |old(pages)|
      ensures Run(home, blocks, cur + Pow2(order), m - Pow2(order), z)
      ensures Adds(b0, blocks, base, cur + Pow2(order) - base)
    {
      hide *;
      RunBlock(home, blocks, cur, m, z, order);
      ghost var b := blocks;
      FreeBlock(cur, order);
      RunStep(home, b0, base, b, blocks, cur, m, z, order);
    }

    /** The first loop of buddy_free_pages: small blocks until the start is aligned. */
    method FreeUp(base: nat, n: nat) returns (ok: bool, cur: nat, m: nat, order: nat)
      requires Valid() && n > 0 && base in home && Run(home, blocks, base, n, home[base])
      modifies this`pages, this`freeList, this`nrFree, this`blocks
      ensures Valid() && |pages| == |old(pages)|
      ensures !ok ==> HasHuge(base - home[base], n)
      ensures ok ==> !HasHuge(base - home[base], n) && order <= HUGE && cur >= base && cur + m == base + n && m < Pow2(order)
      ensures ok ==> (cur - home[base]) % Pow2(order) == 0
      ensures ok ==> Run(home, blocks, cur, m, home[base]) && Adds(old(blocks), blocks, base, cur - base)
    {
      hide Run, Adds, Valid, Free, HasHuge, Pow2;
      RunHome(base, n);
      Pow2Zero();
      var z := memBase[pages[base].zone];
      var size := 1;
      order, cur, m, ok := 0, base, n, true;
      AddsNothing(blocks, base);
      while m >= size
        invariant z == home[base] && z <= base <= cur && cur + m == base + n && cur < base + size
        invariant Valid() && Run(home, blocks, cur, m, z) && Adds(old(blocks), blocks, base, cur - base)
        invariant |pages| == |old(pages)| && order <= HUGE && size == Pow2(order)
        invariant (cur - z) % size == 0
        decreases HUGE - order
      {
        if order > MAX_ORDER {
          assert HugeAt(base - z, n, cur - z);
          HugeIs(base - z, n, cur - z);
          ok := false;
          return;
        }
        NextAligned(cur - z, order);
        Pow2Step(order + 1);
        if (cur - z) / size % 2 != 0 {
          FreePiece(cur, order, old(blocks), base, m, z);
          cur, m := cur + size, m - size;
        }
        order, size := order + 1, 2 * size;
      }
      NoHuge(base - z, n, cur - z, m, order);
    }

    lemma RunHome(base: nat, n: nat)
      requires Valid() && n > 0 && base in home && Run(home, blocks, base, n, home[base])
      ensures base < |pages| && pages[base].zone < |memBase| && home[base] == memBase[pages[base].zone] <= base
    {
    }

    /** The second loop of buddy_free_pages: large blocks first, down to the end of the run. */
    method FreeDown(cur0: nat, m0: nat, order0: nat, ghost base: nat, ghost z: nat)
      requires Valid() && Run(home, blocks, cur0, m0, z) && z <= base <= cur0
      requires order0 <= HUGE && m0 < Pow2(order0) && (cur0 - z) % Pow2(order0) == 0
      modifies this`pages, this`freeList, this`nrFree, this`blocks
      ensures Valid() && Adds(old(blocks), blocks, cur0, m0) && |pages| == |old(pages)|
    {
      hide *;
      var cur: nat, m: nat, order: nat := cur0, m0, order0;
      AddsNothing(blocks, cur0);
      while m != 0
        invariant order <= HUGE && z <= cur0 <= cur && cur + m == cur0 + m0
        invariant Valid() && Run(home, blocks, cur, m, z) && Adds(old(blocks), blocks, cur0, cur - cur0)
        invariant |pages| == |old(pages)|
        invariant (cur - z) % Pow2(order) == 0 && (order == HUGE ==> m < Pow2(HUGE))
        decreases m
      {
        order := Largest(m, order, cur - z);
        NextAligned(cur - z, order);
        FreePiece(cur, order, old(blocks), cur0, m, z);
        Pow2Pos(order);
        cur, m := cur + Pow2(order), m - Pow2(order);
      }
    }

    /** The inner loop: the largest order, from `order0` down, whose block fits. */
    method Largest(m: nat, order0: nat, ghost x: nat) returns (order: nat)
      requires m > 0 && x % Pow2(order0) == 0 && order0 <= HUGE && (order0 == HUGE ==> m < Pow2(HUGE))
      ensures order <= order0 && order <= MAX_ORDER && Pow2(order) <= m && x % Pow2(order) == 0
    {
      order := order0;
      while m < Pow2(order)
        invariant order <= order0 && x % Pow2(order) == 0 && (order == HUGE ==> m < Pow2(HUGE))
      {
        AlignedDown(x, order - 1, order);
        order := order - 1;
      }
    }

    /** buddy_free_pages; `ok` is false where its assertion on the order fails. */
    method FreePages(base: nat, n: nat) returns (ok: bool)
      requires Valid() && n > 0 && base in home && Run(home, blocks, base, n, home[base])
      modifies this`pages, this`freeList, this`nrFree, this`blocks
      ensures base >= home[base] && (ok <==> !HasHuge(base - home[base], n))
      ensures ok ==> Valid() && Adds(old(blocks), blocks, base, n) && |pages| == |old(pages)|
    {
      hide Run, Adds, Valid, Free, HasHuge, Pow2;
      RunHome(base, n);
      Pow2Zero();
      if n == 1 {
        RunBlock(home, blocks, base, n, home[base], 0);
        Pow2Mono(0, HUGE);
        SmallNoHuge(base - home[base], n);
        FreeBlock(base, 0);
        return true;
      }
      var cur, m, order;
      ok, cur, m, order := FreeUp(base, n);
      if ok {
        ghost var b := blocks;
        FreeDown(cur, m, order, base, home[base]);
        AddsBoth(old(blocks), b, blocks, base, cur - base, m);
      }
    }

    // ---------- allocating ----------

    /** buddy_alloc_pages_sub: takes the first block of the smallest order that is large enough, and splits it. */
    method AllocBlock(order: nat) returns (found: bool, page: nat)
      requires Valid() && order <= MAX_ORDER
      modifies this`pages, this`freeList, this`nrFree, this`blocks
      ensures Valid() && |pages| == |old(pages)|
      ensures found ==> BlockOk(home, page, order) && Takes(old(blocks), blocks, page, Pow2(order))
      ensures !found ==> blocks == old(blocks) && forall g :: g in blocks ==> blocks[g] < order
    {
      hide Canon, Counted, Flags, Zones, Free;
      var cur := order;
      page := 0;
      while cur <= MAX_ORDER
        invariant order <= cur <= MAX_ORDER + 1
        invariant Valid() && blocks == old(blocks) && |pages| == |old(pages)|
        invariant forall g :: g in blocks ==> !(order <= blocks[g] < cur)
      {
        if freeList[cur] != [] {
          page := freeList[cur][0];
          assert page in freeList[cur];
          Carve(page, cur, order);
          return true, page;
        }
        assert forall g :: g in blocks && blocks[g] == cur ==> g in freeList[cur];
        cur := cur + 1;
      }
      BlockOrders();
      found := false;
    }

    lemma BlockOrders()
      requires Valid()
      ensures forall g :: g in blocks ==> blocks[g] <= MAX_ORDER
    {
    }

    /** Unlinks a free block and gives back its upper halves down to the wanted order. */
    method Carve(page: nat, cur0: nat, order: nat)
      requires Valid() && page in blocks && blocks[page] == cur0 && order <= cur0
      modifies this`pages, this`freeList, this`nrFree, this`blocks
      ensures Valid() && |pages| == |old(pages)|
      ensures BlockOk(home, page, order) && Takes(old(blocks), blocks, page, Pow2(order))
    {
      hide *;
      HeadFacts(page);
      ValidCanon();
      RemoveBlock(home, blocks, page);
      TakeFreeBlock(page, cur0);
      var cur := cur0;
      ghost var b1 := blocks;
      SameUnionRefl(b1, page, Pow2(cur));
      TakesNone(old(blocks), b1, page, Pow2(cur));
      Pow2Pos(cur0);
      while cur > order
        invariant order <= cur <= cur0 <= MAX_ORDER && page < |pages| && |pages| == |old(pages)| && page !in blocks
        invariant ValidBut(page) && BlockOk(home, page, cur) && NoneFree(blocks, page, Pow2(cur))
        invariant SameUnion(b1, page, Pow2(cur0), blocks, page, Pow2(cur))
      {
        ghost var b := blocks;
        cur := cur - 1;
        ButCanon(page);
        SplitReady(home, blocks, page, cur);
        SplitStep(home, blocks, page, cur);
        AddFreeBlock(page + Pow2(cur), cur, page);
        SameUnionTrans(b1, page, Pow2(cur0), b, page, Pow2(cur + 1), blocks, page, Pow2(cur));
      }
      Pow2Split(order, cur0);
      TakeSplit(old(blocks), b1, blocks, page, Pow2(cur0), Pow2(order));
      ClearHead(page);
    }

    lemma ButCanon(x: int)
      requires ValidBut(x)
      ensures Canon(home, blocks)
    {
    }

    /** getorder: the least order whose block holds `n` pages, if there is one. */
    method GetOrder(n: nat) returns (found: bool, order: nat)
      ensures found <==> n <= Pow2(MAX_ORDER)
      ensures found ==> order <= MAX_ORDER && n <= Pow2(order) && OrderFor(n, order)
    {
      hide Pow2;
      order := 0;
      while order <= MAX_ORDER
        invariant order <= MAX_ORDER + 1
        invariant forall k :: 0 <= k < order ==> Pow2(k) < n
      {
        if n <= Pow2(order) {
          Pow2Split(order, MAX_ORDER);
          return true, order;
        }
        order := order + 1;
      }
      assert Pow2(MAX_ORDER) < n;
      found := false;
    }

    /** buddy_alloc_pages. */
    method AllocPages(n: nat) returns (r: AllocResult)
      requires Valid() && n > 0
      modifies this`pages, this`freeList, this`nrFree, this`blocks
      ensures Valid() && |pages| == |old(pages)|
      ensures r.Panic? <==> n > Pow2(MAX_ORDER)
      ensures r.Allocated? ==> r.page in home && SameZone(home, r.page, n, home[r.page]) && Takes(old(blocks), blocks, r.page, n)
      ensures !r.Allocated? ==> blocks == old(blocks)
      ensures r.Allocated? ==> exists k :: OrderFor(n, k) && BlockOk(home, r.page, k)
      ensures r.NoMemory? <==> n <= Pow2(MAX_ORDER) && !Fits(home, old(blocks), n)
    {
      hide Canon, Free, AllFree, ValidBut, Takes, Run, OrderFor, Pow2, Adds, Fits;
      var found, order := GetOrder(n);
      if !found {
        return Panic;
      }
      var page;
      found, page := AllocBlock(order);
      if !found {
        ValidCanon();
        NoFit(home, blocks, order);
        FitsNot(home, blocks, n, order);
        return NoMemory;
      }
      TakesAll(old(blocks), blocks, page, Pow2(order));
      FitsAt(home, old(blocks), n, order, page);
      if n != Pow2(order) {
        ghost var b1 := blocks;
        TakeRun(home, old(blocks), b1, page, order, n);
        var ok := FreePages(page + n, Pow2(order) - n);
        Pow2Split(order, HUGE);
        SmallNoHuge(page + n - home[page], Pow2(order) - n);
        TakeAdd(old(blocks), b1, blocks, page, Pow2(order), n);
      }
      r := Allocated(page);
    }

    /** buddy_nr_free_pages. */
    method NrFreePages() returns (total: nat)
      requires Valid()
      ensures total == |FreeSet(blocks, |pages|)|
    {
      hide Total;
      total := 0;
      TotalNone(nrFree);
      for order := 0 to MAX_ORDER + 1
        invariant total == Total(nrFree[..order])
      {
        TotalNext(nrFree, order);
        total := total + nrFree[order] * Pow2(order);
      }
      assert nrFree[..MAX_ORDER + 1] == nrFree;
    }

    // ---------- zones ----------

    /** The loop of buddy_init_memmap over the page descriptors. */
    method ResetPages(base: nat, n: nat, zone: nat)
      requires base + n <= |pages| && forall p :: base <= p < base + n ==> pages[p].reserved
      modifies this`pages
      ensures |pages| == |old(pages)|
      ensures forall q :: 0 <= q < |pages| ==>
        pages[q] == if base <= q < base + n then Page(false, false, 0, zone) else old(pages)[q]
    {
      for p := base to base + n
        invariant |pages| == |old(pages)|
        invariant forall q :: 0 <= q < |pages| ==>
          pages[q] == if base <= q < p then Page(false, false, 0, zone) else old(pages)[q]
      {
        assert pages[p].reserved;
        pages := pages[p := Page(false, false, 0, zone)];
      }
    }

    /** A range of reserved pages becomes a zone. */
    method AdoptZone(base: nat, n: nat)
      requires Valid() && n > 0 && |memBase| < MAX_ZONES && base + n <= |pages|
      requires forall p :: base <= p < base + n ==> pages[p].reserved
      modifies this`pages, this`memBase, this`home
      ensures Valid() && |pages| == |old(pages)| && memBase == old(memBase) + [base]
      ensures home == old(home) + ZoneHome(base, n)
      ensures forall p :: p in home && home[p] == base ==> base <= p < base + n
      ensures Run(home, blocks, base, n, base)
    {
      hide Canon, Free, ListOk, Total, FreeSet, Run, In, ZonesOk;
      NewPages(base, n);
      ghost var h := home + ZoneHome(base, n);
      InZoneHome(base, n);
      CanonExtend(home, h, blocks);
      NewRun(home, h, blocks, base, n);
      ghost var was := pages;
      ResetPages(base, n, |memBase|);
      ZonesExtend(was, pages, memBase, home, base, n);
      memBase := memBase + [base];
      home := h;
      assert Flags(-1);
    }

    lemma NewPages(base: nat, n: nat)
      requires Valid() && base + n <= |pages| && forall p :: base <= p < base + n ==> pages[p].reserved
      ensures forall p :: base <= p < base + n ==> p !in home && p !in blocks
      ensures forall p :: p in home ==> home[p] < base || home[p] >= base + n
    {
    }

    /** buddy_init_memmap. */
    method InitMemmap(base: nat, n: nat)
      requires Valid() && n > 0 && |memBase| < MAX_ZONES && base + n <= |pages|
      requires forall p :: base <= p < base + n ==> pages[p].reserved
      modifies this
      ensures Valid() && |pages| == |old(pages)| && memBase == old(memBase) + [base]
      ensures home == old(home) + ZoneHome(base, n) && Adds(old(blocks), blocks, base, n)
    {
      hide *;
      AdoptZone(base, n);
      AddsNothing(blocks, base);
      var p: nat, m: nat, order: int := base, n, MAX_ORDER;
      ZeroAligned(MAX_ORDER);
      while m != 0
        invariant base <= p && p + m == base + n && -1 <= order <= MAX_ORDER && (order == -1 ==> m == 0)
        invariant Valid() && |pages| == |old(pages)| && memBase == old(memBase) + [base] && home == old(home) + ZoneHome(base, n)
        invariant forall q :: q in home && home[q] == base ==> base <= q < base + n
        invariant Run(home, blocks, p, m, base) && Adds(old(blocks), blocks, base, p - base)
        invariant order >= 0 ==> (p - base) % Pow2(if order < MAX_ORDER then order + 1 else order) == 0
        invariant 0 <= order < MAX_ORDER ==> m < Pow2(order + 1)
        decreases order + 1
      {
        p, m := AddZoneBlocks(base, n, p, m, order, old(blocks));
        order := order - 1;
        if order < 0 {
          Pow2Zero();
        }
      }
    }

    /** The inner loop: as many blocks of one order as still fit. */
    method AddZoneBlocks(base: nat, n: nat, p0: nat, m0: nat, order: nat, ghost b0: Blocks) returns (p: nat, m: nat)
      requires base <= p0 && p0 + m0 == base + n && order <= MAX_ORDER
      requires Valid() && Run(home, blocks, p0, m0, base) && Adds(b0, blocks, base, p0 - base)
      requires forall q :: q in home && home[q] == base ==> base <= q < base + n
      requires (p0 - base) % Pow2(if order < MAX_ORDER then order + 1 else order) == 0
      requires order < MAX_ORDER ==> m0 < Pow2(order + 1)
      modifies this`pages, this`freeList, this`nrFree, this`blocks
      ensures base <= p && p + m == base + n && m < Pow2(order) && (p - base) % Pow2(order) == 0
      ensures Valid() && |pages| == |old(pages)| && Run(home, blocks, p, m, base) && Adds(b0, blocks, base, p - base)
    {
      hide *;
      p, m := p0, m0;
      if order < MAX_ORDER {
        AlignedDown(p - base, order, order + 1);
        Pow2Step(order + 1);
      }
      while m >= Pow2(order)
        invariant base <= p && p + m == base + n && (p - base) % Pow2(order) == 0
        invariant order < MAX_ORDER && m >= Pow2(order) ==> (p - base) % Pow2(order + 1) == 0 && m < Pow2(order + 1)
        invariant Valid() && |pages| == |old(pages)| && Run(home, blocks, p, m, base) && Adds(b0, blocks, base, p - base)
      {
        ghost var b := blocks;
        RunBlock(home, blocks, p, m, base, order);
        ZoneBuddy(p, m, base, n, order);
        ValidCanon();
        AddBlock(home, b, p, order);
        AddFreeBlock(p, order, -1);
        RunStep(home, b0, base, b, blocks, p, m, base, order);
        NextAligned(p - base, order);
        Pow2Pos(order);
        p, m := p + Pow2(order), m - Pow2(order);
        Pow2Step(order + 1);
      }
    }

    /** At the frontier of a new zone the buddy of the next block lies ahead, so it is not free. */
    lemma ZoneBuddy(p: nat, m: nat, base: nat, n: nat, order: nat)
      requires base <= p && p + m == base + n && Run(home, blocks, p, m, base) && order <= MAX_ORDER && Pow2(order) <= m
      requires forall q :: q in home && home[q] == base ==> base <= q < base + n
      requires order < MAX_ORDER ==> (p - base) % Pow2(order + 1) == 0
      ensures p in home && home[p] == base
      ensures order < MAX_ORDER ==> !IsFreeBlock(home, blocks, Buddy(home, p, order), order, home[p])
    {
      if order < MAX_ORDER {
        HalfIndex(p - base, Pow2(order));
        var h := p + Pow2(order);
        if h < p + m {
          NotHead(blocks, p, m, h);
        }
      }
    }
  }

  lemma TakesAll(b: Blocks, b': Blocks, g: nat, n: nat)
    requires Takes(b, b', g, n)
    ensures AllFree(b, g, n) && NoneFree(b', g, n)
  {
  }

  // ---------- a run on which the assertion of buddy_free_pages fails ----------

  const HALF: nat := Pow2(MAX_ORDER)

  /** A zone of 2^17 pages, allocated as two blocks and freed in one call. */
  method FreeAtOnce() returns (ok: bool)
    ensures !ok
  {
    hide *;
    ZoneSize();
    var m := NewZone();
    TakeBoth(m);
    ok := m.FreePages(0, 2 * HALF);
  }

  method NewZone() returns (m: BuddyManager)
    ensures fresh(m) && m.Valid() && m.home == ZoneHome(0, 2 * HALF) && AllFree(m.blocks, 0, 2 * HALF)
  {
    assert MAX_ZONES > 0;
    hide *;
    ZoneSize();
    m := new BuddyManager(2 * HALF);
    m.InitMemmap(0, 2 * HALF);
    OnlyZone(ZoneHome(0, 2 * HALF));
    AllOfZone(m.blocks);
  }

  method TakeBoth(m: BuddyManager)
    requires m.Valid() && m.home == ZoneHome(0, 2 * HALF) && AllFree(m.blocks, 0, 2 * HALF)
    modifies m
    ensures m.Valid() && m.home == old(m.home) && 0 in m.home && m.home[0] == 0 && Run(m.home, m.blocks, 0, 2 * HALF, 0)
  {
    hide *;
    ZoneSize();
    FirstHalf(m.blocks);
    HalfFits(m.home, m.blocks, 0);
    var r := m.AllocPages(HALF);
    HalfTaken(m.home, old(m.blocks), m.blocks, r.page);
    ghost var b := m.blocks;
    HalfFits(m.home, b, HALF - r.page);
    var r2 := m.AllocPages(HALF);
    BothTaken(m.home, b, m.blocks, r.page, r2.page);
  }

  lemma OnlyZone(h: Home)
    ensures map[] + h == h
  {
  }

  lemma ZoneSize()
    ensures HALF > 0 && HALF == Pow2(MAX_ORDER) && HasHuge(0, 2 * HALF) && OrderFor(HALF, MAX_ORDER)
  {
    Pow2Step(HUGE);
    ZeroAligned(HUGE);
    HugeIs(0, 2 * HALF, 0);
    forall j | 0 <= j < MAX_ORDER
      ensures Pow2(j) < HALF
    {
      Pow2Mono(j, MAX_ORDER);
    }
  }

  lemma AllOfZone(b: Blocks)
    requires Adds(map[], b, 0, 2 * HALF)
    ensures AllFree(b, 0, 2 * HALF)
  {
  }

  lemma FirstHalf(b: Blocks)
    requires AllFree(b, 0, 2 * HALF)
    ensures AllFree(b, 0, HALF)
  {
  }

  /** The two halves are the only aligned blocks of the largest order. */
  lemma Halves(g: nat)
    ensures BlockOk(ZoneHome(0, 2 * HALF), g, MAX_ORDER) <==> g == 0 || g == HALF
  {
    hide Pow2, In;
    InZoneHome(0, 2 * HALF);
    ZeroAligned(MAX_ORDER);
    if BlockOk(ZoneHome(0, 2 * HALF), g, MAX_ORDER) {
      assert g + HALF - 1 in ZoneHome(0, 2 * HALF);
      Grid(0, g, HALF);
      if g > 0 {
        assert HALF % HALF == 0;
        Grid(g, HALF, HALF);
      }
    }
  }

  lemma HalfFits(home: Home, b: Blocks, g: nat)
    requires home == ZoneHome(0, 2 * HALF) && (g == 0 || g == HALF) && AllFree(b, g, HALF)
    ensures Fits(home, b, HALF)
  {
    hide *;
    ZoneSize();
    Halves(g);
    FitsAt(home, b, HALF, MAX_ORDER, g);
  }

  lemma HalfTaken(home: Home, b: Blocks, b': Blocks, g: nat)
    requires home == ZoneHome(0, 2 * HALF) && AllFree(b, 0, 2 * HALF) && Takes(b, b', g, HALF)
    requires exists k :: OrderFor(HALF, k) && BlockOk(home, g, k)
    ensures (g == 0 || g == HALF) && NoneFree(b', g, HALF) && AllFree(b', HALF - g, HALF)
  {
    IsHalf(home, g);
    hide Pow2, Free;
  }

  lemma IsHalf(home: Home, g: nat)
    requires home == ZoneHome(0, 2 * HALF) && exists k :: OrderFor(HALF, k) && BlockOk(home, g, k)
    ensures g == 0 || g == HALF
  {
    hide *;
    ZoneSize();
    var k :| OrderFor(HALF, k) && BlockOk(home, g, k);
    OrderUnique(HALF, k, MAX_ORDER);
    Halves(g);
  }

  lemma BothTaken(home: Home, b: Blocks, b': Blocks, g: nat, g2: nat)
    requires home == ZoneHome(0, 2 * HALF) && (g == 0 || g == HALF) && NoneFree(b, g, HALF) && Takes(b, b', g2, HALF)
    requires exists k :: OrderFor(HALF, k) && BlockOk(home, g2, k)
    ensures 0 in home && home[0] == 0 && Run(home, b', 0, 2 * HALF, 0)
  {
    IsHalf(home, g2);
    InZoneHome(0, 2 * HALF);
    hide Pow2, Free;
    assert g2 != g by {
      assert Free(b, g2);
    }
  }

  lemma ZeroAligned(k: nat)
    ensures 0 % Pow2(k) == 0
  {
  }

  lemma InZoneHome(base: nat, n: nat)
    ensures forall p :: p in ZoneHome(base, n) <==> base <= p < base + n
    ensures forall p :: p in ZoneHome(base, n) ==> ZoneHome(base, n)[p] == base
  {
  }

  lemma BlockExtend(home: Home, h: Home, g: nat, k: nat)
    requires BlockOk(home, g, k) && forall p :: p in home ==> p in h && h[p] == home[p]
    ensures BlockOk(h, g, k) && g in home && g in h && h[g] == home[g] && Buddy(h, g, k) == Buddy(home, g, k)
  {
    hide Pow2;
  }

  lemma CanonExtend(home: Home, h: Home, b: Blocks)
    requires Canon(home, b) && forall p :: p in home ==> p in h && h[p] == home[p]
    ensures Canon(h, b)
  {
    hide BlockOk, Buddy, Disjoint;
    forall g | g in b
      ensures BlockOk(h, g, b[g]) && g in home && g in h && h[g] == home[g] && Buddy(h, g, b[g]) == Buddy(home, g, b[g])
    {
      BlockExtend(home, h, g, b[g]);
    }
    forall g | g in b && b[g] < MAX_ORDER
      ensures !IsFreeBlock(h, b, Buddy(h, g, b[g]), b[g], h[g])
    {
      assert !IsFreeBlock(home, b, Buddy(home, g, b[g]), b[g], home[g]);
    }
  }

  lemma NewRun(home: Home, h: Home, b: Blocks, base: nat, n: nat)
    requires Canon(home, b) && h == home + ZoneHome(base, n)
    requires forall p :: base <= p < base + n ==> p !in home
    ensures Run(h, b, base, n, base)
  {
    forall p | base <= p < base + n
      ensures !Free(b, p)
    {
      if Free(b, p) {
        FreeHome(home, b, p);
      }
    }
  }

  lemma FreeHome(home: Home, b: Blocks, p: nat)
    requires Canon(home, b) && Free(b, p)
    ensures p in home
  {
    var g :| g in b && In(p, g, Pow2(b[g]));
    assert BlockOk(home, g, b[g]);
  }

  lemma TakesNone(b: Blocks, b': Blocks, g: nat, n: nat)
    requires Takes(b, b', g, n)
    ensures NoneFree(b', g, n) && (n > 0 ==> g !in b')
  {
    if n > 0 {
      NotHead(b', g, n, g);
    }
  }

  lemma Pow2Zero()
    ensures Pow2(0) == 1 && Pow2(1) == 2
  {
  }

  lemma AddsBoth(b: Blocks, b': Blocks, b'': Blocks, g: nat, n: nat, m: nat)
    requires Adds(b, b', g, n) && Adds(b', b'', g + n, m)
    ensures Adds(b, b'', g, n + m)
  {
  }

  lemma AddsNothing(b: Blocks, g: nat)
    ensures Adds(b, b, g, 0)
  {
  }

  lemma HugeIs(i: nat, n: nat, x: nat)
    requires HugeAt(i, n, x)
    ensures HasHuge(i, n)
  {
  }

  lemma Pow2Pos(k: nat)
    ensures Pow2(k) > 0
  {
  }

  lemma {:induction false} ZeroTotal(nr: seq<nat>)
    requires forall i :: 0 <= i < |nr| ==> nr[i] == 0
    ensures Total(nr) == 0
  {
    if nr != [] {
      ZeroTotal(nr[..|nr| - 1]);
    }
  }
}
