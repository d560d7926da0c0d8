/**
 The layout arithmetic of mm/slab.c on a 32-bit machine: how many objects fit beside the
 control area of a slab, which page order a cache takes, and where its control areas live.
 */
module SlabLayout {
  import opened Powers

  const PGSIZE: nat := 4096
  const SLAB_T: nat := 24
  const BUFCTL_T: nat := 4
  const BUFCTL_END: nat := 0xFFFFFFFF
  const SLAB_LIMIT: nat := 0xFFFFFFFE
  const KMALLOC_MAX_ORDER: nat := 10
  const MIN_SIZE_ORDER: nat := 5
  const MAX_SIZE_ORDER: nat := 17
  const SLAB_CACHE_NUM: nat := 13

  /** A cache's fixed properties; `ctl` is the cache its control areas come from when they are off the slab. */
  datatype Cfg = Cfg(objsize: nat, num: nat, offset: nat, off: bool, order: nat, ctl: nat)

  datatype Option<T> = None | Some(value: T)

  datatype Fit = Fit(order: nat, num: nat, left: nat)

  function SlabSize(order: nat): nat
  {
    PGSIZE * Pow2(order)
  }

  /** The control area of a slab of `num` objects, rounded up to 16 bytes. */
  function Mgmt(num: nat): nat
  {
    (SLAB_T + num * BUFCTL_T + 15) / 16 * 16
  }

  predicate Fits(order: nat, objsize: nat, n: nat)
  {
    Mgmt(n) + n * objsize <= SlabSize(order)
  }

  function Down(order: nat, objsize: nat, n: nat): nat
  {
    if n == 0 || Fits(order, objsize, n) then n else Down(order, objsize, n - 1)
  }

  /** The number of objects per slab. */
  function Estimate(order: nat, objsize: nat, off: bool): nat
    requires objsize > 0
  {
    if off then SlabSize(order) / objsize
    else Down(order, objsize, (SlabSize(order) - SLAB_T) / (objsize + BUFCTL_T))
  }

  function Left(order: nat, objsize: nat, off: bool): int
    requires objsize > 0
  {
    var n := Estimate(order, objsize, off);
    SlabSize(order) - n * objsize - if off then 0 else Mgmt(n)
  }

  lemma SlabSizeBounds(order: nat)
    ensures PGSIZE <= SlabSize(order)
    ensures order <= KMALLOC_MAX_ORDER ==> SlabSize(order) <= 0x40_0000
  {
    if order <= KMALLOC_MAX_ORDER {
      assert Pow2(10) == 1024 by {
        assert Pow2(5) == 32;
      }
      Pow2Split(order, KMALLOC_MAX_ORDER);
    }
  }

  lemma Round16(x: nat, y: nat)
    requires x <= y
    ensures (x + 15) / 16 * 16 <= (y + 15) / 16 * 16 && x <= (x + 15) / 16 * 16 < x + 16
  {
  }

  lemma MgmtMono(m: nat, n: nat)
    requires m <= n
    ensures Mgmt(m) <= Mgmt(n) && SLAB_T + n * BUFCTL_T <= Mgmt(n) < SLAB_T + n * BUFCTL_T + 16 && Mgmt(0) == 32
  {
    Round16(SLAB_T + m * BUFCTL_T, SLAB_T + n * BUFCTL_T);
    Round16(SLAB_T + n * BUFCTL_T, SLAB_T + n * BUFCTL_T);
  }

  lemma MulLe(a: nat, b: nat, c: nat)
    requires a <= b
    ensures a * c <= b * c
  {
  }

  lemma {:induction false} DownIs(order: nat, objsize: nat, n: nat)
    ensures Down(order, objsize, n) <= n && Fits(order, objsize, Down(order, objsize, n))
    ensures forall m :: Down(order, objsize, n) < m <= n ==> !Fits(order, objsize, m)
  {
    if n == 0 {
      SlabSizeBounds(order);
    } else if !Fits(order, objsize, n) {
      DownIs(order, objsize, n - 1);
    }
  }

  /** On the slab, the estimate is the largest number of objects that fits beside its own control area. */
  lemma EstimateLargest(order: nat, objsize: nat)
    requires objsize > 0
    ensures var n := Estimate(order, objsize, false); Fits(order, objsize, n) && forall m :: n < m ==> !Fits(order, objsize, m)
    ensures Left(order, objsize, false) >= 0
  {
    SlabSizeBounds(order);
    var top := (SlabSize(order) - SLAB_T) / (objsize + BUFCTL_T);
    DownIs(order, objsize, top);
    forall m | Estimate(order, objsize, false) < m
      ensures !Fits(order, objsize, m)
    {
      if top < m {
        TooMany(SlabSize(order) - SLAB_T, objsize, m);
        MgmtMono(0, m);
      }
    }
  }

  lemma TooMany(space: nat, objsize: nat, m: nat)
    requires objsize > 0 && space / (objsize + BUFCTL_T) < m
    ensures space < m * objsize + m * BUFCTL_T
  {
    var d := objsize + BUFCTL_T;
    assert space < (space / d + 1) * d;
    MulLe(space / d + 1, m, d);
    assert m * d == m * objsize + m * BUFCTL_T;
  }

  /** Off the slab, the objects fill it up to less than one more. */
  lemma EstimateOff(order: nat, objsize: nat)
    requires objsize > 0
    ensures var n := Estimate(order, objsize, true); n * objsize <= SlabSize(order) < (n + 1) * objsize
    ensures 0 <= Left(order, objsize, true) < objsize
  {
    var q, d := SlabSize(order), objsize;
    assert q == q / d * d + q % d;
    assert (q / d + 1) * d == q / d * d + d;
  }

  /** A slab of that order holds an object and wastes at most an eighth of its pages. */
  predicate Frugal(objsize: nat, off: bool, order: nat)
    requires objsize > 0
  {
    Estimate(order, objsize, off) > 0 && Left(order, objsize, off) * 8 <= SlabSize(order)
  }

  /** A control area kept off the slab would be larger than one object. */
  predicate Overfull(objsize: nat, off: bool, order: nat)
    requires objsize > 0
  {
    off && SLAB_T + Estimate(order, objsize, off) * BUFCTL_T > objsize && Estimate(order, objsize, off) > 0
  }

  predicate Passed(objsize: nat, off: bool, order: nat)
    requires objsize > 0
  {
    !Frugal(objsize, off, order) && !Overfull(objsize, off, order)
  }

  /** The choice of a page order from `start` on: the least frugal one, unless an order up to it is overfull;
      and none exactly when some order is overfull before any is frugal, or no order is either. */
  ghost predicate Chosen(objsize: nat, off: bool, start: nat, r: Option<Fit>)
    requires objsize > 0
  {
    match r
    case Some(f) =>
      && start <= f.order <= KMALLOC_MAX_ORDER && Frugal(objsize, off, f.order) && !Overfull(objsize, off, f.order)
      && f.num == Estimate(f.order, objsize, off) && f.left == Left(f.order, objsize, off)
      && forall k :: start <= k < f.order ==> Passed(objsize, off, k)
    case None =>
      || (forall k :: start <= k <= KMALLOC_MAX_ORDER ==> Passed(objsize, off, k))
      || MeetsOverfull(objsize, off, start)
  }

  ghost predicate MeetsOverfull(objsize: nat, off: bool, start: nat)
    requires objsize > 0
  {
    exists k :: start <= k <= KMALLOC_MAX_ORDER && OverfullFirst(objsize, off, start, k)
  }

  ghost predicate OverfullFirst(objsize: nat, off: bool, start: nat, order: nat)
    requires objsize > 0
  {
    Overfull(objsize, off, order) && forall k :: start <= k < order ==> Passed(objsize, off, k)
  }

  /** There is only one such choice. */
  lemma ChosenUnique(objsize: nat, off: bool, start: nat, r: Option<Fit>, r': Option<Fit>)
    requires objsize > 0 && Chosen(objsize, off, start, r) && Chosen(objsize, off, start, r')
    ensures r == r'
  {
    hide Frugal, Overfull, Estimate, Left;
    if r.Some? && r'.Some? {
      var k := if r.value.order < r'.value.order then r.value.order else r'.value.order;
      assert r.value.order != r'.value.order ==> Passed(objsize, off, k);
    } else if r.Some? {
      SomeNotNone(objsize, off, start, r.value);
    } else if r'.Some? {
      SomeNotNone(objsize, off, start, r'.value);
    }
  }

  lemma SomeNotNone(objsize: nat, off: bool, start: nat, f: Fit)
    requires objsize > 0 && Chosen(objsize, off, start, Some(f))
    ensures !Chosen(objsize, off, start, None)
  {
    hide Frugal, Overfull, Estimate, Left;
    assert !Passed(objsize, off, f.order);
    assert forall k :: OverfullFirst(objsize, off, start, k) ==> !Passed(objsize, off, k);
    if MeetsOverfull(objsize, off, start) {
      var k :| start <= k <= KMALLOC_MAX_ORDER && OverfullFirst(objsize, off, start, k);
    }
  }

  /** The first page order whose waste is at most an eighth; off the slab the control area must fit in one object. */
  function Choose(objsize: nat, off: bool, order: nat): Option<Fit>
    requires objsize >= SLAB_T
    decreases KMALLOC_MAX_ORDER + 1 - order
  {
    if order > KMALLOC_MAX_ORDER then None
    else
      var num, left := Estimate(order, objsize, off), Left(order, objsize, off);
      if num != 0 && off && num > (objsize - SLAB_T) / BUFCTL_T then None
      else if num != 0 && 0 <= left && left * 8 <= SlabSize(order) then Some(Fit(order, num, left))
      else Choose(objsize, off, order + 1)
  }

  /** Lowers the first guess until control area and objects fit. */
  method FitDown(order: nat, objsize: nat) returns (num: nat)
    requires objsize > 0 && order <= KMALLOC_MAX_ORDER
    ensures num == Estimate(order, objsize, false)
  {
    hide SlabSize, Fits;
    SlabSizeBounds(order);
    FitsNone(order, objsize);
    num := (SlabSize(order) - SLAB_T) / (objsize + BUFCTL_T);
    while !Fits(order, objsize, num)
      invariant Down(order, objsize, num) == Estimate(order, objsize, false)
      decreases num
    {
      num := num - 1;
    }
  }

  lemma FitsNone(order: nat, objsize: nat)
    ensures Fits(order, objsize, 0)
  {
    SlabSizeBounds(order);
  }

  lemma EstimateBound(order: nat, objsize: nat, off: bool)
    requires objsize > 0 && order <= KMALLOC_MAX_ORDER
    ensures Estimate(order, objsize, off) <= SLAB_LIMIT && Left(order, objsize, off) >= 0
  {
    hide SlabSize, Down, Fits, Mgmt;
    SlabSizeBounds(order);
    if off {
      hide Left;
      EstimateOff(order, objsize);
      QuotientBound(SlabSize(order), objsize);
    } else {
      hide Left;
      EstimateLargest(order, objsize);
      var top := (SlabSize(order) - SLAB_T) / (objsize + BUFCTL_T);
      DownIs(order, objsize, top);
      QuotientBound(SlabSize(order) - SLAB_T, objsize + BUFCTL_T);
    }
  }

  method CacheEstimate(order: nat, objsize: nat, off: bool) returns (num: nat, remainder: nat)
    requires objsize > 0 && order <= KMALLOC_MAX_ORDER
    ensures num == Estimate(order, objsize, off) && remainder == Left(order, objsize, off)
    ensures num <= SLAB_LIMIT
  {
    hide SlabSize, Mgmt, Down;
    EstimateBound(order, objsize, off);
    var slabSize := SlabSize(order);
    var mgmt := 0;
    if off {
      num := slabSize / objsize;
      if num > SLAB_LIMIT {
        num := SLAB_LIMIT;
      }
    } else {
      num := FitDown(order, objsize);
      if num > SLAB_LIMIT {
        num := SLAB_LIMIT;
      }
      mgmt := Mgmt(num);
    }
    remainder := slabSize - num * objsize - mgmt;
  }

  lemma QuotientBound(a: nat, d: nat)
    requires d > 0
    ensures a / d <= a
  {
    assert a == a / d * d + a % d;
    MulLe(1, d, a / d);
  }

  method CalculateSlabOrder(objsize: nat, off: bool) returns (r: Option<Fit>)
    requires objsize >= SLAB_T
    ensures Chosen(objsize, off, 0, r) && r == Choose(objsize, off, 0)
  {
    hide Estimate, Left, SlabSize, Chosen;
    ChooseOk(objsize, off, 0);
    var order := 0;
    while order <= KMALLOC_MAX_ORDER
      invariant order <= KMALLOC_MAX_ORDER + 1 && Choose(objsize, off, 0) == Choose(objsize, off, order)
    {
      var num, remainder := CacheEstimate(order, objsize, off);
      if num != 0 {
        if off {
          var limit := (objsize - SLAB_T) / BUFCTL_T;
          if num > limit {
            return None;
          }
        }
        if remainder * 8 <= SlabSize(order) {
          return Some(Fit(order, num, remainder));
        }
      }
      order := order + 1;
    }
    return None;
  }

  /** The least order whose size holds `n` bytes, or none above the largest. */
  method GetOrder(n: nat) returns (r: Option<nat>)
    ensures r.None? <==> n > Pow2(MAX_SIZE_ORDER)
    ensures r.Some? ==> MIN_SIZE_ORDER <= r.value <= MAX_SIZE_ORDER && n <= Pow2(r.value)
    ensures r.Some? ==> forall k :: MIN_SIZE_ORDER <= k < r.value ==> Pow2(k) < n
  {
    var order, size := MIN_SIZE_ORDER, Pow2(MIN_SIZE_ORDER);
    while order <= MAX_SIZE_ORDER
      invariant MIN_SIZE_ORDER <= order <= MAX_SIZE_ORDER + 1 && size == Pow2(order)
      invariant forall k :: MIN_SIZE_ORDER <= k < order ==> Pow2(k) < n
    {
      if n <= size {
        Pow2Split(order, MAX_SIZE_ORDER);
        return Some(order);
      }
      order, size := order + 1, 2 * size;
    }
    return None;
  }

  // ---------- the caches ----------

  /** The objects of a slab and its control area lie within its pages, the control area before the objects or elsewhere. */
  predicate LayoutOk(c: Cfg)
  {
    && c.objsize > 0 && 0 < c.num < BUFCTL_END && c.offset + c.num * c.objsize <= SlabSize(c.order)
    && (if c.off then c.offset == 0 && c.ctl < SLAB_CACHE_NUM else c.offset == Mgmt(c.num))
  }

  /** Every cache is laid out soundly, and control areas kept off the slab fit in an object of a cache that keeps its own on it. */
  predicate CfgsOk(cfg: seq<Cfg>)
  {
    && |cfg| == SLAB_CACHE_NUM
    && (forall c :: 0 <= c < SLAB_CACHE_NUM ==> LayoutOk(cfg[c]) && cfg[c].objsize == Pow2(c + MIN_SIZE_ORDER))
    && (forall c :: 0 <= c < SLAB_CACHE_NUM && cfg[c].off ==> !cfg[cfg[c].ctl].off && Mgmt(cfg[c].num) <= cfg[cfg[c].ctl].objsize)
  }

  /** The recursion makes that choice. */
  lemma {:induction false} ChooseOk(objsize: nat, off: bool, order: nat)
    requires objsize >= SLAB_T
    ensures Chosen(objsize, off, order, Choose(objsize, off, order))
    decreases KMALLOC_MAX_ORDER + 1 - order
  {
    hide Estimate, Left, SlabSize, Frugal, Overfull;
    if order <= KMALLOC_MAX_ORDER {
      ChooseStep(objsize, off, order);
      ChooseOk(objsize, off, order + 1);
      if Passed(objsize, off, order) {
        ChosenBack(objsize, off, order, Choose(objsize, off, order));
      } else if Overfull(objsize, off, order) {
        assert OverfullFirst(objsize, off, order, order);
      }
    }
  }

  lemma ChooseStep(objsize: nat, off: bool, order: nat)
    requires objsize >= SLAB_T && order <= KMALLOC_MAX_ORDER
    ensures var r := Choose(objsize, off, order);
      && (Overfull(objsize, off, order) ==> r == None)
      && (!Overfull(objsize, off, order) && Frugal(objsize, off, order) ==>
            r.Some? && r.value.order == order && r.value.num == Estimate(order, objsize, off) && r.value.left == Left(order, objsize, off))
      && (Passed(objsize, off, order) ==> r == Choose(objsize, off, order + 1))
  {
    EstimateBound(order, objsize, off);
    hide Estimate, Left, SlabSize;
    Quarter(objsize - SLAB_T, Estimate(order, objsize, off));
  }

  lemma Quarter(space: nat, num: nat)
    ensures num > space / BUFCTL_T <==> num * BUFCTL_T > space
  {
  }

  lemma ChosenBack(objsize: nat, off: bool, start: nat, r: Option<Fit>)
    requires objsize > 0 && Passed(objsize, off, start) && Chosen(objsize, off, start + 1, r)
    ensures Chosen(objsize, off, start, r)
  {
    hide Estimate, Left, SlabSize, Frugal, Overfull, Passed;
    if r.None? && MeetsOverfull(objsize, off, start + 1) {
      var k :| start + 1 <= k <= KMALLOC_MAX_ORDER && OverfullFirst(objsize, off, start + 1, k);
      assert OverfullFirst(objsize, off, start, k);
    }
  }

  /** Objects and control area within the slab, whichever way the choice was made. */
  lemma ChoiceFits(objsize: nat, off: bool, f: Fit)
    requires objsize >= SLAB_T && f.num == Estimate(f.order, objsize, off) && f.left == Left(f.order, objsize, off)
    requires f.order <= KMALLOC_MAX_ORDER
    ensures off ==> f.num * objsize <= SlabSize(f.order)
    ensures !off || Mgmt(f.num) <= f.left ==> Mgmt(f.num) + f.num * objsize <= SlabSize(f.order)
    ensures f.num <= SLAB_LIMIT
  {
    hide SlabSize, Mgmt, Down;
    EstimateBound(f.order, objsize, off);
  }

  /** The fixed properties of a cache for objects of the given size, or none where the source panics. */
  method InitKmemCache(size: nat) returns (r: Option<Cfg>)
    requires size >= SLAB_T
    ensures r.Some? ==> LayoutOk(r.value) && r.value.objsize == (size + 15) / 16 * 16
    ensures r.Some? && r.value.off ==>
      && MIN_SIZE_ORDER <= r.value.ctl + MIN_SIZE_ORDER <= MAX_SIZE_ORDER
      && Mgmt(r.value.num) <= Pow2(r.value.ctl + MIN_SIZE_ORDER)
      && forall k :: MIN_SIZE_ORDER <= k < r.value.ctl + MIN_SIZE_ORDER ==> Pow2(k) < Mgmt(r.value.num)
    ensures var objsize := (size + 15) / 16 * 16; var f := Choose(objsize, objsize >= 512, 0);
      && (r.Some? ==> f.Some? && r.value.num == f.value.num && r.value.order == f.value.order)
      && (r.Some? ==> r.value.off == (objsize >= 512 && f.value.left < Mgmt(f.value.num)))
      && (r.None? ==> f.None? || Mgmt(f.value.num) > Pow2(MAX_SIZE_ORDER))
  {
    hide Choose, SlabSize, Mgmt, Estimate, Left, Pow2;
    var objsize := (size + 15) / 16 * 16;
    var off := objsize >= PGSIZE / 8;
    var f := CalculateSlabOrder(objsize, off);
    if f.None? {
      return None;
    }
    ChoiceFits(objsize, off, f.value);
    var mgmt := Mgmt(f.value.num);
    if off && f.value.left >= mgmt {
      off := false;
    }
    if off {
      var order := GetOrder(mgmt);
      if order.None? {
        return None;
      }
      r := Some(Cfg(objsize, f.value.num, 0, true, f.value.order, order.value - MIN_SIZE_ORDER));
    } else {
      r := Some(Cfg(objsize, f.value.num, mgmt, false, f.value.order, 0));
    }
  }

  // ---------- the thirteen caches ----------

  lemma SmallPowers()
    ensures Pow2(0) == 1 && Pow2(1) == 2 && Pow2(2) == 4 && Pow2(3) == 8 && Pow2(4) == 16 && Pow2(5) == 32
    ensures Pow2(6) == 64 && Pow2(7) == 128 && Pow2(8) == 256 && Pow2(9) == 512 && Pow2(10) == 1024 && Pow2(11) == 2048
    ensures Pow2(12) == 4096 && Pow2(13) == 8192 && Pow2(14) == 16384 && Pow2(15) == 32768
    ensures Pow2(16) == 65536 && Pow2(17) == 131072
  {
    assert Pow2(5) == 32;
    assert Pow2(10) == 1024;
    assert Pow2(15) == 32768;
  }

  lemma OnePage(size: nat, n: nat)
    requires SLAB_T <= size && 0 < n == (PGSIZE - SLAB_T) / (size + BUFCTL_T)
    requires Mgmt(n) + n * size <= PGSIZE && (PGSIZE - n * size - Mgmt(n)) * 8 <= PGSIZE
    ensures Choose(size, false, 0) == Some(Fit(0, n, PGSIZE - n * size - Mgmt(n)))
  {
    hide Mgmt;
    assert SlabSize(0) == PGSIZE;
    assert Fits(0, size, n);
    assert Estimate(0, size, false) == n;
  }

  /** The caches below 512 bytes take one page and keep their control area on it. */
  lemma SmallChoice(k: nat)
    requires 5 <= k <= 8
    ensures Pow2(k) >= SLAB_T
    ensures var n := if k == 5 then 113 else if k == 6 then 59 else if k == 7 then 30 else 15;
      Choose(Pow2(k), false, 0) == Some(Fit(0, n, PGSIZE - n * Pow2(k) - Mgmt(n)))
  {
    hide Choose;
    SmallPowers();
    if k == 5 {
      assert Mgmt(113) == 480;
      OnePage(32, 113);
    } else if k == 6 {
      assert Mgmt(59) == 272;
      OnePage(64, 59);
    } else if k == 7 {
      assert Mgmt(30) == 144;
      OnePage(128, 30);
    } else {
      assert Mgmt(15) == 96;
      OnePage(256, 15);
    }
  }

  /** From 512 bytes to a page, whole objects fill one page. */
  lemma MiddleChoice(k: nat)
    requires 9 <= k <= 12
    ensures Pow2(k) >= SLAB_T
    ensures Choose(Pow2(k), true, 0) == Some(Fit(0, Pow2(12 - k), 0))
  {
    SmallPowers();
    assert SlabSize(0) == 4096;
    assert 4096 / Pow2(k) == Pow2(12 - k);
  }

  /** Above a page, one object fills a slab, and smaller slabs hold none. */
  lemma LargeChoice(k: nat)
    requires 13 <= k <= 17
    ensures Pow2(k) >= SLAB_T
    ensures Choose(Pow2(k), true, 0) == Some(Fit(k - 12, 1, 0))
  {
    LargeStep(k, 0);
  }

  lemma {:induction false} LargeStep(k: nat, order: nat)
    requires 13 <= k <= 17 && order <= k - 12
    ensures Pow2(k) >= SLAB_T
    ensures Choose(Pow2(k), true, order) == Some(Fit(k - 12, 1, 0))
    decreases k - 12 - order
  {
    SmallPowers();
    Pow2Split(12, 12 + order);
    Pow2Split(12, k);
    if order < k - 12 {
      Pow2Less(12 + order, k);
      assert SlabSize(order) == Pow2(12 + order) < Pow2(k);
      assert Estimate(order, Pow2(k), true) == 0;
      LargeStep(k, order + 1);
    } else {
      assert SlabSize(order) == Pow2(k);
      assert Estimate(order, Pow2(k), true) == 1;
    }
  }

  lemma Pow2Less(a: nat, b: nat)
    requires a < b
    ensures Pow2(a) < Pow2(b)
  {
    Pow2Split(a + 1, b);
  }

  /** What the choice comes to for each cache. */
  lemma CacheChoice(i: nat)
    requires i < SLAB_CACHE_NUM
    ensures var size := Pow2(i + MIN_SIZE_ORDER); size >= SLAB_T && (size + 15) / 16 * 16 == size && (size >= 512 <==> i >= 4)
    ensures var size := Pow2(i + MIN_SIZE_ORDER); var f := Choose(size, size >= 512, 0);
      f.Some? && Mgmt(f.value.num) <= Pow2(MAX_SIZE_ORDER) && (i >= 4 ==> f.value.left == 0 && 0 < Mgmt(f.value.num) <= Pow2(6))
  {
    hide Choose;
    SmallPowers();
    var k := i + MIN_SIZE_ORDER;
    assert k in {5, 6, 7, 8, 9, 10, 11, 12, 13, 14, 15, 16, 17};
    if k <= 8 {
      SmallChoice(k);
    } else if k <= 12 {
      MiddleChoice(k);
      assert Pow2(12 - k) <= 8;
    } else {
      LargeChoice(k);
    }
  }

  lemma LowControl(c: Cfg)
    requires Mgmt(c.num) <= Pow2(6) && forall k :: MIN_SIZE_ORDER <= k < c.ctl + MIN_SIZE_ORDER ==> Pow2(k) < Mgmt(c.num)
    ensures c.ctl <= 1
  {
    hide Pow2, Mgmt;
  }

  /** Setting up the caches never panics, and gives a sound layout for every size. */
  method SlabInit() returns (cfg: seq<Cfg>)
    ensures CfgsOk(cfg)
    ensures forall c :: 0 <= c < SLAB_CACHE_NUM ==> (cfg[c].off <==> c >= 4) && (cfg[c].off ==> cfg[c].ctl <= 1)
  {
    hide Choose, Mgmt, Pow2, LayoutOk;
    cfg := [];
    var i := 0;
    while i < SLAB_CACHE_NUM
      invariant i == |cfg| <= SLAB_CACHE_NUM
      invariant forall c :: 0 <= c < i ==> LayoutOk(cfg[c]) && cfg[c].objsize == Pow2(c + MIN_SIZE_ORDER)
      invariant forall c :: 0 <= c < i ==> (cfg[c].off <==> c >= 4) && (cfg[c].off ==> cfg[c].ctl <= 1)
      invariant forall c :: 0 <= c < i && cfg[c].off ==> Mgmt(cfg[c].num) <= Pow2(cfg[c].ctl + MIN_SIZE_ORDER)
    {
      CacheChoice(i);
      var r := InitKmemCache(Pow2(i + MIN_SIZE_ORDER));
      assert r.Some?;
      if r.value.off {
        LowControl(r.value);
      }
      cfg := cfg + [r.value];
      i := i + 1;
    }
    forall c | 0 <= c < SLAB_CACHE_NUM && cfg[c].off
      ensures !cfg[cfg[c].ctl].off && Mgmt(cfg[c].num) <= cfg[cfg[c].ctl].objsize
    {
      assert cfg[cfg[c].ctl].objsize == Pow2(cfg[c].ctl + MIN_SIZE_ORDER);
    }
  }
}
