/**
 Free blocks of a buddy allocator as a map from the first page of a block to its
 order. Pages are numbered globally; `home` gives, for every managed page, the first
 page of its zone, which is the origin for alignment inside that zone.
 */
module BuddyBlocks {
  import opened Powers

  const MAX_ORDER: nat := 16

  type Home = map<nat, nat>
  type Blocks = map<nat, nat>

  /** The pages `g .. g + 2^k` are one aligned block of one zone. */
  ghost predicate BlockOk(home: Home, g: nat, k: nat)
  {
    k <= MAX_ORDER && g in home && home[g] <= g && (g - home[g]) % Pow2(k) == 0 && SameZone(home, g, Pow2(k), home[g])
  }

  ghost predicate SameZone(home: Home, g: nat, n: nat, z: nat)
  {
    forall p :: g <= p < g + n ==> p in home && home[p] == z
  }

  /** The other half of the block twice as large; flips one bit of the zone-relative index. */
  function Buddy(home: Home, g: nat, k: nat): int
    requires g in home
  {
    if (g - home[g]) / Pow2(k) % 2 == 0 then g + Pow2(k) else g - Pow2(k)
  }

  ghost predicate Disjoint(b: Blocks)
  {
    forall g, h :: g in b && h in b && g < h ==> g + Pow2(b[g]) <= h
  }

  ghost predicate IsFreeBlock(home: Home, b: Blocks, g: int, k: nat, z: nat)
  {
    g >= 0 && g in b && b[g] == k && g in home && home[g] == z
  }

  /** No two free buddies of one order stand side by side. */
  ghost predicate Merged(home: Home, b: Blocks)
    requires forall g :: g in b ==> g in home
  {
    forall g :: g in b && b[g] < MAX_ORDER ==> !IsFreeBlock(home, b, Buddy(home, g, b[g]), b[g], home[g])
  }

  /** The invariant of the free blocks. */
  ghost predicate Canon(home: Home, b: Blocks)
  {
    (forall g :: g in b ==> BlockOk(home, g, b[g])) && Disjoint(b) && Merged(home, b)
  }

  ghost predicate In(p: nat, g: nat, n: nat) { g <= p < g + n }

  ghost predicate Free(b: Blocks, p: nat)
  {
    exists g :: g in b && In(p, g, Pow2(b[g]))
  }

  ghost predicate AllFree(b: Blocks, g: nat, n: nat)
  {
    forall p :: g <= p < g + n ==> Free(b, p)
  }

  ghost predicate NoneFree(b: Blocks, g: nat, n: nat)
  {
    forall p :: g <= p < g + n ==> !Free(b, p)
  }

  // ---------- powers of two ----------

  lemma ModMul(x: nat, s: nat, m: nat)
    requires s > 0 && m > 0 && x % (s * m) == 0
    ensures x % s == 0
  {
    var q := x / (s * m);
    assert x == (s * m) * q;
    assert (s * m) * q == s * (m * q) by { MulAssoc(s, m, q); }
    MulMod(s, m * q);
  }

  lemma MulAssoc(x: int, y: int, z: int)
    ensures (x * y) * z == x * (y * z)
  {
  }

  lemma MulMod(s: nat, q: nat)
    requires s > 0
    ensures (s * q) % s == 0 && (s * q) / s == q
  {
    DivUnique(s * q, s, q, 0);
  }

  lemma MulGe(s: int, d: int)
    requires s > 0 && d >= 1
    ensures s * d >= s
  {
  }

  /** Consecutive multiples of `s` are `s` apart. */
  lemma Multiples(s: int, a: int, b: int)
    requires s > 0
    ensures a < b ==> s * a + s <= s * b
  {
    if a < b {
      MulGe(s, b - a);
      assert s * (b - a) == s * b - s * a;
    }
  }

  lemma DivUnique(x: int, s: int, q: int, r: int)
    requires s > 0 && x == s * q + r && 0 <= r < s
    ensures x / s == q && x % s == r
  {
    var q', r' := x / s, x % s;
    DivMod(x, s);
    Multiples(s, q, q');
    Multiples(s, q', q);
  }

  lemma DivMod(x: int, s: int)
    requires s > 0
    ensures x == s * (x / s) + x % s && 0 <= x % s < s
  {
  }

  /** Aligned to a larger power of two means aligned to a smaller one. */
  lemma AlignedDown(x: nat, a: nat, b: nat)
    requires a <= b && x % Pow2(b) == 0
    ensures x % Pow2(a) == 0
  {
    Pow2Split(a, b);
    ModMul(x, Pow2(a), Pow2(b - a));
  }

  /** Two multiples of `s` that are less than `s` apart are equal. */
  lemma Grid(x: nat, y: nat, s: nat)
    requires s > 0 && x % s == 0 && y % s == 0
    ensures x < y ==> x + s <= y
    ensures x < y + s ==> x <= y
  {
    DivMod(x, s);
    DivMod(y, s);
    Multiples(s, x / s, y / s);
    Multiples(s, y / s, x / s);
  }

  /** Aligned blocks that share a page are nested. */
  lemma Nested(x: nat, a: nat, y: nat, b: nat)
    requires a <= b && x % Pow2(a) == 0 && y % Pow2(b) == 0
    requires x < y + Pow2(b) && y < x + Pow2(a)
    ensures y <= x && x + Pow2(a) <= y + Pow2(b)
  {
    Pow2Split(a, b);
    AlignedDown(y, a, b);
    Grid(y, x, Pow2(a));
    MulMod(Pow2(a), Pow2(b - a));
    assert (y + Pow2(b)) % Pow2(a) == 0 by { ModSum(y, Pow2(b), Pow2(a)); }
    Grid(x, y + Pow2(b), Pow2(a));
  }

  lemma ModSum(x: nat, y: nat, s: nat)
    requires s > 0 && x % s == 0 && y % s == 0
    ensures (x + y) % s == 0
    ensures x <= y ==> (y - x) % s == 0
  {
    var a, b := x / s, y / s;
    assert x == s * a && y == s * b;
    assert x + y == s * (a + b);
    DivUnique(x + y, s, a + b, 0);
    assert y - x == s * (b - a);
    DivUnique(y - x, s, b - a, 0);
  }

  lemma HalfIndex(x: nat, s: nat)
    requires s > 0 && x % (2 * s) == 0
    ensures x % s == 0 && (x / s) % 2 == 0 && (x + s) % s == 0 && ((x + s) / s) % 2 == 1
  {
    var q := x / (2 * s);
    DivMod(x, 2 * s);
    assert x == s * (2 * q) by { MulAssoc(2, s, q); MulTwo(s, q); }
    DivUnique(x, s, 2 * q, 0);
    assert s * (2 * q + 1) == s * (2 * q) + s;
    DivUnique(x + s, s, 2 * q + 1, 0);
  }

  lemma JoinIndex(x: nat, s: nat)
    requires s > 0 && x % s == 0
    ensures (x / s) % 2 == 0 ==> x % (2 * s) == 0
    ensures (x / s) % 2 == 1 ==> x >= s && (x - s) % (2 * s) == 0
  {
    var q := x / s;
    DivMod(x, s);
    var half := q / 2;
    MulAssoc(2, s, half);
    MulTwo(s, half);
    if q % 2 == 0 {
      assert q == 2 * half;
      DivUnique(x, 2 * s, half, 0);
    } else {
      assert q == 2 * half + 1;
      assert s * (2 * half + 1) == s * (2 * half) + s;
      DivUnique(x - s, 2 * s, half, 0);
    }
  }

  // ---------- buddies ----------

  /** Halving and joining: a block splits into two buddies and two buddies join into a block. */
  lemma BuddyHalves(home: Home, g: nat, k: nat)
    requires k < MAX_ORDER && BlockOk(home, g, k + 1)
    ensures BlockOk(home, g, k) && BlockOk(home, g + Pow2(k), k)
    ensures Buddy(home, g, k) == g + Pow2(k) && Buddy(home, g + Pow2(k), k) == g
  {
    HalfIndex(g - home[g], Pow2(k));
  }

  lemma BuddyJoin(home: Home, g: nat, k: nat)
    requires k < MAX_ORDER && BlockOk(home, g, k)
    ensures var h := Buddy(home, g, k); var low := if g < h then g else h;
      h >= home[g] && (h == g + Pow2(k) || h == g - Pow2(k)) && (low - home[g]) % Pow2(k + 1) == 0 &&
      (BlockOk(home, h, k) && home[h] == home[g] ==>
        BlockOk(home, low, k + 1) && home[low] == home[g] && Buddy(home, h, k) == g)
  {
    JoinIndex(g - home[g], Pow2(k));
    var h := Buddy(home, g, k);
    if h >= 0 && BlockOk(home, h, k) && home[h] == home[g] {
      var low: nat := if g < h then g else h;
      BuddyHalves(home, low, k);
    }
  }

  /** Blocks of two orders that share a page are nested, in one zone. */
  lemma BlocksNested(home: Home, g: nat, a: nat, h: nat, b: nat)
    requires a <= b && BlockOk(home, g, a) && BlockOk(home, h, b)
    requires g < h + Pow2(b) && h < g + Pow2(a)
    ensures home[g] == home[h] && h <= g && g + Pow2(a) <= h + Pow2(b)
  {
    var p := if g < h then h else g;
    assert home[p] == home[g] && home[p] == home[h];
    Nested(g - home[g], a, h - home[h], b);
  }

  // ---------- canonical form ----------

  ghost predicate Inside(g: nat, n: nat, h: nat, m: nat) { h <= g && g + n <= h + m }

  /** Free pages that fill an aligned block lie in a single free block. */
  lemma {:induction false} Cover(home: Home, b: Blocks, g: nat, k: nat) returns (h: nat)
    requires Canon(home, b) && BlockOk(home, g, k) && AllFree(b, g, Pow2(k))
    ensures h in b && Inside(g, Pow2(k), h, Pow2(b[h])) && b[h] >= k
    decreases k
  {
    hide *;
    if k == 0 {
      h := CoverPage(b, g);
    } else {
      var s := Pow2(k - 1);
      HalvesFree(home, b, g, k);
      h := Cover(home, b, g, k - 1);
      var h' := Cover(home, b, g + s, k - 1);
      h := CoverJoin(home, b, g, k - 1, h, h');
    }
  }

  lemma CoverPage(b: Blocks, g: nat) returns (h: nat)
    requires AllFree(b, g, Pow2(0))
    ensures h in b && Inside(g, Pow2(0), h, Pow2(b[h])) && b[h] >= 0
  {
    assert Free(b, g);
    h :| h in b && In(g, h, Pow2(b[h]));
  }

  lemma HalvesFree(home: Home, b: Blocks, g: nat, k: nat)
    requires 0 < k && BlockOk(home, g, k) && AllFree(b, g, Pow2(k))
    ensures k <= MAX_ORDER
    ensures BlockOk(home, g, k - 1) && AllFree(b, g, Pow2(k - 1))
    ensures BlockOk(home, g + Pow2(k - 1), k - 1) && AllFree(b, g + Pow2(k - 1), Pow2(k - 1))
  {
    BuddyHalves(home, g, k - 1);
  }

  lemma CoverJoin(home: Home, b: Blocks, g: nat, k: nat, h: nat, h': nat) returns (i: nat)
    requires Canon(home, b) && BlockOk(home, g, k + 1)
    requires h in b && Inside(g, Pow2(k), h, Pow2(b[h])) && b[h] >= k
    requires h' in b && Inside(g + Pow2(k), Pow2(k), h', Pow2(b[h'])) && b[h'] >= k
    ensures i in b && Inside(g, Pow2(k + 1), i, Pow2(b[i])) && b[i] >= k + 1
  {
    hide SameZone, Buddy, Disjoint, Merged;
    HalvesClash(home, b, g, k);
    i := if b[h] == k then h' else h;
    BlocksNested(home, g, k + 1, i, b[i]);
  }

  /** The two halves of a block are not both free blocks. */
  lemma HalvesClash(home: Home, b: Blocks, g: nat, k: nat)
    requires Canon(home, b) && k < MAX_ORDER && BlockOk(home, g, k + 1)
    ensures !(g in b && b[g] == k && g + Pow2(k) in b && b[g + Pow2(k)] == k)
  {
    BuddyHalves(home, g, k);
  }

  lemma Pow2Step(k: nat)
    requires k > 0
    ensures Pow2(k) == 2 * Pow2(k - 1)
  {
  }

  /** The free blocks are determined by the set of free pages. */
  lemma CanonUnique(home: Home, b: Blocks, b': Blocks)
    requires Canon(home, b) && Canon(home, b')
    requires forall p :: Free(b, p) <==> Free(b', p)
    ensures b == b'
  {
    CanonWithin(home, b, b');
    CanonWithin(home, b', b);
    assert b.Keys == b'.Keys;
  }

  lemma CanonWithin(home: Home, b: Blocks, b': Blocks)
    requires Canon(home, b) && Canon(home, b')
    requires forall p :: Free(b, p) <==> Free(b', p)
    ensures forall g :: g in b ==> g in b' && b'[g] == b[g]
  {
    forall g | g in b
      ensures g in b' && b'[g] == b[g]
    {
      CanonBlock(home, b, b', g);
    }
  }

  lemma CanonBlock(home: Home, b: Blocks, b': Blocks, g: nat)
    requires Canon(home, b) && Canon(home, b') && g in b
    requires forall p :: Free(b, p) <==> Free(b', p)
    ensures g in b' && b'[g] == b[g]
  {
    hide Pow2, SameZone, AllFree, Merged;
    BlockAllFree(b, g);
    SameAllFree(b, b', g, Pow2(b[g]));
    var h := Cover(home, b', g, b[g]);
    BlockAllFree(b', h);
    SameAllFree(b', b, h, Pow2(b'[h]));
    var i := Cover(home, b, h, b'[h]);
    assert i == g;
    Pow2Inj(b'[h], b[g]);
  }

  lemma SameAllFree(b: Blocks, b': Blocks, g: nat, n: nat)
    requires AllFree(b, g, n) && forall p :: Free(b, p) <==> Free(b', p)
    ensures AllFree(b', g, n)
  {
  }

  lemma BlockAllFree(b: Blocks, g: nat)
    requires g in b
    ensures AllFree(b, g, Pow2(b[g]))
  {
    forall p | g <= p < g + Pow2(b[g])
      ensures Free(b, p)
    {
      assert In(p, g, Pow2(b[g]));
    }
  }

  lemma Pow2Mono(a: nat, b: nat)
    requires a < b
    ensures Pow2(a) < Pow2(b)
  {
    Pow2Split(a + 1, b);
  }

  lemma Pow2Inj(a: nat, b: nat)
    requires Pow2(a) == Pow2(b)
    ensures a == b
  {
    if a != b {
      Pow2Mono(if a < b then a else b, if a < b then b else a);
    }
  }

  // ---------- adding and removing blocks ----------

  /** The free pages of `b'` are those of `b` together with `g .. g + n`. */
  ghost predicate Adds(b: Blocks, b': Blocks, g: nat, n: nat)
  {
    forall p :: Free(b', p) <==> Free(b, p) || In(p, g, n)
  }

  /** A block whose buddy is not free may join the free blocks. */
  lemma AddBlock(home: Home, b: Blocks, g: nat, k: nat)
    requires Canon(home, b) && BlockOk(home, g, k) && NoneFree(b, g, Pow2(k))
    requires k < MAX_ORDER ==> !IsFreeBlock(home, b, Buddy(home, g, k), k, home[g])
    ensures Canon(home, b[g := k]) && Adds(b, b[g := k], g, Pow2(k)) && g !in b
  {
    AddFree(b, g, k);
    AddDisjoint(b, g, k);
    AddMerged(home, b, g, k);
  }

  lemma PageFree(b: Blocks, g: nat, p: nat)
    requires g in b && g <= p < g + Pow2(b[g])
    ensures Free(b, p)
  {
    assert In(p, g, Pow2(b[g]));
  }

  lemma NotHead(b: Blocks, g: nat, n: nat, h: nat)
    requires NoneFree(b, g, n) && g <= h < g + n
    ensures h !in b
  {
    if h in b {
      PageFree(b, h, h);
    }
  }

  lemma AddFree(b: Blocks, g: nat, k: nat)
    requires NoneFree(b, g, Pow2(k))
    ensures g !in b && Adds(b, b[g := k], g, Pow2(k))
  {
    var b' := b[g := k];
    NotHead(b, g, Pow2(k), g);
    forall p: nat
      ensures Free(b', p) <==> Free(b, p) || In(p, g, Pow2(k))
    {
      if Free(b, p) {
        var h :| h in b && In(p, h, Pow2(b[h]));
        PageFree(b', h, p);
      }
      if In(p, g, Pow2(k)) {
        PageFree(b', g, p);
      }
    }
  }

  lemma AddDisjoint(b: Blocks, g: nat, k: nat)
    requires Disjoint(b) && NoneFree(b, g, Pow2(k)) && g !in b
    ensures Disjoint(b[g := k])
  {
    forall h | h in b
      ensures h < g ==> h + Pow2(b[h]) <= g
      ensures g < h ==> g + Pow2(k) <= h
    {
      if h < g < h + Pow2(b[h]) {
        PageFree(b, h, g);
      }
      if g < h < g + Pow2(k) {
        NotHead(b, g, Pow2(k), h);
      }
    }
  }

  lemma AddMerged(home: Home, b: Blocks, g: nat, k: nat)
    requires Canon(home, b) && BlockOk(home, g, k) && g !in b
    requires k < MAX_ORDER ==> !IsFreeBlock(home, b, Buddy(home, g, k), k, home[g])
    ensures Merged(home, b[g := k])
  {
    hide Pow2, SameZone, Disjoint, Buddy;
    var b' := b[g := k];
    forall h | h in b' && b'[h] < MAX_ORDER
      ensures !IsFreeBlock(home, b', Buddy(home, h, b'[h]), b'[h], home[h])
    {
      BuddyJoin(home, h, b'[h]);
    }
  }

  /** The free pages of `b'` are those of `b` without `g .. g + n`, all of which were free. */
  ghost predicate Takes(b: Blocks, b': Blocks, g: nat, n: nat)
  {
    AllFree(b, g, n) && forall p :: Free(b', p) <==> Free(b, p) && !In(p, g, n)
  }

  lemma RemoveBlock(home: Home, b: Blocks, g: nat)
    requires Canon(home, b) && g in b
    ensures Canon(home, b - {g}) && Takes(b, b - {g}, g, Pow2(b[g]))
  {
    hide Pow2, Free, Buddy, SameZone, AllFree;
    BlockAllFree(b, g);
    RemoveFree(b, g);
  }

  lemma RemoveFree(b: Blocks, g: nat)
    requires Disjoint(b) && g in b
    ensures forall p :: Free(b - {g}, p) <==> Free(b, p) && !In(p, g, Pow2(b[g]))
  {
    hide Pow2;
    var b' := b - {g};
    forall p: nat
      ensures Free(b', p) <==> Free(b, p) && !In(p, g, Pow2(b[g]))
    {
      if Free(b, p) && !In(p, g, Pow2(b[g])) {
        var h :| h in b && In(p, h, Pow2(b[h]));
        PageFree(b', h, p);
      }
      if Free(b', p) {
        var h :| h in b' && In(p, h, Pow2(b'[h]));
        PageFree(b, h, p);
      }
    }
  }

  /** Free pages together with one pending block stay the same. */
  ghost predicate SameUnion(b: Blocks, g: nat, n: nat, b': Blocks, g': nat, n': nat)
  {
    forall p :: Free(b', p) || In(p, g', n') <==> Free(b, p) || In(p, g, n)
  }

  lemma SameUnionRefl(b: Blocks, g: nat, n: nat)
    ensures SameUnion(b, g, n, b, g, n)
  {
  }

  lemma SameUnionTrans(b: Blocks, g: nat, n: nat, b': Blocks, g': nat, n': nat, b'': Blocks, g'': nat, n'': nat)
    requires SameUnion(b, g, n, b', g', n') && SameUnion(b', g', n', b'', g'', n'')
    ensures SameUnion(b, g, n, b'', g'', n'')
  {
  }

  lemma SameUnionAdds(b: Blocks, g: nat, n: nat, b': Blocks, g': nat, n': nat, b'': Blocks)
    requires SameUnion(b, g, n, b', g', n') && Adds(b', b'', g', n')
    ensures Adds(b, b'', g, n)
  {
  }

  /** One turn of the merge loop: the free buddy and the pending block become one pending block. */
  lemma MergeStep(home: Home, b: Blocks, g: nat, k: nat)
    requires Canon(home, b) && k < MAX_ORDER && BlockOk(home, g, k) && NoneFree(b, g, Pow2(k))
    requires IsFreeBlock(home, b, Buddy(home, g, k), k, home[g])
    ensures var h := Buddy(home, g, k); var low := if g < h then g else h;
      h >= 0 && low >= 0 && Canon(home, b - {h}) && BlockOk(home, low, k + 1) && home[low] == home[g] &&
      NoneFree(b - {h}, low, Pow2(k + 1)) && SameUnion(b, g, Pow2(k), b - {h}, low, Pow2(k + 1))
  {
    var h: nat := Buddy(home, g, k);
    BuddyJoin(home, g, k);
    RemoveBlock(home, b, h);
  }

  /** One turn of the split loop: the upper half of the pending block becomes free. */
  lemma SplitStep(home: Home, b: Blocks, g: nat, k: nat)
    requires Canon(home, b) && k < MAX_ORDER && BlockOk(home, g, k + 1) && NoneFree(b, g, Pow2(k + 1))
    ensures var h := g + Pow2(k); var b' := b[h := k];
      h !in b && Canon(home, b') && BlockOk(home, g, k) && BlockOk(home, h, k) && NoneFree(b', g, Pow2(k)) &&
      SameUnion(b, g, Pow2(k + 1), b', g, Pow2(k))
  {
    hide Canon, BlockOk, Free, Pow2, Buddy, IsFreeBlock, NoneFree;
    var h := g + Pow2(k);
    Pow2Step(k + 1);
    SplitReady(home, b, g, k);
    AddBlock(home, b, h, k);
    SplitUnion(b, b[h := k], g, Pow2(k));
  }

  /** The upper half joins the free pages, the lower one stays pending. */
  lemma SplitUnion(b: Blocks, b': Blocks, g: nat, n: nat)
    requires NoneFree(b, g, n) && Adds(b, b', g + n, n)
    ensures NoneFree(b', g, n) && SameUnion(b, g, 2 * n, b', g, n)
  {
    hide Free;
  }

  // ---------- counting ----------

  ghost function FreeSet(b: Blocks, n: nat): set<nat>
  {
    set p: nat | p < n && Free(b, p)
  }

  ghost function Range(g: nat, n: nat): set<nat>
  {
    set p: nat | p < g + n && In(p, g, n)
  }

  lemma {:induction false} RangeSize(g: nat, n: nat)
    ensures |Range(g, n)| == n
    decreases n
  {
    if n > 0 {
      RangeSize(g, n - 1);
      assert Range(g, n) == Range(g, n - 1) + {g + n - 1};
    } else {
      assert Range(g, n) == {};
    }
  }

  lemma AddsCount(b: Blocks, b': Blocks, g: nat, n: nat, np: nat)
    requires Adds(b, b', g, n) && NoneFree(b, g, n) && g + n <= np
    ensures |FreeSet(b', np)| == |FreeSet(b, np)| + n
  {
    RangeSize(g, n);
    assert FreeSet(b', np) == FreeSet(b, np) + Range(g, n);
    assert FreeSet(b, np) !! Range(g, n);
  }

  lemma TakesCount(b: Blocks, b': Blocks, g: nat, n: nat, np: nat)
    requires Takes(b, b', g, n) && g + n <= np
    ensures |FreeSet(b', np)| + n == |FreeSet(b, np)|
  {
    RangeSize(g, n);
    assert FreeSet(b, np) == FreeSet(b', np) + Range(g, n);
    assert FreeSet(b', np) !! Range(g, n);
  }

  /** The pages counted by per-order block counts. */
  function Total(nr: seq<nat>): nat
  {
    if nr == [] then 0 else Total(nr[..|nr| - 1]) + nr[|nr| - 1] * Pow2(|nr| - 1)
  }

  lemma TotalNone(nr: seq<nat>)
    ensures Total(nr[..0]) == 0
  {
  }

  lemma TotalNext(nr: seq<nat>, k: nat)
    requires k < |nr|
    ensures Total(nr[..k + 1]) == Total(nr[..k]) + nr[k] * Pow2(k)
  {
    assert nr[..k + 1][..k] == nr[..k];
  }

  lemma {:induction false} TotalUpdate(nr: seq<nat>, k: nat, v: nat)
    requires k < |nr|
    ensures Total(nr[k := v]) == Total(nr) + (v - nr[k]) * Pow2(k)
    decreases |nr|
  {
    var n := |nr| - 1;
    if k == n {
      assert nr[k := v][..n] == nr[..n];
      assert v * Pow2(k) == nr[k] * Pow2(k) + (v - nr[k]) * Pow2(k);
    } else {
      assert nr[k := v][..n] == nr[..n][k := v];
      TotalUpdate(nr[..n], k, v);
    }
  }

  lemma TotalUp(nr: seq<nat>, k: nat)
    requires k < |nr|
    ensures Total(nr[k := nr[k] + 1]) == Total(nr) + Pow2(k)
  {
    TotalUpdate(nr, k, nr[k] + 1);
  }

  lemma TotalDown(nr: seq<nat>, k: nat)
    requires k < |nr| && nr[k] > 0
    ensures Total(nr[k := nr[k] - 1]) + Pow2(k) == Total(nr)
  {
    hide Total, Pow2;
    TotalUpdate(nr, k, nr[k] - 1);
  }

  // ---------- runs of pages ----------

  /** A run of pages of zone `z`, none of them free. */
  ghost predicate Run(home: Home, b: Blocks, g: nat, n: nat, z: nat)
  {
    z <= g && SameZone(home, g, n, z) && NoneFree(b, g, n)
  }

  lemma RunBlock(home: Home, b: Blocks, g: nat, n: nat, z: nat, k: nat)
    requires Run(home, b, g, n, z) && (g - z) % Pow2(k) == 0 && Pow2(k) <= n && k <= MAX_ORDER
    ensures BlockOk(home, g, k) && NoneFree(b, g, Pow2(k))
  {
  }

  /** After the first block of a run is freed the rest is still a run, and what was freed adds up. */
  lemma RunStep(home: Home, b0: Blocks, base: nat, b: Blocks, b': Blocks, g: nat, n: nat, z: nat, k: nat)
    requires Run(home, b, g, n, z) && base <= g && Adds(b0, b, base, g - base) && Pow2(k) <= n
    requires Adds(b, b', g, Pow2(k))
    ensures Run(home, b', g + Pow2(k), n - Pow2(k), z) && Adds(b0, b', base, g + Pow2(k) - base)
  {
    hide Free, Pow2;
  }

  lemma NextAligned(x: nat, k: nat)
    requires x % Pow2(k) == 0
    ensures (x / Pow2(k)) % 2 == 0 ==> x % Pow2(k + 1) == 0
    ensures (x / Pow2(k)) % 2 == 1 ==> (x + Pow2(k)) % Pow2(k + 1) == 0
    ensures (x + Pow2(k)) % Pow2(k) == 0
  {
    var s := Pow2(k);
    JoinIndex(x, s);
    if (x / s) % 2 == 1 {
      ModSum(x - s, 2 * s, 2 * s);
    }
    ModSum(x, s, s);
  }

  const HUGE: nat := MAX_ORDER + 1

  /** The run contains a whole aligned block of twice the largest order. */
  ghost predicate HasHuge(i: nat, n: nat)
  {
    exists x: nat :: HugeAt(i, n, x)
  }

  ghost predicate HugeAt(i: nat, n: nat, x: nat)
  {
    i <= x && x % Pow2(HUGE) == 0 && x + Pow2(HUGE) <= i + n
  }

  lemma NoHuge(i: nat, n: nat, x: nat, m: nat, k: nat)
    requires i <= x < i + Pow2(k) && x % Pow2(k) == 0 && x + m == i + n && k <= HUGE && m < Pow2(k)
    ensures !HasHuge(i, n)
  {
    forall y: nat
      ensures !HugeAt(i, n, y)
    {
      if HugeAt(i, n, y) {
        AlignedDown(y, k, HUGE);
        Grid(y, x, Pow2(k));
        Pow2Split(k, HUGE);
      }
    }
  }

  lemma SmallNoHuge(i: nat, n: nat)
    requires n < Pow2(HUGE)
    ensures !HasHuge(i, n)
  {
  }

  // ---------- allocation ----------

  /** The upper half of a pending block may become free: its buddy is the pending lower half. */
  lemma SplitReady(home: Home, b: Blocks, g: nat, k: nat)
    requires k < MAX_ORDER && BlockOk(home, g, k + 1) && NoneFree(b, g, Pow2(k + 1))
    ensures var h := g + Pow2(k);
      BlockOk(home, g, k) && BlockOk(home, h, k) && NoneFree(b, h, Pow2(k)) && NoneFree(b, g, Pow2(k)) &&
      h != g && home[h] == home[g] && !IsFreeBlock(home, b, Buddy(home, h, k), k, home[h])
  {
    BuddyHalves(home, g, k);
    NotHead(b, g, Pow2(k + 1), g);
  }

  /** Taking a block out and putting its upper parts back leaves only the lower part taken. */
  lemma TakeSplit(b: Blocks, b1: Blocks, b2: Blocks, g: nat, n: nat, m: nat)
    requires Takes(b, b1, g, n) && SameUnion(b1, g, n, b2, g, m) && NoneFree(b2, g, m) && m <= n
    ensures Takes(b, b2, g, m)
  {
  }

  lemma TakeAdd(b: Blocks, b1: Blocks, b2: Blocks, g: nat, n: nat, m: nat)
    requires Takes(b, b1, g, n) && m <= n && Adds(b1, b2, g + m, n - m)
    ensures Takes(b, b2, g, m)
  {
  }

  lemma TakeRun(home: Home, b: Blocks, b1: Blocks, g: nat, k: nat, m: nat)
    requires Takes(b, b1, g, Pow2(k)) && BlockOk(home, g, k) && m < Pow2(k)
    ensures Run(home, b1, g + m, Pow2(k) - m, home[g]) && g + m in home && home[g + m] == home[g]
  {
  }

  /** Without a free block of order `k` or more no aligned block of order `k` is all free. */
  lemma NoFit(home: Home, b: Blocks, k: nat)
    requires Canon(home, b) && forall g :: g in b ==> b[g] < k
    ensures forall g :: BlockOk(home, g, k) ==> !AllFree(b, g, Pow2(k))
  {
    forall g | BlockOk(home, g, k)
      ensures !AllFree(b, g, Pow2(k))
    {
      if AllFree(b, g, Pow2(k)) {
        var h := Cover(home, b, g, k);
      }
    }
  }

  /** Freeing whole runs, in any order, is determined by the pages freed. */
  ghost predicate Frees(home: Home, trail: seq<Blocks>, pieces: seq<(nat, nat)>)
  {
    |trail| == |pieces| + 1 &&
    (forall i :: 0 <= i < |trail| ==> Canon(home, trail[i])) &&
    forall i :: 0 <= i < |pieces| ==> Adds(trail[i], trail[i + 1], pieces[i].0, pieces[i].1)
  }

  ghost predicate InPieces(p: nat, pieces: seq<(nat, nat)>)
  {
    exists i :: 0 <= i < |pieces| && In(p, pieces[i].0, pieces[i].1)
  }

  lemma {:induction false} FreesPages(home: Home, trail: seq<Blocks>, pieces: seq<(nat, nat)>, p: nat)
    requires Frees(home, trail, pieces)
    ensures Free(trail[|pieces|], p) <==> Free(trail[0], p) || InPieces(p, pieces)
    decreases |pieces|
  {
    hide Free, In, Canon;
    if |pieces| > 0 {
      var n := |pieces| - 1;
      var init := pieces[..n];
      assert Frees(home, trail[..n + 1], init);
      FreesPages(home, trail[..n + 1], init, p);
      assert InPieces(p, pieces) <==> InPieces(p, init) || In(p, pieces[n].0, pieces[n].1) by {
        if InPieces(p, pieces) {
          var i :| 0 <= i < |pieces| && In(p, pieces[i].0, pieces[i].1);
          if i < n {
            assert In(p, init[i].0, init[i].1);
          }
        }
        if InPieces(p, init) {
          var i :| 0 <= i < |init| && In(p, init[i].0, init[i].1);
          assert In(p, pieces[i].0, pieces[i].1);
        }
      }
    }
  }

  /** Allocating a run and freeing it again, whole or in any pieces and order, restores the free blocks. */
  lemma AllocFreeRestores(home: Home, b: Blocks, g: nat, n: nat, trail: seq<Blocks>, pieces: seq<(nat, nat)>)
    requires Canon(home, b) && Frees(home, trail, pieces) && Takes(b, trail[0], g, n)
    requires forall p :: In(p, g, n) <==> InPieces(p, pieces)
    ensures trail[|pieces|] == b
  {
    forall p: nat
      ensures Free(trail[|pieces|], p) <==> Free(b, p)
    {
      FreesPages(home, trail, pieces, p);
      assert Free(trail[0], p) <==> Free(b, p) && !In(p, g, n);
      assert In(p, g, n) ==> Free(b, p);
    }
    CanonUnique(home, trail[|pieces|], b);
  }
}
