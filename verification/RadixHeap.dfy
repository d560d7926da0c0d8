/**
 The radix heap of libs/crh.c: sixteen levels of sixteen buckets, a bitmap of occupied
 buckets per level and a bitmap of occupied levels, all relative to a base that only
 moves up. Bucket lists are sequences of node numbers; bitmaps are sets of bit positions.
 */
module RadixHeap {
  import opened Lists
  import opened RadixDigits

  const KEY_LIMIT: nat := Pow16(LEVELS)
  const BUCKETS: nat := 256

  type Keys = map<nat, nat>

  /** The node's key is pending above the base. */
  ghost predicate Above(base: nat, keys: Keys, id: nat)
  {
    id in keys && base < keys[id] < KEY_LIMIT
  }

  /** Every node of a bucket belongs there by its highest digit that differs from the base. */
  ghost predicate InBucket(base: nat, keys: Keys, l: seq<nat>, b: nat)
  {
    NoDup(l) && forall i :: 0 <= i < |l| ==> Above(base, keys, l[i]) && Bucket(base, keys[l[i]]) == b
  }

  ghost predicate Placed(base: nat, keys: Keys, heads: seq<seq<nat>>)
  {
    |heads| == BUCKETS && forall b :: 0 <= b < BUCKETS ==> InBucket(base, keys, heads[b], b)
  }

  ghost predicate Holds(heads: seq<seq<nat>>, id: nat)
  {
    exists b :: 0 <= b < |heads| && id in heads[b]
  }

  /** Bits are set exactly for occupied buckets and levels. */
  ghost predicate BitsOk(heads: seq<seq<nat>>, headsBm: seq<set<nat>>, bm: set<nat>)
  {
    && |heads| == BUCKETS && |headsBm| == LEVELS
    && (forall d :: 0 <= d < LEVELS ==> forall x :: x in headsBm[d] ==> x < RADIX)
    && (forall b :: 0 <= b < BUCKETS ==> (b % 16 in headsBm[b / 16] <==> heads[b] != []))
    && (forall d :: d in bm ==> d < LEVELS)
    && (forall d :: 0 <= d < LEVELS ==> (d in bm <==> headsBm[d] != {}))
  }

  lemma BucketBound(base: nat, k: nat)
    requires base < k < KEY_LIMIT
    ensures Bucket(base, k) < BUCKETS
  {
    TopDigitOk(base, k);
  }

  /** A held node is in the one bucket its key names. */
  lemma HeldAt(base: nat, keys: Keys, heads: seq<seq<nat>>, id: nat)
    requires Placed(base, keys, heads) && Holds(heads, id)
    ensures Above(base, keys, id) && Bucket(base, keys[id]) < BUCKETS && id in heads[Bucket(base, keys[id])]
  {
    var b :| 0 <= b < |heads| && id in heads[b];
    assert InBucket(base, keys, heads[b], b);
  }

  lemma HeldIn(heads: seq<seq<nat>>, b: nat, id: nat)
    requires b < |heads| && id in heads[b]
    ensures Holds(heads, id)
  {
  }

  // ---------- bit search ----------

  /** The lowest set bit at or above `lo`. */
  function FirstBit(s: set<nat>, lo: nat, hi: nat): (x: nat)
    requires exists y :: y in s && lo <= y < hi
    ensures x in s && lo <= x < hi && forall y :: y in s && lo <= y ==> x <= y
    decreases hi - lo
  {
    if lo in s then lo else FirstBit(s, lo + 1, hi)
  }

  function ShiftRight(s: set<nat>, n: nat): set<nat>
  {
    set x | x in s && n <= x :: x - n
  }

  /** A shift by a negative count moves every bit out. */
  function ShiftLeft(s: set<nat>, n: int): set<nat>
  {
    if n < 0 then {} else set x | x in s :: x + n
  }

  /** Above the base's digit the lowest bit of the rotated bitmap is the distance to the lowest occupied bucket. */
  lemma LowestAbove(s: set<nat>, n: nat, m: int, x: nat)
    requires x in s && n < x && m <= RADIX && (forall y :: y in s ==> x <= y < RADIX)
    ensures var t := ShiftRight(s, n) + ShiftLeft(s, m);
      x - n in t && (x - n in ShiftRight(s, n)) && (forall y :: y in t ==> x - n <= y)
  {
    assert x - n in ShiftRight(s, n);
  }

  // ---------- what changing one bucket does ----------

  lemma PlacedUpdate(base: nat, keys: Keys, heads: seq<seq<nat>>, b: nat, l: seq<nat>)
    requires Placed(base, keys, heads) && b < BUCKETS && InBucket(base, keys, l, b)
    ensures Placed(base, keys, heads[b := l])
  {
  }

  /** Changing one bucket changes what is held by just that bucket's nodes. */
  lemma HoldsUpdate(base: nat, keys: Keys, heads: seq<seq<nat>>, b: nat, l: seq<nat>, id: nat)
    requires Placed(base, keys, heads) && b < BUCKETS
    ensures Holds(heads[b := l], id) <==> (Holds(heads, id) && id !in heads[b]) || id in l
  {
    var h := heads[b := l];
    if Holds(h, id) {
      var c :| 0 <= c < |h| && id in h[c];
      if c != b {
        assert id in heads[c];
        assert InBucket(base, keys, heads[c], c);
        assert InBucket(base, keys, heads[b], b);
      }
    }
    if id in l {
      assert id in h[b];
    }
    if Holds(heads, id) && id !in heads[b] {
      var c :| 0 <= c < |heads| && id in heads[c];
      assert id in h[c];
    }
  }

  /** Pushing a node on its bucket. */
  lemma PlacedPush(base: nat, keys: Keys, heads: seq<seq<nat>>, id: nat)
    requires Placed(base, keys, heads) && Above(base, keys, id) && !Holds(heads, id)
    ensures var b := Bucket(base, keys[id]); b < BUCKETS && Placed(base, keys, heads[b := [id] + heads[b]])
    ensures var b := Bucket(base, keys[id]); forall x :: Holds(heads[b := [id] + heads[b]], x) <==> Holds(heads, x) || x == id
  {
    hide Placed, Holds;
    var b := Bucket(base, keys[id]);
    BucketBound(base, keys[id]);
    PlacedAt(base, keys, heads, b);
    if id in heads[b] {
      HeldIn(heads, b, id);
    }
    var l := [id] + heads[b];
    assert InBucket(base, keys, l, b);
    PlacedUpdate(base, keys, heads, b, l);
    forall x
      ensures Holds(heads[b := l], x) <==> Holds(heads, x) || x == id
    {
      HoldsUpdate(base, keys, heads, b, l, x);
      if x in heads[b] {
        HeldIn(heads, b, x);
      }
    }
  }

  lemma PlacedAt(base: nat, keys: Keys, heads: seq<seq<nat>>, b: nat)
    requires Placed(base, keys, heads) && b < BUCKETS
    ensures |heads| == BUCKETS && InBucket(base, keys, heads[b], b)
  {
  }

  /** Taking a node out of its bucket. */
  lemma PlacedDrop(base: nat, keys: Keys, heads: seq<seq<nat>>, id: nat)
    requires Placed(base, keys, heads) && Holds(heads, id)
    ensures Above(base, keys, id)
    ensures var b := Bucket(base, keys[id]); b < BUCKETS && id in heads[b] && Placed(base, keys, heads[b := Without(heads[b], id)])
    ensures var b := Bucket(base, keys[id]); forall x :: Holds(heads[b := Without(heads[b], id)], x) <==> Holds(heads, x) && x != id
  {
    hide Placed, Holds;
    HeldAt(base, keys, heads, id);
    var b := Bucket(base, keys[id]);
    PlacedAt(base, keys, heads, b);
    WithoutOk(heads[b], id);
    var l := Without(heads[b], id);
    assert InBucket(base, keys, l, b) by {
      forall i | 0 <= i < |l|
        ensures Above(base, keys, l[i]) && Bucket(base, keys[l[i]]) == b
      {
        assert l[i] in heads[b];
      }
    }
    PlacedUpdate(base, keys, heads, b, l);
    forall x
      ensures Holds(heads[b := l], x) <==> Holds(heads, x) && x != id
    {
      HoldsUpdate(base, keys, heads, b, l, x);
      if x in heads[b] {
        HeldIn(heads, b, x);
      }
    }
  }

  /** No pending key is below `next`. */
  ghost predicate Reaches(keys: Keys, heads: seq<seq<nat>>, next: nat)
  {
    forall id :: Holds(heads, id) ==> id in keys && next <= keys[id]
  }

  lemma InBucketRebase(base: nat, next: nat, keys: Keys, l: seq<nat>, b: nat)
    requires base < next && InBucket(base, keys, l, b) && b != Bucket(base, next)
    requires forall i :: 0 <= i < |l| ==> next <= keys[l[i]]
    ensures InBucket(next, keys, l, b)
  {
    forall i | 0 <= i < |l|
      ensures Above(next, keys, l[i]) && Bucket(next, keys[l[i]]) == b
    {
      BucketKept(base, next, keys[l[i]]);
    }
  }

  /** Moving the base up to the lowest key or below it disturbs one bucket only. */
  lemma PlacedRebase(base: nat, next: nat, keys: Keys, heads: seq<seq<nat>>)
    requires Placed(base, keys, heads) && base < next < KEY_LIMIT && Reaches(keys, heads, next)
    ensures var b := Bucket(base, next); b < BUCKETS && Placed(next, keys, heads[b := []])
  {
    var b := Bucket(base, next);
    BucketBound(base, next);
    var h := heads[b := []];
    forall c | 0 <= c < BUCKETS
      ensures InBucket(next, keys, h[c], c)
    {
      if c != b {
        forall i | 0 <= i < |heads[c]|
          ensures next <= keys[heads[c][i]]
        {
          assert heads[c][i] in heads[c];
          HeldIn(heads, c, heads[c][i]);
        }
        InBucketRebase(base, next, keys, heads[c], c);
      }
    }
  }

  /** The bitmaps after a bucket gained its first node, or kept some. */
  lemma BitsFill(heads: seq<seq<nat>>, headsBm: seq<set<nat>>, bm: set<nat>, b: nat, l: seq<nat>)
    requires BitsOk(heads, headsBm, bm) && b < BUCKETS && l != []
    ensures b / 16 < LEVELS && BitsOk(heads[b := l], headsBm[b / 16 := headsBm[b / 16] + {b % 16}], bm + {b / 16})
  {
    var d, x := b / 16, b % 16;
    var h, s := heads[b := l], headsBm[d := headsBm[d] + {x}];
    forall c | 0 <= c < BUCKETS
      ensures c % 16 in s[c / 16] <==> h[c] != []
    {
      assert c % 16 in headsBm[c / 16] <==> heads[c] != [];
      assert c == 16 * (c / 16) + c % 16;
    }
    assert x in s[d];
  }

  /** The bitmaps after a bucket lost its last node. */
  lemma BitsClear(heads: seq<seq<nat>>, headsBm: seq<set<nat>>, bm: set<nat>, b: nat)
    requires BitsOk(heads, headsBm, bm) && b < BUCKETS
    ensures var d, x := b / 16, b % 16;
      && d < LEVELS && (x in headsBm[d] <==> heads[b] != [])
      && BitsOk(heads[b := []], headsBm[d := headsBm[d] - {x}], if headsBm[d] - {x} == {} then bm - {d} else bm)
  {
    var d, x := b / 16, b % 16;
    var h, s := heads[b := []], headsBm[d := headsBm[d] - {x}];
    forall c | 0 <= c < BUCKETS
      ensures c % 16 in s[c / 16] <==> h[c] != []
    {
      assert c % 16 in headsBm[c / 16] <==> heads[c] != [];
      assert c == 16 * (c / 16) + c % 16;
    }
  }

  lemma BitsSame(heads: seq<seq<nat>>, headsBm: seq<set<nat>>, bm: set<nat>, b: nat, l: seq<nat>)
    requires BitsOk(heads, headsBm, bm) && b < BUCKETS && (l == [] <==> heads[b] == [])
    ensures BitsOk(heads[b := l], headsBm, bm)
  {
  }

  // ---------- the largest step ----------

  /** A step from `base` that goes up to the start of the lowest pending bucket. */
  ghost predicate StepOk(base: nat, keys: Keys, heads: seq<seq<nat>>, r: int)
  {
    && r >= 0
    && (r == 0 <==> forall id :: !Holds(heads, id))
    && (forall id :: Holds(heads, id) ==> id in keys && base + r <= keys[id])
    && (r > 0 ==> exists id :: Holds(heads, id) && IsFloor(base, keys, id, base + r))
  }

  /** The address is the node's key with the digits below the first difference from the base cleared. */
  ghost predicate IsFloor(base: nat, keys: Keys, id: nat, a: nat)
  {
    id in keys && base < keys[id] && a == Up(keys[id], TopDigit(base, keys[id])) * Pow16(TopDigit(base, keys[id]))
  }

  lemma NothingHeld(heads: seq<seq<nat>>, headsBm: seq<set<nat>>, bm: set<nat>)
    requires BitsOk(heads, headsBm, bm) && bm == {}
    ensures forall id :: !Holds(heads, id)
  {
    forall b | 0 <= b < BUCKETS
      ensures heads[b] == []
    {
      assert b / 16 in bm <==> headsBm[b / 16] != {};
      assert b % 16 in headsBm[b / 16] <==> heads[b] != [];
    }
  }

  /** On the lowest occupied level every bit lies above the base's digit. */
  lemma BitsAboveDigit(base: nat, keys: Keys, heads: seq<seq<nat>>, headsBm: seq<set<nat>>, bm: set<nat>, d: nat, x: nat)
    requires Placed(base, keys, heads) && BitsOk(heads, headsBm, bm) && d < LEVELS && x in headsBm[d]
    ensures Digit(base, d) < x < RADIX && 16 * d + x < BUCKETS && heads[16 * d + x] != []
    ensures forall id :: id in heads[16 * d + x] ==>
      Above(base, keys, id) && TopDigit(base, keys[id]) == d && Digit(keys[id], d) == x
  {
    var b := 16 * d + x;
    assert b % 16 == x && b / 16 == d;
    PlacedAt(base, keys, heads, b);
    assert heads[b] != [];
    forall id | id in heads[b]
      ensures Above(base, keys, id) && TopDigit(base, keys[id]) == d && Digit(keys[id], d) == x && Digit(base, d) < x
    {
      BucketParts(base, keys[id]);
      TopDigitOk(base, keys[id]);
    }
    assert heads[b][0] in heads[b];
  }

  /** The floor of the lowest bucket of the lowest level is below every pending key. */
  lemma FloorOfLowest(base: nat, keys: Keys, heads: seq<seq<nat>>, headsBm: seq<set<nat>>, bm: set<nat>, d: nat, x: nat)
    requires Placed(base, keys, heads) && BitsOk(heads, headsBm, bm) && d in bm && x in headsBm[d]
    requires (forall e :: e in bm ==> d <= e) && (forall y :: y in headsBm[d] ==> x <= y)
    ensures Floor(base, d, x) > base && StepOk(base, keys, heads, Floor(base, d, x) - base)
  {
    hide Placed, Floor;
    BitsAboveDigit(base, keys, heads, headsBm, bm, d, x);
    FloorStep(base, d, x);
    forall id | Holds(heads, id)
      ensures id in keys && Floor(base, d, x) <= keys[id]
    {
      HeldAt(base, keys, heads, id);
      var b := Bucket(base, keys[id]);
      BucketParts(base, keys[id]);
      assert b % 16 in headsBm[b / 16];
      assert b / 16 in bm;
      FloorBelow(base, d, x, keys[id]);
    }
    var id := heads[16 * d + x][0];
    assert id in heads[16 * d + x];
    HeldIn(heads, 16 * d + x, id);
    FloorIs(base, keys[id]);
    assert IsFloor(base, keys, id, Floor(base, d, x));
  }

  lemma PlacedNewKey(base: nat, keys: Keys, heads: seq<seq<nat>>, id: nat, k: nat)
    requires Placed(base, keys, heads) && !Holds(heads, id)
    ensures Placed(base, keys[id := k], heads)
  {
    forall b | 0 <= b < BUCKETS
      ensures InBucket(base, keys[id := k], heads[b], b)
    {
      assert InBucket(base, keys, heads[b], b);
      assert id !in heads[b];
    }
  }

  /** With keys below 2^28 the mask and any bit position shifted by the step computation fit in a signed 32-bit integer. */
  lemma ShiftsFit(base: nat, k: nat, bit: nat)
    requires base < k < 0x1000_0000 && bit < RADIX
    ensures var d := TopDigit(base, k);
      d <= 6 && Pow16(d) < 0x8000_0000 && bit * Pow16(d) < 0x8000_0000 && (Digit(k, d) - Digit(base, d)) * Pow16(d) < 0x8000_0000
  {
    var d := TopDigit(base, k);
    TopDigitOk(base, k);
    assert Pow16(7) == 0x1000_0000 by {
      assert Pow16(1) == 16 && Pow16(2) == 0x100 && Pow16(3) == 0x1000 && Pow16(4) == 0x1_0000;
      assert Pow16(5) == 0x10_0000 && Pow16(6) == 0x100_0000;
    }
    if d >= 7 {
      UpTop(k, 7);
      UpTop(base, 7);
      UpEqual(base, k, 7, d);
      assert false;
    }
    PowUpTo6(d);
    MulMono(Digit(k, d) - Digit(base, d), 16, Pow16(d));
    MulMono(bit, 16, Pow16(d));
  }

  lemma PowUpTo6(d: nat)
    requires d <= 6
    ensures Pow16(d) <= 0x100_0000
  {
    assert Pow16(1) == 16 && Pow16(2) == 0x100 && Pow16(3) == 0x1000 && Pow16(4) == 0x1_0000;
    assert Pow16(5) == 0x10_0000 && Pow16(6) == 0x100_0000;
    assert d in {0, 1, 2, 3, 4, 5, 6};
  }

  lemma EmptyStep(base: nat, keys: Keys, heads: seq<seq<nat>>)
    requires forall id :: !Holds(heads, id)
    ensures StepOk(base, keys, heads, 0)
  {
  }

  lemma FirstBitIs(s: set<nat>, x: nat, hi: nat)
    requires x in s && x < hi && forall y :: y in s ==> x <= y
    ensures (exists y :: y in s && 0 <= y < hi) && FirstBit(s, 0, hi) == x
  {
    assert exists y :: y in s && 0 <= y < hi;
  }

  /** Both ways of reading the level's bitmap give the distance to its lowest occupied bucket. */
  lemma ReadBits(s: set<nat>, n: nat, x: nat)
    requires x in s && n < x && forall y :: y in s ==> x <= y < RADIX
    ensures var t := ShiftRight(s, n) + ShiftLeft(s, 4 - n);
      (exists y :: y in t && 0 <= y < RADIX) && FirstBit(t, 0, RADIX) == x - n
    ensures var t := ShiftRight(s, n);
      t != {} && (exists y :: y in t && 0 <= y < RADIX) && FirstBit(t, 0, RADIX) == x - n
  {
    hide FirstBit;
    LowestAbove(s, n, 4 - n, x);
    FirstBitIs(ShiftRight(s, n) + ShiftLeft(s, 4 - n), x - n, RADIX);
    FirstBitIs(ShiftRight(s, n), x - n, RADIX);
  }

  /** The lowest level that has a bit, and the lowest bit it has. */
  lemma LowestLevel(heads: seq<seq<nat>>, headsBm: seq<set<nat>>, bm: set<nat>) returns (d: nat, x: nat)
    requires BitsOk(heads, headsBm, bm) && bm != {}
    ensures (exists y :: y in bm && 0 <= y < LEVELS) && d == FirstBit(bm, 0, LEVELS) && d in bm && d < |headsBm| == LEVELS
    ensures (forall e :: e in bm ==> d <= e) && x in headsBm[d] && forall y :: y in headsBm[d] ==> x <= y < RADIX
  {
    var e :| e in bm;
    assert e in bm && 0 <= e < LEVELS;
    d := FirstBit(bm, 0, LEVELS);
    var y :| y in headsBm[d];
    assert y in headsBm[d] && 0 <= y < RADIX;
    x := FirstBit(headsBm[d], 0, RADIX);
  }

  lemma MaxStepOk(base: nat, keys: Keys, heads: seq<seq<nat>>, headsBm: seq<set<nat>>, bm: set<nat>, d: nat, x: nat)
    requires Placed(base, keys, heads) && BitsOk(heads, headsBm, bm) && d in bm && x in headsBm[d]
    requires (forall e :: e in bm ==> d <= e) && (forall y :: y in headsBm[d] ==> x <= y)
    ensures Digit(base, d) < x
    ensures var remain := if d == 0 then 0 else base - Up(base, d) * Pow16(d);
      StepOk(base, keys, heads, (x - Digit(base, d)) * Pow16(d) - remain)
  {
    hide Placed, BitsOk, StepOk, Floor;
    LevelBound(heads, headsBm, bm, d);
    BitsAboveDigit(base, keys, heads, headsBm, bm, d, x);
    FloorStep(base, d, x);
    FloorOfLowest(base, keys, heads, headsBm, bm, d, x);
    if d == 0 {
      assert Up(base, 0) * Pow16(0) == base;
    }
  }

  lemma LevelBound(heads: seq<seq<nat>>, headsBm: seq<set<nat>>, bm: set<nat>, d: nat)
    requires BitsOk(heads, headsBm, bm) && d in bm
    ensures d < LEVELS == |headsBm|
  {
  }

  lemma BitsSize(heads: seq<seq<nat>>, headsBm: seq<set<nat>>, bm: set<nat>)
    requires BitsOk(heads, headsBm, bm)
    ensures |heads| == BUCKETS && |headsBm| == LEVELS
  {
  }

  /** What the bucket of the new base holds. */
  lemma DetachedList(base: nat, next: nat, keys: Keys, heads: seq<seq<nat>>)
    requires Placed(base, keys, heads) && base < next < KEY_LIMIT && Reaches(keys, heads, next)
    ensures var b := Bucket(base, next); b < BUCKETS == |heads| && NoDup(heads[b])
    ensures var l, h := heads[Bucket(base, next)], heads[Bucket(base, next) := []];
      && (forall i :: 0 <= i < |l| ==> l[i] in keys && next <= keys[l[i]] < KEY_LIMIT && !Holds(h, l[i]))
      && (forall id :: Holds(h, id) <==> Holds(heads, id) && id !in l)
      && (forall id :: id in l ==> Holds(heads, id))
      && (forall id :: Holds(heads, id) && keys[id] == next ==> id in l)
  {
    hide Holds;
    var b := Bucket(base, next);
    BucketBound(base, next);
    PlacedAt(base, keys, heads, b);
    var l, h := heads[b], heads[b := []];
    forall id
      ensures Holds(h, id) <==> Holds(heads, id) && id !in l
      ensures id in l ==> Holds(heads, id)
      ensures Holds(heads, id) && keys[id] == next ==> id in l
    {
      HoldsUpdate(base, keys, heads, b, [], id);
      if id in l {
        HeldIn(heads, b, id);
      }
      if Holds(heads, id) {
        HeldAt(base, keys, heads, id);
      }
    }
    forall i | 0 <= i < |l|
      ensures l[i] in keys && next <= keys[l[i]] < KEY_LIMIT && !Holds(h, l[i])
    {
      assert l[i] in l;
    }
  }

  /** The nodes of a list whose key is `k`, in list order. */
  function WithKey(l: seq<nat>, keys: Keys, k: nat): (r: seq<nat>)
    requires forall i :: 0 <= i < |l| ==> l[i] in keys
  {
    if l == [] then []
    else if keys[l[|l| - 1]] == k then WithKey(l[..|l| - 1], keys, k) + [l[|l| - 1]]
    else WithKey(l[..|l| - 1], keys, k)
  }

  lemma {:induction false} WithKeyOk(l: seq<nat>, keys: Keys, k: nat)
    requires NoDup(l) && forall i :: 0 <= i < |l| ==> l[i] in keys
    ensures NoDup(WithKey(l, keys, k)) && forall x :: x in WithKey(l, keys, k) <==> x in l && x in keys && keys[x] == k
  {
    if l != [] {
      var h := l[..|l| - 1];
      assert l == h + [l[|l| - 1]];
      WithKeyOk(h, keys, k);
      assert forall x :: x in h ==> x != l[|l| - 1];
    }
  }

  lemma WithKeyNone(l: seq<nat>, keys: Keys, k: nat)
    requires l == []
    ensures WithKey(l, keys, k) == []
  {
  }

  lemma WithKeyNext(l: seq<nat>, keys: Keys, k: nat, i: nat)
    requires i < |l| && forall j :: 0 <= j < |l| ==> l[j] in keys
    ensures WithKey(l[..i + 1], keys, k) ==
      if keys[l[i]] == k then WithKey(l[..i], keys, k) + [l[i]] else WithKey(l[..i], keys, k)
  {
    assert l[..i + 1][..i] == l[..i];
  }

  class Crh {
    var base: nat
    var bm: set<nat>
    var headsBm: seq<set<nat>>
    var heads: seq<seq<nat>>
    /** The key field of every node ever inserted. */
    var keys: Keys

    ghost predicate Valid()
      reads this
    {
      base < KEY_LIMIT && Placed(base, keys, heads) && BitsOk(heads, headsBm, bm)
    }

    /** The deadlines the heap stands for. */
    ghost function Due(): map<nat, nat>
      reads this
    {
      map id | id in keys && Holds(heads, id) :: keys[id]
    }

    constructor ()
      ensures Valid() && base == 0 && Due() == map[]
    {
      base, bm, keys := 0, {}, map[];
      headsBm := seq(LEVELS, i => {});
      heads := seq(BUCKETS, i => []);
    }

    lemma DueIs()
      requires Valid()
      ensures forall id :: id in Due() <==> Holds(heads, id)
      ensures forall id :: id in Due() ==> id in keys && Due()[id] == keys[id] && base < keys[id] < KEY_LIMIT
    {
      forall id | Holds(heads, id)
        ensures id in keys && base < keys[id] < KEY_LIMIT
      {
        HeldAt(base, keys, heads, id);
      }
    }

    /** Puts a node in the bucket its key names. */
    method Push(id: nat)
      requires Valid() && Above(base, keys, id) && !Holds(heads, id)
      modifies this`bm, this`headsBm, this`heads
      ensures Valid() && forall x :: Holds(heads, x) <==> old(Holds(heads, x)) || x == id
    {
      hide Placed, BitsOk, Holds;
      var d := TopDigit(base, keys[id]);
      var x := Digit(keys[id], d);
      PlacedPush(base, keys, heads, id);
      ghost var b := Bucket(base, keys[id]);
      BucketParts(base, keys[id]);
      BitsSize(heads, headsBm, bm);
      BitsFill(heads, headsBm, bm, b, [id] + heads[b]);
      heads := heads[16 * d + x := [id] + heads[16 * d + x]];
      headsBm := headsBm[d := headsBm[d] + {x}];
      bm := bm + {d};
    }

    /** Refuses a key equal to the base; any later key becomes a deadline. */
    method Insert(id: nat, key: nat) returns (ok: bool)
      requires Valid() && id !in Due() && base <= key < KEY_LIMIT
      modifies this`bm, this`headsBm, this`heads, this`keys
      ensures Valid() && (ok <==> key != base) && keys == old(keys)[id := key]
      ensures Due() == if ok then old(Due())[id := key] else old(Due())
    {
      hide Placed, BitsOk, Holds;
      DueIs();
      PlacedNewKey(base, keys, heads, id, key);
      keys := keys[id := key];
      if base == key {
        DueIs();
        return false;
      }
      Push(id);
      DueIs();
      return true;
    }

    /** Moves the base up to `next`; exactly the nodes due there come out. */
    method SetBase(next: nat) returns (fired: seq<nat>)
      requires Valid() && base <= next < KEY_LIMIT && forall id :: id in Due() ==> next <= Due()[id]
      modifies this`base, this`bm, this`headsBm, this`heads
      ensures Valid() && base == next && NoDup(fired)
      ensures forall id :: id in fired <==> id in old(Due()) && old(Due())[id] == next
      ensures Due() == map id | id in old(Due()) && old(Due())[id] != next :: old(Due())[id]
    {
      hide Placed, BitsOk, Holds;
      DueIs();
      if base == next {
        return [];
      }
      var list := Detach(next);
      fired := Relink(list, next);
      WithKeyOk(list, keys, next);
      DueIs();
    }

    /** Moving the base empties the bucket the new base falls in. */
    method Detach(next: nat) returns (list: seq<nat>)
      requires Valid() && base < next < KEY_LIMIT && Reaches(keys, heads, next)
      modifies this`base, this`bm, this`headsBm, this`heads
      ensures Valid() && base == next && NoDup(list)
      ensures forall i :: 0 <= i < |list| ==> list[i] in keys && next <= keys[list[i]] < KEY_LIMIT && !Holds(heads, list[i])
      ensures forall id :: Holds(heads, id) <==> old(Holds(heads, id)) && id !in list
      ensures forall id :: id in list ==> old(Holds(heads, id))
      ensures forall id :: old(Holds(heads, id)) && keys[id] == next ==> id in list
    {
      hide Placed, BitsOk, Holds, Bucket, TopDigit, Digit, Reaches;
      var d := TopDigit(base, next);
      var x := Digit(next, d);
      ghost var b := Bucket(base, next);
      BucketBound(base, next);
      BucketParts(base, next);
      BitsSize(heads, headsBm, bm);
      PlacedRebase(base, next, keys, heads);
      list := heads[16 * d + x];
      DetachedList(base, next, keys, heads);
      BitsClear(heads, headsBm, bm, b);
      if list == [] {
        BitsSame(heads, headsBm, bm, b, []);
      }
      base := next;
      heads := heads[16 * d + x := []];
      if list != [] {
        headsBm := headsBm[d := headsBm[d] - {x}];
        if headsBm[d] == {} {
          bm := bm - {d};
        }
      }
    }

    /** Every detached node either goes back to a lower level or is due now. */
    method Relink(list: seq<nat>, next: nat) returns (fired: seq<nat>)
      requires Valid() && base == next && NoDup(list)
      requires forall i :: 0 <= i < |list| ==> list[i] in keys && next <= keys[list[i]] < KEY_LIMIT && !Holds(heads, list[i])
      modifies this`bm, this`headsBm, this`heads
      ensures Valid() && fired == WithKey(list, keys, next)
      ensures forall x :: Holds(heads, x) <==> old(Holds(heads, x)) || (x in list && keys[x] != next)
    {
      hide Placed, BitsOk, Holds, WithKey;
      WithKeyNone(list[..0], keys, next);
      fired := [];
      var i := 0;
      while i < |list|
        invariant i <= |list| && Valid() && fired == WithKey(list[..i], keys, next)
        invariant forall x :: Holds(heads, x) <==> old(Holds(heads, x)) || (x in list[..i] && keys[x] != next)
      {
        var node := list[i];
        WithKeyNext(list, keys, next, i);
        assert list[..i + 1] == list[..i] + [node];
        assert forall x :: x in list[..i + 1] <==> x in list[..i] || x == node;
        if keys[node] != next {
          Push(node);
        } else {
          fired := fired + [node];
        }
        i := i + 1;
      }
      assert list[..i] == list;
    }

    /** The farthest the base may move without passing a pending key; 0 when nothing is pending. */
    method MaxStep() returns (r: int)
      requires Valid()
      ensures StepOk(base, keys, heads, r)
    {
      hide Placed, BitsOk, StepOk, FirstBit, ShiftRight, ShiftLeft, Digit, Up, Pow16;
      if bm == {} {
        NothingHeld(heads, headsBm, bm);
        EmptyStep(base, keys, heads);
        return 0;
      }
      ghost var e, low := LowestLevel(heads, headsBm, bm);
      MaxStepOk(base, keys, heads, headsBm, bm, e, low);
      ReadBits(headsBm[e], Digit(base, e), low);
      var d := FirstBit(bm, 0, LEVELS);
      var x := Digit(base, d);
      var remain := if d == 0 then 0 else base - Up(base, d) * Pow16(d);
      var bits := headsBm[d];
      if d == LEVELS - 1 {
        r := FirstBit(ShiftRight(bits, x) + ShiftLeft(bits, 4 - x), 0, RADIX) * Pow16(d) - remain;
      } else {
        var rest := ShiftRight(bits, x);
        if rest == {} {
          r := (4 - x) * Pow16(d) - remain;
        } else {
          r := FirstBit(rest, 0, RADIX) * Pow16(d) - remain;
        }
      }
    }

    /** Takes a pending node out; the deadlines lose just that one. */
    method Remove(id: nat)
      requires Valid() && id in Due()
      modifies this`bm, this`headsBm, this`heads
      ensures Valid() && Due() == old(Due()) - {id}
    {
      hide Placed, BitsOk, Holds, Bucket, TopDigit, Digit;
      DueIs();
      PlacedDrop(base, keys, heads, id);
      BucketParts(base, keys[id]);
      BitsSize(heads, headsBm, bm);
      var d := TopDigit(base, keys[id]);
      var x := Digit(keys[id], d);
      var b := 16 * d + x;
      var l := heads[b];
      BitsClear(heads, headsBm, bm, b);
      if l[0] != id {
        BitsSame(heads, headsBm, bm, b, Without(l, id));
        heads := heads[b := Without(l, id)];
      } else if |l| > 1 {
        BitsSame(heads, headsBm, bm, b, l[1..]);
        heads := heads[b := l[1..]];
      } else {
        assert l[1..] == [];
        heads := heads[b := []];
        headsBm := headsBm[d := headsBm[d] - {x}];
        if headsBm[d] == {} {
          bm := bm - {d};
        }
      }
      DueIs();
    }
  }
}
