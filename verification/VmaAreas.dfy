/**
 The areas of an address space as values: page rounding on machine words, sorted area
 lists, the address lookup they stand for, and the effect of cutting a range out.
 */
module VmaAreas {
  const PGSIZE: nat := 4096
  const USERBASE: nat := 0x00200000
  const USERTOP: nat := 0xB0000000

  /** One more than the largest machine word. */
  const WORD: nat := 0x1_0000_0000

  datatype Flag = Read | Write | Exec | Stack | Share

  datatype Area = Area(start: nat, end: nat, flags: set<Flag>)

  function RoundDown(a: nat): nat
  {
    a - a % PGSIZE
  }

  /** Rounding up wraps around like the unsigned addition it is made of. */
  function RoundUp(a: nat): nat
  {
    RoundDown(Wrap(a + PGSIZE - 1))
  }

  /** A sum as a machine word. */
  function Wrap(x: nat): nat
  {
    x % WORD
  }

  function PageStart(addr: nat): nat
  {
    RoundDown(addr)
  }

  function PageEnd(addr: nat, len: nat): nat
  {
    RoundUp(Wrap(addr + len))
  }

  predicate UserAccess(start: nat, end: nat)
  {
    USERBASE <= start < end <= USERTOP
  }

  predicate Aligned(a: nat)
  {
    a % PGSIZE == 0
  }

  /** For every request that passes the access check: the rounded range is the least page-aligned range holding
      the request if and only if the request does not wrap around, and otherwise it is the one page it starts in. */
  lemma RoundedRange(addr: nat, len: nat)
    requires addr < WORD && len < WORD
    ensures Aligned(PageStart(addr)) && Aligned(PageEnd(addr, len)) && PageStart(addr) <= addr < PageStart(addr) + PGSIZE
    ensures UserAccess(PageStart(addr), PageEnd(addr, len)) ==>
      && (addr + len <= PageEnd(addr, len) <==> addr + len < WORD)
      && (addr + len < WORD ==> PageEnd(addr, len) < addr + len + PGSIZE)
      && (addr + len >= WORD ==> PageEnd(addr, len) == PageStart(addr) + PGSIZE)
  {
    hide RoundDown, Wrap, Aligned;
    var w := Wrap(addr + len);
    WrapIs(addr + len);
    WrapIs(w + PGSIZE - 1);
    DownIs(addr);
    DownIs(Wrap(w + PGSIZE - 1));
    var lo, hi := PageStart(addr), PageEnd(addr, len);
    NextPage(lo, hi);
    NextPage(lo + PGSIZE, hi);
  }

  lemma DownIs(a: nat)
    ensures RoundDown(a) <= a < RoundDown(a) + PGSIZE && Aligned(RoundDown(a)) && Aligned(RoundDown(a) + PGSIZE)
  {
  }

  lemma NextPage(a: nat, b: nat)
    requires Aligned(a) && Aligned(b)
    ensures a < b ==> a + PGSIZE <= b
  {
  }

  lemma WrapIs(x: nat)
    requires x < 2 * WORD
    ensures Wrap(x) == if x < WORD then x else x - WORD
  {
  }

  /** Such a request: almost 4 GB from 0x200800 on are taken for one page. */
  lemma WrappedRequest()
    ensures var addr, len := 0x20_0800, 0xffff_f900;
      && addr + len >= WORD && UserAccess(PageStart(addr), PageEnd(addr, len))
      && PageStart(addr) == 0x20_0000 && PageEnd(addr, len) == 0x20_1000
  {
    assert (0x20_0800 + 0xffff_f900) % WORD == 0x20_0100;
    assert (0x20_0100 + PGSIZE - 1) % WORD == 0x20_10ff;
  }

  lemma RoundAligned(a: nat)
    ensures Aligned(RoundDown(a)) && Aligned(RoundUp(a))
  {
    hide Aligned;
    DownIs(a);
    DownIs(Wrap(a + PGSIZE - 1));
  }

  /** Rounding a range that is already rounded changes nothing. */
  lemma RoundTwice(start: nat, end: nat)
    requires UserAccess(start, end) && Aligned(start) && Aligned(end)
    ensures PageStart(start) == start && PageEnd(start, end - start) == end
  {
    assert (start + (end - start)) % WORD == end;
    assert (end + PGSIZE - 1) % WORD == end + PGSIZE - 1;
  }

  predicate AreaOk(a: Area)
  {
    UserAccess(a.start, a.end) && Aligned(a.start) && Aligned(a.end)
  }

  /** Page-aligned, non-empty, disjoint and in ascending order. */
  predicate Sorted(s: seq<Area>)
  {
    && (forall i :: 0 <= i < |s| ==> AreaOk(s[i]))
    && (forall i, j :: 0 <= i < j < |s| ==> s[i].end <= s[j].start)
  }

  predicate Covers(x: Area, a: nat)
  {
    x.start <= a < x.end
  }

  /** Address `a` lies in an area with flags `f`. */
  ghost predicate At(s: seq<Area>, a: nat, f: set<Flag>)
  {
    exists i :: 0 <= i < |s| && Covers(s[i], a) && s[i].flags == f
  }

  ghost predicate Mapped(s: seq<Area>, a: nat)
  {
    exists i :: 0 <= i < |s| && Covers(s[i], a)
  }

  predicate Apart(x: Area, y: Area)
  {
    x.end <= y.start || y.end <= x.start
  }

  /** The lowest area whose end exceeds the address, or the length when there is none. */
  function First(s: seq<Area>, addr: nat): (k: nat)
    ensures k <= |s|
    ensures forall i :: 0 <= i < k ==> s[i].end <= addr
    ensures k < |s| ==> addr < s[k].end
  {
    if s == [] || addr < s[0].end then 0 else 1 + First(s[1..], addr)
  }

  /** How many leading areas start below `x`. */
  function Slot(s: seq<Area>, x: nat): (k: nat)
    ensures k <= |s|
    ensures forall i :: 0 <= i < k ==> s[i].start < x
    ensures k < |s| ==> x <= s[k].start
  {
    if s == [] || x <= s[0].start then 0 else 1 + Slot(s[1..], x)
  }

  lemma FirstIs(s: seq<Area>, addr: nat, k: nat)
    requires k <= |s|
    requires forall i :: 0 <= i < k ==> s[i].end <= addr
    requires k < |s| ==> addr < s[k].end
    ensures First(s, addr) == k
  {
    var f := First(s, addr);
  }

  lemma SlotIs(s: seq<Area>, x: nat, k: nat)
    requires k <= |s|
    requires forall i :: 0 <= i < k ==> s[i].start < x
    requires k < |s| ==> x <= s[k].start
    ensures Slot(s, x) == k
  {
    var f := Slot(s, x);
  }

  /** The areas below and above the lowest one whose end exceeds the address are clear of it. */
  lemma FirstSplits(s: seq<Area>, addr: nat)
    requires Sorted(s)
    ensures forall i :: 0 <= i < |s| && Covers(s[i], addr) ==> i == First(s, addr)
    ensures Mapped(s, addr) <==> First(s, addr) < |s| && s[First(s, addr)].start <= addr
  {
    var k := First(s, addr);
    forall i | 0 <= i < |s| && Covers(s[i], addr)
      ensures i == k
    {
    }
    if k < |s| && s[k].start <= addr {
      assert Covers(s[k], addr);
    }
  }

  // ---------- insertion ----------

  function Inserted(s: seq<Area>, x: Area): seq<Area>
  {
    s[..Slot(s, x.start)] + [x] + s[Slot(s, x.start)..]
  }

  ghost predicate ApartAll(s: seq<Area>, x: Area)
  {
    forall i :: 0 <= i < |s| ==> Apart(s[i], x)
  }

  /** Where an area clear of all others belongs, its neighbours do not overlap it. */
  lemma SlotApart(s: seq<Area>, x: Area)
    requires Sorted(s) && AreaOk(x) && ApartAll(s, x)
    ensures forall i :: 0 <= i < Slot(s, x.start) ==> s[i].end <= x.start
    ensures forall i :: Slot(s, x.start) <= i < |s| ==> x.end <= s[i].start
  {
    var k := Slot(s, x.start);
    forall i | 0 <= i < k
      ensures s[i].end <= x.start
    {
      assert Apart(s[i], x);
    }
    forall i | k <= i < |s|
      ensures x.end <= s[i].start
    {
      assert Apart(s[i], x);
      assert k < i ==> s[k].end <= s[i].start;
    }
  }

  /** Sorted, and within `[lo, hi)`. */
  predicate Within(s: seq<Area>, lo: nat, hi: nat)
  {
    Sorted(s) && forall i :: 0 <= i < |s| ==> lo <= s[i].start && s[i].end <= hi
  }

  lemma WithinConcat(s: seq<Area>, t: seq<Area>, lo: nat, mid: nat, hi: nat)
    requires lo <= mid <= hi && Within(s, lo, mid) && Within(t, mid, hi)
    ensures Within(s + t, lo, hi)
  {
    var u := s + t;
    assert forall i :: 0 <= i < |u| ==> u[i] == if i < |s| then s[i] else t[i - |s|];
  }

  lemma InsertedSorted(s: seq<Area>, x: Area)
    requires Sorted(s) && AreaOk(x) && ApartAll(s, x)
    ensures Sorted(Inserted(s, x))
  {
    SlotApart(s, x);
    var k := Slot(s, x.start);
    WithinConcat(s[..k], [x], 0, x.start, x.end);
    WithinConcat(s[..k] + [x], s[k..], 0, x.end, USERTOP);
  }

  lemma InsertedAt(s: seq<Area>, k: nat, x: Area, a: nat, f: set<Flag>)
    requires k <= |s|
    ensures At(s[..k] + [x] + s[k..], a, f) <==> At(s, a, f) || (Covers(x, a) && x.flags == f)
  {
    hide At, Covers;
    AtConcat(s[..k] + [x], s[k..], a, f);
    AtConcat(s[..k], [x], a, f);
    AtConcat(s[..k], s[k..], a, f);
    assert s[..k] + s[k..] == s;
    AtOne(x, a, f);
  }

  /** Insertion keeps the list sorted and adds exactly the addresses of the new area. */
  lemma InsertedOk(s: seq<Area>, x: Area)
    requires Sorted(s) && AreaOk(x) && ApartAll(s, x)
    ensures Sorted(Inserted(s, x))
    ensures forall a, f :: At(Inserted(s, x), a, f) <==> At(s, a, f) || (Covers(x, a) && x.flags == f)
  {
    hide At, Covers, Sorted;
    InsertedSorted(s, x);
    forall a, f
      ensures At(Inserted(s, x), a, f) <==> At(s, a, f) || (Covers(x, a) && x.flags == f)
    {
      InsertedAt(s, Slot(s, x.start), x, a, f);
    }
  }

  lemma AtOne(x: Area, a: nat, f: set<Flag>)
    ensures At([x], a, f) <==> Covers(x, a) && x.flags == f
  {
    if Covers(x, a) && x.flags == f {
      assert Covers([x][0], a);
    }
  }

  lemma AtConcat(s: seq<Area>, t: seq<Area>, a: nat, f: set<Flag>)
    ensures At(s + t, a, f) <==> At(s, a, f) || At(t, a, f)
  {
    if At(s, a, f) {
      var i :| 0 <= i < |s| && Covers(s[i], a) && s[i].flags == f;
      assert (s + t)[i] == s[i];
    }
    if At(t, a, f) {
      var i :| 0 <= i < |t| && Covers(t[i], a) && t[i].flags == f;
      assert (s + t)[|s| + i] == t[i];
    }
  }

  lemma MappedConcat(s: seq<Area>, t: seq<Area>, a: nat)
    ensures Mapped(s + t, a) <==> Mapped(s, a) || Mapped(t, a)
  {
    if Mapped(s, a) {
      var i :| 0 <= i < |s| && Covers(s[i], a);
      assert (s + t)[i] == s[i];
    }
    if Mapped(t, a) {
      var i :| 0 <= i < |t| && Covers(t[i], a);
      assert (s + t)[|s| + i] == t[i];
    }
  }

  lemma MappedIff(s: seq<Area>, a: nat)
    ensures Mapped(s, a) <==> exists f :: At(s, a, f)
  {
    if Mapped(s, a) {
      var i :| 0 <= i < |s| && Covers(s[i], a);
      assert At(s, a, s[i].flags);
    }
  }

  // ---------- removing a range ----------

  /** What is left of an area outside `[lo, hi)`. */
  function Trim(x: Area, lo: nat, hi: nat): seq<Area>
  {
    (if x.start < lo then [x.(end := if x.end <= lo then x.end else lo)] else []) +
    (if hi < x.end then [x.(start := if hi <= x.start then x.start else hi)] else [])
  }

  function Cut(s: seq<Area>, lo: nat, hi: nat): seq<Area>
  {
    if s == [] then [] else Trim(s[0], lo, hi) + Cut(s[1..], lo, hi)
  }

  lemma CutNone(lo: nat, hi: nat)
    ensures Cut([], lo, hi) == []
  {
  }

  lemma CutStep(s: seq<Area>, lo: nat, hi: nat)
    requires s != []
    ensures Cut(s, lo, hi) == Trim(s[0], lo, hi) + Cut(s[1..], lo, hi)
  {
    hide Trim;
  }

  lemma {:induction false} CutConcat(s: seq<Area>, t: seq<Area>, lo: nat, hi: nat)
    ensures Cut(s + t, lo, hi) == Cut(s, lo, hi) + Cut(t, lo, hi)
  {
    hide Trim, Cut;
    if s == [] {
      CutNone(lo, hi);
      assert s + t == t;
    } else {
      CutConcat(s[1..], t, lo, hi);
      CutStep(s, lo, hi);
      CutStep(s + t, lo, hi);
      assert (s + t)[1..] == s[1..] + t && (s + t)[0] == s[0];
    }
  }

  lemma {:induction false} CutClear(s: seq<Area>, lo: nat, hi: nat)
    requires lo < hi
    requires forall i :: 0 <= i < |s| ==> s[i].start < s[i].end && (s[i].end <= lo || hi <= s[i].start)
    ensures Cut(s, lo, hi) == s
  {
    if s != [] {
      CutClear(s[1..], lo, hi);
      assert Trim(s[0], lo, hi) == [s[0]];
    }
  }

  /** Only the areas that meet the range matter. */
  lemma CutMiddle(s: seq<Area>, lo: nat, hi: nat, k: nat, j: nat)
    requires Sorted(s) && lo < hi && k <= j <= |s|
    requires forall i :: 0 <= i < k ==> s[i].end <= lo
    requires forall i :: j <= i < |s| ==> hi <= s[i].start
    ensures Cut(s, lo, hi) == s[..k] + Cut(s[k..j], lo, hi) + s[j..]
  {
    hide Trim, Cut;
    CutClear(s[..k], lo, hi);
    CutClear(s[j..], lo, hi);
    CutConcat(s[..k] + s[k..j], s[j..], lo, hi);
    CutConcat(s[..k], s[k..j], lo, hi);
    assert s == s[..k] + s[k..j] + s[j..];
  }

  lemma TrimAt(x: Area, lo: nat, hi: nat, a: nat, f: set<Flag>)
    requires lo < hi && x.start < x.end
    ensures At(Trim(x, lo, hi), a, f) <==> Covers(x, a) && x.flags == f && !(lo <= a < hi)
  {
    var below: seq<Area> := if x.start < lo then [x.(end := if x.end <= lo then x.end else lo)] else [];
    var above: seq<Area> := if hi < x.end then [x.(start := if hi <= x.start then x.start else hi)] else [];
    AtConcat(below, above, a, f);
    if below != [] {
      AtOne(below[0], a, f);
    }
    if above != [] {
      AtOne(above[0], a, f);
    }
  }

  /** Cutting is exact: every address outside the range keeps its flags and none inside is left. */
  lemma {:induction false} CutAt(s: seq<Area>, lo: nat, hi: nat, a: nat, f: set<Flag>)
    requires lo < hi && forall i :: 0 <= i < |s| ==> s[i].start < s[i].end
    ensures At(Cut(s, lo, hi), a, f) <==> At(s, a, f) && !(lo <= a < hi)
  {
    if s != [] {
      CutAt(s[1..], lo, hi, a, f);
      TrimAt(s[0], lo, hi, a, f);
      AtConcat(Trim(s[0], lo, hi), Cut(s[1..], lo, hi), a, f);
      AtOne(s[0], a, f);
      AtConcat([s[0]], s[1..], a, f);
      assert s == [s[0]] + s[1..];
    }
  }

  lemma TrimWithin(x: Area, lo: nat, hi: nat)
    requires AreaOk(x) && lo < hi && Aligned(lo) && Aligned(hi)
    ensures Within(Trim(x, lo, hi), x.start, x.end)
  {
  }

  lemma {:induction false} CutWithin(s: seq<Area>, lo: nat, hi: nat, from: nat, to: nat)
    requires Within(s, from, to) && lo < hi && Aligned(lo) && Aligned(hi) && from <= to
    ensures Within(Cut(s, lo, hi), from, to)
  {
    hide Trim, Aligned;
    if s != [] {
      assert Within(s[1..], s[0].end, to);
      CutWithin(s[1..], lo, hi, s[0].end, to);
      TrimWithin(s[0], lo, hi);
      assert Within(Trim(s[0], lo, hi), from, s[0].end);
      WithinConcat(Trim(s[0], lo, hi), Cut(s[1..], lo, hi), from, s[0].end, to);
    }
  }

  /** What is left after a cut is again page-aligned, disjoint and in order. */
  lemma CutSorted(s: seq<Area>, lo: nat, hi: nat)
    requires Sorted(s) && lo < hi && Aligned(lo) && Aligned(hi)
    ensures Sorted(Cut(s, lo, hi))
  {
    CutWithin(s, lo, hi, 0, USERTOP);
  }

  // ---------- the highest gap ----------

  /** A user range of `len` bytes at `x` that meets no area. */
  ghost predicate Gap(s: seq<Area>, x: nat, len: nat)
  {
    USERBASE <= x && x + len <= USERTOP && forall i :: 0 <= i < |s| ==> x + len <= s[i].start || s[i].end <= x
  }

  /** Every address of the range may be accessed: mapped with the flag, and above a stack's guard page on writes. */
  ghost predicate Allowed(s: seq<Area>, a: nat, write: bool)
  {
    exists i :: 0 <= i < |s| && Covers(s[i], a) && MayTouch(s[i], a, write)
  }

  predicate MayTouch(x: Area, a: nat, write: bool)
  {
    (if write then Write else Read) in x.flags && (write && Stack in x.flags ==> x.start + PGSIZE <= a)
  }

  /** Between an allowed address and the end of its area everything is allowed. */
  lemma AllowedOn(s: seq<Area>, k: nat, a: nat, b: nat, write: bool)
    requires Sorted(s) && k < |s| && Covers(s[k], a) && a <= b < s[k].end
    ensures MayTouch(s[k], a, write) ==> Allowed(s, b, write)
    ensures Allowed(s, a, write) ==> MayTouch(s[k], a, write)
  {
    assert Covers(s[k], b);
    if Allowed(s, a, write) {
      var i :| 0 <= i < |s| && Covers(s[i], a) && MayTouch(s[i], a, write);
      assert i == k;
    }
  }

  // ---------- released ranges ----------

  datatype Range = Range(start: nat, end: nat)

  ghost predicate InRanges(r: seq<Range>, a: nat)
  {
    exists i :: 0 <= i < |r| && r[i].start <= a < r[i].end
  }

  lemma InRangesSnoc(r: seq<Range>, x: Range, a: nat)
    ensures InRanges(r + [x], a) <==> InRanges(r, a) || x.start <= a < x.end
  {
    assert (r + [x])[|r|] == x;
    if InRanges(r, a) {
      var i :| 0 <= i < |r| && r[i].start <= a < r[i].end;
      assert (r + [x])[i] == r[i];
    }
  }

  /** The ranges are exactly the mapped addresses within `[lo, hi)`. */
  ghost predicate Released(r: seq<Range>, s: seq<Area>, lo: nat, hi: nat)
  {
    forall a: nat :: InRanges(r, a) <==> Mapped(s, a) && lo <= a < hi
  }

  lemma ReleasedMore(r: seq<Range>, s: seq<Area>, lo: nat, hi: nat, x: Area, y: Range)
    requires Released(r, s, lo, hi)
    requires forall a: nat :: y.start <= a < y.end <==> Covers(x, a) && lo <= a < hi
    ensures Released(r + [y], [x] + s, lo, hi)
  {
    forall a: nat
      ensures InRanges(r + [y], a) <==> Mapped([x] + s, a) && lo <= a < hi
    {
      InRangesSnoc(r, y, a);
      MappedConcat([x], s, a);
      assert Covers(x, a) <==> Mapped([x], a) by {
        assert [x][0] == x;
      }
    }
  }

  lemma ReleasedAll(r: seq<Range>, s: seq<Area>, lo: nat, hi: nat, k: nat, j: nat)
    requires Sorted(s) && k <= j <= |s| && Released(r, s[k..j], lo, hi)
    requires forall i :: 0 <= i < k ==> s[i].end <= lo
    requires forall i :: j <= i < |s| ==> hi <= s[i].start
    ensures Released(r, s, lo, hi)
  {
    forall a: nat
      ensures InRanges(r, a) <==> Mapped(s, a) && lo <= a < hi
    {
      assert s == s[..k] + s[k..j] + s[j..];
      MappedConcat(s[..k] + s[k..j], s[j..], a);
      MappedConcat(s[..k], s[k..j], a);
    }
  }
}
