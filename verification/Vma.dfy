/**
 The address space of mm/vmm.c: area descriptors changed in place, kept in a sorted
 list, in a search tree once there are enough of them, and behind a one-entry cache.
 The tree is kept as a shape whose in-order sequence is the list; colours and
 rotations are the subject of module RbTree, and the two are shown to agree in order.
 */
module Vma {
  import opened VmaAreas
  import RbShape

  const RB_MIN_MAP_COUNT: nat := 32

  class VmaStruct {
    var start: nat
    var end: nat
    var flags: set<Flag>

    constructor (start: nat, end: nat, flags: set<Flag>)
      ensures Value(this) == Area(start, end, flags)
    {
      this.start, this.end, this.flags := start, end, flags;
    }
  }

  ghost function Value(v: VmaStruct): Area
    reads v
  {
    Area(v.start, v.end, v.flags)
  }

  /** What the descriptors hold at one moment. */
  type Memory = map<VmaStruct, Area>

  ghost predicate Current(m: Memory)
    reads m.Keys
  {
    forall v :: v in m ==> m[v] == Value(v)
  }

  ghost predicate Known(l: seq<VmaStruct>, m: Memory)
  {
    forall i :: 0 <= i < |l| ==> l[i] in m
  }

  ghost function Values(l: seq<VmaStruct>, m: Memory): (s: seq<Area>)
    requires Known(l, m)
    ensures |s| == |l| && forall i :: 0 <= i < |l| ==> s[i] == m[l[i]]
  {
    seq(|l|, i requires 0 <= i < |l| => m[l[i]])
  }

  ghost predicate Distinct(l: seq<VmaStruct>)
  {
    forall i, j :: 0 <= i < j < |l| ==> l[i] != l[j]
  }

  // ---------- list links ----------

  /** The descriptor after `v`, or null at the end of the list. */
  function Next(l: seq<VmaStruct>, v: VmaStruct): VmaStruct?
  {
    if l == [] then null
    else if l[0] == v then (if |l| == 1 then null else l[1])
    else Next(l[1..], v)
  }

  /** `v` linked in after `p`, or at the head when `p` is null. */
  function LinkAfter(l: seq<VmaStruct>, p: VmaStruct?, v: VmaStruct): seq<VmaStruct>
  {
    if p == null || l == [] then [v] + l
    else if l[0] == p then [p, v] + l[1..]
    else [l[0]] + LinkAfter(l[1..], p, v)
  }

  function Unlink(l: seq<VmaStruct>, v: VmaStruct): seq<VmaStruct>
  {
    if l == [] then [] else if l[0] == v then l[1..] else [l[0]] + Unlink(l[1..], v)
  }

  lemma {:induction false} NextAt(l: seq<VmaStruct>, k: nat)
    requires Distinct(l) && k < |l|
    ensures Next(l, l[k]) == if k + 1 < |l| then l[k + 1] else null
  {
    if k > 0 {
      assert l[0] != l[k];
      NextAt(l[1..], k - 1);
    }
  }

  lemma {:induction false} LinkAfterAt(l: seq<VmaStruct>, k: nat, v: VmaStruct)
    requires Distinct(l) && k <= |l|
    ensures LinkAfter(l, if k == 0 then null else l[k - 1], v) == l[..k] + [v] + l[k..]
  {
    if k == 1 {
      assert l[..1] == [l[0]];
    } else if k > 1 {
      assert l[0] != l[k - 1];
      LinkAfterAt(l[1..], k - 1, v);
      assert l[..k] == [l[0]] + l[1..][..k - 1];
    }
  }

  lemma {:induction false} UnlinkAt(l: seq<VmaStruct>, k: nat)
    requires Distinct(l) && k < |l|
    ensures Unlink(l, l[k]) == l[..k] + l[k + 1..]
  {
    hide Unlink;
    UnlinkIs(l, l[k]);
    if k == 0 {
      assert l[..k] + l[k + 1..] == l[1..];
    } else {
      assert l[0] != l[k];
      var t := l[1..];
      assert t[k - 1] == l[k];
      UnlinkAt(t, k - 1);
      assert [l[0]] + (t[..k - 1] + t[k..]) == l[..k] + l[k + 1..];
    }
  }

  // ---------- the search tree ----------

  datatype Tree = Leaf | Fork(left: Tree, vma: VmaStruct, right: Tree)

  datatype Option<T> = None | Some(value: T)

  function InOrder(t: Tree): seq<VmaStruct>
  {
    match t
    case Leaf => []
    case Fork(l, v, r) => InOrder(l) + [v] + InOrder(r)
  }

  lemma InOrderIs(t: Tree)
    ensures t.Leaf? ==> InOrder(t) == []
    ensures t.Fork? ==> InOrder(t) == InOrder(t.left) + [t.vma] + InOrder(t.right)
  {
  }

  function Join(l: Tree, r: Tree): (t: Tree)
    ensures InOrder(t) == InOrder(l) + InOrder(r)
  {
    match l
    case Leaf => r
    case Fork(a, v, b) => Fork(a, v, Join(b, r))
  }

  /** The tree without a node it holds. */
  function Prune(t: Tree, v: VmaStruct): Tree
  {
    match t
    case Leaf => Leaf
    case Fork(l, x, r) =>
      if v in InOrder(l) then Fork(Prune(l, v), x, r)
      else if x == v then Join(l, r)
      else Fork(l, x, Prune(r, v))
  }

  lemma UnlinkIs(l: seq<VmaStruct>, v: VmaStruct)
    ensures l == [] ==> Unlink(l, v) == []
    ensures l != [] ==> Unlink(l, v) == if l[0] == v then l[1..] else [l[0]] + Unlink(l[1..], v)
  {
  }

  lemma HeadOrTail(l: seq<VmaStruct>, v: VmaStruct)
    requires l != []
    ensures v in l <==> v == l[0] || v in l[1..]
  {
    assert l == [l[0]] + l[1..];
  }

  lemma {:induction false} UnlinkConcat(l: seq<VmaStruct>, m: seq<VmaStruct>, v: VmaStruct)
    ensures Unlink(l + m, v) == if v in l then Unlink(l, v) + m else l + Unlink(m, v)
  {
    hide Unlink;
    UnlinkIs(l, v);
    UnlinkIs(l + m, v);
    if l == [] {
      assert l + m == m;
    } else {
      UnlinkConcat(l[1..], m, v);
      assert (l + m)[1..] == l[1..] + m && (l + m)[0] == l[0];
      HeadOrTail(l, v);
      if l[0] != v && v in l[1..] {
        assert [l[0]] + (Unlink(l[1..], v) + m) == [l[0]] + Unlink(l[1..], v) + m;
      } else if l[0] != v {
        assert [l[0]] + (l[1..] + Unlink(m, v)) == l + Unlink(m, v);
      }
    }
  }

  /** Deleting a node takes it out of the in-order sequence and leaves the rest in place. */
  lemma {:induction false} PruneInOrder(t: Tree, v: VmaStruct)
    ensures InOrder(Prune(t, v)) == Unlink(InOrder(t), v)
  {
    hide Unlink, InOrder;
    InOrderIs(t);
    match t
    case Leaf =>
      UnlinkIs([], v);
    case Fork(l, x, r) =>
      PruneInOrder(l, v);
      PruneInOrder(r, v);
      InOrderIs(Prune(t, v));
      var b := [x] + InOrder(r);
      UnlinkConcat(InOrder(l), b, v);
      UnlinkIs(b, v);
      assert InOrder(t) == InOrder(l) + b && b[0] == x && b[1..] == InOrder(r);
  }

  /** rb_delete: callers know the resulting tree by its in-order sequence only, however it is balanced. */
  method TreeDelete(t: Tree, v: VmaStruct) returns (r: Tree)
    ensures InOrder(r) == Unlink(InOrder(t), v)
  {
    PruneInOrder(t, v);
    r := Prune(t, v);
  }

  lemma SlotLow(a: seq<Area>, x: Area, b: seq<Area>, p: nat)
    requires p <= x.start
    ensures Slot(a + [x] + b, p) == Slot(a, p)
  {
    hide Slot;
    var s := a + [x] + b;
    assert s[|a|] == x;
    assert forall i :: 0 <= i < |a| ==> s[i] == a[i];
    SlotIs(s, p, Slot(a, p));
  }

  lemma SlotHigh(a: seq<Area>, x: Area, b: seq<Area>, p: nat)
    requires x.start < p && forall i :: 0 <= i < |a| ==> a[i].start < p
    ensures Slot(a + [x] + b, p) == |a| + 1 + Slot(b, p)
  {
    hide Slot;
    var s := a + [x] + b;
    assert forall i :: 0 <= i < |s| ==> s[i] == if i < |a| then a[i] else if i == |a| then x else b[i - |a| - 1];
    SlotIs(s, p, |a| + 1 + Slot(b, p));
  }

  lemma SlotConcat(a: seq<Area>, x: Area, b: seq<Area>, p: nat)
    requires Sorted(a + [x] + b)
    ensures p <= x.start ==> Slot(a + [x] + b, p) == Slot(a, p)
    ensures x.start < p ==> Slot(a + [x] + b, p) == |a| + 1 + Slot(b, p)
  {
    hide Slot;
    var s := a + [x] + b;
    if p <= x.start {
      SlotLow(a, x, b, p);
    } else {
      forall i | 0 <= i < |a|
        ensures a[i].start < p
      {
        assert s[i] == a[i] && s[|a|] == x;
        assert AreaOk(s[i]) && s[i].end <= s[|a|].start;
      }
      SlotHigh(a, x, b, p);
    }
  }

  /** `r` is `l` with `v` placed at `k`, after `prev`. */
  ghost predicate Placed(l: seq<VmaStruct>, r: seq<VmaStruct>, k: nat, v: VmaStruct, prev: VmaStruct?)
  {
    k <= |l| && r == l[..k] + [v] + l[k..] && prev == if k == 0 then null else l[k - 1]
  }

  lemma PlacedLeft(a: seq<VmaStruct>, r: seq<VmaStruct>, k: nat, v: VmaStruct, prev: VmaStruct?,
      x: VmaStruct, b: seq<VmaStruct>)
    requires Placed(a, r, k, v, prev)
    ensures Placed(a + [x] + b, r + [x] + b, k, v, prev)
  {
  }

  lemma PlacedRight(b: seq<VmaStruct>, r: seq<VmaStruct>, k: nat, v: VmaStruct, prev: VmaStruct?,
      a: seq<VmaStruct>, x: VmaStruct)
    requires Placed(b, r, k, v, prev)
    ensures Placed(a + [x] + b, a + [x] + r, |a| + 1 + k, v, if prev == null then x else prev)
  {
  }

  lemma PlacedAlone(v: VmaStruct)
    ensures Placed([], [] + [v] + [], 0, v, null)
  {
  }

  /** Where a search stands: `pre` ends by the address, `post` starts with the best area so far. */
  ghost predicate Bracket(l: seq<VmaStruct>, s: seq<Area>, pre: seq<VmaStruct>, mid: seq<VmaStruct>,
      post: seq<VmaStruct>, addr: nat)
  {
    && l == pre + mid + post && |s| == |l|
    && (forall i :: 0 <= i < |pre| ==> s[i].end <= addr)
    && (post != [] ==> addr < s[|pre| + |mid|].end)
  }

  /** The descriptor of the lowest area whose end exceeds the address, or null. */
  ghost function Lowest(l: seq<VmaStruct>, s: seq<Area>, addr: nat): VmaStruct?
    requires |s| == |l|
  {
    if First(s, addr) < |l| then l[First(s, addr)] else null
  }

  lemma HeadOf(l: seq<VmaStruct>)
    ensures Head(l) == if l == [] then null else l[0]
  {
  }

  function Head(l: seq<VmaStruct>): VmaStruct?
  {
    if l == [] then null else l[0]
  }

  lemma BracketLeft(l: seq<VmaStruct>, s: seq<Area>, p: seq<VmaStruct>, a: seq<VmaStruct>, x: VmaStruct,
      b: seq<VmaStruct>, q: seq<VmaStruct>, addr: nat)
    requires Bracket(l, s, p, a + [x] + b, q, addr) && addr < s[|p| + |a|].end
    ensures Bracket(l, s, p, a, [x] + b + q, addr)
  {
  }

  lemma BracketRight(l: seq<VmaStruct>, s: seq<Area>, p: seq<VmaStruct>, a: seq<VmaStruct>, x: VmaStruct,
      b: seq<VmaStruct>, q: seq<VmaStruct>, addr: nat)
    requires Bracket(l, s, p, a + [x] + b, q, addr) && Sorted(s) && s[|p| + |a|].end <= addr
    ensures Bracket(l, s, p + a + [x], b, q, addr)
  {
    BelowEnds(s, |p| + |a|, addr);
  }

  lemma BracketHit(l: seq<VmaStruct>, s: seq<Area>, p: seq<VmaStruct>, a: seq<VmaStruct>, x: VmaStruct,
      b: seq<VmaStruct>, q: seq<VmaStruct>, addr: nat)
    requires Bracket(l, s, p, a + [x] + b, q, addr) && Sorted(s)
    requires s[|p| + |a|].start <= addr < s[|p| + |a|].end
    ensures Lowest(l, s, addr) == x
  {
    BelowEnds(s, |p| + |a|, addr);
    FirstIs(s, addr, |p| + |a|);
  }

  lemma BracketDone(l: seq<VmaStruct>, s: seq<Area>, p: seq<VmaStruct>, q: seq<VmaStruct>, addr: nat)
    requires Bracket(l, s, p, [], q, addr)
    ensures Head(q) == Lowest(l, s, addr)
  {
    FirstIs(s, addr, |p|);
  }

  lemma BracketMid(l: seq<VmaStruct>, s: seq<Area>, p: seq<VmaStruct>, a: seq<VmaStruct>, x: VmaStruct,
      b: seq<VmaStruct>, q: seq<VmaStruct>, addr: nat)
    requires Bracket(l, s, p, a + [x] + b, q, addr)
    ensures |p| + |a| < |l| == |s| && l[|p| + |a|] == x
  {
  }

  lemma SortedParts(a: seq<Area>, x: Area, b: seq<Area>)
    requires Sorted(a + [x] + b)
    ensures Sorted(a) && Sorted(b)
  {
    SortedSplit(a + [x], b);
    SortedSplit(a, [x]);
  }

  lemma SortedSplit(a: seq<Area>, b: seq<Area>)
    requires Sorted(a + b)
    ensures Sorted(a) && Sorted(b)
  {
    hide AreaOk;
    var s := a + b;
    assert forall i :: 0 <= i < |a| ==> a[i] == s[i];
    assert forall i :: 0 <= i < |b| ==> b[i] == s[|a| + i];
  }

  lemma ValuesConcat(a: seq<VmaStruct>, v: VmaStruct, b: seq<VmaStruct>, m: Memory)
    requires Known(a + [v] + b, m)
    ensures Known(a, m) && v in m && Known(b, m)
    ensures Values(a + [v] + b, m) == Values(a, m) + [m[v]] + Values(b, m)
  {
    KnownConcat(a + [v], b, m);
    KnownConcat(a, [v], m);
    assert [v][0] in m;
  }

  lemma KnownConcat(a: seq<VmaStruct>, b: seq<VmaStruct>, m: Memory)
    requires Known(a + b, m)
    ensures Known(a, m) && Known(b, m) && Values(a + b, m) == Values(a, m) + Values(b, m)
  {
    var l := a + b;
    assert forall i :: 0 <= i < |a| ==> l[i] == a[i];
    assert forall i :: 0 <= i < |b| ==> l[|a| + i] == b[i];
  }

  /** rb_insert: the new node goes to its place by start address, and the node before it in order comes back.
      Callers know the resulting tree by its in-order sequence only, however it is balanced. */
  method TreeInsert(t: Tree, v: VmaStruct, ghost m: Memory) returns (r: Tree, prev: VmaStruct?)
    requires Current(m) && v in m && Known(InOrder(t), m) && Sorted(Values(InOrder(t), m))
    ensures Placed(InOrder(t), InOrder(r), Slot(Values(InOrder(t), m), m[v].start), v, prev)
    decreases t
  {
    hide *;
    InOrderIs(t);
    ValueOf(v, m);
    match t
    case Leaf =>
      r, prev := Fork(Leaf, v, Leaf), null;
      InOrderIs(r);
      PlacedAlone(v);
    case Fork(a, x, b) =>
      ghost var la, lb := InOrder(a), InOrder(b);
      ValuesConcat(la, x, lb, m);
      ghost var sa, sb := Values(la, m), Values(lb, m);
      SortedParts(sa, m[x], sb);
      SlotConcat(sa, m[x], sb, v.start);
      ValueOf(x, m);
      if v.start <= x.start {
        var c, p := TreeInsert(a, v, m);
        r, prev := Fork(c, x, b), p;
        InOrderIs(r);
        PlacedLeft(la, InOrder(c), Slot(sa, v.start), v, p, x, lb);
      } else {
        var c, p := TreeInsert(b, v, m);
        r, prev := Fork(a, x, c), if p == null then x else p;
        InOrderIs(r);
        PlacedRight(lb, InOrder(c), Slot(sb, v.start), v, p, la, x);
      }
  }

  lemma ValueOf(v: VmaStruct, m: Memory)
    requires Current(m) && v in m
    ensures m[v].start == v.start && m[v].end == v.end && m[v].flags == v.flags
  {
  }

  /** In a sorted list, everything below an area that ends by `addr`, or that starts by it, ends by it too. */
  lemma BelowEnds(s: seq<Area>, k: nat, addr: nat)
    requires Sorted(s) && k < |s| && (s[k].end <= addr || s[k].start <= addr)
    ensures forall i :: 0 <= i < k ==> s[i].end <= addr
  {
    assert AreaOk(s[k]);
  }

  /** Descending the tree finds the lowest area whose end exceeds the address. */
  method FindVmaRb(t: Tree, addr: nat, ghost m: Memory) returns (vma: VmaStruct?)
    requires Current(m) && Known(InOrder(t), m) && Sorted(Values(InOrder(t), m))
    ensures vma == Lowest(InOrder(t), Values(InOrder(t), m), addr)
  {
    hide *;
    var node := t;
    vma := null;
    ghost var l := InOrder(t);
    ghost var s := Values(l, m);
    ghost var pre: seq<VmaStruct>, post: seq<VmaStruct> := [], [];
    BracketStart(l, s, addr);
    HeadOf(post);
    while node != Leaf
      invariant Current(m)
      invariant Bracket(l, s, pre, InOrder(node), post, addr) && vma == Head(post)
      decreases node
    {
      var tmp := node.vma;
      DescendMid(l, m, pre, node, post, addr);
      ValueOf(tmp, m);
      if tmp.end > addr {
        vma := tmp;
        if tmp.start <= addr {
          DescendHit(l, m, pre, node, post, addr);
          return;
        }
        DescendLeft(l, m, pre, node, post, addr);
        post := FromHere(node, post);
        node := node.left;
      } else {
        DescendRight(l, m, pre, node, post, addr);
        pre := UpToHere(pre, node);
        node := node.right;
      }
    }
    InOrderIs(node);
    BracketDone(l, s, pre, post, addr);
  }

  /** What lies from the node on, and up to the node, once its left or right side is searched. */
  ghost function FromHere(t: Tree, post: seq<VmaStruct>): seq<VmaStruct>
    requires t.Fork?
  {
    [t.vma] + InOrder(t.right) + post
  }

  ghost function UpToHere(pre: seq<VmaStruct>, t: Tree): seq<VmaStruct>
    requires t.Fork?
  {
    pre + InOrder(t.left) + [t.vma]
  }

  lemma DescendMid(l: seq<VmaStruct>, m: Memory, p: seq<VmaStruct>, t: Tree, q: seq<VmaStruct>, addr: nat)
    requires Known(l, m) && t.Fork? && Bracket(l, Values(l, m), p, InOrder(t), q, addr)
    ensures t.vma in m && |p| + |InOrder(t.left)| < |l| && Values(l, m)[|p| + |InOrder(t.left)|] == m[t.vma]
  {
    hide Bracket, Values;
    BracketMid(l, Values(l, m), p, InOrder(t.left), t.vma, InOrder(t.right), q, addr);
    KnownAt(l, m, |p| + |InOrder(t.left)|);
  }

  lemma DescendHit(l: seq<VmaStruct>, m: Memory, p: seq<VmaStruct>, t: Tree, q: seq<VmaStruct>, addr: nat)
    requires Known(l, m) && Sorted(Values(l, m)) && t.Fork? && Bracket(l, Values(l, m), p, InOrder(t), q, addr)
    requires t.vma in m && m[t.vma].start <= addr < m[t.vma].end
    ensures Lowest(l, Values(l, m), addr) == t.vma
  {
    hide Bracket, Values, Sorted, Lowest;
    DescendMid(l, m, p, t, q, addr);
    BracketHit(l, Values(l, m), p, InOrder(t.left), t.vma, InOrder(t.right), q, addr);
  }

  lemma DescendLeft(l: seq<VmaStruct>, m: Memory, p: seq<VmaStruct>, t: Tree, q: seq<VmaStruct>, addr: nat)
    requires Known(l, m) && t.Fork? && Bracket(l, Values(l, m), p, InOrder(t), q, addr)
    requires t.vma in m && addr < m[t.vma].end
    ensures Bracket(l, Values(l, m), p, InOrder(t.left), FromHere(t, q), addr) && Head(FromHere(t, q)) == t.vma
  {
    hide Bracket, Values;
    DescendMid(l, m, p, t, q, addr);
    BracketLeft(l, Values(l, m), p, InOrder(t.left), t.vma, InOrder(t.right), q, addr);
  }

  lemma DescendRight(l: seq<VmaStruct>, m: Memory, p: seq<VmaStruct>, t: Tree, q: seq<VmaStruct>, addr: nat)
    requires Known(l, m) && Sorted(Values(l, m)) && t.Fork? && Bracket(l, Values(l, m), p, InOrder(t), q, addr)
    requires t.vma in m && m[t.vma].end <= addr
    ensures Bracket(l, Values(l, m), UpToHere(p, t), InOrder(t.right), q, addr)
  {
    hide Bracket, Values, Sorted;
    DescendMid(l, m, p, t, q, addr);
    BracketRight(l, Values(l, m), p, InOrder(t.left), t.vma, InOrder(t.right), q, addr);
  }

  lemma KnownAt(l: seq<VmaStruct>, m: Memory, k: nat)
    requires Known(l, m) && k < |l|
    ensures l[k] in m && Values(l, m)[k] == m[l[k]]
  {
  }

  lemma BracketStart(l: seq<VmaStruct>, s: seq<Area>, addr: nat)
    requires |s| == |l|
    ensures Bracket(l, s, [], l, [], addr)
  {
  }

  /** In a sorted list the next area belongs at the end of the earlier ones. */
  lemma SlotLast(l: seq<VmaStruct>, i: nat, m: Memory)
    requires Known(l, m) && Sorted(Values(l, m)) && i < |l|
    ensures Known(l[..i], m) && Sorted(Values(l[..i], m))
    ensures Slot(Values(l[..i], m), m[l[i]].start) == i
  {
    var s := Values(l, m);
    assert Values(l[..i], m) == s[..i];
    forall j | 0 <= j < i
      ensures s[..i][j].start < s[i].start
    {
      assert AreaOk(s[j]) && s[j].end <= s[i].start;
    }
    SlotIs(s[..i], s[i].start, i);
  }

  lemma PlacedLast(l: seq<VmaStruct>, i: nat, r: seq<VmaStruct>, p: VmaStruct?)
    requires i < |l| && Placed(l[..i], r, i, l[i], p)
    ensures r == l[..i + 1]
  {
  }

  // ---------- the red-black tree under the areas ----------

  /** Tree nodes in order stand for descriptors in order, with the start address as key. */
  ghost predicate Linked(nodes: seq<RbShape.Node>, l: seq<VmaStruct>, m: Memory)
  {
    |nodes| == |l| && Known(l, m) && forall i :: 0 <= i < |l| ==> nodes[i].key == m[l[i]].start
  }

  /** Where red-black insertion puts a node is where its area belongs, so the descriptors behind the tree's
      in-order sequence are those that TreeInsert promises. */
  lemma RbInsertAgrees(nodes: seq<RbShape.Node>, nodes': seq<RbShape.Node>, n: RbShape.Node, k: nat,
      l: seq<VmaStruct>, m: Memory, v: VmaStruct)
    requires Linked(nodes, l, m) && Sorted(Values(l, m)) && RbShape.InsertedAt(nodes, nodes', n, k)
    requires v in m && n.key == m[v].start && forall i :: 0 <= i < |l| ==> m[l[i]].start != m[v].start
    ensures k == Slot(Values(l, m), m[v].start) && Linked(nodes', l[..k] + [v] + l[k..], m)
  {
    hide Slot, Sorted, Values;
    var s, r := Values(l, m), l[..k] + [v] + l[k..];
    forall i | 0 <= i < |l|
      ensures s[i].start == nodes[i].key != n.key
    {
    }
    SlotIs(s, m[v].start, k);
    forall i | 0 <= i < |r|
      ensures r[i] in m && nodes'[i].key == m[r[i]].start
    {
      if i < k {
        assert r[i] == l[i] && nodes'[i] == nodes[i];
      } else if i > k {
        assert r[i] == l[i - 1] && nodes'[i] == nodes[i - 1];
      }
    }
  }

  /** The same for red-black deletion and TreeDelete. */
  lemma RbDeleteAgrees(nodes: seq<RbShape.Node>, nodes': seq<RbShape.Node>, n: RbShape.Node, k: nat,
      l: seq<VmaStruct>, m: Memory)
    requires Linked(nodes, l, m) && Distinct(l) && RbShape.RemovedAt(nodes, nodes', n, k)
    ensures Linked(nodes', Unlink(l, l[k]), m)
  {
    hide Unlink;
    UnlinkAt(l, k);
    var r := l[..k] + l[k + 1..];
    assert forall i :: 0 <= i < |r| ==> r[i] == if i < k then l[i] else l[i + 1];
  }

  /** A tree holding the whole list, built by inserting the descriptors in list order. */
  method TreeOf(l: seq<VmaStruct>, ghost m: Memory) returns (t: Tree)
    requires Current(m) && Known(l, m) && Sorted(Values(l, m))
    ensures InOrder(t) == l
  {
    hide *;
    t := Leaf;
    InOrderIs(t);
    var i := 0;
    while i < |l|
      invariant i <= |l| && InOrder(t) == l[..i] && Current(m)
    {
      SlotLast(l, i, m);
      KnownAt(l, m, i);
      var p;
      t, p := TreeInsert(t, l[i], m);
      PlacedLast(l, i, InOrder(t), p);
      i := i + 1;
    }
    assert l[..i] == l;
  }

  // ---------- the address space ----------

  datatype Status = Done | Invalid | NoMemory

  /** List, tree, cache and counter agree, and the areas are sorted. */
  ghost predicate Ok(l: seq<VmaStruct>, t: Option<Tree>, c: VmaStruct?, n: int, m: Memory)
  {
    && Known(l, m) && Distinct(l) && Sorted(Values(l, m)) && n == |l|
    && (t.Some? ==> InOrder(t.value) == l)
    && (c != null ==> c in l)
  }

  lemma CacheHit(l: seq<VmaStruct>, m: Memory, c: VmaStruct, addr: nat)
    requires Known(l, m) && Sorted(Values(l, m)) && c in l && m[c].start <= addr < m[c].end
    ensures Lowest(l, Values(l, m), addr) == c
  {
    var k :| 0 <= k < |l| && l[k] == c;
    BelowEnds(Values(l, m), k, addr);
    FirstIs(Values(l, m), addr, k);
  }

  lemma OkCache(l: seq<VmaStruct>, t: Option<Tree>, c: VmaStruct?, n: int, m: Memory)
    requires Ok(l, t, c, n, m)
    ensures c != null ==> c in m
  {
  }

  lemma LowestIn(l: seq<VmaStruct>, m: Memory, addr: nat)
    requires Known(l, m)
    ensures Lowest(l, Values(l, m), addr) != null ==> Lowest(l, Values(l, m), addr) in l
  {
  }

  lemma DistinctSplice(l: seq<VmaStruct>, k: nat, v: VmaStruct)
    requires Distinct(l) && v !in l && k <= |l|
    ensures Distinct(l[..k] + [v] + l[k..])
  {
    var r := l[..k] + [v] + l[k..];
    assert forall i :: 0 <= i < |r| ==> r[i] == if i < k then l[i] else if i == k then v else l[i - 1];
  }

  /** Linking a descriptor in at its slot inserts its area. */
  lemma SpliceOk(l: seq<VmaStruct>, m: Memory, v: VmaStruct)
    requires Known(l, m) && Distinct(l) && Sorted(Values(l, m)) && v in m && v !in l
    requires AreaOk(m[v]) && ApartAll(Values(l, m), m[v])
    ensures var k := Slot(Values(l, m), m[v].start); var r := l[..k] + [v] + l[k..];
      Known(r, m) && Distinct(r) && Values(r, m) == Inserted(Values(l, m), m[v]) && Sorted(Values(r, m))
  {
    hide Slot, ApartAll, Sorted;
    var s := Values(l, m);
    var k := Slot(s, m[v].start);
    var r := l[..k] + [v] + l[k..];
    DistinctSplice(l, k, v);
    assert forall i :: 0 <= i < |r| ==> r[i] == if i < k then l[i] else if i == k then v else l[i - 1];
    assert Values(r, m) == s[..k] + [m[v]] + s[k..];
    InsertedSorted(s, m[v]);
  }

  lemma DropDistinct(l: seq<VmaStruct>, k: nat)
    requires Distinct(l) && k < |l|
    ensures Distinct(l[..k] + l[k + 1..])
    ensures forall v :: v in l[..k] + l[k + 1..] <==> v in l && v != l[k]
  {
    var r := l[..k] + l[k + 1..];
    assert forall i :: 0 <= i < |r| ==> r[i] == l[if i < k then i else i + 1];
    assert forall i :: 0 <= i < |l| && i != k ==> l[i] == r[if i < k then i else i - 1];
  }

  lemma DropValues(l: seq<VmaStruct>, m: Memory, k: nat)
    requires Known(l, m) && k < |l|
    ensures Known(l[..k] + l[k + 1..], m)
    ensures Values(l[..k] + l[k + 1..], m) == Values(l, m)[..k] + Values(l, m)[k + 1..]
  {
    var r := l[..k] + l[k + 1..];
    assert forall i :: 0 <= i < |r| ==> r[i] == l[if i < k then i else i + 1];
  }

  lemma DropSorted(s: seq<Area>, k: nat)
    requires Sorted(s) && k < |s|
    ensures Sorted(s[..k] + s[k + 1..])
  {
    var r := s[..k] + s[k + 1..];
    assert forall i :: 0 <= i < |r| ==> r[i] == s[if i < k then i else i + 1];
  }

  lemma UnspliceOk(l: seq<VmaStruct>, m: Memory, k: nat)
    requires Known(l, m) && Distinct(l) && Sorted(Values(l, m)) && k < |l|
    ensures var r := l[..k] + l[k + 1..];
      Known(r, m) && Distinct(r) && Sorted(Values(r, m)) && Values(r, m) == Values(l, m)[..k] + Values(l, m)[k + 1..]
    ensures forall v :: v in l[..k] + l[k + 1..] <==> v in l && v != l[k]
  {
    hide Known, Distinct, Sorted, Values;
    DropDistinct(l, k);
    DropValues(l, m, k);
    DropSorted(Values(l, m), k);
  }

  /** The descriptor before position `k`, or null at the head. */
  function PrevAt(l: seq<VmaStruct>, k: nat): VmaStruct?
    requires k <= |l|
  {
    if k == 0 then null else l[k - 1]
  }

  function NextAfter(l: seq<VmaStruct>, p: VmaStruct?): VmaStruct?
  {
    if p == null then Head(l) else Next(l, p)
  }

  lemma PlacedIs(l: seq<VmaStruct>, r: seq<VmaStruct>, k: nat, v: VmaStruct, prev: VmaStruct?)
    requires Placed(l, r, k, v, prev)
    ensures k <= |l| && r == l[..k] + [v] + l[k..] && prev == PrevAt(l, k)
  {
  }

  /** The neighbours at the slot of a new area do not overlap it. */
  lemma NeighboursApart(l: seq<VmaStruct>, m: Memory, v: VmaStruct)
    requires Known(l, m) && Distinct(l) && Sorted(Values(l, m)) && v in m
    requires AreaOk(m[v]) && ApartAll(Values(l, m), m[v])
    ensures var p := PrevAt(l, Slot(Values(l, m), m[v].start)); var n := NextAfter(l, p);
      && (p != null ==> p in m && m[p].start < m[p].end <= m[v].start)
      && (n != null ==> n in m && m[v].end <= m[n].start < m[n].end) && m[v].start < m[v].end
  {
    hide Sorted, ApartAll, Slot, Next;
    var s := Values(l, m);
    SlotApart(s, m[v]);
    var k := Slot(s, m[v].start);
    if k > 0 {
      NextAt(l, k - 1);
      SortedAt(s, k - 1);
    }
    if k < |l| {
      SortedAt(s, k);
    }
  }

  lemma SortedAt(s: seq<Area>, k: nat)
    requires Sorted(s) && k < |s|
    ensures AreaOk(s[k])
  {
  }

  lemma LinkedAtSlot(l: seq<VmaStruct>, k: nat, v: VmaStruct)
    requires Distinct(l) && k <= |l|
    ensures LinkAfter(l, PrevAt(l, k), v) == l[..k] + [v] + l[k..]
  {
    LinkAfterAt(l, k, v);
  }

  lemma OkInserted(l: seq<VmaStruct>, t: Option<Tree>, c: VmaStruct?, n: int, m: Memory, v: VmaStruct, u: Option<Tree>)
    requires Ok(l, t, c, n, m) && v in m && v !in l && AreaOk(m[v]) && ApartAll(Values(l, m), m[v])
    requires var k := Slot(Values(l, m), m[v].start); u.Some? ==> InOrder(u.value) == l[..k] + [v] + l[k..]
    ensures var k := Slot(Values(l, m), m[v].start); var r := l[..k] + [v] + l[k..];
      Ok(r, u, c, n + 1, m) && Values(r, m) == Inserted(Values(l, m), m[v])
  {
    hide Sorted, Distinct, Values, ApartAll, Slot, InOrder, Inserted;
    SpliceOk(l, m, v);
    var k := Slot(Values(l, m), m[v].start);
    assert l == l[..k] + l[k..];
  }

  lemma KnownIn(l: seq<VmaStruct>, m: Memory)
    requires Known(l, m)
    ensures forall v :: v in l ==> v in m
  {
  }

  lemma RoundedOk(addr: nat, len: nat, flags: set<Flag>)
    requires UserAccess(PageStart(addr), PageEnd(addr, len))
    ensures AreaOk(Area(PageStart(addr), PageEnd(addr, len), flags))
  {
    RoundAligned(addr);
    RoundAligned((addr + len) % WORD);
  }

  lemma OkTree(l: seq<VmaStruct>, c: VmaStruct?, n: int, m: Memory, t: Tree)
    requires Ok(l, None, c, n, m) && InOrder(t) == l
    ensures Ok(l, Some(t), c, n, m)
  {
  }

  lemma OkParts(l: seq<VmaStruct>, t: Option<Tree>, c: VmaStruct?, n: int, m: Memory)
    requires Ok(l, t, c, n, m)
    ensures Known(l, m) && Distinct(l) && Sorted(Values(l, m)) && n == |l|
    ensures t.Some? ==> InOrder(t.value) == l
    ensures c != null ==> c in l && c in m
  {
  }

  lemma OkRemoved(l: seq<VmaStruct>, t: Option<Tree>, u: Option<Tree>, c: VmaStruct?, n: int, m: Memory, k: nat)
    requires Ok(l, t, c, n, m) && k < |l|
    requires t.Some? == u.Some? && (t.Some? ==> InOrder(u.value) == Unlink(InOrder(t.value), l[k]))
    ensures var r := l[..k] + l[k + 1..];
      && Ok(r, u, if c == l[k] then null else c, n - 1, m)
      && Unlink(l, l[k]) == r && l[k] !in r
      && Values(r, m) == Values(l, m)[..k] + Values(l, m)[k + 1..]
  {
    hide Sorted, Values, InOrder, Unlink, Distinct;
    UnspliceOk(l, m, k);
    UnlinkAt(l, k);
    assert l[k] in l;
  }

  /** A descriptor outside the list may change freely. */
  lemma OkElsewhere(l: seq<VmaStruct>, t: Option<Tree>, c: VmaStruct?, n: int, m: Memory, v: VmaStruct, x: Area)
    requires Ok(l, t, c, n, m) && v !in l
    ensures Ok(l, t, c, n, m[v := x]) && Values(l, m[v := x]) == Values(l, m)
  {
    assert Known(l, m[v := x]);
    assert Values(l, m[v := x]) == Values(l, m);
  }

  /** Replacing an area in place keeps the order while the new one stays between its neighbours. */
  lemma SortedUpdate(s: seq<Area>, k: nat, x: Area)
    requires Sorted(s) && k < |s| && AreaOk(x)
    requires forall i :: 0 <= i < k ==> s[i].end <= x.start
    requires forall i :: k < i < |s| ==> x.end <= s[i].start
    ensures Sorted(s[k := x])
  {
  }

  /** Resizing in place: neither list nor tree has to change. */
  lemma OkResized(l: seq<VmaStruct>, t: Option<Tree>, c: VmaStruct?, n: int, m: Memory, k: nat, x: Area)
    requires Ok(l, t, c, n, m) && k < |l| && AreaOk(x)
    requires forall i :: 0 <= i < k ==> Values(l, m)[i].end <= x.start
    requires forall i :: k < i < |l| ==> x.end <= Values(l, m)[i].start
    ensures Ok(l, t, c, n, m[l[k] := x]) && Values(l, m[l[k] := x]) == Values(l, m)[k := x]
  {
    hide Sorted, AreaOk, InOrder;
    var u := m[l[k] := x];
    assert Known(l, u);
    assert Values(l, u) == Values(l, m)[k := x];
    SortedUpdate(Values(l, m), k, x);
  }

  lemma LowestIs(l: seq<VmaStruct>, m: Memory, addr: nat)
    requires Known(l, m)
    ensures var k, v := First(Values(l, m), addr), Lowest(l, Values(l, m), addr);
      if v == null then k == |l| else k < |l| && l[k] == v && v in m && Values(l, m)[k] == m[v]
  {
  }

  /** No overlap with the lowest area that ends above `start` means no overlap at all. */
  lemma ApartFromLowest(s: seq<Area>, x: Area)
    requires Sorted(s) && AreaOk(x)
    ensures ApartAll(s, x) <==> First(s, x.start) == |s| || x.end <= s[First(s, x.start)].start
  {
    var k := First(s, x.start);
    if k < |s| {
      assert AreaOk(s[k]);
      assert Apart(s[k], x) <==> x.end <= s[k].start;
    }
  }

  /** Areas are apart exactly when no address lies in both. */
  lemma ApartIff(s: seq<Area>, x: Area)
    requires Sorted(s) && AreaOk(x)
    ensures ApartAll(s, x) <==> forall a :: Covers(x, a) ==> !Mapped(s, a)
  {
    if ApartAll(s, x) {
      forall a | Covers(x, a)
        ensures !Mapped(s, a)
      {
        assert forall i :: 0 <= i < |s| ==> Apart(s[i], x);
      }
    }
    if !ApartAll(s, x) {
      var i :| 0 <= i < |s| && !Apart(s[i], x);
      assert AreaOk(s[i]);
      var a := if s[i].start <= x.start then x.start else s[i].start;
      assert Covers(x, a) && Covers(s[i], a);
    }
  }

  /** The freed descriptors, last first. */
  ghost predicate Reversed(free: seq<VmaStruct>, l: seq<VmaStruct>, k: nat, n: nat)
  {
    k <= n <= |l| && |free| == n - k && forall i :: 0 <= i < n - k ==> free[i] == l[n - 1 - i]
  }

  lemma ReversedMore(free: seq<VmaStruct>, l: seq<VmaStruct>, k: nat, n: nat)
    requires Reversed(free, l, k, n) && n < |l|
    ensures Reversed([l[n]] + free, l, k, n + 1)
  {
  }

  lemma ReversedTail(free: seq<VmaStruct>, l: seq<VmaStruct>, k: nat, n: nat)
    requires Reversed(free, l, k, n) && k < n
    ensures free != [] && free[0] == l[n - 1] && Reversed(free[1..], l, k, n - 1)
  {
  }

  /** The list without the descriptors from `k` to `j`. */
  ghost function Holed(l: seq<VmaStruct>, k: nat, j: nat): seq<VmaStruct>
    requires k <= j <= |l|
  {
    l[..k] + l[j..]
  }

  lemma HoledIs(l: seq<VmaStruct>, k: nat, j: nat)
    requires k <= j <= |l|
    ensures Holed(l, k, j) == l[..k] + l[j..] && Holed(l, k, k) == l
  {
  }

  /** Taking the descriptor at `i` out of a list that already lost those from `k` to `i`. */
  lemma DetachStep(l: seq<VmaStruct>, k: nat, i: nat)
    requires k <= i < |l|
    ensures var r := Holed(l, k, i);
      && k < |r| && r[k] == l[i] && r[..k] + r[k + 1..] == Holed(l, k, i + 1)
      && (Distinct(r) ==> Next(r, l[i]) == if i + 1 < |l| then l[i + 1] else null)
  {
    hide Next;
    var r := l[..k] + l[i..];
    assert r[k] == l[i];
    if Distinct(r) {
      NextAt(r, k);
      assert k + 1 < |r| ==> r[k + 1] == l[i + 1];
    }
  }

  // ---------- what the second pass of an unmap leaves ----------

  /** The areas once the freed ones from `n` on are dealt with. */
  ghost function Partial(a: seq<Area>, lo: nat, hi: nat, k: nat, n: nat, j: nat): seq<Area>
    requires k <= n <= j <= |a|
  {
    a[..k] + (Cut(a[n..j], lo, hi) + a[j..])
  }

  /** The freed area fits between what is below and what is already back. */
  lemma PartialRoom(a: seq<Area>, lo: nat, hi: nat, k: nat, n: nat, j: nat)
    requires Sorted(a) && k < n <= j <= |a| && lo < hi && Aligned(lo) && Aligned(hi)
    ensures var p := Partial(a, lo, hi, k, n, j);
      && k <= |p| && (forall i :: 0 <= i < k ==> p[i].end <= a[n - 1].start)
      && (forall i :: k <= i < |p| ==> a[n - 1].end <= p[i].start)
  {
    hide Cut, Aligned;
    var mid := Cut(a[n..j], lo, hi);
    var e := a[n - 1].end;
    assert AreaOk(a[n - 1]);
    assert Within(a[n..j], e, USERTOP) by {
      assert forall i :: 0 <= i < j - n ==> a[n..j][i] == a[n + i];
    }
    CutWithin(a[n..j], lo, hi, e, USERTOP);
    var p := Partial(a, lo, hi, k, n, j);
    assert forall i :: k <= i < k + |mid| ==> p[i] == mid[i - k];
    assert forall i :: k + |mid| <= i < |p| ==> p[i] == a[j + (i - k - |mid|)];
  }

  lemma PartialStep(a: seq<Area>, lo: nat, hi: nat, k: nat, n: nat, j: nat)
    requires k < n <= j <= |a|
    ensures var p := Partial(a, lo, hi, k, n, j);
      p[..k] + Trim(a[n - 1], lo, hi) + p[k..] == Partial(a, lo, hi, k, n - 1, j)
  {
    hide Cut, Trim;
    var mid := Cut(a[n..j], lo, hi);
    var p := Partial(a, lo, hi, k, n, j);
    assert p[..k] == a[..k] && p[k..] == mid + a[j..];
    CutStep(a[n - 1..j], lo, hi);
    assert a[n - 1..j][1..] == a[n..j] && a[n - 1..j][0] == a[n - 1];
  }

  lemma PartialEnds(a: seq<Area>, lo: nat, hi: nat, k: nat, j: nat)
    requires Sorted(a) && lo < hi && k <= j <= |a|
    requires forall i :: 0 <= i < k ==> a[i].end <= lo
    requires forall i :: j <= i < |a| ==> hi <= a[i].start
    ensures Partial(a, lo, hi, k, j, j) == a[..k] + a[j..]
    ensures Partial(a, lo, hi, k, k, j) == Cut(a, lo, hi)
  {
    hide Cut, Sorted;
    CutNone(lo, hi);
    assert a[j..j] == [];
    CutMiddle(a, lo, hi, k, j);
  }

  lemma SplitFits(a: seq<Area>, k: nat, lo: nat, hi: nat)
    requires Sorted(a) && k < |a| && a[k].start < lo < hi < a[k].end && Aligned(lo) && Aligned(hi)
    ensures var low, high := a[k].(end := lo), a[k].(start := hi);
      && AreaOk(low) && AreaOk(high) && Sorted(a[k := high]) && ApartAll(a[k := high], low)
      && Slot(a[k := high], low.start) == k && Aligned(a[k].end)
  {
    hide Slot;
    var low, high := a[k].(end := lo), a[k].(start := hi);
    SortedAt(a, k);
    SplitRoom(a, k, high);
    SplitRoom(a, k, low);
    SortedUpdate(a, k, high);
    var b := a[k := high];
    assert forall i :: 0 <= i < |b| ==> Apart(b[i], low);
    forall i | 0 <= i < k
      ensures b[i].start < low.start
    {
      SortedAt(a, i);
    }
    SlotIs(b, low.start, k);
  }

  /** Cutting the inside out of one area leaves its two ends. */
  lemma SplitCut(a: seq<Area>, k: nat, lo: nat, hi: nat)
    requires Sorted(a) && k < |a| && a[k].start < lo < hi < a[k].end && Aligned(lo) && Aligned(hi)
    ensures var low, high := a[k].(end := lo), a[k].(start := hi);
      && AreaOk(low) && AreaOk(high) && Sorted(a[k := high]) && ApartAll(a[k := high], low)
      && Slot(a[k := high], low.start) == k
      && Inserted(a[k := high], low) == Cut(a, lo, hi) && Aligned(a[k].end)
  {
    hide Sorted, AreaOk, ApartAll, Slot, Cut;
    var low, high := a[k].(end := lo), a[k].(start := hi);
    SplitFits(a, k, lo, hi);
    CutOne(a, k, lo, hi);
    assert a[k := high][..k] == a[..k] && a[k := high][k..] == [high] + a[k + 1..];
    assert Trim(a[k], lo, hi) == [low, high];
    assert a[..k] + [low] + ([high] + a[k + 1..]) == a[..k] + [low, high] + a[k + 1..];
  }

  lemma SplitRoom(a: seq<Area>, k: nat, x: Area)
    requires Sorted(a) && k < |a| && a[k].start <= x.start && x.end <= a[k].end
    ensures forall i :: 0 <= i < k ==> a[i].end <= x.start
    ensures forall i :: k < i < |a| ==> x.end <= a[i].start
  {
  }

  lemma CutOne(a: seq<Area>, k: nat, lo: nat, hi: nat)
    requires Sorted(a) && k < |a| && a[k].start < lo < hi < a[k].end
    ensures Cut(a, lo, hi) == a[..k] + Trim(a[k], lo, hi) + a[k + 1..]
  {
    hide Trim, Cut;
    CutMiddle(a, lo, hi, k, k + 1);
    CutStep(a[k..k + 1], lo, hi);
    CutNone(lo, hi);
    assert a[k..k + 1][1..] == [];
  }

  lemma SplitReleased(a: seq<Area>, k: nat, lo: nat, hi: nat)
    requires k < |a| && a[k].start < lo < hi < a[k].end
    ensures Released([Range(lo, hi)], a, lo, hi)
  {
    forall x: nat
      ensures InRanges([Range(lo, hi)], x) <==> Mapped(a, x) && lo <= x < hi
    {
      InRangesSnoc([], Range(lo, hi), x);
      assert [] + [Range(lo, hi)] == [Range(lo, hi)];
      assert lo <= x < hi ==> Covers(a[k], x);
    }
  }

  lemma NoneReleased(a: seq<Area>, lo: nat, hi: nat)
    requires forall i :: 0 <= i < |a| ==> a[i].end <= lo || hi <= a[i].start
    ensures Released([], a, lo, hi)
  {
  }

  /** An area between its neighbours belongs at that place. */
  lemma RoomSlot(a: seq<Area>, k: nat, x: Area)
    requires Sorted(a) && AreaOk(x) && k <= |a|
    requires forall i :: 0 <= i < k ==> a[i].end <= x.start
    requires forall i :: k <= i < |a| ==> x.end <= a[i].start
    ensures ApartAll(a, x) && Slot(a, x.start) == k && Inserted(a, x) == a[..k] + [x] + a[k..]
  {
    hide Slot;
    forall i | 0 <= i < k
      ensures a[i].start < x.start
    {
      SortedAt(a, i);
    }
    SlotIs(a, x.start, k);
  }

  /** The part of a freed area that is really unmapped. */
  function Overlap(x: Area, lo: nat, hi: nat): Range
  {
    Range(if x.start < lo then lo else x.start, if hi < x.end then hi else x.end)
  }

  /** A freed area meets the range but does not stick out on both sides. */
  ghost predicate OneSided(x: Area, lo: nat, hi: nat)
  {
    AreaOk(x) && Aligned(lo) && Aligned(hi) && lo < hi && lo < x.end && x.start < hi && !(x.start < lo && hi < x.end)
  }

  lemma OneSidedTrim(x: Area, lo: nat, hi: nat)
    requires OneSided(x, lo, hi)
    ensures x.start < lo ==> Trim(x, lo, hi) == [x.(end := lo)] && AreaOk(x.(end := lo)) && x.end <= hi
    ensures !(x.start < lo) && hi < x.end ==> Trim(x, lo, hi) == [x.(start := hi)] && AreaOk(x.(start := hi))
    ensures !(x.start < lo) && !(hi < x.end) ==> Trim(x, lo, hi) == []
    ensures Aligned(x.start) && Aligned(x.end) && Aligned(lo) && Aligned(hi) && x.start < hi && lo < x.end
    ensures Overlap(x, lo, hi) ==
      if x.start < lo then Range(lo, x.end) else Range(x.start, if hi < x.end then hi else x.end)
  {
  }

  lemma ReleasedStep(log: seq<Range>, a: seq<Area>, lo: nat, hi: nat, n: nat, j: nat)
    requires 0 < n <= j <= |a| && OneSided(a[n - 1], lo, hi) && Released(log, a[n..j], lo, hi)
    ensures Released(log + [Overlap(a[n - 1], lo, hi)], a[n - 1..j], lo, hi)
  {
    ReleasedMore(log, a[n..j], lo, hi, a[n - 1], Overlap(a[n - 1], lo, hi));
    assert [a[n - 1]] + a[n..j] == a[n - 1..j];
  }

  /** The descriptors from `k` to `n` are out of the list and still hold their old areas. */
  ghost predicate Loose(l: seq<VmaStruct>, a: seq<Area>, k: nat, n: nat, list: seq<VmaStruct>, m: Memory)
  {
    k <= n <= |l| == |a| && forall i :: k <= i < n ==> l[i] !in list && l[i] in m && m[l[i]] == a[i]
  }

  lemma LooseAfterDetach(l: seq<VmaStruct>, m: Memory, k: nat, j: nat)
    requires Known(l, m) && Distinct(l) && k <= j <= |l|
    ensures Loose(l, Values(l, m), k, j, l[..k] + l[j..], m)
  {
    var r := l[..k] + l[j..];
    assert forall i :: 0 <= i < |r| ==> r[i] == l[if i < k then i else i - k + j];
  }

  lemma LooseStep(l: seq<VmaStruct>, a: seq<Area>, k: nat, n: nat, list: seq<VmaStruct>, m: Memory,
      p: nat, list1: seq<VmaStruct>, m1: Memory)
    requires Loose(l, a, k, n, list, m) && k < n && Distinct(l) && p <= |list|
    requires list1 == list || list1 == list[..p] + [l[n - 1]] + list[p..]
    requires m1.Keys == m.Keys && forall w :: w in m && w != l[n - 1] ==> m1[w] == m[w]
    ensures Loose(l, a, k, n - 1, list1, m1)
  {
    forall i | k <= i < n - 1
      ensures l[i] !in list1
    {
      assert l[i] != l[n - 1];
    }
  }

  /** What the first pass of an unmap finds: the areas from `k` to `j` are those that meet the range. */
  ghost predicate Meets(a: seq<Area>, lo: nat, hi: nat, k: nat, j: nat)
  {
    && k < j <= |a| && (forall i :: 0 <= i < k ==> a[i].end <= lo) && lo < a[k].end
    && (forall i :: k <= i < j ==> a[i].start < hi) && (j < |a| ==> hi <= a[j].start)
  }

  lemma MeetsOneSided(a: seq<Area>, lo: nat, hi: nat, k: nat, j: nat, n: nat)
    requires Sorted(a) && Meets(a, lo, hi, k, j) && k <= n < j && Aligned(lo) && Aligned(hi) && lo < hi
    requires !(a[k].start < lo && hi < a[k].end)
    ensures OneSided(a[n], lo, hi)
  {
    SortedAt(a, n);
    SortedAt(a, k);
  }

  lemma MeetsIs(a: seq<Area>, lo: nat, hi: nat, k: nat, j: nat)
    requires First(a, lo) == k < j <= |a|
    requires forall i :: k <= i < j ==> a[i].start < hi
    requires j < |a| ==> hi <= a[j].start
    ensures Meets(a, lo, hi, k, j)
  {
  }

  lemma MeetsBounds(a: seq<Area>, lo: nat, hi: nat, k: nat, j: nat)
    requires Meets(a, lo, hi, k, j)
    ensures k < j <= |a|
  {
  }

  lemma ReversedNone(l: seq<VmaStruct>, k: nat)
    requires k <= |l|
    ensures Reversed([], l, k, k)
  {
  }

  lemma ReversedLen(free: seq<VmaStruct>, l: seq<VmaStruct>, k: nat, n: nat)
    requires Reversed(free, l, k, n)
    ensures k <= n <= |l| && |free| == n - k
  {
  }

  lemma LooseAt(l: seq<VmaStruct>, a: seq<Area>, k: nat, n: nat, list: seq<VmaStruct>, m: Memory)
    requires Loose(l, a, k, n, list, m) && k < n
    ensures l[n - 1] !in list && l[n - 1] in m && m[l[n - 1]] == a[n - 1]
  {
  }

  lemma MeetsRest(a: seq<Area>, lo: nat, hi: nat, k: nat, j: nat)
    requires Sorted(a) && Meets(a, lo, hi, k, j)
    ensures forall i :: 0 <= i < k ==> a[i].end <= lo
    ensures forall i :: j <= i < |a| ==> hi <= a[i].start
  {
    if j < |a| {
      SortedAt(a, j);
    }
  }

  /** The range lies strictly inside one area. */
  ghost predicate Inside(a: seq<Area>, lo: nat, hi: nat)
  {
    exists i :: 0 <= i < |a| && a[i].start < lo && hi < a[i].end
  }

  /** Nothing to do: the lowest area that ends above the range's start begins at or above its end. */
  lemma ClearBelow(a: seq<Area>, lo: nat, hi: nat)
    requires Sorted(a) && lo < hi && (First(a, lo) < |a| ==> hi <= a[First(a, lo)].start)
    ensures Cut(a, lo, hi) == a && Released([], a, lo, hi)
  {
    var k := First(a, lo);
    forall i | 0 <= i < |a|
      ensures a[i].start < a[i].end && (a[i].end <= lo || hi <= a[i].start)
    {
      SortedAt(a, i);
      if k < |a| {
        SortedAt(a, k);
      }
    }
    CutClear(a, lo, hi);
    NoneReleased(a, lo, hi);
  }

  lemma AreaOkIs(lo: nat, hi: nat)
    requires AreaOk(Area(lo, hi, {}))
    ensures UserAccess(lo, hi) && Aligned(lo) && Aligned(hi) && lo < hi
    ensures forall f :: AreaOk(Area(lo, hi, f))
  {
  }

  lemma UserAccessIs(lo: nat, hi: nat)
    requires UserAccess(lo, hi)
    ensures 0 < lo < hi
  {
  }

  lemma InsideIs(a: seq<Area>, k: nat, lo: nat, hi: nat)
    requires k < |a| && a[k].start < lo && hi < a[k].end
    ensures Inside(a, lo, hi)
  {
  }

  lemma DetachedOk(l: seq<VmaStruct>, m: Memory, k: nat, j: nat)
    requires Known(l, m) && Distinct(l) && k <= j <= |l|
    ensures Loose(l, Values(l, m), k, j, l[..k] + l[j..], m)
    ensures Known(l[..k] + l[j..], m) && Values(l[..k] + l[j..], m) == Values(l, m)[..k] + Values(l, m)[j..]
  {
    hide Loose;
    LooseAfterDetach(l, m, k, j);
    var r := l[..k] + l[j..];
    assert forall i :: 0 <= i < |r| ==> r[i] == l[if i < k then i else i - k + j];
  }

  /** A start above the area below it and below the one above it is a gap. */
  lemma GapHere(a: seq<Area>, i: nat, x: nat, len: nat)
    requires Sorted(a) && i < |a| && a[i].end <= x && x + len <= USERTOP
    requires forall j :: i < j < |a| ==> x + len <= a[j].start
    ensures Gap(a, x, len) && x > 0
  {
    assert AreaOk(a[i]);
  }

  /** A gap that does not clear the area from above lies below it. */
  lemma GapBelow(a: seq<Area>, i: nat, x: nat, len: nat)
    requires i < |a| && x < a[i].end && forall y: nat :: Gap(a, y, len) ==> y <= x
    ensures forall y: nat :: Gap(a, y, len) ==> y + len <= a[i].start && 0 < y
  {
  }

  /** The program break: the range read-write, everything else as before. */
  ghost predicate BrkView(a: seq<Area>, b: seq<Area>, lo: nat, hi: nat)
  {
    forall x: nat, f :: At(b, x, f) <==> (if lo <= x < hi then f == {Read, Write} else At(a, x, f))
  }

  lemma CutApart(a: seq<Area>, lo: nat, hi: nat, f: set<Flag>)
    requires Sorted(a) && UserAccess(lo, hi) && Aligned(lo) && Aligned(hi)
    ensures Sorted(Cut(a, lo, hi)) && AreaOk(Area(lo, hi, f)) && ApartAll(Cut(a, lo, hi), Area(lo, hi, f))
  {
    hide Cut, At, Mapped;
    var c, y := Cut(a, lo, hi), Area(lo, hi, f);
    CutSorted(a, lo, hi);
    assert forall i :: 0 <= i < |a| ==> AreaOk(a[i]);
    forall x | Covers(y, x)
      ensures !Mapped(c, x)
    {
      if Mapped(c, x) {
        MappedIff(c, x);
        var g :| At(c, x, g);
        CutAt(a, lo, hi, x, g);
      }
    }
    ApartIff(c, y);
  }

  lemma BrkInserted(a: seq<Area>, lo: nat, hi: nat)
    requires Sorted(a) && UserAccess(lo, hi) && Aligned(lo) && Aligned(hi)
    ensures BrkView(a, Inserted(Cut(a, lo, hi), Area(lo, hi, {Read, Write})), lo, hi)
  {
    hide Cut, At, Inserted;
    var c, y := Cut(a, lo, hi), Area(lo, hi, {Read, Write});
    CutApart(a, lo, hi, {Read, Write});
    InsertedOk(c, y);
    assert forall i :: 0 <= i < |a| ==> AreaOk(a[i]);
    forall x: nat, f
      ensures At(Inserted(c, y), x, f) <==> (if lo <= x < hi then f == {Read, Write} else At(a, x, f))
    {
      CutAt(a, lo, hi, x, f);
    }
  }

  /** Growing the area just below the range is the same to every address. */
  lemma BrkGrown(a: seq<Area>, lo: nat, hi: nat, k: nat)
    requires Sorted(a) && UserAccess(lo, hi) && Aligned(lo) && Aligned(hi)
    requires k < |Cut(a, lo, hi)| && Cut(a, lo, hi)[k].end == lo && Cut(a, lo, hi)[k].flags == {Read, Write}
    ensures var c := Cut(a, lo, hi); var y := c[k].(end := hi);
      && Sorted(c) && AreaOk(y) && BrkView(a, c[k := y], lo, hi)
      && (forall i :: 0 <= i < k ==> c[i].end <= y.start) && (forall i :: k < i < |c| ==> y.end <= c[i].start)
  {
    hide Cut, At;
    var c := Cut(a, lo, hi);
    var y := c[k].(end := hi);
    var z := Area(lo, hi, {Read, Write});
    CutApart(a, lo, hi, {Read, Write});
    SortedAt(c, k);
    forall i | k < i < |c|
      ensures y.end <= c[i].start
    {
      SortedAt(c, i);
      assert Apart(c[i], z);
    }
    assert forall i :: 0 <= i < |a| ==> AreaOk(a[i]);
    var d := c[k := y];
    forall x: nat, f
      ensures At(d, x, f) <==> (if lo <= x < hi then f == {Read, Write} else At(a, x, f))
    {
      CutAt(a, lo, hi, x, f);
      GrownAt(c, k, hi, x, f);
    }
    assert BrkView(a, d, lo, hi);
  }

  lemma GrownAt(c: seq<Area>, k: nat, hi: nat, x: nat, f: set<Flag>)
    requires k < |c| && c[k].start < c[k].end < hi
    ensures At(c[k := c[k].(end := hi)], x, f) <==> At(c, x, f) || (c[k].end <= x < hi && f == c[k].flags)
  {
    var d := c[k := c[k].(end := hi)];
    if At(c, x, f) {
      var i :| 0 <= i < |c| && Covers(c[i], x) && c[i].flags == f;
      assert Covers(d[i], x) && d[i].flags == f;
    }
    if c[k].end <= x < hi && f == c[k].flags {
      assert Covers(d[k], x);
    }
    if At(d, x, f) {
      var i :| 0 <= i < |d| && Covers(d[i], x) && d[i].flags == f;
      assert i != k ==> c[i] == d[i];
      assert i == k && x < c[k].end ==> Covers(c[k], x);
    }
  }

  lemma NotAllowed(s: seq<Area>, a: nat, write: bool)
    requires Sorted(s)
    ensures First(s, a) == |s| || a < s[First(s, a)].start ==> !Allowed(s, a, write)
    ensures First(s, a) < |s| ==> a < s[First(s, a)].end
  {
    hide First;
    FirstSplits(s, a);
    if Allowed(s, a, write) {
      var i :| 0 <= i < |s| && Covers(s[i], a) && MayTouch(s[i], a, write);
      assert Mapped(s, a);
    }
  }

  /** From an address to the end of its area, either all may be accessed or the first may not. */
  lemma AllowedUpTo(s: seq<Area>, k: nat, a: nat, write: bool)
    requires Sorted(s) && k < |s| && s[k].start <= a < s[k].end
    ensures Allowed(s, a, write) <==>
      (if write then Write else Read) in s[k].flags && (write && Stack in s[k].flags ==> s[k].start + PGSIZE <= a)
    ensures Allowed(s, a, write) ==> forall b :: a <= b < s[k].end ==> Allowed(s, b, write)
  {
    hide Allowed, Sorted;
    forall b | a <= b < s[k].end
      ensures MayTouch(s[k], a, write) ==> Allowed(s, b, write)
      ensures Allowed(s, a, write) ==> MayTouch(s[k], a, write)
    {
      AllowedOn(s, k, a, b, write);
    }
  }

  class MmStruct {
    var list: seq<VmaStruct>
    var tree: Option<Tree>
    var cache: VmaStruct?
    var count: int
    /** The ranges handed to unmap_range, in order. */
    var unmapped: seq<Range>
    /** Every descriptor this address space has created. */
    ghost var nodes: set<VmaStruct>

    ghost function Mem(): Memory
      reads this`nodes, nodes
    {
      map v | v in nodes :: Value(v)
    }

    ghost predicate Valid()
      reads this, nodes
    {
      Ok(list, tree, cache, count, Mem())
    }

    ghost function Areas(): seq<Area>
      requires Valid()
      reads this, nodes
    {
      Values(list, Mem())
    }

    lemma ValidIs()
      ensures Current(Mem()) && Mem().Keys == nodes
      ensures Valid() <==> Ok(list, tree, cache, count, Mem())
      ensures Valid() ==> Known(list, Mem()) && Areas() == Values(list, Mem())
    {
    }

    constructor ()
      ensures Valid() && list == [] && tree == None && cache == null && unmapped == [] && nodes == {}
    {
      list, tree, cache, count, unmapped, nodes := [], None, null, 0, [], {};
    }

    /** A new descriptor, or null when there is no memory for one. */
    method Create(start: nat, end: nat, flags: set<Flag>) returns (v: VmaStruct?)
      modifies this`nodes
      ensures fresh(nodes - old(nodes)) && (v == null ==> nodes == old(nodes))
      ensures v != null ==> fresh(v) && nodes == old(nodes) + {v} && Mem() == old(Mem())[v := Area(start, end, flags)]
    {
      var available: bool := *;
      v := null;
      if available {
        v := new VmaStruct(start, end, flags);
        nodes := nodes + {v};
      }
    }

    method Resize(v: VmaStruct, start: nat, end: nat)
      requires v in nodes && Aligned(start) && Aligned(end)
      requires v.start <= start < end <= v.end
      modifies v`start, v`end
      ensures Mem() == old(Mem())[v := Area(start, end, old(v.flags))]
    {
      v.start, v.end := start, end;
    }

    /** Cache, tree and list give the same answer: the lowest area whose end exceeds the address. */
    method FindVma(addr: nat) returns (vma: VmaStruct?)
      requires Valid()
      modifies this`cache
      ensures Valid() && vma == Lowest(list, Areas(), addr)
    {
      hide Sorted, Values, Distinct, Known, InOrder, First, Lowest;
      vma := cache;
      ghost var m := Mem();
      ValidIs();
      OkCache(list, tree, cache, count, m);
      if !(vma != null && vma.start <= addr && vma.end > addr) {
        if tree.Some? {
          vma := FindVmaRb(tree.value, addr, m);
        } else {
          vma := ScanList(addr);
        }
      } else {
        ValueOf(vma, m);
        CacheHit(list, m, vma, addr);
      }
      LowestIn(list, m, addr);
      if vma != null {
        cache := vma;
      }
      assert Mem() == m;
    }

    method ScanList(addr: nat) returns (vma: VmaStruct?)
      requires Valid()
      ensures vma == Lowest(list, Areas(), addr)
    {
      var i := 0;
      vma := null;
      ghost var s := Areas();
      while i < |list|
        invariant i <= |list| && s == Areas()
        invariant forall j :: 0 <= j < i ==> s[j].end <= addr
      {
        vma := list[i];
        if addr < vma.end {
          FirstIs(s, addr, i);
          return;
        }
        i := i + 1;
      }
      vma := null;
      FirstIs(s, addr, i);
    }

    /** The last descriptor that does not start above the new one. */
    method ScanPrev(v: VmaStruct) returns (prev: VmaStruct?)
      requires Valid() && v in nodes && AreaOk(Mem()[v]) && ApartAll(Areas(), Mem()[v])
      ensures prev == PrevAt(list, Slot(Areas(), Mem()[v].start))
    {
      hide Sorted, Slot;
      ghost var m := Mem();
      ghost var s := Areas();
      var i := 0;
      prev := null;
      while i < |list|
        invariant i <= |list| && s == Areas() && m == Mem()
        invariant prev == PrevAt(list, i)
        invariant forall j :: 0 <= j < i ==> s[j].start < m[v].start
      {
        var x := list[i];
        SortedAt(s, i);
        assert Apart(s[i], m[v]);
        if x.start > v.start {
          SlotIs(s, m[v].start, i);
          return;
        }
        prev := x;
        i := i + 1;
      }
      SlotIs(s, m[v].start, i);
    }

    /** The new descriptor goes to its place in list and tree; neither overlap assertion can fail. */
    method InsertVmaStruct(v: VmaStruct)
      requires Valid() && v in nodes && v !in list
      requires AreaOk(Mem()[v]) && ApartAll(Areas(), Mem()[v])
      modifies this`list, this`tree, this`count
      ensures Valid() && Areas() == Inserted(old(Areas()), Mem()[v])
      ensures var k := Slot(old(Areas()), Mem()[v].start); list == old(list)[..k] + [v] + old(list)[k..]
      ensures old(tree).Some? ==> tree.Some?
      ensures old(tree).None? && tree.Some? ==> |list| >= RB_MIN_MAP_COUNT
    {
      hide *;
      ghost var m := Mem();
      ValidIs();
      ghost var l, t, c, n := list, tree, cache, count;
      OkParts(l, t, c, n, m);
      ghost var k := Slot(Values(l, m), m[v].start);
      var prev: VmaStruct?, grown := null, None;
      if tree.Some? {
        var u;
        u, prev := TreeInsert(tree.value, v, m);
        grown := Some(u);
        PlacedIs(l, InOrder(u), k, v, prev);
      } else {
        prev := ScanPrev(v);
      }
      var next := NextAfter(list, prev);
      NeighboursApart(l, m, v);
      CheckOverlap(prev, v, next, m);
      LinkedAtSlot(l, k, v);
      OkInserted(l, t, c, n, m, v, grown);
      list := LinkAfter(list, prev, v);
      tree := grown;
      count := count + 1;
      assert Mem() == m;
      ValidIs();
      if tree.None? && count >= RB_MIN_MAP_COUNT {
        BuildTree();
        ValidIs();
      }
    }

    /** The overlap assertions of an insertion. */
    method CheckOverlap(prev: VmaStruct?, v: VmaStruct, next: VmaStruct?, ghost m: Memory)
      requires Current(m) && v in m
      requires prev != null ==> prev in m && m[prev].start < m[prev].end <= m[v].start
      requires next != null ==> next in m && m[v].end <= m[next].start < m[next].end
      requires m[v].start < m[v].end
    {
      if prev != null {
        assert prev.start < prev.end && prev.end <= v.start && v.start < v.end;
      }
      if next != null {
        assert v.start < v.end && v.end <= next.start && next.start < next.end;
      }
    }

    /** With enough areas the tree is built, unless there is no memory for it. */
    method BuildTree()
      requires Valid() && tree.None?
      modifies this`tree
      ensures Valid()
    {
      hide *;
      ghost var m := Mem();
      ValidIs();
      OkParts(list, tree, cache, count, m);
      var available: bool := *;
      if available {
        var t := TreeOf(list, m);
        OkTree(list, cache, count, m, t);
        tree := Some(t);
        assert Mem() == m;
        ValidIs();
      }
    }

    method RemoveVmaStruct(v: VmaStruct, ghost k: nat)
      requires Valid() && k < |list| && list[k] == v
      modifies this`list, this`tree, this`cache, this`count
      ensures Valid() && v !in list && list == old(list)[..k] + old(list)[k + 1..]
    {
      hide *;
      ghost var m := Mem();
      ValidIs();
      ghost var was := tree;
      if tree.Some? {
        var t := TreeDelete(tree.value, v);
        tree := Some(t);
      }
      OkRemoved(list, was, tree, cache, count, m, k);
      list := Unlink(list, v);
      if v == cache {
        cache := null;
      }
      count := count - 1;
      assert Mem() == m;
      ValidIs();
    }

    // ---------- mapping ----------

    /** Maps a page range exactly when none of it is mapped. */
    method MmMap(addr: nat, len: nat, flags: set<Flag>) returns (r: Status)
      requires Valid()
      modifies this
      ensures Valid() && unmapped == old(unmapped) && fresh(nodes - old(nodes))
      ensures var x := Area(PageStart(addr), PageEnd(addr, len), flags - {Share});
        && (r == Invalid <==> !UserAccess(x.start, x.end) || exists a :: Covers(x, a) && Mapped(old(Areas()), a))
        && (r == Done ==> Areas() == Inserted(old(Areas()), x))
        && (r != Done ==> Areas() == old(Areas()))
    {
      hide *;
      var start, end := PageStart(addr), PageEnd(addr, len);
      if !UserAccess(start, end) {
        return Invalid;
      }
      ghost var x := Area(start, end, flags - {Share});
      ghost var m := Mem();
      ValidIs();
      OkParts(list, tree, cache, count, m);
      RoundedOk(addr, len, flags - {Share});
      ghost var s := Areas();
      ApartFromLowest(s, x);
      ApartIff(s, x);
      var vma := FindVma(start);
      LowestIs(list, m, start);
      assert Mem() == m;
      ValidIs();
      if vma != null {
        ValueOf(vma, m);
      }
      if vma != null && end > vma.start {
        return Invalid;
      }
      r := Place(start, end, flags - {Share});
    }

    /** A new area where there is room for it. */
    method Place(start: nat, end: nat, flags: set<Flag>) returns (r: Status)
      requires Valid() && AreaOk(Area(start, end, flags)) && ApartAll(Areas(), Area(start, end, flags))
      modifies this`nodes, this`list, this`tree, this`count
      ensures Valid() && r != Invalid && fresh(nodes - old(nodes))
      ensures Areas() == if r == Done then Inserted(old(Areas()), Area(start, end, flags)) else old(Areas())
    {
      hide *;
      ghost var l, t, c, n, m := list, tree, cache, count, Mem();
      ValidIs();
      KnownIn(l, m);
      var v := Create(start, end, flags);
      if v == null {
        return NoMemory;
      }
      OkElsewhere(l, t, c, n, m, v, Area(start, end, flags));
      ValidIs();
      InsertVmaStruct(v);
      r := Done;
    }

    // ---------- unmapping ----------

    method UnmapRange(start: nat, end: nat)
      modifies this`unmapped
      ensures unmapped == old(unmapped) + [Range(start, end)]
    {
      unmapped := unmapped + [Range(start, end)];
    }

    /** The range lies strictly inside one area, which becomes two. */
    method UnmapInside(vma: VmaStruct, start: nat, end: nat, ghost k: nat) returns (r: Status)
      requires Valid() && k < |list| && list[k] == vma && Aligned(start) && Aligned(end) && start < end
      requires vma.start < start && end < vma.end
      modifies this`nodes, this`list, this`tree, this`count, this`unmapped, vma
      ensures Valid() && r != Invalid && fresh(nodes - old(nodes))
      ensures r == NoMemory ==> Areas() == old(Areas()) && unmapped == old(unmapped)
      ensures r == Done ==> Areas() == Cut(old(Areas()), start, end)
      ensures r == Done ==> unmapped == old(unmapped) + [Range(start, end)] && Released([Range(start, end)], old(Areas()), start, end)
    {
      hide *;
      ghost var l, t, c, n, m := list, tree, cache, count, Mem();
      ValidIs();
      OkParts(l, t, c, n, m);
      ghost var a := Values(l, m);
      KnownIn(l, m);
      KnownAt(l, m, k);
      ValueOf(vma, m);
      SplitCut(a, k, start, end);
      SplitReleased(a, k, start, end);
      ghost var low, high := a[k].(end := start), a[k].(start := end);
      var nvma := Create(vma.start, start, vma.flags);
      if nvma == null {
        return NoMemory;
      }
      OkElsewhere(l, t, c, n, m, nvma, low);
      ghost var m1 := m[nvma := low];
      Resize(vma, end, vma.end);
      ghost var m2 := m1[vma := high];
      SplitRoom(a, k, high);
      OkResized(l, t, c, n, m1, k, high);
      assert Mem() == m2;
      ValidIs();
      InsertVmaStruct(nvma);
      ValidIs();
      UnmapRange(start, end);
      assert Mem() == m2;
      ValidIs();
      r := Done;
    }

    /** A freed descriptor goes back with a smaller area. */
    method PutBack(v: VmaStruct, start: nat, end: nat, ghost k: nat)
      requires Valid() && v in nodes && v !in list && k <= |list|
      requires Aligned(start) && Aligned(end) && v.start <= start < end <= v.end && AreaOk(Area(start, end, v.flags))
      requires forall i :: 0 <= i < k ==> Areas()[i].end <= start
      requires forall i :: k <= i < |list| ==> end <= Areas()[i].start
      modifies this`list, this`tree, this`count, v
      ensures Valid() && Mem() == old(Mem())[v := Area(start, end, old(v.flags))]
      ensures Areas() == old(Areas())[..k] + [Area(start, end, old(v.flags))] + old(Areas())[k..]
      ensures list == old(list)[..k] + [v] + old(list)[k..]
    {
      hide *;
      ghost var l, t, c, n, m := list, tree, cache, count, Mem();
      ghost var y := Area(start, end, v.flags);
      ValidIs();
      OkParts(l, t, c, n, m);
      Resize(v, start, end);
      OkElsewhere(l, t, c, n, m, v, y);
      ValidIs();
      RoomSlot(Values(l, m), k, y);
      InsertVmaStruct(v);
      ValidIs();
    }

    /** One step of the second pass: what sticks out goes back, the rest is unmapped. */
    method Release(v: VmaStruct, start: nat, end: nat, ghost k: nat)
      requires Valid() && v in nodes && v !in list && k <= |list| && OneSided(Mem()[v], start, end)
      requires forall i :: 0 <= i < k ==> Areas()[i].end <= v.start
      requires forall i :: k <= i < |list| ==> v.end <= Areas()[i].start
      modifies this`list, this`tree, this`count, this`unmapped, v
      ensures Valid()
      ensures Areas() == old(Areas())[..k] + Trim(old(Mem()[v]), start, end) + old(Areas())[k..]
      ensures unmapped == old(unmapped) + [Overlap(old(Mem()[v]), start, end)]
      ensures list == old(list) || list == old(list)[..k] + [v] + old(list)[k..]
      ensures forall w :: w in nodes && w != v ==> Mem()[w] == old(Mem()[w])
    {
      hide *;
      ghost var m := Mem();
      ValidIs();
      ghost var x := m[v];
      ValueOf(v, m);
      OneSidedTrim(x, start, end);
      var unStart, unEnd := v.start, v.end;
      if v.start < start {
        unStart := start;
        PutBack(v, v.start, unStart, k);
      } else if end < unEnd {
        unEnd := end;
        PutBack(v, unEnd, v.end, k);
      } else {
        assert old(Areas())[..k] + [] + old(Areas())[k..] == old(Areas());
      }
      ghost var m1 := Mem();
      ValidIs();
      UnmapRange(unStart, unEnd);
      assert Mem() == m1;
      ValidIs();
    }

    /** The first pass: every area that meets the range comes out of the list, the last one first. */
    method Detach(vma: VmaStruct, start: nat, end: nat, ghost k: nat) returns (free: seq<VmaStruct>, ghost j: nat)
      requires Valid() && k == First(Areas(), start) < |list| && vma == list[k] && vma.start < end
      modifies this`list, this`tree, this`cache, this`count
      ensures Valid() && Meets(old(Areas()), start, end, k, j) && j <= |old(list)|
      ensures list == old(list)[..k] + old(list)[j..] && Reversed(free, old(list), k, j)
    {
      hide *;
      ghost var l, m := list, Mem();
      ValidIs();
      OkParts(l, tree, cache, count, m);
      ghost var a := Values(l, m);
      var v := vma;
      free := [];
      j := k;
      ReversedNone(l, k);
      HoledIs(l, k, k);
      while v.start < end
        invariant Valid() && Mem() == m && Current(m)
        invariant k <= j < |l| && v == l[j] && list == Holed(l, k, j)
        invariant Reversed(free, l, k, j)
        invariant forall i :: k <= i < j ==> a[i].start < end
        invariant j == k ==> v.start < end
        decreases |l| - j
      {
        ValidIs();
        OkParts(list, tree, cache, count, m);
        DetachStep(l, k, j);
        KnownAt(l, m, j);
        ValueOf(v, m);
        var next := Next(list, v);
        RemoveVmaStruct(v, k);
        ReversedMore(free, l, k, j);
        free := [v] + free;
        j := j + 1;
        assert Mem() == m;
        if next == null {
          break;
        }
        v := next;
      }
      if j < |l| {
        KnownAt(l, m, j);
        ValueOf(v, m);
      }
      HoledIs(l, k, j);
      MeetsIs(a, start, end, k, j);
    }

    /** The second pass over the freed descriptors. */
    method Reclaim(freed: seq<VmaStruct>, start: nat, end: nat,
        ghost l: seq<VmaStruct>, ghost a: seq<Area>, ghost k: nat, ghost j: nat)
      requires Valid() && Distinct(l) && Sorted(a) && |l| == |a| && Meets(a, start, end, k, j)
      requires Reversed(freed, l, k, j) && Loose(l, a, k, j, list, Mem())
      requires Areas() == a[..k] + a[j..] && Aligned(start) && Aligned(end) && start < end
      requires !(a[k].start < start && end < a[k].end)
      modifies this`list, this`tree, this`count, this`unmapped, nodes
      ensures Valid() && Areas() == Cut(a, start, end)
      ensures |old(unmapped)| <= |unmapped| && unmapped[..|old(unmapped)|] == old(unmapped)
      ensures Released(unmapped[|old(unmapped)|..], a, start, end)
    {
      hide *;
      var free := freed;
      ghost var n := j;
      ghost var log: seq<Range> := [];
      MeetsBounds(a, start, end, k, j);
      MeetsRest(a, start, end, k, j);
      PartialEnds(a, start, end, k, j);
      NoneReleased(a[j..j], start, end);
      assert unmapped == old(unmapped) + log;
      while free != []
        invariant Valid() && k <= n <= j && nodes == old(nodes)
        invariant Reversed(free, l, k, n) && Loose(l, a, k, n, list, Mem())
        invariant Areas() == Partial(a, start, end, k, n, j)
        invariant unmapped == old(unmapped) + log && Released(log, a[n..j], start, end)
        decreases |free|
      {
        ReversedLen(free, l, k, n);
        ReversedTail(free, l, k, n);
        var v := free[0];
        free := free[1..];
        ghost var list0, m0 := list, Mem();
        ValidIs();
        OkParts(list, tree, cache, count, m0);
        LooseAt(l, a, k, n, list, m0);
        ValueOf(v, m0);
        MeetsOneSided(a, start, end, k, j, n - 1);
        PartialRoom(a, start, end, k, n, j);
        Release(v, start, end, k);
        ValidIs();
        LooseStep(l, a, k, n, list0, m0, k, list, Mem());
        PartialStep(a, start, end, k, n, j);
        ReleasedStep(log, a, start, end, n, j);
        log := log + [Overlap(a[n - 1], start, end)];
        n := n - 1;
      }
      ReversedLen(free, l, k, n);
      ReleasedAll(log, a, start, end, k, j);
    }

    /** Unmapping is exact: the areas are cut, and exactly the mapped part of the range is released. */
    method MmUnmap(addr: nat, len: nat) returns (r: Status)
      requires Valid()
      modifies this, nodes
      ensures fresh(nodes - old(nodes))
      ensures Valid() && |old(unmapped)| <= |unmapped| && unmapped[..|old(unmapped)|] == old(unmapped)
      ensures var lo, hi := PageStart(addr), PageEnd(addr, len);
        && (r == Invalid <==> !UserAccess(lo, hi))
        && (r == NoMemory ==> Inside(old(Areas()), lo, hi))
        && (r != Done ==> Areas() == old(Areas()) && unmapped == old(unmapped))
        && (r == Done ==> Areas() == Cut(old(Areas()), lo, hi))
        && (r == Done ==> Released(unmapped[|old(unmapped)|..], old(Areas()), lo, hi))
    {
      hide *;
      var start, end := PageStart(addr), PageEnd(addr, len);
      if !UserAccess(start, end) {
        return Invalid;
      }
      RoundedOk(addr, len, {});
      r := UnmapPages(start, end);
    }

    method UnmapPages(start: nat, end: nat) returns (r: Status)
      requires Valid() && AreaOk(Area(start, end, {}))
      modifies this, nodes
      ensures fresh(nodes - old(nodes))
      ensures Valid() && |old(unmapped)| <= |unmapped| && unmapped[..|old(unmapped)|] == old(unmapped) && r != Invalid
      ensures r == NoMemory ==> Inside(old(Areas()), start, end) && Areas() == old(Areas()) && unmapped == old(unmapped)
      ensures r == Done ==> Areas() == Cut(old(Areas()), start, end)
      ensures r == Done ==> Released(unmapped[|old(unmapped)|..], old(Areas()), start, end)
    {
      hide *;
      AreaOkIs(start, end);
      ghost var l, m := list, Mem();
      ValidIs();
      OkParts(l, tree, cache, count, m);
      ghost var a := Values(l, m);
      ghost var k := First(a, start);
      var vma := FindVma(start);
      assert Mem() == m;
      LowestIs(l, m, start);
      ValidIs();
      if vma != null {
        ValueOf(vma, m);
      }
      if vma == null || end <= vma.start {
        ClearBelow(a, start, end);
        assert unmapped[|unmapped|..] == [];
        return Done;
      }
      if vma.start < start && end < vma.end {
        InsideIs(a, k, start, end);
        r := UnmapInside(vma, start, end, k);
        return;
      }
      var free; ghost var j;
      free, j := Detach(vma, start, end, k);
      assert Mem() == m;
      ValidIs();
      MeetsBounds(a, start, end, k, j);
      DetachedOk(l, m, k, j);
      Reclaim(free, start, end, l, a, k, j);
      r := Done;
    }

    /** The program break grows over whatever was there. */
    method MmBrk(addr: nat, len: nat) returns (r: Status)
      requires Valid()
      modifies this, nodes
      ensures Valid() && fresh(nodes - old(nodes))
      ensures |old(unmapped)| <= |unmapped| && unmapped[..|old(unmapped)|] == old(unmapped)
      ensures var lo, hi, freed := PageStart(addr), PageEnd(addr, len), unmapped[|old(unmapped)|..];
        && (r == Invalid <==> !UserAccess(lo, hi))
        && (r == Invalid ==> Areas() == old(Areas()) && freed == [])
        && (r == NoMemory ==>
              || (Areas() == old(Areas()) && freed == [])
              || (Areas() == Cut(old(Areas()), lo, hi) && Released(freed, old(Areas()), lo, hi)))
        && (r == Done ==> BrkView(old(Areas()), Areas(), lo, hi) && Released(freed, old(Areas()), lo, hi))
    {
      hide *;
      var start, end := PageStart(addr), PageEnd(addr, len);
      if !UserAccess(start, end) {
        return Invalid;
      }
      RoundedOk(addr, len, {});
      AreaOkIs(start, end);
      RoundTwice(start, end);
      UserAccessIs(start, end);
      ghost var a := Areas();
      assert Sorted(a) by {
        ValidIs();
        OkParts(list, tree, cache, count, Mem());
      }
      r := MmUnmap(start, end - start);
      if r != Done {
        return;
      }
      ghost var l, m := list, Mem();
      ValidIs();
      OkParts(l, tree, cache, count, m);
      var vma := FindVma(start - 1);
      assert Mem() == m;
      LowestIs(l, m, start - 1);
      ValidIs();
      if vma != null {
        ValueOf(vma, m);
      }
      if vma != null && vma.end == start && vma.flags == {Read, Write} {
        ghost var k := First(Values(l, m), start - 1);
        BrkGrown(a, start, end, k);
        OkResized(l, tree, cache, count, m, k, m[vma].(end := end));
        Grow(vma, end);
        ValidIs();
        return Done;
      }
      CutApart(a, start, end, {Read, Write});
      BrkInserted(a, start, end);
      r := Place(start, end, {Read, Write});
    }

    method Grow(v: VmaStruct, end: nat)
      requires v in nodes
      modifies v`end
      ensures Mem() == old(Mem())[v := old(Mem()[v]).(end := end)]
    {
      v.end := end;
    }

    // ---------- queries ----------

    /** The highest gap of the length, or 0 exactly when there is none. */
    method GetUnmappedArea(len: nat) returns (r: nat)
      requires Valid()
      ensures r == 0 <==> len == 0 || forall x: nat :: !Gap(Areas(), x, len)
      ensures r != 0 ==> Gap(Areas(), r, len) && forall x: nat :: Gap(Areas(), x, len) ==> x <= r
    {
      if len == 0 || len > USERTOP {
        return 0;
      }
      ghost var a, m := Areas(), Mem();
      ghost var l := list;
      hide Values, Distinct, InOrder;
      var start: nat := USERTOP - len;
      var i := |list|;
      while i > 0
        invariant 0 <= i <= |list| == |a| && a == Areas() && m == Mem() && Current(m) && Sorted(a)
        invariant start + len <= USERTOP && forall j :: i <= j < |a| ==> start + len <= a[j].start
        invariant forall x: nat :: Gap(a, x, len) ==> x <= start
        decreases i
      {
        i := i - 1;
        var vma := list[i];
        KnownAt(list, m, i);
        ValueOf(vma, m);
        SortedAt(a, i);
        if start >= vma.end {
          GapHere(a, i, start, len);
          return start;
        }
        if start + len > vma.start {
          GapBelow(a, i, start, len);
          if len >= vma.start {
            return 0;
          }
          start := vma.start - len;
        }
      }
      assert start >= USERBASE ==> Gap(a, start, len);
      r := if start >= USERBASE then start else 0;
    }

    /** A user range may be accessed exactly when every address of it may be. */
    method UserMemCheck(addr: nat, len: nat, write: bool) returns (r: bool)
      requires Valid()
      modifies this`cache
      ensures Valid()
      ensures r <==> var end := Wrap(addr + len);
        UserAccess(addr, end) && forall a :: addr <= a < end ==> Allowed(Areas(), a, write)
    {
      hide *;
      var end := Wrap(addr + len);
      if !UserAccess(addr, end) {
        return false;
      }
      ghost var l, m := list, Mem();
      ValidIs();
      OkParts(l, tree, cache, count, m);
      ghost var s := Values(l, m);
      var start := addr;
      while start < end
        invariant Valid() && list == l && Mem() == m && Current(m) && nodes == old(nodes)
        invariant addr <= start && forall a :: addr <= a < start && a < end ==> Allowed(s, a, write)
        decreases end - start
      {
        var vma := FindVma(start);
        assert Mem() == m;
        LowestIs(l, m, start);
        ValidIs();
        ghost var k := First(s, start);
        NotAllowed(s, start, write);
        if vma != null {
          ValueOf(vma, m);
        }
        if vma == null || start < vma.start {
          return false;
        }
        AllowedUpTo(s, k, start, write);
        if !((if write then Write else Read) in vma.flags) {
          return false;
        }
        if write && Stack in vma.flags {
          if start < vma.start + PGSIZE {
            return false;
          }
        }
        start := vma.end;
      }
      ValidIs();
      return true;
    }
  }
}
