/**
 The shapes behind a red-black tree with parent links: what a heap of nodes
 looks like as a tree (`Tree`), and what surrounds one subtree of it (`Ctx`, a
 path from the subtree up to the top). The predicates `Emb` and `EmbSeg` at the end
 tie shapes to the links of the nodes, taken as a map from nodes to link cells.
 */
module RbShape {

  datatype Dir = Left | Right {
    function Opp(): Dir { if this.Left? then Right else Left }
  }

  /** A node linked into a tree. `key` is the rank the tree's comparator gives the node. */
  class Node {
    const key: int
    var red: bool
    var parent: Node
    var left: Node
    var right: Node

    constructor (key: int)
      ensures this.key == key
    {
      this.key := key;
      red := false;
      parent, left, right := this, this, this;
    }

    function Kid(d: Dir): Node
      reads this
    {
      if d.Left? then left else right
    }
  }

  /** The links of one node, as a value. */
  datatype Cell = Cell(red: bool, parent: Node, left: Node, right: Node) {
    function Kid(d: Dir): Node { if d.Left? then left else right }
    function SetKid(d: Dir, v: Node): Cell { if d.Left? then this.(left := v) else this.(right := v) }
  }

  type Links = map<Node, Cell>

  datatype Tree = Leaf | Branch(node: Node, red: bool, left: Tree, right: Tree)

  /** The tree whose child on side `d` is `a` and whose other child is `b`. */
  function Mk(d: Dir, n: Node, red: bool, a: Tree, b: Tree): Tree
  {
    if d.Left? then Branch(n, red, a, b) else Branch(n, red, b, a)
  }

  function InOrder(t: Tree): seq<Node>
  {
    match t
    case Leaf => []
    case Branch(n, _, l, r) => InOrder(l) + [n] + InOrder(r)
  }

  function Nodes(t: Tree): set<Node>
  {
    match t
    case Leaf => {}
    case Branch(n, _, l, r) => {n} + Nodes(l) + Nodes(r)
  }

  /** No node occurs twice. */
  predicate Distinct(t: Tree)
  {
    match t
    case Leaf => true
    case Branch(n, _, l, r) =>
      n !in Nodes(l) && n !in Nodes(r) && Nodes(l) !! Nodes(r) && Distinct(l) && Distinct(r)
  }

  predicate IsRed(t: Tree) { t.Branch? && t.red }

  /** Black nodes on the leftmost path, counting the sentinel. */
  function BlackHeight(t: Tree): (h: nat)
    ensures h >= 1
  {
    match t
    case Leaf => 1
    case Branch(_, red, l, _) => BlackHeight(l) + (if red then 0 else 1)
  }

  /** Every path has the same number of black nodes and no red node has a red child. */
  predicate RedBlack(t: Tree)
  {
    match t
    case Leaf => true
    case Branch(_, red, l, r) =>
      RedBlack(l) && RedBlack(r) && BlackHeight(l) == BlackHeight(r) &&
      (red ==> !IsRed(l) && !IsRed(r))
  }

  predicate Sorted(s: seq<Node>)
  {
    forall i, j :: 0 <= i < j < |s| ==> s[i].key <= s[j].key
  }

  /** A search tree as the operations leave it. */
  predicate Good(t: Tree)
  {
    RedBlack(t) && !IsRed(t) && Sorted(InOrder(t))
  }

  /** What surrounds a subtree: the hole is the child on side `d` of `node`, `sib` the other child. */
  datatype Ctx = Top | Frame(d: Dir, node: Node, red: bool, sib: Tree, up: Ctx)

  function Plug(c: Ctx, t: Tree): Tree
    decreases c
  {
    match c
    case Top => t
    case Frame(d, n, red, sib, up) => Plug(up, Mk(d, n, red, t, sib))
  }

  function CtxNodes(c: Ctx): set<Node>
  {
    match c
    case Top => {}
    case Frame(_, n, _, sib, up) => {n} + Nodes(sib) + CtxNodes(up)
  }

  predicate CtxDistinct(c: Ctx)
  {
    match c
    case Top => true
    case Frame(_, n, _, sib, up) =>
      n !in Nodes(sib) && n !in CtxNodes(up) && Nodes(sib) !! CtxNodes(up) &&
      Distinct(sib) && CtxDistinct(up)
  }

  /** Nodes before and after the hole, in order. */
  function Before(c: Ctx): seq<Node>
  {
    match c
    case Top => []
    case Frame(d, n, _, sib, up) =>
      if d.Left? then Before(up) else Before(up) + InOrder(sib) + [n]
  }

  function After(c: Ctx): seq<Node>
  {
    match c
    case Top => []
    case Frame(d, n, _, sib, up) =>
      if d.Left? then [n] + InOrder(sib) + After(up) else After(up)
  }

  predicate IsRedCtx(c: Ctx) { c.Frame? && c.red }

  /** The context is red-black around a hole of black height `h`, and its top node is black. */
  predicate Fits(c: Ctx, h: nat)
    decreases c
  {
    match c
    case Top => true
    case Frame(_, _, red, sib, up) =>
      RedBlack(sib) && BlackHeight(sib) == h &&
      (red ==> !IsRed(sib) && !IsRedCtx(up) && up.Frame?) &&
      Fits(up, h + (if red then 0 else 1))
  }

  /** `inner` with `outer` put around it. */
  function Append(inner: Ctx, outer: Ctx): Ctx
  {
    match inner
    case Top => outer
    case Frame(d, n, red, sib, up) => Frame(d, n, red, sib, Append(up, outer))
  }

  // ---------- facts about shapes ----------

  lemma MkShape(d: Dir, n: Node, red: bool, a: Tree, b: Tree)
    ensures Nodes(Mk(d, n, red, a, b)) == {n} + Nodes(a) + Nodes(b)
    ensures Distinct(Mk(d, n, red, a, b)) <==>
            n !in Nodes(a) && n !in Nodes(b) && Nodes(a) !! Nodes(b) && Distinct(a) && Distinct(b)
    ensures InOrder(Mk(d, n, red, a, b)) ==
            if d.Left? then InOrder(a) + [n] + InOrder(b) else InOrder(b) + [n] + InOrder(a)
  {
  }

  lemma RotateDistinct(d: Dir, x: Node, rx: bool, a: Tree, y: Node, ry: bool, b: Tree, e: Tree)
    requires Distinct(Mk(d, x, rx, a, Mk(d, y, ry, b, e)))
    ensures Distinct(Mk(d, y, ry, Mk(d, x, rx, a, b), e))
    ensures x != y && x !in Nodes(a) + Nodes(b) + Nodes(e) && y !in Nodes(a) + Nodes(b) + Nodes(e)
    ensures Nodes(a) !! Nodes(b) && Nodes(a) !! Nodes(e) && Nodes(b) !! Nodes(e) && Distinct(b)
  {
    MkShape(d, y, ry, b, e);
    MkShape(d, x, rx, a, Mk(d, y, ry, b, e));
    MkShape(d, x, rx, a, b);
    MkShape(d, y, ry, Mk(d, x, rx, a, b), e);
  }

  lemma RotateNodes(d: Dir, x: Node, rx: bool, a: Tree, y: Node, ry: bool, b: Tree, e: Tree)
    ensures Nodes(Mk(d, x, rx, a, Mk(d, y, ry, b, e))) == {x, y} + Nodes(a) + Nodes(b) + Nodes(e)
    ensures Nodes(Mk(d, y, ry, Mk(d, x, rx, a, b), e)) == {x, y} + Nodes(a) + Nodes(b) + Nodes(e)
  {
  }

  function Blacken(t: Tree): Tree { if t.Leaf? then Leaf else t.(red := false) }

  lemma BlackenSame(t: Tree)
    ensures Nodes(Blacken(t)) == Nodes(t) && InOrder(Blacken(t)) == InOrder(t)
  {
  }

  lemma RootIn(t: Tree)
    requires t.Branch?
    ensures t.node in Nodes(t)
  {
  }

  lemma HolderIn(c: Ctx)
    requires c.Frame?
    ensures c.node in CtxNodes(c)
  {
  }

  lemma {:induction false} PlugNodes(c: Ctx, t: Tree)
    ensures Nodes(Plug(c, t)) == CtxNodes(c) + Nodes(t)
    decreases c
  {
    if c.Frame? {
      PlugNodes(c.up, Mk(c.d, c.node, c.red, t, c.sib));
    }
  }

  /** Plugging keeps order: what is in the hole stands between Before and After. */
  lemma {:induction false} PlugInOrder(c: Ctx, t: Tree)
    ensures InOrder(Plug(c, t)) == Before(c) + InOrder(t) + After(c)
    decreases c
  {
    hide InOrder, Mk;
    if c.Frame? {
      PlugInOrder(c.up, Mk(c.d, c.node, c.red, t, c.sib));
      AroundUp(c.d, c.node, c.red, c.sib, c.up, t);
    }
  }

  lemma PlugTop(t: Tree)
    ensures Plug(Top, t) == t
  {
  }

  lemma {:induction false} PlugDistinct(c: Ctx, t: Tree)
    ensures Distinct(Plug(c, t)) <==> Distinct(t) && CtxDistinct(c) && Nodes(t) !! CtxNodes(c)
    decreases c
  {
    if c.Frame? {
      PlugDistinct(c.up, Mk(c.d, c.node, c.red, t, c.sib));
    }
  }

  /** A context that fits, filled without a red-red clash, is a red-black tree with a black root. */
  lemma {:induction false} PlugRedBlack(c: Ctx, t: Tree)
    requires RedBlack(t) && Fits(c, BlackHeight(t))
    requires IsRed(t) ==> !IsRedCtx(c) && c.Frame?
    ensures RedBlack(Plug(c, t)) && !IsRed(Plug(c, t))
    decreases c
  {
    if c.Frame? {
      PlugRedBlack(c.up, Mk(c.d, c.node, c.red, t, c.sib));
    }
  }

  /** The converse: any part of a red-black tree with a black root fits its surroundings. */
  lemma {:induction false} UnplugRedBlack(c: Ctx, t: Tree)
    requires RedBlack(Plug(c, t)) && !IsRed(Plug(c, t))
    ensures RedBlack(t) && Fits(c, BlackHeight(t))
    ensures IsRed(t) ==> !IsRedCtx(c) && c.Frame?
    decreases c
  {
    if c.Frame? {
      UnplugRedBlack(c.up, Mk(c.d, c.node, c.red, t, c.sib));
    }
  }

  lemma {:induction false} AppendPlug(inner: Ctx, outer: Ctx, t: Tree)
    ensures Plug(Append(inner, outer), t) == Plug(outer, Plug(inner, t))
    decreases inner
  {
    if inner.Frame? {
      AppendPlug(inner.up, outer, Mk(inner.d, inner.node, inner.red, t, inner.sib));
    }
  }

  lemma {:induction false} AppendNodes(inner: Ctx, outer: Ctx)
    ensures CtxNodes(Append(inner, outer)) == CtxNodes(inner) + CtxNodes(outer)
    decreases inner
  {
    if inner.Frame? {
      AppendNodes(inner.up, outer);
    }
  }

  lemma {:induction false} AppendDistinct(inner: Ctx, outer: Ctx)
    ensures CtxDistinct(Append(inner, outer)) <==>
            CtxDistinct(inner) && CtxDistinct(outer) && CtxNodes(inner) !! CtxNodes(outer)
    decreases inner
  {
    if inner.Frame? {
      AppendNodes(inner.up, outer);
      AppendDistinct(inner.up, outer);
    }
  }

  lemma {:induction false} AppendBeforeAfter(inner: Ctx, outer: Ctx)
    ensures Before(Append(inner, outer)) == Before(outer) + Before(inner)
    ensures After(Append(inner, outer)) == After(inner) + After(outer)
    decreases inner
  {
    if inner.Frame? {
      AppendBeforeAfter(inner.up, outer);
    }
  }

  function Elems(s: seq<Node>): set<Node> { set n | n in s }

  lemma {:induction false} InOrderNodes(t: Tree)
    ensures Elems(InOrder(t)) == Nodes(t)
  {
    if t.Branch? {
      InOrderNodes(t.left);
      InOrderNodes(t.right);
      assert Elems(InOrder(t)) == Elems(InOrder(t.left)) + {t.node} + Elems(InOrder(t.right));
    }
  }

  /** Every node of a tree is the root of some subtree of it. */
  lemma {:induction false} Locate(t: Tree, n: Node) returns (c: Ctx, s: Tree)
    requires n in Nodes(t)
    ensures Plug(c, s) == t && s.Branch? && s.node == n
    decreases t
  {
    if t.node == n {
      c, s := Top, t;
    } else {
      var d := if n in Nodes(t.left) then Left else Right;
      c, s := Locate(if d.Left? then t.left else t.right, n);
      var outer := Frame(d, t.node, t.red, if d.Left? then t.right else t.left, Top);
      AppendPlug(c, outer, s);
      c := Append(c, outer);
    }
  }

  function Depth(c: Ctx): nat { if c.Top? then 0 else 1 + Depth(c.up) }

  /** The nodes of the whole tree in order, seen from a focus. */
  function Around(c: Ctx, t: Tree): seq<Node> { Before(c) + InOrder(t) + After(c) }

  lemma AroundUp(d: Dir, n: Node, red: bool, sib: Tree, up: Ctx, t: Tree)
    ensures Around(Frame(d, n, red, sib, up), t) == Around(up, Mk(d, n, red, t, sib))
  {
    hide InOrder, Mk, Nodes, Distinct;
    MkShape(d, n, red, t, sib);
  }

  /** Swapping what a context holds for something with the same nodes in order keeps the whole. */
  lemma AroundSame(up: Ctx, t: Tree, t': Tree)
    requires InOrder(t) == InOrder(t')
    ensures Around(up, t) == Around(up, t')
  {
  }

  /** Neither colours nor the inner arrangement of a child matter to the order. */
  lemma InOrderMk(d: Dir, n: Node, red: bool, a: Tree, b: Tree, red': bool, a': Tree, b': Tree)
    requires InOrder(a) == InOrder(a') && InOrder(b) == InOrder(b')
    ensures InOrder(Mk(d, n, red, a, b)) == InOrder(Mk(d, n, red', a', b'))
  {
    MkShape(d, n, red, a, b);
    MkShape(d, n, red', a', b');
  }

  lemma Regroup(a: seq<Node>, x: Node, b: seq<Node>, y: Node, c: seq<Node>)
    ensures a + [x] + (b + [y] + c) == (a + [x] + b) + [y] + c
  {
  }

  lemma RotateInOrder(d: Dir, x: Node, rx: bool, a: Tree, y: Node, ry: bool, b: Tree, e: Tree)
    ensures InOrder(Mk(d, x, rx, a, Mk(d, y, ry, b, e))) == InOrder(Mk(d, y, ry, Mk(d, x, rx, a, b), e))
  {
    MkShape(d, y, ry, b, e);
    MkShape(d, x, rx, a, Mk(d, y, ry, b, e));
    MkShape(d, x, rx, a, b);
    MkShape(d, y, ry, Mk(d, x, rx, a, b), e);
    if d.Left? {
      Regroup(InOrder(a), x, InOrder(b), y, InOrder(e));
    } else {
      Regroup(InOrder(e), y, InOrder(b), x, InOrder(a));
    }
  }

  /** In a sorted tree a subtree's left part is below its root and its right part above. */
  lemma SortedSides(c: Ctx, t: Tree)
    requires Sorted(Around(c, t)) && t.Branch?
    ensures forall n :: n in InOrder(t.left) ==> n.key <= t.node.key
    ensures forall n :: n in InOrder(t.right) ==> t.node.key <= n.key
  {
    var s, i := Around(c, t), |Before(c)| + |InOrder(t.left)|;
    assert s[i] == t.node;
    forall n | n in InOrder(t.left)
      ensures n.key <= t.node.key
    {
      var j :| 0 <= j < |InOrder(t.left)| && InOrder(t.left)[j] == n;
      assert s[|Before(c)| + j] == n;
    }
    forall n | n in InOrder(t.right)
      ensures t.node.key <= n.key
    {
      var j :| 0 <= j < |InOrder(t.right)| && InOrder(t.right)[j] == n;
      assert s[i + 1 + j] == n;
    }
  }

  lemma NodesInserted(s: Tree, s': Tree, a: seq<Node>, z: Node, b: seq<Node>)
    requires InOrder(s) == a + b && InOrder(s') == a + [z] + b
    ensures Nodes(s') == Nodes(s) + {z}
  {
    InOrderNodes(s);
    InOrderNodes(s');
    assert Elems(a + b) == Elems(a) + Elems(b);
    assert Elems(a + [z] + b) == Elems(a) + {z} + Elems(b);
  }

  /** All keys before the hole are at most `key`, all keys after it are greater. */
  predicate Straddles(c: Ctx, key: int)
  {
    (forall n :: n in Before(c) ==> n.key <= key) && (forall n :: n in After(c) ==> key < n.key)
  }

  /** One step of the search for a place: smaller or equal keys stay before it. */
  lemma StraddlesDown(c: Ctx, t: Tree, key: int)
    requires Sorted(Around(c, t)) && t.Branch? && Straddles(c, key)
    ensures t.node.key > key ==> Straddles(Frame(Left, t.node, t.red, t.right, c), key)
    ensures t.node.key <= key ==> Straddles(Frame(Right, t.node, t.red, t.left, c), key)
  {
    hide InOrder, Around;
    SortedSides(c, t);
  }

  /** Nothing outside the subtree has the key. */
  predicate Encloses(c: Ctx, key: int)
  {
    (forall n :: n in Before(c) ==> n.key < key) && (forall n :: n in After(c) ==> key < n.key)
  }

  lemma StraddlesTop(key: int)
    ensures Straddles(Top, key)
  {
  }

  lemma EnclosesTop(key: int)
    ensures Encloses(Top, key)
  {
  }

  lemma EnclosesIs(c: Ctx, key: int)
    requires Encloses(c, key)
    ensures (forall n :: n in Before(c) ==> n.key < key) && (forall n :: n in After(c) ==> key < n.key)
  {
  }

  /** One step of the search for a key. */
  lemma EnclosesDown(c: Ctx, t: Tree, key: int)
    requires Sorted(Around(c, t)) && t.Branch? && Encloses(c, key)
    ensures t.node.key > key ==> Encloses(Frame(Left, t.node, t.red, t.right, c), key)
    ensures t.node.key < key ==> Encloses(Frame(Right, t.node, t.red, t.left, c), key)
  {
    hide InOrder, Around;
    SortedSides(c, t);
  }

  /** A key is in the tree when the search ends at it, and is not when the search ends at an empty place. */
  lemma EnclosesEnd(c: Ctx, t: Tree, key: int)
    requires Encloses(c, key) && (t.Branch? ==> t.node.key == key)
    ensures t.Leaf? <==> forall i :: 0 <= i < |Around(c, t)| ==> Around(c, t)[i].key != key
  {
    var s := Around(c, t);
    if t.Branch? {
      assert s[|Before(c)| + |InOrder(t.left)|] == t.node;
    } else {
      forall i | 0 <= i < |s|
        ensures s[i].key != key
      {
        assert s[i] in Before(c) || s[i] in After(c);
      }
    }
  }

  /** `s'` is `s` with `n` put in at `k`, after every node with an equal or smaller key. */
  predicate InsertedAt(s: seq<Node>, s': seq<Node>, n: Node, k: nat)
  {
    k <= |s| && s' == s[..k] + [n] + s[k..] &&
    (forall i :: 0 <= i < k ==> s[i].key <= n.key) && (forall i :: k <= i < |s| ==> n.key < s[i].key)
  }

  lemma InsertedSorted(s: seq<Node>, s': seq<Node>, n: Node, k: nat)
    requires Sorted(s) && InsertedAt(s, s', n, k)
    ensures Sorted(s')
  {
    assert forall i :: 0 <= i < |s'| ==> s'[i] == if i < k then s[i] else if i == k then n else s[i - 1];
  }

  predicate NoDup(s: seq<Node>)
  {
    forall i, j :: 0 <= i < j < |s| ==> s[i] != s[j]
  }

  lemma {:induction false} DistinctNoDup(t: Tree)
    requires Distinct(t)
    ensures NoDup(InOrder(t))
  {
    if t.Branch? {
      DistinctNoDup(t.left);
      DistinctNoDup(t.right);
      InOrderNodes(t.left);
      InOrderNodes(t.right);
      var a, b := InOrder(t.left), InOrder(t.right);
      assert forall i :: 0 <= i < |a| ==> a[i] in Elems(a);
      assert forall i :: 0 <= i < |b| ==> b[i] in Elems(b);
    }
  }

  /** `s'` is `s` without the node at `i`, which is `n`. */
  predicate RemovedAt(s: seq<Node>, s': seq<Node>, n: Node, i: nat)
  {
    i < |s| && s[i] == n && s' == s[..i] + s[i + 1..]
  }

  lemma RemovedGood(s: seq<Node>, s': seq<Node>, n: Node, i: nat)
    requires Sorted(s) && NoDup(s) && RemovedAt(s, s', n, i)
    ensures Sorted(s') && Elems(s') == Elems(s) - {n}
  {
    assert forall k :: 0 <= k < |s'| ==> s'[k] == if k < i then s[k] else s[k + 1];
    assert forall k :: 0 <= k < |s| && k != i ==> s[k] == s'[if k < i then k else k - 1];
  }

  /** A context with the holder of its outermost part renamed fits as before. */
  lemma {:induction false} FitsRename(inner: Ctx, d: Dir, n: Node, n': Node, red: bool, sib: Tree, up: Ctx, h: nat)
    requires Fits(Append(inner, Frame(d, n, red, sib, up)), h)
    ensures Fits(Append(inner, Frame(d, n', red, sib, up)), h)
    ensures IsRedCtx(Append(inner, Frame(d, n, red, sib, up))) == IsRedCtx(Append(inner, Frame(d, n', red, sib, up)))
    decreases inner
  {
    if inner.Frame? {
      FitsRename(inner.up, d, n, n', red, sib, up, h + (if inner.red then 0 else 1));
    }
  }

  /** Splicing out a node with at most one child: black nodes go missing exactly when it was black. */
  lemma SpliceFits(c: Ctx, t: Tree)
    requires RedBlack(t) && Fits(c, BlackHeight(t)) && t.Branch? && (t.left.Leaf? || t.right.Leaf?)
    ensures var x := if t.left.Branch? then t.left else t.right;
            if t.red then RedBlack(x) && !IsRed(x) && Fits(c, BlackHeight(x))
            else RedBlack(Blacken(x)) && Fits(c, BlackHeight(x) + 1)
  {
  }

  lemma SpliceOrder(c: Ctx, t: Tree)
    requires t.Branch? && (t.left.Leaf? || t.right.Leaf?)
    ensures var x := if t.left.Branch? then t.left else t.right;
            RemovedAt(Around(c, t), Around(c, x), t.node, |Before(c) + InOrder(t.left)|)
  {
    hide Before, After, RemovedAt;
    var a, b := Before(c) + InOrder(t.left), InOrder(t.right) + After(c);
    assert Around(c, t) == a + [t.node] + b;
    assert Around(c, if t.left.Branch? then t.left else t.right) == a + b;
    RemovedMiddle(a, t.node, b);
  }

  lemma RemovedMiddle(a: seq<Node>, n: Node, b: seq<Node>)
    ensures RemovedAt(a + [n] + b, a + b, n, |a|)
  {
  }

  /** When the successor takes the node's place, exactly the node leaves the order. */
  lemma TransplantOrder(inner: Ctx, y: Node, z: Node, zr: bool, l: Tree, c: Ctx, u: Tree, xt: Tree)
    requires u.Branch? && u.node == y && u.left == Leaf && xt == u.right && Before(inner) == []
    ensures RemovedAt(Around(Append(inner, Frame(Right, z, zr, l, c)), u), Around(Append(inner, Frame(Right, y, zr, l, c)), xt),
                      z, |Before(c) + InOrder(l)|)
  {
    hide Append, RemovedAt;
    var fz, fy := Frame(Right, z, zr, l, c), Frame(Right, y, zr, l, c);
    var p, r := InOrder(l), InOrder(xt);
    AppendBeforeAfter(inner, fz);
    AppendBeforeAfter(inner, fy);
    assert Before(fz) == Before(c) + p + [z] && Before(fy) == Before(c) + p + [y];
    assert After(fz) == After(c) && After(fy) == After(c);
    assert InOrder(u) == [] + [y] + r;
    var t := After(inner) + After(c);
    assert Around(Append(inner, fz), u) == ((Before(c) + p + [z]) + []) + ([] + [y] + r) + t;
    assert Around(Append(inner, fy), xt) == ((Before(c) + p + [y]) + []) + r + t;
    RegroupSplice(Before(c) + p, z, y, r, t);
    RemovedMiddle(Before(c) + p, z, [y] + r + t);
  }

  lemma RegroupSplice(a: seq<Node>, z: Node, y: Node, r: seq<Node>, t: seq<Node>)
    ensures ((a + [z]) + []) + ([] + [y] + r) + t == a + [z] + ([y] + r + t)
    ensures ((a + [y]) + []) + r + t == a + ([y] + r + t)
  {
  }

  // ---------- the four cases of deletion ----------

  lemma RedSiblingFits(d: Dir, p: Node, pr: bool, w: Node, b: Tree, e: Tree, up: Ctx, h: nat)
    requires Fits(Frame(d, p, pr, Mk(d, w, true, b, e), up), h)
    ensures Fits(Frame(d, p, true, b, Frame(d, w, false, e, up)), h) && !IsRed(b)
  {
  }

  lemma RedSiblingAround(d: Dir, p: Node, pr: bool, w: Node, b: Tree, e: Tree, up: Ctx, t: Tree)
    ensures Around(Frame(d, p, pr, Mk(d, w, true, b, e), up), t) ==
            Around(Frame(d, p, true, b, Frame(d, w, false, e, up)), t)
  {
    hide Around, InOrder;
    AroundUp(d, p, pr, Mk(d, w, true, b, e), up, t);
    AroundUp(d, p, true, b, Frame(d, w, false, e, up), t);
    AroundUp(d, w, false, e, up, Mk(d, p, true, t, b));
    InOrderMk(d, w, true, b, e, false, b, e);
    InOrderMk(d, p, pr, t, Mk(d, w, true, b, e), true, t, Mk(d, w, false, b, e));
    RotateInOrder(d, p, true, t, w, false, b, e);
    AroundSame(up, Mk(d, p, pr, t, Mk(d, w, true, b, e)), Mk(d, w, false, Mk(d, p, true, t, b), e));
  }

  lemma BlackNephewsFits(d: Dir, p: Node, pr: bool, w: Tree, up: Ctx, t: Tree)
    requires Fits(Frame(d, p, pr, w, up), BlackHeight(t) + 1) && RedBlack(t) && !IsRed(t)
    requires w.Branch? && !w.red && !IsRed(w.left) && !IsRed(w.right)
    ensures var t' := Mk(d, p, pr, t, w.(red := true));
            RedBlack(Blacken(t')) && Fits(up, BlackHeight(t') + 1) && Around(up, t') == Around(Frame(d, p, pr, w, up), t)
  {
    hide Around;
    AroundUp(d, p, pr, w, up, t);
    InOrderMk(d, p, pr, t, w, pr, t, w.(red := true));
    AroundSame(up, Mk(d, p, pr, t, w), Mk(d, p, pr, t, w.(red := true)));
  }

  lemma NearRedFits(d: Dir, w: Node, n: Node, na: Tree, nb: Tree, f: Tree)
    requires RedBlack(Mk(d, w, false, Mk(d, n, true, na, nb), f)) && !IsRed(f)
    ensures var w0, w1 := Mk(d, w, false, Mk(d, n, true, na, nb), f), Mk(d, n, false, na, Mk(d, w, true, nb, f));
            RedBlack(w1) && BlackHeight(w1) == BlackHeight(w0) && InOrder(w1) == InOrder(w0)
  {
    InOrderMk(d, n, true, na, nb, false, na, nb);
    InOrderMk(d, w, false, Mk(d, n, true, na, nb), f, true, Mk(d, n, false, na, nb), f);
    RotateInOrder(d.Opp(), w, true, f, n, false, nb, na);
  }

  lemma FarRedFits(d: Dir, p: Node, pr: bool, up: Ctx, t: Tree, w: Node, n: Tree, f: Tree)
    requires Fits(Frame(d, p, pr, Mk(d, w, false, n, f), up), BlackHeight(t) + 1) && RedBlack(t) && !IsRed(t) && IsRed(f)
    ensures var t' := Mk(d, w, pr, Mk(d, p, false, t, n), f.(red := false));
            RedBlack(t') && Fits(up, BlackHeight(t')) && (IsRed(t') ==> !IsRedCtx(up) && up.Frame?)
  {
    var f', pt := f.(red := false), Mk(d, p, false, t, n);
    assert RedBlack(Mk(d, w, false, n, f));
    assert RedBlack(n) && RedBlack(f) && BlackHeight(n) == BlackHeight(f) == BlackHeight(t);
    assert RedBlack(f') && BlackHeight(f') == BlackHeight(f) + 1;
    assert RedBlack(pt) && BlackHeight(pt) == BlackHeight(t) + 1;
  }

  lemma FarRedAround(d: Dir, p: Node, pr: bool, up: Ctx, t: Tree, w: Node, n: Tree, f: Tree)
    requires f.Branch?
    ensures Around(up, Mk(d, w, pr, Mk(d, p, false, t, n), f.(red := false))) ==
            Around(Frame(d, p, pr, Mk(d, w, false, n, f), up), t)
  {
    hide Around, InOrder;
    var f' := f.(red := false);
    BlackenSame(f);
    AroundUp(d, p, pr, Mk(d, w, false, n, f), up, t);
    InOrderMk(d, w, false, n, f, pr, n, f');
    InOrderMk(d, p, pr, t, Mk(d, w, false, n, f), false, t, Mk(d, w, pr, n, f'));
    RotateInOrder(d, p, false, t, w, pr, n, f');
    AroundSame(up, Mk(d, p, pr, t, Mk(d, w, false, n, f)), Mk(d, w, pr, Mk(d, p, false, t, n), f'));
  }

  /** Around depends on a sibling only through its nodes in order. */
  lemma AroundSibling(d: Dir, p: Node, pr: bool, w: Tree, w': Tree, up: Ctx, t: Tree)
    requires InOrder(w) == InOrder(w')
    ensures Around(Frame(d, p, pr, w, up), t) == Around(Frame(d, p, pr, w', up), t)
  {
  }

  // ---------- shapes and links ----------

  /** The nodes reached from `p`, whose parent link is `par`, have shape `t`; `nil` ends every path. */
  predicate Emb(m: Links, t: Tree, p: Node, par: Node, nil: Node)
  {
    match t
    case Leaf => p == nil
    case Branch(n, red, l, r) =>
      p == n && n in m && m[n].parent == par && m[n].red == red &&
      Emb(m, l, m[n].left, n, nil) && Emb(m, r, m[n].right, n, nil)
  }

  function ParentOf(c: Ctx, par: Node): Node
  {
    match c
    case Top => par
    case Frame(_, n, _, _, _) => n
  }

  /** From the hole `p` up to `top`, whose parent link is `par`, the nodes have the shape of context `c`. */
  predicate EmbSeg(m: Links, c: Ctx, p: Node, top: Node, par: Node, nil: Node)
  {
    match c
    case Top => p == top
    case Frame(d, n, red, sib, up) =>
      n in m && m[n].Kid(d) == p && m[n].red == red && m[n].parent == ParentOf(up, par) &&
      Emb(m, sib, m[n].Kid(d.Opp()), n, nil) && EmbSeg(m, up, n, top, par, nil)
  }

  lemma SegFrame(m: Links, d: Dir, n: Node, red: bool, sib: Tree, up: Ctx, p: Node, top: Node, par: Node, nil: Node)
    requires n in m && m[n].Kid(d) == p && m[n].red == red && m[n].parent == ParentOf(up, par)
    requires Emb(m, sib, m[n].Kid(d.Opp()), n, nil) && EmbSeg(m, up, n, top, par, nil)
    ensures EmbSeg(m, Frame(d, n, red, sib, up), p, top, par, nil)
  {
  }

  /** Two states of the links agree on a set of nodes. */
  predicate Agree(m: Links, m': Links, s: set<Node>)
  {
    forall n :: n in s ==> n in m && n in m' && m[n] == m'[n]
  }

  lemma {:induction false} EmbNodes(m: Links, t: Tree, p: Node, par: Node, nil: Node)
    requires Emb(m, t, p, par, nil)
    ensures Nodes(t) <= m.Keys
  {
    if t.Branch? {
      EmbNodes(m, t.left, m[p].left, p, nil);
      EmbNodes(m, t.right, m[p].right, p, nil);
    }
  }

  lemma {:induction false} KeepEmb(m: Links, m': Links, t: Tree, p: Node, par: Node, nil: Node)
    requires Emb(m, t, p, par, nil) && Agree(m, m', Nodes(t))
    ensures Emb(m', t, p, par, nil)
  {
    if t.Branch? {
      KeepEmb(m, m', t.left, m[p].left, p, nil);
      KeepEmb(m, m', t.right, m[p].right, p, nil);
    }
  }

  lemma {:induction false} KeepSeg(m: Links, m': Links, c: Ctx, p: Node, top: Node, par: Node, nil: Node)
    requires EmbSeg(m, c, p, top, par, nil) && Agree(m, m', CtxNodes(c))
    ensures EmbSeg(m', c, p, top, par, nil)
  {
    if c.Frame? {
      KeepEmb(m, m', c.sib, m[c.node].Kid(c.d.Opp()), c.node, nil);
      KeepSeg(m, m', c.up, c.node, top, par, nil);
    }
  }

  /** Only the parent link of the top node changed. */
  lemma Reparent(m: Links, m': Links, t: Tree, p: Node, par: Node, par': Node, nil: Node)
    requires Emb(m, t, p, par, nil) && Distinct(t) && Agree(m, m', Nodes(t) - {p})
    requires t.Branch? ==> p in m' && m'[p] == m[p].(parent := par')
    ensures Emb(m', t, p, par', nil)
  {
    if t.Branch? {
      KeepEmb(m, m', t.left, m[p].left, p, nil);
      KeepEmb(m, m', t.right, m[p].right, p, nil);
    }
  }

  /** Only the link to the hole changed: `q` now hangs where `p` did. */
  lemma SwapHole(m: Links, m': Links, c: Ctx, p: Node, top: Node, q: Node, top': Node, par: Node, nil: Node)
    requires EmbSeg(m, c, p, top, par, nil) && CtxDistinct(c)
    requires if c.Top? then top' == q
             else top' == top && Agree(m, m', CtxNodes(c) - {c.node}) &&
                  c.node in m' && m'[c.node] == m[c.node].SetKid(c.d, q)
    ensures EmbSeg(m', c, q, top', par, nil)
  {
    if c.Frame? {
      KeepEmb(m, m', c.sib, m[c.node].Kid(c.d.Opp()), c.node, nil);
      KeepSeg(m, m', c.up, c.node, top, par, nil);
    }
  }

  lemma {:induction false} EmbUnplug(m: Links, c: Ctx, t: Tree, top: Node, par: Node, nil: Node) returns (p: Node)
    requires Emb(m, Plug(c, t), top, par, nil)
    ensures EmbSeg(m, c, p, top, par, nil) && Emb(m, t, p, ParentOf(c, par), nil)
    decreases c
  {
    if c.Top? {
      p := top;
    } else {
      var q := EmbUnplug(m, c.up, Mk(c.d, c.node, c.red, t, c.sib), top, par, nil);
      p := m[c.node].Kid(c.d);
    }
  }

  lemma {:induction false} EmbAppend(m: Links, inner: Ctx, outer: Ctx, p: Node, mid: Node, top: Node, par: Node, nil: Node)
    requires EmbSeg(m, inner, p, mid, ParentOf(outer, par), nil) && EmbSeg(m, outer, mid, top, par, nil)
    ensures EmbSeg(m, Append(inner, outer), p, top, par, nil)
    decreases inner
  {
    if inner.Frame? {
      EmbAppend(m, inner.up, outer, inner.node, mid, top, par, nil);
    }
  }

  /** The node next to the top of a context. */
  function TopNode(c: Ctx): Node
    requires c.Frame?
  {
    if c.up.Top? then c.node else TopNode(c.up)
  }

  lemma {:induction false} SegTop(m: Links, c: Ctx, p: Node, top: Node, par: Node, nil: Node)
    requires EmbSeg(m, c, p, top, par, nil)
    ensures top == if c.Top? then p else TopNode(c)
  {
    if c.Frame? {
      SegTop(m, c.up, c.node, top, par, nil);
    }
  }

  lemma BlackenRedBlack(t: Tree)
    requires RedBlack(t) && t.Branch?
    ensures RedBlack(t.(red := false)) && !IsRed(t.(red := false))
  {
  }

  /** The top node of a context that fits is black. */
  lemma {:induction false} SegTopBlack(m: Links, c: Ctx, p: Node, top: Node, par: Node, nil: Node, h: nat)
    requires EmbSeg(m, c, p, top, par, nil) && c.Frame? && Fits(c, h)
    ensures TopNode(c) in m && !m[TopNode(c)].red
  {
    if c.up.Frame? {
      SegTopBlack(m, c.up, c.node, top, par, nil, h + (if c.red then 0 else 1));
    }
  }

  lemma {:induction false} EmbSplit(m: Links, inner: Ctx, outer: Ctx, p: Node, top: Node, par: Node, nil: Node)
    requires EmbSeg(m, Append(inner, outer), p, top, par, nil)
    ensures var mid := if inner.Top? then p else TopNode(inner);
            EmbSeg(m, inner, p, mid, ParentOf(outer, par), nil) && EmbSeg(m, outer, mid, top, par, nil)
    decreases inner
  {
    if inner.Frame? {
      EmbSplit(m, inner.up, outer, inner.node, top, par, nil);
    }
  }

  lemma {:induction false} TopNodeIn(c: Ctx)
    requires c.Frame?
    ensures TopNode(c) in CtxNodes(c)
  {
    if c.up.Frame? {
      TopNodeIn(c.up);
    }
  }

  /** Only the parent link of the top node of the segment changed. */
  lemma {:induction false} SegReparent(m: Links, m': Links, c: Ctx, p: Node, top: Node, par: Node, par': Node, nil: Node)
    requires EmbSeg(m, c, p, top, par, nil) && CtxDistinct(c)
    requires c.Frame? ==> Agree(m, m', CtxNodes(c) - {TopNode(c)})
    requires c.Frame? ==> TopNode(c) in m && TopNode(c) in m' && m'[TopNode(c)] == m[TopNode(c)].(parent := par')
    ensures EmbSeg(m', c, p, top, par', nil)
  {
    if c.Frame? {
      TopNodeIn(c);
      if c.up.Frame? {
        TopNodeIn(c.up);
      }
      KeepEmb(m, m', c.sib, m[c.node].Kid(c.d.Opp()), c.node, nil);
      SegReparent(m, m', c.up, c.node, top, par, par', nil);
    }
  }
}
