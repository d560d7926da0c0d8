/**
 The red-black tree of libs/rb_tree.c, on the heap: nodes with left, right and
 parent links, a shared black sentinel `nil`, and a dummy `root` whose left child
 is the top of the tree. The ghost field `shape` is the tree the links form.

 A direction parameter stands for the pair of macro arguments (_left, _right) that
 generates the two mirror images of each piece of code.
 */
module RbTree {
  import opened RbShape

  /** The shape RB_INSERT_SUB leaves when the uncle is black. */
  function InsertRotated(d: Dir, c: Ctx, t: Tree): (Ctx, Tree)
    requires t.Branch? && c.Frame? && c.up.Frame?
  {
    var b, e := if d.Left? then t.left else t.right, if d.Left? then t.right else t.left;
    var g, u, up := c.up.node, c.up.sib, c.up.up;
    if c.d == d then
      (Frame(d, c.node, false, Mk(d.Opp(), g, true, u, c.sib), up), t)
    else
      (Frame(d, t.node, false, Mk(d.Opp(), g, true, u, e), up), Mk(d, c.node, true, c.sib, b))
  }

  lemma RecolorFits(d: Dir, c: Ctx, t: Tree)
    requires RedBlack(t) && IsRed(t) && IsRedCtx(c) && Fits(c, BlackHeight(t)) && c.up.d == d && IsRed(c.up.sib)
    ensures var t' := Mk(d, c.up.node, true, Mk(c.d, c.node, false, t, c.sib), c.up.sib.(red := false));
            RedBlack(t') && IsRed(t') && Fits(c.up.up, BlackHeight(t')) && Around(c.up.up, t') == Around(c, t) &&
            Depth(c.up.up) < Depth(c)
  {
    AroundUp(c.d, c.node, c.red, c.sib, c.up, t);
    AroundUp(d, c.up.node, c.up.red, c.up.sib, c.up.up, Mk(c.d, c.node, c.red, t, c.sib));
    MkShape(c.d, c.node, c.red, t, c.sib);
    MkShape(c.d, c.node, false, t, c.sib);
    MkShape(d, c.up.node, true, Mk(c.d, c.node, false, t, c.sib), c.up.sib.(red := false));
    MkShape(d, c.up.node, c.up.red, Mk(c.d, c.node, c.red, t, c.sib), c.up.sib);
  }

  lemma RotateFits(d: Dir, c: Ctx, t: Tree)
    requires RedBlack(t) && IsRed(t) && IsRedCtx(c) && Fits(c, BlackHeight(t)) && c.up.d == d && !IsRed(c.up.sib)
    ensures var (c', t') := InsertRotated(d, c, t);
            RedBlack(t') && IsRed(t') && Fits(c', BlackHeight(t')) && !IsRedCtx(c') && c'.Frame? &&
            Depth(c') < Depth(c)
  {
  }

  lemma RotateAround(d: Dir, c: Ctx, t: Tree)
    requires t.Branch? && c.Frame? && c.up.Frame? && c.up.d == d
    ensures var (c', t') := InsertRotated(d, c, t); Around(c', t') == Around(c, t)
  {
    var b, e := if d.Left? then t.left else t.right, if d.Left? then t.right else t.left;
    var g, u, up := c.up.node, c.up.sib, c.up.up;
    var (c', t') := InsertRotated(d, c, t);
    var q, low, far := c'.node, t', if c.d == d then c.sib else e;
    var pt := Mk(c.d, c.node, c.red, t, c.sib);
    assert InOrder(pt) == InOrder(Mk(d, q, false, low, far)) by {
      InOrderMk(c.d, c.node, c.red, t, c.sib, false, t, c.sib);
      if c.d != d {
        RotateInOrder(d, c.node, true, c.sib, t.node, t.red, b, e);
        assert t == Mk(d, t.node, t.red, b, e);
        InOrderMk(d, c.node, c.red, c.sib, t, true, c.sib, t);
        InOrderMk(d, t.node, t.red, low, e, false, low, e);
      }
    }
    AroundUp(c.d, c.node, c.red, c.sib, c.up, t);
    AroundUp(d, g, c.up.red, u, up, pt);
    AroundUp(d, q, false, c'.sib, up, low);
    InOrderMk(d, g, c.up.red, pt, u, true, Mk(d, q, false, low, far), u);
    RotateInOrder(d.Opp(), g, true, u, q, false, far, low);
    AroundSame(up, Mk(d, g, c.up.red, pt, u), Mk(d, q, false, low, c'.sib));
  }

  class RedBlackTree {
    const nil: Node
    const root: Node
    ghost var shape: Tree
    /** The nodes of the tree with its two special nodes. */
    ghost var nodes: set<Node>

    ghost function Links(): (m: Links)
      reads this`nodes, nodes
      ensures m.Keys == nodes
    {
      map n | n in nodes :: Cell(n.red, n.parent, n.left, n.right)
    }

    /** Subtree `t` is at `p`, with context `c` around it. */
    ghost predicate Focus(m: Links, c: Ctx, t: Tree, p: Node)
    {
      Separate(c, t) && Nodes(t) + CtxNodes(c) + {nil, root} <= m.Keys &&
      m[root].right == nil && !m[root].red && !m[nil].red &&
      EmbSeg(m, c, p, m[root].left, root, nil) && Emb(m, t, p, ParentOf(c, root), nil)
    }

    /** Nodes are pairwise different, and neither the sentinel nor the dummy root. */
    ghost predicate Separate(c: Ctx, t: Tree)
    {
      Distinct(t) && CtxDistinct(c) && Nodes(t) !! CtxNodes(c) && nil != root &&
      nil !in Nodes(t) && nil !in CtxNodes(c) && root !in Nodes(t) && root !in CtxNodes(c)
    }

    ghost predicate Valid()
      reads this, nodes
    {
      root in nodes && Focus(Links(), Top, shape, root.left) && nodes == Nodes(shape) + {nil, root} &&
      Good(shape)
    }

    /** rb_tree_create. */
    constructor ()
      ensures Valid() && shape == Leaf && fresh(nodes)
    {
      var n := new Node(0);
      n.parent, n.left, n.right, n.red := n, n, n, false;
      var r := new Node(0);
      r.parent, r.left, r.right, r.red := n, n, n, false;
      nil, root, shape, nodes := n, r, Leaf, {n, r};
    }

    // ---------- writing one field ----------

    method SetKid(x: Node, d: Dir, v: Node)
      requires x in nodes
      modifies x
      ensures Links() == old(Links())[x := old(Links())[x].SetKid(d, v)]
    {
      if d.Left? { x.left := v; } else { x.right := v; }
    }

    method SetParent(x: Node, v: Node)
      requires x in nodes
      modifies x
      ensures Links() == old(Links())[x := old(Links())[x].(parent := v)]
    {
      x.parent := v;
    }

    method SetRed(x: Node, v: bool)
      requires x in nodes
      modifies x
      ensures Links() == old(Links())[x := old(Links())[x].(red := v)]
    {
      x.red := v;
    }

    ghost method SetShape(t: Tree)
      modifies this`shape
      ensures shape == t && Links() == old(Links())
    {
      shape := t;
    }

    // ---------- moving the focus ----------

    /** Where a subtree hangs. */
    function At(t: Tree): Node { if t.Branch? then t.node else nil }

    lemma ZipUp(m: Links, c: Ctx, t: Tree, p: Node)
      requires c.Frame? && Focus(m, c, t, p)
      ensures Focus(m, c.up, Mk(c.d, c.node, c.red, t, c.sib), c.node)
    {
    }

    lemma ZipDown(m: Links, c: Ctx, d: Dir, n: Node, red: bool, t: Tree, sib: Tree)
      requires Focus(m, c, Mk(d, n, red, t, sib), n)
      ensures Focus(m, Frame(d, n, red, sib, c), t, m[n].Kid(d)) && m[n].Kid(d) == At(t)
    {
      assert Emb(m, t, m[n].Kid(d), n, nil);
    }

    // ---------- rotation ----------

    /** What the pieces of a tree that is about to be rotated tell about the links. */
    lemma Parts(m: Links, d: Dir, c: Ctx, x: Node, rx: bool, a: Tree, y: Node, ry: bool, b: Tree, e: Tree)
      requires Focus(m, c, Mk(d, x, rx, a, Mk(d, y, ry, b, e)), x)
      ensures x in m && y in m && ParentOf(c, root) in m
      ensures Emb(m, a, m[x].Kid(d), x, nil) && Emb(m, b, m[y].Kid(d), y, nil) && Emb(m, e, m[y].Kid(d.Opp()), y, nil)
      ensures m[x] == Cell(rx, ParentOf(c, root), m[x].left, m[x].right) && m[x].Kid(d.Opp()) == y
      ensures m[y] == Cell(ry, x, m[y].left, m[y].right)
      ensures m[y].Kid(d) == (if b.Branch? then b.node else nil) && m[y].Kid(d) in m
      ensures var p := m[ParentOf(c, root)]; var side := if c.Top? then Left else c.d;
              p.Kid(side) == x && p.Kid(side.Opp()) != x
    {
      var right := Mk(d, y, ry, b, e);
      MkShape(d, y, ry, b, e);
      MkShape(d, x, rx, a, right);
      assert Emb(m, right, m[x].Kid(d.Opp()), x, nil);
    }

    /** The nodes a rotation at `x` touches exist and are different. */
    predicate CanRotate(m: Links, d: Dir, x: Node)
    {
      x in m && m[x].parent in m && m[x].Kid(d.Opp()) in m && m[m[x].Kid(d.Opp())].Kid(d) in m &&
      var y, p := m[x].Kid(d.Opp()), m[x].parent;
      x != root && x != nil && y != nil && x != y && p != x && p != y && m[y].Kid(d) !in {x, y, p} &&
      (m[p].left == x) != (m[p].right == x)
    }

    /** The link updates of FUNC_ROTATE, in the order the code makes them. */
    function Rotated(m: Links, d: Dir, x: Node): (m': Links)
      requires CanRotate(m, d, x)
      ensures var y, p := m[x].Kid(d.Opp()), m[x].parent; var z := m[y].Kid(d);
              var side := if m[p].left == x then Left else Right;
              m'.Keys == m.Keys && Agree(m, m', m.Keys - {x, y, z, p}) &&
              m'[x] == m[x].SetKid(d.Opp(), z).(parent := y) && m'[y] == m[y].SetKid(d, x).(parent := p) &&
              m'[p] == m[p].SetKid(side, y) && m'[z] == if z == nil then m[z] else m[z].(parent := x)
    {
      var o := d.Opp();
      var y, p := m[x].Kid(o), m[x].parent;
      var z := m[y].Kid(d);
      var m1 := m[x := m[x].SetKid(o, z)];
      var m2 := if z != nil then m1[z := m1[z].(parent := x)] else m1;
      var m3 := m2[y := m2[y].(parent := p)];
      var m4 := if m3[p].Kid(d) == x then m3[p := m3[p].SetKid(d, y)] else m3[p := m3[p].SetKid(o, y)];
      var m5 := m4[y := m4[y].SetKid(d, x)];
      m5[x := m5[x].(parent := y)]
    }

    lemma RotatedBelow(m: Links, m': Links, d: Dir, x: Node, rx: bool, a: Tree, y: Node, ry: bool, b: Tree, e: Tree,
                       par: Node)
      requires x in m && y in m && x in m' && y in m' && x != y && Distinct(b)
      requires Emb(m, a, m[x].Kid(d), x, nil) && Agree(m, m', Nodes(a))
      requires Emb(m, b, m[y].Kid(d), y, nil) && Agree(m, m', Nodes(b) - {m[y].Kid(d)})
      requires Emb(m, e, m[y].Kid(d.Opp()), y, nil) && Agree(m, m', Nodes(e))
      requires m[x].red == rx && m'[x] == m[x].SetKid(d.Opp(), m[y].Kid(d)).(parent := y)
      requires m[y].red == ry && m'[y] == m[y].SetKid(d, x).(parent := par)
      requires b.Branch? ==> b.node in m' && m'[b.node] == m[b.node].(parent := x)
      ensures Emb(m', Mk(d, y, ry, Mk(d, x, rx, a, b), e), y, par, nil)
    {
      KeepEmb(m, m', a, m[x].Kid(d), x, nil);
      KeepEmb(m, m', e, m[y].Kid(d.Opp()), y, nil);
      Reparent(m, m', b, m[y].Kid(d), y, x, nil);
      assert Emb(m', Mk(d, x, rx, a, b), x, y, nil);
    }

    /** Every assertion at the head of a rotation holds. */
    lemma RotateAllowed(m: Links, d: Dir, c: Ctx, x: Node, rx: bool, a: Tree, y: Node, ry: bool, b: Tree, e: Tree)
      requires Focus(m, c, Mk(d, x, rx, a, Mk(d, y, ry, b, e)), x)
      ensures CanRotate(m, d, x)
    {
      RotateDistinct(d, x, rx, a, y, ry, b, e);
      RotateNodes(d, x, rx, a, y, ry, b, e);
      Parts(m, d, c, x, rx, a, y, ry, b, e);
    }

    /** What a rotation touches lies outside the subtrees and the context that it keeps. */
    lemma RotateUntouched(d: Dir, c: Ctx, x: Node, rx: bool, a: Tree, y: Node, ry: bool, b: Tree, e: Tree, z: Node, p: Node)
      requires Separate(c, Mk(d, x, rx, a, Mk(d, y, ry, b, e)))
      requires z == (if b.Branch? then b.node else nil) && p == ParentOf(c, root)
      ensures z !in Nodes(a) && z !in Nodes(e) && z !in CtxNodes(c)
      ensures p !in Nodes(a) && p !in Nodes(b) && p !in Nodes(e)
      ensures x !in CtxNodes(c) && y !in CtxNodes(c)
      ensures root !in {x, y, z} && nil !in {x, y, p} && (z == nil <==> b.Leaf?)
    {
      hide Nodes, CtxNodes, Distinct, CtxDistinct;
      RotateDistinct(d, x, rx, a, y, ry, b, e);
      RotateNodes(d, x, rx, a, y, ry, b, e);
      if b.Branch? {
        RootIn(b);
      }
      if c.Frame? {
        HolderIn(c);
      }
    }

    lemma RotatedAbove(m: Links, d: Dir, c: Ctx, x: Node, rx: bool, a: Tree, y: Node, ry: bool, b: Tree, e: Tree)
      requires Focus(m, c, Mk(d, x, rx, a, Mk(d, y, ry, b, e)), x) && CanRotate(m, d, x)
      ensures var m' := Rotated(m, d, x);
              EmbSeg(m', c, y, m'[root].left, root, nil) && m'[root] == m[root].(left := m'[root].left) && m'[nil] == m[nil]
    {
      hide Nodes, CtxNodes, Distinct, CtxDistinct, Emb, EmbSeg;
      Parts(m, d, c, x, rx, a, y, ry, b, e);
      RotateUntouched(d, c, x, rx, a, y, ry, b, e, m[y].Kid(d), ParentOf(c, root));
      RotateNodes(d, x, rx, a, y, ry, b, e);
      var m' := Rotated(m, d, x);
      if c.Frame? {
        HolderIn(c);
      }
      SwapHole(m, m', c, x, m[root].left, y, m'[root].left, root, nil);
    }

    lemma RotatedUnder(m: Links, d: Dir, c: Ctx, x: Node, rx: bool, a: Tree, y: Node, ry: bool, b: Tree, e: Tree)
      requires Focus(m, c, Mk(d, x, rx, a, Mk(d, y, ry, b, e)), x) && CanRotate(m, d, x)
      ensures Emb(Rotated(m, d, x), Mk(d, y, ry, Mk(d, x, rx, a, b), e), y, ParentOf(c, root), nil)
    {
      hide Nodes, CtxNodes, Distinct, CtxDistinct, Emb, EmbSeg;
      Parts(m, d, c, x, rx, a, y, ry, b, e);
      RotateDistinct(d, x, rx, a, y, ry, b, e);
      RotateUntouched(d, c, x, rx, a, y, ry, b, e, m[y].Kid(d), ParentOf(c, root));
      EmbNodes(m, a, m[x].Kid(d), x, nil);
      EmbNodes(m, b, m[y].Kid(d), y, nil);
      EmbNodes(m, e, m[y].Kid(d.Opp()), y, nil);
      RotatedBelow(m, Rotated(m, d, x), d, x, rx, a, y, ry, b, e, ParentOf(c, root));
    }

    lemma RotatedSeparate(d: Dir, c: Ctx, x: Node, rx: bool, a: Tree, y: Node, ry: bool, b: Tree, e: Tree)
      requires Separate(c, Mk(d, x, rx, a, Mk(d, y, ry, b, e)))
      ensures Separate(c, Mk(d, y, ry, Mk(d, x, rx, a, b), e))
      ensures Nodes(Mk(d, x, rx, a, Mk(d, y, ry, b, e))) == Nodes(Mk(d, y, ry, Mk(d, x, rx, a, b), e))
    {
      hide Nodes, CtxNodes, Distinct, CtxDistinct, Emb, EmbSeg;
      RotateNodes(d, x, rx, a, y, ry, b, e);
      RotateDistinct(d, x, rx, a, y, ry, b, e);
    }

    lemma RotatedFocus(m: Links, d: Dir, c: Ctx, x: Node, rx: bool, a: Tree, y: Node, ry: bool, b: Tree, e: Tree)
      requires Focus(m, c, Mk(d, x, rx, a, Mk(d, y, ry, b, e)), x) && CanRotate(m, d, x)
      ensures Focus(Rotated(m, d, x), c, Mk(d, y, ry, Mk(d, x, rx, a, b), e), y)
    {
      hide Nodes, CtxNodes, Distinct, CtxDistinct, Emb, EmbSeg;
      RotatedSeparate(d, c, x, rx, a, y, ry, b, e);
      RotatedUnder(m, d, c, x, rx, a, y, ry, b, e);
      RotatedAbove(m, d, c, x, rx, a, y, ry, b, e);
    }

    /** FUNC_ROTATE. */
    method RotateLinks(d: Dir, x: Node)
      requires CanRotate(Links(), d, x)
      modifies nodes
      ensures Links() == Rotated(old(Links()), d, x)
    {
      var o := d.Opp();
      var y := x.Kid(o);
      assert x != root && x != nil && y != nil;
      var z := y.Kid(d);
      SetKid(x, o, z);
      if z != nil {
        SetParent(z, x);
      }
      SetParent(y, x.parent);
      if x == x.parent.Kid(d) {
        SetKid(x.parent, d, y);
      } else {
        SetKid(x.parent, o, y);
      }
      SetKid(y, d, x);
      SetParent(x, y);
    }

    /** Rotation in a tree: the child of `x` away from `d` takes the place of `x`. */
    method Rotate(d: Dir, x: Node, ghost c: Ctx, ghost rx: bool, ghost a: Tree,
                  ghost y: Node, ghost ry: bool, ghost b: Tree, ghost e: Tree)
      requires Focus(Links(), c, Mk(d, x, rx, a, Mk(d, y, ry, b, e)), x)
      modifies nodes
      ensures Focus(Links(), c, Mk(d, y, ry, Mk(d, x, rx, a, b), e), y) && Links()[nil] == old(Links()[nil])
    {
      RotateAllowed(Links(), d, c, x, rx, a, y, ry, b, e);
      RotatedFocus(Links(), d, c, x, rx, a, y, ry, b, e);
      RotatedAbove(Links(), d, c, x, rx, a, y, ry, b, e);
      RotateLinks(d, x);
    }

    // ---------- insertion ----------

    lemma RepaintFocus(m: Links, c: Ctx, t: Tree, p: Node, v: bool)
      requires Focus(m, c, t, p) && t.Branch?
      ensures p in m && Focus(m[p := m[p].(red := v)], c, t.(red := v), p)
    {
      var m' := m[p := m[p].(red := v)];
      KeepEmb(m, m', t.left, m[p].left, p, nil);
      KeepEmb(m, m', t.right, m[p].right, p, nil);
      KeepSeg(m, m', c, p, m[root].left, root, nil);
    }

    /** Sets the colour of `p`, the root of the subtree in focus. */
    method Paint(p: Node, v: bool, ghost c: Ctx, ghost t: Tree)
      requires Focus(Links(), c, t, p) && t.Branch?
      modifies nodes
      ensures Focus(Links(), c, t.(red := v), p) && Links()[nil] == old(Links()[nil])
    {
      RepaintFocus(Links(), c, t, p, v);
      SetRed(p, v);
    }

    /** RB_INSERT_SUB with a red uncle: push the redness two levels up. */
    method InsertRecolor(d: Dir, x: Node, ghost c: Ctx, ghost t: Tree)
      returns (x': Node, ghost t': Tree)
      requires Focus(Links(), c, t, x) && t.Branch? && c.Frame? && c.up.Frame? && c.up.d == d && IsRed(c.up.sib)
      modifies nodes
      ensures x' == c.up.node
      ensures t' == Mk(d, x', true, Mk(c.d, c.node, false, t, c.sib), c.up.sib.(red := false))
      ensures Focus(Links(), c.up.up, t', x')
    {
      hide Nodes, CtxNodes, Distinct, CtxDistinct;
      var p := x.parent;
      var g := p.parent;
      var y := g.Kid(d.Opp());
      ghost var pt := Mk(c.d, p, false, t, c.sib);
      ghost var u, up := c.up.sib, c.up.up;
      ZipUp(Links(), c, t, x);
      Paint(p, false, c.up, Mk(c.d, p, c.red, t, c.sib));
      ZipUp(Links(), c.up, pt, p);
      ZipDown(Links(), up, d.Opp(), g, c.up.red, u, pt);
      Paint(y, false, Frame(d.Opp(), g, c.up.red, pt, up), u);
      ZipUp(Links(), Frame(d.Opp(), g, c.up.red, pt, up), u.(red := false), y);
      Paint(g, true, up, Mk(d, g, c.up.red, pt, u.(red := false)));
      x', t' := g, Mk(d, g, true, pt, u.(red := false));
    }

    /** RB_INSERT_SUB with a black uncle: one or two rotations end the repair. */
    method InsertRotate(d: Dir, x: Node, ghost c: Ctx, ghost t: Tree)
      returns (x': Node, ghost c': Ctx, ghost t': Tree)
      requires Focus(Links(), c, t, x) && IsRed(t) && IsRedCtx(c) && c.up.Frame? && c.up.d == d
      modifies nodes
      ensures Focus(Links(), c', t', x') && t'.Branch?
      ensures (c', t') == InsertRotated(d, c, t)
    {
      hide Focus;
      var p := x.parent;
      var g := p.parent;
      ghost var up, u := c.up.up, c.up.sib;
      FocusSide(Links(), c, t, x);
      ZipUp(Links(), c, t, x);
      ghost var q, low, far;
      if x == p.Kid(d.Opp()) {
        assert c.d == d.Opp();
        ghost var b, e := if d.Left? then t.left else t.right, if d.Left? then t.right else t.left;
        assert t == Mk(d, x, true, b, e);
        Rotate(d, p, c.up, true, c.sib, x, true, b, e);
        q, low, far, x' := x, Mk(d, p, true, c.sib, b), e, p;
      } else {
        assert c.d == d;
        q, low, far, x' := p, t, c.sib, x;
      }
      ZipDown(Links(), c.up, d, q, true, low, far);
      FocusSide(Links(), Frame(d, q, true, far, c.up), low, x');
      var mid := x'.parent;
      Paint(mid, false, c.up, Mk(d, q, true, low, far));
      ZipUp(Links(), c.up, Mk(d, q, false, low, far), q);
      Paint(g, true, up, Mk(d, g, c.up.red, Mk(d, q, false, low, far), u));
      Rotate(d.Opp(), g, up, true, u, q, false, far, low);
      ghost var gt := Mk(d.Opp(), g, true, u, far);
      ZipDown(Links(), up, d, q, false, low, gt);
      c', t' := Frame(d, q, false, gt, up), low;
    }

    /** One step down the tree. */
    lemma Descend(m: Links, c: Ctx, t: Tree, p: Node, d: Dir) returns (c': Ctx, t': Tree)
      requires Focus(m, c, t, p) && t.Branch?
      ensures c' == Frame(d, p, t.red, if d.Left? then t.right else t.left, c)
      ensures t' == if d.Left? then t.left else t.right
      ensures Focus(m, c', t', m[p].Kid(d)) && Plug(c', t') == Plug(c, t)
    {
      c', t' := Frame(d, p, t.red, if d.Left? then t.right else t.left, c), if d.Left? then t.left else t.right;
      ZipDown(m, c, d, p, t.red, t', c'.sib);
    }

    lemma HangFocus(m: Links, m': Links, c: Ctx, z: Node)
      requires Focus(m, c, Leaf, nil) && z !in m
      requires var y, side := ParentOf(c, root), if c.Top? then Left else c.d;
        m'.Keys == m.Keys + {z} && Agree(m, m', m.Keys - {y}) && y in m && m'[y] == m[y].SetKid(side, z) &&
        m'[z].parent == y && m'[z].left == nil && m'[z].right == nil
      ensures Focus(m', c, Branch(z, m'[z].red, Leaf, Leaf), z)
    {
      SwapHole(m, m', c, nil, m[root].left, z, m'[root].left, root, nil);
    }

    /** What a search starts from. */
    lemma SearchStart()
      requires Valid()
      ensures Focus(Links(), Top, shape, root.left) && Plug(Top, shape) == shape && Sorted(InOrder(shape)) && root in nodes
    {
    }

    lemma FrameNotRoot(c: Ctx, t: Tree)
      requires Separate(c, t) && c.Frame?
      ensures c.node != root
    {
    }

    /** What a search knows at a node: its place in order, and its links. */
    lemma SearchHere(c: Ctx, t: Tree, x: Node)
      requires Focus(Links(), c, t, x) && Plug(c, t) == shape && Sorted(InOrder(shape))
      ensures (x == nil <==> t.Leaf?) && (t.Branch? ==> x == t.node) && Sorted(Around(c, t)) && InOrder(shape) == Around(c, t)
      ensures x in nodes && forall d: Dir :: Links()[x].Kid(d) == x.Kid(d)
      ensures c.Frame? ==> c.node != root
    {
      if c.Frame? {
        FrameNotRoot(c, t);
      }
      hide Nodes, CtxNodes, Distinct, CtxDistinct, EmbSeg, InOrder;
      PlugInOrder(c, t);
      NilFocus(Links(), c, t, x);
      AtFocus(Links(), c, t, x);
      RootColor(Links(), c, t, x);
    }

    /** The search path of a key: where rb_insert_binary stops. */
    method FindSlot(key: int) returns (y: Node, ghost c: Ctx)
      requires Valid()
      ensures Plug(c, Leaf) == shape && Straddles(c, key) && y == ParentOf(c, root) && Focus(Links(), c, Leaf, nil)
      ensures y == root || y.key > key <==> c.Top? || c.d.Left?
    {
      hide Valid, Focus, Plug, Sorted, Straddles, InOrder, Around;
      SearchStart();
      StraddlesTop(key);
      y := root;
      var x := y.left;
      ghost var t;
      c, t := Top, shape;
      while x != nil
        invariant Focus(Links(), c, t, x) && Plug(c, t) == shape && y == ParentOf(c, root) && Straddles(c, key)
        invariant c.Frame? ==> (c.d.Left? <==> c.node.key > key)
        decreases t
      {
        SearchHere(c, t, x);
        StraddlesDown(c, t, key);
        y := x;
        var d := if x.key > key then Left else Right;
        x := x.Kid(d);
        c, t := Descend(Links(), c, t, y, d);
      }
      SearchHere(c, t, x);
    }

    /** rb_insert_binary: hangs `z` below the last node on its search path. */
    method InsertBinary(z: Node) returns (ghost c: Ctx)
      requires Valid() && z !in nodes
      modifies this`nodes, nodes, z
      ensures nodes == old(nodes) + {z}
      ensures Plug(c, Leaf) == shape && Straddles(c, z.key)
      ensures Focus(Links(), c, Branch(z, z.red, Leaf, Leaf), z)
    {
      hide Focus, Straddles, Plug, Good;
      z.left, z.right := nil, nil;
      var y;
      y, c := FindSlot(z.key);
      Hang(z, y, c);
    }

    method Hang(z: Node, y: Node, ghost c: Ctx)
      requires Focus(Links(), c, Leaf, nil) && z !in nodes && z.left == nil && z.right == nil
      requires y == ParentOf(c, root)
      requires y == root || y.key > z.key <==> c.Top? || c.d.Left?
      modifies this`nodes, nodes, z
      ensures nodes == old(nodes) + {z}
      ensures Focus(Links(), c, Branch(z, z.red, Leaf, Leaf), z)
    {
      hide Nodes, CtxNodes, Distinct, CtxDistinct, Emb, EmbSeg;
      if c.Frame? {
        HolderIn(c);
      }
      ghost var m := Links();
      nodes := nodes + {z};
      assert Links() == m[z := Cell(z.red, z.parent, nil, nil)];
      SetParent(z, y);
      SetKid(y, if y == root || y.key > z.key then Left else Right, z);
      HangFocus(m, Links(), c, z);
    }

    lemma {:induction false} ZipTop(m: Links, c: Ctx, t: Tree, p: Node)
      requires Focus(m, c, t, p)
      ensures Focus(m, Top, Plug(c, t), m[root].left)
      decreases c
    {
      if c.Frame? {
        ZipUp(m, c, t, p);
        ZipTop(m, c.up, Mk(c.d, c.node, c.red, t, c.sib), c.node);
      }
    }

    /** Comparing a node with its parent's left child tells its side. */
    lemma SideOf(m: Links, c: Ctx, t: Tree, p: Node)
      requires Focus(m, c, t, p) && c.Frame? && (t.Branch? || c.sib.Branch?)
      ensures c.node in m && (m[c.node].left == p <==> c.d.Left?)
    {
      assert c.sib.Branch? ==> c.sib.node in Nodes(c.sib);
      assert t.Branch? ==> t.node in Nodes(t);
    }

    /** One turn of the loop of rb_insert: either the clash moves up or it is gone. */
    method InsertStep(x: Node, ghost c: Ctx, ghost t: Tree) returns (x': Node, ghost c': Ctx, ghost t': Tree)
      requires Focus(Links(), c, t, x)
      requires RedBlack(t) && IsRed(t) && Fits(c, BlackHeight(t)) && IsRedCtx(c)
      modifies nodes
      ensures Focus(Links(), c', t', x')
      ensures RedBlack(t') && IsRed(t') && Fits(c', BlackHeight(t'))
      ensures Around(c', t') == Around(c, t) && Depth(c') < Depth(c)
    {
      hide Nodes, CtxNodes, Distinct, CtxDistinct, Around, InOrder, Before, After, Depth;
      ghost var m := Links();
      ghost var pt := Mk(c.d, c.node, c.red, t, c.sib);
      ZipUp(m, c, t, x);
      SideOf(m, c.up, pt, c.node);
      ZipUp(m, c.up, pt, c.node);
      var g := x.parent.parent;
      var d := if x.parent == g.left then Left else Right;
      if g.Kid(d.Opp()).red {
        RecolorFits(d, c, t);
        x', t' := InsertRecolor(d, x, c, t);
        c' := c.up.up;
      } else {
        RotateFits(d, c, t);
        RotateAround(d, c, t);
        x', c', t' := InsertRotate(d, x, c, t);
      }
    }

    /** The loop of rb_insert. */
    method InsertFixup(node: Node, ghost c0: Ctx, ghost t0: Tree) returns (ghost c: Ctx, ghost t: Tree)
      requires Focus(Links(), c0, t0, node)
      requires RedBlack(t0) && IsRed(t0) && Fits(c0, BlackHeight(t0))
      modifies nodes
      ensures root in nodes && Focus(Links(), Top, Plug(c, t), root.left)
      ensures RedBlack(t) && IsRed(t) && Fits(c, BlackHeight(t)) && !IsRedCtx(c)
      ensures Around(c, t) == Around(c0, t0)
    {
      hide Nodes, CtxNodes, Distinct, CtxDistinct, Around, Fits, RedBlack, BlackHeight, Plug;
      c, t := c0, t0;
      var x := node;
      while x.parent.red
        invariant Focus(Links(), c, t, x)
        invariant RedBlack(t) && IsRed(t) && Fits(c, BlackHeight(t))
        invariant Around(c, t) == Around(c0, t0)
        decreases Depth(c)
      {
        x, c, t := InsertStep(x, c, t);
      }
      ZipTop(Links(), c, t, x);
    }

    lemma InsertedShape(s: Tree, c0: Ctx, z: Node, c: Ctx, t: Tree)
      requires Plug(c0, Leaf) == s && Good(s) && Straddles(c0, z.key)
      requires RedBlack(t) && IsRed(t) && Fits(c, BlackHeight(t)) && !IsRedCtx(c)
      requires Around(c, t) == Around(c0, Branch(z, true, Leaf, Leaf))
      ensures var s' := Plug(c, t);
        s'.Branch? && Good(s'.(red := false)) && Nodes(s'.(red := false)) == Nodes(s) + {z} &&
        exists k :: InsertedAt(InOrder(s), InOrder(s'.(red := false)), z, k)
    {
      hide Nodes, Before, After, Plug, Fits, BlackHeight, RedBlack;
      var s' := Plug(c, t);
      PlugInOrder(c0, Leaf);
      PlugInOrder(c, t);
      if c.Frame? {
        PlugRedBlack(c, t);
      } else {
        PlugTop(t);
      }
      assert InOrder(s') == Before(c0) + [z] + After(c0);
      assert InOrder(s) == Before(c0) + After(c0);
      assert InsertedAt(InOrder(s), InOrder(s'), z, |Before(c0)|);
      InsertedSorted(InOrder(s), InOrder(s'), z, |Before(c0)|);
      BlackenRedBlack(s');
      BlackenSame(s');
      NodesInserted(s, s', Before(c0), z, After(c0));
    }

    /** Leaves the tree `s` with a black top node. */
    method BlackenTop(ghost s: Tree)
      requires root in nodes && Focus(Links(), Top, s, root.left) && s.Branch? && Good(s.(red := false))
      requires nodes == Nodes(s.(red := false)) + {nil, root}
      modifies this`shape, nodes
      ensures Valid() && shape == s.(red := false)
    {
      hide Nodes, CtxNodes, Distinct, CtxDistinct, Emb, Good;
      Paint(root.left, false, Top, s);
      SetShape(s.(red := false));
    }

    lemma NewLeaf(c0: Ctx, z: Node)
      requires Good(Plug(c0, Leaf))
      ensures var t := Branch(z, true, Leaf, Leaf); RedBlack(t) && IsRed(t) && Fits(c0, BlackHeight(t))
    {
      UnplugRedBlack(c0, Leaf);
    }

    lemma ValidShape()
      requires Valid()
      ensures Good(shape) && nodes == Nodes(shape) + {nil, root}
    {
    }

    /** rb_insert. */
    method Insert(node: Node)
      requires Valid() && node !in nodes
      modifies this, nodes, node
      ensures Valid() && nodes == old(nodes) + {node}
      ensures exists k :: InsertedAt(old(InOrder(shape)), InOrder(shape), node, k)
    {
      hide *;
      ValidShape();
      ghost var c0 := InsertBinary(node);
      Paint(node, true, c0, Branch(node, node.red, Leaf, Leaf));
      NewLeaf(c0, node);
      ghost var c, t := InsertFixup(node, c0, Branch(node, true, Leaf, Leaf));
      InsertedShape(shape, c0, node, c, t);
      BlackenTop(Plug(c, t));
    }

    // ---------- deletion: the fixup ----------

    /** Focus on a subtree that is one black node short; the sentinel, too, knows its parent. */
    ghost predicate Short(m: Links, c: Ctx, t: Tree, p: Node)
    {
      Focus(m, c, t, p) && m[p].parent == ParentOf(c, root) &&
      RedBlack(Blacken(t)) && Fits(c, BlackHeight(t) + 1)
    }

    lemma HolderCell(m: Links, c: Ctx, t: Tree, p: Node)
      requires Focus(m, c, t, p) && c.Frame?
      ensures c.node in m && m[c.node].red == c.red
    {
    }

    lemma RootColor(m: Links, c: Ctx, t: Tree, p: Node)
      requires Focus(m, c, t, p)
      ensures p in m && m[p].red == IsRed(t)
      ensures t.Branch? ==> m[p].parent == ParentOf(c, root)
    {
    }

    lemma AtFocus(m: Links, c: Ctx, t: Tree, p: Node)
      requires Focus(m, c, t, p)
      ensures p == At(t)
    {
    }

    lemma FocusSeparate(m: Links, c: Ctx, t: Tree, p: Node)
      requires Focus(m, c, t, p)
      ensures Separate(c, t)
    {
    }

    lemma FocusSeg(m: Links, c: Ctx, t: Tree, p: Node)
      requires Focus(m, c, t, p)
      ensures root in m && EmbSeg(m, c, p, m[root].left, root, nil) && CtxNodes(c) <= m.Keys
    {
    }

    /** The node above is the parent, with the subtree on its side and only there. */
    lemma FocusSide(m: Links, c: Ctx, t: Tree, p: Node)
      requires Focus(m, c, t, p) && c.Frame? && t.Branch?
      ensures p == t.node && p in m && c.node in m && p != root && m[p].parent == c.node && m[c.node].parent == ParentOf(c.up, root)
      ensures m[c.node].Kid(c.d) == p && m[c.node].Kid(c.d.Opp()) != p
    {
    }

    /** Moves the focus from a subtree to its sibling. */
    lemma ZipSibling(m: Links, c: Ctx, t: Tree, p: Node)
      requires c.Frame? && Focus(m, c, t, p)
      ensures Focus(m, Frame(c.d.Opp(), c.node, c.red, t, c.up), c.sib, m[c.node].Kid(c.d.Opp()))
      ensures m[c.node].Kid(c.d.Opp()) == At(c.sib)
    {
      ZipUp(m, c, t, p);
      ZipDown(m, c.up, c.d.Opp(), c.node, c.red, c.sib, t);
    }

    /** First case: a red sibling is rotated above the parent, so that the new sibling is black. */
    method DeleteRedSibling(d: Dir, x: Node, w: Node, ghost c: Ctx, ghost t: Tree, ghost b: Tree, ghost e: Tree)
      requires c.Frame? && Focus(Links(), c, t, x) && c.d == d && c.sib == Mk(d, w, true, b, e)
      requires x in nodes && x.parent == c.node
      modifies nodes
      ensures Focus(Links(), Frame(d, c.node, true, b, Frame(d, w, false, e, c.up)), t, x)
      ensures Links()[nil] == old(Links()[nil])
    {
      hide Nodes, CtxNodes, Distinct, CtxDistinct, Emb, EmbSeg;
      var p := x.parent;
      ZipSibling(Links(), c, t, x);
      Paint(w, false, Frame(d.Opp(), p, c.red, t, c.up), c.sib);
      ZipUp(Links(), Frame(d.Opp(), p, c.red, t, c.up), Mk(d, w, false, b, e), w);
      Paint(p, true, c.up, Mk(d, p, c.red, t, Mk(d, w, false, b, e)));
      Rotate(d, p, c.up, true, t, w, false, b, e);
      ZipDown(Links(), c.up, d, w, false, Mk(d, p, true, t, b), e);
      ZipDown(Links(), Frame(d, w, false, e, c.up), d, p, true, t, b);
      AtFocus(old(Links()), c, t, x);
    }

    /** Third case: the red near nephew is rotated above the sibling. */
    method DeleteNearRed(d: Dir, w: Node, ghost cw: Ctx, ghost n: Node, ghost na: Tree, ghost nb: Tree, ghost f: Tree)
      requires Focus(Links(), cw, Mk(d, w, false, Mk(d, n, true, na, nb), f), w)
      modifies nodes
      ensures Focus(Links(), cw, Mk(d, n, false, na, Mk(d, w, true, nb, f)), n)
      ensures Links()[nil] == old(Links()[nil])
    {
      hide Nodes, CtxNodes, Distinct, CtxDistinct, Emb, EmbSeg;
      ghost var near := Mk(d, n, true, na, nb);
      ZipDown(Links(), cw, d, w, false, near, f);
      Paint(w.Kid(d), false, Frame(d, w, false, f, cw), near);
      ZipUp(Links(), Frame(d, w, false, f, cw), Mk(d, n, false, na, nb), n);
      Paint(w, true, cw, Mk(d, w, false, Mk(d, n, false, na, nb), f));
      Rotate(d.Opp(), w, cw, true, f, n, false, nb, na);
    }

    /** Fourth case: with a red far nephew one rotation at the parent makes up for the missing black. */
    method DeleteFarRed(d: Dir, p: Node, w: Node, ghost pr: bool, ghost up: Ctx, ghost t: Tree, ghost wr: bool,
                        ghost n: Tree, ghost f: Tree)
      requires Focus(Links(), Frame(d.Opp(), p, pr, t, up), Mk(d, w, wr, n, f), w) && f.Branch?
      modifies nodes
      ensures Focus(Links(), up, Mk(d, w, pr, Mk(d, p, false, t, n), f.(red := false)), w)
      ensures Links()[nil] == old(Links()[nil])
    {
      hide Nodes, CtxNodes, Distinct, CtxDistinct, Emb, EmbSeg;
      ghost var cw := Frame(d.Opp(), p, pr, t, up);
      ghost var wt := Mk(d, w, pr, n, f);
      HolderCell(Links(), cw, Mk(d, w, wr, n, f), w);
      Paint(w, p.red, cw, Mk(d, w, wr, n, f));
      ZipUp(Links(), cw, wt, w);
      Paint(p, false, up, Mk(d.Opp(), p, pr, wt, t));
      ZipDown(Links(), up, d.Opp(), p, false, wt, t);
      PaintFar(d, w, Frame(d.Opp(), p, false, t, up), pr, n, f);
      ZipUp(Links(), Frame(d.Opp(), p, false, t, up), Mk(d, w, pr, n, f.(red := false)), w);
      Rotate(d, p, up, false, t, w, pr, n, f.(red := false));
    }

    method PaintFar(d: Dir, w: Node, ghost cw: Ctx, ghost wr: bool, ghost n: Tree, ghost f: Tree)
      requires Focus(Links(), cw, Mk(d, w, wr, n, f), w) && f.Branch?
      modifies nodes
      ensures Focus(Links(), cw, Mk(d, w, wr, n, f.(red := false)), w)
      ensures Links()[nil] == old(Links()[nil])
    {
      hide Nodes, CtxNodes, Distinct, CtxDistinct, Emb, EmbSeg;
      ZipDown(Links(), cw, d.Opp(), w, wr, f, n);
      Paint(w.Kid(d.Opp()), false, Frame(d.Opp(), w, wr, n, cw), f);
      ZipUp(Links(), Frame(d.Opp(), w, wr, n, cw), f.(red := false), f.node);
    }

    /** A colour read from a child is the colour in the shape; the sentinel reads as black. */
    lemma KidColor(m: Links, c: Ctx, d: Dir, n: Node, red: bool, a: Tree, b: Tree)
      requires Focus(m, c, Mk(d, n, red, a, b), n)
      ensures n in m && m[n].red == red && m[n].Kid(d) == At(a) && m[n].Kid(d.Opp()) == At(b)
      ensures At(a) in m && At(b) in m && m[At(a)].red == IsRed(a) && m[At(b)].red == IsRed(b)
    {
      ZipDown(m, c, d, n, red, a, b);
      ZipDown(m, c, d.Opp(), n, red, b, a);
    }

    method DeleteTurnNephew(d: Dir, p: Node, w: Node, ghost pr: bool, ghost up: Ctx, ghost t: Tree, ghost n: Tree, ghost f: Tree)
      returns (w': Node, ghost n': Tree, ghost f': Tree)
      requires Focus(Links(), Frame(d.Opp(), p, pr, t, up), Mk(d, w, false, n, f), w)
      requires RedBlack(Mk(d, w, false, n, f)) && IsRed(n) && !IsRed(f)
      modifies nodes
      ensures Focus(Links(), Frame(d.Opp(), p, pr, t, up), Mk(d, w', false, n', f'), w') && IsRed(f')
      ensures Links()[nil] == old(Links()[nil])
      ensures var w0, w1 := Mk(d, w, false, n, f), Mk(d, w', false, n', f');
              RedBlack(w1) && BlackHeight(w1) == BlackHeight(w0) && InOrder(w1) == InOrder(w0)
    {
      hide Nodes, CtxNodes, Distinct, CtxDistinct, Emb, EmbSeg, RedBlack, BlackHeight, InOrder;
      ghost var na, nb := if d.Left? then n.left else n.right, if d.Left? then n.right else n.left;
      assert n == Mk(d, n.node, true, na, nb);
      NearRedFits(d, w, n.node, na, nb, f);
      ghost var cw := Frame(d.Opp(), p, pr, t, up);
      DeleteNearRed(d, w, cw, n.node, na, nb, f);
      n', f' := na, Mk(d, w, true, nb, f);
      ZipUp(Links(), cw, Mk(d, n.node, false, na, f'), n.node);
      KidColor(Links(), up, d.Opp(), p, pr, Mk(d, n.node, false, na, f'), t);
      w' := p.Kid(d.Opp());
    }

    /** Both nephews black: the sibling turns red and the shortage moves to the parent. */
    method DeleteBlackNephews(d: Dir, x: Node, p: Node, w: Node, ghost c: Ctx, ghost t: Tree) returns (ghost t': Tree)
      requires Short(Links(), c, t, x) && c.Frame? && !IsRed(t) && d == c.d && p == c.node
      requires c.sib.Branch? && c.sib.node == w && !c.sib.red && !IsRed(c.sib.left) && !IsRed(c.sib.right)
      modifies nodes
      ensures Short(Links(), c.up, t', p) && t'.Branch? && t'.red == c.red
      ensures Around(c.up, t') == Around(c, t)
    {
      hide Nodes, CtxNodes, Distinct, CtxDistinct, EmbSeg, Around, Fits;
      ghost var cw := Frame(d.Opp(), p, c.red, t, c.up);
      BlackNephewsFits(d, p, c.red, c.sib, c.up, t);
      ZipSibling(Links(), c, t, x);
      Paint(w, true, cw, c.sib);
      ZipUp(Links(), cw, c.sib.(red := true), w);
      t' := Mk(d, p, c.red, t, c.sib.(red := true));
    }

    /** The context and tree a fixup leaves: red-black all over. */
    ghost predicate Mended(m: Links, c: Ctx, t: Tree)
    {
      Focus(m, c, t, At(t)) && RedBlack(t) && Fits(c, BlackHeight(t)) && (IsRed(t) ==> !IsRedCtx(c) && c.Frame?)
    }

    /** The third case if the far nephew is black: afterwards it is red. */
    method DeleteFaceFar(d: Dir, p: Node, w0: Node, ghost pr: bool, ghost up: Ctx, ghost t: Tree,
                         ghost n0: Tree, ghost f0: Tree)
      returns (w: Node, ghost n: Tree, ghost f: Tree)
      requires Focus(Links(), Frame(d.Opp(), p, pr, t, up), Mk(d, w0, false, n0, f0), w0)
      requires IsRed(n0) || IsRed(f0)
      requires Fits(Frame(d, p, pr, Mk(d, w0, false, n0, f0), up), BlackHeight(t) + 1)
      modifies nodes
      ensures Focus(Links(), Frame(d.Opp(), p, pr, t, up), Mk(d, w, false, n, f), w) && IsRed(f)
      ensures Fits(Frame(d, p, pr, Mk(d, w, false, n, f), up), BlackHeight(t) + 1)
      ensures InOrder(Mk(d, w, false, n, f)) == InOrder(Mk(d, w0, false, n0, f0))
    {
      hide Nodes, CtxNodes, Distinct, CtxDistinct, Emb, EmbSeg, InOrder, Focus, RedBlack, BlackHeight;
      w, n, f := w0, n0, f0;
      KidColor(Links(), Frame(d.Opp(), p, pr, t, up), d, w, false, n, f);
      if !w.Kid(d.Opp()).red {
        w, n, f := DeleteTurnNephew(d, p, w, pr, up, t, n, f);
      }
    }

    method DeleteRedNephew(d: Dir, p: Node, w0: Node, ghost pr: bool, ghost up: Ctx, ghost t: Tree,
                           ghost n0: Tree, ghost f0: Tree)
      returns (ghost t': Tree)
      requires Focus(Links(), Frame(d.Opp(), p, pr, t, up), Mk(d, w0, false, n0, f0), w0)
      requires RedBlack(t) && !IsRed(t) && (IsRed(n0) || IsRed(f0))
      requires Fits(Frame(d, p, pr, Mk(d, w0, false, n0, f0), up), BlackHeight(t) + 1)
      modifies nodes
      ensures Mended(Links(), up, t') && p in nodes && !p.red
      ensures Around(up, t') == Around(Frame(d, p, pr, Mk(d, w0, false, n0, f0), up), t)
    {
      hide Nodes, CtxNodes, Distinct, CtxDistinct, Emb, EmbSeg, Around, InOrder, Focus, Fits, RedBlack, BlackHeight;
      var w;
      ghost var n, f;
      w, n, f := DeleteFaceFar(d, p, w0, pr, up, t, n0, f0);
      AroundSibling(d, p, pr, Mk(d, w0, false, n0, f0), Mk(d, w, false, n, f), up, t);
      FarRedFits(d, p, pr, up, t, w, n, f);
      FarRedAround(d, p, pr, up, t, w, n, f);
      DeleteFarRed(d, p, w, pr, up, t, false, n, f);
      t' := Mk(d, w, pr, Mk(d, p, false, t, n), f.(red := false));
      KidColor(Links(), up, d, w, pr, Mk(d, p, false, t, n), f.(red := false));
    }

    /** Where `r`, the top of the tree when the fixup began, is now. */
    ghost predicate Cached(r: Node, c: Ctx)
    {
      c.Frame? && (c.node == r || (c.up.Frame? && TopNode(c.up) == r))
    }

    /** A red sibling is turned away first. */
    method DeleteSwapSibling(d: Dir, x: Node, r: Node, ghost c: Ctx, ghost t: Tree) returns (ghost c': Ctx)
      requires Short(Links(), c, t, x) && c.Frame? && !IsRed(t) && c.d == d && TopNode(c) == r
      modifies nodes
      ensures Short(Links(), c', t, x) && Cached(r, c') && !IsRed(c'.sib) && c'.node == c.node && c'.d == d
      ensures Around(c', t) == Around(c, t)
      ensures c' == c || (c'.red && Depth(c') == Depth(c) + 1)
    {
      hide Nodes, CtxNodes, Distinct, CtxDistinct, Emb, Around, InOrder, RedBlack;
      var p := x.parent;
      var w := p.Kid(d.Opp());
      ShortSide(Links(), c, t, x);
      ZipSibling(Links(), c, t, x);
      RootColor(Links(), Frame(d.Opp(), p, c.red, t, c.up), c.sib, w);
      AtFocus(Links(), c, t, x);
      c' := c;
      if w.red {
        ghost var b, e := if d.Left? then c.sib.left else c.sib.right, if d.Left? then c.sib.right else c.sib.left;
        assert c.sib == Mk(d, w, true, b, e);
        DeleteRedSibling(d, x, w, c, t, b, e);
        RedSiblingFits(d, p, c.red, w, b, e, c.up, BlackHeight(t) + 1);
        RedSiblingAround(d, p, c.red, w, b, e, c.up, t);
        c' := Frame(d, p, true, b, Frame(d, w, false, e, c.up));
        RootColor(Links(), c', t, x);
      }
    }

    /** RB_DELETE_FIXUP_SUB: one turn of the loop of rb_delete_fixup. */
    method DeleteStep(x: Node, r: Node, ghost c: Ctx, ghost t: Tree)
      returns (x': Node, ghost c': Ctx, ghost t': Tree, ghost done: bool)
      requires Short(Links(), c, t, x) && c.Frame? && !IsRed(t) && TopNode(c) == r
      modifies nodes
      ensures done ==> x' == r && r in nodes && !r.red && Mended(Links(), c', t')
      ensures !done ==> Short(Links(), c', t', x')
      ensures !done && !IsRed(t') ==> Depth(c') < Depth(c) && r == (if c'.Top? then x' else TopNode(c'))
      ensures Around(c', t') == Around(c, t)
    {
      hide Nodes, CtxNodes, Distinct, CtxDistinct, Emb, EmbSeg, Around, InOrder, Focus, RedBlack, BlackHeight, Fits;
      ShortSide(Links(), c, t, x);
      var d := if x == x.parent.left then Left else Right;
      ghost var c1 := DeleteSwapSibling(d, x, r, c, t);
      ShortSide(Links(), c1, t, x);
      var p := x.parent;
      var w := p.Kid(d.Opp());
      ghost var wt := c1.sib;
      ghost var n, f := if d.Left? then wt.left else wt.right, if d.Left? then wt.right else wt.left;
      assert wt == Mk(d, w, false, n, f);
      ZipSibling(Links(), c1, t, x);
      KidColor(Links(), Frame(d.Opp(), p, c1.red, t, c1.up), d, w, false, n, f);
      if !w.Kid(d).red && !w.Kid(d.Opp()).red {
        t' := DeleteBlackNephews(d, x, p, w, c1, t);
        x', c', done := p, c1.up, false;
      } else {
        t' := DeleteRedNephew(d, p, w, c1.red, c1.up, t, n, f);
        x', c', done := r, c1.up, true;
        if c1.node != r {
          FocusSeg(Links(), c1.up, t', At(t'));
          SegTopBlack(Links(), c1.up, At(t'), root.left, root, nil, BlackHeight(t'));
        }
      }
    }

    /** The sibling of a short subtree is a node, and the parent link of the subtree is right. */
    lemma ShortSide(m: Links, c: Ctx, t: Tree, x: Node)
      requires Short(m, c, t, x) && c.Frame?
      ensures x in m && m[x].parent == c.node && c.node in m && (m[c.node].left == x <==> c.d.Left?)
      ensures c.sib.Branch? && m[c.node].Kid(c.d.Opp()) == c.sib.node
    {
      ZipSibling(m, c, t, x);
      SideOf(m, c, t, x);
    }

    /** The final write of rb_delete_fixup, in each of the three ways its loop can end. */
    method DeleteFinish(x: Node, r: Node, ghost c: Ctx, ghost t: Tree, ghost done: bool) returns (ghost s: Tree)
      requires done ==> x == r && r in nodes && !r.red && Mended(Links(), c, t)
      requires !done ==> Short(Links(), c, t, x)
      requires !done && !IsRed(t) ==> x == r && r == (if c.Top? then x else TopNode(c))
      modifies nodes
      ensures root in nodes && Focus(Links(), Top, s, root.left) && RedBlack(s) && !IsRed(s)
      ensures InOrder(s) == Around(c, t)
    {
      hide Nodes, CtxNodes, Distinct, CtxDistinct, Emb, EmbSeg, InOrder, Before, After;
      ghost var m := Links();
      ghost var p := if done then At(t) else x;
      RootColor(m, c, t, p);
      AtFocus(m, c, t, p);
      ghost var t' := if done then t else Blacken(t);
      if !done && IsRed(t) {
        RepaintFocus(m, c, t, x, false);
      } else if !done {
        ShortTop(m, c, t, x);
      }
      SetRed(x, false);
      assert m[x].red || Links() == m;
      BlackenSame(t);
      PlugInOrder(c, t');
      PlugRedBlack(c, t');
      ZipTop(Links(), c, t', p);
      s := Plug(c, t');
    }

    lemma ShortTop(m: Links, c: Ctx, t: Tree, x: Node)
      requires Focus(m, c, t, x) && x == (if c.Top? then x else TopNode(c))
      ensures c.Top?
    {
      if c.Frame? {
        TopNodeIn(c);
        if t.Branch? {
          RootIn(t);
        }
      }
    }

    /** rb_delete_fixup, comparing with the top node `r` read before any rotation. */
    method DeleteFixup(node: Node, ghost c0: Ctx, ghost t0: Tree) returns (ghost s: Tree)
      requires Short(Links(), c0, t0, node)
      modifies nodes
      ensures root in nodes && Focus(Links(), Top, s, root.left) && RedBlack(s) && !IsRed(s)
      ensures InOrder(s) == Around(c0, t0)
    {
      hide Nodes, CtxNodes, Distinct, CtxDistinct, Emb, EmbSeg, InOrder, Around, RedBlack, Fits;
      var x, r := node, root.left;
      ghost var c, t, done := c0, t0, false;
      SegTop(Links(), c, x, r, root, nil);
      RootColor(Links(), c, t, x);
      while x != r && !x.red
        invariant x in nodes
        invariant done ==> x == r && !r.red && Mended(Links(), c, t)
        invariant !done ==> Short(Links(), c, t, x) && x.red == IsRed(t)
        invariant !done && !IsRed(t) ==> r == (if c.Top? then x else TopNode(c))
        invariant Around(c, t) == Around(c0, t0)
        decreases if done || IsRed(t) then 0 else Depth(c) + 1
      {
        x, c, t, done := DeleteStep(x, r, c, t);
        if !done {
          RootColor(Links(), c, t, x);
        }
      }
      s := DeleteFinish(x, r, c, t, done);
    }

    // ---------- neighbours ----------

    /** The context and subtree at a node of the tree. */
    lemma FocusOn(n: Node) returns (c: Ctx, t: Tree)
      requires Valid() && n in nodes && n != nil && n != root
      ensures Focus(Links(), c, t, n) && t.Branch? && t.node == n && Plug(c, t) == shape
    {
      c, t := Locate(shape, n);
      var p := EmbUnplug(Links(), c, t, root.left, root, nil);
      PlugDistinct(c, t);
      PlugNodes(c, t);
    }

    /** Follows the links on side `d` as far as they go. */
    method Extreme(d: Dir, y0: Node, ghost c: Ctx, ghost t: Tree) returns (y: Node, ghost inner: Ctx, ghost u: Tree)
      requires Focus(Links(), c, t, y0) && t.Branch?
      ensures Focus(Links(), Append(inner, c), u, y) && u.Branch? && u.node == y && Plug(inner, u) == t
      ensures if d.Left? then u.left == Leaf && Before(inner) == [] else u.right == Leaf && After(inner) == []
    {
      hide Nodes, CtxNodes, Distinct, CtxDistinct, EmbSeg;
      y, inner, u := y0, Top, t;
      while y.Kid(d) != nil
        invariant Focus(Links(), Append(inner, c), u, y) && u.Branch? && u.node == y && Plug(inner, u) == t
        invariant if d.Left? then Before(inner) == [] else After(inner) == []
        decreases u
      {
        ghost var c', u' := Descend(Links(), Append(inner, c), u, y, d);
        inner := Frame(d, y, u.red, if d.Left? then u.right else u.left, inner);
        y, u := y.Kid(d), u';
        RootColor(Links(), c', u, y);
        AtFocus(Links(), c', u, y);
      }
      ghost var c', u' := Descend(Links(), Append(inner, c), u, y, d);
      NilFocus(Links(), c', u', nil);
    }

    lemma NilFocus(m: Links, c: Ctx, t: Tree, p: Node)
      requires Focus(m, c, t, p)
      ensures p == nil <==> t.Leaf?
    {
    }

    /** `next` follows `n` in `s`, or is the sentinel when `n` is last. */
    ghost predicate Follows(s: seq<Node>, n: Node, next: Node)
    {
      exists i :: 0 <= i < |s| && s[i] == n && next == if i + 1 < |s| then s[i + 1] else nil
    }

    ghost predicate Precedes(s: seq<Node>, prev: Node, n: Node)
    {
      exists i :: 0 <= i < |s| && s[i] == n && prev == if i > 0 then s[i - 1] else nil
    }

    lemma FollowsAt(s: seq<Node>, i: nat, next: Node)
      requires i < |s| && next == if i + 1 < |s| then s[i + 1] else nil
      ensures Follows(s, s[i], next)
    {
    }

    lemma PrecedesAt(s: seq<Node>, i: nat, prev: Node)
      requires i < |s| && prev == if i > 0 then s[i - 1] else nil
      ensures Precedes(s, prev, s[i])
    {
    }

    lemma FollowsAround(c: Ctx, t: Tree, next: Node)
      requires t.Branch? && next == var rest := InOrder(t.right) + After(c); if rest == [] then nil else rest[0]
      ensures Follows(Around(c, t), t.node, next)
    {
      var i := |Before(c) + InOrder(t.left)|;
      var s, rest := Around(c, t), InOrder(t.right) + After(c);
      assert s == (Before(c) + InOrder(t.left)) + [t.node] + rest;
      assert |s| == i + 1 + |rest| && s[i] == t.node && (rest != [] ==> s[i + 1] == rest[0]);
      FollowsAt(s, i, next);
    }

    lemma PrecedesAround(c: Ctx, t: Tree, prev: Node)
      requires t.Branch? && prev == var init := Before(c) + InOrder(t.left); if init == [] then nil else init[|init| - 1]
      ensures Precedes(Around(c, t), prev, t.node)
    {
      var init := Before(c) + InOrder(t.left);
      var s := Around(c, t);
      assert s == init + [t.node] + (InOrder(t.right) + After(c));
      assert s[|init|] == t.node && (init != [] ==> s[|init| - 1] == init[|init| - 1]);
      PrecedesAt(s, |init|, prev);
    }

    /** The least node of a subtree comes first in it, the greatest last. */
    lemma ExtremeOrder(d: Dir, inner: Ctx, u: Tree, t: Tree)
      requires Plug(inner, u) == t && u.Branch?
      requires if d.Left? then u.left == Leaf && Before(inner) == [] else u.right == Leaf && After(inner) == []
      ensures InOrder(t) != [] && u.node == if d.Left? then InOrder(t)[0] else InOrder(t)[|InOrder(t)| - 1]
    {
      PlugInOrder(inner, u);
    }

    /** rb_tree_successor. */
    method Successor(node: Node) returns (y: Node)
      requires Valid() && node in nodes && node != nil && node != root
      ensures Follows(InOrder(shape), node, y)
    {
      hide Nodes, CtxNodes, Distinct, CtxDistinct, Emb, EmbSeg;
      ghost var m := Links();
      ghost var c, t := FocusOn(node);
      PlugInOrder(c, t);
      ghost var cr, r := Descend(m, c, t, node, Right);
      NilFocus(m, cr, r, node.right);
      if node.right != nil {
        ghost var inner, u;
        y, inner, u := Extreme(Left, node.right, cr, r);
        ExtremeOrder(Left, inner, u, r);
      } else {
        y := ClimbRight(node, c, t);
      }
      FollowsAround(c, t, y);
    }

    /** Climbs until it leaves a left child. */
    method ClimbRight(node: Node, ghost c0: Ctx, ghost t0: Tree) returns (y: Node)
      requires Focus(Links(), c0, t0, node) && t0.Branch?
      ensures y == if After(c0) == [] then nil else After(c0)[0]
    {
      hide Nodes, CtxNodes, Distinct, CtxDistinct, EmbSeg, InOrder;
      ghost var m := Links();
      ghost var c, t := c0, t0;
      var x := node;
      y := x.parent;
      UpFocus(m, c, t, x);
      while x == y.right
        invariant Focus(m, c, t, x) && t.Branch? && y in nodes && y == ParentOf(c, root) && After(c) == After(c0)
        invariant if c.Top? then y.right != x else c.node != root && (y.right == x <==> c.d.Right?)
        decreases c
      {
        ZipUp(m, c, t, x);
        c, t := c.up, Mk(c.d, c.node, c.red, t, c.sib);
        x, y := y, y.parent;
        UpFocus(m, c, t, x);
      }
      if y == root {
        y := nil;
      }
    }

    /** rb_tree_predecessor. */
    method Predecessor(node: Node) returns (y: Node)
      requires Valid() && node in nodes && node != nil && node != root
      ensures Precedes(InOrder(shape), y, node)
    {
      hide Nodes, CtxNodes, Distinct, CtxDistinct, Emb, EmbSeg;
      ghost var m := Links();
      ghost var c, t := FocusOn(node);
      PlugInOrder(c, t);
      ghost var cl, l := Descend(m, c, t, node, Left);
      NilFocus(m, cl, l, node.left);
      if node.left != nil {
        ghost var inner, u;
        y, inner, u := Extreme(Right, node.left, cl, l);
        ExtremeOrder(Right, inner, u, l);
      } else {
        y := ClimbLeft(node, c, t);
      }
      PrecedesAround(c, t, y);
    }

    /** Climbs until it leaves a right child; the dummy root is recognised on the way. */
    method ClimbLeft(node: Node, ghost c0: Ctx, ghost t0: Tree) returns (y: Node)
      requires Focus(Links(), c0, t0, node) && t0.Branch?
      ensures y == if Before(c0) == [] then nil else Before(c0)[|Before(c0)| - 1]
    {
      hide Nodes, CtxNodes, Distinct, CtxDistinct, EmbSeg, InOrder;
      ghost var m := Links();
      ghost var c, t := c0, t0;
      var x := node;
      y := x.parent;
      UpFocus(m, c, t, x);
      while x == y.left
        invariant Focus(m, c, t, x) && t.Branch? && y in nodes && y == ParentOf(c, root) && Before(c) == Before(c0)
        invariant if c.Top? then y.left == x else c.node != root && (y.left == x <==> c.d.Left?)
        decreases c
      {
        if y == root {
          return nil;
        }
        ZipUp(m, c, t, x);
        c, t := c.up, Mk(c.d, c.node, c.red, t, c.sib);
        x, y := y, y.parent;
        UpFocus(m, c, t, x);
      }
    }

    lemma UpFocus(m: Links, c: Ctx, t: Tree, p: Node)
      requires Focus(m, c, t, p) && t.Branch?
      ensures p in m && m[p].parent == ParentOf(c, root) && ParentOf(c, root) in m
      ensures c.Frame? ==> c.node != root
      ensures if c.Top? then m[root].right != p && m[root].left == p
              else (m[c.node].right == p <==> c.d.Right?) && (m[c.node].left == p <==> c.d.Left?)
    {
      RootIn(t);
      if c.Frame? {
        HolderIn(c);
        if c.sib.Branch? {
          RootIn(c.sib);
        }
      }
    }

    // ---------- deletion ----------

    lemma SplicedFocus(m: Links, c: Ctx, t: Tree, x: Node, xt: Tree)
      requires Focus(m, c, t, At(t)) && t.Branch? && (t.left.Leaf? || t.right.Leaf?)
      requires xt == (if t.left.Branch? then t.left else t.right) && x == At(xt)
      ensures var p, side := ParentOf(c, root), if c.Top? then Left else c.d;
        x in m && p in m && x != p && m[t.node].parent == p && (m[p].left == t.node <==> side.Left?) &&
        var m' := m[x := m[x].(parent := p)][p := m[p].SetKid(side, x)];
        Focus(m', c, xt, x) && m'[x].parent == p && t.node in m && m'[t.node] == m[t.node]
    {
      var n, p, side := t.node, ParentOf(c, root), if c.Top? then Left else c.d;
      UpFocus(m, c, t, n);
      RootIn(t);
      if xt.Branch? {
        RootIn(xt);
      }
      if c.Frame? {
        HolderIn(c);
      }
      assert Emb(m, t.left, m[n].left, n, nil) && Emb(m, t.right, m[n].right, n, nil);
      assert Emb(m, xt, x, n, nil);
      var m' := m[x := m[x].(parent := p)][p := m[p].SetKid(side, x)];
      Reparent(m, m', xt, x, n, p, nil);
      SwapHole(m, m', c, n, m[root].left, x, m'[root].left, root, nil);
    }

    /** Takes `y`, which has at most one child, out of its place. */
    method Splice(y: Node, ghost c: Ctx, ghost t: Tree) returns (x: Node)
      requires Focus(Links(), c, t, y) && t.Branch? && (t.left.Leaf? || t.right.Leaf?)
      modifies nodes
      ensures var xt := if t.left.Branch? then t.left else t.right;
              x == At(xt) && Focus(Links(), c, xt, x) && Links()[x].parent == ParentOf(c, root)
      ensures y in nodes && Links()[y] == old(Links()[y])
    {
      hide Nodes, CtxNodes, Distinct, CtxDistinct, Emb, EmbSeg;
      ghost var m := Links();
      AtFocus(m, c, t, y);
      KidColor(m, c, Left, y, t.red, t.left, t.right);
      ghost var xt := if t.left.Branch? then t.left else t.right;
      NilAt(m, c, t, y);
      SplicedFocus(m, c, t, At(xt), xt);
      x := if y.left != nil then y.left else y.right;
      assert y != root && y != nil;
      SetParent(x, y.parent);
      if y == y.parent.left {
        SetKid(y.parent, Left, x);
      } else {
        SetKid(y.parent, Right, x);
      }
    }

    lemma NilAt(m: Links, c: Ctx, t: Tree, p: Node)
      requires Focus(m, c, t, p) && t.Branch?
      ensures p != nil && p != root && (At(t.left) == nil <==> t.left.Leaf?) && (At(t.right) == nil <==> t.right.Leaf?)
    {
      RootIn(t);
      if t.left.Branch? {
        RootIn(t.left);
      }
      if t.right.Branch? {
        RootIn(t.right);
      }
    }

    /** The links after `y` has taken the place of `z`, whose right child is `q`. */
    function Transplanted(m: Links, y: Node, z: Node, q: Node, p: Node, side: Dir): Links
      requires z in m && p in m && q in m && m[z].left in m
    {
      var m1 := m[p := m[p].SetKid(side, y)];
      var m2 := m1[q := m1[q].(parent := y)];
      var m3 := m2[m[z].left := m2[m[z].left].(parent := y)];
      m3[y := m[z]]
    }

    /** The parts of a tree in which `y` is about to replace `z`. */
    ghost predicate Replaceable(m: Links, inner: Ctx, y: Node, z: Node, zr: bool, l: Tree, c: Ctx, xt: Tree, x: Node)
    {
      Focus(m, Append(inner, Frame(Right, z, zr, l, c)), xt, x) && l.Branch? && y in m && y != nil && y != root &&
      m[x].parent == ParentOf(Append(inner, Frame(Right, z, zr, l, c)), root) &&
      y !in CtxNodes(Append(inner, Frame(Right, z, zr, l, c))) && y !in Nodes(xt)
    }

    function RightOf(inner: Ctx, x: Node): Node { if inner.Top? then x else TopNode(inner) }

    lemma ReplaceParts(m: Links, inner: Ctx, y: Node, z: Node, zr: bool, l: Tree, c: Ctx, xt: Tree, x: Node)
      requires Replaceable(m, inner, y, z, zr, l, c, xt, x)
      ensures var q, p := RightOf(inner, x), ParentOf(c, root);
        z in m && p in m && q in m && l.node in m && m[z] == Cell(zr, p, l.node, q) &&
        EmbSeg(m, inner, x, q, z, nil) && Emb(m, l, l.node, z, nil) && EmbSeg(m, c, z, m[root].left, root, nil) &&
        (m[p].left == z <==> (c.Top? || c.d.Left?))
    {
      var outer := Frame(Right, z, zr, l, c);
      EmbSplit(m, inner, outer, x, m[root].left, root, nil);
      AppendNodes(inner, outer);
      AppendDistinct(inner, outer);
      if inner.Frame? {
        TopNodeIn(inner);
      }
      RootIn(l);
      if c.Frame? {
        HolderIn(c);
        if c.sib.Branch? {
          RootIn(c.sib);
        }
      }
      if xt.Branch? {
        RootIn(xt);
      }
    }

    /** What the transplant touches is kept apart from what it does not. */
    lemma ReplaceSeparate(m: Links, inner: Ctx, y: Node, z: Node, zr: bool, l: Tree, c: Ctx, xt: Tree, x: Node)
      requires Replaceable(m, inner, y, z, zr, l, c, xt, x)
      ensures CtxDistinct(inner) && CtxDistinct(c) && Distinct(l) && Distinct(xt)
      ensures z !in CtxNodes(inner) && z !in CtxNodes(c) && z !in Nodes(l) && z !in Nodes(xt)
      ensures y !in CtxNodes(inner) && y !in CtxNodes(c) && y !in Nodes(l) && y !in Nodes(xt) && y != z
      ensures CtxNodes(inner) !! CtxNodes(c) && CtxNodes(inner) !! Nodes(l) && CtxNodes(c) !! Nodes(l)
      ensures Nodes(xt) !! CtxNodes(inner) && Nodes(xt) !! CtxNodes(c) && Nodes(xt) !! Nodes(l)
      ensures {nil, root} !! (CtxNodes(inner) + CtxNodes(c) + Nodes(l) + Nodes(xt) + {y, z})
      ensures CtxNodes(inner) + CtxNodes(c) + Nodes(l) + Nodes(xt) + {y, z, nil, root} <= m.Keys
    {
      hide Nodes, Distinct, Emb, EmbSeg;
      AppendNodes(inner, Frame(Right, z, zr, l, c));
      AppendDistinct(inner, Frame(Right, z, zr, l, c));
    }

    lemma ReplaceTouched(m: Links, inner: Ctx, y: Node, z: Node, zr: bool, l: Tree, c: Ctx, xt: Tree, x: Node)
      requires Replaceable(m, inner, y, z, zr, l, c, xt, x)
      ensures var q, p := RightOf(inner, x), ParentOf(c, root);
        p == (if c.Top? then root else c.node) && (c.Frame? ==> p in CtxNodes(c)) && l.node in Nodes(l) &&
        (if inner.Frame? then q in CtxNodes(inner) else if xt.Branch? then q in Nodes(xt) && q == x else q == nil && q == x)
    {
      if inner.Frame? {
        TopNodeIn(inner);
      }
      RootIn(l);
      if c.Frame? {
        HolderIn(c);
      }
      if xt.Branch? {
        RootIn(xt);
      }
      AtFocus(m, Append(inner, Frame(Right, z, zr, l, c)), xt, x);
    }

    lemma TransplantedAbove(m: Links, inner: Ctx, y: Node, z: Node, zr: bool, l: Tree, c: Ctx, xt: Tree, x: Node)
      requires Replaceable(m, inner, y, z, zr, l, c, xt, x)
      ensures var q, p, side := RightOf(inner, x), ParentOf(c, root), if c.Top? then Left else c.d;
        z in m && p in m && q in m && m[z].left in m &&
        var m' := Transplanted(m, y, z, q, p, side);
        m'.Keys == m.Keys && m'[root] == m[root].(left := m'[root].left) && m'[nil].red == m[nil].red &&
        EmbSeg(m', inner, x, q, y, nil) && EmbSeg(m', Frame(Right, y, zr, l, c), q, m'[root].left, root, nil)
    {
      hide Nodes, CtxNodes, Distinct, CtxDistinct, Emb, EmbSeg, Agree;
      ReplaceParts(m, inner, y, z, zr, l, c, xt, x);
      ReplaceSeparate(m, inner, y, z, zr, l, c, xt, x);
      ReplaceTouched(m, inner, y, z, zr, l, c, xt, x);
      var q, p, side := RightOf(inner, x), ParentOf(c, root), if c.Top? then Left else c.d;
      var m' := Transplanted(m, y, z, q, p, side);
      SegReparent(m, m', inner, x, q, z, y, nil);
      Reparent(m, m', l, l.node, z, y, nil);
      SwapHole(m, m', c, z, m[root].left, y, m'[root].left, root, nil);
      SegFrame(m', Right, y, zr, l, c, q, m'[root].left, root, nil);
    }

    lemma TransplantedUnder(m: Links, inner: Ctx, y: Node, z: Node, zr: bool, l: Tree, c: Ctx, xt: Tree, x: Node)
      requires Replaceable(m, inner, y, z, zr, l, c, xt, x)
      ensures var q, p, side := RightOf(inner, x), ParentOf(c, root), if c.Top? then Left else c.d;
        z in m && p in m && q in m && m[z].left in m &&
        var m', c' := Transplanted(m, y, z, q, p, side), Append(inner, Frame(Right, y, zr, l, c));
        x in m' && m'[x].parent == ParentOf(c', root) && Emb(m', xt, x, ParentOf(c', root), nil)
    {
      hide Nodes, CtxNodes, Distinct, CtxDistinct, Emb, EmbSeg;
      ReplaceParts(m, inner, y, z, zr, l, c, xt, x);
      ReplaceSeparate(m, inner, y, z, zr, l, c, xt, x);
      ReplaceTouched(m, inner, y, z, zr, l, c, xt, x);
      var q, p, side := RightOf(inner, x), ParentOf(c, root), if c.Top? then Left else c.d;
      var m' := Transplanted(m, y, z, q, p, side);
      if inner.Top? {
        Reparent(m, m', xt, x, z, y, nil);
      } else {
        KeepEmb(m, m', xt, x, inner.node, nil);
      }
    }

    lemma TransplantedFocus(m: Links, inner: Ctx, y: Node, z: Node, zr: bool, l: Tree, c: Ctx, xt: Tree, x: Node)
      requires Replaceable(m, inner, y, z, zr, l, c, xt, x)
      ensures var q, p, side := RightOf(inner, x), ParentOf(c, root), if c.Top? then Left else c.d;
        z in m && p in m && q in m && m[z].left in m &&
        var m', c' := Transplanted(m, y, z, q, p, side), Append(inner, Frame(Right, y, zr, l, c));
        Focus(m', c', xt, x) && m'[x].parent == ParentOf(c', root)
    {
      hide Nodes, Distinct, Emb, EmbSeg;
      ReplaceSeparate(m, inner, y, z, zr, l, c, xt, x);
      TransplantedAbove(m, inner, y, z, zr, l, c, xt, x);
      TransplantedUnder(m, inner, y, z, zr, l, c, xt, x);
      var q, p, side := RightOf(inner, x), ParentOf(c, root), if c.Top? then Left else c.d;
      var m', outer := Transplanted(m, y, z, q, p, side), Frame(Right, y, zr, l, c);
      EmbAppend(m', inner, outer, x, q, m'[root].left, root, nil);
      AppendNodes(inner, outer);
      AppendDistinct(inner, outer);
    }

    method CopyCell(y: Node, z: Node)
      requires y in nodes && z in nodes
      modifies y
      ensures Links() == old(Links())[y := old(Links())[z]]
    {
      y.red, y.parent, y.left, y.right := z.red, z.parent, z.left, z.right;
    }

    /** The successor `y`, already spliced out, takes over the place, links and colour of `z`. */
    method Transplant(y: Node, z: Node, x: Node, ghost inner: Ctx, ghost zr: bool, ghost l: Tree, ghost c: Ctx, ghost xt: Tree)
      requires Replaceable(Links(), inner, y, z, zr, l, c, xt, x)
      modifies nodes
      ensures var c' := Append(inner, Frame(Right, y, zr, l, c));
              Focus(Links(), c', xt, x) && Links()[x].parent == ParentOf(c', root)
    {
      hide Nodes, CtxNodes, Distinct, CtxDistinct, Emb, EmbSeg;
      ghost var m := Links();
      TransplantedFocus(m, inner, y, z, zr, l, c, xt, x);
      ReplaceParts(m, inner, y, z, zr, l, c, xt, x);
      ReplaceSeparate(m, inner, y, z, zr, l, c, xt, x);
      ReplaceTouched(m, inner, y, z, zr, l, c, xt, x);
      ghost var q, p, side := RightOf(inner, x), ParentOf(c, root), if c.Top? then Left else c.d;
      assert z !in {p, q, l.node} && y != p;
      var d := if z == z.parent.left then Left else Right;
      assert d == side;
      SetKid(z.parent, d, y);
      assert Links()[z] == m[z];
      SetParent(z.right, y);
      SetParent(z.left, y);
      assert Links()[z] == m[z];
      CopyCell(y, z);
    }

    /** What rb_delete hands to the fixup: nothing missing, or one black node short at `x`. */
    ghost predicate Unlinked(m: Links, c: Ctx, t: Tree, x: Node, needFixup: bool)
    {
      Focus(m, c, t, x) && if needFixup then Short(m, c, t, x) else Mended(m, c, t)
    }

    /** rb_delete up to the fixup, for a node with at most one child. */
    method UnlinkHere(z: Node, ghost c: Ctx, ghost t: Tree) returns (x: Node, needFixup: bool, ghost xt: Tree)
      requires Focus(Links(), c, t, z) && t.Branch? && t.node == z && (t.left.Leaf? || t.right.Leaf?)
      requires RedBlack(t) && Fits(c, BlackHeight(t))
      modifies nodes
      ensures Unlinked(Links(), c, xt, x, needFixup)
      ensures exists i :: RemovedAt(Around(c, t), Around(c, xt), z, i)
    {
      hide Nodes, CtxNodes, Distinct, CtxDistinct, Emb, EmbSeg, Around, RemovedAt, Fits, RedBlack;
      SpliceFits(c, t);
      SpliceOrder(c, t);
      RootColor(Links(), c, t, z);
      x := Splice(z, c, t);
      xt := if t.left.Branch? then t.left else t.right;
      AtFocus(Links(), c, xt, x);
      needFixup := !z.red;
    }

    /** rb_delete up to the fixup, for a node with two children: its successor takes its place. */
    method UnlinkSuccessor(z: Node, ghost c: Ctx, ghost t: Tree)
      returns (x: Node, needFixup: bool, ghost c': Ctx, ghost xt: Tree)
      requires Focus(Links(), c, t, z) && t.Branch? && t.node == z && t.left.Branch? && t.right.Branch?
      requires RedBlack(Plug(c, t)) && !IsRed(Plug(c, t))
      modifies nodes
      ensures Unlinked(Links(), c', xt, x, needFixup)
      ensures exists i :: RemovedAt(InOrder(Plug(c, t)), Around(c', xt), z, i)
    {
      hide Nodes, CtxNodes, Distinct, CtxDistinct, Emb, EmbSeg, Around, InOrder, RemovedAt, Fits, RedBlack, Focus;
      ghost var cr, r := Descend(Links(), c, t, z, Right);
      var y;
      ghost var inner, u;
      y, inner, u := Extreme(Left, z.right, cr, r);
      AppendPlug(inner, cr, u);
      ghost var cy := Append(inner, cr);
      UnplugRedBlack(cy, u);
      SpliceFits(cy, u);
      xt := u.right;
      c' := Append(inner, Frame(Right, y, t.red, t.left, c));
      FitsRename(inner, Right, z, y, t.red, t.left, c, BlackHeight(xt) + (if u.red then 0 else 1));
      TransplantOrder(inner, y, z, t.red, t.left, c, u, xt);
      PlugAround(cy, u);
      RootColor(Links(), cy, u, y);
      NilAt(Links(), cy, u, y);
      FocusSeparate(Links(), cy, u, y);
      UnhookedRoot(cy, u);
      x := Splice(y, cy, u);
      needFixup := !y.red;
      Transplant(y, z, x, inner, t.red, t.left, c, xt);
      AtFocus(Links(), c', xt, x);
    }

    lemma PlugAround(c: Ctx, t: Tree)
      ensures InOrder(Plug(c, t)) == Around(c, t)
    {
      PlugInOrder(c, t);
    }

    lemma UnhookedRoot(c: Ctx, t: Tree)
      requires t.Branch? && Separate(c, t)
      ensures t.node !in CtxNodes(c) && t.node !in Nodes(t.left) && t.node !in Nodes(t.right)
    {
    }

    lemma MendedWhole(m: Links, c: Ctx, t: Tree)
      requires Mended(m, c, t)
      ensures var s := Plug(c, t);
              root in m && Focus(m, Top, s, m[root].left) && RedBlack(s) && !IsRed(s) && InOrder(s) == Around(c, t)
    {
      PlugInOrder(c, t);
      PlugRedBlack(c, t);
      ZipTop(m, c, t, At(t));
    }

    lemma RemovedShape(t: Tree, t': Tree, z: Node)
      requires Good(t) && Distinct(t) && RedBlack(t') && !IsRed(t') && exists i :: RemovedAt(InOrder(t), InOrder(t'), z, i)
      ensures Good(t') && Nodes(t') == Nodes(t) - {z}
    {
      hide InOrder, Nodes, Distinct;
      var i :| RemovedAt(InOrder(t), InOrder(t'), z, i);
      DistinctNoDup(t);
      RemovedGood(InOrder(t), InOrder(t'), z, i);
      InOrderNodes(t);
      InOrderNodes(t');
    }

    lemma RestrictFocus(m: Links, m': Links, t: Tree, p: Node)
      requires Focus(m, Top, t, p) && Agree(m, m', Nodes(t) + {nil, root})
      ensures Focus(m', Top, t, p)
    {
      KeepEmb(m, m', t, p, root, nil);
    }

    /** The node `z` is no longer part of the tree. */
    ghost method Forget(z: Node, t: Tree)
      requires root in nodes && Focus(Links(), Top, t, root.left) && Good(t)
      requires nodes - {z} == Nodes(t) + {nil, root}
      modifies this`shape, this`nodes
      ensures Valid() && shape == t && nodes == old(nodes) - {z}
    {
      ghost var m := Links();
      shape, nodes := t, nodes - {z};
      RestrictFocus(m, Links(), t, root.left);
    }

    /** rb_delete. */
    method Delete(node: Node)
      requires Valid() && node in nodes && node != nil && node != root
      modifies this, nodes
      ensures Valid() && nodes == old(nodes) - {node}
      ensures exists i :: RemovedAt(old(InOrder(shape)), InOrder(shape), node, i)
    {
      hide *;
      ghost var t0 := shape;
      ghost var c, t := FocusOn(node);
      DeleteReady(node, c, t);
      var x, needFixup;
      ghost var c', xt, s;
      if node.left == nil || node.right == nil {
        x, needFixup, xt := UnlinkHere(node, c, t);
        c' := c;
      } else {
        x, needFixup, c', xt := UnlinkSuccessor(node, c, t);
      }
      UnlinkedCases(Links(), c', xt, x, needFixup);
      if needFixup {
        s := DeleteFixup(x, c', xt);
      } else {
        s := Plug(c', xt);
        RootLink();
      }
      RemovedShape(t0, s, node);
      Forget(node, s);
    }

    lemma RootLink()
      requires root in nodes
      ensures Links()[root].left == root.left
    {
    }

    lemma UnlinkedCases(m: Links, c: Ctx, t: Tree, x: Node, needFixup: bool)
      requires Unlinked(m, c, t, x, needFixup)
      ensures needFixup ==> Short(m, c, t, x)
      ensures !needFixup ==> var s := Plug(c, t);
        root in m && Focus(m, Top, s, m[root].left) && RedBlack(s) && !IsRed(s) && InOrder(s) == Around(c, t)
    {
      if !needFixup {
        MendedWhole(m, c, t);
      }
    }

    lemma DeleteReady(z: Node, c: Ctx, t: Tree)
      requires Valid() && Focus(Links(), c, t, z) && t.Branch? && t.node == z && Plug(c, t) == shape
      ensures Good(shape) && Distinct(shape) && RedBlack(shape) && !IsRed(shape) && nodes == Nodes(shape) + {nil, root}
      ensures RedBlack(t) && Fits(c, BlackHeight(t)) && Around(c, t) == InOrder(shape)
      ensures z in nodes && z !in {nil, root} && (z.left == nil <==> t.left.Leaf?) && (z.right == nil <==> t.right.Leaf?)
    {
      PlugInOrder(c, t);
      UnplugRedBlack(c, t);
      KidColor(Links(), c, Left, z, t.red, t.left, t.right);
      NilAt(Links(), c, t, z);
    }

    // ---------- search and the checker ----------

    /** rb_search with a key: the matching node highest in the tree, if any. */
    method Search(key: int) returns (node: Node?, ghost c: Ctx, ghost t: Tree)
      requires Valid()
      ensures node == null <==> forall i :: 0 <= i < |InOrder(shape)| ==> InOrder(shape)[i].key != key
      ensures node != null ==> node in nodes && node.key == key && Plug(c, t) == shape && t.Branch? && t.node == node
      ensures node != null ==>
        (forall n :: n in Before(c) ==> n.key < key) && (forall n :: n in After(c) ==> key < n.key)
    {
      hide Valid, Focus, Plug, Sorted, InOrder, Around, Encloses;
      SearchStart();
      EnclosesTop(key);
      var x := root.left;
      c, t := Top, shape;
      SearchHere(c, t, x);
      while x != nil && x.key != key
        invariant Focus(Links(), c, t, x) && Plug(c, t) == shape && Encloses(c, key) && Sorted(InOrder(shape))
        decreases t
      {
        SearchHere(c, t, x);
        EnclosesDown(c, t, key);
        var d := if x.key > key then Left else Right;
        c, t := Descend(Links(), c, t, x, d);
        x := x.Kid(d);
      }
      SearchHere(c, t, x);
      EnclosesEnd(c, t, key);
      EnclosesIs(c, key);
      node := if x != nil then x else null;
    }

    /** check_tree: every assertion it makes holds, and it returns the black height. */
    method CheckTree(node: Node, ghost c: Ctx, ghost t: Tree) returns (hb: nat)
      requires Focus(Links(), c, t, node) && RedBlack(t) && Sorted(Around(c, t))
      ensures hb == BlackHeight(t)
      decreases t
    {
      hide Nodes, CtxNodes, Distinct, CtxDistinct, EmbSeg, Emb;
      ghost var m := Links();
      RootColor(m, c, t, node);
      NilFocus(m, c, t, node);
      if node == nil {
        assert !node.red;
        return 1;
      }
      AtFocus(m, c, t, node);
      ghost var cl, l := Descend(m, c, t, node, Left);
      ghost var cr, r := Descend(m, c, t, node, Right);
      CheckChild(m, c, t, cl, l, node, node.left);
      CheckChild(m, c, t, cr, r, node, node.right);
      if node.left != nil {
        assert node.key - node.left.key >= 0;
        assert node.left.parent == node;
      }
      if node.right != nil {
        assert node.key - node.right.key <= 0;
        assert node.right.parent == node;
      }
      if node.red {
        assert !node.left.red && !node.right.red;
      }
      var hbLeft := CheckTree(node.left, cl, l);
      var hbRight := CheckTree(node.right, cr, r);
      assert hbLeft == hbRight;
      hb := hbLeft;
      if !node.red {
        hb := hb + 1;
      }
    }

    lemma CheckChild(m: Links, c: Ctx, t: Tree, c': Ctx, t': Tree, n: Node, p: Node)
      requires Focus(m, c', t', p) && Sorted(Around(c, t)) && t.Branch? && t.node == n && Plug(c', t') == Plug(c, t)
      requires c'.Frame? && c'.node == n && t' == (if c'.d.Left? then t.left else t.right)
      ensures p in m && m[p].red == IsRed(t') && Sorted(Around(c', t')) && (p == nil <==> t'.Leaf?)
      ensures p != nil ==> m[p].parent == n && (if c'.d.Left? then p.key <= n.key else n.key <= p.key)
    {
      PlugInOrder(c, t);
      PlugInOrder(c', t');
      SortedSides(c, t);
      if t'.Branch? {
        assert InOrder(t')[|InOrder(t'.left)|] == t'.node;
        assert t'.node in InOrder(t');
      }
    }
  }
}
