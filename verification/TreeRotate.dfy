/** Rotations of binary trees: what they write, and the trees that result.  Splay trees
    and AVL trees rotate alike. */
module TreeRotate {
  import opened TreeShape

  // The four nodes a rotation touches: p, its parent q, p's inner child b and q's parent g.
  ghost predicate Around(h: Mem, p: Node, q: Node, b: Node?, g: Node?, w: Side) {
    var around :=
      p in h && q in h && One(b) + One(g) <= h.Keys && {p} !! {q} !! One(b) !! One(g) &&
      h[p].parent == q && h[p].gender == w && h[p].Link(RevWay(w)) == b &&
      h[q].parent == g && h[q].Link(w) == p && (g != null ==> h[q].gender != PARENT);
    around
  }

  // The nodes written to when p rises above its parent.
  ghost function Touched(p: Node): set<Node>
    reads p, p.parent
  {
    {p} + One(p.parent) + One(p.Link(RevWay(p.gender))) + if p.parent == null then {} else One(p.parent.parent)
  }

  // p has risen above q.
  ghost predicate Rewired(h: Mem, k: Mem, p: Node, q: Node, b: Node?, g: Node?, w: Side)
    requires p in h && q in h && One(b) + One(g) <= h.Keys
  {
    && p in k && q in k && One(b) + One(g) <= k.Keys
    && k[p] == h[p].With(PARENT, g).With(RevWay(w), q).(gender := h[q].gender)
    && k[q] == h[q].With(PARENT, p).With(w, b).(gender := RevWay(w))
    && (b != null ==> k[b] == h[b].With(PARENT, q).(gender := w))
    && (g != null ==> k[g] == h[g].With(h[q].gender, p))
  }

  // The subtree in place of the parent's, once the root of t has risen above the node of c.
  ghost function Rotated(c: Ctx, t: Tree): Tree
    requires c.Hole? && t.Bin?
  {
    var w := c.way;
    Fork(RevWay(w), t.node, Fork(w, c.node, Kid(t, RevWay(w)), c.sib), Kid(t, w))
  }

  lemma {:induction false} AroundAt(h: Mem, c: Ctx, t: Tree)
    requires Local(h, c, t) && t.Bin? && c.Hole?
    ensures Around(h, t.node, c.node, Root(Kid(t, RevWay(c.way))), UpNode(c.up), c.way)
  {
    Links(h, c, t);
    TreeKeys(h, t);
    CtxKeys(h, c, t.node);
    assert DistinctCtx(c) && DistinctCtx(c.up);
    assert h[c.node].Link(c.way) == t.node;
  }

  lemma {:induction false} RotatePieces(h: Mem, k: Mem, p: Node, q: Node, a: Tree, b: Tree, d: Tree, up: Ctx, w: Side)
    requires p in h && h[p].Link(w) == Root(a) && Under(h, Root(a), p, w) && IsTree(h, a)
    requires q in h && h[q].Link(RevWay(w)) == Root(d) && Under(h, Root(d), q, RevWay(w)) && IsTree(h, d)
    requires IsTree(h, b) && Distinct(b) && p != q
    requires IsCtx(h, up, q) && DistinctCtx(up)
    requires One(Root(b)) + One(UpNode(up)) <= h.Keys && Rewired(h, k, p, q, Root(b), UpNode(up), w)
    requires Same(h, k, Nodes(a)) && Same(h, k, Nodes(d)) && (b.Bin? ==> Same(h, k, Nodes(b.left) + Nodes(b.right)))
    requires up.Hole? ==> Same(h, k, CtxNodes(up.up) + Nodes(up.sib))
    ensures IsTree(k, Fork(RevWay(w), p, Fork(w, q, b, d), a)) && IsCtx(k, up, p)
  {
    Rehang(h, k, up, q, p);
    TreeSame(h, k, a);
    TreeSame(h, k, d);
    Reparent(h, k, b);
  }

  lemma {:induction false} RotateLifts(h: Mem, k: Mem, c: Ctx, t: Tree)
    requires Local(h, c, t) && t.Bin? && c.Hole?
    requires Around(h, t.node, c.node, Root(Kid(t, RevWay(c.way))), UpNode(c.up), c.way)
    requires Rewired(h, k, t.node, c.node, Root(Kid(t, RevWay(c.way))), UpNode(c.up), c.way)
    requires Same(h, k, h.Keys - {t.node, c.node} - One(Root(Kid(t, RevWay(c.way)))) - One(UpNode(c.up)))
    ensures Local(k, c.up, Rotated(c, t))
  {
    var w := c.way;
    var a, b := Kid(t, w), Kid(t, RevWay(w));
    var rest := h.Keys - {t.node, c.node} - One(Root(b)) - One(UpNode(c.up));
    RotateRest(h, c, t, rest);
    RotatedDistinct(c, t);
    SameSub(h, k, rest, Nodes(a));
    SameSub(h, k, rest, Nodes(c.sib));
    if b.Bin? { SameSub(h, k, rest, Nodes(b.left) + Nodes(b.right)); }
    if c.up.Hole? { SameSub(h, k, rest, CtxNodes(c.up.up) + Nodes(c.up.sib)); }
    RotatePieces(h, k, t.node, c.node, a, b, c.sib, c.up, w);
  }

  // The two subtrees of a tree, and its root.
  lemma {:induction false} KidParts(t: Tree, w: Side)
    requires t.Bin? && Distinct(t)
    ensures Distinct(Kid(t, w)) && Distinct(Kid(t, RevWay(w)))
    ensures Nodes(t) == Nodes(Kid(t, w)) + Nodes(Kid(t, RevWay(w))) + {t.node}
    ensures Nodes(Kid(t, w)) !! Nodes(Kid(t, RevWay(w))) !! {t.node}
    ensures Nodes(Kid(t, w)) + Nodes(Kid(t, RevWay(w))) == Nodes(t.left) + Nodes(t.right)
  {}

  lemma CtxParts(c: Ctx)
    requires c.Hole? && DistinctCtx(c)
    ensures DistinctCtx(c.up) && CtxNodes(c) == CtxNodes(c.up) + Nodes(c.sib) + {c.node}
    ensures c.node !in CtxNodes(c.up) + Nodes(c.sib)
  {}

  lemma {:induction false} LocalParts(h: Mem, c: Ctx, t: Tree)
    requires Local(h, c, t) && t.Bin?
    ensures Distinct(t) && DistinctCtx(c) && Nodes(t) <= h.Keys && CtxNodes(c) <= h.Keys && CtxNodes(c) !! Nodes(t)
  {
    TreeKeys(h, t);
    CtxKeys(h, c, t.node);
  }

  lemma {:induction false} RotateRest(h: Mem, c: Ctx, t: Tree, rest: set<Node>)
    requires Local(h, c, t) && t.Bin? && c.Hole?
    requires rest == h.Keys - {t.node, c.node} - One(Root(Kid(t, RevWay(c.way)))) - One(UpNode(c.up))
    ensures var a, b := Kid(t, c.way), Kid(t, RevWay(c.way));
            && Nodes(a) <= rest && Nodes(c.sib) <= rest && (b.Bin? ==> Nodes(b.left) + Nodes(b.right) <= rest)
            && (c.up.Hole? ==> CtxNodes(c.up.up) + Nodes(c.up.sib) <= rest)
            && Distinct(b) && t.node !in Nodes(b) && c.node !in Nodes(b)
            && One(Root(b)) + One(UpNode(c.up)) + {t.node, c.node} <= h.Keys
  {
    LocalParts(h, c, t);
    hide Nodes, Distinct, Local, CtxNodes, DistinctCtx, Kid;
    var b := Kid(t, RevWay(c.way));
    KidParts(t, c.way);
    CtxParts(c);
    if b.Bin? {
      KidParts(b, LEFT);
    }
    if c.up.Hole? {
      CtxParts(c.up);
    }
  }

  lemma {:induction false} RotatedDistinct(c: Ctx, t: Tree)
    requires c.Hole? && t.Bin? && Distinct(t) && DistinctCtx(c) && CtxNodes(c) !! Nodes(t)
    ensures var u := Rotated(c, t);
            Nodes(u) == Nodes(t) + {c.node} + Nodes(c.sib) && Distinct(u) && DistinctCtx(c.up) &&
                CtxNodes(c.up) !! Nodes(u)
  {}

  // A rotation keeps the nodes and their traversal order.
  lemma {:induction false} RotatedOrder(c: Ctx, t: Tree)
    requires c.Hole? && t.Bin?
    ensures Inorder(Plug(c.up, Rotated(c, t))) == Inorder(Plug(c, t))
    ensures Nodes(Plug(c.up, Rotated(c, t))) == Nodes(Plug(c, t))
    ensures Size(Rotated(c, t)) == Size(t) + 1 + Size(c.sib)
  {
    var u := Fork(c.way, c.node, t, c.sib);
    PlugInorder(c.up, u);
    PlugInorder(c.up, Rotated(c, t));
    PlugNodes(c.up, u);
    PlugNodes(c.up, Rotated(c, t));
    if c.way == LEFT {
      Turn(Inorder(t.left), [t.node], Inorder(t.right), [c.node], Inorder(c.sib));
    } else {
      Turn(Inorder(c.sib), [c.node], Inorder(t.left), [t.node], Inorder(t.right));
    }
  }

  lemma {:induction false} Turn<T>(a: seq<T>, b: seq<T>, c: seq<T>, d: seq<T>, e: seq<T>)
    ensures (a + b + c) + d + e == a + b + (c + d + e)
  {}

  // ---------- double rotations ----------

  // The six nodes a double rotation touches: r, its w-side child m, the inner child n of m
  // that rises above both, the children x and y of n, and the parent g of r.
  ghost predicate AroundTwo(h: Mem, r: Node, m: Node, n: Node, x: Node?, y: Node?, g: Node?, w: Side) {
    var around :=
      {r, m, n} + One(x) + One(y) + One(g) <= h.Keys && {r} !! {m} !! {n} !! One(x) !! One(y) !! One(g) &&
      h[r].Link(w) == m && h[m].Link(RevWay(w)) == n && h[n].Link(RevWay(w)) == x && h[n].Link(w) == y &&
      h[r].parent == g && (g != null ==> h[r].gender != PARENT);
    around
  }

  ghost predicate RewiredTwo(h: Mem, k: Mem, r: Node, m: Node, n: Node, x: Node?, y: Node?, g: Node?, w: Side)
    requires {r, m, n} + One(x) + One(y) + One(g) <= h.Keys
  {
    && {r, m, n} + One(x) + One(y) + One(g) <= k.Keys
    && k[n] == h[n].With(PARENT, g).With(RevWay(w), r).With(w, m).(gender := h[r].gender)
    && k[r] == h[r].With(PARENT, n).With(w, x).(gender := RevWay(w))
    && k[m] == h[m].With(PARENT, n).With(RevWay(w), y).(gender := w)
    && (x != null ==> k[x] == h[x].With(PARENT, r).(gender := w))
    && (y != null ==> k[y] == h[y].With(PARENT, m).(gender := RevWay(w)))
    && (g != null ==> k[g] == h[g].With(h[r].gender, n))
  }

  ghost predicate CanDouble(t: Tree, w: Side) {
    t.Bin? && Kid(t, w).Bin? && Kid(Kid(t, w), RevWay(w)).Bin?
  }

  ghost function DoubleRotated(t: Tree, w: Side): Tree
    requires CanDouble(t, w)
  {
    var v := Kid(t, w);
    var n := Kid(v, RevWay(w));
    Fork(RevWay(w), n.node, Fork(w, t.node, Kid(n, RevWay(w)), Kid(t, RevWay(w))),
        Fork(w, v.node, Kid(v, w), Kid(n, w)))
  }

  lemma {:induction false} AroundTwoAt(h: Mem, c: Ctx, t: Tree, w: Side)
    requires Local(h, c, t) && CanDouble(t, w)
    ensures var v := Kid(t, w); var n := Kid(v, RevWay(w));
            AroundTwo(h, t.node, v.node, n.node, Root(Kid(n, RevWay(w))), Root(Kid(n, w)), UpNode(c), w)
  {
    var v := Kid(t, w);
    var n := Kid(v, RevWay(w));
    Links(h, c, t);
    TreeKeys(h, t);
    CtxKeys(h, c, t.node);
    assert IsTree(h, v) && IsTree(h, n) && Distinct(v) && Distinct(n);
  }

  lemma {:induction false} DoublePieces(h: Mem, k: Mem, r: Node, m: Node, n: Node, a: Tree, x: Tree, y: Tree, d: Tree,
          c: Ctx, w: Side)
    requires r in h && h[r].Link(RevWay(w)) == Root(a) && Under(h, Root(a), r, RevWay(w)) && IsTree(h, a)
    requires m in h && h[m].Link(w) == Root(d) && Under(h, Root(d), m, w) && IsTree(h, d)
    requires n in h && IsTree(h, x) && IsTree(h, y) && Distinct(x) && Distinct(y)
    requires IsCtx(h, c, r) && DistinctCtx(c)
    requires One(Root(x)) + One(Root(y)) + One(UpNode(c)) <= h.Keys
    requires RewiredTwo(h, k, r, m, n, Root(x), Root(y), UpNode(c), w)
    requires Same(h, k, Nodes(a)) && Same(h, k, Nodes(d))
    requires x.Bin? ==> Same(h, k, Nodes(x.left) + Nodes(x.right))
    requires y.Bin? ==> Same(h, k, Nodes(y.left) + Nodes(y.right))
    requires c.Hole? ==> Same(h, k, CtxNodes(c.up) + Nodes(c.sib))
    ensures IsTree(k, Fork(RevWay(w), n, Fork(w, r, x, a), Fork(w, m, d, y))) && IsCtx(k, c, n)
  {
    Rehang(h, k, c, r, n);
    TreeSame(h, k, a);
    TreeSame(h, k, d);
    Reparent(h, k, x);
    Reparent(h, k, y);
    assert IsTree(k, Fork(w, r, x, a));
    assert IsTree(k, Fork(w, m, d, y));
  }

  lemma {:induction false} DoubleDistinct(c: Ctx, t: Tree, w: Side)
    requires CanDouble(t, w) && Distinct(t) && CtxNodes(c) !! Nodes(t)
    ensures Nodes(DoubleRotated(t, w)) == Nodes(t) && Distinct(DoubleRotated(t, w))
  {
    var v := Kid(t, w);
    var n := Kid(v, RevWay(w));
    assert Distinct(v) && Distinct(n);
    assert Distinct(Fork(w, t.node, Kid(n, RevWay(w)), Kid(t, RevWay(w))));
    assert Distinct(Fork(w, v.node, Kid(v, w), Kid(n, w)));
  }

  lemma {:induction false} DoubleLifts(h: Mem, k: Mem, c: Ctx, t: Tree, w: Side)
    requires Local(h, c, t) && CanDouble(t, w)
    requires var v := Kid(t, w); var n := Kid(v, RevWay(w)); var x := Root(Kid(n, RevWay(w))); var y := Root(Kid(n, w));
             && AroundTwo(h, t.node, v.node, n.node, x, y, UpNode(c), w)
             && RewiredTwo(h, k, t.node, v.node, n.node, x, y, UpNode(c), w)
             && Same(h, k, h.Keys - {t.node, v.node, n.node} - One(x) - One(y) - One(UpNode(c)))
    ensures Local(k, c, DoubleRotated(t, w))
  {
    var v := Kid(t, w);
    var n := Kid(v, RevWay(w));
    var a, d, x, y := Kid(t, RevWay(w)), Kid(v, w), Kid(n, RevWay(w)), Kid(n, w);
    var rest := h.Keys - {t.node, v.node, n.node} - One(Root(x)) - One(Root(y)) - One(UpNode(c));
    DoubleRest(h, c, t, w, rest);
    SameSub(h, k, rest, Nodes(a));
    SameSub(h, k, rest, Nodes(d));
    if x.Bin? { SameSub(h, k, rest, Nodes(x.left) + Nodes(x.right)); }
    if y.Bin? { SameSub(h, k, rest, Nodes(y.left) + Nodes(y.right)); }
    if c.Hole? { SameSub(h, k, rest, CtxNodes(c.up) + Nodes(c.sib)); }
    assert IsTree(h, v) && IsTree(h, n) && Distinct(v) && Distinct(n);
    DoublePieces(h, k, t.node, v.node, n.node, a, x, y, d, c, w);
    DoubleDistinct(c, t, w);
  }

  // Of the nodes below, a double rotation touches none but five.
  lemma {:induction false} DoubleInside(t: Tree, w: Side, touched: set<Node>)
    requires CanDouble(t, w) && Distinct(t)
    requires var v := Kid(t, w); var n := Kid(v, RevWay(w));
             touched == {t.node, v.node, n.node} + One(Root(Kid(n, RevWay(w)))) + One(Root(Kid(n, w)))
    ensures var v := Kid(t, w); var n := Kid(v, RevWay(w)); var x := Kid(n, RevWay(w)); var y := Kid(n, w);
            && Nodes(Kid(t, RevWay(w))) <= Nodes(t) - touched && Nodes(Kid(v, w)) <= Nodes(t) - touched
            && (x.Bin? ==> Nodes(x.left) + Nodes(x.right) <= Nodes(t) - touched)
            && (y.Bin? ==> Nodes(y.left) + Nodes(y.right) <= Nodes(t) - touched)
            && touched <= Nodes(t)
  {
    hide Nodes, Distinct;
    var v := Kid(t, w);
    var n := Kid(v, RevWay(w));
    var x, y := Kid(n, RevWay(w)), Kid(n, w);
    KidParts(t, w);
    KidParts(v, w);
    KidParts(n, w);
    if x.Bin? {
      KidParts(x, LEFT);
    }
    if y.Bin? {
      KidParts(y, LEFT);
    }
  }

  lemma {:induction false} DoubleRest(h: Mem, c: Ctx, t: Tree, w: Side, rest: set<Node>)
    requires Local(h, c, t) && CanDouble(t, w)
    requires var v := Kid(t, w); var n := Kid(v, RevWay(w));
             rest == h.Keys - {t.node, v.node, n.node}
                 - One(Root(Kid(n, RevWay(w)))) - One(Root(Kid(n, w))) - One(UpNode(c))
    ensures var v := Kid(t, w); var n := Kid(v, RevWay(w)); var x := Kid(n, RevWay(w)); var y := Kid(n, w);
            && Nodes(Kid(t, RevWay(w))) <= rest && Nodes(Kid(v, w)) <= rest
            && (x.Bin? ==> Nodes(x.left) + Nodes(x.right) <= rest)
            && (y.Bin? ==> Nodes(y.left) + Nodes(y.right) <= rest)
            && (c.Hole? ==> CtxNodes(c.up) + Nodes(c.sib) <= rest)
  {
    LocalParts(h, c, t);
    hide Nodes, Distinct, Local, CtxNodes, DistinctCtx, Kid;
    var v := Kid(t, w);
    var n := Kid(v, RevWay(w));
    var touched := {t.node, v.node, n.node} + One(Root(Kid(n, RevWay(w)))) + One(Root(Kid(n, w)));
    DoubleInside(t, w, touched);
    assert rest == h.Keys - touched - One(UpNode(c));
    if c.Hole? {
      CtxParts(c);
    }
  }

  lemma {:induction false} DoubleOrder(t: Tree, w: Side)
    requires CanDouble(t, w)
    ensures Inorder(DoubleRotated(t, w)) == Inorder(t)
  {
    var v := Kid(t, w);
    var n := Kid(v, RevWay(w));
    assert Inorder(n) == Inorder(n.left) + [n.node] + Inorder(n.right);
    assert Inorder(v) == Inorder(v.left) + [v.node] + Inorder(v.right);
    assert Inorder(Fork(w, t.node, Kid(n, RevWay(w)), Kid(t, RevWay(w))))
        == if w == LEFT then Inorder(n.right) + [t.node] + Inorder(t.right)
            else Inorder(t.left) + [t.node] + Inorder(n.left);
    assert Inorder(Fork(w, v.node, Kid(v, w), Kid(n, w)))
        == if w == LEFT then Inorder(v.left) + [v.node] + Inorder(n.left)
            else Inorder(n.right) + [v.node] + Inorder(v.right);
    if w == LEFT {
      TurnTwo(Inorder(v.left), [v.node], Inorder(n.left), [n.node], Inorder(n.right), [t.node], Inorder(t.right));
    } else {
      TurnTwo(Inorder(t.left), [t.node], Inorder(n.left), [n.node], Inorder(n.right), [v.node], Inorder(v.right));
    }
  }

  lemma {:induction false} TurnTwo<T>(a: seq<T>, b: seq<T>, c: seq<T>, d: seq<T>, e: seq<T>, f: seq<T>, g: seq<T>)
    ensures (a + b + c) + d + (e + f + g) == (a + b + (c + d + e)) + f + g
    ensures (a + b + c) + d + (e + f + g) == a + b + ((c + d + e) + f + g)
  {}
}
