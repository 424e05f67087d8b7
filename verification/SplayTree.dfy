/** ubi_SplayTree.c: bottom-up splaying over the plain binary tree. */
module SplayTree {
  import opened TreeShape
  import opened TreeOrder
  import opened TreeWalk
  import opened TreeEdit
  import opened BinTree
  import opened TreeRotate
  import opened Ranks

  // ---------- one rotation ----------

  method Rotate(p: Node, ghost s: set<Node>, ghost q: Node?, ghost b: Node?, ghost g: Node?)
    requires p in s && p.parent == q && (q == null <==> p.gender == PARENT)
    requires q != null ==> Around(Snap(s), p, q, b, g, p.gender)
    modifies Touched(p)`left, Touched(p)`parent, Touched(p)`right, Touched(p)`gender
    ensures q == null ==> p.Fields() == old(p.Fields())
    ensures q != null ==> Rewired(old(Snap(s)), Snap(s), p, q, b, g, old(p.gender))
  {
    var parentp := p.parent;
    if parentp != null {
      var way := p.gender;
      var revway := RevWay(way);
      var tmp := p.Link(revway);
      parentp.SetLink(way, tmp);
      if tmp != null {
        tmp.parent := parentp;
        tmp.gender := way;
      }
      tmp := parentp.parent;
      p.parent := tmp;
      p.gender := parentp.gender;
      if tmp != null {
        tmp.SetLink(p.gender, p);
      }
      parentp.parent := p;
      parentp.gender := revway;
      p.SetLink(revway, parentp);
      assert p.Fields() == old(p.Fields()).With(PARENT, g).With(revway, q).(gender := old(q.gender));
      assert q.Fields() == old(q.Fields()).With(PARENT, p).With(way, b).(gender := revway);
      assert b != null ==> b.Fields() == old(b.Fields()).With(PARENT, q).(gender := way);
      assert g != null ==> g.Fields() == old(g.Fields()).With(old(q.gender), p);
    }
  }

  // Rotate at a place of the tree.
  method RotateAt(p: Node, ghost s: set<Node>, ghost c: Ctx, ghost t: Tree)
    requires Local(Snap(s), c, t) && t.Bin? && t.node == p && c.Hole?
    modifies s`left, s`parent, s`right, s`gender
    ensures Local(Snap(s), c.up, Rotated(c, t))
  {
    hide Local, Rotated, IsCtx;
    ghost var h := Snap(s);
    ghost var q, b, g := c.node, Root(Kid(t, RevWay(c.way))), UpNode(c.up);
    AroundAt(h, c, t);
    hide Local;
    Rotate(p, s, q, b, g);
    assert Same(h, Snap(s), h.Keys - {p, q} - One(b) - One(g));
    RotateLifts(h, Snap(s), c, t);
  }

  // ---------- splaying, and what it costs ----------

  ghost function Rank(t: Tree): nat
    requires t.Bin?
  {
    Log2(Size(t))
  }

  // The potential of a splay tree: the ranks of all its subtrees.
  ghost function Potential(t: Tree): nat {
    match t
    case Nil => 0
    case Bin(l, n, r) => Potential(l) + Rank(t) + Potential(r)
  }

  lemma {:induction false} ForkMeasures(w: Side, n: Node, a: Tree, b: Tree)
    ensures Size(Fork(w, n, a, b)) == Size(a) + 1 + Size(b)
    ensures Potential(Fork(w, n, a, b)) == Potential(a) + Potential(b) + Log2(Size(a) + 1 + Size(b))
    ensures Nodes(Fork(w, n, a, b)) == Nodes(a) + {n} + Nodes(b)
  {}

  lemma {:induction false} KidMeasures(t: Tree, w: Side)
    requires t.Bin?
    ensures Size(t) == Size(Kid(t, w)) + 1 + Size(Kid(t, RevWay(w)))
    ensures Potential(t) == Potential(Kid(t, w)) + Potential(Kid(t, RevWay(w))) + Rank(t)
  {}

  lemma {:induction false} PlugPotential(c: Ctx, t: Tree, u: Tree)
    requires Size(t) == Size(u)
    ensures Potential(Plug(c, t)) - Potential(t) == Potential(Plug(c, u)) - Potential(u)
    ensures Size(Plug(c, t)) == Size(Plug(c, u))
  {
    match c
    case Top =>
    case Hole(up, w, n, sib) =>
      ForkMeasures(w, n, t, sib);
      ForkMeasures(w, n, u, sib);
      PlugPotential(up, Fork(w, n, t, sib), Fork(w, n, u, sib));
  }

  // One single rotation below the root.
  lemma {:induction false} ZigCost(c: Ctx, t: Tree)
    requires c.Hole? && t.Bin?
    ensures var u := Rotated(c, t);
            1 + Potential(Plug(c.up, u)) + 3 * Rank(t) <= Potential(Plug(c, t)) + 3 * Rank(u) + 1
  {
    var w := c.way;
    var a, b, d := Kid(t, w), Kid(t, RevWay(w)), c.sib;
    var v := Fork(w, c.node, b, d);
    KidMeasures(t, w);
    ForkMeasures(w, c.node, t, d);
    ForkMeasures(w, c.node, b, d);
    ForkMeasures(RevWay(w), t.node, v, a);
    PlugPotential(c.up, Fork(w, c.node, t, d), Rotated(c, t));
    var z := Size(t) + 1 + Size(d);
    Log2Monotone(Size(t), z);
    Log2Monotone(Size(v), z);
  }

  // Two rotations, the first one at the parent: node and parent are children of the same side.
  ghost function ZigZig(c: Ctx, t: Tree): (Ctx, Tree)
    requires c.Hole? && c.up.Hole? && c.up.way == c.way && t.Bin?
  {
    var w, u := c.way, Rotated(c.up, Fork(c.way, c.node, t, c.sib));
    (Hole(c.up.up, w, u.node, Kid(u, RevWay(w))), Kid(u, w))
  }

  lemma {:induction false} ZigZigCost(c: Ctx, t: Tree)
    requires c.Hole? && c.up.Hole? && c.up.way == c.way && t.Bin?
    ensures ZigZig(c, t).1 == t
    ensures var u := Rotated(ZigZig(c, t).0, t);
            1 + Potential(Plug(c.up.up, u)) + 3 * Rank(t) <= Potential(Plug(c, t)) + 3 * Rank(u)
  {
    var w, p, q, g := c.way, t.node, c.node, c.up.node;
    var a, b, d, e := Kid(t, w), Kid(t, RevWay(w)), c.sib, c.up.sib;
    var old1 := Fork(w, q, t, d);
    var old2 := Fork(w, g, old1, e);
    var new2 := Fork(w, g, d, e);
    var new1 := Fork(w, q, b, new2);
    KidMeasures(t, w);
    ForkMeasures(w, q, t, d);
    ForkMeasures(w, g, old1, e);
    ForkMeasures(w, g, d, e);
    ForkMeasures(RevWay(w), q, new2, b);
    ForkMeasures(RevWay(w), p, Fork(RevWay(w), q, new2, b), a);
    DoubleRotation(Size(t), Size(old1), Size(old2), Size(Fork(RevWay(w), q, new2, b)), Size(new2));
    PlugPotential(c.up.up, old2, Rotated(ZigZig(c, t).0, t));
  }

  lemma {:induction false} ZigZagCost(c: Ctx, t: Tree)
    requires c.Hole? && c.up.Hole? && c.up.way != c.way && t.Bin?
    ensures var u := Rotated(c.up, Rotated(c, t));
            1 + Potential(Plug(c.up.up, u)) + 3 * Rank(t) <= Potential(Plug(c, t)) + 3 * Rank(u)
  {
    var w, p, q, g := c.way, t.node, c.node, c.up.node;
    var a, b, d, e := Kid(t, w), Kid(t, RevWay(w)), c.sib, c.up.sib;
    var old1 := Fork(w, q, t, d);
    var old2 := Fork(RevWay(w), g, old1, e);
    var newQ, newG := Fork(w, q, b, d), Fork(RevWay(w), g, a, e);
    KidMeasures(t, w);
    ForkMeasures(w, q, t, d);
    ForkMeasures(RevWay(w), g, old1, e);
    ForkMeasures(w, q, b, d);
    ForkMeasures(RevWay(w), g, a, e);
    ForkMeasures(w, p, newG, newQ);
    DoubleRotation(Size(t), Size(old1), Size(old2), Size(newQ), Size(newG));
    assert Rotated(c.up, Rotated(c, t)) == Fork(w, p, newG, newQ);
    PlugPotential(c.up.up, old2, Rotated(c.up, Rotated(c, t)));
  }

  // Where the node stands after the first half of an iteration: a rotation at the parent
  // (zig-zig), one at the node itself (zig-zag), or none (zig).
  ghost function HalfWay(c: Ctx, t: Tree): (f: (Ctx, Tree))
    requires c.Hole? && t.Bin?
    ensures f.0.Hole? && f.1.Bin? && f.1.node == t.node
  {
    if c.up.Top? then (c, t) else if c.up.way == c.way then ZigZig(c, t) else (c.up, Rotated(c, t))
  }

  lemma {:induction false} HalfWayOrder(c: Ctx, t: Tree)
    requires c.Hole? && t.Bin?
    ensures
      var f := HalfWay(c, t);
      Inorder(Plug(f.0, f.1)) == Inorder(Plug(c, t)) && Nodes(Plug(f.0, f.1)) == Nodes(Plug(c, t))
  {
    if c.up.Hole? {
      if c.up.way == c.way {
        var v := Fork(c.way, c.node, t, c.sib);
        RotatedOrder(c.up, v);
        assert Plug(HalfWay(c, t).0, HalfWay(c, t).1) == Plug(c.up.up, Rotated(c.up, v));
      } else {
        RotatedOrder(c, t);
      }
    }
  }

  // What one iteration makes of the place c of the node's subtree t.
  ghost function Risen(c: Ctx, t: Tree): (f: (Ctx, Tree))
    requires c.Hole? && t.Bin?
    ensures f.0 < c && f.1.Bin? && f.1.node == t.node
  {
    (HalfWay(c, t).0.up, Rotated(HalfWay(c, t).0, HalfWay(c, t).1))
  }

  // What a whole splay makes of it, and the number of its iterations.
  ghost function Splayed(c: Ctx, t: Tree): (u: Tree)
    requires t.Bin?
    ensures u.Bin? && u.node == t.node
    decreases c
  {
    if c.Top? then t else Splayed(Risen(c, t).0, Risen(c, t).1)
  }

  ghost function Rounds(c: Ctx, t: Tree): nat
    requires t.Bin?
    decreases c
  {
    if c.Top? then 0 else 1 + Rounds(Risen(c, t).0, Risen(c, t).1)
  }

  // Every iteration but perhaps the last goes up two links.
  lemma {:induction false} RoundsHalve(c: Ctx, t: Tree)
    requires t.Bin?
    ensures Rounds(c, t) == (Levels(c) + 1) / 2
    decreases c
  {
    if c.Hole? {
      RoundsHalve(Risen(c, t).0, Risen(c, t).1);
    }
  }

  // The amortised account of a splay under way: what the iterations so far and the change
  // of potential may add up to.
  ghost predicate Account(iterations: nat, T: Tree, rank: nat, c: Ctx, t: Tree)
    requires t.Bin?
  {
    var account := iterations + Potential(Plug(c, t)) + 3 * rank <= Potential(T) + 3 * Rank(t) +
        (if c.Top? then 1 else 0);
    account
  }

  lemma {:induction false} SplayStep(iterations: nat, T: Tree, rank: nat, c: Ctx, t: Tree)
    requires c.Hole? && t.Bin? && Account(iterations, T, rank, c, t)
    ensures var f := Risen(c, t);
            && f.1.Bin? && f.1.node == t.node && Account(iterations + 1, T, rank, f.0, f.1) && f.0 < c
            && Inorder(Plug(f.0, f.1)) == Inorder(Plug(c, t)) && Nodes(Plug(f.0, f.1)) == Nodes(Plug(c, t))
  {
    HalfWayOrder(c, t);
    RotatedOrder(HalfWay(c, t).0, HalfWay(c, t).1);
    if c.up.Top? {
      ZigCost(c, t);
    } else if c.up.way == c.way {
      ZigZigCost(c, t);
    } else {
      ZigZagCost(c, t);
    }
  }

  lemma {:induction false} SplayedAccount(iterations: nat, T: Tree, rank: nat, c: Ctx, t: Tree)
    requires t.Bin? && Account(iterations, T, rank, c, t)
    ensures Account(iterations + Rounds(c, t), T, rank, Top, Splayed(c, t))
    ensures Inorder(Splayed(c, t)) == Inorder(Plug(c, t)) && Nodes(Splayed(c, t)) == Nodes(Plug(c, t))
    decreases c
  {
    if c.Hole? {
      hide Account, Inorder, Nodes, Risen;
      SplayStep(iterations, T, rank, c, t);
      SplayedAccount(iterations + 1, T, rank, Risen(c, t).0, Risen(c, t).1);
    }
  }

  // The amortised bound: the iterations and the change of potential together.
  lemma {:induction false} SplayedCost(c: Ctx, t: Tree)
    requires t.Bin?
    ensures Inorder(Splayed(c, t)) == Inorder(Plug(c, t)) && Nodes(Splayed(c, t)) == Nodes(Plug(c, t))
    ensures Size(Splayed(c, t)) == Size(Plug(c, t)) > 0
    ensures Rounds(c, t) + Potential(Splayed(c, t)) <= Potential(Plug(c, t)) + 3 * Log2(Size(Plug(c, t))) + 1
  {
    SplayedAccount(0, Plug(c, t), Rank(t), c, t);
    InorderNodes(Splayed(c, t));
    InorderNodes(Plug(c, t));
  }

  // What a splay makes of a whole tree, and how many iterations it takes.
  ghost function SplayedAt(T: Tree, n: Node): (T1: Tree)
    requires n in Nodes(T)
    ensures T1.Bin? && T1.node == n && Nodes(T1) == Nodes(T)
  {
    SplayedCost(Place(T, n).0, Place(T, n).1);
    Splayed(Place(T, n).0, Place(T, n).1)
  }

  ghost function HalfDepth(T: Tree, n: Node): nat
    requires n in Nodes(T)
  {
    (Depth(T, n) + 1) / 2
  }

  lemma {:induction false} PlaceRounds(T: Tree, n: Node)
    requires n in Nodes(T)
    ensures Rounds(Place(T, n).0, Place(T, n).1) == HalfDepth(T, n)
  {
    RoundsHalve(Place(T, n).0, Place(T, n).1);
    PlaceDepth(Top, T, n);
  }

  // One iteration of the loop.
  method RiseOnce(SplayWithMe: Node, ghost s: set<Node>, ghost c: Ctx, ghost t: Tree)
    requires t.Bin? && t.node == SplayWithMe && Local(Snap(s), c, t) && c.Hole?
    modifies s`left, s`parent, s`right, s`gender
    ensures Local(Snap(s), Risen(c, t).0, Risen(c, t).1)
  {
    ghost var f := HalfWay(c, t);
    Links(Snap(s), c, t);
    var parent := SplayWithMe.parent;
    if parent.gender == SplayWithMe.gender {
      // Zig-Zig
      ghost var v := Fork(c.way, c.node, t, c.sib);
      Up(Snap(s), c, t);
      RotateAt(parent, s, c.up, v);
      Down(Snap(s), c.up.up, Rotated(c.up, v), c.way);
    } else {
      if parent.gender != EQUAL {
        // Zig-Zag
        RotateAt(SplayWithMe, s, c, t);
      }
    }
    // Zig
    RotateAt(SplayWithMe, s, f.0, f.1);
  }

  method Splay(SplayWithMe: Node, ghost c0: Ctx, ghost t0: Tree)
          returns (root: Node, ghost T1: Tree, ghost iterations: nat)
    requires t0.Bin? && t0.node == SplayWithMe && Whole(Snap(Nodes(Plug(c0, t0))), Plug(c0, t0))
    modifies Nodes(Plug(c0, t0))`left, Nodes(Plug(c0, t0))`parent, Nodes(Plug(c0, t0))`right, Nodes(Plug(c0, t0))`gender
    ensures T1 == Splayed(c0, t0) && iterations == Rounds(c0, t0) && root == SplayWithMe
    ensures Nodes(T1) == Nodes(Plug(c0, t0)) && Whole(Snap(Nodes(T1)), T1)
  {
    ghost var s, c, t := Nodes(Plug(c0, t0)), c0, t0;
    WholeIffLocal(Snap(s), c, t);
    hide Local, Nodes, Whole, Risen, Inorder, Potential, Size, Log2;
    Links(Snap(s), c, t);
    iterations := 0;
    while SplayWithMe.parent != null
      invariant t.Bin? && t.node == SplayWithMe && Local(Snap(s), c, t) && (SplayWithMe.parent != null <==> c.Hole?)
      invariant Splayed(c, t) == Splayed(c0, t0) && iterations + Rounds(c, t) == Rounds(c0, t0)
      decreases c
    {
      RiseOnce(SplayWithMe, s, c, t);
      iterations := iterations + 1;
      c, t := Risen(c, t).0, Risen(c, t).1;
      Links(Snap(s), c, t);
    }
    root := SplayWithMe;
    T1 := t;
    SplayedCost(c0, t0);
    WholeIffLocal(Snap(s), c, t);
  }

  // ---------- the exported operations ----------

  method SplayAt(hdr: TreeRoot, SplayMe: Node) returns (ghost iterations: nat)
    requires hdr.Shape() && SplayMe in Nodes(hdr.tree)
    modifies hdr`root, hdr`tree, Nodes(hdr.tree)`left, Nodes(hdr.tree)`parent, Nodes(hdr.tree)`right,
        Nodes(hdr.tree)`gender
    ensures hdr.Shape() && hdr.root == SplayMe
    ensures Inorder(hdr.tree) == old(Inorder(hdr.tree)) && Nodes(hdr.tree) == old(Nodes(hdr.tree))
    ensures hdr.tree == SplayedAt(old(hdr.tree), SplayMe) && iterations == HalfDepth(old(hdr.tree), SplayMe)
    ensures iterations + Potential(hdr.tree) <= old(Potential(hdr.tree)) + 3 * Log2(old(Size(hdr.tree))) + 1
  {
    var root;
    ghost var T1;
    ghost var c, t := Place(hdr.tree, SplayMe).0, Place(hdr.tree, SplayMe).1;
    SplayedCost(c, t);
    PlaceRounds(hdr.tree, SplayMe);
    root, T1, iterations := Splay(SplayMe, c, t);
    hdr.root := root;
    hdr.tree := T1;
  }

  // The tree after a run of splays, and the iterations of all of them.
  ghost function SplayedAll(T: Tree, targets: seq<Node>): (f: (Tree, nat))
    requires forall n <- targets :: n in Nodes(T)
    ensures Nodes(f.0) == Nodes(T)
  {
    if targets == [] then (T, 0) else
      var f, n := SplayedAll(T, targets[..|targets| - 1]), targets[|targets| - 1];
      (SplayedAt(f.0, n), f.1 + HalfDepth(f.0, n))
  }

  lemma SplayedMore(T: Tree, targets: seq<Node>, i: nat)
    requires i <= |targets| && forall n <- targets :: n in Nodes(T)
    ensures i == 0 ==> SplayedAll(T, targets[..i]) == (T, 0)
    ensures i < |targets| ==> var f := SplayedAll(T, targets[..i]);
              SplayedAll(T, targets[..i + 1]) == (SplayedAt(f.0, targets[i]), f.1 + HalfDepth(f.0, targets[i]))
    ensures i == |targets| ==> targets[..i] == targets
  {
    if i < |targets| {
      assert targets[..i + 1][..i] == targets[..i];
    }
  }

  // Any run of splays: all its iterations together cost what the bound says for each one, plus
  // the potential there was to begin with.
  method SplayAll(hdr: TreeRoot, targets: seq<Node>) returns (ghost total: nat)
    requires hdr.Shape() && forall n <- targets :: n in Nodes(hdr.tree)
    modifies hdr`root, hdr`tree, Nodes(hdr.tree)`left, Nodes(hdr.tree)`parent, Nodes(hdr.tree)`right,
        Nodes(hdr.tree)`gender
    ensures hdr.Shape() && Inorder(hdr.tree) == old(Inorder(hdr.tree))
    ensures (hdr.tree, total) == SplayedAll(old(hdr.tree), targets)
    ensures total + Potential(hdr.tree) <= old(Potential(hdr.tree)) + |targets| * (3 * Log2(old(hdr.count) + 1) + 1)
  {
    hide Inorder, Nodes, Potential, Whole, Size, Log2, SplayedAt, HalfDepth, SplayedAll;
    total := 0;
    ghost var T := hdr.tree;
    SplayedMore(T, targets, 0);
    ghost var bound := 3 * Log2(hdr.count + 1) + 1;
    ghost var start := Potential(hdr.tree);
    for i := 0 to |targets|
      invariant hdr.Shape() && Inorder(hdr.tree) == old(Inorder(hdr.tree)) && Nodes(hdr.tree) == old(Nodes(hdr.tree))
      invariant hdr.count == old(hdr.count) && total + Potential(hdr.tree) <= start + i * bound
      invariant (hdr.tree, total) == SplayedAll(T, targets[..i])
    {
      SplayedMore(T, targets, i);
      ghost var before := Potential(hdr.tree);
      NotEmpty(hdr, targets[i]);
      ghost var iterations := SplayAt(hdr, targets[i]);
      total := total + iterations;
      OneMore(i, bound);
    }
    SplayedMore(T, targets, |targets|);
  }

  lemma {:induction false} NotEmpty(hdr: TreeRoot, n: Node)
    requires hdr.Shape() && n in Nodes(hdr.tree)
    ensures Size(hdr.tree) == hdr.count > 0 && Log2(hdr.count) <= Log2(hdr.count + 1)
  {
    Log2Monotone(hdr.count, hdr.count + 1);
  }

  lemma OneMore(i: nat, bound: nat)
    ensures (i + 1) * bound == i * bound + bound
  {}

  // One node more in a subtree raises the ranks above it where a size reaches a power of two.
  lemma {:induction false} GrowthCost(c: Ctx, t: Tree, u: Tree)
    requires Size(u) == Size(t) + 1
    ensures Size(Plug(c, u)) == Size(Plug(c, t)) + 1
    ensures Potential(Plug(c, u)) - Potential(u) + Log2(Size(u))
         <= Potential(Plug(c, t)) - Potential(t) + Log2(Size(Plug(c, u)))
  {
    match c
    case Top =>
    case Hole(up, w, n, sib) =>
      var t1, u1 := Fork(w, n, t, sib), Fork(w, n, u, sib);
      ForkMeasures(w, n, t, sib);
      ForkMeasures(w, n, u, sib);
      GrowthCost(up, t1, u1);
      Log2Monotone(Size(u), Size(t1));
  }

  // What an insertion itself does to the potential, before the splay.
  lemma {:induction false} InsertedCost(T: Tree, T0: Tree, c: Ctx, u: Tree, o: Node?, n: Node, cmp: Cmp, dups: bool)
    requires if o == null then Grown(T, T0, c, n, cmp, dups) else Overwritten(T, T0, c, u, o, n, cmp)
    ensures Size(T0) == Size(T) + if o == null then 1 else 0
    ensures Potential(T0) <= Potential(T) + Log2(Size(T) + 1)
  {
    if o == null {
      GrowthCost(c, Nil, Bin(Nil, n, Nil));
    } else {
      PlugPotential(c, u, Bin(u.left, n, u.right));
    }
  }

  method Insert(hdr: TreeRoot, NewNode: Node, ItemPtr: int)
    returns (ok: bool, OldNode: Node?, ghost c: Ctx, ghost u: Tree, ghost T0: Tree, ghost iterations: nat)
    requires hdr.Valid() && NewNode !in Nodes(hdr.tree) && ItemPtr == NewNode.key
    modifies hdr`root, hdr`count, hdr`tree
    modifies Nodes(hdr.tree)`left, Nodes(hdr.tree)`parent, Nodes(hdr.tree)`right, Nodes(hdr.tree)`gender
    modifies NewNode`left, NewNode`parent, NewNode`right, NewNode`gender, NewNode`balance
    ensures hdr.Valid() && Inorder(hdr.tree) == Inorder(T0)
    ensures OldNode == null <==>
        hdr.flags.dupkey || forall n <- old(Nodes(hdr.tree)) :: Heading(hdr.cmp, ItemPtr, n) != EQUAL
    ensures OldNode != null ==> OldNode in old(Nodes(hdr.tree)) && Heading(hdr.cmp, ItemPtr, OldNode) == EQUAL
    ensures ok <==> OldNode == null || hdr.flags.overwrite
    ensures OldNode == null ==> Grown(old(hdr.tree), T0, c, NewNode, hdr.cmp, hdr.flags.dupkey)
    ensures OldNode != null && ok ==> Overwritten(old(hdr.tree), T0, c, u, OldNode, NewNode, hdr.cmp)
    ensures !ok ==> T0 == old(hdr.tree)
    ensures hdr.root == if ok then NewNode else OldNode
    // The node in the tree that the insertion itself leaves, splayed.
    ensures hdr.root in Nodes(T0) && hdr.tree == SplayedAt(T0, hdr.root) && iterations == HalfDepth(T0, hdr.root)
    ensures Nodes(hdr.tree) == if ok then old(Nodes(hdr.tree)) - One(OldNode) + {NewNode} else old(Nodes(hdr.tree))
    ensures hdr.count == old(hdr.count) + if OldNode == null then 1 else 0
    ensures iterations + Potential(hdr.tree) <= old(Potential(hdr.tree)) + 4 * Log2(old(hdr.count) + 1) + 1
  {
    hide Grown, Overwritten, Ordered, Preorder, Plug, Inorder, Distinct, Nodes, Whole, Heading, Size, Potential, Log2;
    ghost var T := hdr.tree;
    ok, OldNode, c, u := BinTree.Insert(hdr, NewNode, ItemPtr);
    T0 := hdr.tree;
    if ok {
      InsertedCost(T, T0, c, u, OldNode, NewNode, hdr.cmp, hdr.flags.dupkey);
      NotEmpty(hdr, NewNode);
      iterations := SplayAt(hdr, NewNode);
    } else {
      NotEmpty(hdr, OldNode);
      iterations := SplayAt(hdr, OldNode);
    }
  }

  method Locate(hdr: TreeRoot, FindMe: int, op: CompOp) returns (p: Node?, ghost iterations: nat)
    requires hdr.Valid()
    modifies hdr`root, hdr`tree, Nodes(hdr.tree)`left, Nodes(hdr.tree)`parent, Nodes(hdr.tree)`right,
        Nodes(hdr.tree)`gender
    ensures hdr.Valid() && Inorder(hdr.tree) == old(Inorder(hdr.tree)) && Nodes(hdr.tree) == old(Nodes(hdr.tree))
    ensures Located(hdr.cmp, FindMe, Inorder(hdr.tree), op, p)
    ensures p != null ==> p in Nodes(hdr.tree) && hdr.root == p
    ensures if p == null then hdr.tree == old(hdr.tree) && iterations == 0
            else hdr.tree == SplayedAt(old(hdr.tree), p) && iterations == HalfDepth(old(hdr.tree), p)
    ensures iterations + Potential(hdr.tree) <= old(Potential(hdr.tree)) + 3 * Log2(hdr.count + 1) + 1
  {
    hide Ordered, Preorder, Plug, Inorder, Distinct, Nodes, Whole, Heading, Size, Potential, Located, Log2;
    ghost var view := Snap(Nodes(hdr.tree));
    p := BinTree.Locate(hdr, FindMe, op);
    assert Snap(Nodes(hdr.tree)) == view;
    iterations := 0;
    if p != null {
      NotEmpty(hdr, p);
      iterations := SplayAt(hdr, p);
    }
  }

  method Find(hdr: TreeRoot, FindMe: int) returns (p: Node?, ghost iterations: nat)
    requires hdr.Valid()
    modifies hdr`root, hdr`tree, Nodes(hdr.tree)`left, Nodes(hdr.tree)`parent, Nodes(hdr.tree)`right,
        Nodes(hdr.tree)`gender
    ensures hdr.Valid() && Inorder(hdr.tree) == old(Inorder(hdr.tree)) && Nodes(hdr.tree) == old(Nodes(hdr.tree))
    ensures p == null <==> forall n <- Nodes(hdr.tree) :: Heading(hdr.cmp, FindMe, n) != EQUAL
    ensures p != null ==> p in Nodes(hdr.tree) && Heading(hdr.cmp, FindMe, p) == EQUAL && hdr.root == p
    ensures if p == null then hdr.tree == old(hdr.tree) && iterations == 0
            else hdr.tree == SplayedAt(old(hdr.tree), p) && iterations == HalfDepth(old(hdr.tree), p)
    ensures iterations + Potential(hdr.tree) <= old(Potential(hdr.tree)) + 3 * Log2(hdr.count + 1) + 1
  {
    hide Ordered, Preorder, Plug, Inorder, Distinct, Nodes, Whole, Heading, Size, Potential, Log2;
    ghost var view := Snap(Nodes(hdr.tree));
    p := BinTree.Find(hdr, FindMe);
    assert Snap(Nodes(hdr.tree)) == view;
    iterations := 0;
    if p != null {
      NotEmpty(hdr, p);
      iterations := SplayAt(hdr, p);
    }
  }

  // ---------- removal: split at the root, join at the last node of the left part ----------

  // Memory k is h after l and r, the subtrees of a root, have been cut loose from it.
  lemma {:induction false} CutLoose(h: Mem, k: Mem, v: Tree)
    requires Distinct(v) && IsTree(h, v)
    requires v.Bin? ==> v.node in h && v.node in k && k[v.node] == h[v.node].(parent := null, gender := PARENT)
    requires v.Bin? ==> Same(h, k, Nodes(v.left) + Nodes(v.right))
    ensures Whole(k, v)
  {
    Reparent(h, k, v);
  }

  // Memory k is h after r has been hung below the right-childless node p.
  lemma {:induction false} Join(h: Mem, k: Mem, c: Ctx, l: Tree, p: Node, r: Tree)
    requires Local(h, c, Bin(l, p, Nil)) && IsTree(h, r) && Distinct(r)
    requires Nodes(r) !! CtxNodes(c) + Nodes(l) + {p}
    requires p in h && p in k && k[p] == h[p].(right := Root(r))
    requires Same(h, k, CtxNodes(c) + Nodes(l))
    requires r.Bin? ==> r.node in h && r.node in k && k[r.node] == h[r.node].(parent := p) && h[r.node].gender == RIGHT
    requires r.Bin? ==> Same(h, k, Nodes(r.left) + Nodes(r.right))
    ensures Local(k, c, Bin(l, p, r))
  {
    Links(h, c, Bin(l, p, Nil));
    SameSub(h, k, CtxNodes(c) + Nodes(l), CtxNodes(c));
    SameSub(h, k, CtxNodes(c) + Nodes(l), Nodes(l));
    CtxSame(h, k, c, p);
    TreeSame(h, k, l);
    Reparent(h, k, r);
  }

  lemma {:induction false} JoinOrder(c: Ctx, l: Tree, p: Node, r: Tree)
    requires After(c) == []
    ensures Inorder(Plug(c, Bin(l, p, r))) == Inorder(Plug(c, Bin(l, p, Nil))) + Inorder(r)
  {
    PlugInorder(c, Bin(l, p, r));
    PlugInorder(c, Bin(l, p, Nil));
    Absorb(Before(c), Inorder(l) + [p], Inorder(r));
    assert Inorder(Bin(l, p, Nil)) == Inorder(l) + [p] + [];
  }

  lemma {:induction false} Absorb<T>(a: seq<T>, b: seq<T>, c: seq<T>)
    ensures a + (b + c) + [] == (a + (b + []) + []) + c
  {}

  // A child of the splayed node becomes the root of a tree of its own; the other subtree
  // stays as it is.
  method MakeRoot(p: Node, ghost s: set<Node>, ghost v: Tree, ghost other: Tree)
    requires v.Bin? && v.node == p && p in s && Distinct(v) && IsTree(Snap(s), v)
    requires IsTree(Snap(s), other) && p !in Nodes(other)
    requires other.Bin? ==> other.node in s && other.node.gender == RIGHT
    modifies p`parent, p`gender
    ensures Whole(Snap(s), v) && IsTree(Snap(s), other)
    ensures other.Bin? ==> other.node.gender == RIGHT
  {
    ghost var h := Snap(s);
    TreeKeys(h, v);
    TreeKeys(h, other);
    p.parent := null;
    p.gender := PARENT;
    CutLoose(h, Snap(s), v);
    TreeSame(h, Snap(s), other);
  }

  // The tree r, still marked as a right child, goes below the last node of the tree l.
  method AttachRight(root: Node, q: Node?, ghost s: set<Node>, ghost l: Tree, ghost r: Tree)
          returns (p: Node, ghost c: Ctx, ghost x: Tree)
    requires Whole(Snap(s), l) && root == Root(l) && IsTree(Snap(s), r) && Distinct(r) && q == Root(r)
    requires Nodes(l) !! Nodes(r) && (r.Bin? ==> r.node.gender == RIGHT)
    modifies s`right, s`parent
    ensures l == Plug(c, Bin(x, p, Nil)) && After(c) == []
    ensures Whole(Snap(s), Plug(c, Bin(x, p, r))) && Nodes(Plug(c, Bin(x, p, r))) == Nodes(l) + Nodes(r)
  {
    hide Whole, IsTree, Nodes, IsCtx;
    ghost var h, t := Snap(s), l;
    WholeIsLocal(h, l);
    TreeKeys(h, l);
    TreeKeys(h, r);
    var last;
    last, c, t := SubSlide(root, RIGHT, s, Top, l);
    p := last;
    LastApart(h, c, t, r);
    x := t.left;
    hide Local, IsTree, Inorder, Plug, Distinct, CtxNodes, Nodes, Whole, After, Before;
    assert t == Bin(t.left, p, Nil);
    p.right := q;
    if q != null {
      q.parent := p;
    }
    Join(h, Snap(s), c, x, p, r);
    WholeIffLocal(Snap(s), c, Bin(x, p, r));
  }

  lemma {:induction false} LastApart(h: Mem, c: Ctx, t: Tree, r: Tree)
    requires Local(h, c, t) && t.Bin? && Distinct(r) && IsTree(h, r) && Nodes(Plug(c, t)) !! Nodes(r)
    ensures Nodes(Plug(c, t)) == CtxNodes(c) + Nodes(t.left) + {t.node} + Nodes(t.right)
    ensures t.node !in CtxNodes(c) + Nodes(t.left) && Nodes(r) !! CtxNodes(c) + Nodes(t.left) + {t.node}
    ensures CtxNodes(c) + Nodes(t.left) + {t.node} + Nodes(r) <= h.Keys
    ensures r.Bin? ==> r.node in Nodes(r) && r.node !in Nodes(r.left) + Nodes(r.right)
    ensures r.Bin? ==> Nodes(r.left) + Nodes(r.right) <= Nodes(r)
    ensures t.node in Nodes(Plug(c, Bin(t.left, t.node, r)))
    ensures Nodes(Plug(c, Bin(t.left, t.node, r))) == CtxNodes(c) + Nodes(t.left) + {t.node} + Nodes(r)
    ensures t.right == Nil ==> Nodes(Plug(c, t)) == CtxNodes(c) + Nodes(t.left) + {t.node}
  {
    PlugNodes(c, t);
    PlugNodes(c, Bin(t.left, t.node, r));
    TreeKeys(h, t);
    TreeKeys(h, r);
    CtxKeys(h, c, t.node);
  }

  lemma {:induction false} RootParts(h: Mem, t: Tree)
    requires Whole(h, t) && t.Bin?
    ensures t.node in h && h[t.node].left == Root(t.left) && h[t.node].right == Root(t.right)
    ensures IsTree(h, t.left) && IsTree(h, t.right) && Distinct(t.left) && Distinct(t.right)
    ensures Nodes(t.left) !! Nodes(t.right) !! {t.node} && Nodes(t) == Nodes(t.left) + {t.node} + Nodes(t.right)
    ensures t.right.Bin? ==> t.right.node in Nodes(t.right) && t.right.node in h && h[t.right.node].gender == RIGHT
    ensures t.left.Bin? ==> t.left.node in Nodes(t.left) && t.left.node !in Nodes(t.right)
    ensures Nodes(t) <= h.Keys
  {
    TreeKeys(h, t);
  }

  // What follows the first splay, when the dead node, root of T, has a left subtree.
  method JoinParts(DeadNode: Node, ghost T: Tree) returns (p: Node, ghost c: Ctx, ghost x: Tree)
    requires T.Bin? && T.node == DeadNode && T.left.Bin? && Whole(Snap(Nodes(T)), T)
    modifies Nodes(T)`parent, Nodes(T)`right, Nodes(T)`gender
    ensures T.left == Plug(c, Bin(x, p, Nil)) && After(c) == []
    ensures var T2 := Plug(c, Bin(x, p, T.right)); Whole(Snap(Nodes(T2)), T2) && Nodes(T2) == Nodes(T) - {DeadNode}
  {
    ghost var s, l, r := Nodes(T), T.left, T.right;
    RootParts(Snap(s), T);
    hide Local, IsTree, Inorder, Plug, Distinct, Nodes, Whole, Potential, Size;
    var q := DeadNode.right;
    p := DeadNode.left;
    MakeRoot(p, s, l, r);
    p, c, x := AttachRight(p, q, s, l, r);
    WholeOn(s, Nodes(Plug(c, Bin(x, p, r))), Plug(c, Bin(x, p, r)));
  }

  // The same without a left subtree: the right one, if any, becomes the tree.
  method PromoteRight(hdr: TreeRoot, DeadNode: Node, ghost T: Tree)
    requires T.Bin? && T.node == DeadNode && T.left.Nil? && Whole(Snap(Nodes(T)), T)
    modifies hdr`root, Nodes(T)`parent, Nodes(T)`gender
    ensures Whole(Snap(Nodes(T.right)), T.right) && hdr.root == Root(T.right)
  {
    RootParts(Snap(Nodes(T)), T);
    var p := DeadNode.right;
    if p != null {
      MakeRoot(p, Nodes(T), T.right, Nil);
      hdr.root := p;
      WholeOn(Nodes(T), Nodes(T.right), T.right);
    } else {
      hdr.root := null;
    }
  }

  // Splaying the last node of a tree takes no notice of what hangs on its right.
  lemma {:induction false} Commutes(c: Ctx, x: Tree, p: Node, r: Tree) returns (z: Tree)
    requires After(c) == []
    ensures Splayed(c, Bin(x, p, r)) == Bin(z, p, r) && Splayed(c, Bin(x, p, Nil)) == Bin(z, p, Nil)
    ensures Rounds(c, Bin(x, p, r)) == Rounds(c, Bin(x, p, Nil))
    decreases c
  {
    if c.Top? {
      z := x;
    } else {
      var f, g := Risen(c, Bin(x, p, r)), Risen(c, Bin(x, p, Nil));
      RisenRight(c, x, p, r);
      z := Commutes(f.0, f.1.left, p, r);
    }
  }

  lemma RisenRight(c: Ctx, x: Tree, p: Node, r: Tree)
    requires c.Hole? && After(c) == []
    ensures var f, g := Risen(c, Bin(x, p, r)), Risen(c, Bin(x, p, Nil));
            f.0 == g.0 && After(f.0) == [] && f.1 == Bin(f.1.left, p, r) && g.1 == Bin(f.1.left, p, Nil)
  {
    RightMost(c);
    if c.up.Hole? {
      RightMost(c.up);
    }
  }

  lemma RightMost(c: Ctx)
    requires c.Hole? && After(c) == []
    ensures c.way == RIGHT && After(c.up) == []
  {}

  // The right part goes below the last node of the left one and that node to the root: the
  // account is that of splaying it in the left part alone.
  lemma {:induction false} JoinCost(T: Tree, c: Ctx, x: Tree, p: Node)
    requires T.Bin? && T.left == Plug(c, Bin(x, p, Nil)) && After(c) == []
    ensures var t := Bin(x, p, T.right);
            && Rounds(c, t) + Potential(Splayed(c, t)) <= Potential(T) + 2 * Log2(Size(T)) + 1
            && Inorder(Splayed(c, t)) == Inorder(T.left) + Inorder(T.right)
  {
    var l, r, n := T.left, T.right, T.node;
    SplayedCost(c, Bin(x, p, Nil));
    SplayedCost(c, Bin(x, p, r));
    JoinOrder(c, x, p, r);
    var z := Commutes(c, x, p, r);
    hide Splayed, Rounds, Log2, Inorder, Plug;
    assert Size(l) == Size(z) + 1 && Size(Bin(z, p, r)) == Size(l) + Size(r);
    Log2Monotone(Size(l), Size(T));
    Log2Monotone(Size(Bin(z, p, r)), Size(T));
  }

  // Two trees joined: the last node of the left one is splayed, and the right one goes below it.
  ghost function Joined(l: Tree, r: Tree): Tree {
    if l.Nil? then r
    else
      LastIn(l);
      var p := LastOf(Inorder(l));
      Bin(SplayedAt(l, p).left, p, r)
  }

  ghost function JoinRounds(l: Tree): nat {
    if l.Nil? then 0
    else
      LastIn(l);
      HalfDepth(l, LastOf(Inorder(l)))
  }

  // What the code does, hanging the right part below the last node of the left one and splaying
  // that then, comes to the same.
  lemma {:induction false} JoinedAt(l: Tree, c: Ctx, x: Tree, p: Node, r: Tree)
    requires l == Plug(c, Bin(x, p, Nil)) && After(c) == [] && Distinct(l)
    ensures Splayed(c, Bin(x, p, r)) == Joined(l, r) && Rounds(c, Bin(x, p, r)) == JoinRounds(l)
  {
    PlugInorder(c, Bin(x, p, Nil));
    assert Inorder(Bin(x, p, Nil)) == Inorder(x) + [p];
    var s := Inorder(l);
    assert s == (Before(c) + Inorder(x)) + [p];
    PlugNodes(c, Bin(x, p, Nil));
    PlaceUnique(c, Bin(x, p, Nil), p);
    PlaceRounds(l, p);
    var z := Commutes(c, x, p, r);
  }

  // With a left subtree: join, and splay the node that holds the two parts together.
  method JoinAndSplay(DeadNode: Node, ghost T: Tree) returns (p: Node, ghost T2: Tree, ghost iterations: nat)
    requires T.Bin? && T.node == DeadNode && T.left.Bin? && Whole(Snap(Nodes(T)), T)
    modifies Nodes(T)`left, Nodes(T)`parent, Nodes(T)`right, Nodes(T)`gender
    ensures Whole(Snap(Nodes(T2)), T2) && p == Root(T2) && Nodes(T2) == Nodes(T) - {DeadNode}
    ensures Inorder(T2) == Inorder(T.left) + Inorder(T.right)
    ensures T2 == Joined(T.left, T.right) && iterations == JoinRounds(T.left)
    ensures iterations + Potential(T2) <= Potential(T) + 2 * Log2(Size(T)) + 1
  {
    WholeIsLocal(Snap(Nodes(T)), T);
    assert Distinct(T.left);
    hide Local, IsTree, Inorder, Plug, Distinct, Nodes, Whole, Potential, Size, Splayed, Rounds, Log2, After, Joined,
        JoinRounds;
    ghost var c, x;
    p, c, x := JoinParts(DeadNode, T);
    JoinCost(T, c, x, p);
    JoinedAt(T.left, c, x, p, T.right);
    p, T2, iterations := Splay(p, c, Bin(x, p, T.right));
  }

  // All that follows the first splay.
  method SplitAndJoin(hdr: TreeRoot, DeadNode: Node, ghost T: Tree) returns (ghost T2: Tree, ghost iterations: nat)
    requires T.Bin? && T.node == DeadNode && Whole(Snap(Nodes(T)), T)
    modifies hdr`root, Nodes(T)`left, Nodes(T)`parent, Nodes(T)`right, Nodes(T)`gender
    ensures Whole(Snap(Nodes(T2)), T2) && hdr.root == Root(T2) && Nodes(T2) == Nodes(T) - {DeadNode}
    ensures Inorder(T2) == Inorder(T.left) + Inorder(T.right)
    ensures T2 == Joined(T.left, T.right) && iterations == JoinRounds(T.left)
    ensures iterations + Potential(T2) <= Potential(T) + 2 * Log2(Size(T)) + 1
  {
    hide Whole, Nodes, Potential, Log2, Size, Local, IsTree;
    RootParts(Snap(Nodes(T)), T);
    WholeIsLocal(Snap(Nodes(T)), T);
    hide Local, IsTree, Inorder, Plug, Distinct, Nodes, Whole, Potential, Size, Log2;
    if DeadNode.left != null {
      var p;
      p, T2, iterations := JoinAndSplay(DeadNode, T);
      hdr.root := p;
    } else {
      PromoteRight(hdr, DeadNode, T);
      T2, iterations := T.right, 0;
      NoLeft(T);
    }
  }

  method Remove(hdr: TreeRoot, DeadNode: Node) returns (r: Node, ghost iterations: nat)
    requires hdr.Shape() && DeadNode in Nodes(hdr.tree)
    modifies hdr`root, hdr`count, hdr`tree
    modifies Nodes(hdr.tree)`left, Nodes(hdr.tree)`parent, Nodes(hdr.tree)`right, Nodes(hdr.tree)`gender
    ensures r == DeadNode && hdr.Shape()
    ensures Inorder(hdr.tree) == old(Without(Inorder(hdr.tree), DeadNode))
    ensures Nodes(hdr.tree) == old(Nodes(hdr.tree)) - {DeadNode} && hdr.count == old(hdr.count) - 1
    ensures old(hdr.Sorted()) ==> hdr.Sorted()
    // A splay, which leaves the dead node at the root, and a join of what is on its two sides.
    ensures var T1 := SplayedAt(old(hdr.tree), DeadNode);
            && hdr.tree == Joined(T1.left, T1.right)
            && iterations == HalfDepth(old(hdr.tree), DeadNode) + JoinRounds(T1.left)
    ensures iterations + Potential(hdr.tree) <= old(Potential(hdr.tree)) + 5 * Log2(old(Size(hdr.tree))) + 2
  {
    hide IsTree, Inorder, Plug, Nodes, Potential, Size, Ordered, Preorder, Without, Whole, Distinct, Snap, Splayed,
        Rounds;
    WholeIsLocal(Snap(Nodes(hdr.tree)), hdr.tree);
    SortedWithout(hdr.cmp, hdr.flags.dupkey, hdr.tree, DeadNode);
    ghost var T, T1, T2, more := hdr.tree, Nil, Nil, 0;
    ghost var c, t := Place(T, DeadNode).0, Place(T, DeadNode).1;
    SplayedCost(c, t);
    PlaceRounds(T, DeadNode);
    r, T1, iterations := Splay(DeadNode, c, t);
    WholeIsLocal(Snap(Nodes(T1)), T1);
    T2, more := SplitAndJoin(hdr, DeadNode, T1);
    iterations := iterations + more;
    RootRemoved(T, T1, T2);
    hdr.count := hdr.count - 1;
    hdr.tree := T2;
    r := DeadNode;
  }

  lemma {:induction false} NoLeft(t: Tree)
    requires t.Bin? && t.left.Nil? && Distinct(t)
    ensures Potential(t.right) <= Potential(t)
    ensures Inorder(t.right) == Inorder(t.left) + Inorder(t.right) && Nodes(t.right) == Nodes(t) - {t.node}
  {}

  lemma {:induction false} RootRemoved(T: Tree, T1: Tree, T2: Tree)
    requires T1.Bin? && Distinct(T1) && Inorder(T1) == Inorder(T) && Size(T1) == Size(T)
    requires Inorder(T2) == Inorder(T1.left) + Inorder(T1.right)
    ensures Inorder(T2) == Without(Inorder(T), T1.node) && Size(T2) == Size(T) - 1
  {
    DistinctInorder(T1);
    WithoutOnly(Inorder(T1.left), T1.node, Inorder(T1.right));
    InorderNodes(T2);
    InorderNodes(T1);
  }

  // ---------- whole runs ----------

  // A node that is in the tree already is not inserted again, and only such a one is removed.
  datatype Op = DoInsert(n: Node) | DoRemove(n: Node) | DoFind(key: int) | DoLocate(key: int, op: CompOp)

  // What one operation may cost on a tree of at most n nodes.
  function Allowance(n: nat): nat {
    5 * Log2(n + 1) + 2
  }

  lemma WithinAllowance(m: nat, n: nat)
    requires m <= n
    ensures 4 * Log2(m + 1) + 1 <= Allowance(n) && 3 * Log2(m + 1) + 1 <= Allowance(n)
    ensures m > 0 ==> 5 * Log2(m) + 2 <= Allowance(n)
  {
    Log2Monotone(m + 1, n + 1);
    if m > 0 {
      Log2Monotone(m, n + 1);
    }
  }

  // One operation of a run: what it finds and leaves, the node it splays, if any, and at what cost
  // in iterations.  An insertion first makes `grown` of the tree, at the place c and, if a node is
  // displaced or in the way, with its subtree u.
  datatype Stage = Stage(op: Op, before: Tree, after: Tree, cost: nat, at: Node?, grown: Tree, c: Ctx, u: Tree,
                         old_: Node?)

  ghost predicate Visited(s: Stage, T: Tree) {
    if s.at == null then s.after == T && s.cost == 0
    else s.at in Nodes(T) && s.after == SplayedAt(T, s.at) && s.cost == HalfDepth(T, s.at)
  }

  ghost predicate Entered(cmp: Cmp, flags: Flags, s: Stage, x: Node) {
    && (s.old_ == null <==> flags.dupkey || forall n <- Nodes(s.before) :: Heading(cmp, x.key, n) != EQUAL)
    && (if s.old_ == null then Grown(s.before, s.grown, s.c, x, cmp, flags.dupkey) && s.at == x
        else if flags.overwrite then Overwritten(s.before, s.grown, s.c, s.u, s.old_, x, cmp) && s.at == x
        else s.grown == s.before && s.at == s.old_ && Heading(cmp, x.key, s.old_) == EQUAL)
    && s.at != null && Visited(s, s.grown)
  }

  ghost predicate Performed(cmp: Cmp, flags: Flags, s: Stage) {
    match s.op
    case DoInsert(x) =>
      if x in Nodes(s.before) then s.after == s.before && s.cost == 0 else Entered(cmp, flags, s, x)
    case DoRemove(x) =>
      if x !in Nodes(s.before) then s.after == s.before && s.cost == 0
      else
        var T1 := SplayedAt(s.before, x);
        s.after == Joined(T1.left, T1.right) && s.cost == HalfDepth(s.before, x) + JoinRounds(T1.left)
    case DoFind(key) =>
      && Visited(s, s.before)
      && (if s.at == null then forall n <- Nodes(s.before) :: Heading(cmp, key, n) != EQUAL
          else Heading(cmp, key, s.at) == EQUAL)
    case DoLocate(key, op) => Visited(s, s.before) && Located(cmp, key, Inorder(s.before), op, s.at)
  }

  ghost function Costs(trace: seq<Stage>): nat {
    if trace == [] then 0 else Costs(trace[..|trace| - 1]) + trace[|trace| - 1].cost
  }

  // The tree after the first i operations.
  ghost function TreeAfter(trace: seq<Stage>, i: nat): Tree
    requires i <= |trace|
  {
    if i == 0 then Nil else trace[i - 1].after
  }

  // The operations of a run, one after the other, from the empty tree.
  ghost predicate Traced(cmp: Cmp, flags: Flags, ops: seq<Op>, trace: seq<Stage>, T: Tree) {
    && |trace| == |ops| && T == TreeAfter(trace, |ops|)
    && forall i :: 0 <= i < |ops| ==>
         trace[i].op == ops[i] && trace[i].before == TreeAfter(trace, i) && Performed(cmp, flags, trace[i])
  }

  lemma TracedMore(cmp: Cmp, flags: Flags, ops: seq<Op>, trace: seq<Stage>, T: Tree, s: Stage)
    requires Traced(cmp, flags, ops, trace, T) && Performed(cmp, flags, s) && s.before == T
    ensures Traced(cmp, flags, ops + [s.op], trace + [s], s.after) && Costs(trace + [s]) == Costs(trace) + s.cost
  {
    hide Performed;
    assert (trace + [s])[..|trace|] == trace;
  }

  method Act(hdr: TreeRoot, op: Op, members: set<Node>, pool: set<Node>, ghost n: nat)
    returns (members': set<Node>, ghost s: Stage)
    requires hdr.Valid() && members == Nodes(hdr.tree) <= pool && hdr.count <= n && (op.DoInsert? ==> op.n in pool)
    modifies hdr`root, hdr`count, hdr`tree
    modifies pool`left, pool`parent, pool`right, pool`gender, pool`balance
    ensures hdr.Valid() && members' == Nodes(hdr.tree) <= pool && hdr.count <= old(hdr.count) + 1
    ensures s.op == op && s.before == old(hdr.tree) && s.after == hdr.tree && Performed(hdr.cmp, hdr.flags, s)
    ensures s.cost + Potential(hdr.tree) <= old(Potential(hdr.tree)) + Allowance(n)
  {
    hide Ordered, Preorder, Plug, Inorder, Distinct, Nodes, Whole, Heading, Size, Potential, Located, Log2, Grown,
        Overwritten, Allowance, SplayedAt, HalfDepth, Joined, JoinRounds;
    WithinAllowance(hdr.count, n);
    members' := members;
    ghost var T := hdr.tree;
    s := Stage(op, T, T, 0, null, T, Top, Nil, null);
    ghost var iterations;
    match op {
      case DoInsert(x) =>
        if x !in members {
          var ok, OldNode;
          ghost var c, u, T0;
          ok, OldNode, c, u, T0, iterations := Insert(hdr, x, x.key);
          if ok {
            members' := members - (if OldNode == null then {} else {OldNode}) + {x};
          }
          s := Stage(op, T, hdr.tree, iterations, hdr.root, T0, c, u, OldNode);
        }
      case DoRemove(x) =>
        if x in members {
          NotEmpty(hdr, x);
          var r;
          r, iterations := Remove(hdr, x);
          members' := members - {x};
          s := s.(after := hdr.tree, cost := iterations);
        }
      case DoFind(key) =>
        var p;
        p, iterations := Find(hdr, key);
        s := s.(after := hdr.tree, cost := iterations, at := p);
      case DoLocate(key, cmp) =>
        var p;
        p, iterations := Locate(hdr, key, cmp);
        s := s.(after := hdr.tree, cost := iterations, at := p);
    }
  }

  // Any run of operations on a tree that is empty at first: all splays together take no more
  // iterations than their number times what a single one may cost.
  method Run(hdr: TreeRoot, ops: seq<Op>, pool: set<Node>) returns (ghost trace: seq<Stage>)
    requires hdr.Valid() && hdr.tree == Nil && forall i :: 0 <= i < |ops| && ops[i].DoInsert? ==> ops[i].n in pool
    modifies hdr`root, hdr`count, hdr`tree
    modifies pool`left, pool`parent, pool`right, pool`gender, pool`balance
    ensures hdr.Valid() && hdr.count <= |ops| && Traced(hdr.cmp, hdr.flags, ops, trace, hdr.tree)
    ensures Costs(trace) + Potential(hdr.tree) <= |ops| * (5 * Log2(|ops| + 1) + 2)
  {
    hide Ordered, Preorder, Inorder, Distinct, Whole, Log2, Allowance, Traced, Performed, Costs, Nodes, Potential;
    var members: set<Node> := {};
    trace := [];
    NothingTraced(hdr.cmp, hdr.flags);
    for i := 0 to |ops|
      invariant hdr.Valid() && members == Nodes(hdr.tree) <= pool && hdr.count <= i
      invariant Traced(hdr.cmp, hdr.flags, ops[..i], trace, hdr.tree)
      invariant Costs(trace) + Potential(hdr.tree) <= i * Allowance(|ops|)
    {
      ghost var s;
      ghost var T := hdr.tree;
      members, s := Act(hdr, ops[i], members, pool, |ops|);
      TracedMore(hdr.cmp, hdr.flags, ops[..i], trace, T, s);
      assert ops[..i + 1] == ops[..i] + [ops[i]];
      trace := trace + [s];
      OneMore(i, Allowance(|ops|));
    }
    assert ops[..|ops|] == ops;
    AllowanceIs(|ops|);
  }

  lemma AllowanceIs(n: nat)
    ensures Allowance(n) == 5 * Log2(n + 1) + 2
  {}

  lemma NothingTraced(cmp: Cmp, flags: Flags)
    ensures Traced(cmp, flags, [], [], Nil) && Costs([]) == 0 && Potential(Nil) == 0 && Nodes(Nil) == {}
  {}
}
