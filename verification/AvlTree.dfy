/** ubi_AVLtree.c: height-balanced trees over the plain binary tree. */
module AvlTree {
  import opened TreeShape
  import opened TreeOrder
  import opened TreeEdit
  import opened TreeRotate
  import opened BinTree
  import opened Ranks

  // ---------- balance ----------

  // Every node's code is the difference of the heights of its subtrees, and no code
  // other than LEFT, EQUAL and RIGHT occurs.
  ghost predicate Balanced(t: Tree, b: BalMem) {
    match t
    case Nil => true
    case Bin(l, n, r) =>
      n in b && b[n] == EQUAL + Height(r) - Height(l) && Balanced(l, b) && Balanced(r, b)
  }

  // The codes along the path to the hole of c are right if the hole has height h.
  ghost predicate BalancedCtx(c: Ctx, b: BalMem, h: nat) {
    match c
    case Top => true
    case Hole(up, w, n, sib) =>
      n in b && b[n] == (if w == LEFT then EQUAL + Height(sib) - h else EQUAL + h - Height(sib)) && Balanced(sib, b) &&
          BalancedCtx(up, b, ForkHeight(h, Height(sib)))
  }

  ghost function ForkHeight(a: nat, b: nat): nat {
    1 + if a < b then b else a
  }

  lemma {:induction false} PlugBalanced(c: Ctx, t: Tree, b: BalMem)
    ensures Balanced(Plug(c, t), b) <==> Balanced(t, b) && BalancedCtx(c, b, Height(t))
  {
    match c
    case Top =>
    case Hole(up, w, n, sib) =>
      ForkBalanced(w, n, t, sib, b);
      PlugBalanced(up, Fork(w, n, t, sib), b);
  }

  lemma {:induction false} ForkBalanced(w: Side, n: Node, near: Tree, far: Tree, b: BalMem)
    ensures Height(Fork(w, n, near, far)) == ForkHeight(Height(near), Height(far))
    ensures Balanced(Fork(w, n, near, far), b) <==>
            n in b && b[n] == (if w == LEFT then EQUAL + Height(far) - Height(near)
                else EQUAL + Height(near) - Height(far)) &&
            Balanced(near, b) && Balanced(far, b)
  {}

  ghost predicate SameBals(b: BalMem, d: BalMem, s: set<Node>) {
    forall n {:trigger n in s} :: n in s ==> n in b && n in d && b[n] == d[n]
  }

  lemma SameBalsSub(b: BalMem, d: BalMem, big: set<Node>, small: set<Node>)
    requires SameBals(b, d, big) && small <= big
    ensures SameBals(b, d, small)
  {}

  lemma {:induction false} BalancedSame(t: Tree, b: BalMem, d: BalMem)
    requires Balanced(t, b) && SameBals(b, d, Nodes(t))
    ensures Balanced(t, d)
  {
    match t
    case Nil =>
    case Bin(l, n, r) =>
      BalancedSame(l, b, d);
      BalancedSame(r, b, d);
  }

  lemma {:induction false} BalancedCtxSame(c: Ctx, b: BalMem, d: BalMem, h: nat)
    requires BalancedCtx(c, b, h) && SameBals(b, d, CtxNodes(c))
    ensures BalancedCtx(c, d, h)
  {
    match c
    case Top =>
    case Hole(up, w, n, sib) =>
      BalancedSame(sib, b, d);
      BalancedCtxSame(up, b, d, ForkHeight(h, Height(sib)));
  }

  // Balance depends on the codes at their positions only.
  lemma {:induction false} BalancedCodes(t: Tree, b: BalMem, u: Tree, d: BalMem)
    requires CodesOf(t, b) == CodesOf(u, d) && Nodes(t) <= b.Keys && Nodes(u) <= d.Keys
    ensures Height(t) == Height(u) && (Balanced(t, b) <==> Balanced(u, d))
  {
    match t
    case Nil =>
    case Bin(l, n, r) =>
      BalancedCodes(l, b, u.left, d);
      BalancedCodes(r, b, u.right, d);
  }

  // ---------- how high a balanced tree can be ----------

  function Fib(n: nat): nat {
    if n < 2 then n else Fib(n - 2) + Fib(n - 1)
  }

  // A balanced tree of height h has at least Fib(h + 2) - 1 nodes: height is logarithmic.
  lemma {:induction false} HeightBound(t: Tree, b: BalMem)
    requires Balanced(t, b)
    ensures Fib(Height(t) + 2) <= Size(t) + 1
  {
    match t
    case Nil =>
    case Bin(l, n, r) =>
      HeightBound(l, b);
      HeightBound(r, b);
      var h := Height(t);
      var lo := if Height(l) < Height(r) then Height(l) else Height(r);
      FibMonotone(h, lo + 2);
  }

  lemma {:induction false} FibMonotone(m: nat, n: nat)
    requires m <= n
    ensures Fib(m) <= Fib(n)
    decreases n
  {
    if m < n {
      FibMonotone(m, n - 1);
      if n >= 2 {
        assert Fib(n) == Fib(n - 2) + Fib(n - 1);
      }
    }
  }

  lemma {:induction false} FibDoubles(h: nat)
    ensures Fib(h + 2) >= Pow2(h / 2)
  {
    if h >= 2 {
      FibDoubles(h - 2);
      FibMonotone(h, h + 1);
    }
  }

  lemma {:induction false} HeightIsLogarithmic(t: Tree, b: BalMem)
    requires Balanced(t, b)
    ensures Height(t) <= 2 * Log2(Size(t) + 1) + 1
  {
    HeightBound(t, b);
    FibDoubles(Height(t));
    var n, k := Size(t) + 1, Height(t) / 2;
    if k > Log2(n) {
      Log2Bounds(n);
      Pow2Monotone(Log2(n) + 1, k);
    }
  }

  lemma {:induction false} Pow2Monotone(m: nat, n: nat)
    requires m <= n
    ensures Pow2(m) <= Pow2(n)
    decreases n
  {
    if m < n {
      Pow2Monotone(m, n - 1);
    }
  }

  // ---------- single rotations ----------

  method L1(p: Node, ghost s: set<Node>, ghost b: Node?, ghost g: Node?) returns (tmp: Node)
    requires p.right != null && p.right in s && p.right.gender == RIGHT && p.right.parent == p
    requires Around(Snap(s), p.right, p, b, g, RIGHT)
    requires p.balance == RIGHT && p.right.balance != LEFT
    modifies Touched(p.right)`left, Touched(p.right)`parent, Touched(p.right)`right, Touched(p.right)`gender
    modifies p`balance, p.right`balance
    ensures tmp == old(p.right) && Rewired(old(Snap(s)), Snap(s), tmp, p, b, g, RIGHT)
    ensures p.balance == RIGHT - (old(p.right.balance) - EQUAL) && tmp.balance == old(p.right.balance) - 1
  {
    tmp := p.right;
    p.right := tmp.left;
    tmp.left := p;

    tmp.parent := p.parent;
    tmp.gender := p.gender;
    if tmp.parent != null {
      tmp.parent.SetLink(tmp.gender, tmp);
    }
    p.parent := tmp;
    p.gender := LEFT;
    if p.right != null {
      p.right.parent := p;
      p.right.gender := RIGHT;
    }
    p.balance := p.balance - Normalize(tmp.balance);
    tmp.balance := tmp.balance - 1;
  }

  method R1(p: Node, ghost s: set<Node>, ghost b: Node?, ghost g: Node?) returns (tmp: Node)
    requires p.left != null && p.left in s && p.left.gender == LEFT && p.left.parent == p
    requires Around(Snap(s), p.left, p, b, g, LEFT)
    requires p.balance == LEFT && p.left.balance != RIGHT
    modifies Touched(p.left)`left, Touched(p.left)`parent, Touched(p.left)`right, Touched(p.left)`gender
    modifies p`balance, p.left`balance
    ensures tmp == old(p.left) && Rewired(old(Snap(s)), Snap(s), tmp, p, b, g, LEFT)
    ensures p.balance == LEFT - (old(p.left.balance) - EQUAL) && tmp.balance == old(p.left.balance) + 1
  {
    tmp := p.left;
    p.left := tmp.right;
    tmp.right := p;

    tmp.parent := p.parent;
    tmp.gender := p.gender;
    if tmp.parent != null {
      tmp.parent.SetLink(tmp.gender, tmp);
    }
    p.parent := tmp;
    p.gender := RIGHT;
    if p.left != null {
      p.left.parent := p;
      p.left.gender := LEFT;
    }
    p.balance := p.balance - Normalize(tmp.balance);
    tmp.balance := tmp.balance + 1;
  }

  // ---------- double rotations ----------

  // Tells a child, if any, of its parent.
  method Adopt(p: Node, child: Node?, way: Side)
    modifies One(child)`parent, One(child)`gender
    ensures child != null ==> child.Fields() == old(child.Fields()).With(PARENT, p).(gender := way)
  {
    if child != null {
      child.parent := p;
      child.gender := way;
    }
  }

  method HangNewRoot(newroot: Node)
    modifies One(newroot.parent)`left, One(newroot.parent)`parent, One(newroot.parent)`right
    ensures old(newroot.parent) != null ==>
        old(newroot.parent).Fields() == old(newroot.parent.Fields().With(newroot.gender, newroot))
  {
    if newroot.parent != null {
      newroot.parent.SetLink(newroot.gender, newroot);
    }
  }

  // The codes after a double rotation towards the side opposite to w.
  method SetCodes(newroot: Node, tree: Node, tmp: Node, w: Side)
    requires newroot != tree && newroot != tmp && tree != tmp
    modifies {newroot, tree, tmp}`balance
    ensures newroot.balance == EQUAL
    ensures tree.balance == if old(newroot.balance) == w then RevWay(w) else EQUAL
    ensures tmp.balance == if old(newroot.balance) == RevWay(w) then w else EQUAL
  {
    if newroot.balance == RevWay(w) {
      tree.balance, tmp.balance := EQUAL, w;
    } else if newroot.balance == EQUAL {
      tree.balance, tmp.balance := EQUAL, EQUAL;
    } else {
      tree.balance, tmp.balance := RevWay(w), EQUAL;
    }
    newroot.balance := EQUAL;
  }

  // The links among the three nodes that change places in L2.
  method L2Links(tree: Node) returns (tmp: Node, newroot: Node)
    requires tree.right != null && tree.right.left != null
    requires {tree} !! {tree.right} !! {tree.right.left}
    modifies {tree, tree.right, tree.right.left}`left, {tree, tree.right, tree.right.left}`parent
    modifies {tree, tree.right, tree.right.left}`right, {tree, tree.right, tree.right.left}`gender
    ensures tmp == old(tree.right) && newroot == old(tree.right.left)
    ensures tree.Fields() ==
        old(tree.Fields().With(PARENT, tree.right.left).With(RIGHT, tree.right.left.left).(gender := LEFT))
    ensures tmp.Fields() ==
        old(tree.right.Fields().With(PARENT, tree.right.left).With(LEFT, tree.right.left.right).(gender := RIGHT))
    ensures newroot.Fields() ==
        old(tree.right.left.Fields().With(PARENT, tree.parent).With(LEFT, tree)
            .With(RIGHT, tree.right).(gender := tree.gender))
  {
    tmp := tree.right;
    newroot := tmp.left;
    tmp.left := newroot.right;
    newroot.right := tmp;
    tree.right := newroot.left;
    newroot.left := tree;

    newroot.parent := tree.parent;
    newroot.gender := tree.gender;
    tree.parent := newroot;
    tree.gender := LEFT;
    tmp.parent := newroot;
    tmp.gender := RIGHT;
  }

  method L2(tree: Node, ghost s: set<Node>, ghost m: Node, ghost n: Node, ghost x: Node?, ghost y: Node?,
          ghost g: Node?,
            ghost around: set<Node>)
    returns (newroot: Node)
    requires AroundTwo(Snap(s), tree, m, n, x, y, g, RIGHT) && around == {tree, m, n} + One(x) + One(y) + One(g)
    modifies around`left, around`parent, around`right, around`gender, {tree, m, n}`balance
    ensures newroot == n && RewiredTwo(old(Snap(s)), Snap(s), tree, m, n, x, y, g, RIGHT)
    ensures newroot.balance == EQUAL
    ensures tree.balance == if old(n.balance) == RIGHT then LEFT else EQUAL
    ensures m.balance == if old(n.balance) == LEFT then RIGHT else EQUAL
  {
    var tmp;
    tmp, newroot := L2Links(tree);
    Adopt(tree, tree.right, RIGHT);
    Adopt(tmp, tmp.left, LEFT);
    HangNewRoot(newroot);
    SetCodes(newroot, tree, tmp, RIGHT);
  }

  // The links among the three nodes that change places in R2.
  method R2Links(tree: Node) returns (tmp: Node, newroot: Node)
    requires tree.left != null && tree.left.right != null
    requires {tree} !! {tree.left} !! {tree.left.right}
    modifies {tree, tree.left, tree.left.right}`left, {tree, tree.left, tree.left.right}`parent
    modifies {tree, tree.left, tree.left.right}`right, {tree, tree.left, tree.left.right}`gender
    ensures tmp == old(tree.left) && newroot == old(tree.left.right)
    ensures tree.Fields() ==
        old(tree.Fields().With(PARENT, tree.left.right).With(LEFT, tree.left.right.right).(gender := RIGHT))
    ensures tmp.Fields() ==
        old(tree.left.Fields().With(PARENT, tree.left.right).With(RIGHT, tree.left.right.left).(gender := LEFT))
    ensures newroot.Fields() ==
        old(tree.left.right.Fields().With(PARENT, tree.parent).With(RIGHT, tree)
            .With(LEFT, tree.left).(gender := tree.gender))
  {
    tmp := tree.left;
    newroot := tmp.right;
    tmp.right := newroot.left;
    newroot.left := tmp;
    tree.left := newroot.right;
    newroot.right := tree;

    newroot.parent := tree.parent;
    newroot.gender := tree.gender;
    tree.parent := newroot;
    tree.gender := RIGHT;
    tmp.parent := newroot;
    tmp.gender := LEFT;
  }

  method R2(tree: Node, ghost s: set<Node>, ghost m: Node, ghost n: Node, ghost x: Node?, ghost y: Node?,
          ghost g: Node?,
            ghost around: set<Node>)
    returns (newroot: Node)
    requires AroundTwo(Snap(s), tree, m, n, x, y, g, LEFT) && around == {tree, m, n} + One(x) + One(y) + One(g)
    modifies around`left, around`parent, around`right, around`gender, {tree, m, n}`balance
    ensures newroot == n && RewiredTwo(old(Snap(s)), Snap(s), tree, m, n, x, y, g, LEFT)
    ensures newroot.balance == EQUAL
    ensures tree.balance == if old(n.balance) == LEFT then RIGHT else EQUAL
    ensures m.balance == if old(n.balance) == RIGHT then LEFT else EQUAL
  {
    var tmp;
    tmp, newroot := R2Links(tree);
    Adopt(tree, tree.left, LEFT);
    Adopt(tmp, tmp.right, RIGHT);
    HangNewRoot(newroot);
    SetCodes(newroot, tree, tmp, LEFT);
  }

  // ---------- adjusting one node ----------

  // t is balanced, but for the code of its root: it does not know yet that the subtree on
  // side w has become one higher, or the other one lower.
  ghost predicate Lopsided(t: Tree, b: BalMem, w: Side) {
    && t.Bin? && t.node in b && Balanced(t.left, b) && Balanced(t.right, b)
    && b[t.node] + Normalize(w) == EQUAL + Height(t.right) - Height(t.left)
  }

  lemma {:induction false} SingleRest(t: Tree, w: Side)
    requires Distinct(t) && t.Bin? && Kid(t, w).Bin?
    ensures Nodes(Kid(t, RevWay(w))) + Nodes(Kid(t, w).left) + Nodes(Kid(t, w).right)
        <= Nodes(t) - {t.node, Kid(t, w).node}
  {
    assert Distinct(Kid(t, w));
  }

  lemma {:induction false} SingleBalanced(t: Tree, b: BalMem, d: BalMem, w: Side)
    requires Distinct(t) && Lopsided(t, b, w) && b[t.node] == w
    requires Kid(t, w).Bin? && b[Kid(t, w).node] != RevWay(w)
    requires SameBals(b, d, Nodes(t) - {t.node, Kid(t, w).node}) && t.node in d && Kid(t, w).node in d
    requires d[t.node] == w - Normalize(b[Kid(t, w).node]) && d[Kid(t, w).node] == b[Kid(t, w).node] - Normalize(w)
    ensures var t1 := Rotated(Hole(Top, w, t.node, Kid(t, RevWay(w))), Kid(t, w));
            Balanced(t1, d) && Height(t1) == Height(t) - (if d[Kid(t, w).node] == EQUAL then 1 else 0)
  {
    hide SameBals, Nodes, Height;
    var v, x := Kid(t, w), Kid(t, RevWay(w));
    var y, z := Kid(v, RevWay(w)), Kid(v, w);
    SingleRest(t, w);
    hide Balanced, Height, Distinct, Nodes;
    var rest := Nodes(t) - {t.node, v.node};
    SameBalsSub(b, d, rest, Nodes(x));
    SameBalsSub(b, d, rest, Nodes(y));
    SameBalsSub(b, d, rest, Nodes(z));
    BalancedSame(x, b, d);
    BalancedSame(y, b, d);
    BalancedSame(z, b, d);
    var inner := Fork(w, t.node, y, x);
    ForkBalanced(w, v.node, z, y, b);
    ForkBalanced(w, t.node, v, x, b);
    ForkBalanced(w, t.node, y, x, d);
    ForkBalanced(RevWay(w), v.node, inner, z, d);
  }

  lemma {:induction false} DoubleNeeded(t: Tree, b: BalMem, w: Side)
    requires Lopsided(t, b, w) && b[t.node] == w && Kid(t, w).Bin? && b[Kid(t, w).node] == RevWay(w)
    ensures CanDouble(t, w) && Kid(Kid(t, w), RevWay(w)).node in b
  {
    var v := Kid(t, w);
    ForkBalanced(w, v.node, Kid(v, w), Kid(v, RevWay(w)), b);
  }

  lemma {:induction false} DoubleRestBalanced(t: Tree, b: BalMem, d: BalMem, w: Side)
    requires CanDouble(t, w) && Distinct(t) && Balanced(t.left, b) && Balanced(t.right, b)
    requires var v := Kid(t, w); SameBals(b, d, Nodes(t) - {t.node, v.node, Kid(v, RevWay(w)).node})
    ensures var v := Kid(t, w); var n := Kid(v, RevWay(w));
            Balanced(Kid(t, RevWay(w)), d) && Balanced(Kid(v, w), d) && Balanced(Kid(n, RevWay(w)), d) &&
                Balanced(Kid(n, w), d)
  {
    var v, x := Kid(t, w), Kid(t, RevWay(w));
    var n, z := Kid(v, RevWay(w)), Kid(v, w);
    var y1, y2 := Kid(n, RevWay(w)), Kid(n, w);
    assert Distinct(v) && Distinct(n) && Balanced(v, b) && Balanced(n, b);
    var rest := Nodes(t) - {t.node, v.node, n.node};
    SameBalsSub(b, d, rest, Nodes(x));
    SameBalsSub(b, d, rest, Nodes(z));
    SameBalsSub(b, d, rest, Nodes(y1));
    SameBalsSub(b, d, rest, Nodes(y2));
    BalancedSame(x, b, d);
    BalancedSame(z, b, d);
    BalancedSame(y1, b, d);
    BalancedSame(y2, b, d);
  }

  lemma {:induction false} DoubleBalanced(t: Tree, b: BalMem, d: BalMem, w: Side)
    requires CanDouble(t, w) && Distinct(t) && Lopsided(t, b, w) && b[t.node] == w
    requires var v := Kid(t, w); var n := Kid(v, RevWay(w));
             && v.node in b && b[v.node] == RevWay(w) && n.node in b
             && SameBals(b, d, Nodes(t) - {t.node, v.node, n.node}) && {t.node, v.node, n.node} <= d.Keys
             && d[n.node] == EQUAL
             && d[t.node] == (if b[n.node] == w then RevWay(w) else EQUAL)
             && d[v.node] == (if b[n.node] == RevWay(w) then w else EQUAL)
    ensures Balanced(DoubleRotated(t, w), d) && Height(DoubleRotated(t, w)) == Height(t) - 1
  {
    hide Balanced, Height, Distinct, Nodes;
    var v, x := Kid(t, w), Kid(t, RevWay(w));
    var n, z := Kid(v, RevWay(w)), Kid(v, w);
    var y1, y2 := Kid(n, RevWay(w)), Kid(n, w);
    DoubleRestBalanced(t, b, d, w);
    ForkBalanced(w, v.node, z, n, b);
    ForkBalanced(w, t.node, v, x, b);
    ForkBalanced(w, n.node, y2, y1, b);
    ForkBalanced(w, t.node, y1, x, d);
    ForkBalanced(w, v.node, z, y2, d);
    ForkBalanced(RevWay(w), n.node, Fork(w, t.node, y1, x), Fork(w, v.node, z, y2), d);
  }

  // What Adjust makes of the subtree t: t1, in balance again.
  ghost predicate Adjusted(t: Tree, b: BalMem, t1: Tree, d: BalMem, w: Side) {
    && t.Bin? && t.node in b && t1.Bin? && t1.node in d && Balanced(t1, d)
    && Inorder(t1) == Inorder(t) && Nodes(t1) == Nodes(t)
    && SameBals(b, d, b.Keys - Nodes(t))
    && (if b[t.node] != w then Height(t1) == Height(t) && d[t1.node] == b[t.node] + Normalize(w)
        else Kid(t, w).Bin? && Kid(t, w).node in b &&
             (d[t1.node] == EQUAL <==> b[Kid(t, w).node] != EQUAL) &&
             Height(t1) == Height(t) - (if d[t1.node] == EQUAL then 1 else 0))
  }

  ghost function SingleRotated(t: Tree, w: Side): Tree
    requires t.Bin? && Kid(t, w).Bin?
  {
    Rotated(Hole(Top, w, t.node, Kid(t, RevWay(w))), Kid(t, w))
  }

  lemma {:induction false} SingleFacts(h: Mem, c: Ctx, t: Tree, w: Side)
    requires Local(h, c, t) && t.Bin? && Kid(t, w).Bin?
    ensures var v := Kid(t, w);
            && v.node in h && h[t.node].Link(w) == v.node && h[v.node].gender == w && h[v.node].parent == t.node
            && Around(h, v.node, t.node, Root(Kid(v, RevWay(w))), UpNode(c), w)
  {
    var v, c2 := Kid(t, w), Hole(c, w, t.node, Kid(t, RevWay(w)));
    Down(h, c, t, w);
    AroundAt(h, c2, v);
    Links(h, c2, v);
  }

  lemma {:induction false} SingleDone(h: Mem, k: Mem, b: BalMem, d: BalMem, c: Ctx, t: Tree, w: Side)
    requires Local(h, c, t) && Lopsided(t, b, w) && b[t.node] == w
    requires Kid(t, w).Bin? && Kid(t, w).node in b && b[Kid(t, w).node] != RevWay(w)
    requires var v := Kid(t, w); var i := Root(Kid(v, RevWay(w)));
             && Around(h, v.node, t.node, i, UpNode(c), w)
             && Rewired(h, k, v.node, t.node, i, UpNode(c), w)
             && Same(h, k, h.Keys - {v.node, t.node} - One(i) - One(UpNode(c)))
    requires d.Keys == b.Keys && SameBals(b, d, b.Keys - {t.node, Kid(t, w).node})
    requires d[t.node] == w - Normalize(b[Kid(t, w).node]) && d[Kid(t, w).node] == b[Kid(t, w).node] - Normalize(w)
    requires Nodes(t) <= b.Keys
    ensures Local(k, c, SingleRotated(t, w)) && Adjusted(t, b, SingleRotated(t, w), d, w)
  {
    var v, c2 := Kid(t, w), Hole(c, w, t.node, Kid(t, RevWay(w)));
    Down(h, c, t, w);
    RotateLifts(h, k, c2, v);
    SameBalsSub(b, d, b.Keys - {t.node, v.node}, Nodes(t) - {t.node, v.node});
    SameBalsSub(b, d, b.Keys - {t.node, v.node}, b.Keys - Nodes(t));
    SingleBalanced(t, b, d, w);
    var c1 := Hole(Top, w, t.node, Kid(t, RevWay(w)));
    RotatedOrder(c1, v);
  }

  // R1 or L1, whichever side is too high.
  method TurnSingle(p: Node, w: Side, ghost v: Node, ghost s: set<Node>, ghost i: Node?, ghost g: Node?)
          returns (q: Node)
    requires p in s && v in s && p.Link(w) == v && v.gender == w && v.parent == p
    requires Around(Snap(s), v, p, i, g, w) && p.balance == w && v.balance != RevWay(w)
    modifies s`left, s`parent, s`right, s`gender, s`balance
    ensures q == v && Rewired(old(Snap(s)), Snap(s), v, p, i, g, w)
    ensures Same(old(Snap(s)), Snap(s), old(Snap(s)).Keys - {v, p} - One(i) - One(g))
    ensures SameBals(old(Bals(s)), Bals(s), old(Bals(s)).Keys - {p, v})
    ensures p.balance == w - Normalize(old(v.balance)) && v.balance == old(v.balance) - Normalize(w)
  {
    hide Rewired;
    if w == LEFT {
      q := R1(p, s, i, g);
    } else {
      q := L1(p, s, i, g);
    }
  }

  method AdjustSingle(p: Node, w: Side, ghost s: set<Node>, ghost c: Ctx, ghost t: Tree)
          returns (q: Node, ghost t1: Tree)
    requires t.Bin? && Local(Snap(s), c, t) && Nodes(t) <= s && Lopsided(t, Bals(s), w) && t.node == p && p.balance == w
    requires Kid(t, w).Bin? && Kid(t, w).node.balance != RevWay(w)
    modifies s`left, s`parent, s`right, s`gender, s`balance
    ensures Local(Snap(s), c, t1) && q == Root(t1) && Adjusted(t, old(Bals(s)), t1, Bals(s), w)
  {
    hide Local, Balanced, Inorder, Height, Distinct, IsTree, Lopsided, Adjusted, Rewired, Nodes, CtxNodes, IsCtx, Same,
        SameBals, Around;
    ghost var h, b, v := Snap(s), Bals(s), Kid(t, w);
    SingleFacts(h, c, t, w);
    ghost var i, g := Root(Kid(v, RevWay(w))), UpNode(c);
    t1 := SingleRotated(t, w);
    q := TurnSingle(p, w, v.node, s, i, g);
    SingleDone(h, Snap(s), b, Bals(s), c, t, w);
  }

  lemma {:induction false} DoubleFacts(h: Mem, b: BalMem, c: Ctx, t: Tree, w: Side)
    requires Local(h, c, t) && Lopsided(t, b, w) && b[t.node] == w && Kid(t, w).Bin? && b[Kid(t, w).node] == RevWay(w)
    ensures CanDouble(t, w)
    ensures var v := Kid(t, w); var n := Kid(v, RevWay(w));
            && n.node in b && {t.node, v.node, n.node} <= Nodes(t)
            && AroundTwo(h, t.node, v.node, n.node, Root(Kid(n, RevWay(w))), Root(Kid(n, w)), UpNode(c), w)
  {
    DoubleNeeded(t, b, w);
    AroundTwoAt(h, c, t, w);
    assert Kid(Kid(t, w), RevWay(w)).node in Nodes(Kid(t, w)) && Nodes(Kid(t, w)) <= Nodes(t);
  }

  lemma {:induction false} DoubleDone(h: Mem, k: Mem, b: BalMem, d: BalMem, c: Ctx, t: Tree, w: Side)
    requires Local(h, c, t) && CanDouble(t, w) && Lopsided(t, b, w) && b[t.node] == w
    requires var v := Kid(t, w); var n := Kid(v, RevWay(w)); var x := Root(Kid(n, RevWay(w))); var y := Root(Kid(n, w));
             && v.node in b && b[v.node] == RevWay(w) && n.node in b
             && AroundTwo(h, t.node, v.node, n.node, x, y, UpNode(c), w)
             && RewiredTwo(h, k, t.node, v.node, n.node, x, y, UpNode(c), w)
             && Same(h, k, h.Keys - {t.node, v.node, n.node} - One(x) - One(y) - One(UpNode(c)))
             && d.Keys == b.Keys && SameBals(b, d, b.Keys - {t.node, v.node, n.node})
             && d[n.node] == EQUAL
             && d[t.node] == (if b[n.node] == w then RevWay(w) else EQUAL)
             && d[v.node] == (if b[n.node] == RevWay(w) then w else EQUAL)
    requires Nodes(t) <= b.Keys
    ensures Local(k, c, DoubleRotated(t, w)) && Adjusted(t, b, DoubleRotated(t, w), d, w)
  {
    var v := Kid(t, w);
    var n := Kid(v, RevWay(w));
    DoubleLifts(h, k, c, t, w);
    DoubleDistinct(c, t, w);
    DoubleOrder(t, w);
    SameBalsSub(b, d, b.Keys - {t.node, v.node, n.node}, Nodes(t) - {t.node, v.node, n.node});
    SameBalsSub(b, d, b.Keys - {t.node, v.node, n.node}, b.Keys - Nodes(t));
    DoubleBalanced(t, b, d, w);
  }

  method AdjustDouble(p: Node, w: Side, ghost s: set<Node>, ghost c: Ctx, ghost t: Tree)
          returns (q: Node, ghost t1: Tree)
    requires t.Bin? && Local(Snap(s), c, t) && Nodes(t) <= s && Lopsided(t, Bals(s), w) && t.node == p && p.balance == w
    requires Kid(t, w).Bin? && Kid(t, w).node in s && Kid(t, w).node.balance == RevWay(w)
    modifies s`left, s`parent, s`right, s`gender, s`balance
    ensures Local(Snap(s), c, t1) && q == Root(t1) && Adjusted(t, old(Bals(s)), t1, Bals(s), w)
  {
    hide Local, Balanced, Inorder, Height, Distinct, IsTree, Lopsided, Adjusted, RewiredTwo, Nodes, CtxNodes, IsCtx,
        Kid, UpNode, One;
    ghost var h, b, v := Snap(s), Bals(s), Kid(t, w);
    DoubleFacts(h, b, c, t, w);
    ghost var n := Kid(v, RevWay(w));
    ghost var x, y, g := Root(Kid(n, RevWay(w))), Root(Kid(n, w)), UpNode(c);
    ghost var around := {p, v.node, n.node} + One(x) + One(y) + One(g);
    t1 := DoubleRotated(t, w);
    if w == LEFT {
      q := R2(p, s, v.node, n.node, x, y, g, around);
    } else {
      q := L2(p, s, v.node, n.node, x, y, g, around);
    }
    assert Same(h, Snap(s), h.Keys - around);
    assert h.Keys - {p, v.node, n.node} - One(x) - One(y) - One(g) == h.Keys - around;
    DoubleDone(h, Snap(s), b, Bals(s), c, t, w);
  }

  method Adjust(p: Node, LorR: Side, ghost s: set<Node>, ghost c: Ctx, ghost t: Tree) returns (q: Node, ghost t1: Tree)
    requires t.Bin? && Local(Snap(s), c, t) && Nodes(t) <= s && Lopsided(t, Bals(s), LorR) && t.node == p
    modifies s`left, s`parent, s`right, s`gender, s`balance
    ensures Local(Snap(s), c, t1) && q == Root(t1) && Adjusted(t, old(Bals(s)), t1, Bals(s), LorR)
  {
    hide Nodes, Lopsided, Distinct, IsTree;
    Links(Snap(s), c, t);
    if p.balance != LorR {
      ghost var b := Bals(s);
      p.balance := p.balance + Normalize(LorR);
      q, t1 := p, t;
      CodeDone(b, Bals(s), t, LorR);
    } else {
      TallKid(t, Bals(s), LorR);
      var tallerbal := p.Link(LorR).balance;
      if tallerbal == EQUAL || p.balance == tallerbal {
        q, t1 := AdjustSingle(p, LorR, s, c, t);
      } else {
        q, t1 := AdjustDouble(p, LorR, s, c, t);
      }
    }
  }

  lemma {:induction false} TallKid(t: Tree, b: BalMem, w: Side)
    requires Lopsided(t, b, w) && b[t.node] == w
    ensures Kid(t, w).Bin? && Kid(t, w).node in Nodes(t)
  {}

  lemma {:induction false} CodeDone(b: BalMem, d: BalMem, t: Tree, w: Side)
    requires Lopsided(t, b, w) && b[t.node] != w && Nodes(t) <= b.Keys && Distinct(t)
    requires d == b[t.node := b[t.node] + Normalize(w)]
    ensures Adjusted(t, b, t, d, w)
  {
    BalancedSame(t.left, b, d);
    BalancedSame(t.right, b, d);
  }

  // ---------- walking up: early exits ----------

  // u, in the hole of c, has become one higher than the codes above it say.
  ghost predicate Growing(c: Ctx, u: Tree, b: BalMem) {
    && u.Bin? && u.node in b && Balanced(u, b) && BalancedCtx(c, b, Height(u) - 1)
    && (b[u.node] == EQUAL ==> Height(u) == 1)
  }

  // u, in the hole of c, has become one lower than the codes above it say.
  ghost predicate Shrinking(c: Ctx, u: Tree, b: BalMem) {
    Balanced(u, b) && BalancedCtx(c, b, Height(u) + 1)
  }

  ghost function ForkAbove(c: Ctx, u: Tree): (t: Tree)
    requires c.Hole?
    ensures t.Bin? && t.node == c.node && Plug(c.up, t) == Plug(c, u)
  {
    Fork(c.way, c.node, u, c.sib)
  }

  lemma {:induction false} GrowthMeets(c: Ctx, u: Tree, b: BalMem)
    requires c.Hole? && Growing(c, u, b)
    ensures Lopsided(ForkAbove(c, u), b, c.way)
  {}

  lemma {:induction false} LossMeets(c: Ctx, u: Tree, b: BalMem)
    requires c.Hole? && Shrinking(c, u, b)
    ensures Lopsided(ForkAbove(c, u), b, RevWay(c.way))
  {}

  // A root code of EQUAL after an insertion: the subtree has its old height again.
  lemma {:induction false} GrowthHeights(c: Ctx, u: Tree, b: BalMem, t1: Tree, d: BalMem)
    requires c.Hole? && Growing(c, u, b) && Adjusted(ForkAbove(c, u), b, t1, d, c.way)
    ensures Height(u) > 0
    ensures var h := ForkHeight(Height(u) - 1, Height(c.sib));
            BalancedCtx(c.up, b, h) && Height(t1) == h + if d[t1.node] == EQUAL then 0 else 1
  {
    hide Nodes, Inorder, Plug;
    ForkBalanced(c.way, c.node, u, c.sib, b);
  }

  // A root code other than EQUAL after a removal: the subtree has its old height again.
  lemma {:induction false} LossHeights(c: Ctx, u: Tree, b: BalMem, t1: Tree, d: BalMem)
    requires c.Hole? && Shrinking(c, u, b) && Adjusted(ForkAbove(c, u), b, t1, d, RevWay(c.way))
    ensures var h := ForkHeight(Height(u) + 1, Height(c.sib));
            BalancedCtx(c.up, b, h) && Height(t1) == h - if d[t1.node] == EQUAL then 1 else 0
  {
    hide Nodes, Inorder, Plug;
    ForkBalanced(c.way, c.node, u, c.sib, b);
  }

  // The part of the tree above t1, expecting height h, does not notice the adjustment.
  lemma {:induction false} AboveStays(up: Ctx, t: Tree, b: BalMem, t1: Tree, d: BalMem, w: Side, h: nat)
    requires Adjusted(t, b, t1, d, w) && BalancedCtx(up, b, h) && CtxNodes(up) <= b.Keys && CtxNodes(up) !! Nodes(t)
    ensures BalancedCtx(up, d, h) && (Height(t1) == h || up.Top? ==> Balanced(Plug(up, t1), d))
  {
    SameBalsSub(b, d, b.Keys - Nodes(t), CtxNodes(up));
    BalancedCtxSame(up, b, d, h);
    PlugBalanced(up, t1, d);
  }

  lemma {:induction false} GrowthGoesOn(c: Ctx, u: Tree, b: BalMem, t1: Tree, d: BalMem)
    requires c.Hole? && Growing(c, u, b) && Adjusted(ForkAbove(c, u), b, t1, d, c.way)
    requires CtxNodes(c.up) <= b.Keys && CtxNodes(c.up) !! Nodes(ForkAbove(c, u))
    ensures d[t1.node] == EQUAL || c.up.Top? ==> Balanced(Plug(c.up, t1), d)
    ensures d[t1.node] != EQUAL ==> Growing(c.up, t1, d)
  {
    hide Nodes, Inorder, Plug, Balanced, BalancedCtx, Height;
    GrowthHeights(c, u, b, t1, d);
    AboveStays(c.up, ForkAbove(c, u), b, t1, d, c.way, ForkHeight(Height(u) - 1, Height(c.sib)));
  }

  lemma {:induction false} LossGoesOn(c: Ctx, u: Tree, b: BalMem, t1: Tree, d: BalMem)
    requires c.Hole? && Shrinking(c, u, b) && Adjusted(ForkAbove(c, u), b, t1, d, RevWay(c.way))
    requires CtxNodes(c.up) <= b.Keys && CtxNodes(c.up) !! Nodes(ForkAbove(c, u))
    ensures d[t1.node] != EQUAL || c.up.Top? ==> Balanced(Plug(c.up, t1), d)
    ensures d[t1.node] == EQUAL ==> Shrinking(c.up, t1, d)
  {
    hide Nodes, Inorder, Plug, Balanced, BalancedCtx, Height;
    LossHeights(c, u, b, t1, d);
    AboveStays(c.up, ForkAbove(c, u), b, t1, d, RevWay(c.way), ForkHeight(Height(u) + 1, Height(c.sib)));
  }

  // The walk has reached t1 in the hole of c: the tree is still the one of in-order sequence
  // all, rooted at root unless the top has been reached.
  ghost predicate Climbing(h: Mem, c: Ctx, t: Tree, s: set<Node>, all: seq<Node>, root: Node?) {
    var climbing := Local(h, c, t) && Nodes(Plug(c, t)) == s && Inorder(Plug(c, t)) == all &&
        (c.Hole? ==> root == Root(Plug(c, t)));
    climbing
  }

  lemma {:induction false} ClimbFacts(h: Mem, c: Ctx, u: Tree, s: set<Node>, all: seq<Node>, root: Node?)
    requires Climbing(h, c, u, s, all, root) && c.Hole?
    ensures Local(h, c.up, ForkAbove(c, u)) && Nodes(ForkAbove(c, u)) <= s && CtxNodes(c.up) <= s
    ensures CtxNodes(c.up) !! Nodes(ForkAbove(c, u))
  {
    Up(h, c, u);
    PlugNodes(c.up, ForkAbove(c, u));
  }

  lemma {:induction false} Climbed(h: Mem, k: Mem, c: Ctx, u: Tree, b: BalMem, t1: Tree, d: BalMem, w: Side,
          s: set<Node>, all: seq<Node>, root: Node?)
    requires Climbing(h, c, u, s, all, root) && c.Hole? && Adjusted(ForkAbove(c, u), b, t1, d, w) && Local(k, c.up, t1)
    ensures Climbing(k, c.up, t1, s, all, root)
    ensures t1.node in k && k[t1.node].parent == UpNode(c.up) && k[t1.node].gender == UpWay(c.up)
  {
    var t := ForkAbove(c, u);
    PlugNodes(c.up, t);
    PlugNodes(c.up, t1);
    PlugInorder(c.up, t);
    PlugInorder(c.up, t1);
    PlugRoot(c.up, t, t1);
    PlugRoot(c.up, t1, t);
    Links(k, c.up, t1);
  }

  lemma {:induction false} ClimbOver(h: Mem, c: Ctx, t: Tree, s: set<Node>, all: seq<Node>, root: Node?)
    requires Climbing(h, c, t, s, all, root)
    ensures Whole(h, Plug(c, t)) && Nodes(Plug(c, t)) == s && Inorder(Plug(c, t)) == all
    ensures c.Hole? ==> root == Root(Plug(c, t))
    ensures c.Top? ==> Root(t) == Root(Plug(c, t))
  {
    WholeIffLocal(h, c, t);
  }

  // Adjust, as the walk up sees it.
  method AdjustAbove(p: Node, w: Side, ghost s: set<Node>, ghost c: Ctx, ghost u: Tree, ghost all: seq<Node>,
          ghost root: Node?)
    returns (q: Node, ghost t1: Tree)
    requires c.Hole? && p == c.node && Climbing(Snap(s), c, u, s, all, root) && Lopsided(ForkAbove(c, u), Bals(s), w)
    modifies s`left, s`parent, s`right, s`gender, s`balance
    ensures Adjusted(ForkAbove(c, u), old(Bals(s)), t1, Bals(s), w) && Climbing(Snap(s), c.up, t1, s, all, root)
    ensures t1.Bin? && q == t1.node && q in s && q.parent == UpNode(c.up) && q.gender == UpWay(c.up)
    ensures CtxNodes(c.up) <= s && CtxNodes(c.up) !! Nodes(ForkAbove(c, u))
  {
    hide Local, Balanced, Inorder, Height, IsTree, Lopsided, Adjusted, Nodes, CtxNodes, IsCtx, Plug, Climbing, Whole;
    ghost var h, b := Snap(s), Bals(s);
    ClimbFacts(h, c, u, s, all, root);
    q, t1 := Adjust(p, w, s, c.up, ForkAbove(c, u));
    Climbed(h, Snap(s), c, u, b, t1, Bals(s), w, s, all, root);
  }

  method Rebalance(root: Node?, subtree0: Node?, LorR0: Way, ghost s: set<Node>, ghost c0: Ctx, ghost u0: Tree)
    returns (newRoot: Node?, ghost T1: Tree)
    requires Climbing(Snap(s), c0, u0, s, Inorder(Plug(c0, u0)), root) && Growing(c0, u0, Bals(s))
    requires root == Root(Plug(c0, u0)) && subtree0 == UpNode(c0) && LorR0 == UpWay(c0)
    modifies s`left, s`parent, s`right, s`gender, s`balance
    ensures Whole(Snap(s), T1) && Nodes(T1) == s && Inorder(T1) == Inorder(Plug(c0, u0)) && newRoot == Root(T1)
    ensures Balanced(T1, Bals(s))
  {
    hide Local, Balanced, Inorder, Height, IsTree, Lopsided, Adjusted, Nodes, CtxNodes, IsCtx, Growing, Shrinking,
        Plug, Climbing, Whole, BalancedCtx;
    ghost var c, u, all := c0, u0, Inorder(Plug(c0, u0));
    var subtree, LorR := subtree0, LorR0;
    while subtree != null
      invariant Climbing(Snap(s), c, u, s, all, root) && Growing(c, u, Bals(s))
      invariant subtree == UpNode(c) && LorR == UpWay(c) && (c.Top? ==> c0.Top? && u == u0)
      decreases c
    {
      ghost var b := Bals(s);
      GrowthMeets(c, u, b);
      ghost var t1;
      subtree, t1 := AdjustAbove(subtree, LorR, s, c, u, all, root);
      GrowthGoesOn(c, u, b, t1, Bals(s));
      if subtree.gender == PARENT {
        ClimbOver(Snap(s), c.up, t1, s, all, root);
        return subtree, Plug(c.up, t1);
      }
      if subtree.balance == EQUAL {
        ClimbOver(Snap(s), c.up, t1, s, all, root);
        return root, Plug(c.up, t1);
      }
      LorR := subtree.gender;
      subtree := subtree.parent;
      c, u := c.up, t1;
    }
    ClimbOver(Snap(s), c, u, s, all, root);
    GrowthOver(c, u, Bals(s));
    newRoot, T1 := root, u;
  }

  lemma {:induction false} GrowthOver(c: Ctx, u: Tree, b: BalMem)
    requires c.Top?
    ensures Growing(c, u, b) ==> Balanced(u, b)
    ensures Shrinking(c, u, b) ==> Balanced(u, b)
    ensures Plug(c, u) == u
  {}

  method Debalance(root: Node?, subtree0: Node?, LorR0: Way, ghost s: set<Node>, ghost c0: Ctx, ghost u0: Tree)
    returns (newRoot: Node?, ghost T1: Tree)
    requires Climbing(Snap(s), c0, u0, s, Inorder(Plug(c0, u0)), root) && Shrinking(c0, u0, Bals(s))
    requires root == Root(Plug(c0, u0)) && subtree0 == UpNode(c0) && LorR0 == UpWay(c0)
    modifies s`left, s`parent, s`right, s`gender, s`balance
    ensures Whole(Snap(s), T1) && Nodes(T1) == s && Inorder(T1) == Inorder(Plug(c0, u0)) && newRoot == Root(T1)
    ensures Balanced(T1, Bals(s))
  {
    hide Local, Balanced, Inorder, Height, IsTree, Lopsided, Adjusted, Nodes, CtxNodes, IsCtx, Growing, Shrinking,
        Plug, Climbing, Whole, BalancedCtx;
    ghost var c, u, all := c0, u0, Inorder(Plug(c0, u0));
    var subtree, LorR := subtree0, LorR0;
    while subtree != null
      invariant Climbing(Snap(s), c, u, s, all, root) && Shrinking(c, u, Bals(s))
      invariant subtree == UpNode(c) && LorR == UpWay(c) && (c.Top? ==> c0.Top? && u == u0)
      decreases c
    {
      ghost var b := Bals(s);
      LossMeets(c, u, b);
      ghost var t1;
      subtree, t1 := AdjustAbove(subtree, RevWay(LorR), s, c, u, all, root);
      LossGoesOn(c, u, b, t1, Bals(s));
      if subtree.gender == PARENT {
        ClimbOver(Snap(s), c.up, t1, s, all, root);
        return subtree, Plug(c.up, t1);
      }
      if subtree.balance != EQUAL {
        ClimbOver(Snap(s), c.up, t1, s, all, root);
        return root, Plug(c.up, t1);
      }
      LorR := subtree.gender;
      subtree := subtree.parent;
      c, u := c.up, t1;
    }
    ClimbOver(Snap(s), c, u, s, all, root);
    GrowthOver(c, u, Bals(s));
    newRoot, T1 := root, u;
  }

  // ---------- the exported operations ----------

  ghost predicate InBalance(hdr: TreeRoot)
    reads hdr, Nodes(hdr.tree)`balance
  {
    Balanced(hdr.tree, Bals(Nodes(hdr.tree)))
  }

  // What Insert's leaf does to a balanced tree.
  lemma {:induction false} LeafGrows(h: Mem, T: Tree, b: BalMem, T1: Tree, d: BalMem, c: Ctx, n: Node)
    requires Balanced(T, b) && T == Plug(c, Nil) && T1 == Plug(c, Bin(Nil, n, Nil)) && SameBals(b, d, Nodes(T))
    requires n in d && d[n] == EQUAL && Whole(h, T1)
    ensures Growing(c, Bin(Nil, n, Nil), d)
    ensures Climbing(h, c, Bin(Nil, n, Nil), Nodes(T1), Inorder(T1), Root(T1))
    ensures n in h && h[n].parent == UpNode(c) && h[n].gender == UpWay(c)
  {
    var u := Bin(Nil, n, Nil);
    PlugBalanced(c, Nil, b);
    PlugNodes(c, Nil);
    SameBalsSub(b, d, Nodes(T), CtxNodes(c));
    BalancedCtxSame(c, b, d, 0);
    WholeIffLocal(h, c, u);
    Links(h, c, u);
  }

  lemma {:induction false} RestParts(c: Ctx, u: Tree)
    requires u.Bin? && Distinct(Plug(c, u))
    ensures CtxNodes(c) + Nodes(u.left) + Nodes(u.right) <= Nodes(Plug(c, u)) - {u.node}
  {
    PlugNodes(c, u);
    PlugDistinct(c, u);
  }

  // A node that takes over place and code of another one.
  lemma {:induction false} CodeTaken(T: Tree, b: BalMem, T1: Tree, d: BalMem, c: Ctx, u: Tree, n: Node)
    requires u.Bin? && Balanced(T, b) && T == Plug(c, u) && T1 == Plug(c, Bin(u.left, n, u.right)) && Distinct(T)
    requires SameBals(b, d, Nodes(T) - {u.node}) && u.node in b && n in d && d[n] == b[u.node]
    ensures Balanced(T1, d)
  {
    PlugBalanced(c, u, b);
    var rest := Nodes(T) - {u.node};
    RestParts(c, u);
    ForkBalanced(LEFT, u.node, u.left, u.right, b);
    ForkBalanced(LEFT, n, u.left, u.right, d);
    hide Nodes, CtxNodes, Distinct, Plug, Balanced, BalancedCtx, Height;
    SameBalsSub(b, d, rest, CtxNodes(c));
    SameBalsSub(b, d, rest, Nodes(u.left));
    SameBalsSub(b, d, rest, Nodes(u.right));
    BalancedCtxSame(c, b, d, Height(u));
    BalancedSame(u.left, b, d);
    BalancedSame(u.right, b, d);
    PlugBalanced(c, Bin(u.left, n, u.right), d);
  }

  // What Remove does to a balanced tree T: t was the place it removed, with the codes of T.
  lemma {:induction false} HeirShrinks(T: Tree, b0: BalMem, h: Mem, c: Ctx, t: Tree, b: BalMem, d: BalMem)
    requires Balanced(T, b0) && CodesOf(Plug(c, t), b) == CodesOf(T, b0) && Nodes(T) <= b0.Keys &&
        Nodes(Plug(c, t)) <= b.Keys
    requires t.Bin? && (t.left.Nil? || t.right.Nil?) && Whole(h, Plug(c, Heir(t)))
    requires SameBals(b, d, Nodes(Plug(c, Heir(t))))
    ensures Shrinking(c, Heir(t), d)
    ensures Climbing(h, c, Heir(t), Nodes(Plug(c, Heir(t))), Inorder(Plug(c, Heir(t))), Root(Plug(c, Heir(t))))
  {
    BalancedCodes(T, b0, Plug(c, t), b);
    PlugBalanced(c, t, b);
    PlugNodes(c, Heir(t));
    SameBalsSub(b, d, Nodes(Plug(c, Heir(t))), CtxNodes(c));
    SameBalsSub(b, d, Nodes(Plug(c, Heir(t))), Nodes(Heir(t)));
    BalancedCtxSame(c, b, d, Height(t));
    BalancedSame(Heir(t), b, d);
    WholeIffLocal(h, c, Heir(t));
  }

  // Rebalance on a whole tree that has gained the leaf NewNode.
  method AfterInsert(hdr: TreeRoot, NewNode: Node, ghost T: Tree, ghost b: BalMem, ghost c: Ctx)
    requires hdr.Shape() && Balanced(T, b) && T == Plug(c, Nil) && hdr.tree == Plug(c, Bin(Nil, NewNode, Nil))
    requires SameBals(b, Bals(Nodes(hdr.tree)), Nodes(T)) && NewNode.balance == EQUAL && NewNode in Nodes(hdr.tree)
    modifies hdr`root, hdr`tree, Nodes(hdr.tree)`left, Nodes(hdr.tree)`parent, Nodes(hdr.tree)`right,
        Nodes(hdr.tree)`gender
    modifies Nodes(hdr.tree)`balance
    ensures hdr.Shape() && InBalance(hdr)
    ensures Nodes(hdr.tree) == old(Nodes(hdr.tree)) && Inorder(hdr.tree) == old(Inorder(hdr.tree))
  {
    hide Local, Balanced, Inorder, Height, IsTree, Nodes, Growing, Plug, Climbing, Whole, SameBals, Size;
    ghost var s, T0 := Nodes(hdr.tree), hdr.tree;
    LeafGrows(Snap(s), T, b, T0, Bals(s), c, NewNode);
    var root;
    ghost var T1;
    root, T1 := Rebalance(hdr.root, NewNode.parent, NewNode.gender, s, c, Bin(Nil, NewNode, Nil));
    Replant(hdr, root, T1);
  }

  // The header takes over the tree as it is after the walk up.
  method Replant(hdr: TreeRoot, root: Node?, ghost T1: Tree)
    requires Whole(Snap(Nodes(T1)), T1) && Balanced(T1, Bals(Nodes(T1))) && root == Root(T1)
    requires Nodes(T1) == Nodes(hdr.tree) && Inorder(T1) == Inorder(hdr.tree) && hdr.count == Size(hdr.tree)
    modifies hdr`root, hdr`tree
    ensures hdr.Shape() && InBalance(hdr)
    ensures Nodes(hdr.tree) == old(Nodes(hdr.tree)) && Inorder(hdr.tree) == old(Inorder(hdr.tree))
  {
    hide Balanced, Inorder, IsTree, Nodes, Whole, Size, Distinct;
    InorderNodes(hdr.tree);
    InorderNodes(T1);
    hdr.root := root;
    hdr.tree := T1;
  }

  method Insert(hdr: TreeRoot, NewNode: Node, ItemPtr: int)
    returns (ok: bool, OldNode: Node?, ghost c: Ctx, ghost u: Tree, ghost T0: Tree)
    requires hdr.Valid() && InBalance(hdr) && NewNode !in Nodes(hdr.tree) && ItemPtr == NewNode.key
    modifies hdr`root, hdr`count, hdr`tree, Nodes(hdr.tree)`balance
    modifies Nodes(hdr.tree)`left, Nodes(hdr.tree)`parent, Nodes(hdr.tree)`right, Nodes(hdr.tree)`gender
    modifies NewNode`left, NewNode`parent, NewNode`right, NewNode`gender, NewNode`balance
    ensures hdr.Valid() && InBalance(hdr)
    // T0 is what the plain insertion makes of the tree; its traversal order stays.
    ensures Inorder(hdr.tree) == Inorder(T0)
    ensures OldNode == null <==>
        hdr.flags.dupkey || forall n <- old(Nodes(hdr.tree)) :: Heading(hdr.cmp, ItemPtr, n) != EQUAL
    ensures OldNode != null ==> OldNode in old(Nodes(hdr.tree)) && Heading(hdr.cmp, ItemPtr, OldNode) == EQUAL
    ensures ok <==> OldNode == null || hdr.flags.overwrite
    ensures OldNode == null ==> Grown(old(hdr.tree), T0, c, NewNode, hdr.cmp, hdr.flags.dupkey)
    ensures OldNode != null && ok ==> Overwritten(old(hdr.tree), T0, c, u, OldNode, NewNode, hdr.cmp)
    ensures !ok ==> T0 == old(hdr.tree) == hdr.tree
    ensures Nodes(hdr.tree) == if ok then old(Nodes(hdr.tree)) - One(OldNode) + {NewNode} else old(Nodes(hdr.tree))
    ensures hdr.count == old(hdr.count) + if OldNode == null then 1 else 0
  {
    hide Ordered, Preorder, Plug, Inorder, Distinct, Nodes, Whole, Heading, Size, Balanced, Height, AllWays;
    ghost var T, b := hdr.tree, Bals(Nodes(hdr.tree));
    WholeIsLocal(Snap(Nodes(T)), T);
    ok, OldNode, c, u := BinTree.Insert(hdr, NewNode, ItemPtr);
    T0 := hdr.tree;
    if ok {
      if OldNode != null {
        NewNode.balance := OldNode.balance;
        CodeTaken(T, b, T0, Bals(Nodes(T0)), c, u, NewNode);
      } else {
        NewNode.balance := EQUAL;
        AfterInsert(hdr, NewNode, T, b, c);
      }
    } else {
      assert Bals(Nodes(hdr.tree)) == b;
    }
  }

  method Remove(hdr: TreeRoot, DeadNode: Node) returns (r: Node)
    requires hdr.Shape() && InBalance(hdr) && DeadNode in Nodes(hdr.tree)
    modifies hdr`root, hdr`count, hdr`tree, Nodes(hdr.tree)`balance
    modifies Nodes(hdr.tree)`left, Nodes(hdr.tree)`parent, Nodes(hdr.tree)`right, Nodes(hdr.tree)`gender
    ensures r == DeadNode && hdr.Shape() && InBalance(hdr)
    ensures Inorder(hdr.tree) == old(Without(Inorder(hdr.tree), DeadNode))
    ensures Nodes(hdr.tree) == old(Nodes(hdr.tree)) - {DeadNode} && hdr.count == old(hdr.count) - 1
    ensures old(hdr.Sorted()) ==> hdr.Sorted()
  {
    hide Ordered, Preorder, Plug, Inorder, Distinct, Nodes, Whole, Size, Balanced, Height, Without, CodesOf, Heir,
        Climbing, Shrinking;
    ghost var T, b, c, t := hdr.tree, Bals(Nodes(hdr.tree)), Top, Nil;
    r, c, t := BinTree.Remove(hdr, DeadNode);
    ghost var nodes := Nodes(hdr.tree);
    HeirShrinks(T, b, Snap(nodes), c, t, Bals(Nodes(T)), Bals(nodes));
    AfterRemove(hdr, DeadNode, c, Heir(t));
  }

  // Debalance on a whole tree that has lost DeadNode, above v.
  method AfterRemove(hdr: TreeRoot, DeadNode: Node, ghost c: Ctx, ghost v: Tree)
    requires hdr.Shape() && DeadNode.parent == UpNode(c) && DeadNode.gender == UpWay(c) && hdr.tree == Plug(c, v)
    requires Climbing(Snap(Nodes(hdr.tree)), c, v, Nodes(hdr.tree), Inorder(hdr.tree), Root(hdr.tree))
    requires Shrinking(c, v, Bals(Nodes(hdr.tree)))
    modifies hdr`root, hdr`tree, Nodes(hdr.tree)`left, Nodes(hdr.tree)`parent, Nodes(hdr.tree)`right,
        Nodes(hdr.tree)`gender
    modifies Nodes(hdr.tree)`balance
    ensures hdr.Shape() && InBalance(hdr)
    ensures Nodes(hdr.tree) == old(Nodes(hdr.tree)) && Inorder(hdr.tree) == old(Inorder(hdr.tree))
  {
    hide Local, Balanced, Inorder, Height, IsTree, Nodes, Shrinking, Plug, Climbing, Whole, Size;
    var root;
    ghost var T1;
    root, T1 := Debalance(hdr.root, DeadNode.parent, DeadNode.gender, Nodes(hdr.tree), c, v);
    Replant(hdr, root, T1);
  }

  // The nodes of the tree after a step, which names a node: in the tree already, it is taken out;
  // otherwise it is put in, as far as the flags let it.
  ghost function Toggled(cmp: Cmp, flags: Flags, s: set<Node>, n: Node): set<Node> {
    if n in s then s - {n} else Entered(cmp, flags, s, n)
  }

  ghost function Members(cmp: Cmp, flags: Flags, steps: seq<Node>): set<Node> {
    if steps == [] then {} else
      Toggled(cmp, flags, Members(cmp, flags, steps[..|steps| - 1]), steps[|steps| - 1])
  }

  // Every run of such steps: the tree holds the nodes it should, sorted and in balance.
  method Run(hdr: TreeRoot, steps: seq<Node>)
    requires hdr.Valid() && hdr.tree == Nil
    modifies hdr`root, hdr`count, hdr`tree
    modifies (set n <- steps)`left, (set n <- steps)`parent, (set n <- steps)`right
    modifies (set n <- steps)`gender, (set n <- steps)`balance
    ensures hdr.Valid() && InBalance(hdr) && Height(hdr.tree) <= 2 * Log2(hdr.count + 1) + 1
    ensures Nodes(hdr.tree) == Members(hdr.cmp, hdr.flags, steps)
  {
    hide Ordered, Preorder, Plug, Inorder, Distinct, Whole, Heading, Size, Height, Bals, Snap, Entered;
    ghost var pool := set n <- steps;
    var members: set<Node> := {};
    assert steps[..0] == [];
    for i := 0 to |steps|
      invariant hdr.Valid() && InBalance(hdr) && members == Nodes(hdr.tree) <= pool
      invariant members == Members(hdr.cmp, hdr.flags, steps[..i])
    {
      assert steps[..i + 1][..i] == steps[..i];
      members := Toggle(hdr, steps[i], members, pool);
    }
    assert steps[..|steps|] == steps;
    HeightIsLogarithmic(hdr.tree, Bals(Nodes(hdr.tree)));
  }

  method Toggle(hdr: TreeRoot, n: Node, members: set<Node>, ghost pool: set<Node>) returns (members': set<Node>)
    requires hdr.Valid() && InBalance(hdr) && members == Nodes(hdr.tree) <= pool && n in pool
    modifies hdr`root, hdr`count, hdr`tree
    modifies pool`left, pool`parent, pool`right, pool`gender, pool`balance
    ensures hdr.Valid() && InBalance(hdr) && members' == Nodes(hdr.tree) <= pool
    ensures members' == Toggled(hdr.cmp, hdr.flags, members, n)
  {
    hide Ordered, Preorder, Plug, Inorder, Distinct, Whole, Heading, Size, Height, Bals, Snap, Entered, Nodes;
    if n in members {
      var r := Remove(hdr, n);
      members' := members - {n};
    } else {
      var ok, OldNode;
      ghost var T := hdr.tree;
      ghost var c, u, T0;
      ok, OldNode, c, u, T0 := Insert(hdr, n, n.key);
      InsertEntered(hdr.cmp, hdr.flags, T, n, OldNode);
      members' := if ok then members - (if OldNode == null then {} else {OldNode}) + {n} else members;
    }
  }
}
