/** Nodes of the ubiqx binary trees and the shapes they form in memory.

    A node is an object with three links, a gender and a balance code.  A `Tree`
    is the abstract binary tree of node objects; a `Ctx` is a tree with one hole,
    used wherever the source walks along parent links.  `IsTree` and `IsCtx` say
    that the links and genders held in memory are those of the abstract shape. */
module TreeShape {

  const LEFT: int := 0
  const PARENT: int := 1
  const RIGHT: int := 2
  const EQUAL: int := PARENT

  type Way = w: int | LEFT <= w <= RIGHT
  type Side = w: int | w == LEFT || w == RIGHT

  function Normalize(w: Way): int {
    w - EQUAL
  }

  function RevWay(w: Way): Way {
    EQUAL - (w - EQUAL)
  }

  function Sgn(x: int): int {
    if x == 0 then 0 else if x > 0 then 1 else -1
  }

  function AbNormal(x: int): Way {
    Sgn(x) + EQUAL
  }

  // The links and gender of one node.
  datatype Cell = Cell(left: Node?, parent: Node?, right: Node?, gender: Way) {
    function Link(w: Way): Node? {
      if w == LEFT then left else if w == PARENT then parent else right
    }

    function With(w: Way, v: Node?): Cell {
      if w == LEFT then this.(left := v) else if w == PARENT then this.(parent := v) else this.(right := v)
    }
  }

  // A snapshot of the links and genders of a set of nodes.
  type Mem = map<Node, Cell>

  // A tree node together with the record that embeds it.  `key` and `value` are
  // opaque handles: what the comparison function and the owner see in the record.
  class Node {
    var left: Node?
    var parent: Node?
    var right: Node?
    var gender: Way
    var balance: Way
    const key: int
    const value: int
    var entrySize: nat

    constructor (key: int, value: int)
      ensures Fields() == Cell(null, null, null, EQUAL) && balance == EQUAL
      ensures this.key == key && this.value == value && entrySize == 0
    {
      left, parent, right, gender, balance := null, null, null, EQUAL, EQUAL;
      this.key, this.value, entrySize := key, value, 0;
    }

    function Link(w: Way): Node?
      reads this`left, this`parent, this`right
    {
      if w == LEFT then left else if w == PARENT then parent else right
    }

    method SetLink(w: Way, v: Node?)
      modifies this`left, this`parent, this`right
      ensures Fields() == old(Fields()).With(w, v)
    {
      if w == LEFT {
        left := v;
      } else if w == PARENT {
        parent := v;
      } else {
        right := v;
      }
    }

    ghost function Fields(): Cell
      reads this`left, this`parent, this`right, this`gender
    {
      Cell(left, parent, right, gender)
    }
  }

  ghost function Snap(s: set<Node>): Mem
    reads s`left, s`parent, s`right, s`gender
  {
    map n <- s :: n.Fields()
  }

  type BalMem = map<Node, Way>

  ghost function Bals(s: set<Node>): BalMem
    reads s`balance
  {
    map n <- s :: n.balance
  }

  // ---------- abstract shapes ----------

  datatype Tree = Nil | Bin(left: Tree, node: Node, right: Tree)

  datatype Ctx = Top | Hole(up: Ctx, way: Side, node: Node, sib: Tree)

  // The tree with root n whose w-side subtree is near and whose other subtree is far.
  ghost function Fork(w: Side, n: Node, near: Tree, far: Tree): Tree {
    if w == LEFT then Bin(near, n, far) else Bin(far, n, near)
  }

  ghost function Kid(t: Tree, w: Side): Tree
    requires t.Bin?
  {
    if w == LEFT then t.left else t.right
  }

  ghost function Root(t: Tree): Node? {
    if t.Nil? then null else t.node
  }

  ghost function UpNode(c: Ctx): Node? {
    if c.Top? then null else c.node
  }

  ghost function UpWay(c: Ctx): Way {
    if c.Top? then PARENT else c.way
  }

  ghost function One(n: Node?): set<Node> {
    if n == null then {} else {n}
  }

  ghost function Plug(c: Ctx, t: Tree): Tree {
    match c
    case Top => t
    case Hole(up, w, n, sib) => Plug(up, Fork(w, n, t, sib))
  }

  ghost function Nodes(t: Tree): set<Node> {
    match t
    case Nil => {}
    case Bin(l, n, r) => Nodes(l) + {n} + Nodes(r)
  }

  ghost function CtxNodes(c: Ctx): set<Node> {
    match c
    case Top => {}
    case Hole(up, w, n, sib) => CtxNodes(up) + {n} + Nodes(sib)
  }

  ghost function Size(t: Tree): nat {
    match t
    case Nil => 0
    case Bin(l, n, r) => Size(l) + 1 + Size(r)
  }

  ghost function Height(t: Tree): nat {
    match t
    case Nil => 0
    case Bin(l, n, r) => 1 + if Height(l) < Height(r) then Height(r) else Height(l)
  }

  ghost function Inorder(t: Tree): seq<Node> {
    match t
    case Nil => []
    case Bin(l, n, r) => Inorder(l) + [n] + Inorder(r)
  }

  ghost function Postorder(t: Tree): seq<Node> {
    match t
    case Nil => []
    case Bin(l, n, r) => Postorder(l) + Postorder(r) + [n]
  }

  // What precedes and follows the hole in traversal order.
  ghost function Before(c: Ctx): seq<Node> {
    match c
    case Top => []
    case Hole(up, w, n, sib) => if w == LEFT then Before(up) else Before(up) + (Inorder(sib) + [n])
  }

  ghost function After(c: Ctx): seq<Node> {
    match c
    case Top => []
    case Hole(up, w, n, sib) => if w == LEFT then ([n] + Inorder(sib)) + After(up) else After(up)
  }

  // What precedes and follows the hole in children-first order.
  ghost function PostBefore(c: Ctx): seq<Node> {
    match c
    case Top => []
    case Hole(up, w, n, sib) => if w == LEFT then PostBefore(up) else PostBefore(up) + Postorder(sib)
  }

  ghost function PostAfter(c: Ctx): seq<Node> {
    match c
    case Top => []
    case Hole(up, w, n, sib) => (if w == LEFT then Postorder(sib) + [n] else [n]) + PostAfter(up)
  }

  ghost predicate Distinct(t: Tree) {
    match t
    case Nil => true
    case Bin(l, n, r) =>
      n !in Nodes(l) && n !in Nodes(r) && Nodes(l) !! Nodes(r) && Distinct(l) && Distinct(r)
  }

  ghost predicate DistinctCtx(c: Ctx) {
    match c
    case Top => true
    case Hole(up, w, n, sib) =>
      n !in CtxNodes(up) && n !in Nodes(sib) && Nodes(sib) !! CtxNodes(up) && Distinct(sib) && DistinctCtx(up)
  }

  // ---------- shapes in memory ----------

  // n hangs below up on side w; with up null and w PARENT, n is the root of a whole tree.
  ghost predicate Under(h: Mem, n: Node?, up: Node?, w: Way) {
    n != null ==> n in h && h[n].parent == up && h[n].gender == w
  }

  ghost predicate IsTree(h: Mem, t: Tree) {
    match t
    case Nil => true
    case Bin(l, n, r) =>
      n in h && h[n].left == Root(l) && h[n].right == Root(r) &&
      Under(h, Root(l), n, LEFT) && Under(h, Root(r), n, RIGHT) &&
      IsTree(h, l) && IsTree(h, r)
  }

  // p occupies the hole of c.
  ghost predicate IsCtx(h: Mem, c: Ctx, p: Node?) {
    Under(h, p, UpNode(c), UpWay(c)) &&
    match c
    case Top => true
    case Hole(up, w, n, sib) =>
      n in h && h[n].Link(w) == p && h[n].Link(RevWay(w)) == Root(sib) &&
      Under(h, Root(sib), n, RevWay(w)) && IsTree(h, sib) && IsCtx(h, up, n)
  }

  ghost predicate Whole(h: Mem, t: Tree) {
    var whole := Distinct(t) && IsTree(h, t) && Under(h, Root(t), null, PARENT);
    whole
  }

  // t sits in the hole of c.  (The `var` keeps the verifier from taking the fact apart
  // each time it is passed on.)
  ghost predicate Local(h: Mem, c: Ctx, t: Tree) {
    var fits := Distinct(t) && DistinctCtx(c) && CtxNodes(c) !! Nodes(t) && IsTree(h, t) && IsCtx(h, c, Root(t));
    fits
  }

  lemma {:induction false} PlugNodes(c: Ctx, t: Tree)
    ensures Nodes(Plug(c, t)) == CtxNodes(c) + Nodes(t)
  {
    match c
    case Top =>
    case Hole(up, w, n, sib) =>
      PlugNodes(up, Fork(w, n, t, sib));
  }

  lemma {:induction false} PlugSize(c: Ctx, t: Tree, u: Tree)
    ensures Size(Plug(c, t)) - Size(t) == Size(Plug(c, u)) - Size(u)
  {
    match c
    case Top =>
    case Hole(up, w, n, sib) =>
      PlugSize(up, Fork(w, n, t, sib), Fork(w, n, u, sib));
  }

  lemma {:induction false} PlugDistinct(c: Ctx, t: Tree)
    ensures Distinct(Plug(c, t)) <==> DistinctCtx(c) && Distinct(t) && CtxNodes(c) !! Nodes(t)
  {
    match c
    case Top =>
    case Hole(up, w, n, sib) =>
      PlugDistinct(up, Fork(w, n, t, sib));
  }

  lemma {:induction false} PlugInorder(c: Ctx, t: Tree)
    ensures Inorder(Plug(c, t)) == Before(c) + Inorder(t) + After(c)
  {
    match c
    case Top =>
    case Hole(up, w, n, sib) =>
      PlugInorder(up, Fork(w, n, t, sib));
      if w == LEFT {
        Regroup(Before(up), Inorder(t), [n], Inorder(sib), After(up));
      } else {
        Regroup(Before(up), Inorder(sib), [n], Inorder(t), After(up));
      }
  }

  lemma {:induction false} Regroup<T>(a: seq<T>, b: seq<T>, c: seq<T>, d: seq<T>, e: seq<T>)
    ensures a + (b + c + d) + e == a + b + ((c + d) + e)
    ensures a + (b + c + d) + e == (a + (b + c)) + d + e
  {}

  lemma {:induction false} PlugPostorder(c: Ctx, t: Tree)
    ensures Postorder(Plug(c, t)) == PostBefore(c) + Postorder(t) + PostAfter(c)
  {
    match c
    case Top =>
    case Hole(up, w, n, sib) =>
      PlugPostorder(up, Fork(w, n, t, sib));
      if w == LEFT {
        RegroupPost(PostBefore(up), Postorder(t), Postorder(sib), [n], PostAfter(up));
      } else {
        RegroupPost(PostBefore(up), Postorder(sib), Postorder(t), [n], PostAfter(up));
      }
  }

  lemma {:induction false} RegroupPost<T>(a: seq<T>, b: seq<T>, c: seq<T>, d: seq<T>, e: seq<T>)
    ensures a + (b + c + d) + e == a + b + ((c + d) + e)
    ensures a + (b + c + d) + e == (a + b) + c + (d + e)
  {}

  lemma {:induction false} PostorderNodes(t: Tree)
    requires Distinct(t)
    ensures forall n <- Postorder(t) :: n in Nodes(t)
    ensures forall n <- Nodes(t) :: n in Postorder(t)
    ensures |Postorder(t)| == Size(t)
    ensures forall i, j :: 0 <= i < j < |Postorder(t)| ==> Postorder(t)[i] != Postorder(t)[j]
  {
    match t
    case Nil =>
    case Bin(l, n, r) =>
      PostorderNodes(l);
      PostorderNodes(r);
      AllDifferent(Postorder(l), Postorder(r), n);
  }

  lemma {:induction false} AllDifferent<T>(a: seq<T>, b: seq<T>, n: T)
    requires forall i, j :: 0 <= i < j < |a| ==> a[i] != a[j]
    requires forall i, j :: 0 <= i < j < |b| ==> b[i] != b[j]
    requires n !in a && n !in b && forall x <- a :: x !in b
    ensures var s := a + b + [n]; forall i, j :: 0 <= i < j < |s| ==> s[i] != s[j]
  {
    var s, k := a + b + [n], |a|;
    assert forall i :: 0 <= i < k ==> s[i] == a[i] && s[i] in a;
    assert forall i :: k <= i < |s| - 1 ==> s[i] == b[i - k] && s[i] in b;
  }

  lemma {:induction false} PlugIsTree(h: Mem, c: Ctx, t: Tree)
    ensures IsTree(h, Plug(c, t)) && Under(h, Root(Plug(c, t)), null, PARENT)
       <==> IsTree(h, t) && IsCtx(h, c, Root(t))
  {
    match c
    case Top =>
    case Hole(up, w, n, sib) =>
      PlugIsTree(h, up, Fork(w, n, t, sib));
  }

  // A whole tree in memory is the same thing as its two parts fitting together.
  lemma {:induction false} WholeIffLocal(h: Mem, c: Ctx, t: Tree)
    ensures Whole(h, Plug(c, t)) <==> Local(h, c, t)
  {
    PlugDistinct(c, t);
    PlugIsTree(h, c, t);
  }

  lemma {:induction false} WholeIsLocal(h: Mem, t: Tree)
    ensures Whole(h, t) <==> Local(h, Top, t)
    ensures Whole(h, t) ==> Distinct(t)
    ensures Whole(h, Nil)
  {}

  lemma {:induction false} PlugRoot(c: Ctx, t: Tree, u: Tree)
    ensures Root(Plug(c, t)) == if c.Top? then Root(t) else Root(Plug(c, u))
  {
    match c
    case Top =>
    case Hole(up, w, n, sib) =>
      PlugRoot(up, Fork(w, n, t, sib), Fork(w, n, u, sib));
  }

  // What memory holds for the node in focus, and for the node above it.
  lemma {:induction false} Links(h: Mem, c: Ctx, t: Tree)
    requires Local(h, c, t)
    ensures t.Bin? ==> t.node in h && h[t.node] == Cell(Root(t.left), UpNode(c), Root(t.right), UpWay(c))
    ensures c.Hole? ==> c.node in h && h[c.node].Link(c.way) == Root(t)
    ensures c.Hole? ==> h[c.node].parent == UpNode(c.up) && h[c.node].gender == UpWay(c.up)
  {
    if c.Hole? {
      assert IsCtx(h, c.up, c.node);
    }
  }

  lemma {:induction false} TreeKeys(h: Mem, t: Tree)
    requires IsTree(h, t)
    ensures Nodes(t) <= h.Keys
  {
    match t
    case Nil =>
    case Bin(l, n, r) =>
      TreeKeys(h, l);
      TreeKeys(h, r);
  }

  lemma {:induction false} CtxKeys(h: Mem, c: Ctx, p: Node?)
    requires IsCtx(h, c, p)
    ensures CtxNodes(c) <= h.Keys
  {
    match c
    case Top =>
    case Hole(up, w, n, sib) =>
      CtxKeys(h, up, n);
      TreeKeys(h, sib);
  }

  lemma {:induction false} Down(h: Mem, c: Ctx, t: Tree, w: Side)
    requires Local(h, c, t) && t.Bin?
    ensures Local(h, Hole(c, w, t.node, Kid(t, RevWay(w))), Kid(t, w))
    ensures Plug(Hole(c, w, t.node, Kid(t, RevWay(w))), Kid(t, w)) == Plug(c, t)
  {}

  lemma {:induction false} Up(h: Mem, c: Ctx, t: Tree)
    requires Local(h, c, t) && c.Hole?
    ensures Local(h, c.up, Fork(c.way, c.node, t, c.sib))
  {}

  lemma {:induction false} InorderNodes(t: Tree)
    ensures forall n <- Inorder(t) :: n in Nodes(t)
    ensures forall n <- Nodes(t) :: n in Inorder(t)
    ensures |Inorder(t)| == Size(t)
  {
    match t
    case Nil =>
    case Bin(l, n, r) =>
      InorderNodes(l);
      InorderNodes(r);
  }

  // The node with its place in the tree.
  // The place of a node in a tree, and its subtree there.
  ghost function Place(t: Tree, n: Node): (f: (Ctx, Tree))
    requires n in Nodes(t)
    ensures f.1.Bin? && f.1.node == n && Plug(f.0, f.1) == t
  {
    PlaceIn(Top, t, n)
  }

  ghost function PlaceIn(c: Ctx, t: Tree, n: Node): (f: (Ctx, Tree))
    requires n in Nodes(t)
    ensures f.1.Bin? && f.1.node == n && Plug(f.0, f.1) == Plug(c, t)
    decreases t
  {
    if n == t.node then (c, t)
    else if n in Nodes(t.left) then PlaceIn(Hole(c, LEFT, t.node, t.right), t.left, n)
    else PlaceIn(Hole(c, RIGHT, t.node, t.left), t.right, n)
  }

  // How many links below the root a node lies.
  ghost function Depth(t: Tree, n: Node): nat
    requires n in Nodes(t)
  {
    if n == t.node then 0 else if n in Nodes(t.left) then 1 + Depth(t.left, n) else 1 + Depth(t.right, n)
  }

  ghost function Levels(c: Ctx): nat {
    match c
    case Top => 0
    case Hole(up, _, _, _) => 1 + Levels(up)
  }

  lemma {:induction false} PlaceDepth(c: Ctx, t: Tree, n: Node)
    requires n in Nodes(t)
    ensures Levels(PlaceIn(c, t, n).0) == Levels(c) + Depth(t, n)
    decreases t
  {
    if n != t.node {
      if n in Nodes(t.left) {
        PlaceDepth(Hole(c, LEFT, t.node, t.right), t.left, n);
      } else {
        PlaceDepth(Hole(c, RIGHT, t.node, t.left), t.right, n);
      }
    }
  }

  // In a tree of distinct nodes there is no other place for the node.
  lemma {:induction false} PlaceUnique(c: Ctx, t: Tree, n: Node)
    requires n in Nodes(t) && Distinct(Plug(c, t))
    ensures n in Nodes(Plug(c, t)) && Place(Plug(c, t), n) == PlaceIn(c, t, n)
    decreases c
  {
    match c
    case Top =>
    case Hole(up, w, m, sib) =>
      var f := Fork(w, m, t, sib);
      PlaceUnique(up, f, n);
      PlugDistinct(up, f);
  }

  // ---------- what local updates of memory leave in place ----------

  ghost predicate Same(h: Mem, g: Mem, s: set<Node>) {
    forall n {:trigger n in s} :: n in s ==> n in h && n in g && h[n] == g[n]
  }

  lemma {:induction false} SameSub(h: Mem, g: Mem, big: set<Node>, small: set<Node>)
    requires Same(h, g, big) && small <= big
    ensures Same(h, g, small)
  {}

  lemma {:induction false} TreeSame(h: Mem, g: Mem, t: Tree)
    requires IsTree(h, t)
    requires Same(h, g, Nodes(t))
    ensures IsTree(g, t)
    ensures t.Bin? ==> t.node in g && g[t.node] == h[t.node]
  {
    match t
    case Nil =>
    case Bin(l, n, r) =>
      TreeSame(h, g, l);
      TreeSame(h, g, r);
  }

  lemma {:induction false} CtxSame(h: Mem, g: Mem, c: Ctx, p: Node?)
    requires IsCtx(h, c, p)
    requires Under(g, p, UpNode(c), UpWay(c))
    requires Same(h, g, CtxNodes(c))
    ensures IsCtx(g, c, p)
  {
    match c
    case Top =>
    case Hole(up, w, n, sib) =>
      CtxSame(h, g, up, n);
      TreeSame(h, g, sib);
  }

  // Handing t to a new parent changes only the back link and gender of its root.
  lemma {:induction false} Reparent(h: Mem, g: Mem, t: Tree)
    requires Distinct(t) && IsTree(h, t)
    requires t.Bin? ==> t.node in g && g[t.node].left == h[t.node].left && g[t.node].right == h[t.node].right
    requires t.Bin? ==> Same(h, g, Nodes(t.left) + Nodes(t.right))
    ensures IsTree(g, t)
  {
    match t
    case Nil =>
    case Bin(l, n, r) =>
      TreeSame(h, g, l);
      TreeSame(h, g, r);
  }

  // The hole of c receives a new occupant: only one link of the node above it changes.
  lemma {:induction false} Rehang(h: Mem, g: Mem, c: Ctx, p: Node?, newP: Node?)
    requires DistinctCtx(c) && IsCtx(h, c, p)
    requires Under(g, newP, UpNode(c), UpWay(c))
    requires c.Hole? ==> c.node in g && c.node in h && g[c.node] == h[c.node].With(c.way, newP)
    requires c.Hole? ==> Same(h, g, CtxNodes(c.up) + Nodes(c.sib))
    ensures IsCtx(g, c, newP)
  {
    match c
    case Top =>
    case Hole(up, w, n, sib) =>
      CtxSame(h, g, up, n);
      TreeSame(h, g, sib);
  }

  lemma {:induction false} WholeSame(h: Mem, g: Mem, t: Tree)
    requires Whole(h, t) && Same(h, g, Nodes(t))
    ensures Whole(g, t)
  {
    TreeSame(h, g, t);
  }

  lemma SnapSub(small: set<Node>, big: set<Node>)
    requires small <= big
    ensures Same(Snap(big), Snap(small), small) && Same(Snap(small), Snap(big), small)
    ensures forall n <- small :: Bals(small)[n] == Bals(big)[n]
  {}

  // It does not matter which nodes are in view, as long as those of the tree are.
  lemma {:induction false} WholeOn(view: set<Node>, other: set<Node>, t: Tree)
    requires Nodes(t) <= view && Nodes(t) <= other && Whole(Snap(view), t)
    ensures Whole(Snap(other), t)
  {
    WholeSame(Snap(view), Snap(other), t);
  }
}
