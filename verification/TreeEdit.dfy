/** Exchanging and unlinking nodes: the abstract trees that result, and the balance
    codes a tree carries position by position. */
module TreeEdit {
  import opened TreeShape

  // ---------- balance codes ----------

  // The balance codes of a tree, without its nodes.
  datatype Codes = Leaf | Code(left: Codes, bal: Way, right: Codes)

  ghost function CodesOf(t: Tree, b: BalMem): Codes {
    match t
    case Nil => Leaf
    case Bin(l, n, r) => Code(CodesOf(l, b), if n in b then b[n] else EQUAL, CodesOf(r, b))
  }

  lemma {:induction false} CodesSame(t: Tree, b: BalMem, d: BalMem)
    requires forall n <- Nodes(t) :: n in b && n in d && b[n] == d[n]
    ensures CodesOf(t, b) == CodesOf(t, d)
  {
    match t
    case Nil =>
    case Bin(l, n, r) =>
      CodesSame(l, b, d);
      CodesSame(r, b, d);
  }

  // ---------- renaming ----------

  // t with node o replaced by n.
  ghost function Rename(t: Tree, o: Node, n: Node): Tree {
    match t
    case Nil => Nil
    case Bin(l, m, r) => Bin(Rename(l, o, n), if m == o then n else m, Rename(r, o, n))
  }

  // t with nodes a and b exchanged.
  ghost function Swap(t: Tree, a: Node, b: Node): Tree {
    match t
    case Nil => Nil
    case Bin(l, m, r) => Bin(Swap(l, a, b), if m == a then b else if m == b then a else m, Swap(r, a, b))
  }

  lemma {:induction false} RenameAbsent(t: Tree, o: Node, n: Node)
    requires o !in Nodes(t)
    ensures Rename(t, o, n) == t
  {
    match t
    case Nil =>
    case Bin(l, m, r) =>
      RenameAbsent(l, o, n);
      RenameAbsent(r, o, n);
  }

  lemma {:induction false} RenamePlug(c: Ctx, t: Tree, o: Node, n: Node)
    requires o !in CtxNodes(c)
    ensures Rename(Plug(c, t), o, n) == Plug(c, Rename(t, o, n))
  {
    match c
    case Top =>
    case Hole(up, w, m, sib) =>
      RenamePlug(up, Fork(w, m, t, sib), o, n);
      RenameAbsent(sib, o, n);
  }

  lemma {:induction false} RenameAt(c: Ctx, l: Tree, o: Node, r: Tree, n: Node)
    requires Distinct(Plug(c, Bin(l, o, r)))
    ensures Rename(Plug(c, Bin(l, o, r)), o, n) == Plug(c, Bin(l, n, r))
  {
    PlugDistinct(c, Bin(l, o, r));
    RenamePlug(c, Bin(l, o, r), o, n);
    RenameAbsent(l, o, n);
    RenameAbsent(r, o, n);
  }

  lemma {:induction false} RenameSize(t: Tree, o: Node, n: Node)
    ensures Size(Rename(t, o, n)) == Size(t)
  {
    match t
    case Nil =>
    case Bin(l, m, r) =>
      RenameSize(l, o, n);
      RenameSize(r, o, n);
  }

  lemma {:induction false} RenameNodes(t: Tree, o: Node, n: Node)
    requires o in Nodes(t)
    ensures Nodes(Rename(t, o, n)) == Nodes(t) - {o} + {n}
  {
    match t
    case Bin(l, m, r) =>
      if o in Nodes(l) { RenameNodes(l, o, n); } else { RenameAbsent(l, o, n); }
      if o in Nodes(r) { RenameNodes(r, o, n); } else { RenameAbsent(r, o, n); }
  }

  // The three renamings of SwapNodes, with the dummy as place holder, are an exchange.
  lemma {:induction false} ThreeStepSwap(t: Tree, a: Node, b: Node, dummy: Node)
    requires a != b && dummy !in Nodes(t) && dummy != a && dummy != b
    ensures Rename(Rename(Rename(t, a, dummy), b, a), dummy, b) == Swap(t, a, b)
  {
    match t
    case Nil =>
    case Bin(l, m, r) =>
      ThreeStepSwap(l, a, b, dummy);
      ThreeStepSwap(r, a, b, dummy);
  }

  ghost function SwapCtx(c: Ctx, a: Node, b: Node): Ctx {
    match c
    case Top => Top
    case Hole(up, w, m, sib) => Hole(SwapCtx(up, a, b), w, Exchanged(m, a, b), Swap(sib, a, b))
  }

  lemma {:induction false} SwapPlug(c: Ctx, t: Tree, a: Node, b: Node)
    ensures Swap(Plug(c, t), a, b) == Plug(SwapCtx(c, a, b), Swap(t, a, b))
  {
    match c
    case Top =>
    case Hole(up, w, m, sib) =>
      SwapPlug(up, Fork(w, m, t, sib), a, b);
  }

  // The last node of a subtree has no right child.
  lemma {:induction false} LastPlace(c: Ctx, t: Tree) returns (c1: Ctx, l1: Tree, p: Node, x: seq<Node>)
    requires t.Bin?
    ensures Inorder(t) == x + [p] && Plug(c1, Bin(l1, p, Nil)) == Plug(c, t)
    ensures p in Nodes(t)
    decreases t
  {
    if t.right.Nil? {
      c1, l1, p, x := c, t.left, t.node, Inorder(t.left);
      assert Inorder(t) == x + [p];
    } else {
      var y;
      c1, l1, p, y := LastPlace(Hole(c, RIGHT, t.node, t.left), t.right);
      x := Inorder(t.left) + [t.node] + y;
      assert Inorder(t) == x + [p];
    }
  }

  // The node that Remove exchanges with the dead one: it directly precedes it and has no
  // right child, so the dead node has at most one child where it lands.
  lemma {:induction false} PrevPlace(T: Tree, c: Ctx, t: Tree) returns (p: Node, x: seq<Node>, c1: Ctx, l1: Tree)
    requires T == Plug(c, t) && t.Bin? && t.left.Bin? && Distinct(T)
    ensures Inorder(T) == x + [p] + [t.node] + (Inorder(t.right) + After(c))
    ensures Before(c) + Inorder(t.left) == x + [p]
    ensures p != t.node && p in Nodes(T) && t.node in Nodes(T)
    ensures Swap(T, t.node, p) == Plug(c1, Bin(l1, t.node, Nil))
  {
    hide After;
    var y, c0, l0;
    c0, l0, p, y := LastPlace(Hole(c, LEFT, t.node, t.right), t.left);
    x := Before(c) + y;
    PlugInorder(c, t);
    assert Before(c) + Inorder(t.left) == x + [p];
    assert Inorder(T) == x + [p] + [t.node] + (Inorder(t.right) + After(c));
    PlugNodes(c, t);
    PlugDistinct(c, t);
    SwapPlug(c0, Bin(l0, p, Nil), t.node, p);
    c1, l1 := SwapCtx(c0, t.node, p), Swap(l0, t.node, p);
  }

  lemma {:induction false} SwapShape(t: Tree, a: Node, b: Node)
    requires a in Nodes(t) && b in Nodes(t)
    ensures Nodes(Swap(t, a, b)) == Nodes(t)
    ensures Size(Swap(t, a, b)) == Size(t)
    ensures Distinct(t) ==> Distinct(Swap(t, a, b))
  {
    SwapNodesOf(t, a, b);
    var s, u := Nodes(t), Nodes(Swap(t, a, b));
    assert u <= s by {
      forall n | n in u ensures n in s { assert Exchanged(n, a, b) in s; }
    }
    assert s <= u by {
      forall n | n in s ensures n in u { assert Exchanged(n, a, b) in s; }
    }
    SwapSize(t, a, b);
    if Distinct(t) {
      SwapDistinct(t, a, b);
    }
  }

  ghost function Exchanged(m: Node, a: Node, b: Node): Node {
    if m == a then b else if m == b then a else m
  }

  lemma {:induction false} SwapNodesOf(t: Tree, a: Node, b: Node)
    ensures forall n :: n in Nodes(Swap(t, a, b)) <==> Exchanged(n, a, b) in Nodes(t)
  {
    match t
    case Nil =>
    case Bin(l, m, r) =>
      SwapNodesOf(l, a, b);
      SwapNodesOf(r, a, b);
  }

  lemma {:induction false} SwapSize(t: Tree, a: Node, b: Node)
    ensures Size(Swap(t, a, b)) == Size(t)
  {
    match t
    case Nil =>
    case Bin(l, m, r) =>
      SwapSize(l, a, b);
      SwapSize(r, a, b);
  }

  lemma {:induction false} SwapDistinct(t: Tree, a: Node, b: Node)
    requires Distinct(t)
    ensures Distinct(Swap(t, a, b))
  {
    match t
    case Nil =>
    case Bin(l, m, r) =>
      SwapDistinct(l, a, b);
      SwapDistinct(r, a, b);
      SwapNodesOf(l, a, b);
      SwapNodesOf(r, a, b);
      var l', r' := Swap(l, a, b), Swap(r, a, b);
      forall n | n in Nodes(l')
        ensures n !in Nodes(r')
      {
        assert Exchanged(n, a, b) in Nodes(l);
      }
  }

  lemma {:induction false} SwapInorder(t: Tree, a: Node, b: Node)
    ensures |Inorder(Swap(t, a, b))| == |Inorder(t)|
    ensures forall i :: 0 <= i < |Inorder(t)| ==> Inorder(Swap(t, a, b))[i] == Exchanged(Inorder(t)[i], a, b)
  {
    match t
    case Nil =>
    case Bin(l, m, r) =>
      SwapInorder(l, a, b);
      SwapInorder(r, a, b);
  }

  // Exchanging two nodes together with their codes leaves every position its code.
  lemma {:induction false} SwapCodes(t: Tree, a: Node, b: Node, before: BalMem, after: BalMem)
    requires Nodes(t) + {a, b} <= before.Keys && Nodes(t) + {a, b} <= after.Keys
    requires after[a] == before[b] && after[b] == before[a]
    requires forall n <- Nodes(t) - {a, b} :: after[n] == before[n]
    ensures CodesOf(Swap(t, a, b), after) == CodesOf(t, before)
  {
    match t
    case Nil =>
    case Bin(l, m, r) =>
      SwapCodes(l, a, b, before, after);
      SwapCodes(r, a, b, before, after);
  }

  // ---------- what the pointer surgery does to memory ----------

  // o has parent p above its side w; it, its neighbours and n are different nodes.
  ghost predicate Apart(h: Mem, p: Node?, o: Node, n: Node) {
    && o in h && n in h && (p != null ==> p in h)
    && (h[o].left != null ==> h[o].left in h) && (h[o].right != null ==> h[o].right in h)
    && One(p) !! One(h[o].left) !! One(h[o].right) !! {o} !! {n}
  }

  // Memory k is h after n has taken over the place of o.
  ghost predicate TookOver(h: Mem, k: Mem, p: Node?, w: Way, o: Node, n: Node)
    requires Apart(h, p, o, n)
  {
    && n in k && k[n] == h[o]
    && (p != null ==> p in k && k[p] == h[p].With(w, n))
    && (h[o].left != null ==> h[o].left in k && k[h[o].left] == h[h[o].left].(parent := n))
    && (h[o].right != null ==> h[o].right in k && k[h[o].right] == h[h[o].right].(parent := n))
    && Same(h, k, h.Keys - One(p) - One(h[o].left) - One(h[o].right) - {n})
  }

  lemma {:induction false} ApartAt(h: Mem, c: Ctx, l: Tree, o: Node, r: Tree, n: Node)
    requires Local(h, c, Bin(l, o, r)) && n in h
    requires n !in CtxNodes(c) && n !in Nodes(l) && n != o && n !in Nodes(r)
    ensures Apart(h, UpNode(c), o, n)
  {
    Links(h, c, Bin(l, o, r));
  }

  // The nodes next to o are pairwise different, and the rest of the tree holds none of them.
  lemma {:induction false} Surroundings(h: Mem, c: Ctx, l: Tree, o: Node, r: Tree, touched: set<Node>)
    requires Local(h, c, Bin(l, o, r))
    requires touched == One(UpNode(c)) + One(Root(l)) + One(Root(r))
    ensures c.Hole? ==> CtxNodes(c.up) + Nodes(c.sib) !! touched
    ensures l.Bin? ==> Nodes(l.left) + Nodes(l.right) !! touched
    ensures r.Bin? ==> Nodes(r.left) + Nodes(r.right) !! touched
    ensures CtxNodes(c) + Nodes(l) + Nodes(r) <= h.Keys
  {
    assert Distinct(l) && Distinct(r);
    TreeKeys(h, l);
    TreeKeys(h, r);
    CtxKeys(h, c, o);
  }

  lemma {:induction false} TakeOver(h: Mem, k: Mem, c: Ctx, l: Tree, o: Node, r: Tree, n: Node)
    requires Local(h, c, Bin(l, o, r)) && Apart(h, UpNode(c), o, n)
    requires n !in CtxNodes(c) && n !in Nodes(l) && n !in Nodes(r)
    requires TookOver(h, k, UpNode(c), UpWay(c), o, n)
    ensures Local(k, c, Bin(l, n, r))
  {
    Links(h, c, Bin(l, o, r));
    var touched := One(UpNode(c)) + One(Root(l)) + One(Root(r));
    Surroundings(h, c, l, o, r, touched);
    var rest := h.Keys - One(UpNode(c)) - One(Root(l)) - One(Root(r)) - {n};
    if c.Hole? { SameSub(h, k, rest, CtxNodes(c.up) + Nodes(c.sib)); }
    if l.Bin? { SameSub(h, k, rest, Nodes(l.left) + Nodes(l.right)); }
    if r.Bin? { SameSub(h, k, rest, Nodes(r.left) + Nodes(r.right)); }
    Rehang(h, k, c, o, n);
    Reparent(h, k, l);
    Reparent(h, k, r);
  }

  // o has parent p and at most one child, v.
  ghost predicate OneChild(h: Mem, p: Node?, o: Node, v: Node?) {
    && o in h && (p != null ==> p in h) && (v != null ==> v in h) && One(p) !! One(v) !! {o}
    && h[o].parent == p && (p != null ==> h[o].gender != PARENT)
    && (if h[o].left != null then h[o].left == v && h[o].right == null else h[o].right == v)
  }

  // Memory k is h after the parent of o has adopted v, the only child of o.
  ghost predicate Bypassed(h: Mem, k: Mem, p: Node?, o: Node, v: Node?)
    requires OneChild(h, p, o, v)
  {
    && (p != null ==> p in k && k[p] == h[p].With(h[o].gender, v))
    && (v != null ==> v in k && k[v] == h[v].(parent := p, gender := h[o].gender))
    && Same(h, k, h.Keys - One(p) - One(v))
  }

  // What is left of t, whose root has at most one child, when its root is taken away.
  ghost function Heir(t: Tree): Tree
    requires t.Bin?
  {
    if t.left.Bin? then t.left else t.right
  }

  lemma {:induction false} OneChildAt(h: Mem, c: Ctx, t: Tree)
    requires t.Bin? && Whole(h, Plug(c, t))
    requires t.node in h && (h[t.node].left == null || h[t.node].right == null)
    ensures t.left.Nil? || t.right.Nil?
    ensures OneChild(h, UpNode(c), t.node, Root(Heir(t))) && h[t.node].gender == UpWay(c)
  {
    WholeIffLocal(h, c, t);
    Links(h, c, t);
    TreeKeys(h, t);
  }

  lemma {:induction false} BypassLocal(h: Mem, k: Mem, c: Ctx, t: Tree)
    requires t.Bin? && (t.left.Nil? || t.right.Nil?) && Local(h, c, t)
    requires OneChild(h, UpNode(c), t.node, Root(Heir(t)))
    requires Bypassed(h, k, UpNode(c), t.node, Root(Heir(t)))
    ensures Local(k, c, Heir(t))
  {
    var v, rest := Heir(t), h.Keys - One(UpNode(c)) - One(Root(Heir(t)));
    Links(h, c, t);
    TreeKeys(h, t);
    CtxKeys(h, c, t.node);
    assert Distinct(v) && Nodes(v) !! CtxNodes(c);
    if c.Hole? { SameSub(h, k, rest, CtxNodes(c.up) + Nodes(c.sib)); }
    if v.Bin? { SameSub(h, k, rest, Nodes(v.left) + Nodes(v.right)); }
    Rehang(h, k, c, t.node, Root(v));
    Reparent(h, k, v);
  }

  lemma {:induction false} Bypass(h: Mem, k: Mem, c: Ctx, t: Tree)
    requires t.Bin? && (t.left.Nil? || t.right.Nil?) && Whole(h, Plug(c, t))
    requires OneChild(h, UpNode(c), t.node, Root(Heir(t)))
    requires Bypassed(h, k, UpNode(c), t.node, Root(Heir(t)))
    ensures Whole(k, Plug(c, Heir(t))) && Nodes(Plug(c, Heir(t))) == Nodes(Plug(c, t)) - {t.node}
    ensures Size(Plug(c, Heir(t))) == Size(Plug(c, t)) - 1
    ensures Root(Plug(c, Heir(t))) == if c.Top? then Root(Heir(t)) else Root(Plug(c, t))
  {
    WholeIffLocal(h, c, t);
    BypassLocal(h, k, c, t);
    WholeIffLocal(k, c, Heir(t));
    Refill(c, t, Heir(t));
    assert Distinct(t) && t.node !in CtxNodes(c);
  }

  // Memory k is h after the fresh node n has been hung below p, on its side w.
  ghost predicate HungBelow(h: Mem, k: Mem, p: Node?, w: Way, n: Node) {
    && n in k && k[n] == Cell(null, p, null, if p == null then PARENT else w)
    && (p != null ==> p in h && p in k && k[p] == h[p].With(w, n))
    && Same(h, k, h.Keys - One(p) - {n})
  }

  lemma {:induction false} Hang(h: Mem, k: Mem, c: Ctx, n: Node)
    requires Local(h, c, Nil) && n !in CtxNodes(c) && HungBelow(h, k, UpNode(c), UpWay(c), n)
    ensures Local(k, c, Bin(Nil, n, Nil))
  {
    CtxKeys(h, c, null);
    Links(h, c, Nil);
    if c.Hole? {
      assert DistinctCtx(c);
      SameSub(h, k, h.Keys - One(UpNode(c)) - {n}, CtxNodes(c.up) + Nodes(c.sib));
    }
    Rehang(h, k, c, null, n);
    assert IsTree(k, Bin(Nil, n, Nil));
    assert Nodes(Bin(Nil, n, Nil)) == {n} && Distinct(Bin(Nil, n, Nil));
  }

  lemma {:induction false} HangWhole(h: Mem, k: Mem, c: Ctx, n: Node)
    requires Whole(h, Plug(c, Nil)) && n !in Nodes(Plug(c, Nil)) && HungBelow(h, k, UpNode(c), UpWay(c), n)
    ensures Whole(k, Plug(c, Bin(Nil, n, Nil)))
  {
    WholeIffLocal(h, c, Nil);
    PlugNodes(c, Nil);
    Hang(h, k, c, n);
    WholeIffLocal(k, c, Bin(Nil, n, Nil));
  }

  // The tree whose hole is filled by u instead of t: its nodes, size and root.
  lemma {:induction false} Refill(c: Ctx, t: Tree, u: Tree)
    ensures Nodes(Plug(c, u)) == CtxNodes(c) + Nodes(u) && Nodes(Plug(c, t)) == CtxNodes(c) + Nodes(t)
    ensures Size(Plug(c, u)) == Size(Plug(c, t)) - Size(t) + Size(u)
    ensures Root(Plug(c, u)) == if c.Top? then Root(u) else Root(Plug(c, t))
  {
    PlugNodes(c, t);
    PlugNodes(c, u);
    PlugSize(c, t, u);
    PlugRoot(c, u, t);
  }

  // The leaf q has been cut off below its parent.
  lemma {:induction false} Prune(h: Mem, k: Mem, c: Ctx, q: Node)
    requires Local(h, c, Bin(Nil, q, Nil))
    requires c.Hole? ==> c.node in h && c.node in k && k[c.node] == h[c.node].With(c.way, null)
    requires Same(h, k, CtxNodes(c) - One(UpNode(c)))
    ensures Local(k, c, Nil)
  {
    if c.Hole? {
      assert DistinctCtx(c);
      SameSub(h, k, CtxNodes(c) - One(UpNode(c)), CtxNodes(c.up) + Nodes(c.sib));
    }
    Rehang(h, k, c, q, null);
  }

  // ---------- traversal order after a removal ----------

  ghost function Without(s: seq<Node>, n: Node): seq<Node> {
    if s == [] then [] else if s[0] == n then s[1..] else [s[0]] + Without(s[1..], n)
  }

  lemma {:induction false} WithoutAt(a: seq<Node>, n: Node, b: seq<Node>)
    requires n !in a
    ensures Without(a + [n] + b, n) == a + b
  {
    var s := a + [n] + b;
    if a == [] {
      assert s[1..] == b;
    } else {
      WithoutAt(a[1..], n, b);
      assert s[1..] == a[1..] + [n] + b;
      assert [a[0]] + (a[1..] + b) == a + b;
    }
  }

  lemma {:induction false} DistinctInorder(t: Tree)
    requires Distinct(t)
    ensures forall i, j :: 0 <= i < j < |Inorder(t)| ==> Inorder(t)[i] != Inorder(t)[j]
  {
    match t
    case Nil =>
    case Bin(l, n, r) =>
      DistinctInorder(l);
      DistinctInorder(r);
      InorderNodes(l);
      InorderNodes(r);
      var s := Inorder(t);
      forall i, j | 0 <= i < j < |s|
        ensures s[i] != s[j]
      {
        assert i < |Inorder(l)| ==> s[i] in Inorder(l);
        assert j > |Inorder(l)| ==> s[j] in Inorder(r);
        assert i > |Inorder(l)| ==>
            s[i] == Inorder(r)[i - |Inorder(l)| - 1] && s[j] == Inorder(r)[j - |Inorder(l)| - 1];
      }
  }

  // Taking the root of t, which has at most one child, out of its place.
  lemma {:induction false} HeirOrder(c: Ctx, t: Tree)
    requires t.Bin? && (t.left.Nil? || t.right.Nil?) && Distinct(Plug(c, t))
    ensures Inorder(Plug(c, Heir(t))) == Without(Inorder(Plug(c, t)), t.node)
    ensures Inorder(Plug(c, t)) == (Before(c) + Inorder(t.left)) + [t.node] + (Inorder(t.right) + After(c))
    ensures Inorder(Plug(c, Heir(t))) == (Before(c) + Inorder(t.left)) + (Inorder(t.right) + After(c))
  {
    hide Distinct, Plug, Before, After;
    PlugInorder(c, t);
    PlugInorder(c, Heir(t));
    var a, n, b := Before(c) + Inorder(t.left), t.node, Inorder(t.right) + After(c);
    assert Inorder(Plug(c, t)) == a + [n] + b;
    assert Inorder(Plug(c, Heir(t))) == a + b;
    DistinctInorder(Plug(c, t));
    WithoutOnly(a, n, b);
  }

  lemma {:induction false} WithoutOnly(a: seq<Node>, n: Node, b: seq<Node>)
    requires forall i, j :: 0 <= i < j < |a + [n] + b| ==> (a + [n] + b)[i] != (a + [n] + b)[j]
    ensures Without(a + [n] + b, n) == a + b
  {
    assert (a + [n] + b)[|a|] == n;
    assert forall i :: 0 <= i < |a| ==> (a + [n] + b)[i] == a[i];
    WithoutAt(a, n, b);
  }

  // Exchanging a node with its direct predecessor first changes nothing in the result.
  lemma {:induction false} SwapOrder(t: Tree, dead: Node, prev: Node, x: seq<Node>, y: seq<Node>)
    requires Distinct(t) && Inorder(t) == x + [prev] + [dead] + y
    ensures Without(Inorder(Swap(t, dead, prev)), dead) == Without(Inorder(t), dead)
  {
    DistinctInorder(t);
    SwapInorder(t, dead, prev);
    SwapNeighbours(Inorder(t), Inorder(Swap(t, dead, prev)), dead, prev, x, y);
  }

  lemma {:induction false} SwapNeighbours(s: seq<Node>, s': seq<Node>, dead: Node, prev: Node, x: seq<Node>,
          y: seq<Node>)
    requires s == x + [prev] + [dead] + y && forall i, j :: 0 <= i < j < |s| ==> s[i] != s[j]
    requires |s'| == |s| && forall i :: 0 <= i < |s| ==> s'[i] == Exchanged(s[i], dead, prev)
    ensures Without(s', dead) == Without(s, dead)
  {
    assert s[|x|] == prev && s[|x| + 1] == dead;
    assert forall i :: 0 <= i < |x| ==> s[i] == x[i];
    assert forall i :: 0 <= i < |y| ==> s[|x| + 2 + i] == y[i];
    assert s' == x + [dead] + ([prev] + y);
    WithoutAt(x, dead, [prev] + y);
    assert s == (x + [prev]) + [dead] + y;
    WithoutAt(x + [prev], dead, y);
    assert x + ([prev] + y) == (x + [prev]) + y;
  }

  lemma {:induction false} InPlace(t: Tree, n: Node) returns (a: seq<Node>, b: seq<Node>)
    requires Distinct(t) && n in Nodes(t)
    ensures Inorder(t) == a + [n] + b && Without(Inorder(t), n) == a + b
  {
    InorderNodes(t);
    var s := Inorder(t);
    var i :| 0 <= i < |s| && s[i] == n;
    a, b := s[..i], s[i + 1..];
    assert s == a + [n] + b;
    DistinctInorder(t);
    WithoutOnly(a, n, b);
  }
}
