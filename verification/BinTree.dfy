/** ubi_BinTree.c: the plain binary tree that the AVL and splay trees build on. */
module BinTree {
  import opened TreeShape
  import opened TreeOrder
  import opened TreeWalk
  import opened TreeEdit

  datatype Flags = Flags(overwrite: bool, dupkey: bool)

  class TreeRoot {
    var root: Node?
    var cmp: Cmp
    var count: nat
    var flags: Flags
    ghost var tree: Tree

    // The header and the nodes form the tree `tree`.
    ghost predicate Shape()
      reads this, Nodes(tree)`left, Nodes(tree)`parent, Nodes(tree)`right, Nodes(tree)`gender
    {
      var shape := root == Root(tree) && Whole(Snap(Nodes(tree)), tree) && count == Size(tree);
      shape
    }

    ghost predicate Sorted()
      reads this
    {
      Preorder(cmp) && Ordered(cmp, flags.dupkey, Inorder(tree))
    }

    ghost predicate Valid()
      reads this, Nodes(tree)`left, Nodes(tree)`parent, Nodes(tree)`right, Nodes(tree)`gender
    {
      Shape() && Sorted()
    }

    constructor (CompFunc: Cmp, f: Flags)
      ensures tree == Nil && cmp == CompFunc && Shape() && count == 0
      ensures flags == if f.dupkey then Flags(false, true) else f
      ensures Preorder(CompFunc) ==> Valid()
    {
      root, cmp, count, tree := null, CompFunc, 0, Nil;
      flags := if f.dupkey then Flags(false, true) else f;
    }
  }

  method InitNode(n: Node)
    modifies n`left, n`parent, n`right, n`gender, n`balance
    ensures n.Fields() == Cell(null, null, null, EQUAL) && n.balance == EQUAL
  {
    n.left, n.parent, n.right := null, null, null;
    n.gender, n.balance := EQUAL, EQUAL;
  }

  // The place a pointer to a node is kept: the header, or a link of the parent.
  method SetPlace(hdr: TreeRoot, parent: Node?, way: Way, v: Node?)
    requires parent != null ==> way != PARENT
    modifies hdr`root, One(parent)`left, One(parent)`right
    ensures parent == null ==> hdr.root == v
    ensures parent != null ==> hdr.root == old(hdr.root) && parent.Fields() == old(parent.Fields()).With(way, v)
  {
    if parent == null {
      hdr.root := v;
    } else if way == LEFT {
      parent.left := v;
    } else {
      parent.right := v;
    }
  }

  // Tells the children of oldnode of their new parent.
  method HandOver(oldnode: Node, newnode: Node)
    modifies One(oldnode.left)`parent, One(oldnode.right)`parent
    ensures oldnode.left != null ==> oldnode.left.Fields() == old(oldnode.left.Fields()).(parent := newnode)
    ensures oldnode.right != null ==> oldnode.right.Fields() == old(oldnode.right.Fields()).(parent := newnode)
  {
    if oldnode.left != null {
      oldnode.left.parent := newnode;
    }
    if oldnode.right != null {
      oldnode.right.parent := newnode;
    }
  }

  // *newnode = *oldnode
  method CopyNode(oldnode: Node, newnode: Node)
    modifies newnode`left, newnode`parent, newnode`right, newnode`gender, newnode`balance
    ensures newnode.Fields() == old(oldnode.Fields()) && newnode.balance == old(oldnode.balance)
  {
    newnode.left, newnode.parent, newnode.right := oldnode.left, oldnode.parent, oldnode.right;
    newnode.gender, newnode.balance := oldnode.gender, oldnode.balance;
  }

  method ReplaceNode(hdr: TreeRoot, parent: Node?, way: Way, oldnode: Node, newnode: Node, ghost s: set<Node>)
    requires parent != null ==> way != PARENT
    requires Apart(Snap(s), parent, oldnode, newnode)
    modifies hdr`root, s`left, s`parent, s`right, s`gender, newnode`balance
    ensures TookOver(old(Snap(s)), Snap(s), parent, way, oldnode, newnode)
    ensures hdr.root == if parent == null then newnode else old(hdr.root)
    ensures newnode.balance == old(oldnode.balance)
  {
    CopyNode(oldnode, newnode);
    SetPlace(hdr, parent, way, newnode);
    HandOver(oldnode, newnode);
  }

  // Finds the place that points to oldnode and replaces it there: one step of SwapNodes.
  method ReplaceInTree(hdr: TreeRoot, oldnode: Node, newnode: Node, ghost s: set<Node>, ghost T: Tree)
    requires Whole(Snap(s), T) && hdr.root == Root(T) && Nodes(T) + {newnode} <= s
    requires oldnode in Nodes(T) && newnode !in Nodes(T)
    modifies hdr`root, s`left, s`parent, s`right, s`gender, newnode`balance
    ensures Whole(Snap(s), Rename(T, oldnode, newnode)) && hdr.root == Root(Rename(T, oldnode, newnode))
    ensures Nodes(Rename(T, oldnode, newnode)) == Nodes(T) - {oldnode} + {newnode}
    ensures Bals(s) == old(Bals(s)[newnode := Bals(s)[oldnode]]) && newnode.balance == old(oldnode.balance)
  {
    hide Rename, Under;
    ghost var h := Snap(s);
    ghost var c, u := Place(T, oldnode).0, Place(T, oldnode).1;
    ghost var l, r := u.left, u.right;
    WholeIffLocal(h, c, u);
    Links(h, c, u);
    PlugNodes(c, u);
    ApartAt(h, c, l, oldnode, r, newnode);
    ReplaceNode(hdr, oldnode.parent, oldnode.gender, oldnode, newnode, s);
    TakeOver(h, Snap(s), c, l, oldnode, r, newnode);
    WholeIffLocal(Snap(s), c, Bin(l, newnode, r));
    RenameAt(c, l, oldnode, r, newnode);
    RenameNodes(T, oldnode, newnode);
    PlugRoot(c, u, Bin(l, newnode, r));
    PlugRoot(c, Bin(l, newnode, r), u);
  }

  // The three steps of SwapNodes, the dummy being given.
  method SwapVia(hdr: TreeRoot, Node1: Node, Node2: Node, dummy: Node, ghost s: set<Node>, ghost T: Tree)
    requires Whole(Snap(s), T) && hdr.root == Root(T) && s == Nodes(T) + {dummy}
    requires Node1 in Nodes(T) && Node2 in Nodes(T) && Node1 != Node2 && dummy !in Nodes(T)
    modifies hdr`root, s`left, s`parent, s`right, s`gender, {Node1, Node2, dummy}`balance
    ensures Whole(Snap(s), Swap(T, Node1, Node2)) && hdr.root == Root(Swap(T, Node1, Node2))
    ensures CodesOf(Swap(T, Node1, Node2), Bals(s)) == old(CodesOf(T, Bals(s)))
  {
    hide Whole, Snap, Root, Nodes;
    ghost var b0 := Bals(s);
    ReplaceInTree(hdr, Node1, dummy, s, T);
    ghost var t1, b1 := Rename(T, Node1, dummy), b0[dummy := b0[Node1]];
    ReplaceInTree(hdr, Node2, Node1, s, t1);
    ghost var t2, b2 := Rename(t1, Node2, Node1), b1[Node1 := b1[Node2]];
    ReplaceInTree(hdr, dummy, Node2, s, t2);
    ThreeStepSwap(T, Node1, Node2, dummy);
    SwapCodes(T, Node1, Node2, b0, b2[Node2 := b2[dummy]]);
  }

  method SwapNodes(hdr: TreeRoot, Node1: Node, Node2: Node, ghost T: Tree)
    requires Whole(Snap(Nodes(T)), T) && hdr.root == Root(T)
    requires Node1 in Nodes(T) && Node2 in Nodes(T) && Node1 != Node2
    modifies hdr`root, Nodes(T)`left, Nodes(T)`parent, Nodes(T)`right, Nodes(T)`gender, {Node1, Node2}`balance
    ensures Whole(Snap(Nodes(T)), Swap(T, Node1, Node2)) && hdr.root == Root(Swap(T, Node1, Node2))
    ensures CodesOf(Swap(T, Node1, Node2), Bals(Nodes(T))) == old(CodesOf(T, Bals(Nodes(T))))
  {
    ghost var nodes, h, b := Nodes(T), Snap(Nodes(T)), Bals(Nodes(T));
    ghost var t := Swap(T, Node1, Node2);
    var dummy := new Node(0, 0);
    ghost var s := nodes + {dummy};
    assert dummy !in nodes && Same(h, Snap(s), nodes);
    WholeSame(h, Snap(s), T);
    CodesSame(T, b, Bals(s));
    SwapVia(hdr, Node1, Node2, dummy, s, T);
    SwapShape(T, Node1, Node2);
    SnapSub(nodes, s);
    WholeSame(Snap(s), Snap(nodes), t);
    CodesSame(t, Bals(s), Bals(nodes));
  }

  // n became a leaf of the tree, after every key not greater than its own.
  ghost predicate Grown(T: Tree, T': Tree, c: Ctx, n: Node, cmp: Cmp, dups: bool) {
    && T == Plug(c, Nil) && T' == Plug(c, Bin(Nil, n, Nil))
    && AllWays(cmp, n.key, Before(c), if dups then EQUAL else RIGHT, RIGHT) && Above(cmp, n.key, After(c))
  }

  // n took the place of o, whose key is equal.
  ghost predicate Overwritten(T: Tree, T': Tree, c: Ctx, u: Tree, o: Node, n: Node, cmp: Cmp) {
    && u.Bin? && u.node == o && Heading(cmp, n.key, o) == EQUAL
    && T == Plug(c, u) && T' == Plug(c, Bin(u.left, n, u.right))
  }

  // Hangs the fresh node into an empty place.
  method HangLeaf(hdr: TreeRoot, parent: Node?, tmp: Way, NewNode: Node, ghost s: set<Node>)
    requires One(parent) + {NewNode} <= s && NewNode != parent && NewNode.Fields() == Cell(null, null, null, EQUAL)
    modifies hdr`root, One(parent)`left, One(parent)`parent, One(parent)`right, NewNode`parent, NewNode`gender
    ensures HungBelow(old(Snap(s)), Snap(s), parent, tmp, NewNode)
    ensures hdr.root == if parent == null then NewNode else old(hdr.root)
  {
    if parent == null {
      hdr.root := NewNode;
    } else {
      parent.SetLink(tmp, NewNode);
      NewNode.parent := parent;
      NewNode.gender := tmp;
    }
  }

  method AddLeaf(hdr: TreeRoot, parent: Node?, tmp: Way, NewNode: Node, ghost s: set<Node>, ghost c: Ctx)
    requires hdr.Shape() && Nodes(hdr.tree) + {NewNode} == s && hdr.tree == Plug(c, Nil)
    requires NewNode !in Nodes(hdr.tree) && NewNode.Fields() == Cell(null, null, null, EQUAL)
    requires parent == UpNode(c) && tmp == UpWay(c)
    modifies hdr`root, hdr`count, hdr`tree, One(parent)`left, One(parent)`parent, One(parent)`right, NewNode`parent,
        NewNode`gender
    ensures hdr.tree == Plug(c, Bin(Nil, NewNode, Nil)) && Nodes(hdr.tree) == s && hdr.Shape()
    ensures hdr.count == old(hdr.count) + 1
  {
    hide Snap, Whole;
    ghost var T, u := hdr.tree, Bin(Nil, NewNode, Nil);
    Refill(c, Nil, u);
    WholeOn(Nodes(T), s, T);
    ghost var h := Snap(s);
    HangLeaf(hdr, parent, tmp, NewNode, s);
    HangWhole(h, Snap(s), c, NewNode);
    hdr.count := hdr.count + 1;
    hdr.tree := Plug(c, u);
    assert Nodes(hdr.tree) == s;
  }

  // Replaces a node of the tree by a new node.
  method Overwrite(hdr: TreeRoot, OldNode: Node, NewNode: Node)
    requires hdr.Shape() && OldNode in Nodes(hdr.tree) && NewNode !in Nodes(hdr.tree)
    modifies hdr`root, hdr`tree, NewNode`left, NewNode`parent, NewNode`right, NewNode`gender, NewNode`balance
    modifies Nodes(hdr.tree)`left, Nodes(hdr.tree)`parent, Nodes(hdr.tree)`right, Nodes(hdr.tree)`gender
    ensures hdr.Shape() && hdr.tree == Rename(old(hdr.tree), OldNode, NewNode)
    ensures Nodes(hdr.tree) == old(Nodes(hdr.tree)) - {OldNode} + {NewNode}
    ensures NewNode.balance == old(OldNode.balance)
  {
    hide Root, Whole, Snap, Size;
    ghost var T := hdr.tree;
    ghost var s := Nodes(T) + {NewNode};
    WholeOn(Nodes(T), s, T);
    ReplaceInTree(hdr, OldNode, NewNode, s, T);
    RenameSize(T, OldNode, NewNode);
    hdr.tree := Rename(T, OldNode, NewNode);
    ghost var nodes := Nodes(hdr.tree);
    WholeOn(s, nodes, hdr.tree);
  }

  lemma {:induction false} OverwriteOrder(cmp: Cmp, c: Ctx, u: Tree, n: Node)
    requires u.Bin? && Preorder(cmp) && Ordered(cmp, false, Inorder(Plug(c, u))) && Heading(cmp, n.key, u.node) == EQUAL
    ensures Ordered(cmp, false, Inorder(Plug(c, Bin(u.left, n, u.right))))
  {
    hide Preorder, Heading, Before, After, Precedes, Fork;
    Step(cmp, false, n.key, c, u);
    var a, b := Before(c) + Inorder(u.left), Inorder(u.right) + After(c);
    OrderedDelete(cmp, false, a, u.node, b);
    OrderedInsert(cmp, false, a, n, b);
    var v := Bin(u.left, n, u.right);
    PlugInorder(c, v);
    assert Before(c) + (Inorder(u.left) + [n] + Inorder(u.right)) + After(c) == a + [n] + b;
  }

  // Where a new node with key item belongs, or the node it clashes with.
  method FindPlace(hdr: TreeRoot, item: int, ghost s: set<Node>)
    returns (clash: Node?, parent: Node?, tmp: Way, ghost c: Ctx, ghost u: Tree)
    requires Local(Snap(s), Top, hdr.tree) && hdr.root == Root(hdr.tree) && hdr.Sorted()
    ensures Plug(c, u) == hdr.tree && clash == Root(u)
    ensures clash == null <==> hdr.flags.dupkey || forall n <- Nodes(hdr.tree) :: Heading(hdr.cmp, item, n) != EQUAL
    ensures clash != null ==> clash in Nodes(hdr.tree) && Heading(hdr.cmp, item, clash) == EQUAL
    ensures clash == null ==> parent == UpNode(c) && tmp == UpWay(c)
    ensures clash == null ==> AllWays(hdr.cmp, item, Before(c), if hdr.flags.dupkey then EQUAL else RIGHT, RIGHT)
                              && Above(hdr.cmp, item, After(c))
  {
    clash, parent, tmp, c, u := TreeFind(item, hdr.root, hdr.cmp, hdr.flags.dupkey, s, hdr.tree);
    NoMatch(hdr.cmp, item, c, u);
    PlugNodes(c, u);
    if clash != null && hdr.flags.dupkey {
      parent, tmp, c := DuplicatePlace(hdr.cmp, item, clash, s, c, u);
      clash, u := null, Nil;
    }
  }

  lemma {:induction false} NoMatch(cmp: Cmp, k: int, c: Ctx, u: Tree)
    requires Below(cmp, k, Before(c)) && Above(cmp, k, After(c))
    ensures u == Nil ==> forall n <- Nodes(Plug(c, u)) :: Heading(cmp, k, n) != EQUAL
  {
    PlugInorder(c, u);
    if u == Nil {
      var t := Plug(c, u);
      InorderNodes(t);
      forall n | n in Nodes(t)
        ensures Heading(cmp, k, n) != EQUAL
      {
        assert n in Inorder(t);
        assert Before(c) + Inorder(u) + After(c) == Before(c) + After(c);
        if n in Before(c) {
          Member(cmp, k, Before(c), RIGHT, RIGHT, n);
        } else {
          Member(cmp, k, After(c), LEFT, LEFT, n);
        }
      }
    }
  }

  // Adds a duplicate or a new key as a leaf.
  method InsertLeaf(hdr: TreeRoot, parent: Node?, tmp: Way, NewNode: Node, ghost s: set<Node>, ghost c: Ctx)
    requires hdr.Valid() && Nodes(hdr.tree) + {NewNode} == s && hdr.tree == Plug(c, Nil)
    requires NewNode !in Nodes(hdr.tree) && NewNode.Fields() == Cell(null, null, null, EQUAL)
    requires parent == UpNode(c) && tmp == UpWay(c)
    requires AllWays(hdr.cmp, NewNode.key, Before(c), if hdr.flags.dupkey then EQUAL else RIGHT, RIGHT)
    requires Above(hdr.cmp, NewNode.key, After(c))
    modifies hdr`root, hdr`count, hdr`tree, s`left, s`parent, s`right, s`gender
    ensures hdr.Valid() && Grown(old(hdr.tree), hdr.tree, c, NewNode, hdr.cmp, hdr.flags.dupkey)
    ensures Nodes(hdr.tree) == s && hdr.count == old(hdr.count) + 1
  {
    GrownOrder(hdr.cmp, hdr.flags.dupkey, c, NewNode);
    PlugNodes(c, Nil);
    AddLeaf(hdr, parent, tmp, NewNode, s, c);
  }

  // Puts the new node in the place of one with an equal key.
  method InsertOver(hdr: TreeRoot, OldNode: Node, NewNode: Node, ghost c: Ctx, ghost u: Tree)
    requires hdr.Valid() && !hdr.flags.dupkey && NewNode !in Nodes(hdr.tree)
    requires hdr.tree == Plug(c, u) && u.Bin? && u.node == OldNode && Heading(hdr.cmp, NewNode.key, OldNode) == EQUAL
    modifies hdr`root, hdr`tree, NewNode`left, NewNode`parent, NewNode`right, NewNode`gender, NewNode`balance
    modifies Nodes(hdr.tree)`left, Nodes(hdr.tree)`parent, Nodes(hdr.tree)`right, Nodes(hdr.tree)`gender
    ensures hdr.Valid() && Overwritten(old(hdr.tree), hdr.tree, c, u, OldNode, NewNode, hdr.cmp)
    ensures Nodes(hdr.tree) == old(Nodes(hdr.tree)) - {OldNode} + {NewNode}
    ensures NewNode.balance == old(OldNode.balance)
  {
    PlugNodes(c, u);
    Overwrite(hdr, OldNode, NewNode);
    RenameAt(c, u.left, OldNode, u.right, NewNode);
    OverwriteOrder(hdr.cmp, c, u, NewNode);
  }

  method Insert(hdr: TreeRoot, NewNode: Node, ItemPtr: int)
    returns (ok: bool, OldNode: Node?, ghost c: Ctx, ghost u: Tree)
    requires hdr.Valid() && NewNode !in Nodes(hdr.tree) && ItemPtr == NewNode.key
    modifies hdr`root, hdr`count, hdr`tree
    modifies Nodes(hdr.tree)`left, Nodes(hdr.tree)`parent, Nodes(hdr.tree)`right, Nodes(hdr.tree)`gender
    modifies NewNode`left, NewNode`parent, NewNode`right, NewNode`gender, NewNode`balance
    ensures hdr.Valid()
    // Without duplicates and overwriting, an equal key in the tree refuses the node.
    ensures OldNode == null <==>
        hdr.flags.dupkey || forall n <- old(Nodes(hdr.tree)) :: Heading(hdr.cmp, ItemPtr, n) != EQUAL
    ensures OldNode != null ==> OldNode in old(Nodes(hdr.tree)) && Heading(hdr.cmp, ItemPtr, OldNode) == EQUAL
    ensures ok <==> OldNode == null || hdr.flags.overwrite
    ensures OldNode == null ==>
        Grown(old(hdr.tree), hdr.tree, c, NewNode, hdr.cmp, hdr.flags.dupkey) && NewNode.balance == EQUAL
    ensures OldNode != null && ok ==> Overwritten(old(hdr.tree), hdr.tree, c, u, OldNode, NewNode, hdr.cmp)
    ensures OldNode != null && ok ==> NewNode.balance == old(Bals(Nodes(hdr.tree)))[OldNode]
    ensures !ok ==> hdr.tree == old(hdr.tree) && Snap(Nodes(hdr.tree)) == old(Snap(Nodes(hdr.tree)))
    ensures Nodes(hdr.tree) == if ok then old(Nodes(hdr.tree)) - One(OldNode) + {NewNode} else old(Nodes(hdr.tree))
    ensures hdr.count == old(hdr.count) + if OldNode == null then 1 else 0
  {
    hide Grown, Overwritten, Ordered, Preorder, AllWays, Plug, Inorder, Distinct, IsTree, IsCtx, CtxNodes, Size,
        Heading, Nodes, Whole, Local;
    ghost var nodes, s := Nodes(hdr.tree), Nodes(hdr.tree) + {NewNode};
    ghost var h, b := Snap(nodes), Bals(nodes);
    InitNode(NewNode);
    assert Snap(nodes) == h;
    WholeOn(nodes, s, hdr.tree);
    WholeIsLocal(Snap(s), hdr.tree);
    var parent, tmp;
    OldNode, parent, tmp, c, u := FindPlace(hdr, ItemPtr, s);
    assert OldNode != null ==> OldNode.balance == b[OldNode];
    if OldNode == null {
      InsertLeaf(hdr, parent, tmp, NewNode, s, c);
      ok := true;
    } else if hdr.flags.overwrite {
      InsertOver(hdr, OldNode, NewNode, c, u);
      ok := true;
    } else {
      ok := false;
    }
  }

  lemma {:induction false} GrownOrder(cmp: Cmp, dups: bool, c: Ctx, n: Node)
    requires Preorder(cmp) && Ordered(cmp, dups, Inorder(Plug(c, Nil)))
    requires AllWays(cmp, n.key, Before(c), if dups then EQUAL else RIGHT, RIGHT) && Above(cmp, n.key, After(c))
    ensures Ordered(cmp, dups, Inorder(Plug(c, Bin(Nil, n, Nil))))
  {
    PlugInorder(c, Nil);
    PlugInorder(c, Bin(Nil, n, Nil));
    assert Before(c) + Inorder(Nil) + After(c) == Before(c) + After(c);
    assert Inorder(Bin(Nil, n, Nil)) == [n];
    OrderedInsert(cmp, dups, Before(c), n, After(c));
  }

  // Links the parent of DeadNode to its only child, if any.
  method Unlink(hdr: TreeRoot, DeadNode: Node, ghost s: set<Node>, ghost v: Node?)
    requires OneChild(Snap(s), DeadNode.parent, DeadNode, v)
    modifies hdr`root, s`left, s`parent, s`right, s`gender
    ensures Bypassed(old(Snap(s)), Snap(s), old(DeadNode.parent), DeadNode, v)
    ensures hdr.root == if old(DeadNode.parent) == null then v else old(hdr.root)
    ensures DeadNode.Fields() == old(DeadNode.Fields())
  {
    var tmp := if DeadNode.left != null then LEFT else RIGHT;
    var p := DeadNode.Link(tmp);
    var parent, gender := DeadNode.parent, DeadNode.gender;
    if p != null {
      p.parent := DeadNode.parent;
      p.gender := DeadNode.gender;
    }
    SetPlace(hdr, parent, gender, p);
  }

  // The last part of Remove, for a node with at most one child.
  method RemoveOne(hdr: TreeRoot, DeadNode: Node, ghost T: Tree) returns (ghost c: Ctx, ghost t: Tree)
    requires Whole(Snap(Nodes(T)), T) && hdr.root == Root(T) && hdr.count == Size(T)
    requires DeadNode in Nodes(T) && (DeadNode.left == null || DeadNode.right == null)
    modifies hdr`root, hdr`count, hdr`tree, Nodes(T)`left, Nodes(T)`parent, Nodes(T)`right, Nodes(T)`gender
    ensures T == Plug(c, t) && t.Bin? && t.node == DeadNode && (t.left.Nil? || t.right.Nil?)
    ensures hdr.Shape() && hdr.tree == Plug(c, Heir(t)) && Nodes(hdr.tree) == Nodes(T) - {DeadNode}
    ensures hdr.count == old(hdr.count) - 1
    ensures DeadNode.parent == UpNode(c) && DeadNode.gender == UpWay(c)
  {
    hide Whole, Nodes, Plug, Distinct;
    ghost var h := Snap(Nodes(T));
    c, t := Place(T, DeadNode).0, Place(T, DeadNode).1;
    OneChildAt(h, c, t);
    Unlink(hdr, DeadNode, Nodes(T), Root(Heir(t)));
    Bypass(h, Snap(Nodes(T)), c, t);
    hdr.count := hdr.count - 1;
    hdr.tree := Plug(c, Heir(t));
    WholeOn(Nodes(T), Nodes(hdr.tree), hdr.tree);
  }

  // The tree in which a node with two children has changed places with its predecessor.
  ghost function Lowered(T: Tree, n: Node): Tree
    requires n in Nodes(T)
  {
    var t := Place(T, n).1;
    if t.left.Nil? || t.right.Nil? then T
    else
      LastIn(t.left);
      Swap(T, n, LastOf(Inorder(t.left)))
  }

  lemma {:induction false} LastIn(l: Tree)
    requires l.Bin?
    ensures Inorder(l) != [] && LastOf(Inorder(l)) in Nodes(l)
  {
    InorderNodes(l);
    assert l.node in Nodes(l);
  }

  lemma {:induction false} LoweredIs(T: Tree, n: Node, p: Node?)
    requires n in Nodes(T)
    ensures var t := Place(T, n).1;
            if t.left.Bin? && t.right.Bin? then
              p != null && p == LastOf(Before(Place(T, n).0) + Inorder(t.left)) ==> Lowered(T, n) == Swap(T, n, p)
            else Lowered(T, n) == T
  {
    var t := Place(T, n).1;
    if t.left.Bin? {
      LastIn(t.left);
    }
  }

  // Remove's first step: a node with two children changes places with its predecessor.
  method BringDown(hdr: TreeRoot, DeadNode: Node) returns (ghost mid: Tree)
    requires hdr.Shape() && DeadNode in Nodes(hdr.tree)
    modifies hdr`root, Nodes(hdr.tree)`balance
    modifies Nodes(hdr.tree)`left, Nodes(hdr.tree)`parent, Nodes(hdr.tree)`right, Nodes(hdr.tree)`gender
    ensures Nodes(mid) == Nodes(hdr.tree) && Size(mid) == Size(hdr.tree)
    ensures Whole(Snap(Nodes(mid)), mid) && hdr.root == Root(mid)
    ensures DeadNode.left == null || DeadNode.right == null
    ensures mid == Lowered(hdr.tree, DeadNode)
    ensures Without(Inorder(mid), DeadNode) == Without(Inorder(hdr.tree), DeadNode)
    ensures CodesOf(mid, Bals(Nodes(hdr.tree))) == old(CodesOf(hdr.tree, Bals(Nodes(hdr.tree))))
  {
    ghost var T, nodes := hdr.tree, Nodes(hdr.tree);
    mid := T;
    ghost var c0, t0 := Place(T, DeadNode).0, Place(T, DeadNode).1;
    hide Lowered, Place;
    WholeIffLocal(Snap(nodes), c0, t0);
    Links(Snap(nodes), c0, t0);
    LoweredIs(T, DeadNode, null);
    if DeadNode.left != null && DeadNode.right != null {
      ghost var p, x, c1, l1 := PrevPlace(T, c0, t0);
      var prev := Neighbor(DeadNode, LEFT, nodes, c0, t0);
      assert (x + [p])[|x|] == p;
      SwapNodes(hdr, DeadNode, prev, T);
      mid := Swap(T, DeadNode, prev);
      LoweredIs(T, DeadNode, prev);
      SwapShape(T, DeadNode, prev);
      SwapOrder(T, DeadNode, prev, x, Inorder(t0.right) + After(c0));
      WholeIffLocal(Snap(nodes), c1, Bin(l1, DeadNode, Nil));
      Links(Snap(nodes), c1, Bin(l1, DeadNode, Nil));
    }
  }

  method Remove(hdr: TreeRoot, DeadNode: Node) returns (r: Node, ghost c: Ctx, ghost t: Tree)
    requires hdr.Shape() && DeadNode in Nodes(hdr.tree)
    modifies hdr`root, hdr`count, hdr`tree, Nodes(hdr.tree)`balance
    modifies Nodes(hdr.tree)`left, Nodes(hdr.tree)`parent, Nodes(hdr.tree)`right, Nodes(hdr.tree)`gender
    ensures r == DeadNode && hdr.Shape()
    ensures Inorder(hdr.tree) == old(Without(Inorder(hdr.tree), DeadNode))
    ensures Nodes(hdr.tree) == old(Nodes(hdr.tree)) - {DeadNode} && hdr.count == old(hdr.count) - 1
    ensures old(hdr.Sorted()) ==> hdr.Sorted()
    // The place that lost a node, still recorded in DeadNode, and the codes before that loss.
    ensures t.Bin? && t.node == DeadNode && (t.left.Nil? || t.right.Nil?) && hdr.tree == Plug(c, Heir(t))
    ensures DeadNode.parent == UpNode(c) && DeadNode.gender == UpWay(c)
    ensures CodesOf(Plug(c, t), Bals(old(Nodes(hdr.tree)))) == old(CodesOf(hdr.tree, Bals(Nodes(hdr.tree))))
    ensures Distinct(Plug(c, t)) && Plug(c, t) == Lowered(old(hdr.tree), DeadNode)
    ensures Nodes(Plug(c, t)) == old(Nodes(hdr.tree))
  {
    hide Nodes, Size, Inorder, Plug, Distinct, Without, CodesOf, Ordered, Preorder, IsTree, Heir, CtxNodes;
    SortedWithout(hdr.cmp, hdr.flags.dupkey, hdr.tree, DeadNode);
    ghost var nodes := Nodes(hdr.tree);
    ghost var mid := BringDown(hdr, DeadNode);
    ghost var b := Bals(nodes);
    c, t := RemoveOne(hdr, DeadNode, mid);
    assert Bals(nodes) == b;
    HeirOrder(c, t);
    r := DeadNode;
  }

  lemma {:induction false} SortedWithout(cmp: Cmp, dups: bool, t: Tree, n: Node)
    requires Distinct(t) && n in Nodes(t)
    ensures Ordered(cmp, dups, Inorder(t)) ==> Ordered(cmp, dups, Without(Inorder(t), n))
  {
    var a, b := InPlace(t, n);
    if Ordered(cmp, dups, Inorder(t)) {
      OrderedDelete(cmp, dups, a, n, b);
    }
  }

  // The nodes after an attempt to insert n: without duplicates an equal key keeps it out, or has to
  // go if nodes are overwritten.
  ghost function Entered(cmp: Cmp, flags: Flags, s: set<Node>, n: Node): set<Node> {
    if flags.dupkey then s + {n}
    else if flags.overwrite then (set m <- s | Heading(cmp, n.key, m) != EQUAL) + {n}
    else if exists m <- s :: Heading(cmp, n.key, m) == EQUAL then s
    else s + {n}
  }

  lemma {:induction false} HeadingsEqual(cmp: Cmp, k: int, m: Node, n: Node)
    requires Preorder(cmp) && Heading(cmp, k, m) == EQUAL && Heading(cmp, k, n) == EQUAL
    ensures Heading(cmp, m.key, n) == EQUAL
  {
    var a, b := m.key, n.key;
    assert cmp(k, a) == 0 && cmp(k, b) == 0;
    assert cmp(k, a) < 0 <==> cmp(a, k) > 0;
    assert cmp(a, k) < 0 <==> cmp(k, a) > 0;
    assert cmp(k, b) < 0 <==> cmp(b, k) > 0;
    assert cmp(b, k) < 0 <==> cmp(k, b) > 0;
    assert cmp(a, k) <= 0 && cmp(k, b) <= 0 ==> cmp(a, b) <= 0;
    assert cmp(b, k) <= 0 && cmp(k, a) <= 0 ==> cmp(b, a) <= 0;
    assert cmp(b, a) > 0 <==> cmp(a, b) < 0;
  }

  lemma {:induction false} KeysDiffer(cmp: Cmp, t: Tree, e: Node)
    requires Preorder(cmp) && Ordered(cmp, false, Inorder(t)) && e in Nodes(t)
    ensures forall n <- Nodes(t) :: n != e ==> Heading(cmp, e.key, n) != EQUAL
  {
    InorderNodes(t);
    var s := Inorder(t);
    var i :| 0 <= i < |s| && s[i] == e;
    forall n | n in Nodes(t) && n != e
      ensures Heading(cmp, e.key, n) != EQUAL
    {
      assert n in s;
      var j :| 0 <= j < |s| && s[j] == n;
      assert if i < j then Precedes(cmp, false, e, n) else Precedes(cmp, false, n, e);
      assert cmp(n.key, e.key) < 0 <==> cmp(e.key, n.key) > 0;
    }
  }

  lemma {:induction false} InsertEntered(cmp: Cmp, flags: Flags, t: Tree, n: Node, o: Node?)
    requires Preorder(cmp) && Ordered(cmp, flags.dupkey, Inorder(t))
    requires o == null <==> flags.dupkey || forall m <- Nodes(t) :: Heading(cmp, n.key, m) != EQUAL
    requires o != null ==> o in Nodes(t) && Heading(cmp, n.key, o) == EQUAL
    ensures Entered(cmp, flags, Nodes(t), n) ==
        if o == null || flags.overwrite then Nodes(t) - One(o) + {n} else Nodes(t)
  {
    hide Preorder, Ordered, Heading, Nodes, Inorder;
    if o != null {
      KeysDiffer(cmp, t, o);
      forall m | m in Nodes(t) && m != o
        ensures Heading(cmp, n.key, m) != EQUAL
      {
        if Heading(cmp, n.key, m) == EQUAL {
          HeadingsEqual(cmp, n.key, o, m);
        }
      }
    }
  }

  // ---------- searching ----------

  datatype CompOp = LT | LE | EQ | GE | GT

  ghost predicate HasMatch(cmp: Cmp, k: int, s: seq<Node>) {
    exists i :: 0 <= i < |s| && Heading(cmp, k, s[i]) == EQUAL
  }

  // The node a sorted sequence holds for key k under a comparison operator.
  ghost predicate Located(cmp: Cmp, k: int, s: seq<Node>, op: CompOp, r: Node?) {
    match op
    case LT => IsLast(cmp, k, s, RIGHT, r)
    case LE => if HasMatch(cmp, k, s) then IsFirst(cmp, k, s, EQUAL, r) else IsLast(cmp, k, s, RIGHT, r)
    case EQ => IsFirst(cmp, k, s, EQUAL, r)
    case GE => if HasMatch(cmp, k, s) then IsFirst(cmp, k, s, EQUAL, r) else IsFirst(cmp, k, s, LEFT, r)
    case GT => IsFirst(cmp, k, s, LEFT, r)
  }

  lemma {:induction false} LocatedAtMatch(cmp: Cmp, dups: bool, k: int, c: Ctx, t: Tree)
    requires t.Bin? && Heading(cmp, k, t.node) == EQUAL && Preorder(cmp) && Ordered(cmp, dups, Inorder(Plug(c, t)))
    ensures HasMatch(cmp, k, Inorder(Plug(c, t)))
    ensures NoneAhead(cmp, k, c, t, LEFT) ==> IsFirst(cmp, k, Inorder(Plug(c, t)), EQUAL, t.node)
    ensures NoneAhead(cmp, k, c, t, LEFT) ==> IsLast(cmp, k, Inorder(Plug(c, t)), RIGHT, LastOf(Ahead(c, t, LEFT)))
    ensures NoneAhead(cmp, k, c, t, RIGHT) ==> IsFirst(cmp, k, Inorder(Plug(c, t)), LEFT, FirstOf(Ahead(c, t, RIGHT)))
  {
    Step(cmp, dups, k, c, t);
    var a, n, b := Ahead(c, t, LEFT), t.node, Ahead(c, t, RIGHT);
    assert (a + [n] + b)[|a|] == n;
    if NoneAhead(cmp, k, c, t, LEFT) {
      FirstMatch(cmp, k, a, n, b);
      assert a + [n] + b == a + ([n] + b);
      LastBelow(cmp, k, a, [n] + b);
    }
    if NoneAhead(cmp, k, c, t, RIGHT) {
      FirstAbove(cmp, k, a + [n], b);
    }
  }

  lemma {:induction false} LocatedAtGap(cmp: Cmp, k: int, c: Ctx)
    requires Below(cmp, k, Before(c)) && Above(cmp, k, After(c))
    ensures !HasMatch(cmp, k, Inorder(Plug(c, Nil)))
    ensures IsFirst(cmp, k, Inorder(Plug(c, Nil)), EQUAL, null)
    ensures IsLast(cmp, k, Inorder(Plug(c, Nil)), RIGHT, LastOf(Before(c)))
    ensures IsFirst(cmp, k, Inorder(Plug(c, Nil)), LEFT, FirstOf(After(c)))
  {
    PlugInorder(c, Nil);
    var a, b := Before(c), After(c);
    assert a + Inorder(Nil) + b == a + b;
    assert forall i :: 0 <= i < |a + b| ==> (a + b)[i] == if i < |a| then a[i] else b[i - |a|];
    LastBelow(cmp, k, a, b);
    FirstAbove(cmp, k, a, b);
  }

  lemma {:induction false} InInorder(cmp: Cmp, k: int, t: Tree, op: CompOp, r: Node?)
    requires Located(cmp, k, Inorder(t), op, r)
    ensures r != null ==> r in Nodes(t)
  {
    InorderNodes(t);
    assert r != null ==> r in Inorder(t);
  }

  method Locate(hdr: TreeRoot, FindMe: int, op: CompOp) returns (q: Node?)
    requires hdr.Valid()
    ensures Located(hdr.cmp, FindMe, Inorder(hdr.tree), op, q)
    ensures q != null ==> q in Nodes(hdr.tree)
  {
    ghost var s, T := Nodes(hdr.tree), hdr.tree;
    ghost var c, t;
    var p, parent, whichkid;
    WholeIsLocal(Snap(s), T);
    p, parent, whichkid, c, t := TreeFind(FindMe, hdr.root, hdr.cmp, hdr.flags.dupkey, s, T);
    if p != null {
      q := LocateMatch(hdr, FindMe, op, p, s, c, t);
    } else {
      LocatedAtGap(hdr.cmp, FindMe, c);
      if op == EQ {
        q := null;
      } else {
        q := LocateGap(op, parent, whichkid, s, c);
      }
    }
    InInorder(hdr.cmp, FindMe, T, op, q);
  }

  method LocateMatch(hdr: TreeRoot, FindMe: int, op: CompOp, p0: Node, ghost s: set<Node>, ghost c: Ctx, ghost t: Tree)
          returns (q: Node?)
    requires Local(Snap(s), c, t) && p0 == Root(t) && Plug(c, t) == hdr.tree && hdr.Sorted()
    requires Heading(hdr.cmp, FindMe, p0) == EQUAL && Below(hdr.cmp, FindMe, Before(c)) &&
        Above(hdr.cmp, FindMe, After(c))
    ensures Located(hdr.cmp, FindMe, Inorder(hdr.tree), op, q)
  {
    ghost var c1, t1;
    TopmostMatch(hdr.cmp, FindMe, c);
    var way := if op == GT then RIGHT else LEFT;
    var p;
    p, c1, t1 := Border(hdr.flags.dupkey, hdr.cmp, FindMe, p0, way, s, c, t);
    LocatedAtMatch(hdr.cmp, hdr.flags.dupkey, FindMe, c1, t1);
    match op
    case LT =>
      q := Neighbor(p, LEFT, s, c1, t1);
    case GT =>
      q := Neighbor(p, RIGHT, s, c1, t1);
    case _ =>
      q := p;
  }

  // No key matches: parent is just before or just after the place of the key.
  method LocateGap(op: CompOp, parent: Node?, whichkid: Way, ghost s: set<Node>, ghost c: Ctx) returns (q: Node?)
    requires Local(Snap(s), c, Nil) && parent == UpNode(c) && whichkid == UpWay(c) && op != EQ
    ensures q == if op == LT || op == LE then LastOf(Before(c)) else FirstOf(After(c))
  {
    if c.Hole? {
      Up(Snap(s), c, Nil);
    }
    if op == LT || op == LE {
      if whichkid == LEFT {
        q := Neighbor(parent, LEFT, s, c.up, Fork(c.way, c.node, Nil, c.sib));
      } else {
        q := parent;
      }
    } else {
      if whichkid == RIGHT {
        q := Neighbor(parent, RIGHT, s, c.up, Fork(c.way, c.node, Nil, c.sib));
      } else {
        q := parent;
      }
    }
  }

  method Find(hdr: TreeRoot, FindMe: int) returns (q: Node?)
    requires hdr.Valid()
    ensures q == null <==> forall n <- Nodes(hdr.tree) :: Heading(hdr.cmp, FindMe, n) != EQUAL
    ensures q != null ==> q in Nodes(hdr.tree) && Heading(hdr.cmp, FindMe, q) == EQUAL
  {
    ghost var c1, t1;
    WholeIsLocal(Snap(Nodes(hdr.tree)), hdr.tree);
    q, c1, t1 := qFind(hdr.cmp, FindMe, hdr.root, hdr.flags.dupkey, Nodes(hdr.tree), Top, hdr.tree);
    NoMatch(hdr.cmp, FindMe, c1, t1);
    PlugNodes(c1, t1);
  }

  // ---------- whole-tree operations ----------

  // What is left of a sequence of nodes when some are deleted.
  ghost function Spared(s: seq<Node>, doomed: set<Node>): seq<Node> {
    if s == [] then []
    else Spared(s[..|s| - 1], doomed) + if s[|s| - 1] in doomed then [] else [s[|s| - 1]]
  }

  lemma {:induction false} SparedMore(s: seq<Node>, doomed: set<Node>, i: nat)
    requires i < |s|
    ensures Spared(s[..i + 1], doomed) == Spared(s[..i], doomed) + if s[i] in doomed then [] else [s[i]]
  {
    assert s[..i + 1][..i] == s[..i];
  }

  lemma SparedEnds(S: seq<Node>, doomed: set<Node>)
    ensures S[..0] == [] && Spared(S[..0], doomed) + S[0..] == S
    ensures S[..|S|] == S && Spared(S[..|S|], doomed) + S[|S|..] == Spared(S, doomed)
  {
    assert S[..|S|] == S;
  }

  lemma {:induction false} Visited(S: seq<Node>, i: nat, doomed: set<Node>, p: Node)
    requires i < |S| && S[i] == p && p !in Spared(S[..i], doomed)
    ensures S[..i + 1] == S[..i] + [p]
    ensures var cur := Spared(S[..i], doomed) + S[i..];
            (if p in doomed then Without(cur, p) else cur) == Spared(S[..i + 1], doomed) + S[i + 1..]
  {
    var done := Spared(S[..i], doomed);
    SparedMore(S, doomed, i);
    assert done + S[i..] == done + [p] + S[i + 1..];
    WithoutAt(done, p, S[i + 1..]);
  }

  // One call of the action routine, which may delete and free the node it is called for.
  method EachNode(hdr: TreeRoot, p: Node, doomed: set<Node>)
    requires hdr.Shape() && p in Nodes(hdr.tree)
    modifies hdr`root, hdr`count, hdr`tree, Nodes(hdr.tree)`balance
    modifies Nodes(hdr.tree)`left, Nodes(hdr.tree)`parent, Nodes(hdr.tree)`right, Nodes(hdr.tree)`gender
    ensures hdr.Shape() && Nodes(hdr.tree) <= old(Nodes(hdr.tree))
    ensures Inorder(hdr.tree) == if p in doomed then old(Without(Inorder(hdr.tree), p)) else old(Inorder(hdr.tree))
    ensures old(hdr.Sorted()) ==> hdr.Sorted()
  {
    hide Nodes, Size, Inorder, Plug, Distinct, Without, CodesOf, Ordered, Preorder, IsTree, Heir, Whole;
    if p in doomed {
      ghost var c, t;
      var r;
      r, c, t := Remove(hdr, p);
      ghost var k := Snap(Nodes(hdr.tree));
      FreeNode(p);
      assert Snap(Nodes(hdr.tree)) == k;
    }
  }

  // The node after the i-th, found from where the i-th is now.
  method Next(hdr: TreeRoot, p: Node, ghost i: nat) returns (q: Node?)
    requires hdr.Shape() && i < |Inorder(hdr.tree)| && Inorder(hdr.tree)[i] == p
    ensures hdr.Shape() && p in Nodes(hdr.tree) && p !in Inorder(hdr.tree)[..i]
    ensures q == FirstOf(Inorder(hdr.tree)[i + 1..])
  {
    ghost var s, T := Nodes(hdr.tree), hdr.tree;
    WholeIsLocal(Snap(s), T);
    InorderNodes(T);
    DistinctInorder(T);
    ghost var c, t := Place(T, p).0, Place(T, p).1;
    hide Local, Whole, Distinct, IsTree, IsCtx, Plug;
    WholeIffLocal(Snap(s), c, t);
    InorderAt(c, t, Inorder(T), i);
    q := Neighbor(p, RIGHT, s, c, t);
  }

  // One round of Traverse: the next node is found before the action is called.
  method VisitOne(hdr: TreeRoot, p: Node, doomed: set<Node>, ghost S: seq<Node>, ghost i: nat) returns (q: Node?)
    requires hdr.Shape() && i < |S| && S[i] == p && Inorder(hdr.tree) == Spared(S[..i], doomed) + S[i..]
    modifies hdr`root, hdr`count, hdr`tree, Nodes(hdr.tree)`balance
    modifies Nodes(hdr.tree)`left, Nodes(hdr.tree)`parent, Nodes(hdr.tree)`right, Nodes(hdr.tree)`gender
    ensures hdr.Shape() && Nodes(hdr.tree) <= old(Nodes(hdr.tree))
    ensures S[..i + 1] == S[..i] + [p] && Inorder(hdr.tree) == Spared(S[..i + 1], doomed) + S[i + 1..]
    ensures q == FirstOf(S[i + 1..])
    ensures old(hdr.Sorted()) ==> hdr.Sorted()
  {
    hide Whole, Distinct, IsTree, IsCtx, Plug, Nodes, Inorder, Spared, Without, Ordered, Preorder;
    ghost var done := Spared(S[..i], doomed);
    assert (done + S[i..])[..|done|] == done && (done + S[i..])[|done| + 1..] == S[i + 1..];
    q := Next(hdr, p, |done|);
    Visited(S, i, doomed, p);
    EachNode(hdr, p, doomed);
  }

  // Calls the action for every node, and looks ahead for the next one before: whichever nodes the
  // action deletes, every node is visited, once and in order.
  method Traverse(hdr: TreeRoot, doomed: set<Node>) returns (visited: seq<Node>, count: nat)
    requires hdr.Shape()
    modifies hdr`root, hdr`count, hdr`tree, Nodes(hdr.tree)`balance
    modifies Nodes(hdr.tree)`left, Nodes(hdr.tree)`parent, Nodes(hdr.tree)`right, Nodes(hdr.tree)`gender
    ensures visited == old(Inorder(hdr.tree)) && count == old(hdr.count)
    ensures hdr.Shape() && Inorder(hdr.tree) == old(Spared(Inorder(hdr.tree), doomed))
    ensures old(hdr.Sorted()) ==> hdr.Sorted()
  {
    hide Local, Whole, Distinct, IsTree, IsCtx, Plug, Nodes, Inorder, Spared, Without, Ordered, Preorder;
    ghost var T, S, all := hdr.tree, Inorder(hdr.tree), Nodes(hdr.tree);
    ghost var c0, t0;
    WholeIsLocal(Snap(all), T);
    InorderNodes(T);
    var p;
    p, c0, t0 := SubSlide(hdr.root, LEFT, all, Top, T);
    visited, count := [], 0;
    SparedEnds(S, doomed);
    while p != null
      invariant count <= |S| && visited == S[..count] && p == FirstOf(S[count..])
      invariant hdr.Shape() && Nodes(hdr.tree) <= all && Inorder(hdr.tree) == Spared(S[..count], doomed) + S[count..]
      invariant old(hdr.Sorted()) ==> hdr.Sorted()
      decreases |S| - count
    {
      visited := visited + [p];
      p := VisitOne(hdr, p, doomed, S, count);
      count := count + 1;
    }
  }

  lemma {:induction false} InorderAt(c: Ctx, t: Tree, S: seq<Node>, i: nat)
    requires t.Bin? && S == Inorder(Plug(c, t)) && Distinct(Plug(c, t)) && i < |S| && S[i] == t.node
    ensures Ahead(c, t, LEFT) == S[..i] && Ahead(c, t, RIGHT) == S[i + 1..]
  {
    OrderAt(c, t.left, t.node, t.right);
    DistinctInorder(Plug(c, t));
    hide Inorder, Plug, Before, After, Distinct;
    var a, b := Ahead(c, t, LEFT), Ahead(c, t, RIGHT);
    assert S == a + [t.node] + b;
    assert S[|a|] == t.node;
  }

  // After this call nothing is known of the node's fields.
  method FreeNode(n: Node)
    modifies n`left, n`parent, n`right, n`gender, n`balance
  {
    n.left, n.parent, n.right := *, *, *;
    n.gender, n.balance := *, *;
  }

  // Below a node without left child, the first node in children-first order.
  method NextVictim(p: Node, ghost s: set<Node>, ghost c: Ctx, ghost t: Tree) returns (q: Node, ghost c1: Ctx)
    requires Local(Snap(s), c, t) && p == Root(t) && t.left == Nil && PostBefore(c) == []
    ensures Local(Snap(s), c1, Bin(Nil, q, Nil)) && Plug(c1, Bin(Nil, q, Nil)) == Plug(c, t) && PostBefore(c1) == []
    ensures {q} + One(q.parent) <= s
  {
    q, c1 := p, c;
    ghost var t1 := t;
    while q.right != null
      invariant Local(Snap(s), c1, t1) && Plug(c1, t1) == Plug(c, t) && q == Root(t1)
      invariant t1.left == Nil && PostBefore(c1) == []
      decreases t1
    {
      Down(Snap(s), c1, t1, RIGHT);
      var next;
      next, c1, t1 := SubSlide(q.right, LEFT, s, Hole(c1, RIGHT, q, Nil), t1.right);
      q := next;
    }
    Links(Snap(s), c1, t1);
  }

  // Cuts q, a leaf, off its parent; the walk goes on from the parent.
  method DropLeaf(q: Node, ghost s: set<Node>, ghost c1: Ctx) returns (p: Node?, ghost c: Ctx, ghost t: Tree)
    requires Local(Snap(s), c1, Bin(Nil, q, Nil)) && PostBefore(c1) == []
    modifies One(q.parent)`left, One(q.parent)`parent, One(q.parent)`right
    ensures Local(Snap(s - {q}), c, t) && Plug(c, t) == Plug(c1, Nil) && p == Root(t)
    ensures PostBefore(c) == [] && (if t.Bin? then t.left == Nil else c.Top?)
  {
    ghost var h := Snap(s);
    Links(h, c1, Bin(Nil, q, Nil));
    CtxKeys(h, c1, q);
    p := q.parent;
    if p != null {
      p.SetLink(if p.left == q then LEFT else RIGHT, null);
    }
    Prune(h, Snap(s - {q}), c1, q);
    c, t := c1, Nil;
    if c1.Hole? {
      Up(Snap(s - {q}), c1, Nil);
      c, t := c1.up, Fork(c1.way, c1.node, Nil, c1.sib);
    }
  }

  lemma PostorderEnds()
    ensures Postorder(Nil) == [] && PostBefore(Top) == [] && Plug(Top, Nil) == Nil && forall t :: Plug(Top, t) == t
  {}

  lemma {:induction false} KillStep(c: Ctx, q: Node)
    requires PostBefore(c) == []
    ensures [q] + Postorder(Plug(c, Nil)) == Postorder(Plug(c, Bin(Nil, q, Nil)))
  {
    PlugPostorder(c, Bin(Nil, q, Nil));
    PlugPostorder(c, Nil);
  }

  // One round of KillTree: frees a leaf, the first node in children-first order.
  method KillOne(p0: Node, ghost s: set<Node>, ghost c0: Ctx, ghost t0: Tree)
    returns (q: Node, p: Node?, ghost c: Ctx, ghost t: Tree)
    requires Local(Snap(s), c0, t0) && p0 == Root(t0) && t0.left == Nil && PostBefore(c0) == []
    modifies s`left, s`parent, s`right, s`gender, s`balance
    ensures q in s && Local(Snap(s - {q}), c, t) && p == Root(t)
    ensures PostBefore(c) == [] && (t.Bin? ==> t.left == Nil) && (t.Nil? ==> c.Top?)
    ensures [q] + Postorder(Plug(c, t)) == Postorder(Plug(c0, t0))
  {
    hide Local, Nodes, Postorder, Plug, PostBefore;
    ghost var c1;
    q, c1 := NextVictim(p0, s, c0, t0);
    KillStep(c1, q);
    p, c, t := DropLeaf(q, s, c1);
    ghost var k := Snap(s - {q});
    FreeNode(q);
    assert Snap(s - {q}) == k;
  }

  // freed is the order in which the nodes are freed: every child before its parent.
  method KillTree(hdr: TreeRoot) returns (count: nat, freed: seq<Node>)
    requires hdr.Shape()
    modifies hdr`root, hdr`count, hdr`tree, hdr`flags, Nodes(hdr.tree)`balance
    modifies Nodes(hdr.tree)`left, Nodes(hdr.tree)`parent, Nodes(hdr.tree)`right, Nodes(hdr.tree)`gender
    ensures freed == old(Postorder(hdr.tree)) && count == old(hdr.count)
    ensures hdr.Shape() && hdr.tree == Nil && hdr.count == 0
    ensures hdr.flags == if old(hdr.flags).dupkey then Flags(false, true) else old(hdr.flags)
  {
    hide Local, Whole, Nodes, Postorder, Plug, PostBefore, Distinct, RevWay;
    ghost var T, all := hdr.tree, Nodes(hdr.tree);
    ghost var s, c, t := all, Top, T;
    WholeIsLocal(Snap(s), T);
    PostorderNodes(T);
    PostorderEnds();
    var p;
    p, c, t := SubSlide(hdr.root, LEFT, s, Top, T);
    count, freed := 0, [];
    while p != null
      invariant p == Root(t) && Local(Snap(s), c, t) && s <= all && hdr.flags == old(hdr.flags)
      invariant PostBefore(c) == [] && (t.Bin? ==> t.left == Nil) && (t.Nil? ==> c.Top?)
      invariant freed + Postorder(Plug(c, t)) == Postorder(T) && count == |freed|
      decreases |Postorder(T)| - count
    {
      var q;
      ghost var rest := Postorder(Plug(c, t));
      q, p, c, t := KillOne(p, s, c, t);
      s := s - {q};
      assert freed + rest == (freed + [q]) + Postorder(Plug(c, t));
      count := count + 1;
      freed := freed + [q];
    }
    hdr.root, hdr.count, hdr.tree := null, 0, Nil;
    WholeIsLocal(Snap(Nodes(hdr.tree)), Nil);
    hdr.flags := if hdr.flags.dupkey then Flags(false, true) else hdr.flags;
  }
}
