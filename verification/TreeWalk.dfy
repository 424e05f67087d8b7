/** The searches and walks of ubi_BinTree.c: they follow links and change nothing. */
module TreeWalk {
  import opened TreeShape
  import opened TreeOrder

  lemma {:induction false} Extremes(t: Tree, w: Side)
    requires t.Bin? && Kid(t, w).Bin?
    ensures w == LEFT ==> FirstOf(Inorder(t)) == FirstOf(Inorder(Kid(t, w)))
    ensures w == RIGHT ==> LastOf(Inorder(t)) == LastOf(Inorder(Kid(t, w)))
  {
    InorderNodes(Kid(t, w));
    assert Kid(t, w).node in Inorder(Kid(t, w));
  }

  method SubSlide(P: Node?, whichway: Side, ghost s: set<Node>, ghost c: Ctx, ghost t: Tree)
    returns (q: Node?, ghost c1: Ctx, ghost t1: Tree)
    requires Local(Snap(s), c, t) && P == Root(t)
    ensures Local(Snap(s), c1, t1) && Plug(c1, t1) == Plug(c, t) && q == Root(t1)
    ensures if P == null then q == null && c1 == c && t1 == t else q != null
    ensures q != null ==> Kid(t1, whichway) == Nil
    ensures whichway == LEFT ==> q == FirstOf(Inorder(t)) && Before(c1) == Before(c)
    ensures whichway == RIGHT ==> q == LastOf(Inorder(t)) && After(c1) == After(c)
    ensures whichway == LEFT ==> PostBefore(c1) == PostBefore(c)
    ensures q != null ==> q in Nodes(t)
    ensures t1 == t || t1 < t
  {
    q, c1, t1 := P, c, t;
    if q != null {
      while q.Link(whichway) != null
        invariant t1.Bin? && q == Root(t1) && Local(Snap(s), c1, t1) && Plug(c1, t1) == Plug(c, t)
        invariant q in Nodes(t) && Nodes(t1) <= Nodes(t) && (t1 == t || t1 < t)
        invariant whichway == LEFT ==> FirstOf(Inorder(t1)) == FirstOf(Inorder(t)) && Before(c1) == Before(c)
        invariant whichway == LEFT ==> PostBefore(c1) == PostBefore(c)
        invariant whichway == RIGHT ==> LastOf(Inorder(t1)) == LastOf(Inorder(t)) && After(c1) == After(c)
        decreases t1
      {
        Down(Snap(s), c1, t1, whichway);
        ghost var kid := Kid(t1, whichway);
        Extremes(t1, whichway);
        q, c1, t1 := q.Link(whichway), Hole(c1, whichway, q, Kid(t1, RevWay(whichway))), kid;
      }
    }
  }

  // SubSlide in the direction PARENT: up to the root of the whole tree.
  method SubSlideUp(P: Node?, ghost s: set<Node>, ghost c: Ctx, ghost t: Tree) returns (q: Node?)
    requires Local(Snap(s), c, t) && P == Root(t)
    ensures q == if P == null then null else Root(Plug(c, t))
  {
    q := P;
    if q != null {
      ghost var c1, t1 := c, t;
      Links(Snap(s), c1, t1);
      while q.parent != null
        invariant t1.Bin? && q == Root(t1) && Local(Snap(s), c1, t1) && Plug(c1, t1) == Plug(c, t)
        invariant q.parent == UpNode(c1)
        decreases c1
      {
        Up(Snap(s), c1, t1);
        q, c1, t1 := q.parent, c1.up, Fork(c1.way, c1.node, t1, c1.sib);
        Links(Snap(s), c1, t1);
      }
    }
  }

  // The nodes that follow (RIGHT) or precede (LEFT) the root of t, as seen from the hole of c.
  ghost function Ahead(c: Ctx, t: Tree, w: Side): seq<Node>
    requires t.Bin?
  {
    if w == LEFT then Before(c) + Inorder(t.left) else Inorder(t.right) + After(c)
  }

  method Neighbor(p: Node?, whichway: Side, ghost s: set<Node>, ghost c: Ctx, ghost t: Tree)
    returns (q: Node?)
    requires Local(Snap(s), c, t) && p == Root(t)
    ensures p == null ==> q == null
    ensures p != null && whichway == RIGHT ==> q == FirstOf(Ahead(c, t, RIGHT))
    ensures p != null && whichway == LEFT ==> q == LastOf(Ahead(c, t, LEFT))
  {
    if p != null {
      if p.Link(whichway) != null {
        Down(Snap(s), c, t, whichway);
        ghost var c1, t1;
        InorderNodes(Kid(t, whichway));
        q, c1, t1 := SubSlide(p.Link(whichway), RevWay(whichway), s, Hole(c, whichway, p, Kid(t, RevWay(whichway))),
            Kid(t, whichway));
        return;
      }
      q := Ascend(p, whichway, s, c, t);
      return;
    }
    return null;
  }

  // Neighbor's walk up, from a node without child on that side.
  method Ascend(p: Node, whichway: Side, ghost s: set<Node>, ghost c: Ctx, ghost t: Tree) returns (q: Node?)
    requires Local(Snap(s), c, t) && p == Root(t)
    ensures q == if whichway == RIGHT then FirstOf(After(c)) else LastOf(Before(c))
  {
    var P := p;
    ghost var cc, tt := c, t;
    while P.parent != null
      invariant tt.Bin? && P == Root(tt) && Local(Snap(s), cc, tt)
      invariant whichway == RIGHT ==> After(cc) == After(c)
      invariant whichway == LEFT ==> Before(cc) == Before(c)
      decreases cc
    {
      Up(Snap(s), cc, tt);
      if whichway == P.gender {
        P, cc, tt := P.parent, cc.up, Fork(cc.way, cc.node, tt, cc.sib);
      } else {
        return P.parent;
      }
    }
    return null;
  }

  // Steps from the root of t towards key k.  The search keeps to the right of what
  // sorts before k and to the left of what sorts after it.
  lemma {:induction false} Step(cmp: Cmp, dups: bool, k: int, c: Ctx, t: Tree)
    requires t.Bin? && Preorder(cmp) && Ordered(cmp, dups, Inorder(Plug(c, t)))
    ensures AllWays(cmp, k, Before(c) + Inorder(t.left), Heading(cmp, k, t.node), RIGHT)
    ensures AllWays(cmp, k, Inorder(t.right) + After(c), LEFT, Heading(cmp, k, t.node))
    ensures Inorder(Plug(c, t)) == (Before(c) + Inorder(t.left)) + [t.node] + (Inorder(t.right) + After(c))
    ensures !dups && Heading(cmp, k, t.node) == EQUAL ==>
              Below(cmp, k, Before(c) + Inorder(t.left)) && Above(cmp, k, Inorder(t.right) + After(c))
    ensures AllWays(cmp, k, (Before(c) + Inorder(t.left)) + [t.node], Heading(cmp, k, t.node), RIGHT)
    ensures AllWays(cmp, k, [t.node] + (Inorder(t.right) + After(c)), LEFT, Heading(cmp, k, t.node))
  {
    OrderAt(c, t.left, t.node, t.right);
    hide Ordered, Preorder, Plug, Inorder, AllWays, Heading;
    var a, b := Before(c) + Inorder(t.left), Inorder(t.right) + After(c);
    Sides(cmp, dups, k, a, t.node, b);
    WithNode(cmp, k, a, t.node, b);
  }

  lemma {:induction false} OrderAt(c: Ctx, l: Tree, n: Node, r: Tree)
    ensures Inorder(Plug(c, Bin(l, n, r))) == (Before(c) + Inorder(l)) + [n] + (Inorder(r) + After(c))
  {
    PlugInorder(c, Bin(l, n, r));
  }

  lemma {:induction false} WithNode(cmp: Cmp, k: int, a: seq<Node>, n: Node, b: seq<Node>)
    ensures AllWays(cmp, k, a, Heading(cmp, k, n), RIGHT) ==> AllWays(cmp, k, a + [n], Heading(cmp, k, n), RIGHT)
    ensures AllWays(cmp, k, b, LEFT, Heading(cmp, k, n)) ==> AllWays(cmp, k, [n] + b, LEFT, Heading(cmp, k, n))
  {}

  ghost predicate Narrowed(cmp: Cmp, k: int, c: Ctx, c1: Ctx) {
    && (Before(c1) == Before(c) || (Below(cmp, k, Before(c1)) && forall n :: n in Before(c) ==> n in Before(c1)))
    && (After(c1) == After(c) || (Above(cmp, k, After(c1)) && forall n :: n in After(c) ==> n in After(c1)))
  }

  method qFind(cmp: Cmp, FindMe: int, p: Node?, ghost dups: bool, ghost s: set<Node>, ghost c: Ctx, ghost t: Tree)
    returns (q: Node?, ghost c1: Ctx, ghost t1: Tree)
    requires Local(Snap(s), c, t) && p == Root(t)
    requires Preorder(cmp) && Ordered(cmp, dups, Inorder(Plug(c, t)))
    ensures Local(Snap(s), c1, t1) && Plug(c1, t1) == Plug(c, t) && q == Root(t1)
    ensures Narrowed(cmp, FindMe, c, c1)
    ensures q != null ==> Heading(cmp, FindMe, q) == EQUAL
    ensures t1 == t || t1 < t || t1 == Nil
  {
    q, c1, t1 := p, c, t;
    while q != null && AbNormal(cmp(FindMe, q.key)) != EQUAL
      invariant q == Root(t1) && Local(Snap(s), c1, t1) && Plug(c1, t1) == Plug(c, t)
      invariant Narrowed(cmp, FindMe, c, c1)
      invariant t1 == t || t1 < t
      decreases t1
    {
      var tmp := AbNormal(cmp(FindMe, q.key));
      Step(cmp, dups, FindMe, c1, t1);
      Down(Snap(s), c1, t1, tmp);
      StepInto(cmp, FindMe, c, c1, t1, tmp);
      q, c1, t1 := q.Link(tmp), Hole(c1, tmp, q, Kid(t1, RevWay(tmp))), Kid(t1, tmp);
    }
  }

  lemma {:induction false} StepInto(cmp: Cmp, k: int, c: Ctx, c1: Ctx, t1: Tree, w: Side)
    requires t1.Bin? && Heading(cmp, k, t1.node) == w && Narrowed(cmp, k, c, c1)
    requires AllWays(cmp, k, (Before(c1) + Inorder(t1.left)) + [t1.node], w, RIGHT)
    requires AllWays(cmp, k, [t1.node] + (Inorder(t1.right) + After(c1)), LEFT, w)
    ensures Narrowed(cmp, k, c, Hole(c1, w, t1.node, Kid(t1, RevWay(w))))
  {
    var c2 := Hole(c1, w, t1.node, Kid(t1, RevWay(w)));
    assert w == RIGHT ==> Before(c2) == (Before(c1) + Inorder(t1.left)) + [t1.node];
    assert w == LEFT ==> After(c2) == [t1.node] + (Inorder(t1.right) + After(c1));
  }

  method TreeFind(findme: int, p: Node?, cmp: Cmp, ghost dups: bool, ghost s: set<Node>, ghost t: Tree)
    returns (q: Node?, parentp: Node?, gender: Way, ghost c1: Ctx, ghost t1: Tree)
    requires Local(Snap(s), Top, t) && p == Root(t)
    requires Preorder(cmp) && Ordered(cmp, dups, Inorder(t))
    ensures Local(Snap(s), c1, t1) && Plug(c1, t1) == t && q == Root(t1)
    ensures parentp == UpNode(c1) && gender == UpWay(c1)
    ensures Below(cmp, findme, Before(c1)) && Above(cmp, findme, After(c1))
    ensures q != null ==> Heading(cmp, findme, q) == EQUAL
  {
    q, parentp, gender := p, null, EQUAL;
    c1, t1 := Top, t;
    while q != null && AbNormal(cmp(findme, q.key)) != EQUAL
      invariant q == Root(t1) && Local(Snap(s), c1, t1) && Plug(c1, t1) == t
      invariant parentp == UpNode(c1) && gender == UpWay(c1)
      invariant Below(cmp, findme, Before(c1)) && Above(cmp, findme, After(c1))
      decreases t1
    {
      var tmp_cmp := AbNormal(cmp(findme, q.key));
      Step(cmp, dups, findme, c1, t1);
      Down(Snap(s), c1, t1, tmp_cmp);
      StepInto(cmp, findme, c1, c1, t1, tmp_cmp);
      c1, t1 := Hole(c1, tmp_cmp, q, Kid(t1, RevWay(tmp_cmp))), Kid(t1, tmp_cmp);
      parentp := q;
      gender := tmp_cmp;
      q := q.Link(tmp_cmp);
    }
  }

  // The hole of c comes after every node equal to k, and before the greater ones.
  ghost predicate PastEqual(cmp: Cmp, k: int, c: Ctx) {
    var past := AllWays(cmp, k, Before(c), EQUAL, RIGHT) && Above(cmp, k, After(c));
    past
  }

  lemma {:induction false} PastEqualStep(cmp: Cmp, k: int, c: Ctx, t: Tree, w: Side)
    requires t.Bin? && Preorder(cmp) && Ordered(cmp, true, Inorder(Plug(c, t))) && PastEqual(cmp, k, c)
    requires w == LEFT <==> Heading(cmp, k, t.node) == LEFT
    ensures PastEqual(cmp, k, Hole(c, w, t.node, Kid(t, RevWay(w))))
  {
    Step(cmp, true, k, c, t);
    var c2 := Hole(c, w, t.node, Kid(t, RevWay(w)));
    if w == LEFT {
      assert After(c2) == [t.node] + (Inorder(t.right) + After(c));
    } else {
      assert Before(c2) == (Before(c) + Inorder(t.left)) + [t.node];
    }
  }

  // The descent of a duplicate insertion: past every equal key, to an empty place.
  method DuplicatePlace(cmp: Cmp, item: int, found: Node, ghost s: set<Node>, ghost c: Ctx, ghost t: Tree)
    returns (parent: Node, tmp: Way, ghost c1: Ctx)
    requires Local(Snap(s), c, t) && found == Root(t)
    requires Preorder(cmp) && Ordered(cmp, true, Inorder(Plug(c, t)))
    requires Heading(cmp, item, found) == EQUAL && PastEqual(cmp, item, c)
    ensures Local(Snap(s), c1, Nil) && Plug(c1, Nil) == Plug(c, t)
    ensures parent == UpNode(c1) && tmp == UpWay(c1)
    ensures PastEqual(cmp, item, c1)
    ensures tmp != PARENT && parent in s && parent.Link(tmp) == null
  {
    var q: Node?;
    tmp, q, parent := RIGHT, found, found;
    ghost var t1 := t;
    c1 := c;
    while q != null
      invariant q == Root(t1) && Local(Snap(s), c1, t1) && Plug(c1, t1) == Plug(c, t)
      invariant PastEqual(cmp, item, c1)
      invariant q == null ==> parent == UpNode(c1) && tmp == UpWay(c1)
      invariant q != null ==> tmp == Heading(cmp, item, q) || (tmp == RIGHT && Heading(cmp, item, q) == EQUAL)
      decreases t1
    {
      parent := q;
      if tmp == EQUAL {
        tmp := RIGHT;
      }
      PastEqualStep(cmp, item, c1, t1, tmp);
      Down(Snap(s), c1, t1, tmp);
      q := q.Link(tmp);
      c1, t1 := Hole(c1, tmp, parent, Kid(t1, RevWay(tmp))), Kid(t1, tmp);
      if q != null {
        tmp := AbNormal(cmp(item, q.key));
      }
    }
    Links(Snap(s), c1, Nil);
  }

  // Going up from the hole of c while the nodes match k, one leaves no match behind.
  ghost predicate MatchesBelow(cmp: Cmp, k: int, c: Ctx) {
    if c.Hole? && Heading(cmp, k, c.node) == EQUAL then MatchesBelow(cmp, k, c.up)
    else Below(cmp, k, Before(c)) && Above(cmp, k, After(c))
  }

  lemma {:induction false} TopmostMatch(cmp: Cmp, k: int, c: Ctx)
    requires Below(cmp, k, Before(c)) && Above(cmp, k, After(c))
    ensures MatchesBelow(cmp, k, c)
  {
    if c.Hole? {
      if c.way == LEFT {
        assert After(c)[0] == c.node;
      } else {
        assert Before(c)[|Before(c)| - 1] == c.node;
      }
    }
  }

  // The first phase of Border: up to the root of the subtree that holds all matches.
  method BorderUp(cmp: Cmp, FindMe: int, p0: Node, ghost s: set<Node>, ghost c: Ctx, ghost t: Tree)
    returns (p: Node, ghost c1: Ctx, ghost t1: Tree)
    requires Local(Snap(s), c, t) && p0 == Root(t)
    requires Heading(cmp, FindMe, p0) == EQUAL && MatchesBelow(cmp, FindMe, c)
    ensures Local(Snap(s), c1, t1) && Plug(c1, t1) == Plug(c, t) && p == Root(t1)
    ensures Heading(cmp, FindMe, p) == EQUAL && Below(cmp, FindMe, Before(c1)) && Above(cmp, FindMe, After(c1))
  {
    p, c1, t1 := p0, c, t;
    var q := p.parent;
    while q != null && AbNormal(cmp(FindMe, q.key)) == EQUAL
      invariant t1.Bin? && p == Root(t1) && q == UpNode(c1)
      invariant Local(Snap(s), c1, t1) && Plug(c1, t1) == Plug(c, t)
      invariant Heading(cmp, FindMe, p) == EQUAL && MatchesBelow(cmp, FindMe, c1)
      decreases c1
    {
      Up(Snap(s), c1, t1);
      p, c1, t1 := q, c1.up, Fork(c1.way, c1.node, t1, c1.sib);
      q := p.parent;
    }
  }

  // The second phase of Border: down again towards the first or last match.
  method BorderDown(dups: bool, cmp: Cmp, FindMe: int, p0: Node, whichway: Side, ghost s: set<Node>, ghost c: Ctx,
          ghost t: Tree)
    returns (p: Node, ghost c1: Ctx, ghost t1: Tree)
    requires Local(Snap(s), c, t) && p0 == Root(t)
    requires Preorder(cmp) && Ordered(cmp, dups, Inorder(Plug(c, t)))
    requires Heading(cmp, FindMe, p0) == EQUAL && NoneOutside(cmp, FindMe, c, whichway)
    ensures Local(Snap(s), c1, t1) && Plug(c1, t1) == Plug(c, t) && p == Root(t1)
    ensures Heading(cmp, FindMe, p) == EQUAL && NoneAhead(cmp, FindMe, c1, t1, whichway)
  {
    hide Preorder, Inorder, Plug, Heading, CtxNodes, UpWay;
    p, c1, t1 := p0, c, t;
    var q := p.Link(whichway);
    while q != null
      invariant t1.Bin? && p == Root(t1) && q == Root(Kid(t1, whichway))
      invariant Local(Snap(s), c1, t1) && Plug(c1, t1) == Plug(c, t)
      invariant Heading(cmp, FindMe, p) == EQUAL && NoneOutside(cmp, FindMe, c1, whichway)
      decreases t1
    {
      ghost var kid := Kid(t1, whichway);
      ghost var c2, t2;
      Down(Snap(s), c1, t1, whichway);
      q, c2, t2 := qFind(cmp, FindMe, q, dups, s, Hole(c1, whichway, p, Kid(t1, RevWay(whichway))), kid);
      if q == null {
        Exhausted(cmp, FindMe, c1, t1, whichway, c2);
        return;
      }
      assert t2 == kid || t2 < kid;
      p, c1, t1 := q, c2, t2;
      Links(Snap(s), c1, t1);
      q := p.Link(whichway);
    }
    NoKid(cmp, FindMe, c1, t1, whichway);
  }

  method Border(dups: bool, cmp: Cmp, FindMe: int, p0: Node, whichway: Way, ghost s: set<Node>, ghost c: Ctx,
          ghost t: Tree)
    returns (p: Node, ghost c1: Ctx, ghost t1: Tree)
    requires Local(Snap(s), c, t) && p0 == Root(t)
    requires Preorder(cmp) && Ordered(cmp, dups, Inorder(Plug(c, t)))
    requires Heading(cmp, FindMe, p0) == EQUAL && MatchesBelow(cmp, FindMe, c)
    ensures Local(Snap(s), c1, t1) && Plug(c1, t1) == Plug(c, t) && p == Root(t1)
    ensures Heading(cmp, FindMe, p) == EQUAL
    ensures whichway != PARENT ==> NoneAhead(cmp, FindMe, c1, t1, whichway)
  {
    if !dups || whichway == PARENT {
      Step(cmp, dups, FindMe, c, t);
      p, c1, t1 := p0, c, t;
      return;
    }
    p, c1, t1 := BorderUp(cmp, FindMe, p0, s, c, t);
    p, c1, t1 := BorderDown(dups, cmp, FindMe, p, whichway, s, c1, t1);
  }

  ghost predicate NoneAhead(cmp: Cmp, k: int, c: Ctx, t: Tree, w: Side)
    requires t.Bin?
  {
    if w == LEFT then Below(cmp, k, Ahead(c, t, LEFT)) else Above(cmp, k, Ahead(c, t, RIGHT))
  }

  ghost predicate NoneOutside(cmp: Cmp, k: int, c: Ctx, w: Side) {
    if w == LEFT then Below(cmp, k, Before(c)) else Above(cmp, k, After(c))
  }

  lemma {:induction false} NoKid(cmp: Cmp, k: int, c: Ctx, t: Tree, w: Side)
    requires t.Bin? && Kid(t, w).Nil? && NoneOutside(cmp, k, c, w)
    ensures NoneAhead(cmp, k, c, t, w)
  {
    assert w == LEFT ==> Ahead(c, t, w) == Before(c);
    assert w == RIGHT ==> Ahead(c, t, w) == After(c);
  }

  // A search of the w-side subtree of a match that ended at an empty place passed no match.
  lemma {:induction false} Exhausted(cmp: Cmp, k: int, c: Ctx, t: Tree, w: Side, c2: Ctx)
    requires t.Bin? && Heading(cmp, k, t.node) == EQUAL
    requires NoneOutside(cmp, k, c, w)
    requires Narrowed(cmp, k, Hole(c, w, t.node, Kid(t, RevWay(w))), c2)
    requires Plug(c2, Nil) == Plug(c, t)
    ensures NoneAhead(cmp, k, c, t, w)
  {
    var d := Hole(c, w, t.node, Kid(t, RevWay(w)));
    PlugInorder(c2, Nil);
    PlugInorder(d, Kid(t, w));
    assert Before(c2) + After(c2) == Before(c2) + Inorder(Nil) + After(c2);
    if w == LEFT {
      ExhaustedLeft(cmp, k, Before(d), Inorder(Kid(t, w)), After(d), Before(c2), After(c2), t.node);
    } else {
      ExhaustedRight(cmp, k, Before(d), Inorder(Kid(t, w)), After(d), Before(c2), After(c2), t.node);
    }
  }

  lemma {:induction false} ExhaustedLeft(cmp: Cmp, k: int, a: seq<Node>, m: seq<Node>, b: seq<Node>, a1: seq<Node>,
          b1: seq<Node>, n: Node)
    requires a1 + b1 == a + m + b && b != [] && b[0] == n && Heading(cmp, k, n) == EQUAL
    requires a1 == a || Below(cmp, k, a1)
    requires b1 == b || (Above(cmp, k, b1) && forall x :: x in b ==> x in b1)
    requires Below(cmp, k, a)
    ensures Below(cmp, k, a + m)
  {
    if b1 != b {
      Member(cmp, k, b1, LEFT, LEFT, n);
    }
    Cancel(a1, a + m, b);
  }

  lemma {:induction false} ExhaustedRight(cmp: Cmp, k: int, a: seq<Node>, m: seq<Node>, b: seq<Node>, a1: seq<Node>,
          b1: seq<Node>, n: Node)
    requires a1 + b1 == a + m + b && a != [] && a[|a| - 1] == n && Heading(cmp, k, n) == EQUAL
    requires a1 == a || (Below(cmp, k, a1) && forall x :: x in a ==> x in a1)
    requires b1 == b || Above(cmp, k, b1)
    requires Above(cmp, k, b)
    ensures Above(cmp, k, m + b)
  {
    if a1 != a {
      Member(cmp, k, a1, RIGHT, RIGHT, n);
    }
    assert a + m + b == a + (m + b);
    CancelLeft(a, b1, m + b);
  }

  lemma {:induction false} Cancel<T>(a: seq<T>, b: seq<T>, c: seq<T>)
    requires a + c == b + c
    ensures a == b
  {
    assert |a| == |b|;
    assert a == (a + c)[..|a|] && b == (b + c)[..|a|];
  }

  lemma {:induction false} CancelLeft<T>(a: seq<T>, b: seq<T>, c: seq<T>)
    requires a + b == a + c
    ensures b == c
  {
    assert b == (a + b)[|a|..] && c == (a + c)[|a|..];
  }

  // ---------- choosing a leaf ----------

  const MAXPATHS: int := 4

  // Each p[i] is the root of ts[i], a subtree of the nodes of all, no taller than h.
  ghost predicate Paths(mem: Mem, p: seq<Node>, ts: seq<Tree>, all: set<Node>, h: nat) {
    var ok := |p| == |ts| && forall i :: 0 <= i < |p| ==> Path(mem, p[i], ts[i], all, h);
    ok
  }

  ghost predicate Path(mem: Mem, n: Node, t: Tree, all: set<Node>, h: nat) {
    t.Bin? && t.node == n && IsTree(mem, t) && Nodes(t) <= all && Height(t) <= h
  }

  lemma {:induction false} PathAt(mem: Mem, p: seq<Node>, ts: seq<Tree>, all: set<Node>, h: nat, i: nat)
    requires Paths(mem, p, ts, all, h) && i < |p|
    ensures |ts| == |p| && Path(mem, p[i], ts[i], all, h)
    ensures p[i] in mem && p[i] in all && h > 0
  {
    assert Path(mem, p[i], ts[i], all, h);
  }

  // Steps from the i-th path to its w-side child.
  lemma {:induction false} PathKid(mem: Mem, q: seq<Node>, qs: seq<Tree>, i: nat, w: Side, p: seq<Node>, ts: seq<Tree>,
          all: set<Node>, h: nat)
    requires Paths(mem, q, qs, all, h) && i < |q| && q[i] in mem && mem[q[i]].Link(w) != null
    requires h > 0 && Paths(mem, p, ts, all, h - 1)
    ensures |qs| == |q| && qs[i].Bin?
    ensures Paths(mem, p + [mem[q[i]].Link(w)], ts + [Kid(qs[i], w)], all, h - 1)
  {
    assert Path(mem, q[i], qs[i], all, h);
    var n: Node := mem[q[i]].Link(w);
    assert Path(mem, n, Kid(qs[i], w), all, h - 1);
  }

  method LeafNode(leader: Node?, ghost s: set<Node>, ghost t: Tree) returns (leaf: Node?)
    requires IsTree(Snap(s), t) && leader == Root(t)
    ensures leader == null <==> leaf == null
    ensures leaf != null ==> leaf in Nodes(t) && leaf.left == null && leaf.right == null
  {
    if leader == null {
      return null;
    }
    ghost var mem := Snap(s);
    var p: seq<Node>, q: seq<Node> := [leader], [];
    ghost var ts, qs, all, h := [t], [], Nodes(t), Height(t);
    assert Path(mem, leader, t, all, h);
    hide Path, Paths, IsTree, Height, Nodes;
    var whichway: Side := LEFT;
    var paths := 1;
    while paths > 0
      invariant paths == |p| <= MAXPATHS && Paths(mem, p, ts, all, h)
      invariant paths == 0 ==> q != [] && q[0] in all && q[0].left == null && q[0].right == null
      decreases h, paths
    {
      q, qs := p, ts;
      PathAt(mem, q, qs, all, h, 0);
      var i := 0;
      p, ts := [], [];
      NoPaths(mem, all, h - 1);
      while i < paths && |p| < MAXPATHS
        invariant 0 <= i <= paths && |p| <= MAXPATHS && Paths(mem, p, ts, all, h - 1)
        invariant p == [] && i > 0 ==> q[0].left == null && q[0].right == null
      {
        PathAt(mem, q, qs, all, h, i);
        if q[i].Link(whichway) != null {
          PathKid(mem, q, qs, i, whichway, p, ts, all, h);
          p, ts := p + [q[i].Link(whichway)], ts + [Kid(qs[i], whichway)];
        }
        whichway := RevWay(whichway);
        if |p| < MAXPATHS && q[i].Link(whichway) != null {
          PathKid(mem, q, qs, i, whichway, p, ts, all, h);
          p, ts := p + [q[i].Link(whichway)], ts + [Kid(qs[i], whichway)];
        }
        i := i + 1;
      }
      paths := |p|;
      h := h - 1;
    }
    return q[0];
  }

  lemma NoPaths(mem: Mem, all: set<Node>, h: nat)
    ensures Paths(mem, [], [], all, h)
  {}
}
