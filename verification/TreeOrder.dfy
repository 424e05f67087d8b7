/** Traversal order: what a comparison function tells about a sequence of nodes. */
module TreeOrder {
  import opened TreeShape

  // Compares a search key with a node's key: negative, zero or positive.
  type Cmp = (int, int) -> int

  ghost predicate Preorder(cmp: Cmp) {
    && (forall a :: cmp(a, a) == 0)
    && (forall a, b :: cmp(a, b) < 0 <==> cmp(b, a) > 0)
    && (forall a, b, c :: cmp(a, b) <= 0 && cmp(b, c) <= 0 ==> cmp(a, c) <= 0)
  }

  ghost predicate Precedes(cmp: Cmp, dups: bool, a: Node, b: Node) {
    cmp(a.key, b.key) < 0 || (dups && cmp(a.key, b.key) == 0)
  }

  ghost predicate Ordered(cmp: Cmp, dups: bool, s: seq<Node>) {
    forall i, j :: 0 <= i < j < |s| ==> Precedes(cmp, dups, s[i], s[j])
  }

  // How key k compares with node n: LEFT, EQUAL or RIGHT.
  function Heading(cmp: Cmp, k: int, n: Node): Way {
    AbNormal(cmp(k, n.key))
  }

  // Every node of s compares with k in a way between lo and hi.
  ghost predicate AllWays(cmp: Cmp, k: int, s: seq<Node>, lo: Way, hi: Way) {
    forall i :: 0 <= i < |s| ==> lo <= Heading(cmp, k, s[i]) <= hi
  }

  // All nodes of s sort before k; all nodes of s sort after k.
  ghost predicate Below(cmp: Cmp, k: int, s: seq<Node>) {
    AllWays(cmp, k, s, RIGHT, RIGHT)
  }

  ghost predicate Above(cmp: Cmp, k: int, s: seq<Node>) {
    AllWays(cmp, k, s, LEFT, LEFT)
  }

  lemma Member(cmp: Cmp, k: int, s: seq<Node>, lo: Way, hi: Way, n: Node)
    requires AllWays(cmp, k, s, lo, hi) && n in s
    ensures lo <= Heading(cmp, k, n) <= hi
  {}

  lemma {:induction false} HeadingMonotone(cmp: Cmp, dups: bool, k: int, a: Node, b: Node)
    requires Preorder(cmp) && Precedes(cmp, dups, a, b)
    ensures Heading(cmp, k, b) <= Heading(cmp, k, a)
    ensures !dups && Heading(cmp, k, a) == EQUAL ==> Heading(cmp, k, b) == LEFT
    ensures !dups && Heading(cmp, k, b) == EQUAL ==> Heading(cmp, k, a) == RIGHT
  {
    assert cmp(a.key, b.key) <= 0;
    assert cmp(b.key, k) <= 0 ==> cmp(a.key, k) <= 0;
    assert cmp(k, a.key) <= 0 ==> cmp(k, b.key) <= 0;
    assert cmp(k, a.key) < 0 <==> cmp(a.key, k) > 0;
    assert cmp(k, b.key) < 0 <==> cmp(b.key, k) > 0;
    assert cmp(a.key, k) < 0 <==> cmp(k, a.key) > 0;
    assert cmp(b.key, k) < 0 <==> cmp(k, b.key) > 0;
    assert cmp(b.key, k) <= 0 && cmp(k, a.key) <= 0 ==> cmp(b.key, a.key) <= 0;
    assert cmp(a.key, b.key) < 0 <==> cmp(b.key, a.key) > 0;
  }

  // Around one node of an ordered sequence: what precedes it compares at least as
  // far to the right, what follows it at least as far to the left.
  lemma {:induction false} Sides(cmp: Cmp, dups: bool, k: int, a: seq<Node>, n: Node, b: seq<Node>)
    requires Preorder(cmp) && Ordered(cmp, dups, a + [n] + b)
    ensures AllWays(cmp, k, a, Heading(cmp, k, n), RIGHT)
    ensures AllWays(cmp, k, b, LEFT, Heading(cmp, k, n))
    ensures !dups && Heading(cmp, k, n) == EQUAL ==> Below(cmp, k, a) && Above(cmp, k, b)
  {
    var s := a + [n] + b;
    forall i | 0 <= i < |a|
      ensures Heading(cmp, k, n) <= Heading(cmp, k, a[i]) <= RIGHT
      ensures !dups && Heading(cmp, k, n) == EQUAL ==> Heading(cmp, k, a[i]) == RIGHT
    {
      assert s[i] == a[i] && s[|a|] == n;
      HeadingMonotone(cmp, dups, k, a[i], n);
    }
    forall i | 0 <= i < |b|
      ensures LEFT <= Heading(cmp, k, b[i]) <= Heading(cmp, k, n)
      ensures !dups && Heading(cmp, k, n) == EQUAL ==> Heading(cmp, k, b[i]) == LEFT
    {
      assert s[|a| + 1 + i] == b[i] && s[|a|] == n;
      HeadingMonotone(cmp, dups, k, n, b[i]);
    }
  }

  lemma {:induction false} OrderedInsert(cmp: Cmp, dups: bool, a: seq<Node>, n: Node, b: seq<Node>)
    requires Preorder(cmp) && Ordered(cmp, dups, a + b)
    requires AllWays(cmp, n.key, a, if dups then EQUAL else RIGHT, RIGHT) && Above(cmp, n.key, b)
    ensures Ordered(cmp, dups, a + [n] + b)
  {
    var s, s' := a + b, a + [n] + b;
    forall i, j | 0 <= i < j < |s'|
      ensures Precedes(cmp, dups, s'[i], s'[j])
    {
      if j == |a| {
        assert s'[i] == a[i];
        assert cmp(a[i].key, n.key) > 0 <==> cmp(n.key, a[i].key) < 0;
      } else if i == |a| {
        assert s'[j] == b[j - |a| - 1];
      } else {
        var i', j' := if i < |a| then i else i - 1, if j < |a| then j else j - 1;
        assert s'[i] == s[i'] && s'[j] == s[j'];
      }
    }
  }

  lemma {:induction false} OrderedDelete(cmp: Cmp, dups: bool, a: seq<Node>, n: Node, b: seq<Node>)
    requires Ordered(cmp, dups, a + [n] + b)
    ensures Ordered(cmp, dups, a + b)
  {
    var s, s' := a + b, a + [n] + b;
    forall i, j | 0 <= i < j < |s|
      ensures Precedes(cmp, dups, s[i], s[j])
    {
      var i', j' := if i < |a| then i else i + 1, if j < |a| then j else j + 1;
      assert s'[i'] == s[i] && s'[j'] == s[j];
    }
  }

  // ---------- the first and the last node of a sequence that compares in a given way ----------

  ghost predicate IsFirst(cmp: Cmp, k: int, s: seq<Node>, w: Way, r: Node?) {
    if r == null then forall i :: 0 <= i < |s| ==> Heading(cmp, k, s[i]) != w
    else
      exists i :: 0 <= i < |s| && s[i] == r && Heading(cmp, k, s[i]) == w
                  && forall j :: 0 <= j < i ==> Heading(cmp, k, s[j]) != w
  }

  ghost predicate IsLast(cmp: Cmp, k: int, s: seq<Node>, w: Way, r: Node?) {
    if r == null then forall i :: 0 <= i < |s| ==> Heading(cmp, k, s[i]) != w
    else
      exists i :: 0 <= i < |s| && s[i] == r && Heading(cmp, k, s[i]) == w
                  && forall j :: i < j < |s| ==> Heading(cmp, k, s[j]) != w
  }

  ghost function FirstOf(s: seq<Node>): Node? {
    if s == [] then null else s[0]
  }

  ghost function LastOf(s: seq<Node>): Node? {
    if s == [] then null else s[|s| - 1]
  }

  lemma {:induction false} FirstMatch(cmp: Cmp, k: int, a: seq<Node>, n: Node, b: seq<Node>)
    requires Below(cmp, k, a) && Heading(cmp, k, n) == EQUAL
    ensures IsFirst(cmp, k, a + [n] + b, EQUAL, n)
  {
    assert (a + [n] + b)[|a|] == n;
    assert forall j :: 0 <= j < |a| ==> (a + [n] + b)[j] == a[j];
  }

  // Below a cut the last node sorting before k is the last node of all.
  lemma {:induction false} LastBelow(cmp: Cmp, k: int, a: seq<Node>, b: seq<Node>)
    requires Below(cmp, k, a) && AllWays(cmp, k, b, LEFT, EQUAL)
    ensures IsLast(cmp, k, a + b, RIGHT, LastOf(a))
  {
    assert forall j :: 0 <= j < |b| ==> (a + b)[|a| + j] == b[j];
    if a != [] {
      assert (a + b)[|a| - 1] == a[|a| - 1];
    }
  }

  lemma {:induction false} FirstAbove(cmp: Cmp, k: int, a: seq<Node>, b: seq<Node>)
    requires AllWays(cmp, k, a, EQUAL, RIGHT) && Above(cmp, k, b)
    ensures IsFirst(cmp, k, a + b, LEFT, FirstOf(b))
  {
    assert forall j :: 0 <= j < |a| ==> (a + b)[j] == a[j];
    if b != [] {
      assert (a + b)[|a|] == b[0];
    }
  }
}
