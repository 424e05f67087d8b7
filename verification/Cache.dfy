/** ubi_Cache.c: a cache of sized entries over a splay tree in overwrite mode. */
module Cache {
  import opened TreeShape
  import opened TreeOrder
  import opened TreeWalk
  import opened TreeEdit
  import opened BinTree
  import Splay = SplayTree

  // The counters of hits and tries are 16 bits wide and are halved at this value.
  const HALVE_AT := 0x8000
  const WORD := 0x10000

  // ---------- the memory the entries account for ----------

  type SizeMem = map<Node, nat>

  ghost function Sizes(s: set<Node>): SizeMem
    reads s`entrySize
  {
    map n <- s :: n.entrySize
  }

  // The entries of y have the sizes they have in z.
  ghost predicate Kept(z: SizeMem, y: SizeMem) {
    forall n <- y :: n in z && y[n] == z[n]
  }

  function Least(a: nat, b: nat): (m: nat)
    ensures m <= a && m <= b && (m == a || m == b)
  {
    if a < b then a else b
  }

  ghost function SizeIn(z: SizeMem, n: Node): nat {
    if n in z then z[n] else 0
  }

  lemma SizeAt(s: set<Node>, n: Node)
    requires n in s
    ensures SizeIn(Sizes(s), n) == n.entrySize
  {}

  lemma SizesKept(s: set<Node>, z: SizeMem)
    requires Kept(z, Sizes(s))
    ensures forall n <- s :: SizeIn(Sizes(s), n) == SizeIn(z, n)
  {}

  ghost function Total(s: seq<Node>, z: SizeMem): nat {
    if s == [] then 0 else SizeIn(z, s[0]) + Total(s[1..], z)
  }

  lemma {:induction false} TotalAppend(a: seq<Node>, b: seq<Node>, z: SizeMem)
    ensures Total(a + b, z) == Total(a, z) + Total(b, z)
  {
    if a == [] {
      assert a + b == b;
    } else {
      TotalAppend(a[1..], b, z);
      assert (a + b)[1..] == a[1..] + b;
    }
  }

  lemma {:induction false} TotalSame(s: seq<Node>, z: SizeMem, y: SizeMem)
    requires forall n <- s :: n in z && n in y && z[n] == y[n]
    ensures Total(s, z) == Total(s, y)
  {
    if s != [] {
      TotalSame(s[1..], z, y);
    }
  }

  lemma {:induction false} TotalKept(t: Tree, z: SizeMem, y: SizeMem)
    requires forall n <- Nodes(t) :: n in z && n in y && z[n] == y[n]
    ensures Total(Inorder(t), z) == Total(Inorder(t), y)
  {
    InorderNodes(t);
    TotalSame(Inorder(t), z, y);
  }

  lemma {:induction false} TotalAround(a: seq<Node>, n: Node, b: seq<Node>, z: SizeMem)
    requires n in z
    ensures Total(a + [n] + b, z) == Total(a + b, z) + z[n]
  {
    TotalAppend(a + [n], b, z);
    TotalAppend(a, [n], z);
    TotalAppend(a, b, z);
  }

  // What insertion and removal change in the account.
  lemma {:induction false} TotalGrown(T: Tree, T0: Tree, T1: Tree, c: Ctx, n: Node, cmp: Cmp, z: SizeMem, y: SizeMem)
    requires Grown(T, T0, c, n, cmp, false) && Inorder(T1) == Inorder(T0) && n in y
    requires forall m <- Nodes(T) :: m in z && m in y && z[m] == y[m]
    ensures Total(Inorder(T1), y) == Total(Inorder(T), z) + y[n]
  {
    PlugInorder(c, Nil);
    PlugInorder(c, Bin(Nil, n, Nil));
    assert Inorder(Bin(Nil, n, Nil)) == [n];
    assert Before(c) + Inorder(Nil) + After(c) == Before(c) + After(c);
    TotalAround(Before(c), n, After(c), y);
    TotalKept(T, z, y);
  }

  lemma {:induction false} TotalOverwritten(T: Tree, T0: Tree, T1: Tree, c: Ctx, u: Tree, o: Node, n: Node, cmp: Cmp,
          z: SizeMem, y: SizeMem)
    requires Overwritten(T, T0, c, u, o, n, cmp) && Inorder(T1) == Inorder(T0) && n in y && o in z && Distinct(T)
    requires forall m <- Nodes(T) :: m != o ==> m in z && m in y && z[m] == y[m]
    ensures Total(Inorder(T1), y) + z[o] == Total(Inorder(T), z) + y[n]
  {
    InorderNodes(T);
    DistinctInorder(T);
    OrderAt(c, u.left, o, u.right);
    OrderAt(c, u.left, n, u.right);
    hide Inorder, Plug, Nodes;
    TotalReplaced(Before(c) + Inorder(u.left), o, n, Inorder(u.right) + After(c), z, y);
  }

  lemma {:induction false} TotalReplaced(a: seq<Node>, o: Node, n: Node, b: seq<Node>, z: SizeMem, y: SizeMem)
    requires var s := a + [o] + b; forall i, j :: 0 <= i < j < |s| ==> s[i] != s[j]
    requires forall m <- a + [o] + b :: m != o ==> m in z && m in y && z[m] == y[m]
    requires o in z && n in y
    ensures Total(a + [n] + b, y) + z[o] == Total(a + [o] + b, z) + y[n]
  {
    var s := a + [o] + b;
    assert s[|a|] == o;
    TotalAround(a, o, b, z);
    TotalAround(a, n, b, y);
    forall m | m in a + b
      ensures m in z && m in y && z[m] == y[m]
    {
      var k :| 0 <= k < |a + b| && (a + b)[k] == m;
      assert s[if k < |a| then k else k + 1] == m;
    }
    TotalSame(a + b, z, y);
  }

  // What an insertion changes in the account, whether it displaces an entry or not.
  lemma {:induction false} TotalLinked(T: Tree, T0: Tree, T1: Tree, c: Ctx, u: Tree, o: Node?, n: Node, cmp: Cmp,
          z: SizeMem, y: SizeMem)
    requires o == null ==> Grown(T, T0, c, n, cmp, false)
    requires o != null ==> Overwritten(T, T0, c, u, o, n, cmp) && o in z && Distinct(T)
    requires Inorder(T1) == Inorder(T0) && n in y
    requires forall m <- Nodes(T) :: m != o ==> m in z && m in y && z[m] == y[m]
    ensures Total(Inorder(T1), y) + (if o == null then 0 else z[o]) == Total(Inorder(T), z) + y[n]
  {
    if o == null {
      TotalGrown(T, T0, T1, c, n, cmp, z, y);
    } else {
      TotalOverwritten(T, T0, T1, c, u, o, n, cmp, z, y);
    }
  }

  lemma {:induction false} TotalWithout(T: Tree, T1: Tree, n: Node, z: SizeMem, y: SizeMem)
    requires Distinct(T) && n in Nodes(T) && n in z && Inorder(T1) == Without(Inorder(T), n)
    requires forall m <- Nodes(T1) :: m in z && m in y && z[m] == y[m]
    ensures Total(Inorder(T), z) == Total(Inorder(T1), y) + z[n]
  {
    var a, b := InPlace(T, n);
    TotalAround(a, n, b, z);
    TotalKept(T1, z, y);
  }

  // ---------- the entries are the latest ones put ----------

  // n was put, and nothing with an equal key has been put since.
  ghost predicate Latest(cmp: Cmp, puts: seq<Node>, n: Node) {
    exists i :: 0 <= i < |puts| && puts[i] == n && forall j :: i < j < |puts| ==> Heading(cmp, puts[j].key, n) != EQUAL
  }

  ghost predicate AllLatest(cmp: Cmp, puts: seq<Node>, s: set<Node>) {
    forall n <- s :: Latest(cmp, puts, n)
  }

  lemma LatestSub(cmp: Cmp, puts: seq<Node>, big: set<Node>, small: set<Node>)
    requires AllLatest(cmp, puts, big) && small <= big
    ensures AllLatest(cmp, puts, small)
  {}

  // At most one entry can be the latest for a key.
  lemma {:induction false} LatestIsUnique(cmp: Cmp, puts: seq<Node>, k: int, m: Node, n: Node)
    requires Preorder(cmp) && Latest(cmp, puts, m) && Latest(cmp, puts, n)
    requires Heading(cmp, k, m) == EQUAL && Heading(cmp, k, n) == EQUAL
    ensures m == n
  {
    var i :| 0 <= i < |puts| && puts[i] == m && forall j :: i < j < |puts| ==> Heading(cmp, puts[j].key, m) != EQUAL;
    var j :| 0 <= j < |puts| && puts[j] == n && forall l :: j < l < |puts| ==> Heading(cmp, puts[l].key, n) != EQUAL;
    HeadingsEqual(cmp, k, m, n);
    HeadingsEqual(cmp, k, n, m);
  }

  // A put leaves the other entries latest if it displaces the one with an equal key.
  lemma {:induction false} PutLatest(cmp: Cmp, puts: seq<Node>, s: set<Node>, e: Node)
    requires Preorder(cmp) && AllLatest(cmp, puts, s)
    requires forall n <- s :: n != e ==> Heading(cmp, e.key, n) != EQUAL
    ensures AllLatest(cmp, puts + [e], s + {e})
  {
    var q := puts + [e];
    forall n | n in s + {e}
      ensures Latest(cmp, q, n)
    {
      if n == e {
        assert q[|puts|] == e;
      } else {
        var i :| 0 <= i < |puts| && puts[i] == n &&
            forall j :: i < j < |puts| ==> Heading(cmp, puts[j].key, n) != EQUAL;
        assert q[i] == n;
        assert forall j :: i < j < |puts| ==> q[j] == puts[j];
      }
    }
  }

  lemma {:induction false} LatestLinked(cmp: Cmp, puts: seq<Node>, s: set<Node>, o: Node?, t: Tree, e: Node)
    requires Preorder(cmp) && Ordered(cmp, false, Inorder(t)) && AllLatest(cmp, puts, s) && Nodes(t) == s - One(o) + {e}
    ensures AllLatest(cmp, puts + [e], Nodes(t))
  {
    KeysDiffer(cmp, t, e);
    PutLatest(cmp, puts, s - One(o), e);
  }

  // ---------- the cache ----------

  class CacheRoot {
    const root: TreeRoot
    var max_entries: nat
    var max_memory: nat
    var mem_used: nat
    var cache_hits: nat
    var cache_trys: nat
    // All entries put since the last clearing, oldest first, and those handed back.
    ghost var puts: seq<Node>
    ghost var freed: multiset<Node>

    ghost function Entries(): set<Node>
      reads root
    {
      Nodes(root.tree)
    }

    ghost predicate WithinLimits()
      reads this, root
    {
      && (max_entries == 0 || root.count <= max_entries)
      && (max_memory == 0 || mem_used <= max_memory)
    }

    // One more entry of that size would be beyond a limit.
    ghost predicate NoRoomFor(size: nat)
      reads this, root
    {
      || (max_entries != 0 && max_entries < root.count + 1)
      || (max_memory != 0 && max_memory < mem_used + size)
    }

    ghost predicate Valid()
      reads this, root, Entries()`left, Entries()`parent, Entries()`right, Entries()`gender, Entries()`entrySize
    {
      SoundBut(0) && WithinLimits()
    }

    // Every entry is in the tree or was freed, each as often as it was put.
    ghost function Held(): multiset<Node>
      reads this, root
    {
      multiset(Entries()) + freed
    }

    constructor (CompFunc: Cmp, MaxEntries: nat, MaxMemory: nat)
      requires Preorder(CompFunc)
      ensures Valid() && fresh(root) && Entries() == {} && puts == [] && freed == multiset{}
      ensures root.cmp == CompFunc && max_entries == MaxEntries && max_memory == MaxMemory
      ensures cache_hits == cache_trys == 0
    {
      root := new TreeRoot(CompFunc, Flags(true, false));
      max_entries, max_memory, mem_used, cache_hits, cache_trys := MaxEntries, MaxMemory, 0, 0, 0;
      puts, freed := [], multiset{};
    }

    // Sound, but for an entry of the given size that has left the tree and is not freed yet.
    ghost predicate SoundBut(size: nat)
      reads this, root, Entries()`left, Entries()`parent, Entries()`right, Entries()`gender, Entries()`entrySize
    {
      var sound :=
        && root.Valid() && root.flags == Flags(true, false)
        && mem_used == Total(Inorder(root.tree), Sizes(Entries())) + size
        && AllLatest(root.cmp, puts, Entries())
        && cache_hits <= cache_trys < HALVE_AT;
      sound
    }

    method FreeEntry(n: Node)
      requires SoundBut(n.entrySize) && n !in Entries()
      modifies this`mem_used, this`freed, n
      ensures SoundBut(0) && mem_used == old(mem_used - n.entrySize) && Kept(old(Sizes(Entries())), Sizes(Entries()))
      ensures Held() == old(Held()) + multiset{n}
    {
      hide Inorder, Nodes, Whole, Total, Distinct, Preorder, Ordered, Size;
      mem_used := mem_used - n.entrySize;
      freed := freed + multiset{n};
      Release(n);
    }

    // The memory of a removed entry goes back to its owner: nothing is known of it any more.
    method Release(n: Node)
      requires SoundBut(0) && n !in Entries()
      modifies n
      ensures SoundBut(0) && Kept(old(Sizes(Entries())), Sizes(Entries()))
    {
      hide Total, Inorder, Whole, Ordered, Preorder, Size, Nodes;
      FreeNode(n);
      n.entrySize := *;
    }

    // Takes one entry out of the tree.
    method Detach(n: Node)
      requires SoundBut(0) && n in Entries()
      modifies root`root, root`count, root`tree
      modifies Entries()`left, Entries()`parent, Entries()`right, Entries()`gender
      ensures SoundBut(n.entrySize) && Entries() == old(Entries()) - {n} && root.count == old(root.count) - 1
      ensures Kept(old(Sizes(Entries())), Sizes(Entries()))
    {
      hide Total, Inorder, Whole, Ordered, Preorder, Without, Size, Nodes, AllLatest, Distinct, Snap;
      ghost var T, z := root.tree, Sizes(Entries());
      WholeIsLocal(Snap(Entries()), T);
      var r;
      ghost var iterations;
      r, iterations := Splay.Remove(root, n);
      TotalWithout(T, root.tree, n, z, Sizes(Entries()));
      LatestSub(root.cmp, puts, Nodes(T), Nodes(root.tree));
    }
  
    // Hangs an entry, whose size is accounted for already, into the tree.
    method Link(EntryPtr: Node, Key: int) returns (OldNode: Node?)
      requires SoundBut(EntryPtr.entrySize) && EntryPtr !in Entries() && Key == EntryPtr.key
      modifies this`puts, root`root, root`count, root`tree
      modifies Entries()`left, Entries()`parent, Entries()`right, Entries()`gender
      modifies EntryPtr`left, EntryPtr`parent, EntryPtr`right, EntryPtr`gender, EntryPtr`balance
      ensures SoundBut(if OldNode == null then 0 else OldNode.entrySize)
      ensures Entries() == old(Entries()) - One(OldNode) + {EntryPtr} && One(OldNode) <= old(Entries())
      ensures root.root == EntryPtr && root.count == old(root.count) + if OldNode == null then 1 else 0
      ensures OldNode == null <==> forall n <- old(Entries()) :: Heading(root.cmp, Key, n) != EQUAL
      ensures OldNode != null ==> Heading(root.cmp, Key, OldNode) == EQUAL
      ensures puts == old(puts) + [EntryPtr]
      ensures Kept(old(Sizes(Entries())[EntryPtr := EntryPtr.entrySize]), Sizes(Entries()))
    {
      hide Total, Inorder, Whole, Ordered, Preorder, Size, Nodes, Grown, Overwritten, Heading, AllLatest, Snap,
          Distinct;
      ghost var T, z, T0, c, u, iterations := root.tree, Sizes(Entries()), Nil, Top, Nil, 0;
      WholeIsLocal(Snap(Entries()), T);
      var ok;
      ok, OldNode, c, u, T0, iterations := Splay.Insert(root, EntryPtr, Key);
      TotalLinked(T, T0, root.tree, c, u, OldNode, EntryPtr, root.cmp, z, Sizes(Entries()));
      LatestLinked(root.cmp, puts, Nodes(T), OldNode, root.tree, EntryPtr);
      puts := puts + [EntryPtr];
    }
  
    // The victim: a leaf, and the root only if it is alone.
    method FindLeaf() returns (NodePtr: Node?)
      requires SoundBut(0)
      ensures SoundBut(0)
      ensures NodePtr == null <==> root.count == 0
      ensures NodePtr != null ==> NodePtr in Entries()
      ensures root.count > 1 ==> root.root != null && root.root in Entries() && NodePtr != root.root
    {
      hide Total, Inorder, Ordered, Preorder, AllLatest;
      RootFacts();
      ghost var view, sizes := Snap(Entries()), Sizes(Entries());
      NodePtr := LeafNode(root.root, Entries(), root.tree);
      assert Snap(Entries()) == view && Sizes(Entries()) == sizes;
      if NodePtr != null && NodePtr == root.root {
        LeafNotRoot(NodePtr);
      }
    }

    // One round of Reduce: a leaf of the tree goes.  The root goes last.
    method DropLeaf() returns (dropped: Node?)
      requires SoundBut(0)
      modifies this`mem_used, this`freed, root`root, root`count, root`tree, Entries()
      ensures SoundBut(0) && Entries() <= old(Entries()) && Held() == old(Held()) && mem_used <= old(mem_used)
      ensures Kept(old(Sizes(Entries())), Sizes(Entries()))
      ensures dropped != null <==> old(root.count) > 0
      ensures root.count == old(root.count) - if dropped != null then 1 else 0
      ensures Entries() == old(Entries()) - One(dropped) && One(dropped) <= old(Entries())
      ensures dropped != null ==> mem_used == old(mem_used) - SizeIn(old(Sizes(Entries())), dropped)
      ensures root.count == 0 ==> mem_used == 0
      ensures old(root.count) > 1 ==> old(root.root) != null && old(root.root) in Entries()
    {
      hide SoundBut, Nodes, Sizes;
      ghost var z := Sizes(Entries());
      var NodePtr := FindLeaf();
      assert Sizes(Entries()) == z;
      dropped := NodePtr;
      if NodePtr != null {
        SizeAt(Entries(), NodePtr);
        Detach(NodePtr);
        FreeEntry(NodePtr);
      }
      RootFacts();
    }

    // Removes count entries from the bottom of the tree.
    method Reduce(count: nat) returns (ok: bool, ghost gone: seq<Node>)
      requires SoundBut(0)
      modifies this`mem_used, this`freed, root`root, root`count, root`tree, Entries()
      ensures SoundBut(0) && Entries() <= old(Entries()) && Held() == old(Held()) && mem_used <= old(mem_used)
      ensures Kept(old(Sizes(Entries())), Sizes(Entries()))
      ensures ok <==> count <= old(root.count)
      ensures root.count == if ok then old(root.count) - count else 0
      ensures root.count == 0 ==> mem_used == 0
      // Those that went, in this order.
      ensures multiset(Entries()) + multiset(gone) == multiset(old(Entries()))
      ensures |gone| == old(root.count) - root.count
      ensures mem_used + Total(gone, old(Sizes(Entries()))) == old(mem_used)
      ensures count == 1 < old(root.count) ==> old(root.root) != null && old(root.root) in Entries()
    {
      hide SoundBut, Nodes, Sizes, Held;
      RootFacts();
      var left := count;
      gone := [];
      ghost var z := Sizes(Entries());
      while left > 0
        invariant SoundBut(0) && Entries() <= old(Entries()) && Held() == old(Held()) && mem_used <= old(mem_used)
        invariant Kept(old(Sizes(Entries())), Sizes(Entries()))
        invariant root.count + count == old(root.count) + left && 0 <= left <= count
        invariant left == count ==> root.root == old(root.root)
        invariant left < count == 1 < old(root.count) ==> old(root.root) != null && old(root.root) in Entries()
        invariant root.count == 0 ==> mem_used == 0
        invariant multiset(Entries()) + multiset(gone) == multiset(old(Entries()))
        invariant |gone| == count - left && mem_used + Total(gone, z) == old(mem_used)
        decreases left
      {
        SizesKept(Entries(), z);
        var dropped := DropLeaf();
        if dropped == null {
          return false, gone;
        }
        TotalAppend(gone, [dropped], z);
        gone := gone + [dropped];
        left := left - 1;
      }
      return true, gone;
    }

    lemma {:induction false} RootFacts()
      requires SoundBut(0)
      ensures IsTree(Snap(Entries()), root.tree) && root.root == Root(root.tree)
      ensures root.root == null <==> root.count == 0
      ensures root.count == 0 ==> mem_used == 0
    {}

    // A leaf that is the root is alone.
    lemma {:induction false} LeafNotRoot(leaf: Node)
      requires SoundBut(0) && leaf in Entries() && leaf.left == null && leaf.right == null && leaf == root.root
      ensures root.count == 1
    {
      var T := root.tree;
      assert IsTree(Snap(Nodes(T)), T) && T.left == Nil && T.right == Nil;
      assert Size(T.left) == 0;
    }
  
    // Removes entries until both limits are met.
    method Trim() returns (ghost gone: seq<Node>)
      requires SoundBut(0)
      modifies this`mem_used, this`freed, root`root, root`count, root`tree, Entries()
      ensures Valid() && Entries() <= old(Entries()) && Held() == old(Held())
      ensures Kept(old(Sizes(Entries())), Sizes(Entries()))
      ensures old(WithinLimits()) ==>
          Entries() == old(Entries()) && mem_used == old(mem_used) && root.count == old(root.count)
      // One entry too many, and no other limit: the root stays.
      ensures max_memory == 0 && 0 < max_entries == old(root.count) - 1 ==>
          old(root.root) != null && old(root.root) in Entries()
      // Those that went, in this order; the last of them had to.
      ensures multiset(Entries()) + multiset(gone) == multiset(old(Entries()))
      ensures gone != [] ==> NoRoomFor(SizeIn(old(Sizes(Entries())), gone[|gone| - 1]))
      ensures |gone| == old(root.count) - root.count
      // No more than are too many go when the memory is not what is short.
      ensures max_memory == 0 || old(mem_used) <= max_memory ==>
          root.count == if max_entries == 0 then old(root.count) else Least(old(root.count), max_entries)
    {
      hide SoundBut, Nodes, Sizes, Held;
      RootFacts();
      gone := [];
      ghost var z := Sizes(Entries());
      while (max_entries != 0 && max_entries < root.count) || (max_memory != 0 && max_memory < mem_used)
        invariant SoundBut(0) && Entries() <= old(Entries()) && Held() == old(Held())
        invariant Kept(old(Sizes(Entries())), Sizes(Entries()))
        invariant root.count <= old(root.count)
        invariant root.count == old(root.count) ==>
            root.root == old(root.root) && Entries() == old(Entries()) && mem_used == old(mem_used)
        invariant old(WithinLimits()) ==> root.count == old(root.count)
        invariant max_memory == 0 && 0 < max_entries == old(root.count) - 1 && root.count < old(root.count)
                  ==> old(root.root) != null && old(root.root) in Entries() && root.count == old(root.count) - 1
        invariant multiset(Entries()) + multiset(gone) == multiset(old(Entries()))
        invariant mem_used <= old(mem_used) && |gone| == old(root.count) - root.count
        invariant gone != [] ==> NoRoomFor(SizeIn(z, gone[|gone| - 1]))
        invariant (max_memory == 0 || old(mem_used) <= max_memory) && root.count < old(root.count) ==>
            0 < max_entries <= root.count
        decreases root.count
      {
        var ok;
        ghost var last;
        ok, last := Reduce(1);
        if !ok {
          RootFacts();
          return;
        }
        gone := gone + last;
      }
      RootFacts();
    }

    // The new entry joins the tree; an entry with an equal key is displaced and freed.
    method Put(EntrySize: nat, EntryPtr: Node, Key: int) returns (ghost displaced: Node?, ghost gone: seq<Node>)
      requires Valid() && EntryPtr !in Entries() && Key == EntryPtr.key
      modifies this`mem_used, this`freed, this`puts, root`root, root`count, root`tree, Entries(), EntryPtr
      ensures Valid() && puts == old(puts) + [EntryPtr]
      ensures Entries() <= old(Entries()) - One(displaced) + {EntryPtr}
      ensures Held() == old(Held()) + multiset{EntryPtr}
      ensures displaced == null <==> forall n <- old(Entries()) :: Heading(root.cmp, Key, n) != EQUAL
      ensures displaced != null ==> displaced in old(Entries()) && Heading(root.cmp, Key, displaced) == EQUAL
      // The sizes of the entries that stay are those they were put with.
      ensures Kept(old(Sizes(Entries()))[EntryPtr := EntrySize], Sizes(Entries()))
      ensures max_memory == 0 ==> EntryPtr in Entries()
      // Those that went after it, in this order; the last of them had to.
      ensures multiset(Entries()) + multiset(gone) == multiset(old(Entries()) - One(displaced) + {EntryPtr})
      ensures gone != [] ==> NoRoomFor(SizeIn(old(Sizes(Entries()))[EntryPtr := EntrySize], gone[|gone| - 1]))
      ensures root.count + |gone| == old(root.count) + if displaced == null then 1 else 0
      ensures max_memory == 0 ==>
          var count := old(root.count) + if displaced == null then 1 else 0;
          root.count == if max_entries == 0 then count else Least(count, max_entries)
      // Nothing else goes when there is room for the entry.
      ensures
        (max_entries == 0 || old(root.count) < max_entries) &&
        (max_memory == 0 || old(mem_used) + EntrySize <= max_memory) ==>
          Entries() == old(Entries()) - One(displaced) + {EntryPtr} &&
          (displaced == null ==> root.count == old(root.count) + 1)
    {
      hide SoundBut, Nodes, Heading, Held;
      displaced := Enter(EntrySize, EntryPtr, Key);
      gone := Trim();
    }

    // Put, before trimming.
    method Enter(EntrySize: nat, EntryPtr: Node, Key: int) returns (OldNode: Node?)
      requires SoundBut(0) && EntryPtr !in Entries() && Key == EntryPtr.key
      modifies this`mem_used, this`freed, this`puts, root`root, root`count, root`tree, Entries(), EntryPtr
      ensures SoundBut(0) && puts == old(puts) + [EntryPtr]
      ensures Entries() == old(Entries()) - One(OldNode) + {EntryPtr} && root.root == EntryPtr
      ensures root.count == old(root.count) + if OldNode == null then 1 else 0
      ensures Held() == old(Held()) + multiset{EntryPtr}
      ensures Kept(old(Sizes(Entries()))[EntryPtr := EntrySize], Sizes(Entries()))
      ensures mem_used <= old(mem_used) + EntrySize
      ensures OldNode == null <==> forall n <- old(Entries()) :: Heading(root.cmp, Key, n) != EQUAL
      ensures OldNode != null ==> OldNode in old(Entries()) && Heading(root.cmp, Key, OldNode) == EQUAL
    {
      hide SoundBut, Nodes, Heading, Entries;
      ghost var z := Sizes(Entries());
      Resize(EntrySize, EntryPtr);
      assert Sizes(Entries()) == z;
      OldNode := Link(EntryPtr, Key);
      if OldNode != null {
        FreeEntry(OldNode);
      }
    }

    method Resize(EntrySize: nat, EntryPtr: Node)
      requires SoundBut(0) && EntryPtr !in Entries()
      modifies this`mem_used, EntryPtr`entrySize
      ensures SoundBut(EntryPtr.entrySize) && EntryPtr.entrySize == EntrySize
      ensures mem_used == old(mem_used) + EntrySize
    {
      hide Total, Inorder, Whole, Ordered, Preorder, Size, Nodes, AllLatest, Snap;
      ghost var sizes := Sizes(Entries());
      EntryPtr.entrySize := EntrySize;
      assert Sizes(Entries()) == sizes;
      mem_used := mem_used + EntrySize;
    }

    method Look(FindMe: int) returns (FoundPtr: Node?)
      requires SoundBut(0)
      modifies root`root, root`tree, Entries()`left, Entries()`parent, Entries()`right, Entries()`gender
      ensures SoundBut(0) && Entries() == old(Entries()) && Inorder(root.tree) == old(Inorder(root.tree))
      ensures FoundPtr == null <==> forall n <- Entries() :: Heading(root.cmp, FindMe, n) != EQUAL
      ensures FoundPtr != null ==> FoundPtr in Entries() && Heading(root.cmp, FindMe, FoundPtr) == EQUAL
      ensures FoundPtr != null ==> root.root == FoundPtr && Latest(root.cmp, puts, FoundPtr)
      ensures FoundPtr != null ==> forall m <- Entries() :: m != FoundPtr ==> Heading(root.cmp, FindMe, m) != EQUAL
    {
      hide Total, Inorder, Whole, Ordered, Preorder, Size, Nodes, Heading, Latest;
      ghost var z := Sizes(Entries());
      ghost var iterations;
      FoundPtr, iterations := Splay.Find(root, FindMe);
      assert Sizes(Entries()) == z;
      if FoundPtr != null {
        OnlyMatch(FindMe, FoundPtr);
      }
    }

    method Tally(hit: bool)
      requires SoundBut(0)
      modifies this`cache_hits, this`cache_trys
      ensures SoundBut(0)
      ensures var hits, trys := old(cache_hits) + (if hit then 1 else 0), old(cache_trys) + 1;
              if trys < HALVE_AT then cache_hits == hits && cache_trys == trys
              else cache_hits == hits / 2 && cache_trys == HALVE_AT / 2
    {
      hide Total, Inorder, Whole, Ordered, Preorder, Size, Nodes, AllLatest, Snap;
      if hit {
        cache_hits := (cache_hits + 1) % WORD;
      }
      cache_trys := (cache_trys + 1) % WORD;
      if cache_trys / HALVE_AT % 2 == 1 {
        cache_hits := cache_hits / 2;
        cache_trys := cache_trys / 2;
      }
    }

    // Looks an entry up.  What is found is the latest entry put under that key.
    method Get(FindMe: int) returns (FoundPtr: Node?)
      requires Valid()
      modifies this`cache_hits, this`cache_trys, root`root, root`tree
      modifies Entries()`left, Entries()`parent, Entries()`right, Entries()`gender
      ensures Valid() && Entries() == old(Entries()) && Inorder(root.tree) == old(Inorder(root.tree))
      ensures FoundPtr == null <==> forall n <- Entries() :: Heading(root.cmp, FindMe, n) != EQUAL
      ensures FoundPtr != null ==> FoundPtr in Entries() && Heading(root.cmp, FindMe, FoundPtr) == EQUAL
      ensures FoundPtr != null ==> root.root == FoundPtr && Latest(root.cmp, puts, FoundPtr)
      ensures var hits, trys := old(cache_hits) + (if FoundPtr == null then 0 else 1), old(cache_trys) + 1;
              if trys < HALVE_AT then cache_hits == hits && cache_trys == trys
              else cache_hits == hits / 2 && cache_trys == HALVE_AT / 2
    {
      hide SoundBut, Nodes, Heading, Latest, Inorder;
      FoundPtr := Look(FindMe);
      Tally(FoundPtr != null);
    }

    method Delete(DeleteMe: int) returns (found: bool)
      requires Valid()
      modifies this`mem_used, this`freed, root`root, root`count, root`tree, Entries()
      ensures Valid() && Entries() <= old(Entries()) && Held() == old(Held())
      ensures found <==> exists n <- old(Entries()) :: Heading(root.cmp, DeleteMe, n) == EQUAL
      ensures forall n <- old(Entries()) :: n in Entries() <==> Heading(root.cmp, DeleteMe, n) != EQUAL
    {
      hide SoundBut, Nodes, Heading, Latest, Inorder;
      var FoundPtr := Look(DeleteMe);
      found := FoundPtr != null;
      if FoundPtr != null {
        Detach(FoundPtr);
        FreeEntry(FoundPtr);
      }
    }

    lemma {:induction false} OnlyMatch(k: int, n: Node)
      requires root.Valid() && !root.flags.dupkey && n in Entries() && Heading(root.cmp, k, n) == EQUAL
      ensures forall m <- Entries() :: m != n ==> Heading(root.cmp, k, m) != EQUAL
    {
      forall m | m in Entries() && m != n
        ensures Heading(root.cmp, k, m) != EQUAL
      {
        if Heading(root.cmp, k, m) == EQUAL {
          KeysDiffer(root.cmp, root.tree, n);
          HeadingsEqual(root.cmp, k, n, m);
        }
      }
    }

    // Frees every entry, children before parents, and forgets the past.
    method Clear() returns (entries: seq<Node>)
      requires Valid()
      modifies this`mem_used, this`freed, this`puts, this`cache_hits, this`cache_trys
      modifies root`root, root`count, root`tree, root`flags, Entries()
      ensures Valid() && Entries() == {} && mem_used == 0 && cache_hits == cache_trys == 0
      ensures entries == old(Postorder(root.tree)) && freed == old(freed) + multiset(entries)
      ensures Held() == old(Held())
    {
      hide SoundBut, Nodes, Postorder;
      TreeFacts();
      PostorderMultiset(root.tree);
      var count;
      count, entries := KillTree(root);
      mem_used, cache_hits, cache_trys := 0, 0, 0;
      puts, freed := [], freed + multiset(entries);
      EmptyIsSound();
    }

    lemma {:induction false} TreeFacts()
      requires SoundBut(0)
      ensures root.Shape() && Distinct(root.tree) && Preorder(root.cmp) && root.flags == Flags(true, false)
    {
      WholeIsLocal(Snap(Nodes(root.tree)), root.tree);
    }

    lemma {:induction false} EmptyIsSound()
      requires root.Shape() && root.tree == Nil && Preorder(root.cmp) && root.flags == Flags(true, false)
      requires mem_used == cache_hits == cache_trys == 0
      ensures SoundBut(0) && Entries() == {} && root.count == 0
    {}

    method SetMaxEntries(NewSize: nat) returns (oldsize: nat, ghost gone: seq<Node>)
      requires Valid()
      modifies this`max_entries, this`mem_used, this`freed, root`root, root`count, root`tree, Entries()
      ensures Valid() && max_entries == NewSize && oldsize == old(max_entries)
      ensures Entries() <= old(Entries()) && Held() == old(Held())
      ensures NewSize == 0 || old(root.count) <= NewSize ==> Entries() == old(Entries())
      ensures multiset(Entries()) + multiset(gone) == multiset(old(Entries()))
      ensures root.count == if NewSize == 0 then old(root.count) else Least(old(root.count), NewSize)
    {
      hide Total, Inorder, Whole, Ordered, Preorder, Size, Nodes, AllLatest;
      oldsize := max_entries;
      max_entries := NewSize;
      gone := [];
      if NewSize < oldsize || (NewSize != 0 && oldsize == 0) {
        gone := Trim();
      }
    }

    method SetMaxMemory(NewSize: nat) returns (oldsize: nat, ghost gone: seq<Node>)
      requires Valid()
      modifies this`max_memory, this`mem_used, this`freed, root`root, root`count, root`tree, Entries()
      ensures Valid() && max_memory == NewSize && oldsize == old(max_memory)
      ensures Entries() <= old(Entries()) && Held() == old(Held())
      ensures NewSize == 0 || old(mem_used) <= NewSize ==> Entries() == old(Entries())
      ensures multiset(Entries()) + multiset(gone) == multiset(old(Entries()))
      // The last one to go had to.
      ensures gone != [] ==> 0 < NewSize < mem_used + SizeIn(old(Sizes(Entries())), gone[|gone| - 1])
    {
      hide Total, Inorder, Whole, Ordered, Preorder, Size, Nodes, AllLatest;
      oldsize := max_memory;
      max_memory := NewSize;
      gone := [];
      if NewSize < oldsize || (NewSize != 0 && oldsize == 0) {
        gone := Trim();
      }
    }

    // The hit ratio in hundredths of a percent.
    function HitRatio(): (tmp: nat)
      requires cache_hits <= cache_trys
      reads this`cache_hits, this`cache_trys
      ensures tmp <= 10000 && (cache_trys == 0 ==> tmp == 0)
      ensures cache_trys != 0 ==> tmp * cache_trys <= 10000 * cache_hits < (tmp + 1) * cache_trys
    {
      if cache_trys == 0 then 0 else Ratio(cache_hits, cache_trys)
    }
  }

  function Ratio(hits: nat, trys: nat): (q: nat)
    requires hits <= trys && trys != 0
    ensures q <= 10000 && q * trys <= 10000 * hits < (q + 1) * trys
  {
    RatioBounds(hits, trys, Quotient(10000 * hits, trys));
    Quotient(10000 * hits, trys)
  }

  lemma {:induction false} RatioBounds(hits: nat, trys: nat, q: nat)
    requires hits <= trys && trys != 0 && q * trys <= 10000 * hits
    ensures q <= 10000
  {
    if q > 10000 {
      Times(10001, q, trys);
    }
  }

  function Quotient(n: nat, d: nat): (q: nat)
    requires d != 0
    ensures q * d <= n < (q + 1) * d
  {
    assert n == d * (n / d) + n % d;
    n / d
  }

  lemma Times(a: nat, b: nat, c: nat)
    requires a <= b
    ensures a * c <= b * c
  {}

  lemma Union(a: set<Node>, b: set<Node>)
    requires a !! b
    ensures multiset(a + b) == multiset(a) + multiset(b)
  {}

  lemma {:induction false} PostorderMultiset(t: Tree)
    requires Distinct(t)
    ensures multiset(Postorder(t)) == multiset(Nodes(t))
  {
    match t
    case Nil =>
    case Bin(l, n, r) =>
      PostorderMultiset(l);
      PostorderMultiset(r);
      Union(Nodes(l), {n});
      Union(Nodes(l) + {n}, Nodes(r));
      assert multiset({n}) == multiset([n]);
  }
}
