# Corenova: trees, loader, queue, pipe and codecs

Corenova is a C framework of loadable modules on top of the ubiqx tree library.  This project
models its algorithmic core in Dafny and proves what that core promises.

| files | model | of |
|---|---|---|
| TreeShape, TreeOrder, TreeWalk, TreeEdit, BinTree | nodes as objects with three links, gender and balance code; searching, inserting, removing, freeing | ubi_BinTree.c |
| TreeRotate, Ranks, SplayTree | rotation, splaying and its amortised cost, split and join | ubi_SplayTree.c |
| AvlTree | four rotations, the walks up with early exit, balance after every run | ubi_AVLtree.c |
| Cache | a splay tree of sized entries with two limits | ubi_Cache.c |
| Modules | loadable modules, their dependency graph, and what reference counts mean | module.h, NovaLoader.c |
| InterfaceCache | recursive search for an interface and the cache that replaces it | source-stub.h, NovaLoader.c |
| Loader, LoaderRuns | loading, rollback and unloading with reference counts and caches; whole runs | NovaLoader.c |
| Queue | a ring of items that grows and shrinks by chunks | queue.c |
| Pipe | a growing, compacting byte buffer between two descriptors | pipe.c |
| Md5 | RFC 1321, piece by piece | md5.c |
| Streams | typed values over pages, between hosts of either byte order | streams.c |
| Negotiation | the client's choice of a protocol | session.c |
| Wildcard | comparing strings with wildcards on both sides | string.c |
| Checksum | the checksum of RFC 1071 and the echo request that carries it | neticmp.c |

## How the trees are specified

A `Node` is an object whose links, gender and code change in place.  The abstract side is a
`Tree` of nodes and a `Ctx`, a tree with one hole; `IsTree` and `IsCtx` tie them to a snapshot of
the links in memory.  A pointer operation states the fields it writes and that all others keep
their values; a lemma then lifts that to the abstract tree.  Walks along parent links are loops
over a `Ctx`.  The comparison function is any total preorder on keys, and duplicates are allowed
where the flags say so.  Freed nodes get arbitrary field values, so that a proof cannot rely on
them any more.

## Where the code does less than it seems

Each of these follows the code.  A lemma or contract states exactly when the code does what is
expected, and another gives an input with which it does not.

- The interface cache has room for 63 entries, not 255: its memory limit of 255 * 16 bytes is
  reached first, an entry with its interface counting 64 bytes (8-byte pointers).  With more
  distinct names the cache and the search differ (`InterfaceCache.AgreesIffFits`), as they do for
  five modules of 13 interfaces each (`LoaderRuns.SearchAndCacheDiffer`).
- A module's lists of interfaces and requirements are arrays of 16 and 32 names.  The loader looks
  for the null pointer at the end, and behind a full array finds the next list: sixteen interfaces
  are refused as too many if anything is required (`Loader.NovaLoader.AddInterfaces`,
  `LoaderRuns.SixteenRefused`), and 32 requirements if there is an option
  (`LoaderRuns.ThirtyTwoRefused`).
- A queue's chunk is allocated with its size cut to 16 bits, while shrinking uses the full size
  (`Queue.ChunkCut`).  A queue of a single chunk never shrinks; any other with chunks of 65536
  items or more reads past a chunk (`Queue.ShrinksPastChunk`), or, where the cut leaves nothing,
  in front of it.
- The MD5 loop over whole blocks adds 63 to a 32-bit index, which wraps around for inputs close to
  4 GB unless the buffer is empty (`Md5.GuardSoundIffFits`, `Md5.GuardFails`).
- The byte-swapping macros of the stream reader are several statements under an `if` without
  braces; between hosts of one byte order and different int size numbers come out wrong
  (`Streams.AdaptedIffOrdersDiffer`, `Streams.SameOrderFails`).
- The length of a text is copied as the first four bytes of an int, the wrong ones for a
  big-endian int of eight bytes (`Streams.LengthsArriveIff`, `Streams.LengthOneFails`).
- With an empty field in its list, other than at the end, the client may choose a colon and the
  field after it (`Negotiation.Choose`, `Negotiation.ChoosesWrongly`).
- A pattern with two wildcards in a row equals no subject without wildcards, not even an empty one
  (`Wildcard.ExactLanguage`, `Wildcard.DoubleFails`).  Two patterns that compare equal have a
  string in common (`Wildcard.Common`), but not all that have one compare equal
  (`Wildcard.OverlapFails`).
- Cleaning a pipe from any position but the read position loses or repeats bytes
  (`Pipe.DataPipe.CleanBefore`, `Pipe.BytesLost`).
- In a flush, the result of a write replaces the result of the read before it: a failed read goes
  unreported when the output is ready, unless the write fails as well (`Pipe.Outcome`,
  `Pipe.DataPipe.Turn`); the flush may even report COMPLETE (`Pipe.FailureUnreported`).

The sum of in_cksum is an int, which buffers of more than 65537 bytes could make overflow
(`Checksum.SumsFitIff`); its only caller stays far below that (`Checksum.FillRequest`).

One difference is between the code and its own comment: the comment gives the pipe's largest
buffer as 256 KB; the constants make it 512 KB.

## Model

| member | source | states |
|---|---|---|
| TreeShape.PlugInorder | src/contrib/ubiqx/library/ubi_BinTree.h:358-362 | cutting a tree at any node splits its traversal into what comes before the subtree, the subtree, and what comes after |
| TreeShape.PlugPostorder | src/contrib/ubiqx/library/ubi_BinTree.h:358-362 | the same for the children-first order in which a tree is freed |
| TreeShape.WholeIffLocal | src/contrib/ubiqx/library/ubi_BinTree.h:358-362 | the links and genders in memory form a whole tree exactly when a subtree and everything around it fit together at its place |
| TreeShape.Links | src/contrib/ubiqx/library/ubi_BinTree.h:358-362 | what memory then holds for a node: both children, its parent, its gender; and that the parent points back |
| TreeShape.PostorderNodes | src/contrib/ubiqx/library/ubi_BinTree.c:1060-1085 | children-first order lists every node of the tree once |
| TreeShape.Reparent | src/contrib/ubiqx/library/ubi_BinTree.c:296-328 | handing a subtree to a new parent touches only the back link and gender of its root |
| TreeShape.Rehang | src/contrib/ubiqx/library/ubi_BinTree.c:296-328 | putting another node at a place changes only one link of the node above it |
| TreeOrder.HeadingMonotone | src/contrib/ubiqx/library/ubi_BinTree.c:247-294 | under a total preorder a search key never turns right again later in the traversal order once it turns left |
| TreeOrder.Sides | src/contrib/ubiqx/library/ubi_BinTree.c:247-294 | around any node of a sorted tree: what precedes it compares at least as far right, what follows at least as far left |
| TreeOrder.OrderedInsert | src/contrib/ubiqx/library/ubi_BinTree.c:583-700 | a node put after all keys not greater (with duplicates) or all smaller keys keeps the order |
| TreeOrder.OrderedDelete | src/contrib/ubiqx/library/ubi_BinTree.c:702-754 | taking a node out keeps the order |
| TreeOrder.LastBelow | src/contrib/ubiqx/library/ubi_BinTree.c:756-848 | at a cut between smaller and not smaller keys the last smaller node is the one before the cut |
| TreeOrder.FirstAbove | src/contrib/ubiqx/library/ubi_BinTree.c:756-848 | and the first greater node the one after it |
| TreeWalk.SubSlide | src/contrib/ubiqx/library/ubi_BinTree.c:379-402 | sliding one way ends at the subtree's first or last node in traversal order |
| TreeWalk.SubSlideUp | src/contrib/ubiqx/library/ubi_BinTree.c:379-402 | sliding in the direction PARENT ends at the root of the whole tree |
| TreeWalk.Neighbor | src/contrib/ubiqx/library/ubi_BinTree.c:404-435 | the next (or previous) node in traversal order, null at the end |
| TreeWalk.qFind | src/contrib/ubiqx/library/ubi_BinTree.c:213-245 | the search ends at a node with an equal key, or at an empty place with smaller keys before it and greater ones after it |
| TreeWalk.TreeFind | src/contrib/ubiqx/library/ubi_BinTree.c:247-294 | the same, with the parent and side of the place reached |
| TreeWalk.DuplicatePlace | src/contrib/ubiqx/library/ubi_BinTree.c:662-683 | descending from a match ends at the empty place right after all equal keys |
| TreeWalk.Border | src/contrib/ubiqx/library/ubi_BinTree.c:437-498 | from the topmost node with an equal key: the first (or last) of all equal keys, on any weakly sorted tree |
| TreeWalk.TopmostMatch | src/contrib/ubiqx/library/ubi_BinTree.c:437-498 | a search never steps over an equal key, so what it finds is topmost |
| TreeWalk.LeafNode | src/contrib/ubiqx/library/ubi_BinTree.c:1087-1160 | the descent over up to four paths ends, and at a leaf of the tree |
| TreeEdit.ThreeStepSwap | src/contrib/ubiqx/library/ubi_BinTree.c:330-373 | replacing by way of a dummy node three times exchanges two nodes, next to each other or not |
| TreeEdit.SwapInorder | src/contrib/ubiqx/library/ubi_BinTree.c:330-373 | the exchange shows in the traversal order as exactly that |
| TreeEdit.SwapCodes | src/contrib/ubiqx/library/ubi_BinTree.c:330-373 | and every position keeps its balance code |
| TreeEdit.TakeOver | src/contrib/ubiqx/library/ubi_BinTree.c:296-328 | memory after ReplaceNode holds the tree with the new node in the old one's place |
| TreeEdit.Bypass | src/contrib/ubiqx/library/ubi_BinTree.c:702-754 | memory after a node with at most one child is bypassed holds the tree with the child, or nothing, in its place |
| TreeEdit.HangWhole | src/contrib/ubiqx/library/ubi_BinTree.c:583-700 | memory after a leaf is hung into an empty place holds the tree grown there |
| TreeEdit.Prune | src/contrib/ubiqx/library/ubi_BinTree.c:1060-1085 | memory without a leaf cut off holds the rest of the tree |
| TreeEdit.SwapOrder | src/contrib/ubiqx/library/ubi_BinTree.c:702-754 | exchanging a node with its predecessor and then taking it out leaves the old order without that node |
| TreeEdit.HeirOrder | src/contrib/ubiqx/library/ubi_BinTree.c:702-754 | a node replaced by its only child leaves the traversal order without it |
| BinTree.TreeRoot.constructor | src/contrib/ubiqx/library/ubi_BinTree.c:545-581 | an empty tree; the duplicates flag drops the overwrite flag |
| BinTree.ReplaceNode | src/contrib/ubiqx/library/ubi_BinTree.c:296-328 | new state of every link involved; everything else as it was |
| BinTree.SwapNodes | src/contrib/ubiqx/library/ubi_BinTree.c:330-373 | the tree with both nodes exchanged, whether or not one is the other's child, with every position's code in place |
| BinTree.FindPlace | src/contrib/ubiqx/library/ubi_BinTree.c:641-683 | whether an equal key is in the way, and otherwise the place where the order allows the new key |
| BinTree.Insert | src/contrib/ubiqx/library/ubi_BinTree.c:583-700 | refuses, overwrites or adds exactly as the flags say; a duplicate goes after all equal keys; order, links, genders, count kept; a refusal changes nothing |
| BinTree.OverwriteOrder | src/contrib/ubiqx/library/ubi_BinTree.c:684-700 | a node with an equal key can take another's place in the order |
| BinTree.Remove | src/contrib/ubiqx/library/ubi_BinTree.c:702-754 | the old traversal order without exactly the dead node, links and genders, count, and which place lost a node with which codes: the node's own, or with two children that of its predecessor |
| BinTree.Locate | src/contrib/ubiqx/library/ubi_BinTree.c:756-848 | for LT, LE, EQ, GE, GT the node that the sorted sequence holds: last below, first match, first above |
| BinTree.LocatedAtMatch | src/contrib/ubiqx/library/ubi_BinTree.c:807-848 | where the three answers around a match are in the traversal order |
| BinTree.LocatedAtGap | src/contrib/ubiqx/library/ubi_BinTree.c:807-848 | the same for a key that is not there |
| BinTree.Find | src/contrib/ubiqx/library/ubi_BinTree.c:850-872 | an equal key if there is one, null exactly if there is none |
| BinTree.InsertEntered | src/contrib/ubiqx/library/ubi_BinTree.c:583-700 | which nodes an insertion leaves, by keys alone: with duplicates one more; else an equal key goes, or keeps the new one out, as the flags say |
| BinTree.Traverse | src/contrib/ubiqx/library/ubi_BinTree.c:990-1034 | whichever of the visited nodes the action deletes and frees: every node is visited once, in order, and the tree left holds the others in order |
| BinTree.KillTree | src/contrib/ubiqx/library/ubi_BinTree.c:1036-1085 | frees the nodes in children-first order, each once, and returns the old count |
| BinTree.NextVictim | src/contrib/ubiqx/library/ubi_BinTree.c:1060-1085 | from a node without left child down to the first leaf in children-first order |
| Ranks.Log2Bounds | src/contrib/ubiqx/library/ubi_SplayTree.c:225-251 | the rank is the integer part of the binary logarithm |
| Ranks.DoubleRotation | src/contrib/ubiqx/library/ubi_SplayTree.c:225-251 | the arithmetic of one double rotation in the amortised account |
| TreeRotate.RotateLifts | src/contrib/ubiqx/library/ubi_SplayTree.c:178-223 | the six links and two genders of one rotation make memory hold the rotated tree |
| TreeRotate.RotatedOrder | src/contrib/ubiqx/library/ubi_SplayTree.c:178-223 | a rotation keeps the traversal order and the nodes |
| TreeRotate.DoubleLifts | src/contrib/ubiqx/library/ubi_AVLtree.c:245-347 | the links of a double rotation make memory hold the tree turned twice |
| TreeRotate.DoubleOrder | src/contrib/ubiqx/library/ubi_AVLtree.c:245-347 | a double rotation keeps the traversal order |
| SplayTree.Rotate | src/contrib/ubiqx/library/ubi_SplayTree.c:178-223 | the new links and genders of all nodes involved; nothing at a root |
| SplayTree.RotateAt | src/contrib/ubiqx/library/ubi_SplayTree.c:178-223 | on the abstract tree: one rotation at the node's place, everything else as it was |
| SplayTree.ZigCost | src/contrib/ubiqx/library/ubi_SplayTree.c:225-251 | amortised cost of a single rotation below the root |
| SplayTree.ZigZigCost | src/contrib/ubiqx/library/ubi_SplayTree.c:225-251 | amortised cost of the two rotations for children of the same side, parent first |
| SplayTree.ZigZagCost | src/contrib/ubiqx/library/ubi_SplayTree.c:225-251 | amortised cost of the two rotations for children of different sides |
| SplayTree.SplayStep | src/contrib/ubiqx/library/ubi_SplayTree.c:225-251 | one iteration keeps the account, the order and the nodes, and comes nearer to the root |
| SplayTree.Splay | src/contrib/ubiqx/library/ubi_SplayTree.c:225-251 | the loop ends with the node at the root and links and genders right, in the tree and after the number of iterations that SplayedCost is about |
| SplayTree.SplayAt | src/contrib/ubiqx/library/ubi_SplayTree.c:458-481 | the same for the exported operation: the tree is the splayed one, and the iterations are half the depth of the node, rounded up |
| SplayTree.SplayedCost | src/contrib/ubiqx/library/ubi_SplayTree.c:225-251 | the bound for any node of any tree: what the iterations make of it keeps order and nodes, and iterations plus change of potential are at most 3 log2 n + 1 |
| SplayTree.RoundsHalve | src/contrib/ubiqx/library/ubi_SplayTree.c:225-251 | every iteration but perhaps the last goes up two links |
| SplayTree.SplayAll | src/contrib/ubiqx/library/ubi_SplayTree.c:458-481 | any run of splays: the tree and the sum of the half depths, which is at most (3 log2 n + 1) for each plus the first potential |
| SplayTree.Insert | src/contrib/ubiqx/library/ubi_SplayTree.c:257-320 | BinTree.Insert, then the new node, or the one in its way, is splayed: the tree, the iterations by its depth, and amortised cost at most 4 log2 (n + 1) + 1 |
| SplayTree.GrowthCost | src/contrib/ubiqx/library/ubi_SplayTree.c:257-320 | a leaf more raises the potential by no more than the rank of the whole |
| SplayTree.Locate | src/contrib/ubiqx/library/ubi_SplayTree.c:369-427 | Located as in the binary tree, and what was found is splayed: the tree, the iterations by its depth, and amortised cost of one splay |
| SplayTree.Find | src/contrib/ubiqx/library/ubi_SplayTree.c:429-456 | an equal key if there is one, splayed then; the iterations by its depth, and amortised cost of one splay |
| SplayTree.JoinOrder | src/contrib/ubiqx/library/ubi_SplayTree.c:337-367 | hanging a tree below the last node of another appends its traversal order |
| SplayTree.JoinParts | src/contrib/ubiqx/library/ubi_SplayTree.c:337-367 | the subtrees of the splayed node joined: their orders one after the other, links and genders right |
| SplayTree.Commutes | src/contrib/ubiqx/library/ubi_SplayTree.c:337-367 | splaying the last node of a tree comes to the same whatever hangs on its right |
| SplayTree.JoinCost | src/contrib/ubiqx/library/ubi_SplayTree.c:337-367 | so joining two trees there and splaying costs no more than splaying in the left one alone |
| SplayTree.JoinedAt | src/contrib/ubiqx/library/ubi_SplayTree.c:337-367 | hanging the right tree below the last node of the left one and splaying that comes to the textbook join: splay it first, then hang the right tree below |
| SplayTree.Remove | src/contrib/ubiqx/library/ubi_SplayTree.c:322-367 | the old order without exactly the dead node, links, genders, count; the tree is the join of both sides of the dead node splayed, the iterations those of two splays by depth; amortised cost at most 5 log2 n + 2 |
| SplayTree.Run | src/contrib/ubiqx/library/ubi_SplayTree.c:257-481 | any run of m insertions, removals, searches and locates from an empty tree: each leaves the tree and takes the iterations it should, and all take no more than m (5 log2 (m + 1) + 2) |
| AvlTree.HeightBound | src/contrib/ubiqx/library/ubi_AVLtree.c:350-381 | a balanced tree of height h has at least Fib (h + 2) - 1 nodes |
| AvlTree.HeightIsLogarithmic | src/contrib/ubiqx/library/ubi_AVLtree.c:350-381 | its height is at most 2 log2 (n + 1) + 1 |
| AvlTree.L1 | src/contrib/ubiqx/library/ubi_AVLtree.c:181-211 | single left rotation: new links, genders and both codes |
| AvlTree.R1 | src/contrib/ubiqx/library/ubi_AVLtree.c:213-243 | single right rotation: new links, genders and both codes |
| AvlTree.L2 | src/contrib/ubiqx/library/ubi_AVLtree.c:245-295 | double left rotation: new links, genders and three codes |
| AvlTree.R2 | src/contrib/ubiqx/library/ubi_AVLtree.c:297-347 | double right rotation: new links, genders and three codes |
| AvlTree.SingleBalanced | src/contrib/ubiqx/library/ubi_AVLtree.c:181-243 | after a single rotation all codes are true again; the height shrinks exactly if the new root code is EQUAL |
| AvlTree.DoubleBalanced | src/contrib/ubiqx/library/ubi_AVLtree.c:245-347 | after a double rotation all codes are true again and the height has shrunk by one |
| AvlTree.Adjust | src/contrib/ubiqx/library/ubi_AVLtree.c:350-381 | a node whose one subtree is higher than its code says comes back in balance, order and surroundings kept |
| AvlTree.GrowthGoesOn | src/contrib/ubiqx/library/ubi_AVLtree.c:383-419 | the early exit after an insertion is right: root code EQUAL means the old height, any other code one more |
| AvlTree.LossGoesOn | src/contrib/ubiqx/library/ubi_AVLtree.c:421-460 | the early exit after a removal is right: root code EQUAL means one less, any other code the old height |
| AvlTree.Rebalance | src/contrib/ubiqx/library/ubi_AVLtree.c:383-419 | from a tree grown at one place to a balanced tree of the same order, and its root |
| AvlTree.Debalance | src/contrib/ubiqx/library/ubi_AVLtree.c:421-460 | from a tree shrunk at one place to a balanced tree of the same order, and its root |
| AvlTree.BalancedCodes | src/contrib/ubiqx/library/ubi_AVLtree.c:539-564 | balance depends only on the codes at their positions, not on which nodes carry them |
| AvlTree.Insert | src/contrib/ubiqx/library/ubi_AVLtree.c:467-537 | BinTree.Insert, and every code is the true height difference in LEFT, EQUAL, RIGHT |
| AvlTree.Remove | src/contrib/ubiqx/library/ubi_AVLtree.c:539-564 | the old order without exactly the dead node, and every code true |
| AvlTree.Run | src/contrib/ubiqx/library/ubi_AVLtree.c:467-564 | every run of insertions and removals: the tree holds exactly the nodes it should, sorted, in balance, its height logarithmic in the count |
| Cache.CacheRoot.constructor | src/contrib/ubiqx/library/ubi_Cache.c:176-238 | an empty cache with its limits, in overwrite mode, with no hits and no tries |
| Cache.LatestIsUnique | src/contrib/ubiqx/library/ubi_Cache.c:262-311 | at most one entry can be the latest one put for a key |
| Cache.PutLatest | src/contrib/ubiqx/library/ubi_Cache.c:262-311 | after a put the others are still the latest ones for their keys |
| Cache.TotalLinked | src/contrib/ubiqx/library/ubi_Cache.c:262-311 | what an insertion changes in the sum of entry sizes, with or without displacing an entry |
| Cache.TotalWithout | src/contrib/ubiqx/library/ubi_Cache.c:132-149 | what a removal changes in it |
| Cache.CacheRoot.Detach | src/contrib/ubiqx/library/ubi_Cache.c:352-411 | an entry leaves the tree; it is accounted for until it is freed |
| Cache.CacheRoot.FreeEntry | src/contrib/ubiqx/library/ubi_Cache.c:132-149 | mem_used is again the sum of the sizes in the tree |
| Cache.CacheRoot.FindLeaf | src/contrib/ubiqx/library/ubi_Cache.c:376-411 | the victim is a leaf, and the root only if it is alone |
| Cache.CacheRoot.Reduce | src/contrib/ubiqx/library/ubi_Cache.c:376-411 | TRUE exactly if there were that many entries; that many fewer then, none otherwise; which ones went, and that their sizes are what mem_used lost |
| Cache.CacheRoot.Trim | src/contrib/ubiqx/library/ubi_Cache.c:151-169 | ends with both limits met, and no sooner than that: the last entry to go would break a limit if it came back; with memory to spare exactly those too many go; one entry too many never costs the newest |
| Cache.CacheRoot.Put | src/contrib/ubiqx/library/ubi_Cache.c:262-311 | mem_used, count and limits right; contents are the latest puts; every entry in the tree or freed once; the last entry to go would break a limit if it came back, exactly those too many go if only entries are limited, and none while there is room |
| Cache.CacheRoot.Get | src/contrib/ubiqx/library/ubi_Cache.c:313-350 | the latest entry put for the key, or null exactly if no key is equal; counters halved at 0x8000 so that hits <= tries < 0x8000 |
| Cache.CacheRoot.Delete | src/contrib/ubiqx/library/ubi_Cache.c:352-374 | exactly the entries with that key are gone; TRUE exactly if there was one |
| Cache.CacheRoot.Clear | src/contrib/ubiqx/library/ubi_Cache.c:240-260 | every entry freed once, children first; empty, nothing accounted |
| Cache.CacheRoot.SetMaxEntries | src/contrib/ubiqx/library/ubi_Cache.c:413-437 | returns the old limit; the new one holds; exactly those too many go |
| Cache.CacheRoot.SetMaxMemory | src/contrib/ubiqx/library/ubi_Cache.c:439-463 | returns the old limit; the new one holds; nothing goes that fits, and the last entry to go did not |
| Cache.CacheRoot.HitRatio | src/contrib/ubiqx/library/ubi_Cache.c:465-503 | the integer part of 10000 hits / tries, between 0 and 10000, and 0 without tries |
| Cache.PostorderMultiset | src/contrib/ubiqx/library/ubi_Cache.c:240-260 | the nodes freed by clearing are the nodes of the tree, each once |
| Modules.PathsCountWalks | src/library/NovaLoader.c:191-201 | Paths is the size of the set of all walks along the lists of requirements |
| Modules.CountedIffDepends | src/library/NovaLoader.c:191-201 | the number of paths is positive exactly if a module depends on the other, by the names it requires and the files behind them |
| Modules.NeedsAre | src/library/NovaLoader.c:446-473 | one module for each name required, in order: the file of that name |
| Modules.NoPathUp | src/library/NovaLoader.c:393-531 | nothing requires itself, or anything ranked above it |
| Modules.ReachedNeeds | src/library/NovaLoader.c:191-201 | what can be reached is reached together with all it requires |
| Modules.Completed | src/library/NovaLoader.c:424-473 | from counters right below a module to counters right with one more reference to it |
| Modules.Expanded | src/library/NovaLoader.c:550-584 | a reference to a module counts below it as references to all it requires |
| Modules.Dropped | src/library/NovaLoader.c:550-584 | the way back |
| Modules.RolledBack | src/library/NovaLoader.c:424-473 | counters and the caches there were determine the rest: after a failed load every record is what it was, caches included |
| Loader.NovaLoader.IncrementAccess | src/library/NovaLoader.c:191-201 | one more path for every module below; the counters stay the number of paths |
| Loader.NovaLoader.LoadRequired | src/library/NovaLoader.c:446-473 | loads what is required in order, up to the first failure: one module for each name, the file of that name; succeeds exactly if all of it can be loaded and a list of 32 is not followed by an option |
| Loader.NovaLoader.AddInterfaces | src/library/NovaLoader.c:475-500 | one interface for each name, in order: the symbol of that name; succeeds exactly if all names have a symbol and a list of 16 is not followed by a requirement |
| Loader.NovaLoader.Finish | src/library/NovaLoader.c:475-520 | the last steps of a load: the interfaces, and a cache filled with all the module offers |
| Loader.NovaLoader.SetUpCache | src/library/NovaLoader.c:505-520 | a new cache, filled with what the module offers, that shares nothing with any other; the others stay as they are |
| Loader.NovaLoader.NovaLoad | src/library/NovaLoader.c:393-531 | at every return of the recursion: it succeeds exactly if the module and all below it can be loaded; then one more reference, and every module it opened has its cache; a failure leaves every record as it was, caches included |
| Loader.NovaLoader.NovaUnload | src/library/NovaLoader.c:534-586 | takes back one reference from everything a module, complete or half loaded, holds; at zero the record is back to its first image, and the cache cleared |
| Loader.NovaLoader.CloseCache | src/library/NovaLoader.c:568-580 | the entries of one cache are freed; all others stay filled |
| Loader.NovaLoader.constructor | src/library/NovaLoader.c:71-98 | before any load every counter is right |
| Loader.NovaLoader.Load | src/library/NovaLoader.c:393-531 | for callers: every counter is the number of paths from the loads outstanding, every open module has a filled cache of its own, and no other cache holds anything, before and after; what was open keeps its cache |
| Loader.NovaLoader.Unload | src/library/NovaLoader.c:534-586 | the same for giving back a load |
| Loader.NovaLoader.InUse | src/library/NovaLoader.c:534-586 | a module is open, complete and with a filled cache, exactly as long as an outstanding load depends on it |
| Loader.NovaLoader.RecordInUse | src/library/NovaLoader.c:446-500 | its record then: for each name required the open module in the file of that name, for each name implemented its symbol of that name |
| Loader.NovaLoader.NothingLeft | src/library/NovaLoader.c:534-586 | when every load is given back, all counters are zero, all records closed, and all caches ever made empty |
| InterfaceCache.NamesAreOrdered | src/library/NovaLoader.c:316-321 | comparing the first 100 characters is a total preorder |
| InterfaceCache.SameIffClipped | src/library/NovaLoader.c:316-321 | names are the same exactly if their first 100 characters are |
| InterfaceCache.DecodeEncode | src/library/NovaLoader.c:316-321 | the numbering of names used for tree keys can be undone |
| InterfaceCache.SearchInterface | src/include/corenova/source-stub.h:39-81 | the recursive search finds the first interface under that name in preorder; what it finds is the symbol some module below has under that name, the own one if it has one, and None exactly if there is none |
| InterfaceCache.LoadedIsReady | src/library/NovaLoader.c:475-531 | a module counted as loaded has complete records, and so has all below it |
| InterfaceCache.CacheOne | src/library/NovaLoader.c:338-350 | one name more in the cache unless it is there already |
| InterfaceCache.FillCache | src/library/NovaLoader.c:333-357 | the cache of a module after all it offers has gone in, in search order: all distinct names if they fit, else as many as fit, and never anything that is not offered |
| InterfaceCache.NewCache | src/library/NovaLoader.c:502-520 | the cache nova_load sets up for a module |
| InterfaceCache.LookupInterface | src/library/NovaLoader.c:359-390 | what a lookup answers; the first in preorder if the names fit, and always something listed under the name |
| InterfaceCache.FindInterface | src/include/corenova/source-stub.h:39-81 | the same answer with and without the cache as long as the distinct names fit; whether they do or not, what is found is the symbol some module below has under the name |
| InterfaceCache.AgreesIffFits | src/library/NovaLoader.c:333-390 | cache and search agree on every name exactly if there are at most 63 distinct names |
| InterfaceCache.NamedBelow | src/include/corenova/source-stub.h:39-81 | every name a required module offers is offered, too |
| InterfaceCache.FoundIffExported | src/include/corenova/source-stub.h:39-81 | something is listed under a name exactly if the module or one it depends on exports it, and the first listed is what one of them exports |
| InterfaceCache.OwnFirst | src/include/corenova/source-stub.h:39-81 | the own symbol for the first of its names that is the same comes first |
| InterfaceCache.RequiredNext | src/include/corenova/source-stub.h:39-81 | then what the first module required has under the name, if it has anything |
| InterfaceCache.CompleteIsReady | src/library/NovaLoader.c:454-520 | when the last step of a load begins, all records below are complete |
| Loader.NovaLoader.Find | src/library/NovaLoader.c:359-390 | a lookup in one cache leaves all others filled; its answer is the symbol of a module below under that name, and that of the search if the names fit |
| Loader.NovaLoader.CacheAgrees | src/library/NovaLoader.c:333-390 | in a loaded module cache and search agree on every name exactly if its distinct names are at most 63 |
| LoaderRuns.Run | src/library/NovaLoader.c:359-584 | any run of loads, unloads and lookups: the loads outstanding and the lookups answered are those they should be, every answer is that of the search if the names fit and a symbol under that name in any case, and at the end every module in memory has a cache that agrees exactly then |
| LoaderRuns.SixtyFiveNames | src/library/NovaLoader.c:454-505 | five loadable modules of thirteen interfaces each, all names different |
| LoaderRuns.SearchAndCacheDiffer | src/library/NovaLoader.c:333-390 | loaded, the first of them has a cache that does not agree with the search |
| LoaderRuns.SixteenRefused | src/library/NovaLoader.c:475-505 | sixteen interfaces are loaded in a module that requires nothing, and refused in one that requires something |
| LoaderRuns.ThirtyTwoRefused | src/library/NovaLoader.c:446-473 | thirty-two requirements are loaded in a module without options, and refused in one with an option |
| Queue.CQueue.constructor | src/modules/corenova/data/queue.c:67-81 | sizes raised to their least values, one chunk of the size cut to 16 bits forming a ring |
| Queue.CQueue.GrowQueue | src/modules/corenova/data/queue.c:16-46 | a new chunk spliced in behind putpos of a full ring; refused exactly at max_chunks |
| Queue.Spliced | src/modules/corenova/data/queue.c:16-46 | two chains closed on each other form one ring |
| Queue.CQueue.ShrinkQueue | src/modules/corenova/data/queue.c:48-63 | only the newest chunk stays, a ring of its own; all others freed, newest first |
| Queue.CQueue.Put | src/modules/corenova/data/queue.c:132-156 | accepted items in order behind the others; refused exactly when disabled or full at max_chunks, with one slot left of all chunks; a chunk is added exactly when full |
| Queue.CQueue.Get | src/modules/corenova/data/queue.c:170-229 | the oldest item or NULL exactly when empty; when it waits |
| Queue.CQueue.GetResume | src/modules/corenova/data/queue.c:180-226 | what a blocked get takes once it is woken |
| Queue.CQueue.Drop | src/modules/corenova/data/queue.c:158-168 | get, counted, and when it waits |
| Queue.CQueue.Disable | src/modules/corenova/data/queue.c:230-234 | nothing changes but that puts are refused |
| Queue.CQueue.Destroy | src/modules/corenova/data/queue.c:83-110 | frees the items left, oldest first |
| Queue.CQueue.PendingFits | src/modules/corenova/data/queue.c:132-156 | pending never reaches 2^32 |
| Queue.Turned | src/modules/corenova/data/queue.c:170-229 | a ring seen from its second item is the same ring |
| Queue.ChunkCut | src/modules/corenova/data/queue.c:17-53 | growing and shrinking stay inside their chunks exactly if chunk_size is below 65536, or there is only one chunk and the cut to 16 bits leaves some of it |
| Queue.ShrinksPastChunk | src/modules/corenova/data/queue.c:17-63 | every other queue that can be created comes to a state in which the next get shrinks at an index its chunk does not have |
| Queue.ShrinksPastChunk70000 | src/modules/corenova/data/queue.c:17-63 | so for chunks of 70000 and two of them |
| Queue.Run | src/modules/corenova/data/queue.c:132-229 | any interleaving of put, get, drop, wake-ups and disabling: contents, chunks, drops, what went in and what came out are those of a plain sequence with a limit; what has come out is the first part of what went in, pending the rest |
| Pipe.DataPipe.constructor | src/modules/corenova/data/pipe.c:36-59 | an empty buffer of one block |
| Pipe.DataPipe.SetMaxSize | src/modules/corenova/data/pipe.c:96-101 | a zero limit is ignored; data stays |
| Pipe.DataPipe.Grow | src/modules/corenova/data/pipe.c:236-246 | one block more, same data |
| Pipe.DataPipe.Read | src/modules/corenova/data/pipe.c:229-290 | what is read goes behind what is pending, in order, as much as there is room for, counting what the buffer may still grow; each result exactly: a failed read is FATAL unless there is no room |
| Pipe.DataPipe.Write | src/modules/corenova/data/pipe.c:292-329 | what is written comes off the front of what is pending, as much as is taken; what each result means |
| Pipe.Outcome | src/modules/corenova/data/pipe.c:366-404 | each outcome of a round from its events: BROKEN or COMPLETE exactly if the output is ready, nothing is pending and nothing comes in, and which of them; TIMEOUT exactly without events; FATAL exactly if the output is gone, a write fails, or a failed read is not covered up by a write |
| Pipe.Combined | src/modules/corenova/data/pipe.c:366-404 | the results of reading and writing, put together as the loop does, come to that outcome |
| Pipe.DataPipe.Turn | src/modules/corenova/data/pipe.c:366-404 | one round of polling, reading and writing: how many bytes come and go, in order, and the outcome, from the events |
| Pipe.FailureUnreported | src/modules/corenova/data/pipe.c:366-404 | a read that fails, and a flush that says COMPLETE |
| Pipe.DataPipe.Flush | src/modules/corenova/data/pipe.c:366-404 | for every environment: bytes written followed by those pending are the bytes read; what waits after each round; the result is the first outcome of a round; BROKEN or COMPLETE only when all is written, with what the last round was like |
| Pipe.DataPipe.CleanBefore | src/modules/corenova/data/pipe.c:406-420 | what lies from upto on is moved to the front; what was read is still what was written and what is pending exactly if upto is pos, or nothing is pending and upto not below the end |
| Pipe.BytesLost | src/modules/corenova/data/pipe.c:406-420 | two bytes read, the first of them lost by cleaning up to the second |
| Md5.RoundOne | src/modules/corenova/data/md5.c:122-138 | the 16 unrolled steps are steps 1 to 16 of RFC 1321, section 3.4 |
| Md5.BitsOfFG | src/modules/corenova/data/md5.c:44-45 | each bit of F is that of y or z as x has it, each bit of G that of x or y as z has it |
| Md5.BitsOfHJ | src/modules/corenova/data/md5.c:46-47 | each bit of H is the parity of the three, each bit of J that of y turned round where x or not z |
| Md5.BitsRotate | src/modules/corenova/data/md5.c:51-51 | each bit moves n places up, and round |
| Md5.SameBits | src/modules/corenova/data/md5.c:44-51 | words with the same bits are the same |
| Md5.RoundTwo | src/modules/corenova/data/md5.c:140-156 | steps 17 to 32 |
| Md5.RoundThree | src/modules/corenova/data/md5.c:158-174 | steps 33 to 48 |
| Md5.RoundFour | src/modules/corenova/data/md5.c:176-192 | steps 49 to 64 |
| Md5.Transform | src/modules/corenova/data/md5.c:113-201 | one block: the tables of section 3.4, added to the state |
| Md5.Encode | src/modules/corenova/data/md5.c:84-97 | words to bytes, least significant first |
| Md5.Decode | src/modules/corenova/data/md5.c:99-110 | bytes to words |
| Md5.DecodedEncoded | src/modules/corenova/data/md5.c:84-110 | decoding undoes encoding |
| Md5.DigestAppend | src/modules/corenova/data/md5.c:232-265 | whole blocks can be digested first and the rest later |
| Md5.CountAdds | src/modules/corenova/data/md5.c:240-244 | the two counter words with their carry are the length in bits modulo 2^64 |
| Md5.GuardSoundIffFits | src/modules/corenova/data/md5.c:254-255 | the loop over blocks stays inside its input exactly if buffered and new bytes are below 2^32 together, or none are buffered |
| Md5.Md5Ctx.constructor | src/modules/corenova/data/md5.c:205-218 | the initial state of section 3.3 |
| Md5.Md5Ctx.Update | src/modules/corenova/data/md5.c:232-265 | state, counter and buffer are those of everything given so far |
| Md5.Md5Ctx.Final | src/modules/corenova/data/md5.c:267-294 | the digest of the padded message, and nothing left of it in the context |
| Md5.PaddedOnce | src/modules/corenova/data/md5.c:276-287 | a message can be padded in one way only |
| Md5.DigestOnce | src/modules/corenova/data/md5.c:267-294 | a message has one digest |
| Md5.GuardFails | src/modules/corenova/data/md5.c:254-255 | 63 bytes buffered and 2^32 - 1 new ones: a block is taken that goes past the end |
| Md5.HashPieces | src/modules/corenova/data/md5.c:232-294 | however a message is cut into pieces that each fit, the digest is that of the whole under sections 3.1 to 3.5 |
| Md5.EmptyDigest | src/modules/corenova/data/md5.c:205-294 | the digest of the empty message is d41d8cd98f00b204e9800998ecf8427e (section A.5) |
| Streams.FromHostHost | src/modules/corenova/data/streams.c:160-339 | a number read from a host's bytes by that host is the number |
| Streams.AdaptedIffOrdersDiffer | src/modules/corenova/data/streams.c:164-170 | turning bytes round is right for all numbers exactly if the hosts are of one kind or of different byte order |
| Streams.SameOrderFails | src/modules/corenova/data/streams.c:164-170 | a number that comes out wrong between hosts of one byte order and different int size |
| Streams.LengthsArriveIff | src/modules/corenova/data/streams.c:108-115 | a length is read back right, whatever the length, exactly if neither host has a big-endian int of eight bytes and they are of one kind or of different byte order |
| Streams.LengthOneFails | src/modules/corenova/data/streams.c:108-115 | in all other cases the length 1 is not |
| Streams.OutputStream.constructor | src/modules/corenova/data/streams.c:359-397 | one empty page |
| Streams.OutputStream.BufWrite | src/modules/corenova/data/streams.c:14-52 | the bytes go behind the others, over as many pages as it takes |
| Streams.OutputStream.Append | src/modules/corenova/data/streams.c:77-129 | a tag with type and platform, then the value in as many bytes as its type has, or a length and the bytes |
| Streams.OutputStream.Serialize | src/modules/corenova/data/streams.c:500-535 | the bytes of all pages in order |
| Streams.InputStream.Fetch | src/modules/corenova/data/streams.c:159-339 | type and bytes as this host holds them, whatever host wrote them; a text if its length arrives |
| Streams.InputStream.FetchText | src/modules/corenova/data/streams.c:272-324 | a length of any host and that many bytes |
| Streams.ReadAll | src/modules/corenova/data/streams.c:159-339 | fetching one value after the other to the end of the data gives them all, in order |
| Streams.ReadTwice | src/modules/corenova/data/streams.c:67-75 | after a reset the same again |
| Streams.EncodingPrefix | src/modules/corenova/data/streams.c:77-129 | where each value lies in a stream |
| Streams.OnTheWire | src/modules/corenova/data/streams.c:77-129 | the bytes on the wire for a number from hosts of either byte order and for a text |
| Streams.WriteAll | src/modules/corenova/data/streams.c:77-129 | a list of values appended and serialized |
| Streams.RoundTrip | src/modules/corenova/data/streams.c:77-339 | any list of values written on one host and fetched on another: same types, numbers below 2^16, 2^32 and 2^64 in as many bytes and of the same value, raw types and texts byte for byte; numbers and texts between hosts between which they arrive, so always for ints of four bytes |
| Negotiation.Fields | src/modules/corenova/net/session.c:136-177 | every string is a list of fields, some perhaps empty, joined by colons |
| Negotiation.StandsIffListed | src/modules/corenova/net/session.c:136-177 | the fields standing between colons in a joined list are the fields of the list |
| Negotiation.FirstFound | src/modules/corenova/net/session.c:136-177 | the first position holding a common name holds the first common name |
| Negotiation.NoneFound | src/modules/corenova/net/session.c:136-177 | no such position, no common name |
| Negotiation.ScanFor | src/modules/corenova/net/session.c:147-179 | one pass over the server's list finds a name exactly if it stands there whole, whatever match was left by the pass before; and from an empty field only a colon with the next field |
| Negotiation.Choose | src/modules/corenova/net/session.c:136-192 | for any two lists: the first of the client's names that the server knows, None exactly if there is none, or else a text with a colon in it; never that if every field after an empty one has been tried before |
| Negotiation.ChoosesWrongly | src/modules/corenova/net/session.c:136-192 | for every list of the client that is not so, a list of the server with which the choice is wrong |
| Wildcard.Equal | src/modules/corenova/data/string.c:210-236 | the loops and recursion end and decide EqualWild |
| Wildcard.Symmetric | src/modules/corenova/data/string.c:210-236 | the comparison is symmetric |
| Wildcard.ExactLanguage | src/modules/corenova/data/string.c:210-236 | for a subject without wildcards: equal exactly if the pattern has no two wildcards in a row and the subject is in its language |
| Wildcard.Common | src/modules/corenova/data/string.c:210-236 | with wildcards on both sides: two patterns that compare equal have a string without wildcards in common |
| Wildcard.OverlapFails | src/modules/corenova/data/string.c:210-236 | not the other way round: a* and *b have ab in common and do not compare equal |
| Wildcard.DoubleFails | src/modules/corenova/data/string.c:210-236 | the pattern ** and the empty string, which is in its language |
| Wildcard.SeekLanguage | src/modules/corenova/data/string.c:212-220 | what follows a wildcard is looked for at every place where it can begin |
| Checksum.TwoFolds | src/modules/corenova/net/neticmp.c:320-322 | two foldings of any int sum leave its 16-bit one's complement sum |
| Checksum.OnesSumAdds | src/modules/corenova/net/neticmp.c:303-308 | which is what adding with end-around carry comes to |
| Checksum.ByteOrder | src/modules/corenova/net/neticmp.c:303-326 | hosts of the other byte order come to the same sum with its bytes swapped |
| Checksum.Example | src/modules/corenova/net/neticmp.c:303-326 | the example of RFC 1071, section 3, in both byte orders |
| Checksum.WordSumStore | src/modules/corenova/net/neticmp.c:303-308 | storing a word changes the sum by the difference |
| Checksum.SumsFitIff | src/modules/corenova/net/neticmp.c:288-326 | the sum of every buffer of a length fits an int exactly up to 65536 bytes, or 65537 in little-endian order |
| Checksum.InCksum | src/modules/corenova/net/neticmp.c:288-326 | the complement of the one's complement sum of the words, in either byte order, odd lengths included, if that sum fits an int |
| Checksum.StoredChecksum | src/modules/corenova/net/neticmp.c:246-257 | the checksum stored in a zero word makes the sum all ones |
| Checksum.ChangeNoticed | src/modules/corenova/net/neticmp.c:288-326 | a changed word goes unnoticed exactly if it differs by a multiple of 65535 |
| Checksum.FillRequest | src/modules/corenova/net/neticmp.c:244-257 | the echo request: its fields, its data untouched, and a sum of all ones |
| Checksum.CheckRequest | src/modules/corenova/net/neticmp.c:226-270 | in_cksum of a request as it was filled in is zero |

## Left out

- BinTree.Insert: keys and values are integer handles seen only through the comparison function; the records around the nodes are not modelled.
- TreeWalk.LeafNode: states that a leaf is found, not that it lies deep.
- BinTree.KillTree: that no link of a freed node is followed is in the proof, not in the contract: FreeNode leaves arbitrary values in the node's fields.
- Cache.CacheRoot.Put: mem_used is a natural number; wrap-around of unsigned long is not modelled.
- Loader.NovaLoader.NovaLoad: access counters are natural numbers; wrap-around of uint32_t is not modelled, nor is waiting for quarks before unloading.
- InterfaceCache.LookupInterface: null names and null interfaces do not occur.
- Md5.Decode: the bitwise or of shifted bytes is written as a sum; the table of sines is taken over as constants.
- Queue.CQueue.Get: waiting is split into the step before and the step after it; signalling, time-outs and the mutex are not modelled, each step being atomic.
- Queue.CQueue.constructor: chunk sizes whose low 16 bits are zero, for which the source writes in front of the first chunk (Queue.ChunkCut).
- Queue.CQueue.ShrinkQueue: chunks of 65536 items and more among several, for which the source reads past the chunk (Queue.ShrinksPastChunk).
- Pipe.DataPipe.Flush: the environment is a finite list of rounds; that a round ever brings progress is not claimed. Interrupted polls that are retried are not modelled.
- Pipe.DataPipe.CleanBefore: markers are not kept over reallocation, so the position is a parameter.
- Streams.OutputStream.Append: floats are raw bytes and are not converted.
- Streams.InputStream.Fetch: the caller must not read past the end of the data, which the source does not look at.
- Negotiation.Choose: what is received ends with a NUL and has none before; sending the choice, and the server's side, are not modelled.
- Checksum.InCksum: sums that overflow an int, whose value C does not define.
- Allocation failure everywhere: memory is always there.
- ubi_btFirstOf and ubi_btLastOf: the first can stop short of the first of a run of equal keys from an arbitrary start, the second has its test the wrong way round.
- fillDataPipe: growing resets the end of the data even when the buffer was not full.
- resetDataPipe, SSL connections, reversing a pipe, writing a region, pipe streams and intercepts.
- hmap.c: its put enters its own lock again when it resizes.
- stree.c: lazy removal and stale nodes keep no clear invariant.
- array.c, list.c, ubi_sLinkList, ubi_dLinkList, ubi_SparseArray, parameters, configuration: simple containers; the page list of a stream is a sequence.
- data/cache.c, transport.c, processor.c, object.c: wrappers around what is modelled, or around code that is not part of this model.
- base64, CRC and the other string functions.
- Dynamic linking, sockets, TLS, packet capture, routing, netfilter, signals, threads, databases, debug output, programs: input/output and foreign calls.
