/** queue.c: a first-in first-out queue over a ring of items that grows and shrinks by chunks. */
module Queue {

  const QUEUE_CHUNK_SIZE := 8
  const QUEUE_MAX_CHUNKS := 255
  const WORD16 := 0x1_0000
  const WORD32 := 0x1_0000_0000

  // What callers put in: an opaque pointer, or NULL.
  type Pointer = int

  const NULL: Pointer := 0

  class Item {
    var node: Pointer
    var next: Item?

    constructor ()
      ensures node == NULL && next == null
    {
      node, next := NULL, null;
    }
  }

  type Chunk = seq<Item>

  ghost function Flat(chunks: seq<Chunk>): seq<Item> {
    if chunks == [] then [] else Flat(chunks[..|chunks| - 1]) + chunks[|chunks| - 1]
  }

  ghost predicate Distinct(s: seq<Item>) {
    forall i, j :: 0 <= i < j < |s| ==> s[i] != s[j]
  }

  // Each item points to the one after it.
  ghost predicate Chained(s: seq<Item>)
    reads s
  {
    forall i :: 0 <= i < |s| - 1 ==> s[i].next == s[i + 1]
  }

  ghost predicate Ring(s: seq<Item>)
    reads s
  {
    s != [] && Distinct(s) && Chained(s) && s[|s| - 1].next == s[0]
  }

  // The first slots of the ring hold the items, the others are empty.
  ghost predicate Slots(ring: seq<Item>, items: seq<Pointer>)
    reads ring
  {
    && |items| < |ring| && NULL !in items
    && (forall i :: 0 <= i < |items| ==> ring[i].node == items[i])
    && (forall i :: |items| <= i < |ring| ==> ring[i].node == NULL)
  }

  lemma Spliced(a: seq<Item>, b: seq<Item>)
    requires a != [] && b != [] && Distinct(a) && Distinct(b) && (forall x <- b :: x !in a)
    requires Chained(a) && Chained(b) && a[|a| - 1].next == b[0] && b[|b| - 1].next == a[0]
    ensures Ring(a + b)
  {
    var s := a + b;
    assert forall i :: 0 <= i < |b| ==> s[|a| + i] == b[i] && b[i] in b;
    assert forall i :: 0 <= i < |a| ==> s[i] == a[i];
  }

  lemma MoreSlots(a: seq<Item>, b: seq<Item>, items: seq<Pointer>)
    requires Slots(a, items) && forall i :: 0 <= i < |b| ==> b[i].node == NULL
    ensures Slots(a + b, items)
  {}

  // The ring consists of the items of the chunks, each once.
  ghost predicate Chunked(chunks: seq<Chunk>, ring: seq<Item>, chunk_size: nat) {
    && |ring| == |chunks| * chunk_size && multiset(ring) == multiset(Flat(chunks))
    && (forall c <- chunks :: |c| == chunk_size) && (chunks != [] ==> Distinct(chunks[|chunks| - 1]))
  }

  lemma FlatAdded(chunks: seq<Chunk>, chunk: Chunk)
    ensures Flat(chunks + [chunk]) == Flat(chunks) + chunk
  {
    var more := chunks + [chunk];
    assert more[..|more| - 1] == chunks;
  }

  lemma OneMore(n: nat, k: nat)
    ensures (n + 1) * k == n * k + k
  {}

  lemma ChunkAdded(chunks: seq<Chunk>, ring: seq<Item>, chunk_size: nat, chunk: Chunk)
    requires Chunked(chunks, ring, chunk_size) && |chunk| == chunk_size && Distinct(chunk)
    ensures Chunked(chunks + [chunk], ring + chunk, chunk_size)
  {
    hide Flat, Distinct;
    FlatAdded(chunks, chunk);
    OneMore(|chunks|, chunk_size);
    assert multiset(ring + chunk) == multiset(ring) + multiset(chunk);
    assert multiset(Flat(chunks) + chunk) == multiset(Flat(chunks)) + multiset(chunk);
  }

  lemma Turned(s: seq<Item>)
    requires Ring(s)
    ensures Ring(s[1..] + [s[0]]) && multiset(s[1..] + [s[0]]) == multiset(s)
  {
    var t := s[1..] + [s[0]];
    assert forall i :: 0 <= i < |s| - 1 ==> t[i] == s[i + 1];
    assert s == [s[0]] + s[1..];
  }

  lemma ChunkedAgain(chunks: seq<Chunk>, ring: seq<Item>, ring': seq<Item>, chunk_size: nat)
    requires Chunked(chunks, ring, chunk_size) && multiset(ring') == multiset(ring) && |ring'| == |ring|
    ensures Chunked(chunks, ring', chunk_size)
  {}

  lemma Times(a: nat, b: nat, c: nat, d: nat)
    requires a <= b && c <= d
    ensures a * c <= b * d
  {
    assert a * c <= b * c <= b * d;
  }

  // The number of items allocated for a chunk: the configured size cut to 16 bits.
  function Cut(chunk_size: nat): nat {
    chunk_size % WORD16
  }

  // Where growing and shrinking look for the last item of a chunk.
  function LastGrown(chunk_size: nat): int {
    Cut(chunk_size) - 1
  }

  function LastKept(chunk_size: nat): int {
    chunk_size - 1
  }

  // Growing looks into every chunk; shrinking, into the newest of several.
  ghost predicate InsideChunks(chunk_size: nat, max_chunks: nat) {
    && 0 <= LastGrown(chunk_size) < Cut(chunk_size)
    && (max_chunks > 1 ==> 0 <= LastKept(chunk_size) < Cut(chunk_size))
  }

  predicate Fits(chunk_size: nat, max_chunks: nat) {
    chunk_size < WORD16 || (max_chunks == 1 && chunk_size % WORD16 != 0)
  }

  // The code stays inside its chunks exactly if the size survives the cut, or there is only one
  // chunk and the cut leaves some of it.
  lemma ChunkCut(chunk_size: nat, max_chunks: nat)
    requires chunk_size >= QUEUE_CHUNK_SIZE && max_chunks >= 1
    ensures InsideChunks(chunk_size, max_chunks) <==> Fits(chunk_size, max_chunks)
  {
    if chunk_size >= WORD16 {
      assert Cut(chunk_size) < WORD16;
    }
  }

  // calloc for one chunk, each item pointing to the next.
  method NewChunk(growby: nat) returns (chunk: Chunk)
    requires growby > 0
    ensures |chunk| == growby && Distinct(chunk) && Chained(chunk) && fresh(chunk)
    ensures forall i :: 0 <= i < growby ==> chunk[i].node == NULL
  {
    chunk := [];
    while |chunk| < growby
      invariant |chunk| <= growby && Distinct(chunk) && fresh(chunk)
      invariant forall i :: 0 <= i < |chunk| ==> chunk[i].node == NULL
    {
      var x := new Item();
      chunk := chunk + [x];
    }
    var k := growby - 1;
    while k > 0
      invariant 0 <= k < growby && forall i :: k <= i < growby - 1 ==> chunk[i].next == chunk[i + 1]
      invariant forall i :: 0 <= i < growby ==> chunk[i].node == NULL
    {
      chunk[k - 1].next := chunk[k];
      k := k - 1;
    }
  }

  class CQueue {
    const chunk_size: nat
    const max_chunks: nat
    var disabled: bool
    var blocking: bool
    var timeout: nat
    var num_chunks: nat
    var chunks: seq<Chunk>
    var putpos: Item?
    var getpos: Item?
    var pending: nat
    var drops: nat
    // All items of all chunks in link order, from getpos on, and what is in the queue.
    ghost var ring: seq<Item>
    ghost var items: seq<Pointer>
    // Everything ever accepted, and everything ever handed out.
    ghost var accepted: seq<Pointer>
    ghost var delivered: seq<Pointer>

    // The limits and counters.
    ghost predicate Sane()
      reads this
    {
      var sane :=
        && 0 < Cut(chunk_size) && QUEUE_CHUNK_SIZE <= chunk_size < WORD32 &&
            1 <= num_chunks <= max_chunks <= QUEUE_MAX_CHUNKS
        && pending == |items| && drops < WORD32 && accepted == delivered + items;
      sane
    }

    ghost predicate Bounds()
      reads this
    {
      Sane() && num_chunks == |chunks| && Chunked(chunks, ring, Cut(chunk_size))
    }

    // What the links and nodes in memory say.
    ghost predicate Rolling()
      reads this, ring
    {
      var rolling := Ring(ring) && Slots(ring, items) && getpos == ring[0] && putpos == ring[|items|];
      rolling
    }

    ghost function Newest(): Chunk
      reads this
    {
      if chunks == [] then [] else chunks[|chunks| - 1]
    }

    ghost predicate Valid()
      reads this, ring, Newest()
    {
      Bounds() && Rolling() && Chained(Newest())
    }

    // The first chunk, whose items form a ring of their own.  Where the cut leaves nothing, the
    // source writes in front of the chunk.
    constructor (size: nat, max: nat)
      requires size < WORD32 && (size == 0 || Cut(size) > 0) && max <= QUEUE_MAX_CHUNKS
      ensures Valid() && items == accepted == delivered == [] && num_chunks == 1 && !disabled && !blocking &&
          timeout == 0 && drops == 0
      ensures chunk_size == (if size > 8 then size else 8)
      ensures max_chunks == (if max > 0 then max else 1)
      ensures fresh(ring)
    {
      hide Chunked, Flat, Ring, Chained, Distinct, Slots;
      disabled, blocking, timeout, pending, drops := false, false, 0, 0, 0;
      chunk_size := if size > QUEUE_CHUNK_SIZE then size else QUEUE_CHUNK_SIZE;
      max_chunks := if max > 0 then max else 1;
      num_chunks, chunks, putpos, getpos := 1, [], null, null;
      ring, items, accepted, delivered := [], [], [], [];
      new;
      FirstGrow();
    }

    // _growQueue of a queue without chunks.
    method FirstGrow()
      requires Sane() && num_chunks == 1 && items == []
      modifies this`chunks, this`ring, this`putpos, this`getpos
      ensures Valid() && fresh(ring)
    {
      hide Chunked, Flat, Ring, Chained, Distinct, Slots;
      var chunk := NewChunk(Cut(chunk_size));
      FirstChunk(chunk, Cut(chunk_size));
      CloseRing(chunk, chunk[|chunk| - 1]);
      Collapse(chunk);
    }

    static lemma FirstChunk(chunk: Chunk, size: nat)
      requires |chunk| == size && Distinct(chunk) && size > 0
      requires forall i :: 0 <= i < |chunk| ==> chunk[i].node == NULL
      ensures Chunked([chunk], chunk, size) && Slots(chunk, [])
    {
      ChunkAdded([], [], size, chunk);
      assert [] + [chunk] == [chunk] && [] + chunk == chunk;
    }

    lemma PendingFits()
      requires Valid()
      ensures pending < num_chunks * Cut(chunk_size) && pending < WORD32
    {
      Times(num_chunks, QUEUE_MAX_CHUNKS, Cut(chunk_size), WORD16);
    }

    // The two links that join a new chunk to the ring.
    method Link(chunk: Chunk, last: Item)
      requires ring != [] && Ring(ring) && putpos == ring[|ring| - 1] && Slots(ring, items)
      requires chunk != [] && last == chunk[|chunk| - 1] && Distinct(chunk) && Chained(chunk) &&
          forall x <- chunk :: x !in ring && x.node == NULL
      modifies putpos`next, last`next
      ensures Chained(ring) && Chained(chunk) && ring[|ring| - 1].next == chunk[0] && chunk[|chunk| - 1].next == ring[0]
      ensures Slots(ring, items) && forall i :: 0 <= i < |chunk| ==> chunk[i].node == NULL
    {
      assert putpos in ring;
      last.next := putpos.next;
      putpos.next := chunk[0];
    }

    lemma RollingParts()
      requires Rolling()
      ensures ring != [] && Distinct(ring) && Chained(ring)
      ensures |items| < |ring|
    {}

    // Splices a new chunk in behind putpos of a full ring.
    method GrowQueue() returns (ok: bool)
      requires Valid() && |items| == |ring| - 1
      modifies this`num_chunks, this`chunks, this`ring, putpos
      ensures Valid() && items == old(items) && putpos == old(putpos) && getpos == old(getpos)
      ensures ok <==> old(num_chunks) != max_chunks
      ensures ok ==> |items| < |ring| - 1
      ensures if ok then num_chunks == old(num_chunks) + 1 && chunks == old(chunks) + [Newest()] &&
          ring == old(ring) + Newest()
              else num_chunks == old(num_chunks) && ring == old(ring) && chunks == old(chunks)
      ensures forall x <- ring :: x in old(ring) || fresh(x)
    {
      hide Chunked, Ring, Slots, Distinct, Chained;
      RollingParts();
      if num_chunks != max_chunks {
        var growby := Cut(chunk_size);
        var chunk := NewChunk(growby);
        assert forall x <- chunk :: x !in ring;
        Link(chunk, chunk[LastGrown(chunk_size)]);
        Spliced(ring, chunk);
        MoreSlots(ring, chunk, items);
        ChunkAdded(chunks, ring, growby, chunk);
        chunks := chunks + [chunk];
        num_chunks := num_chunks + 1;
        ring := ring + chunk;
        assert Newest() == chunk && Rolling() && Bounds();
        return true;
      }
      return false;
    }
  
    // A queue that has become empty keeps only its newest chunk.  Returns the chunks freed.
    method ShrinkQueue() returns (freed: seq<Chunk>)
      requires Valid() && items == [] && (num_chunks > 1 ==> chunk_size < WORD16)
      modifies this`num_chunks, this`chunks, this`ring, this`putpos, this`getpos, ring`next
      ensures Valid() && items == [] && num_chunks == 1 && chunks == [old(Newest())]
      ensures |freed| == old(num_chunks) - 1 &&
          forall i :: 0 <= i < |freed| ==> freed[i] == old(chunks)[|freed| - 1 - i]
      ensures forall x <- ring :: x in old(ring)
    {
      hide Chunked, Ring, Slots, Distinct, Chained, Flat;
      freed := [];
      if num_chunks > 1 {
        var save := chunks[num_chunks - 1];
        NewestAlone();
        var ptr := save[LastKept(chunk_size)];
        assert ptr in save;
        CloseRing(save, ptr);
        freed := FreeOthers();
        Collapse(save);
      } else {
        assert chunks == [Newest()];
      }
    }

    method Collapse(save: Chunk)
      requires Sane() && num_chunks == 1 && items == []
      requires Ring(save) && Slots(save, []) && Chunked([save], save, Cut(chunk_size))
      modifies this`chunks, this`ring, this`putpos, this`getpos
      ensures Valid() && chunks == [save] && ring == save
    {
      chunks := [save];
      putpos := save[0];
      getpos := save[0];
      ring := save;
    }

    // Frees all chunks but the newest, newest first.
    method FreeOthers() returns (freed: seq<Chunk>)
      requires num_chunks == |chunks| > 1
      modifies this`num_chunks
      ensures |freed| == old(num_chunks) - 1 && forall i :: 0 <= i < |freed| ==> freed[i] == chunks[|freed| - 1 - i]
      ensures num_chunks == 1
    {
      freed := [];
      num_chunks := num_chunks - 1;
      while num_chunks > 0
        invariant num_chunks < |chunks| && |freed| == |chunks| - 1 - num_chunks
        invariant forall i :: 0 <= i < |freed| ==> freed[i] == chunks[|chunks| - 2 - i]
      {
        freed := freed + [chunks[num_chunks - 1]];
        num_chunks := num_chunks - 1;
      }
      num_chunks := 1;
    }

    // Circles a chunk to itself.
    method CloseRing(save: Chunk, ptr: Item)
      requires save != [] && ptr == save[|save| - 1] && Distinct(save) && Chained(save) && Slots(save, [])
      modifies ptr`next
      ensures Ring(save) && Slots(save, [])
    {
      ptr.next := save[0];
    }

    lemma NewestSize()
      requires Bounds()
      ensures |Newest()| == Cut(chunk_size)
    {
      assert Newest() in chunks;
    }

    lemma NewestAlone()
      requires Valid() && items == []
      ensures |Newest()| == Cut(chunk_size) && Distinct(Newest()) && Slots(Newest(), [])
      ensures Chunked([Newest()], Newest(), Cut(chunk_size))
      ensures forall x <- Newest() :: x in ring
    {
      var save := Newest();
      assert Flat(chunks) == Flat(chunks[..|chunks| - 1]) + save;
      forall x | x in save
        ensures x in ring && x.node == NULL
      {
        assert x in Flat(chunks);
        assert x in multiset(ring);
        assert x in ring;
      }
      FlatAdded([], save);
      assert [] + [save] == [save] && Flat([]) + save == save;
    }

    method Put(in_: Pointer) returns (ok: bool)
      requires Valid()
      modifies this`num_chunks, this`chunks, this`ring, this`putpos, this`pending, this`items, this`accepted, ring
      ensures Valid()
      ensures items == (if ok && in_ != NULL then old(items) + [in_] else old(items))
      ensures accepted == (if ok && in_ != NULL then old(accepted) + [in_] else old(accepted))
      // Refused exactly when disabled, or full with no chunk left to add.
      ensures ok <==> !disabled && (in_ == NULL || !(old(num_chunks) == max_chunks && old(Full())))
      ensures num_chunks == old(num_chunks) + if ok && in_ != NULL && old(Full()) then 1 else 0
      ensures num_chunks == old(num_chunks) ==> ring == old(ring)
      ensures forall x <- ring :: x in old(ring) || fresh(x)
    {
      hide Chunked, Ring, Slots, Distinct, Chained, Flat;
      if !disabled {
        if in_ == NULL {
          return true;
        }
        FullTest();
        RingSize();
        EmptyTest();
        if putpos.next == getpos {
          var grown := GrowQueue();
          if !grown {
            return false;
          }
        }
        Store(in_);
        return true;
      }
      return false;
    }

    lemma FullTest()
      requires Valid()
      ensures putpos != null && putpos in ring && (putpos.next == getpos <==> |items| == |ring| - 1)
    {
      var k := |items|;
      if k < |ring| - 1 {
        assert ring[k].next == ring[k + 1];
      }
    }

    // All slots but one are taken.
    ghost predicate Full()
      reads this
    {
      |items| == num_chunks * Cut(chunk_size) - 1
    }

    lemma FullIff()
      requires Valid()
      ensures Full() <==> |items| >= num_chunks * Cut(chunk_size) - 1
      ensures num_chunks <= max_chunks && NULL !in items && getpos in ring
    {
      EmptyTest();
      RingSize();
    }

    lemma RingSize()
      requires Bounds()
      ensures |ring| == num_chunks * Cut(chunk_size)
    {}

    // Writes at putpos, of a ring that is not full.
    method Store(in_: Pointer)
      requires Valid() && in_ != NULL && |items| < |ring| - 1
      modifies this`putpos, this`pending, this`items, this`accepted, putpos`node
      ensures Valid() && items == old(items) + [in_] && accepted == old(accepted) + [in_]
      ensures ring == old(ring)
    {
      hide Chunked, Flat;
      putpos.node := in_;
      putpos := putpos.next;
      pending := pending + 1;
      items := items + [in_];
      accepted := accepted + [in_];
    }

    // Reads at getpos: the first half of Get, and all of what follows a wait.
    method Take() returns (data: Pointer)
      requires Valid()
      modifies this`getpos, this`pending, this`items, this`delivered, this`ring, getpos`node
      ensures Valid() && data == (if old(items) == [] then NULL else old(items)[0])
      ensures if old(items) == [] then items == [] && delivered == old(delivered) && ring == old(ring)
              else items == old(items)[1..] && delivered == old(delivered) + [data]
      ensures forall x <- ring :: x in old(ring)
    {
      hide Chunked, Flat, Ring, Slots, Distinct, Chained;
      EmptyTest();
      data := NULL;
      if getpos.node != NULL {
        data := getpos.node;
        ChunkedAgain(chunks, ring, ring[1..] + [ring[0]], Cut(chunk_size));
        ClearFirst();
        Advance(ring[1..] + [ring[0]]);
      }
    }

    // getpos moves on to the next slot, from where next is the ring.
    method Advance(ghost next: seq<Item>)
      requires Bounds() && Chained(Newest()) && items != [] && Chunked(chunks, next, Cut(chunk_size))
      requires Ring(next) && Slots(next, items[1..]) && getpos != null && getpos.next == next[0] &&
          putpos == next[|items| - 1]
      modifies this`getpos, this`pending, this`items, this`delivered, this`ring
      ensures Valid() && ring == next && items == old(items)[1..] && delivered == old(delivered) + [old(items)[0]]
    {
      hide Chunked, Distinct, Chained, Flat;
      getpos := getpos.next;
      pending := pending - 1;
      delivered := delivered + [items[0]];
      items := items[1..];
      ring := next;
    }

    // Empties the first slot; what follows it is the ring of the remaining items.
    method ClearFirst()
      requires Rolling() && Chained(Newest()) && items != []
      modifies getpos`node
      ensures Ring(ring[1..] + [ring[0]]) && Slots(ring[1..] + [ring[0]], items[1..]) && Chained(Newest())
      ensures getpos.next == (ring[1..] + [ring[0]])[0] && putpos == (ring[1..] + [ring[0]])[|items| - 1]
    {
      getpos.node := NULL;
      Turned(ring);
    }

    // Get up to the point where it may wait for a put; other threads run while it waits.
    method Get() returns (data: Pointer, waits: bool)
      requires Valid() && (items == [] && num_chunks > 1 ==> chunk_size < WORD16)
      modifies this`num_chunks, this`chunks, this`ring, this`putpos, this`getpos, this`pending, this`items,
          this`delivered
      modifies ring
      ensures Valid() && data == (if old(items) == [] then NULL else old(items)[0])
      ensures items == (if old(items) == [] then [] else old(items)[1..])
      ensures delivered == (if data == NULL then old(delivered) else old(delivered) + [data])
      ensures waits <==> old(items) == [] && !disabled && (blocking || timeout > 0)
      ensures num_chunks == if old(items) == [] then 1 else old(num_chunks)
      ensures forall x <- ring :: x in old(ring)
    {
      hide Chunked, Ring, Slots, Distinct, Chained, Flat;
      EmptyTest();
      NewestInRing();
      if putpos == getpos {
        var freed := ShrinkQueue();
      }
      EmptyTest();
      data := Take();
      waits := data == NULL && !disabled && (blocking || timeout > 0);
    }

    lemma EmptyTest()
      requires Valid()
      ensures putpos == getpos <==> items == []
      ensures NULL !in items && ring != [] && getpos in ring && |items| < |ring|
      ensures getpos.node == if items == [] then NULL else items[0]
      ensures multiset(ring[1..] + [ring[0]]) == multiset(ring)
    {
      Turned(ring);
    }

    lemma NewestInRing()
      requires Valid()
      ensures forall x <- Newest() :: x in ring
    {
      assert Flat(chunks) == Flat(chunks[..|chunks| - 1]) + Newest();
      forall x | x in Newest()
        ensures x in ring
      {
        assert x in Flat(chunks);
        assert x in multiset(ring);
      }
    }

    // What Get does once its wait is over; signalled is whether the wait succeeded.
    method GetResume(signalled: bool) returns (data: Pointer)
      requires Valid()
      modifies this`getpos, this`pending, this`items, this`delivered, this`ring, getpos`node
      ensures forall x <- ring :: x in old(ring)
      ensures Valid() && data == (if !signalled || old(items) == [] then NULL else old(items)[0])
      ensures items == (if data == NULL then old(items) else old(items)[1..])
      ensures delivered == (if data == NULL then old(delivered) else old(delivered) + [data])
    {
      data := NULL;
      if signalled {
        EmptyTest();
        data := Take();
      }
    }

    // Drop is Get with a count of what it discarded.
    method Drop() returns (data: Pointer, waits: bool)
      requires Valid() && (items == [] && num_chunks > 1 ==> chunk_size < WORD16)
      modifies this`num_chunks, this`chunks, this`ring, this`putpos, this`getpos, this`pending, this`items,
          this`delivered
      modifies this`drops, ring
      ensures Valid() && data == (if old(items) == [] then NULL else old(items)[0])
      ensures items == (if old(items) == [] then [] else old(items)[1..])
      ensures delivered == (if data == NULL then old(delivered) else old(delivered) + [data])
      ensures waits <==> old(items) == [] && !disabled && (blocking || timeout > 0)
      ensures num_chunks == if old(items) == [] then 1 else old(num_chunks)
      ensures forall x <- ring :: x in old(ring)
      ensures drops == (if data == NULL then old(drops) else (old(drops) + 1) % WORD32)
    {
      hide Chunked, Ring, Slots, Distinct, Chained, Flat;
      data, waits := Get();
      if data != NULL {
        drops := (drops + 1) % WORD32;
      }
    }

    method Disable()
      requires Valid()
      modifies this`disabled
      ensures Valid() && disabled && items == old(items) && ring == old(ring)
    {
      hide Chunked, Flat, Ring, Chained, Distinct, Slots;
      disabled := true;
    }

    // Empties the queue, oldest item first, and gives up its chunks.
    method Destroy() returns (flushed: seq<Pointer>)
      requires Valid()
      modifies this`getpos, this`num_chunks
      ensures flushed == old(items) && num_chunks == 0
    {
      flushed := [];
      while getpos != putpos
        invariant |flushed| <= |items| && flushed == items[..|flushed|] && getpos == ring[|flushed|]
        invariant putpos == ring[|items|] && Ring(ring) && Slots(ring, items)
        decreases |items| - |flushed|
      {
        flushed := flushed + [getpos.node];
        getpos := getpos.next;
      }
      while num_chunks > 0 {
        num_chunks := num_chunks - 1;
      }
    }
  }

  datatype Step = DoPut(in_: Pointer) | DoGet | DoDrop | DoResume(signalled: bool) | DoDisable

  // What can be seen of a queue from outside: what is in it, how much room it has taken, and how
  // many items have been dropped.
  datatype View = View(items: seq<Pointer>, num_chunks: nat, disabled: bool, drops: nat)

  ghost function Seen(q: CQueue): View
    reads q
  {
    View(q.items, q.num_chunks, q.disabled, q.drops)
  }

  // What a step does to it, what goes in and what comes out.
  ghost function Stepped(chunk: nat, max_chunks: nat, v: View, step: Step): (View, Pointer, Pointer) {
    match step
    case DoPut(p) =>
      if v.disabled || p == NULL then (v, NULL, NULL)
      else if |v.items| < v.num_chunks * chunk - 1 then (v.(items := v.items + [p]), p, NULL)
      else if v.num_chunks == max_chunks then (v, NULL, NULL)
      else (v.(items := v.items + [p], num_chunks := v.num_chunks + 1), p, NULL)
    case DoGet => Taken(v)
    case DoDrop =>
      var f := Taken(v);
      (f.0.(drops := if f.2 == NULL then v.drops else (v.drops + 1) % WORD32), NULL, f.2)
    case DoResume(signalled) =>
      if !signalled || v.items == [] then (v, NULL, NULL) else (v.(items := v.items[1..]), NULL, v.items[0])
    case DoDisable => (v.(disabled := true), NULL, NULL)
  }

  ghost function Taken(v: View): (View, Pointer, Pointer) {
    if v.items == [] then (v.(num_chunks := 1), NULL, NULL) else (v.(items := v.items[1..]), NULL, v.items[0])
  }

  function Some(p: Pointer): seq<Pointer> {
    if p == NULL then [] else [p]
  }

  // The same for any number of steps.
  ghost function AfterAll(chunk: nat, max_chunks: nat, v: View, steps: seq<Step>): (View, seq<Pointer>, seq<Pointer>) {
    if steps == [] then (v, [], []) else
      var f := AfterAll(chunk, max_chunks, v, steps[..|steps| - 1]);
      var g := Stepped(chunk, max_chunks, f.0, steps[|steps| - 1]);
      (g.0, f.1 + Some(g.1), f.2 + Some(g.2))
  }

  method Act(q: CQueue, step: Step) returns (in_: Pointer, out: Pointer)
    requires q.Valid() && Fits(q.chunk_size, q.max_chunks)
    modifies q, q.ring
    ensures q.Valid() && forall x <- q.ring :: x in old(q.ring) || fresh(x)
    ensures q.accepted == old(q.accepted) + Some(in_) && q.delivered == old(q.delivered) + Some(out)
    ensures (Seen(q), in_, out) == Stepped(Cut(q.chunk_size), q.max_chunks, old(Seen(q)), step)
  {
    hide Chunked, Flat, Ring, Chained, Distinct, Slots, CQueue.Valid, Cut;
    q.FullIff();
    in_, out := NULL, NULL;
    var waits := false;
    match step {
      case DoPut(p) =>
        in_ := ActPut(q, p);
      case DoGet =>
        out, waits := q.Get();
      case DoDrop =>
        out, waits := q.Drop();
      case DoResume(signalled) =>
        out := q.GetResume(signalled);
      case DoDisable =>
        q.Disable();
    }
  }

  method ActPut(q: CQueue, p: Pointer) returns (in_: Pointer)
    requires q.Valid() && Fits(q.chunk_size, q.max_chunks)
    modifies q, q.ring
    ensures q.Valid() && forall x <- q.ring :: x in old(q.ring) || fresh(x)
    ensures q.accepted == old(q.accepted) + Some(in_) && q.delivered == old(q.delivered)
    ensures (Seen(q), in_, NULL) == Stepped(Cut(q.chunk_size), q.max_chunks, old(Seen(q)), DoPut(p))
  {
    hide Chunked, Flat, Ring, Chained, Distinct, Slots, CQueue.Valid, CQueue.Full, Cut;
    q.FullIff();
    var ok := q.Put(p);
    in_ := if ok then p else NULL;
  }

  // Any interleaving of the threads' atomic steps: what has come out is, in order, the
  // first part of what was accepted, and pending counts the rest.
  method Run(q: CQueue, steps: seq<Step>) returns (ins: seq<Pointer>, outs: seq<Pointer>)
    requires q.Valid() && Fits(q.chunk_size, q.max_chunks) && q.accepted == []
    modifies q, q.ring
    ensures q.Valid() && outs <= ins && q.pending == |ins| - |outs|
    ensures ins == q.accepted && outs == q.delivered
    ensures (Seen(q), ins, outs) == AfterAll(Cut(q.chunk_size), q.max_chunks, old(Seen(q)), steps)
  {
    hide Chunked, Flat, Ring, Slots, Chained, Stepped, Seen;
    ins, outs := [], [];
    assert steps[..0] == [];
    for i := 0 to |steps|
      invariant q.Valid() && ins == q.accepted && outs == q.delivered
      invariant forall k :: 0 <= k < |q.ring| ==> q.ring[k] in old(q.ring) || fresh(q.ring[k])
      invariant (Seen(q), ins, outs) == AfterAll(Cut(q.chunk_size), q.max_chunks, old(Seen(q)), steps[..i])
    {
      assert steps[..i + 1][..i] == steps[..i];
      ghost var before := q.ring;
      var in_, out := Act(q, steps[i]);
      forall k | 0 <= k < |q.ring|
        ensures q.ring[k] in old(q.ring) || fresh(q.ring[k])
      {
        var x := q.ring[k];
        assert x in q.ring;
        if x in before {
          var j :| 0 <= j < |before| && before[j] == x;
        }
      }
      ins := if in_ == NULL then ins else ins + [in_];
      outs := if out == NULL then outs else outs + [out];
    }
    assert steps[..|steps|] == steps;
    InOut(ins, outs, q.items);
  }

  // Every other queue that can be created at all looks past a chunk: fill its first chunk, which
  // makes it grow, and empty it again; the next get shrinks, at an index its chunk does not have.
  method ShrinksPastChunk(size: nat, max: nat) returns (q: CQueue)
    requires QUEUE_CHUNK_SIZE <= size < WORD32 && 1 <= max <= QUEUE_MAX_CHUNKS
    requires !Fits(size, max) && Cut(size) > 0
    ensures q.Valid() && q.chunk_size == size && q.max_chunks == max
    ensures q.items == [] && q.num_chunks == 2 && |q.Newest()| <= LastKept(q.chunk_size)
  {
    hide Chunked, Flat, Ring, Slots, Chained, Distinct;
    q := new CQueue(size, max);
    Fill(q);
    assert fresh(q.ring);
    Drain(q);
  }

  // One item more than the first chunk has room for.
  method Fill(q: CQueue)
    requires q.Valid() && q.items == [] && q.num_chunks == 1 < q.max_chunks && !q.disabled
    modifies q, q.ring
    ensures q.Valid() && |q.items| == Cut(q.chunk_size) && q.num_chunks == 2
    ensures forall k :: 0 <= k < |q.ring| ==> q.ring[k] in old(q.ring) || fresh(q.ring[k])
  {
    hide Chunked, Flat, Ring, Slots, Chained, Distinct;
    var n, ok := Cut(q.chunk_size), true;
    for i := 0 to n - 1
      invariant q.Valid() && !q.disabled && q.ring == old(q.ring) && |q.items| == i && q.num_chunks == 1
    {
      ok := q.Put(1);
    }
    ok := q.Put(1);
  }

  method Drain(q: CQueue)
    requires q.Valid() && |q.items| == Cut(q.chunk_size) && q.num_chunks == 2
    modifies q, q.ring
    ensures q.Valid() && q.items == [] && q.num_chunks == 2 && |q.Newest()| == Cut(q.chunk_size)
  {
    hide Chunked, Flat, Ring, Slots, Chained, Distinct;
    var n := Cut(q.chunk_size);
    for i := 0 to n
      invariant q.Valid() && |q.items| == n - i && q.num_chunks == 2
      invariant forall k :: 0 <= k < |q.ring| ==> q.ring[k] in old(q.ring)
    {
      ghost var before := q.ring;
      var data, waits := q.Get();
      StillIn(old(q.ring), before, q.ring);
    }
    q.NewestSize();
  }

  lemma StillIn(a: seq<Item>, b: seq<Item>, c: seq<Item>)
    requires (forall k :: 0 <= k < |b| ==> b[k] in a) && forall x <- c :: x in b
    ensures forall k :: 0 <= k < |c| ==> c[k] in a
  {
    forall k | 0 <= k < |c|
      ensures c[k] in a
    {
      assert c[k] in c;
    }
  }

  method ShrinksPastChunk70000() returns (q: CQueue)
    ensures q.chunk_size == 70000 && q.Valid() && q.items == [] && q.num_chunks == 2
    ensures |q.Newest()| <= LastKept(q.chunk_size)
  {
    q := ShrinksPastChunk(70000, 2);
  }

  lemma InOut(ins: seq<Pointer>, outs: seq<Pointer>, items: seq<Pointer>)
    requires ins == outs + items
    ensures outs <= ins && |items| == |ins| - |outs|
  {}
}
