/** streams.c: typed values serialized over pages, and read back on a host of either byte order. */
module Streams {

  type byte = b: int | 0 <= b < 0x100

  const STREAM_PAGE_SIZE := 4096
  // Sizes are kept in 32 bits and read back as a signed int when serializing.
  const MAX_SIZE := 0x8000_0000

  const INT8 := 1
  const INT16 := 2
  const INT32 := 3
  const INT64 := 4
  const FLOAT8 := 5
  const FLOAT16 := 6
  const FLOAT32 := 7
  const FLOAT64 := 8
  const STRING := 9
  const BINARY_STRING := 10
  const INT16N := 11
  const INT32N := 12
  const INT64N := 13

  // Byte order and size of an int.
  datatype Platform = L32 | B32 | L64 | B64

  function Code(p: Platform): (c: int)
    ensures 1 <= c <= 4
  {
    match p case L32 => 1 case B32 => 2 case L64 => 3 case B64 => 4
  }

  function PlatformOf(c: int): (p: Platform)
    ensures 1 <= c <= 4 ==> Code(p) == c
  {
    if c == 1 then L32 else if c == 2 then B32 else if c == 3 then L64 else B64
  }

  function Big(p: Platform): bool {
    p == B32 || p == B64
  }

  // sizeof (int)
  function IntSize(p: Platform): nat {
    if p == L32 || p == B32 then 4 else 8
  }

  // ---------- how a host holds a number ----------

  function Pow256(k: nat): (p: nat)
    ensures p > 0
  {
    if k == 0 then 1 else 0x100 * Pow256(k - 1)
  }

  function Little(v: nat, k: nat): (bs: seq<byte>)
    ensures |bs| == k
  {
    if k == 0 then [] else [v % 0x100] + Little(v / 0x100, k - 1)
  }

  function Value(bs: seq<byte>): nat {
    if bs == [] then 0 else bs[0] + 0x100 * Value(bs[1..])
  }

  function Reverse(bs: seq<byte>): (r: seq<byte>)
    ensures |r| == |bs| && forall i :: 0 <= i < |bs| ==> r[i] == bs[|bs| - 1 - i]
  {
    if bs == [] then [] else Reverse(bs[1..]) + [bs[0]]
  }

  // The k bytes of v in the memory of a host.
  function Host(v: nat, k: nat, p: Platform): (bs: seq<byte>)
    ensures |bs| == k
  {
    if Big(p) then Reverse(Little(v, k)) else Little(v, k)
  }

  function FromHost(bs: seq<byte>, p: Platform): nat {
    if Big(p) then Value(Reverse(bs)) else Value(bs)
  }

  lemma {:induction false} ValueLittle(v: nat, k: nat)
    requires v < Pow256(k)
    ensures Value(Little(v, k)) == v
  {
    if k > 0 {
      ValueLittle(v / 0x100, k - 1);
      assert Little(v, k)[1..] == Little(v / 0x100, k - 1);
    }
  }

  lemma FromHostHost(v: nat, k: nat, p: Platform)
    requires v < Pow256(k)
    ensures FromHost(Host(v, k, p), p) == v
  {
    ValueLittle(v, k);
    TwiceRound(Little(v, k));
  }

  // ---------- changing byte order ----------

  // The swapping macros are several statements, and `if` guards only the first of them: with
  // the guard false the bytes are turned round all the same, but for the last, which becomes 0.
  function Swapped(x: seq<byte>, guard: bool): (y: seq<byte>)
    requires |x| in {2, 4, 8}
    ensures |y| == |x|
  {
    var tmp: byte := if guard then x[0] else 0;
    seq(|x|, i requires 0 <= i < |x| => if i < |x| - 1 then x[|x| - 1 - i] else tmp)
  }

  function Adapted(x: seq<byte>, p: Platform, local: Platform): (y: seq<byte>)
    requires |x| in {2, 4, 8}
    ensures |y| == |x|
  {
    if p == local then x
    else if p == L32 || p == L64 then Swapped(x, local == B32 || local == B64)
    else Swapped(x, local == L32 || local == L64)
  }

  // A number read from another host is right, whatever the number, exactly when the hosts are of
  // the same kind or of different byte order.
  lemma AdaptedIffOrdersDiffer(p: Platform, local: Platform, k: nat)
    requires k in {2, 4, 8}
    ensures (forall v: nat :: v < Pow256(k) ==> Adapted(Host(v, k, p), p, local) == Host(v, k, local))
            <==> p == local || Big(p) != Big(local)
  {
    if p == local || Big(p) != Big(local) {
      forall v: nat | v < Pow256(k)
        ensures Adapted(Host(v, k, p), p, local) == Host(v, k, local)
      {
        AdaptedRight(v, k, p, local);
      }
    } else {
      SameOrderFails(p, local, k);
    }
  }

  lemma AdaptedRight(v: nat, k: nat, p: Platform, local: Platform)
    requires k in {2, 4, 8} && (p == local || Big(p) != Big(local))
    ensures Adapted(Host(v, k, p), p, local) == Host(v, k, local)
  {
    hide Little, Reverse;
    var x := Host(v, k, p);
    if p != local {
      SwappedTurnsRound(x);
      TwiceRound(Little(v, k));
    }
  }

  lemma SwappedTurnsRound(x: seq<byte>)
    requires |x| in {2, 4, 8}
    ensures Swapped(x, true) == Reverse(x)
  {
    hide Reverse;
    var y, r, n := Swapped(x, true), Reverse(x), |x|;
    forall i | 0 <= i < n
      ensures y[i] == r[i]
    {
      assert r[i] == x[n - 1 - i];
    }
  }

  lemma TwiceRound(x: seq<byte>)
    ensures Reverse(Reverse(x)) == x
  {
    hide Reverse;
  }

  // A witness: the number all of whose bytes are 255.
  lemma SameOrderFails(p: Platform, local: Platform, k: nat)
    requires k in {2, 4, 8} && p != local && Big(p) == Big(local)
    ensures exists v: nat :: v < Pow256(k) && Adapted(Host(v, k, p), p, local) != Host(v, k, local)
  {
    hide Little, Reverse, Pow256;
    var v := Pow256(k) - 1;
    AllOnes(k);
    assert Host(v, k, p) == Host(v, k, local);
    assert Adapted(Host(v, k, p), p, local)[k - 1] == 0 != Host(v, k, local)[k - 1];
  }

  lemma {:induction false} AllOnes(k: nat)
    ensures Little(Pow256(k) - 1, k) == seq(k, _ => 0xff)
  {
    if k > 0 {
      AllOnes(k - 1);
      var v := Pow256(k) - 1;
      assert v == 0x100 * (Pow256(k - 1) - 1) + 0xff;
      assert v % 0x100 == 0xff && v / 0x100 == Pow256(k - 1) - 1;
    }
  }

  // ---------- lengths ----------

  // A length is written as the first four bytes of an int, and read into those of an int that is 0.
  function LengthField(n: nat, p: Platform): (bs: seq<byte>)
    ensures |bs| == 4
  {
    Host(n, IntSize(p), p)[..4]
  }

  function Zeros(k: nat): (bs: seq<byte>)
    ensures |bs| == k && forall i :: 0 <= i < k ==> bs[i] == 0
  {
    seq(k, _ => 0)
  }

  function ReadLength(bs: seq<byte>, p: Platform): nat
    requires |bs| == 4
  {
    FromHost(bs + Zeros(IntSize(p) - 4), p)
  }

  function LengthGot(n: nat, p: Platform, local: Platform): nat {
    ReadLength(Adapted(LengthField(n, p), p, local), local)
  }

  // With an int of eight bytes, most significant first, the first four are the wrong ones.
  predicate LengthsArrive(p: Platform, local: Platform) {
    p != B64 && local != B64 && (p == local || Big(p) != Big(local))
  }

  lemma LengthsArriveIff(p: Platform, local: Platform)
    ensures (forall n: nat :: n < MAX_SIZE ==> LengthGot(n, p, local) == n) <==> LengthsArrive(p, local)
  {
    if LengthsArrive(p, local) {
      forall n: nat | n < MAX_SIZE
        ensures LengthGot(n, p, local) == n
      {
        LengthRight(n, p, local);
      }
    } else {
      LengthOneFails(p, local);
      assert LengthGot(1, p, local) != 1;
    }
  }

  lemma LengthRight(n: nat, p: Platform, local: Platform)
    requires LengthsArrive(p, local) && n < MAX_SIZE
    ensures LengthGot(n, p, local) == n
  {
    hide Host, ReadLength, LengthField, Adapted, Pow256;
    FieldIsHost(n, p);
    FourBytes(n);
    AdaptedRight(n, 4, p, local);
    ReadHost(n, local);
  }

  lemma FourBytes(n: nat)
    requires n < MAX_SIZE
    ensures n < Pow256(4)
  {
    assert Pow256(4) == 0x1_0000_0000;
  }

  lemma ReadHost(n: nat, local: Platform)
    requires n < Pow256(4) && local != B64
    ensures ReadLength(Host(n, 4, local), local) == n
  {
    hide Host, Pow256, Little, Reverse, Value;
    FromHostHost(n, 4, local);
    if local == L64 {
      ZerosAbove(Host(n, 4, L64), 4);
    } else {
      assert Host(n, 4, local) + Zeros(0) == Host(n, 4, local);
    }
  }

  lemma {:induction false} LittleCut(v: nat, k: nat, j: nat)
    requires j <= k
    ensures Little(v, k)[..j] == Little(v, j)
  {
    if j > 0 {
      LittleCut(v / 0x100, k - 1, j - 1);
    }
  }

  lemma FieldIsHost(n: nat, p: Platform)
    requires p != B64
    ensures LengthField(n, p) == Host(n, 4, p)
  {
    LittleCut(n, 8, 4);
  }

  lemma {:induction false} ZerosAbove(bs: seq<byte>, k: nat)
    ensures Value(bs + Zeros(k)) == Value(bs)
  {
    if bs != [] {
      ZerosAbove(bs[1..], k);
      assert (bs + Zeros(k))[1..] == bs[1..] + Zeros(k);
    } else if k > 0 {
      ZerosAbove([], k - 1);
      assert ([] + Zeros(k))[1..] == [] + Zeros(k - 1);
    }
  }

  lemma {:induction false} ZerosBelow(k: nat, bs: seq<byte>)
    ensures Value(Zeros(k) + bs) == Pow256(k) * Value(bs)
  {
    if k == 0 {
      assert Zeros(0) + bs == bs;
    } else {
      ZerosBelow(k - 1, bs);
      assert (Zeros(k) + bs)[1..] == Zeros(k - 1) + bs;
    }
  }

  // Already the length 1 does not arrive.
  lemma LengthOneFails(p: Platform, local: Platform)
    requires !LengthsArrive(p, local)
    ensures LengthGot(1, p, local) != 1
  {
    var x := LengthField(1, p);
    if local == B64 {
      HighBytes(Adapted(x, p, local));
    } else {
      OneField(p);
      OneTurned(x, p, local);
      NothingRead(local);
    }
  }

  lemma HighBytes(y: seq<byte>)
    requires |y| == 4
    ensures ReadLength(y, B64) != 1
  {
    ZerosBelow(4, Reverse(y));
    assert Pow256(4) == 0x1_0000_0000;
    hide Reverse, Value;
    assert y + Zeros(4) == y + [0, 0, 0, 0];
    assert Reverse(y + [0, 0, 0, 0]) == Zeros(4) + Reverse(y);
  }

  lemma OneField(p: Platform)
    ensures LengthField(1, p) == if p == B64 then [0, 0, 0, 0] else if p == B32 then [0, 0, 0, 1] else [1, 0, 0, 0]
  {
    OneLittle();
    hide Little, Reverse;
  }

  // Between like byte orders the only byte that is not 0 is lost.
  lemma OneTurned(x: seq<byte>, p: Platform, local: Platform)
    requires !LengthsArrive(p, local) && local != B64
    requires x == if p == B64 then [0, 0, 0, 0] else if p == B32 then [0, 0, 0, 1] else [1, 0, 0, 0]
    ensures Adapted(x, p, local) == [0, 0, 0, 0]
  {}

  lemma NothingRead(local: Platform)
    requires local != B64
    ensures ReadLength([0, 0, 0, 0], local) == 0
  {
    ZerosAbove([], IntSize(local));
    hide Reverse;
    var none: seq<byte> := [0, 0, 0, 0] + Zeros(IntSize(local) - 4);
    assert none == [] + Zeros(IntSize(local));
    assert Big(local) ==> Reverse(none) == none;
  }

  lemma OneLittle()
    ensures Little(1, 4) == [1, 0, 0, 0] && Little(1, 8) == [1, 0, 0, 0, 0, 0, 0, 0]
  {}

  // ---------- what a stream holds ----------

  // How many bytes a value of a type takes; strings say so themselves.
  function Width(t: int): nat {
    if t == INT8 || t == FLOAT8 then 1
    else if t == INT16 || t == INT16N || t == FLOAT16 then 2
    else if t == INT32 || t == INT32N || t == FLOAT32 then 4
    else if t == INT64 || t == INT64N || t == FLOAT64 then 8
    else 0
  }

  predicate IsText(t: int) {
    t == STRING || t == BINARY_STRING
  }

  // The types whose byte order is the host's: the others are carried as raw bytes.
  predicate IsNumber(t: int) {
    t == INT16 || t == INT32 || t == INT64
  }

  lemma TypesAre(t: int)
    ensures IsText(t) <==> t == STRING || t == BINARY_STRING
    ensures IsNumber(t) <==> t == INT16 || t == INT32 || t == INT64
  {}

  // What Append adds for data of a type, taken from the memory of a host of platform p.
  function Written(p: Platform, t: int, data: seq<byte>, size: nat): seq<byte>
    requires 0 <= t < 0x10 && Width(t) <= |data| && (IsText(t) ==> size <= |data|)
  {
    [t + 0x10 * Code(p)] + if IsText(t) then LengthField(size, p) + data[..size] else data[..Width(t)]
  }

  lemma WrittenSize(p: Platform, t: int, data: seq<byte>, size: nat)
    requires 0 <= t < 0x10 && Width(t) <= |data| && (IsText(t) ==> size <= |data|)
    ensures |Written(p, t, data, size)| == 1 + if IsText(t) then 4 + size else Width(t)
  {}

  lemma WrittenParts(p: Platform, t: int, data: seq<byte>, size: nat)
    requires 0 <= t < 0x10 && Width(t) <= |data| && (IsText(t) ==> size <= |data|)
    ensures var all := Written(p, t, data, size);
            && all != [] && all[0..1] == [t + 0x10 * Code(p)]
            && all[1..|all|] == (if IsText(t) then LengthField(size, p) + data[..size] else data[..Width(t)])
            && (IsNumber(t) ==> Width(t) in {2, 4, 8} && !IsText(t))
  {
    hide LengthField;
  }

  lemma TagParts(t: int, p: Platform)
    requires 0 <= t < 0x10
    ensures (t + 0x10 * Code(p)) % 0x10 == t && PlatformOf((t + 0x10 * Code(p)) / 0x10) == p
  {}

  // memcpy into a page
  method CopyInto(dst: array<byte>, at: nat, src: seq<byte>)
    requires at + |src| <= dst.Length
    modifies dst
    ensures forall k :: at <= k < at + |src| ==> dst[k] == src[k - at]
    ensures forall k :: 0 <= k < at ==> dst[k] == old(dst[k])
  {
    for i := 0 to |src|
      invariant forall k :: at <= k < at + i ==> dst[k] == src[k - at]
      invariant forall k :: 0 <= k < at ==> dst[k] == old(dst[k])
    {
      dst[at + i] := src[i];
    }
  }

  type Page = array<byte>

  // The pages, all full but the last, hold the bytes of content.
  ghost predicate Paged(pages: seq<Page>, content: seq<byte>)
    reads pages
  {
    && pages != [] && (forall i :: 0 <= i < |pages| ==> pages[i].Length == STREAM_PAGE_SIZE)
    && (forall i, j :: 0 <= i < j < |pages| ==> pages[i] != pages[j])
    && |pages| - 1 == |content| / STREAM_PAGE_SIZE
    && (forall i, k :: 0 <= i < |pages| && 0 <= k < STREAM_PAGE_SIZE && STREAM_PAGE_SIZE * i + k < |content|
          ==> pages[i][k] == content[STREAM_PAGE_SIZE * i + k])
  }

  // A new page behind pages that are all full.
  lemma PageAdded(pages: seq<Page>, next: Page, content: seq<byte>)
    requires |content| == STREAM_PAGE_SIZE * |pages| && next !in pages && next.Length == STREAM_PAGE_SIZE
    requires forall i :: 0 <= i < |pages| ==> pages[i].Length == STREAM_PAGE_SIZE
    requires forall i, j :: 0 <= i < j < |pages| ==> pages[i] != pages[j]
    requires forall i, k :: 0 <= i < |pages| && 0 <= k < STREAM_PAGE_SIZE ==>
        pages[i][k] == content[STREAM_PAGE_SIZE * i + k]
    ensures Paged(pages + [next], content)
  {}

  class OutputStream {
    const local_platform: Platform
    var offset: nat
    var size: nat
    var buffer: seq<Page>
    var page: Page
    // Everything appended so far.
    ghost var content: seq<byte>

    ghost predicate Valid()
      reads this, buffer
    {
      && Paged(buffer, content) && page == buffer[|buffer| - 1]
      && size == |content| < MAX_SIZE && offset == size % STREAM_PAGE_SIZE
    }

    constructor (p: Platform)
      ensures Valid() && content == [] && local_platform == p && fresh(buffer)
    {
      local_platform := p;
      var first := new byte[STREAM_PAGE_SIZE];
      page, buffer := first, [first];
      offset, size, content := 0, 0, [];
    }

    // Bytes that leave room on the page.
    method FillPart(data: seq<byte>)
      requires Valid() && offset + |data| < STREAM_PAGE_SIZE && size + |data| < MAX_SIZE
      modifies this`offset, this`size, this`content, page
      ensures Valid() && content == old(content) + data
    {
      CopyInto(page, offset, data);
      size := size + |data|;
      offset := offset + |data|;
      content := content + data;
    }

    // Bytes that fill the page up; a new one follows it.
    method FillUp(data: seq<byte>)
      requires Valid() && offset + |data| == STREAM_PAGE_SIZE && size + |data| < MAX_SIZE
      modifies this`offset, this`size, this`buffer, this`page, this`content, page
      ensures Valid() && content == old(content) + data && fresh(page)
    {
      CopyInto(page, offset, data);
      size := size + |data|;
      content := content + data;
      var next := new byte[STREAM_PAGE_SIZE];
      PageAdded(buffer, next, content);
      page := next;
      buffer := buffer + [next];
      offset := 0;
    }

    method BufWrite(data: seq<byte>)
      requires Valid() && size + |data| < MAX_SIZE
      modifies this`offset, this`size, this`buffer, this`page, this`content, page
      ensures Valid() && content == old(content) + data && (page == old(page) || fresh(page))
    {
      hide Paged;
      var written := 0;
      while written < |data|
        invariant written <= |data| && Valid() && content == old(content) + data[..written]
        invariant page == old(page) || fresh(page)
      {
        var page_free := STREAM_PAGE_SIZE - size % STREAM_PAGE_SIZE;
        var bytes_left := |data| - written;
        if bytes_left < page_free {
          FillPart(data[written..]);
          assert data[..written] + data[written..] == data[..|data|];
          written := |data|;
        } else {
          FillUp(data[written..written + page_free]);
          assert data[..written] + data[written..written + page_free] == data[..written + page_free];
          written := written + page_free;
        }
      }
      assert data[..|data|] == data;
    }
  
    // data is what lies at the caller's pointer; what is not needed of it is ignored.
    method Append(data: seq<byte>, t: int, length: nat)
      requires Valid() && 0 <= t < 0x10 && Width(t) <= |data|
      requires IsText(t) ==> length <= |data|
      requires size + |Written(local_platform, t, data, length)| < MAX_SIZE
      modifies this`offset, this`size, this`buffer, this`page, this`content, page
      ensures Valid() && content == old(content) + Written(local_platform, t, data, length)
      ensures page == old(page) || fresh(page)
    {
      hide Paged;
      var ty: byte := t + 0x10 * Code(local_platform);
      ghost var before := content;
      BufWrite([ty]);
      if t == BINARY_STRING || t == STRING {
        BufWrite(LengthField(length, local_platform));
        BufWrite(data[..length]);
        Three(before, [ty], LengthField(length, local_platform), data[..length]);
      } else {
        AppendFixed(data, t);
        Three(before, [ty], [], data[..Width(t)]);
      }
    }

    // As many bytes as a value of that type has.
    method AppendFixed(data: seq<byte>, t: int)
      requires Valid() && !IsText(t) && Width(t) <= |data| && size + Width(t) < MAX_SIZE
      modifies this`offset, this`size, this`buffer, this`page, this`content, page
      ensures Valid() && content == old(content) + data[..Width(t)] && (page == old(page) || fresh(page))
    {
      hide Paged;
      if t == INT8 || t == FLOAT8 {
        BufWrite(data[..1]);
      } else if t == INT16N || t == INT16 || t == FLOAT16 {
        BufWrite(data[..2]);
      } else if t == INT32N || t == INT32 || t == FLOAT32 {
        BufWrite(data[..4]);
      } else if t == INT64N || t == INT64 || t == FLOAT64 {
        BufWrite(data[..8]);
      } else {
        assert content == old(content) + data[..0];
      }
    }

    static lemma Three(a: seq<byte>, b: seq<byte>, c: seq<byte>, d: seq<byte>)
      ensures a + b + c + d == a + (b + (c + d)) && [] + d == d && c + [] == c && a + b + [] == a + b
    {}

    // Copies the pages out, in order.
    method Serialize() returns (buf: seq<byte>)
      requires Valid()
      ensures buf == content
    {
      var left := size;
      buf := [];
      var iter := 0;
      while left > 0 && iter < |buffer|
        invariant iter <= |buffer| && 0 <= left <= |content| && buf == content[..|content| - left]
        invariant left == 0 || left == |content| - STREAM_PAGE_SIZE * iter
      {
        ghost var was := buf;
        var n := if left > STREAM_PAGE_SIZE then STREAM_PAGE_SIZE else left;
        buf := buf + buffer[iter][..n];
        assert buffer[iter][..n] == content[|content| - left..|content| - left + n];
        left := left - n;
        iter := iter + 1;
      }
    }
  }

  // ---------- reading ----------

  class InputStream {
    const local_platform: Platform
    const page: seq<byte>
    var offset: nat

    constructor (data: seq<byte>, p: Platform)
      ensures page == data && offset == 0 && local_platform == p
    {
      page, offset, local_platform := data, 0, p;
    }

    // The source reads on without looking at the size: callers must not read past the end.
    method BufRead(n: nat) returns (data: seq<byte>)
      requires offset + n <= |page|
      modifies this`offset
      ensures data == page[old(offset)..old(offset) + n] && offset == old(offset) + n
    {
      data := page[offset..offset + n];
      offset := offset + n;
    }

    static lemma Part(page: seq<byte>, from: nat, all: seq<byte>, i: nat, j: nat)
      requires from + |all| <= |page| && page[from..from + |all|] == all && i <= j <= |all|
      ensures page[from + i..from + j] == all[i..j]
    {
      forall k | 0 <= k < j - i
        ensures page[from + i..from + j][k] == all[i..j][k]
      {
        assert page[from..from + |all|][i + k] == page[from + i + k];
      }
    }

    method Reset()
      modifies this`offset
      ensures offset == 0
    {
      offset := 0;
    }

    // Reads what a host of platform p has written as (t, data, length), and gives the type and
    // the bytes as they are to lie in this host's memory.
    method Fetch(ghost p: Platform, ghost t: int, ghost data: seq<byte>, ghost length: nat)
      returns (vtype: int, got: seq<byte>, count: nat)
      requires 0 <= t < 0x10 && Width(t) <= |data| && (IsText(t) ==> length <= |data|)
      requires var all := Written(p, t, data, length); offset + |all| <= |page| && page[offset..offset + |all|] == all
      requires IsText(t) ==> offset + 5 + LengthGot(length, p, local_platform) <= |page|
      modifies this`offset
      ensures vtype == t && offset == old(offset) + 1 + count && count == |got| + if IsText(t) then 4 else 0
      // As much as the length that arrives says: the whole text if it is the length sent.
      ensures IsText(t) ==> |got| == LengthGot(length, p, local_platform) && got == page[old(offset) + 5..offset]
      ensures IsText(t) && LengthGot(length, p, local_platform) == length ==> got == data[..length]
      ensures !IsText(t) ==>
                got == if IsNumber(t) then Adapted(data[..Width(t)], p, local_platform) else data[..Width(t)]
    {
      hide Host, Pow256, Adapted, ReadLength, LengthField, Written, Code, Width, IsText, IsNumber, PlatformOf;
      ghost var all := Written(p, t, data, length);
      WrittenParts(p, t, data, length);
      TypesAre(t);
      Part(page, offset, all, 0, 1);
      Part(page, offset, all, 1, |all|);
      var tag := BufRead(1);
      assert tag == [t + 0x10 * Code(p)];
      TagParts(t, p);
      var platform := PlatformOf(tag[0] / 0x10);
      vtype := tag[0] % 0x10;
      assert platform == p && vtype == t;
      if vtype == BINARY_STRING || vtype == STRING {
        TextWhole(offset, platform, data[..length]);
        got := FetchText(platform);
        count := 4 + |got|;
      } else {
        got := FetchFixed(vtype);
        count := |got|;
        if vtype == INT16 || vtype == INT32 || vtype == INT64 {
          got := Adapted(got, platform, local_platform);
        }
      }
    }

    // As many bytes as a value of that type has.
    method FetchFixed(vtype: int) returns (got: seq<byte>)
      requires !IsText(vtype) && offset + Width(vtype) <= |page|
      modifies this`offset
      ensures offset == old(offset) + Width(vtype) && got == page[old(offset)..offset]
    {
      if vtype == INT8 || vtype == FLOAT8 {
        got := BufRead(1);
      } else if vtype == INT16 || vtype == FLOAT16 || vtype == INT16N {
        got := BufRead(2);
      } else if vtype == INT32 || vtype == FLOAT32 || vtype == INT32N {
        got := BufRead(4);
      } else if vtype == INT64 || vtype == FLOAT64 || vtype == INT64N {
        got := BufRead(8);
      } else {
        got := [];
      }
    }

    // What the length of a text is read as; where it arrives, the text lies behind it.
    lemma TextWhole(at: nat, p: Platform, text: seq<byte>)
      requires at + 4 + |text| <= |page| && page[at..at + 4 + |text|] == LengthField(|text|, p) + text
      ensures ReadLength(Adapted(page[at..at + 4], p, local_platform), local_platform) ==
          LengthGot(|text|, p, local_platform)
      ensures page[at + 4..at + 4 + |text|] == text
    {
      hide ReadLength, Adapted, LengthField;
      var all := LengthField(|text|, p) + text;
      Part(page, at, all, 0, 4);
      Part(page, at, all, 4, |all|);
    }

    // A length and that many bytes.
    method FetchText(platform: Platform) returns (got: seq<byte>)
      requires offset + 4 <= |page|
      requires offset + 4 + ReadLength(Adapted(page[offset..offset + 4], platform, local_platform),
          local_platform) <= |page|
      modifies this`offset
      ensures |got| == ReadLength(Adapted(page[old(offset)..old(offset) + 4], platform, local_platform), local_platform)
      ensures offset == old(offset) + 4 + |got| && got == page[old(offset) + 4..offset]
    {
      hide ReadLength, Adapted;
      var realsize := BufRead(4);
      got := BufRead(ReadLength(Adapted(realsize, platform, local_platform), local_platform));
    }
  }

  // ---------- from one host to another ----------

  datatype Datum = Number(t: int, v: nat) | Raw(t: int, bytes: seq<byte>) | Text(t: int, bytes: seq<byte>)

  ghost predicate Sensible(d: Datum) {
    match d
    case Number(t, v) =>
      || (t == INT16 && v < 0x1_0000)
      || (t == INT32 && v < 0x1_0000_0000)
      || (t == INT64 && v < 0x1_0000_0000_0000_0000)
    case Raw(t, bytes) =>
      || (t in {INT8, FLOAT8} && |bytes| == 1)
      || (t in {INT16N, FLOAT16} && |bytes| == 2)
      || (t in {INT32N, FLOAT32} && |bytes| == 4)
      || (t in {INT64N, FLOAT64} && |bytes| == 8)
      || (INT64N < t < 0x10 && bytes == [])
    case Text(t, bytes) => t in {STRING, BINARY_STRING} && |bytes| < MAX_SIZE
  }

  // A value as it lies in the memory of a host.
  function InMemory(d: Datum, p: Platform): seq<byte> {
    if d.Number? then Host(d.v, Width(d.t), p) else d.bytes
  }

  function Length(d: Datum): nat {
    if d.Text? then |d.bytes| else 0
  }

  ghost predicate AllSensible(ds: seq<Datum>) {
    forall i :: 0 <= i < |ds| ==> Sensible(ds[i])
  }

  // What one value adds to a stream.
  ghost function Item(p: Platform, d: Datum): seq<byte>
    requires Sensible(d)
  {
    Written(p, d.t, InMemory(d, p), Length(d))
  }

  ghost function Encoding(p: Platform, ds: seq<Datum>): seq<byte>
    requires AllSensible(ds)
  {
    if ds == [] then [] else
      var d := ds[|ds| - 1];
      Encoding(p, ds[..|ds| - 1]) + Item(p, d)
  }

  // What is on the wire: 0x12345678 from hosts of either byte order, and a text of two bytes.
  lemma OnTheWire()
    ensures Item(L32, Number(INT32, 0x12345678)) == [0x13, 0x78, 0x56, 0x34, 0x12]
    ensures Item(B64, Number(INT32, 0x12345678)) == [0x43, 0x12, 0x34, 0x56, 0x78]
    ensures Item(B32, Text(STRING, [0x68, 0x69])) == [0x29, 0, 0, 0, 2, 0x68, 0x69]
  {
    LittleWire();
    hide Little, Reverse;
    assert Host(0x12345678, 4, B64) == [0x12, 0x34, 0x56, 0x78];
    assert LengthField(2, B32) == [0, 0, 0, 2];
  }

  lemma LittleWire()
    ensures Little(0x12345678, 4) == [0x78, 0x56, 0x34, 0x12] && Little(2, 4) == [2, 0, 0, 0]
  {}

  lemma {:induction false} EncodingPrefix(p: Platform, ds: seq<Datum>, i: nat)
    requires i <= |ds| && AllSensible(ds)
    ensures Encoding(p, ds[..i]) <= Encoding(p, ds)
    ensures i < |ds| ==> var d := ds[i];
              Encoding(p, ds[..i + 1]) == Encoding(p, ds[..i]) + Item(p, d)
    decreases |ds| - i
  {
    hide Item, Sensible;
    if i < |ds| {
      EncodingPrefix(p, ds, i + 1);
      assert ds[..i + 1][..i] == ds[..i];
    } else {
      assert ds[..i] == ds;
    }
  }

  method WriteAll(ds: seq<Datum>, writer: Platform) returns (data: seq<byte>)
    requires AllSensible(ds) && |Encoding(writer, ds)| < MAX_SIZE
    ensures data == Encoding(writer, ds)
  {
    hide Written, Pow256, Host, Adapted, Encoding, InMemory;
    var out := new OutputStream(writer);
    EncodingPrefix(writer, ds, 0);
    NoEncoding(writer);
    for i := 0 to |ds|
      invariant out.Valid() && out.content == Encoding(writer, ds[..i]) && out.local_platform == writer
      invariant fresh(out) && fresh(out.page)
    {
      EncodingPrefix(writer, ds, i);
      EncodingPrefix(writer, ds, i + 1);
      Shape(ds[i], writer);
      out.Append(InMemory(ds[i], writer), ds[i].t, Length(ds[i]));
    }
    assert ds[..|ds|] == ds;
    data := out.Serialize();
  }

  // Numbers and lengths arrive (AdaptedIffOrdersDiffer, LengthsArriveIff): always between hosts
  // with ints of four bytes.
  predicate Portable(d: Datum, writer: Platform, reader: Platform) {
    match d
    case Number(t, v) => writer == reader || Big(writer) != Big(reader)
    case Raw(t, bytes) => true
    case Text(t, bytes) => LengthsArrive(writer, reader)
  }

  // The type, and the number of that many bytes, or the very bytes.
  ghost predicate Arrived(d: Datum, got: (int, seq<byte>), reader: Platform) {
    match d
    case Number(t, v) =>
      && got.0 == t && |got.1| == (if t == INT16 then 2 else if t == INT32 then 4 else 8)
      && FromHost(got.1, reader) == v
    case Raw(t, bytes) => got == (t, bytes)
    case Text(t, bytes) => got == (t, bytes)
  }

  lemma NumberFits(d: Datum)
    requires Sensible(d) && d.Number?
    ensures d.v < Pow256(Width(d.t))
  {
    assert Pow256(4) == 0x1_0000_0000;
    assert Pow256(8) == Pow256(4) * Pow256(4) by {
      assert Pow256(8) == 0x100 * (0x100 * (0x100 * (0x100 * Pow256(4))));
    }
  }

  lemma DeliveredArrived(ds: seq<Datum>, reader: Platform)
    requires AllSensible(ds)
    ensures |Delivered(ds, reader)| == |ds|
    ensures forall i :: 0 <= i < |ds| ==> Arrived(ds[i], Delivered(ds, reader)[i], reader)
  {
    forall i | 0 <= i < |ds|
      ensures Arrived(ds[i], (ds[i].t, InMemory(ds[i], reader)), reader)
    {
      if ds[i].Number? {
        NumberFits(ds[i]);
        FromHostHost(ds[i].v, Width(ds[i].t), reader);
      }
    }
  }

  // What the values are in the memory of a host.
  function Delivered(ds: seq<Datum>, reader: Platform): seq<(int, seq<byte>)> {
    seq(|ds|, i requires 0 <= i < |ds| => (ds[i].t, InMemory(ds[i], reader)))
  }

  // Whatever the byte orders of the two hosts, the reader gets the same types, and the same
  // values in its own memory.
  method RoundTrip(ds: seq<Datum>, writer: Platform, reader: Platform) returns (got: seq<(int, seq<byte>)>)
    requires AllSensible(ds) && |Encoding(writer, ds)| < MAX_SIZE
    requires forall i :: 0 <= i < |ds| ==> Portable(ds[i], writer, reader)
    ensures |got| == |ds| && forall i :: 0 <= i < |ds| ==> Arrived(ds[i], got[i], reader)
  {
    hide Arrived, Delivered, Encoding, Sensible;
    var data := WriteAll(ds, writer);
    var stream := new InputStream(data, reader);
    got := ReadAll(stream, ds, writer);
    DeliveredArrived(ds, reader);
  }

  // After a reset all of it can be read again.
  method ReadTwice(ds: seq<Datum>, writer: Platform, reader: Platform)
    returns (once: seq<(int, seq<byte>)>, again: seq<(int, seq<byte>)>)
    requires AllSensible(ds) && |Encoding(writer, ds)| < MAX_SIZE
    requires forall i :: 0 <= i < |ds| ==> Portable(ds[i], writer, reader)
    ensures once == again && |once| == |ds| && forall i :: 0 <= i < |ds| ==> Arrived(ds[i], once[i], reader)
  {
    hide Arrived, Delivered, Encoding, Sensible;
    var data := WriteAll(ds, writer);
    var stream := new InputStream(data, reader);
    once := ReadAll(stream, ds, writer);
    stream.Reset();
    again := ReadAll(stream, ds, writer);
    DeliveredArrived(ds, reader);
  }

  // Fetches one value after the other, from the beginning.
  method ReadAll(stream: InputStream, ghost ds: seq<Datum>, ghost writer: Platform) returns (got: seq<(int, seq<byte>)>)
    requires AllSensible(ds) && stream.page == Encoding(writer, ds) && stream.offset == 0
    requires forall i :: 0 <= i < |ds| ==> Portable(ds[i], writer, stream.local_platform)
    modifies stream
    ensures got == Delivered(ds, stream.local_platform) && stream.offset == |stream.page|
  {
    hide Written, Pow256, Host, Adapted, Encoding, InMemory, LengthGot, Sensible;
    EncodingPrefix(writer, ds, 0);
    NoEncoding(writer);
    assert ds[..|ds|] == ds;
    got := [];
    while stream.offset < |stream.page|
      invariant |got| <= |ds| && stream.offset == |Encoding(writer, ds[..|got|])|
      invariant got == Delivered(ds, stream.local_platform)[..|got|]
      decreases |ds| - |got|
    {
      ghost var i := |got|;
      ghost var d := ds[i];
      EncodingPrefix(writer, ds, i);
      EncodingPrefix(writer, ds, i + 1);
      Shape(d, writer);
      Carried(d, writer, stream.local_platform);
      WrittenSize(writer, d.t, InMemory(d, writer), Length(d));
      Inside(stream.page, Encoding(writer, ds[..i]), Item(writer, d));
      var vtype, bytes, count := stream.Fetch(writer, d.t, InMemory(d, writer), Length(d));
      got := got + [(vtype, bytes)];
    }
    AllRead(ds, writer, |got|);
  }

  // Every value takes up some of the stream.
  lemma {:induction false} AllRead(ds: seq<Datum>, writer: Platform, i: nat)
    requires i <= |ds| && AllSensible(ds) && |Encoding(writer, ds[..i])| >= |Encoding(writer, ds)|
    ensures i == |ds|
  {
    if i < |ds| {
      EncodingPrefix(writer, ds, i);
      EncodingPrefix(writer, ds, i + 1);
    }
  }

  lemma Shape(d: Datum, p: Platform)
    requires Sensible(d)
    ensures 0 <= d.t < 0x10 && Width(d.t) <= |InMemory(d, p)| && (IsText(d.t) ==> Length(d) <= |InMemory(d, p)|)
  {}

  lemma NoEncoding(p: Platform)
    ensures Encoding(p, []) == []
  {}

  lemma Inside(all: seq<byte>, a: seq<byte>, b: seq<byte>)
    requires a + b <= all
    ensures |a| + |b| <= |all| && all[|a|..|a| + |b|] == b
  {}

  lemma Carried(d: Datum, p: Platform, local: Platform)
    requires Sensible(d) && Portable(d, p, local)
    ensures var data := InMemory(d, p);
            (if IsText(d.t) then data[..Length(d)]
             else if IsNumber(d.t) then Adapted(data[..Width(d.t)], p, local) else data[..Width(d.t)]) ==
                 InMemory(d, local)
    ensures IsText(d.t) ==> LengthGot(Length(d), p, local) == Length(d)
    ensures !IsText(d.t) ==> |InMemory(d, local)| == Width(d.t)
  {
    if d.Number? {
      AdaptedRight(d.v, Width(d.t), p, local);
      assert InMemory(d, p)[..Width(d.t)] == InMemory(d, p);
    } else if d.Text? {
      LengthRight(|d.bytes|, p, local);
    }
  }
}
