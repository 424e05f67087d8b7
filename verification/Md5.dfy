/** md5.c: the MD5 message digest of RFC 1321, computed piece by piece. */
module Md5 {

  type byte = b: int | 0 <= b < 0x100
  type word = w: int | 0 <= w < 0x1_0000_0000

  const WORD := 0x1_0000_0000

  // ---------- the functions of one step (RFC 1321, section 3.4) ----------

  function Add(x: word, y: word): word {
    (x + y) % WORD
  }

  function FOf(u: bv32, v: bv32, w: bv32): bv32 {
    (u & v) | (!u & w)
  }

  function GOf(u: bv32, v: bv32, w: bv32): bv32 {
    (u & w) | (v & !w)
  }

  function HOf(u: bv32, v: bv32, w: bv32): bv32 {
    u ^ v ^ w
  }

  function JOf(u: bv32, v: bv32, w: bv32): bv32 {
    v ^ (u | !w)
  }

  type Shift = n: bv32 | 0 < n < 32 witness 7

  function Rotated(u: bv32, n: Shift): bv32 {
    (u << n) | (u >> (32 - n))
  }

  function F(x: word, y: word, z: word): word {
    FOf(x as bv32, y as bv32, z as bv32) as int
  }

  function G(x: word, y: word, z: word): word {
    GOf(x as bv32, y as bv32, z as bv32) as int
  }

  function H(x: word, y: word, z: word): word {
    HOf(x as bv32, y as bv32, z as bv32) as int
  }

  function J(x: word, y: word, z: word): word {
    JOf(x as bv32, y as bv32, z as bv32) as int
  }

  function RotateLeft(x: word, n: Shift): word {
    Rotated(x as bv32, n) as int
  }

  // ---------- what they do to single bits ----------

  type Place = i: bv32 | i < 32

  predicate IsSet(u: bv32, i: Place) {
    u & (1 << i) != 0
  }

  predicate Bit(x: word, i: Place) {
    IsSet(x as bv32, i)
  }

  lemma BackToBits(u: bv32)
    ensures u as int < WORD && (u as int) as bv32 == u
  {}

  lemma BitOf(u: bv32, i: Place)
    ensures Bit(u as int, i) == IsSet(u, i)
  {
    hide IsSet;
    BackToBits(u);
  }

  // Words with the same bits are the same.
  predicate Alike(u: bv32, v: bv32, i: Place) {
    IsSet(u, i) == IsSet(v, i)
  }

  lemma SameBits(u: bv32, v: bv32)
    requires forall i: Place :: Alike(u, v, i)
    ensures u == v
  {
    assert Alike(u, v, 0) && Alike(u, v, 1) && Alike(u, v, 2) && Alike(u, v, 3);
    assert Alike(u, v, 4) && Alike(u, v, 5) && Alike(u, v, 6) && Alike(u, v, 7);
    assert Alike(u, v, 8) && Alike(u, v, 9) && Alike(u, v, 10) && Alike(u, v, 11);
    assert Alike(u, v, 12) && Alike(u, v, 13) && Alike(u, v, 14) && Alike(u, v, 15);
    assert Alike(u, v, 16) && Alike(u, v, 17) && Alike(u, v, 18) && Alike(u, v, 19);
    assert Alike(u, v, 20) && Alike(u, v, 21) && Alike(u, v, 22) && Alike(u, v, 23);
    assert Alike(u, v, 24) && Alike(u, v, 25) && Alike(u, v, 26) && Alike(u, v, 27);
    assert Alike(u, v, 28) && Alike(u, v, 29) && Alike(u, v, 30) && Alike(u, v, 31);
  }

  lemma SetIs(u: bv32, i: Place)
    ensures IsSet(u, i) == (u & (1 << i) != 0)
  {}

  lemma FIs(u: bv32, v: bv32, w: bv32)
    ensures FOf(u, v, w) == (u & v) | (!u & w)
  {}

  lemma GIs(u: bv32, v: bv32, w: bv32)
    ensures GOf(u, v, w) == (u & w) | (v & !w)
  {}

  lemma HIs(u: bv32, v: bv32, w: bv32)
    ensures HOf(u, v, w) == u ^ v ^ w
  {}

  lemma JIs(u: bv32, v: bv32, w: bv32)
    ensures JOf(u, v, w) == v ^ (u | !w)
  {}

  lemma RawF(u: bv32, v: bv32, w: bv32, i: Place, r: bv32)
    requires r == (u & v) | (!u & w)
    ensures (r & (1 << i) != 0) == if u & (1 << i) != 0 then v & (1 << i) != 0 else w & (1 << i) != 0
  {}

  lemma RawG(u: bv32, v: bv32, w: bv32, i: Place, r: bv32)
    requires r == (u & w) | (v & !w)
    ensures (r & (1 << i) != 0) == if w & (1 << i) != 0 then u & (1 << i) != 0 else v & (1 << i) != 0
  {}

  lemma RawXor(u: bv32, v: bv32, i: Place, r: bv32)
    requires r == u ^ v
    ensures (r & (1 << i) != 0) == ((u & (1 << i) != 0) != (v & (1 << i) != 0))
  {}

  lemma RawH(u: bv32, v: bv32, w: bv32, i: Place, a: bv32, r: bv32)
    requires a == u ^ v && r == a ^ w
    ensures (r & (1 << i) != 0) == ((u & (1 << i) != 0) != ((v & (1 << i) != 0) != (w & (1 << i) != 0)))
  {
    RawXor(u, v, i, a);
    RawXor(a, w, i, r);
  }

  lemma RawJ(u: bv32, v: bv32, w: bv32, i: Place, r: bv32)
    requires r == v ^ (u | !w)
    ensures (r & (1 << i) != 0) == ((v & (1 << i) != 0) != (u & (1 << i) != 0 || w & (1 << i) == 0))
  {}

  lemma SetF(u: bv32, v: bv32, w: bv32, i: Place)
    ensures IsSet(FOf(u, v, w), i) == if IsSet(u, i) then IsSet(v, i) else IsSet(w, i)
  {
    hide IsSet, FOf, GOf, HOf, JOf;
    FIs(u, v, w);
    SetIs(u, i);
    SetIs(v, i);
    SetIs(w, i);
    SetIs(FOf(u, v, w), i);
    RawF(u, v, w, i, FOf(u, v, w));
  }

  lemma SetG(u: bv32, v: bv32, w: bv32, i: Place)
    ensures IsSet(GOf(u, v, w), i) == if IsSet(w, i) then IsSet(u, i) else IsSet(v, i)
  {
    hide IsSet, FOf, GOf, HOf, JOf;
    GIs(u, v, w);
    SetIs(u, i);
    SetIs(v, i);
    SetIs(w, i);
    SetIs(GOf(u, v, w), i);
    RawG(u, v, w, i, GOf(u, v, w));
  }

  lemma SetH(u: bv32, v: bv32, w: bv32, i: Place)
    ensures IsSet(HOf(u, v, w), i) == (IsSet(u, i) != (IsSet(v, i) != IsSet(w, i)))
  {
    hide IsSet, FOf, GOf, HOf, JOf;
    HIs(u, v, w);
    SetIs(u, i);
    SetIs(v, i);
    SetIs(w, i);
    SetIs(HOf(u, v, w), i);
    RawH(u, v, w, i, u ^ v, HOf(u, v, w));
  }

  lemma SetJ(u: bv32, v: bv32, w: bv32, i: Place)
    ensures IsSet(JOf(u, v, w), i) == (IsSet(v, i) != (IsSet(u, i) || !IsSet(w, i)))
  {
    hide IsSet, FOf, GOf, HOf, JOf;
    JIs(u, v, w);
    SetIs(u, i);
    SetIs(v, i);
    SetIs(w, i);
    SetIs(JOf(u, v, w), i);
    RawJ(u, v, w, i, JOf(u, v, w));
  }

  lemma RawShifted(u: bv32, i: Place)
    ensures ((u >> i) & 1 == 1) == (u & (1 << i) != 0)
  {}

  lemma RawRotated(u: bv32, n: Shift, i: Place, j: Place, r: bv32)
    requires r == (u << n) | (u >> (32 - n)) && j == (i - n) & 31
    ensures (r >> i) & 1 == (u >> j) & 1
  {}

  lemma RotatedIs(u: bv32, n: Shift)
    ensures Rotated(u, n) == (u << n) | (u >> (32 - n))
  {}

  lemma ShiftedIs(u: bv32, i: Place)
    ensures IsSet(u, i) == ((u >> i) & 1 == 1)
  {
    hide IsSet;
    SetIs(u, i);
    RawShifted(u, i);
  }

  lemma RoundTo(n: Shift, i: Place, j: Place)
    requires j == if i < n then 32 + i - n else i - n
    ensures j == (i - n) & 31
  {}

  lemma SetRotated(u: bv32, n: Shift, i: Place, j: Place)
    requires j == if i < n then 32 + i - n else i - n
    ensures IsSet(Rotated(u, n), i) == IsSet(u, j)
  {
    hide IsSet, Rotated;
    RotatedIs(u, n);
    RoundTo(n, i, j);
    ShiftedIs(Rotated(u, n), i);
    ShiftedIs(u, j);
    RawRotated(u, n, i, j, Rotated(u, n));
  }

  // Where x has a 1, F is y, elsewhere z; where z has a 1, G is x, elsewhere y.
  lemma BitsOfFG(x: word, y: word, z: word, i: Place)
    ensures Bit(F(x, y, z), i) == if Bit(x, i) then Bit(y, i) else Bit(z, i)
    ensures Bit(G(x, y, z), i) == if Bit(z, i) then Bit(x, i) else Bit(y, i)
  {
    hide IsSet, FOf, GOf;
    var u, v, w := x as bv32, y as bv32, z as bv32;
    SetF(u, v, w, i);
    SetG(u, v, w, i);
    BitOf(FOf(u, v, w), i);
    BitOf(GOf(u, v, w), i);
  }

  // H is the parity of the three bits, and J is y turned round where x or not z.
  lemma BitsOfHJ(x: word, y: word, z: word, i: Place)
    ensures Bit(H(x, y, z), i) == (Bit(x, i) != (Bit(y, i) != Bit(z, i)))
    ensures Bit(J(x, y, z), i) == (Bit(y, i) != (Bit(x, i) || !Bit(z, i)))
  {
    hide IsSet, HOf, JOf;
    var u, v, w := x as bv32, y as bv32, z as bv32;
    SetH(u, v, w, i);
    SetJ(u, v, w, i);
    BitOf(HOf(u, v, w), i);
    BitOf(JOf(u, v, w), i);
  }

  // Every bit moves n places up, and round.
  lemma BitsRotate(x: word, n: Shift, i: Place, j: Place)
    requires j == if i < n then 32 + i - n else i - n
    ensures Bit(RotateLeft(x, n), i) == Bit(x, j)
  {
    hide IsSet, Rotated;
    SetRotated(x as bv32, n, i, j);
    BitOf(Rotated(x as bv32, n), i);
  }

  // ---------- RFC 1321, section 3.4, by tables ----------

  datatype Quad = Quad(a: word, b: word, c: word, d: word)

  type Index = i: int | 0 <= i < 64

  type Block = x: seq<word> | |x| == 16 witness seq(16, _ => 0)

  // The integer part of 4294967296 times abs(sin(i + 1)).
  function T(i: Index): word {
    if i < 16 then T1(i) else if i < 32 then T2(i - 16) else if i < 48 then T3(i - 32) else T4(i - 48)
  }

  function T1(i: nat): word {
    match i
    case 0 => 0xd76aa478 case 1 => 0xe8c7b756 case 2 => 0x242070db case 3 => 0xc1bdceee
    case 4 => 0xf57c0faf case 5 => 0x4787c62a case 6 => 0xa8304613 case 7 => 0xfd469501
    case 8 => 0x698098d8 case 9 => 0x8b44f7af case 10 => 0xffff5bb1 case 11 => 0x895cd7be
    case 12 => 0x6b901122 case 13 => 0xfd987193 case 14 => 0xa679438e case _ => 0x49b40821
  }

  function T2(i: nat): word {
    match i
    case 0 => 0xf61e2562 case 1 => 0xc040b340 case 2 => 0x265e5a51 case 3 => 0xe9b6c7aa
    case 4 => 0xd62f105d case 5 => 0x02441453 case 6 => 0xd8a1e681 case 7 => 0xe7d3fbc8
    case 8 => 0x21e1cde6 case 9 => 0xc33707d6 case 10 => 0xf4d50d87 case 11 => 0x455a14ed
    case 12 => 0xa9e3e905 case 13 => 0xfcefa3f8 case 14 => 0x676f02d9 case _ => 0x8d2a4c8a
  }

  function T3(i: nat): word {
    match i
    case 0 => 0xfffa3942 case 1 => 0x8771f681 case 2 => 0x6d9d6122 case 3 => 0xfde5380c
    case 4 => 0xa4beea44 case 5 => 0x4bdecfa9 case 6 => 0xf6bb4b60 case 7 => 0xbebfbc70
    case 8 => 0x289b7ec6 case 9 => 0xeaa127fa case 10 => 0xd4ef3085 case 11 => 0x04881d05
    case 12 => 0xd9d4d039 case 13 => 0xe6db99e5 case 14 => 0x1fa27cf8 case _ => 0xc4ac5665
  }

  function T4(i: nat): word {
    match i
    case 0 => 0xf4292244 case 1 => 0x432aff97 case 2 => 0xab9423a7 case 3 => 0xfc93a039
    case 4 => 0x655b59c3 case 5 => 0x8f0ccc92 case 6 => 0xffeff47d case 7 => 0x85845dd1
    case 8 => 0x6fa87e4f case 9 => 0xfe2ce6e0 case 10 => 0xa3014314 case 11 => 0x4e0811a1
    case 12 => 0xf7537e82 case 13 => 0xbd3af235 case 14 => 0x2ad7d2bb case _ => 0xeb86d391
  }

  // Which word of the block a step takes.
  function X(i: Index): (k: nat)
    ensures k < 16
  {
    if i < 16 then i else if i < 32 then (5 * i + 1) % 16 else if i < 48 then (3 * i + 5) % 16 else 7 * i % 16
  }

  function S(i: Index): Shift {
    if i < 16 then (match i % 4 case 0 => 7 case 1 => 12 case 2 => 17 case _ => 22)
    else if i < 32 then (match i % 4 case 0 => 5 case 1 => 9 case 2 => 14 case _ => 20)
    else if i < 48 then (match i % 4 case 0 => 4 case 1 => 11 case 2 => 16 case _ => 23)
    else (match i % 4 case 0 => 6 case 1 => 10 case 2 => 15 case _ => 21)
  }

  function Mix(i: Index, b: word, c: word, d: word): word {
    if i < 16 then F(b, c, d) else if i < 32 then G(b, c, d) else if i < 48 then H(b, c, d) else J(b, c, d)
  }

  // One operation; the registers move on by one.
  function Op(i: Index, q: Quad, x: Block): Quad {
    Quad(q.d, Add(q.b, RotateLeft(Add(Add(q.a, Mix(i, q.b, q.c, q.d)), Add(x[X(i)], T(i))), S(i))), q.b, q.c)
  }

  function Ops(q: Quad, x: Block, i: nat, j: nat): Quad
    requires i <= j <= 64
    decreases j - i
  {
    if i == j then q else Ops(Op(i, q, x), x, i + 1, j)
  }

  lemma OpsNone(q: Quad, x: Block)
    ensures Ops(q, x, 16, 16) == Ops(q, x, 32, 32) == Ops(q, x, 48, 48) == Ops(q, x, 64, 64) == q
  {}

  lemma {:induction false} OpsSplit(q: Quad, x: Block, i: nat, j: nat, k: nat)
    requires i <= j <= k <= 64
    ensures Ops(q, x, i, k) == Ops(Ops(q, x, i, j), x, j, k)
    decreases j - i
  {
    hide Op;
    if i < j {
      OpsSplit(Op(i, q, x), x, i + 1, j, k);
    }
  }

  // ---------- the unrolled transformation ----------

  const S11: Shift := 7
  const S12: Shift := 12
  const S13: Shift := 17
  const S14: Shift := 22
  const S21: Shift := 5
  const S22: Shift := 9
  const S23: Shift := 14
  const S24: Shift := 20
  const S31: Shift := 4
  const S32: Shift := 11
  const S33: Shift := 16
  const S34: Shift := 23
  const S41: Shift := 6
  const S42: Shift := 10
  const S43: Shift := 15
  const S44: Shift := 21

  function FF(a: word, b: word, c: word, d: word, x: word, s: Shift, ac: word): word {
    Add(b, RotateLeft(Add(Add(a, F(b, c, d)), Add(x, ac)), s))
  }

  function GG(a: word, b: word, c: word, d: word, x: word, s: Shift, ac: word): word {
    Add(b, RotateLeft(Add(Add(a, G(b, c, d)), Add(x, ac)), s))
  }

  function HH(a: word, b: word, c: word, d: word, x: word, s: Shift, ac: word): word {
    Add(b, RotateLeft(Add(Add(a, H(b, c, d)), Add(x, ac)), s))
  }

  function II(a: word, b: word, c: word, d: word, x: word, s: Shift, ac: word): word {
    Add(b, RotateLeft(Add(Add(a, J(b, c, d)), Add(x, ac)), s))
  }

  // The operation with its word, shift and constant spelt out.
  lemma StepOne(q: Quad, x: Block, i: Index, k: nat, s: Shift, t: word) returns (q': Quad)
    requires 0 <= i < 16 && k == X(i) && s == S(i) && t == T(i)
    ensures q' == Quad(q.d, FF(q.a, q.b, q.c, q.d, x[k], s, t), q.b, q.c) && Ops(q, x, i, 16) == Ops(q', x, i + 1, 16)
  {
    q' := Op(i, q, x);
  }

  lemma StepTwo(q: Quad, x: Block, i: Index, k: nat, s: Shift, t: word) returns (q': Quad)
    requires 16 <= i < 32 && k == X(i) && s == S(i) && t == T(i)
    ensures q' == Quad(q.d, GG(q.a, q.b, q.c, q.d, x[k], s, t), q.b, q.c) && Ops(q, x, i, 32) == Ops(q', x, i + 1, 32)
  {
    q' := Op(i, q, x);
  }

  lemma StepThree(q: Quad, x: Block, i: Index, k: nat, s: Shift, t: word) returns (q': Quad)
    requires 32 <= i < 48 && k == X(i) && s == S(i) && t == T(i)
    ensures q' == Quad(q.d, HH(q.a, q.b, q.c, q.d, x[k], s, t), q.b, q.c) && Ops(q, x, i, 48) == Ops(q', x, i + 1, 48)
  {
    q' := Op(i, q, x);
  }

  lemma StepFour(q: Quad, x: Block, i: Index, k: nat, s: Shift, t: word) returns (q': Quad)
    requires 48 <= i < 64 && k == X(i) && s == S(i) && t == T(i)
    ensures q' == Quad(q.d, II(q.a, q.b, q.c, q.d, x[k], s, t), q.b, q.c) && Ops(q, x, i, 64) == Ops(q', x, i + 1, 64)
  {
    q' := Op(i, q, x);
  }

  method RoundOne(q0: Quad, x: Block) returns (r: Quad)
    ensures r == Ops(q0, x, 0, 16)
  {
    hide FF, GG, HH, II, Op, Ops;
    var a, b, c, d := q0.a, q0.b, q0.c, q0.d;
    ghost var q := q0;
    a := FF(a, b, c, d, x[0], S11, 0xd76aa478); q := StepOne(q, x, 0, 0, S11, 0xd76aa478);
    d := FF(d, a, b, c, x[1], S12, 0xe8c7b756); q := StepOne(q, x, 1, 1, S12, 0xe8c7b756);
    c := FF(c, d, a, b, x[2], S13, 0x242070db); q := StepOne(q, x, 2, 2, S13, 0x242070db);
    b := FF(b, c, d, a, x[3], S14, 0xc1bdceee); q := StepOne(q, x, 3, 3, S14, 0xc1bdceee);
    a := FF(a, b, c, d, x[4], S11, 0xf57c0faf); q := StepOne(q, x, 4, 4, S11, 0xf57c0faf);
    d := FF(d, a, b, c, x[5], S12, 0x4787c62a); q := StepOne(q, x, 5, 5, S12, 0x4787c62a);
    c := FF(c, d, a, b, x[6], S13, 0xa8304613); q := StepOne(q, x, 6, 6, S13, 0xa8304613);
    b := FF(b, c, d, a, x[7], S14, 0xfd469501); q := StepOne(q, x, 7, 7, S14, 0xfd469501);
    a := FF(a, b, c, d, x[8], S11, 0x698098d8); q := StepOne(q, x, 8, 8, S11, 0x698098d8);
    d := FF(d, a, b, c, x[9], S12, 0x8b44f7af); q := StepOne(q, x, 9, 9, S12, 0x8b44f7af);
    c := FF(c, d, a, b, x[10], S13, 0xffff5bb1); q := StepOne(q, x, 10, 10, S13, 0xffff5bb1);
    b := FF(b, c, d, a, x[11], S14, 0x895cd7be); q := StepOne(q, x, 11, 11, S14, 0x895cd7be);
    a := FF(a, b, c, d, x[12], S11, 0x6b901122); q := StepOne(q, x, 12, 12, S11, 0x6b901122);
    d := FF(d, a, b, c, x[13], S12, 0xfd987193); q := StepOne(q, x, 13, 13, S12, 0xfd987193);
    c := FF(c, d, a, b, x[14], S13, 0xa679438e); q := StepOne(q, x, 14, 14, S13, 0xa679438e);
    b := FF(b, c, d, a, x[15], S14, 0x49b40821); q := StepOne(q, x, 15, 15, S14, 0x49b40821);
    OpsNone(q, x);
    return Quad(a, b, c, d);
  }

  method RoundTwo(q0: Quad, x: Block) returns (r: Quad)
    ensures r == Ops(q0, x, 16, 32)
  {
    hide FF, GG, HH, II, Op, Ops;
    var a, b, c, d := q0.a, q0.b, q0.c, q0.d;
    ghost var q := q0;
    a := GG(a, b, c, d, x[1], S21, 0xf61e2562); q := StepTwo(q, x, 16, 1, S21, 0xf61e2562);
    d := GG(d, a, b, c, x[6], S22, 0xc040b340); q := StepTwo(q, x, 17, 6, S22, 0xc040b340);
    c := GG(c, d, a, b, x[11], S23, 0x265e5a51); q := StepTwo(q, x, 18, 11, S23, 0x265e5a51);
    b := GG(b, c, d, a, x[0], S24, 0xe9b6c7aa); q := StepTwo(q, x, 19, 0, S24, 0xe9b6c7aa);
    a := GG(a, b, c, d, x[5], S21, 0xd62f105d); q := StepTwo(q, x, 20, 5, S21, 0xd62f105d);
    d := GG(d, a, b, c, x[10], S22, 0x02441453); q := StepTwo(q, x, 21, 10, S22, 0x02441453);
    c := GG(c, d, a, b, x[15], S23, 0xd8a1e681); q := StepTwo(q, x, 22, 15, S23, 0xd8a1e681);
    b := GG(b, c, d, a, x[4], S24, 0xe7d3fbc8); q := StepTwo(q, x, 23, 4, S24, 0xe7d3fbc8);
    a := GG(a, b, c, d, x[9], S21, 0x21e1cde6); q := StepTwo(q, x, 24, 9, S21, 0x21e1cde6);
    d := GG(d, a, b, c, x[14], S22, 0xc33707d6); q := StepTwo(q, x, 25, 14, S22, 0xc33707d6);
    c := GG(c, d, a, b, x[3], S23, 0xf4d50d87); q := StepTwo(q, x, 26, 3, S23, 0xf4d50d87);
    b := GG(b, c, d, a, x[8], S24, 0x455a14ed); q := StepTwo(q, x, 27, 8, S24, 0x455a14ed);
    a := GG(a, b, c, d, x[13], S21, 0xa9e3e905); q := StepTwo(q, x, 28, 13, S21, 0xa9e3e905);
    d := GG(d, a, b, c, x[2], S22, 0xfcefa3f8); q := StepTwo(q, x, 29, 2, S22, 0xfcefa3f8);
    c := GG(c, d, a, b, x[7], S23, 0x676f02d9); q := StepTwo(q, x, 30, 7, S23, 0x676f02d9);
    b := GG(b, c, d, a, x[12], S24, 0x8d2a4c8a); q := StepTwo(q, x, 31, 12, S24, 0x8d2a4c8a);
    OpsNone(q, x);
    return Quad(a, b, c, d);
  }

  method RoundThree(q0: Quad, x: Block) returns (r: Quad)
    ensures r == Ops(q0, x, 32, 48)
  {
    hide FF, GG, HH, II, Op, Ops;
    var a, b, c, d := q0.a, q0.b, q0.c, q0.d;
    ghost var q := q0;
    a := HH(a, b, c, d, x[5], S31, 0xfffa3942); q := StepThree(q, x, 32, 5, S31, 0xfffa3942);
    d := HH(d, a, b, c, x[8], S32, 0x8771f681); q := StepThree(q, x, 33, 8, S32, 0x8771f681);
    c := HH(c, d, a, b, x[11], S33, 0x6d9d6122); q := StepThree(q, x, 34, 11, S33, 0x6d9d6122);
    b := HH(b, c, d, a, x[14], S34, 0xfde5380c); q := StepThree(q, x, 35, 14, S34, 0xfde5380c);
    a := HH(a, b, c, d, x[1], S31, 0xa4beea44); q := StepThree(q, x, 36, 1, S31, 0xa4beea44);
    d := HH(d, a, b, c, x[4], S32, 0x4bdecfa9); q := StepThree(q, x, 37, 4, S32, 0x4bdecfa9);
    c := HH(c, d, a, b, x[7], S33, 0xf6bb4b60); q := StepThree(q, x, 38, 7, S33, 0xf6bb4b60);
    b := HH(b, c, d, a, x[10], S34, 0xbebfbc70); q := StepThree(q, x, 39, 10, S34, 0xbebfbc70);
    a := HH(a, b, c, d, x[13], S31, 0x289b7ec6); q := StepThree(q, x, 40, 13, S31, 0x289b7ec6);
    d := HH(d, a, b, c, x[0], S32, 0xeaa127fa); q := StepThree(q, x, 41, 0, S32, 0xeaa127fa);
    c := HH(c, d, a, b, x[3], S33, 0xd4ef3085); q := StepThree(q, x, 42, 3, S33, 0xd4ef3085);
    b := HH(b, c, d, a, x[6], S34, 0x04881d05); q := StepThree(q, x, 43, 6, S34, 0x04881d05);
    a := HH(a, b, c, d, x[9], S31, 0xd9d4d039); q := StepThree(q, x, 44, 9, S31, 0xd9d4d039);
    d := HH(d, a, b, c, x[12], S32, 0xe6db99e5); q := StepThree(q, x, 45, 12, S32, 0xe6db99e5);
    c := HH(c, d, a, b, x[15], S33, 0x1fa27cf8); q := StepThree(q, x, 46, 15, S33, 0x1fa27cf8);
    b := HH(b, c, d, a, x[2], S34, 0xc4ac5665); q := StepThree(q, x, 47, 2, S34, 0xc4ac5665);
    OpsNone(q, x);
    return Quad(a, b, c, d);
  }

  method RoundFour(q0: Quad, x: Block) returns (r: Quad)
    ensures r == Ops(q0, x, 48, 64)
  {
    hide FF, GG, HH, II, Op, Ops;
    var a, b, c, d := q0.a, q0.b, q0.c, q0.d;
    ghost var q := q0;
    a := II(a, b, c, d, x[0], S41, 0xf4292244); q := StepFour(q, x, 48, 0, S41, 0xf4292244);
    d := II(d, a, b, c, x[7], S42, 0x432aff97); q := StepFour(q, x, 49, 7, S42, 0x432aff97);
    c := II(c, d, a, b, x[14], S43, 0xab9423a7); q := StepFour(q, x, 50, 14, S43, 0xab9423a7);
    b := II(b, c, d, a, x[5], S44, 0xfc93a039); q := StepFour(q, x, 51, 5, S44, 0xfc93a039);
    a := II(a, b, c, d, x[12], S41, 0x655b59c3); q := StepFour(q, x, 52, 12, S41, 0x655b59c3);
    d := II(d, a, b, c, x[3], S42, 0x8f0ccc92); q := StepFour(q, x, 53, 3, S42, 0x8f0ccc92);
    c := II(c, d, a, b, x[10], S43, 0xffeff47d); q := StepFour(q, x, 54, 10, S43, 0xffeff47d);
    b := II(b, c, d, a, x[1], S44, 0x85845dd1); q := StepFour(q, x, 55, 1, S44, 0x85845dd1);
    a := II(a, b, c, d, x[8], S41, 0x6fa87e4f); q := StepFour(q, x, 56, 8, S41, 0x6fa87e4f);
    d := II(d, a, b, c, x[15], S42, 0xfe2ce6e0); q := StepFour(q, x, 57, 15, S42, 0xfe2ce6e0);
    c := II(c, d, a, b, x[6], S43, 0xa3014314); q := StepFour(q, x, 58, 6, S43, 0xa3014314);
    b := II(b, c, d, a, x[13], S44, 0x4e0811a1); q := StepFour(q, x, 59, 13, S44, 0x4e0811a1);
    a := II(a, b, c, d, x[4], S41, 0xf7537e82); q := StepFour(q, x, 60, 4, S41, 0xf7537e82);
    d := II(d, a, b, c, x[11], S42, 0xbd3af235); q := StepFour(q, x, 61, 11, S42, 0xbd3af235);
    c := II(c, d, a, b, x[2], S43, 0x2ad7d2bb); q := StepFour(q, x, 62, 2, S43, 0x2ad7d2bb);
    b := II(b, c, d, a, x[9], S44, 0xeb86d391); q := StepFour(q, x, 63, 9, S44, 0xeb86d391);
    OpsNone(q, x);
    return Quad(a, b, c, d);
  }

  // ---------- bytes and words, least significant byte first ----------

  ghost function WordBytes(w: word): (bs: seq<byte>)
    ensures |bs| == 4
  {
    [w % 0x100, w / 0x100 % 0x100, w / 0x1_0000 % 0x100, w / 0x100_0000]
  }

  function BytesWord(b0: byte, b1: byte, b2: byte, b3: byte): word {
    b0 + 0x100 * b1 + 0x1_0000 * b2 + 0x100_0000 * b3
  }

  lemma WordRoundTrip(w: word)
    ensures var bs := WordBytes(w); BytesWord(bs[0], bs[1], bs[2], bs[3]) == w
  {
    assert w / 0x100 / 0x100 == w / 0x1_0000;
    assert w / 0x1_0000 / 0x100 == w / 0x100_0000;
  }

  ghost function Encoded(ws: seq<word>): (bs: seq<byte>)
    ensures |bs| == 4 * |ws|
  {
    if ws == [] then [] else Encoded(ws[..|ws| - 1]) + WordBytes(ws[|ws| - 1])
  }

  ghost function Decoded(bs: seq<byte>): (ws: seq<word>)
    requires |bs| % 4 == 0
    ensures |ws| == |bs| / 4
  {
    if bs == [] then [] else
      var n := |bs| - 4;
      Decoded(bs[..n]) + [BytesWord(bs[n], bs[n + 1], bs[n + 2], bs[n + 3])]
  }

  lemma {:induction false} DecodedEncoded(ws: seq<word>)
    ensures Decoded(Encoded(ws)) == ws
  {
    if ws != [] {
      var w, front := ws[|ws| - 1], ws[..|ws| - 1];
      DecodedEncoded(front);
      WordRoundTrip(w);
      var bs := Encoded(ws);
      assert bs[..|bs| - 4] == Encoded(front);
      assert bs[|bs| - 4..] == WordBytes(w);
      assert front + [w] == ws;
    }
  }

  lemma EncodedMore(ws: seq<word>, i: nat)
    requires i <= |ws|
    ensures i == 0 ==> Encoded(ws[..i]) == []
    ensures i < |ws| ==> Encoded(ws[..i + 1]) == Encoded(ws[..i]) + WordBytes(ws[i])
    ensures i == |ws| ==> ws[..i] == ws
  {
    assert i < |ws| ==> ws[..i + 1][..i] == ws[..i];
  }

  lemma FourthByte(w: word)
    ensures WordBytes(w) == [w % 0x100, w / 0x100 % 0x100, w / 0x1_0000 % 0x100, w / 0x100_0000 % 0x100]
  {}

  method Encode(input: seq<word>) returns (output: seq<byte>)
    ensures output == Encoded(input)
  {
    hide Encoded, WordBytes;
    output := [];
    EncodedMore(input, 0);
    for i := 0 to |input|
      invariant output == Encoded(input[..i])
    {
      var w := input[i];
      EncodedMore(input, i);
      FourthByte(w);
      output := output + [w % 0x100, w / 0x100 % 0x100, w / 0x1_0000 % 0x100, w / 0x100_0000 % 0x100];
    }
    EncodedMore(input, |input|);
  }

  method Decode(input: seq<byte>) returns (output: seq<word>)
    requires |input| % 4 == 0
    ensures output == Decoded(input)
  {
    output := [];
    for i := 0 to |input| / 4
      invariant output == Decoded(input[..4 * i])
    {
      var j := 4 * i;
      output := output + [BytesWord(input[j], input[j + 1], input[j + 2], input[j + 3])];
      assert input[..j + 4][..j] == input[..j];
    }
    assert input[..|input|] == input;
  }

  // ---------- the digest of a message (RFC 1321, sections 3.1 to 3.5) ----------

  const INIT: Quad := Quad(0x67452301, 0xefcdab89, 0x98badcfe, 0x10325476)

  function PlusQuad(p: Quad, q: Quad): Quad {
    Quad(Add(p.a, q.a), Add(p.b, q.b), Add(p.c, q.c), Add(p.d, q.d))
  }

  ghost function Compress(q: Quad, block: seq<byte>): Quad
    requires |block| == 64
  {
    PlusQuad(q, Ops(q, Decoded(block), 0, 64))
  }

  // The state after as many whole blocks as the bytes hold.
  ghost function Digest(q: Quad, bytes: seq<byte>): Quad
    decreases |bytes|
  {
    if |bytes| < 64 then q else Digest(Compress(q, bytes[..64]), bytes[64..])
  }

  lemma {:induction false} DigestAppend(q: Quad, a: seq<byte>, b: seq<byte>)
    requires |a| % 64 == 0
    ensures Digest(q, a + b) == Digest(Digest(q, a), b)
    decreases |a|
  {
    hide Compress;
    if a == [] {
      assert a + b == b;
    } else {
      DigestAppend(Compress(q, a[..64]), a[64..], b);
      assert (a + b)[..64] == a[..64] && (a + b)[64..] == a[64..] + b;
    }
  }

  ghost function Zeros(n: nat): (z: seq<byte>)
    ensures |z| == n
  {
    seq(n, _ => 0)
  }

  // The length in bits, modulo 2^64, low-order word first.
  ghost function LengthBytes(n: nat): seq<byte> {
    Encoded([8 * n % WORD, 8 * n / WORD % WORD])
  }

  // One bit, as few zero bits as it takes to come to 56 bytes modulo 64, and the length.
  ghost predicate IsPadded(message: seq<byte>, padded: seq<byte>) {
    exists z: nat :: z < 64 && padded == Padded(message, z) && |padded| % 64 == 0
  }

  ghost function Padded(message: seq<byte>, z: nat): seq<byte> {
    message + [0x80] + Zeros(z) + LengthBytes(|message|)
  }

  lemma PaddedOnce(message: seq<byte>, p: seq<byte>, q: seq<byte>)
    requires IsPadded(message, p) && IsPadded(message, q)
    ensures p == q
  {
    var y: nat :| y < 64 && p == Padded(message, y) && |p| % 64 == 0;
    var z: nat :| z < 64 && q == Padded(message, z) && |q| % 64 == 0;
    hide Encoded;
    assert |p| == |message| + y + 9 && |q| == |message| + z + 9;
    assert |p| - |q| == 64 * (|p| / 64 - |q| / 64);
  }

  ghost predicate IsDigest(message: seq<byte>, digest: seq<byte>) {
    exists padded :: IsPadded(message, padded) && digest == QuadBytes(Digest(INIT, padded))
  }

  ghost function QuadBytes(q: Quad): seq<byte> {
    Encoded([q.a, q.b, q.c, q.d])
  }

  lemma {:induction false} DigestBlock(m: seq<byte>, p: nat)
    requires p % 64 == 0 && p + 64 <= |m|
    ensures Digest(INIT, m[..p + 64]) == Compress(Digest(INIT, m[..p]), m[p..p + 64])
  {
    hide Compress;
    var b := m[p..p + 64];
    assert m[..p + 64] == m[..p] + b;
    DigestAppend(INIT, m[..p], b);
    assert b[..64] == b && b[64..] == [];
  }

  // ---------- the bit counter ----------

  ghost predicate Counts(c0: word, c1: word, n: nat) {
    c0 + WORD * c1 == 8 * n % (WORD * WORD)
  }

  lemma CountIndex(c0: word, c1: word, n: nat)
    requires Counts(c0, c1, n)
    ensures c0 == 8 * n % WORD && c1 == 8 * n / WORD % WORD && c0 / 8 % 64 == n % 64
  {
    var k := 8 * n / (WORD * WORD);
    assert 8 * n == k * (WORD * WORD) + 8 * n % (WORD * WORD);
    assert 8 * n == WORD * (k * WORD + c1) + c0;
    SplitWord(k * WORD + c1, c0, 8 * n);
    SplitWord(k, c1, 8 * n / WORD);
    var j := 8 * n / WORD;
    assert c0 == 8 * (n - j * (WORD / 8));
    assert c0 / 8 == n - 64 * (j * (WORD / 8 / 64));
    Split64(n, j * (WORD / 8 / 64));
  }

  lemma SplitWord(q: nat, r: nat, n: nat)
    requires n == WORD * q + r && 0 <= r < WORD
    ensures n / WORD == q && n % WORD == r
  {}

  lemma SplitTwo(q: nat, r: nat, n: nat)
    requires n == (WORD * WORD) * q + r && 0 <= r < WORD * WORD
    ensures n / (WORD * WORD) == q && n % (WORD * WORD) == r
  {}

  lemma Split64(n: nat, k: nat)
    requires 64 * k <= n
    ensures (n - 64 * k) % 64 == n % 64
  {}

  lemma CarriedOver(c1: word, carry: nat, high: nat)
    requires carry <= 1
    ensures ((if carry == 1 then (c1 + 1) % WORD else c1) + high) % WORD == (c1 + carry + high) % WORD
  {
    if carry == 1 && c1 == WORD - 1 {
      assert (c1 + 1 + high) % WORD == high % WORD;
    }
  }

  // The carry out of the low word is recognised by the sum being smaller than what was added.
  lemma CountAdds(c0: word, c1: word, n: nat, l: word, d0: word, d1: word)
    requires Counts(c0, c1, n)
    requires d0 == (c0 + 8 * l % WORD) % WORD
    requires d1 == (c1 + (if d0 < 8 * l % WORD then 1 else 0) + l / 0x2000_0000) % WORD
    ensures Counts(d0, d1, n + l)
  {
    var low, high, carry := 8 * l % WORD, l / 0x2000_0000, if d0 < 8 * l % WORD then 1 else 0;
    assert 8 * l == low + WORD * high;
    assert c0 + low == d0 + WORD * carry;
    var top := c1 + carry + high;
    assert d0 + WORD * top == c0 + WORD * c1 + 8 * l;
    var k := 8 * n / (WORD * WORD);
    assert 8 * n == k * (WORD * WORD) + (c0 + WORD * c1);
    var t := top / WORD;
    assert top == t * WORD + d1;
    assert 8 * (n + l) == (k + t) * (WORD * WORD) + (d0 + WORD * d1);
    SplitTwo(k + t, d0 + WORD * d1, 8 * (n + l));
  }

  // The loop over whole blocks tests i + 63 < inputLen in 32 bits.  After the buffer has been
  // filled up, i is 64 - index plus a multiple of 64; the sum wraps around, and the loop goes
  // on past the end of the input, exactly when buffer and input together reach 2^32 bytes.
  function BlockStart(index: nat, k: nat): int {
    64 * (k + 1) - index
  }

  ghost predicate GuardSound(index: nat, inputLen: word) {
    forall k: nat :: BlockStart(index, k) <= inputLen && (BlockStart(index, k) + 63) % WORD < inputLen
                     ==> BlockStart(index, k) + 64 <= inputLen
  }

  predicate Fits(index: nat, inputLen: nat) {
    inputLen < WORD && (index == 0 || index + inputLen < WORD)
  }

  lemma GuardSoundIffFits(index: nat, inputLen: word)
    requires index < 64
    ensures GuardSound(index, inputLen) <==> Fits(index, inputLen)
  {
    if index != 0 && index + inputLen >= WORD {
      assert BlockStart(index, WORD / 64 - 1) == WORD - index;
      assert (WORD - index + 63) % WORD == 63 - index;
    }
  }

  lemma StillInside(index: nat, inputLen: word, k: nat)
    requires GuardSound(index, inputLen)
    requires 0 <= BlockStart(index, k) <= inputLen && (BlockStart(index, k) + 63) % WORD < inputLen
    ensures BlockStart(index, k) + 64 == BlockStart(index, k + 1) <= inputLen
  {}

  lemma BlocksEnd(n: nat, index: nat, k: nat)
    requires index == n % 64
    ensures (n + BlockStart(index, k)) % 64 == 0
  {
    assert n + BlockStart(index, k) == 64 * (n / 64 + k + 1);
  }

  // 63 bytes, then the longest piece there is: the last block taken starts 62 bytes before its end.
  lemma GuardFails()
    ensures !GuardSound(63, WORD - 1)
    ensures var i := BlockStart(63, 0x3ff_ffff); i <= WORD - 1 && (i + 63) % WORD < WORD - 1 && i + 64 > WORD - 1
  {
    GuardSoundIffFits(63, WORD - 1);
  }

  // ---------- the transformation context ----------

  ghost function QuadOf(s: seq<word>): Quad
    requires |s| == 4
  {
    Quad(s[0], s[1], s[2], s[3])
  }

  // The bytes of m that fill no whole block yet start here.
  ghost function Tail(m: seq<byte>): (n: nat)
    ensures n <= |m| < n + 64 && n % 64 == 0
  {
    |m| / 64 * 64
  }

  method CopyInto(dst: array<byte>, at: nat, src: seq<byte>)
    requires at + |src| <= dst.Length
    modifies dst
    ensures dst[at..at + |src|] == src && dst[..at] == old(dst[..at])
  {
    for i := 0 to |src|
      invariant forall k :: 0 <= k < i ==> dst[at + k] == src[k]
      invariant forall k :: 0 <= k < at ==> dst[k] == old(dst[k])
    {
      dst[at + i] := src[i];
    }
  }

  method Transform(state: array<word>, block: seq<byte>)
    requires state.Length == 4 && |block| == 64
    modifies state
    ensures QuadOf(state[..]) == Compress(old(QuadOf(state[..])), block)
  {
    hide Ops, T, X, S, Op, Add;
    var x := Decode(block);
    var q0 := Quad(state[0], state[1], state[2], state[3]);
    var q1 := RoundOne(q0, x);
    var q2 := RoundTwo(q1, x);
    var q3 := RoundThree(q2, x);
    var q4 := RoundFour(q3, x);
    OpsSplit(q0, x, 0, 16, 64);
    OpsSplit(q1, x, 16, 32, 64);
    OpsSplit(q2, x, 32, 48, 64);
    state[0] := Add(state[0], q4.a);
    state[1] := Add(state[1], q4.b);
    state[2] := Add(state[2], q4.c);
    state[3] := Add(state[3], q4.d);
  }

  class Md5Ctx {
    const state: array<word>
    const count: array<word>
    const buffer: array<byte>
    // Everything the context has been given.
    ghost var message: seq<byte>

    ghost predicate Valid()
      reads this, state, count, buffer
    {
      && state.Length == 4 && count.Length == 2 && buffer.Length == 64 && state != count
      && Counts(count[0], count[1], |message|)
      && QuadOf(state[..]) == Digest(INIT, message[..Tail(message)])
      && buffer[..|message| - Tail(message)] == message[Tail(message)..]
    }

    constructor ()
      ensures Valid() && message == [] && fresh(state) && fresh(count) && fresh(buffer)
    {
      state := new word[4];
      count := new word[2];
      buffer := new byte[64];
      message := [];
      new;
      count[0], count[1] := 0, 0;
      state[0], state[1], state[2], state[3] := 0x67452301, 0xefcdab89, 0x98badcfe, 0x10325476;
    }
  
    method AddCount(inputLen: word)
      requires count.Length == 2 && count != state && Counts(count[0], count[1], |message|)
      modifies count
      ensures Counts(count[0], count[1], |message| + inputLen)
    {
      hide Counts;
      ghost var c0, c1 := count[0], count[1];
      var low := 8 * inputLen % WORD;
      count[0] := (count[0] + low) % WORD;
      if count[0] < low {
        count[1] := (count[1] + 1) % WORD;
      }
      count[1] := (count[1] + inputLen / 0x2000_0000) % WORD;
      CarriedOver(c1, if count[0] < low then 1 else 0, inputLen / 0x2000_0000);
      CountAdds(c0, c1, |message|, inputLen, count[0], count[1]);
    }

    // Completes the buffer and transforms it.
    method FirstBlock(input: seq<byte>, index: nat) returns (partLen: nat)
      requires state.Length == 4 && buffer.Length == 64 && index == |message| % 64 && 64 - index <= |input|
      requires QuadOf(state[..]) == Digest(INIT, message[..Tail(message)])
      requires buffer[..index] == message[Tail(message)..]
      modifies state, buffer
      ensures partLen == 64 - index
      ensures QuadOf(state[..]) == Digest(INIT, (message + input)[..|message| + partLen])
    {
      hide Digest, Compress;
      ghost var m, n := message + input, |message|;
      partLen := 64 - index;
      CopyInto(buffer, index, input[..partLen]);
      assert m[..n - index] == message[..Tail(message)];
      assert buffer[..] == buffer[..index] + buffer[index..64];
      assert buffer[..] == m[n - index..n - index + 64];
      DigestBlock(m, n - index);
      Transform(state, buffer[..]);
    }

    // Transforms the block of the input that begins at i.
    method OneBlock(input: seq<byte>, i: nat)
      requires state.Length == 4 && i + 64 <= |input| && (|message| + i) % 64 == 0
      requires QuadOf(state[..]) == Digest(INIT, (message + input)[..|message| + i])
      modifies state
      ensures QuadOf(state[..]) == Digest(INIT, (message + input)[..|message| + i + 64])
    {
      hide Digest, Compress;
      ghost var m, n := message + input, |message|;
      assert input[i..i + 64] == m[n + i..n + i + 64];
      DigestBlock(m, n + i);
      Transform(state, input[i..i + 64]);
    }

    // Completes the buffer and transforms as many whole blocks as there are.
    method Blocks(input: seq<byte>, index: nat) returns (i: nat)
      requires state.Length == 4 && count.Length == 2 && buffer.Length == 64 && index == |message| % 64
      requires |input| < WORD && 64 - index <= |input| && GuardSound(index, |input|)
      requires QuadOf(state[..]) == Digest(INIT, message[..Tail(message)])
      requires buffer[..index] == message[Tail(message)..]
      modifies state, buffer
      ensures i <= |input| < i + 64 && (|message| + i) % 64 == 0
      ensures QuadOf(state[..]) == Digest(INIT, (message + input)[..|message| + i])
    {
      hide Digest, Compress, GuardSound;
      i := FirstBlock(input, index);
      ghost var k := 0;
      while (i + 63) % WORD < |input|
        invariant i == BlockStart(index, k) <= |input| &&
            QuadOf(state[..]) == Digest(INIT, (message + input)[..|message| + i])
        decreases |input| - i
      {
        StillInside(index, |input|, k);
        BlocksEnd(|message|, index, k);
        OneBlock(input, i);
        i, k := i + 64, k + 1;
      }
      BlocksEnd(|message|, index, k);
    }

    // Buffers what fills no whole block, from p on.
    method KeepTail(rest: seq<byte>, index: nat, ghost m: seq<byte>, ghost p: nat)
      requires state.Length == 4 && count.Length == 2 && buffer.Length == 64 && state != count
      requires p <= |m| < p + 64 && p % 64 == 0 && index + |rest| == |m| - p && buffer[..index] + rest == m[p..]
      requires QuadOf(state[..]) == Digest(INIT, m[..p]) && Counts(count[0], count[1], |m|)
      modifies this`message, buffer
      ensures Valid() && message == m
    {
      hide Digest, Counts;
      CopyInto(buffer, index, rest);
      message := m;
      assert Tail(m) == p;
      assert buffer[..|m| - p] == buffer[..index] + buffer[index..index + |rest|];
    }

    // Takes in the next piece of the message.  The precondition is what keeps the loop over
    // whole blocks inside the input (GuardSoundIffFits).
    method Update(input: seq<byte>)
      requires Valid() && |input| < WORD && GuardSound(|message| % 64, |input|)
      modifies this`message, state, count, buffer
      ensures Valid() && message == old(message) + input
    {
      hide Digest, Compress, Counts, GuardSound;
      if |input| != 0 {
        ghost var m, n := message + input, |message|;
        CountIndex(count[0], count[1], n);
        var index := count[0] / 8 % 64;
        AddCount(|input|);
        var partLen := 64 - index;
        var i := 0;
        if |input| >= partLen {
          i := Blocks(input, index);
          index := 0;
        } else {
          assert m[..n - index] == message[..Tail(message)];
        }
        assert buffer[..index] + input[i..] == m[n + i - index..];
        KeepTail(input[i..], index, m, n + i - index);
      } else {
        assert message + input == message;
      }
    }
  
    // The digest, after which nothing is left.
    method Final() returns (digest: seq<byte>)
      requires Valid()
      modifies this`message, state, count, buffer
      ensures IsDigest(old(message), digest) && |digest| == 16 && Wiped()
    {
      hide IsDigest;
      digest := ReadOff();
      Zeroize();
    }

    // Takes in the padding and reads off the state.
    method ReadOff() returns (digest: seq<byte>)
      requires Valid()
      modifies this`message, state, count, buffer
      ensures IsDigest(old(message), digest) && |digest| == 16
    {
      hide Digest, Counts, Encoded;
      ghost var m := message;
      ghost var z := Pad();
      WholeBlocks(message);
      digest := Encode(state[..]);
      PaddedDigest(m, message, z, state[..], digest);
    }

    // Pads the message; the length that goes in last is that before padding.
    method Pad() returns (ghost z: nat)
      requires Valid()
      modifies this`message, state, count, buffer
      ensures Valid() && z < 64 && message == Padded(old(message), z) && |message| % 64 == 0
    {
      hide Digest, Counts, GuardSound, LengthBytes, Encoded;
      ghost var m := message;
      var bits := Encode(count[..]);
      CountIndex(count[0], count[1], |m|);
      LengthOf(count[..], |m|);
      var index := count[0] / 8 % 64;
      var padLen := if index < 56 then 56 - index else 120 - index;
      GuardSoundIffFits(index, padLen);
      Update(PADDING[..padLen]);
      PaddingIs(padLen);
      GuardSoundIffFits(|message| % 64, 8);
      Update(bits);
      z := padLen - 1;
      assert message == Padded(m, z);
      PadLength(m, padLen);
    }

    static lemma LengthOf(count: seq<word>, n: nat)
      requires |count| == 2 && count[0] == 8 * n % WORD && count[1] == 8 * n / WORD % WORD
      ensures Encoded(count) == LengthBytes(n) && |Encoded(count)| == 8
    {
      assert count == [8 * n % WORD, 8 * n / WORD % WORD];
    }

    static lemma PadLength(m: seq<byte>, padLen: nat)
      requires var index := |m| % 64; padLen == if index < 56 then 56 - index else 120 - index
      ensures 0 < padLen <= 64 && |Padded(m, padLen - 1)| % 64 == 0
    {
      assert |Padded(m, padLen - 1)| == |m| + padLen + 8;
      assert |Padded(m, padLen - 1)| == 64 * (|m| / 64 + if |m| % 64 < 56 then 1 else 2);
    }

    static lemma PaddingIs(k: nat)
      requires 0 < k <= 64
      ensures PADDING[..k] == [0x80] + Zeros(k - 1)
    {}

    static lemma WholeBlocks(m: seq<byte>)
      requires |m| % 64 == 0
      ensures m[..Tail(m)] == m
    {}

    static lemma PaddedDigest(m: seq<byte>, padded: seq<byte>, z: nat, s: seq<word>, digest: seq<byte>)
      requires z < 64 && padded == Padded(m, z) && |padded| % 64 == 0
      requires |s| == 4 && QuadOf(s) == Digest(INIT, padded) && digest == Encoded(s)
      ensures IsDigest(m, digest)
    {
      assert IsPadded(m, padded);
      assert s == [s[0], s[1], s[2], s[3]];
    }

    // Nothing of the message is left in the context.
    ghost predicate Wiped()
      reads state, count, buffer
    {
      && (forall i :: 0 <= i < state.Length ==> state[i] == 0)
      && (forall i :: 0 <= i < count.Length ==> count[i] == 0)
      && forall i :: 0 <= i < buffer.Length ==> buffer[i] == 0
    }

    // memset (context, 0, sizeof (*context))
    method Zeroize()
      requires state.Length == 4 && count.Length == 2 && buffer.Length == 64
      modifies state, count, buffer
      ensures Wiped()
    {
      state[0], state[1], state[2], state[3] := 0, 0, 0, 0;
      count[0], count[1] := 0, 0;
      forall i | 0 <= i < 64 {
        buffer[i] := 0;
      }
    }
  }

  const PADDING: seq<byte> := [0x80] + seq(63, _ => 0)

  lemma DigestOnce(message: seq<byte>, d: seq<byte>, e: seq<byte>)
    requires IsDigest(message, d) && IsDigest(message, e)
    ensures d == e
  {
    var p :| IsPadded(message, p) && d == QuadBytes(Digest(INIT, p));
    var q :| IsPadded(message, q) && e == QuadBytes(Digest(INIT, q));
    PaddedOnce(message, p, q);
  }

  ghost function Joined(pieces: seq<seq<byte>>): seq<byte> {
    if pieces == [] then [] else Joined(pieces[..|pieces| - 1]) + pieces[|pieces| - 1]
  }

  // However a message is cut into pieces, the digest is that of the whole.
  method HashPieces(pieces: seq<seq<byte>>) returns (digest: seq<byte>)
    requires forall i :: 0 <= i < |pieces| ==> Fits(|Joined(pieces[..i])| % 64, |pieces[i]|)
    ensures IsDigest(Joined(pieces), digest) && |digest| == 16
  {
    hide IsDigest, GuardSound;
    var ctx := new Md5Ctx();
    for i := 0 to |pieces|
      invariant ctx.Valid() && ctx.message == Joined(pieces[..i])
      invariant fresh(ctx) && fresh(ctx.state) && fresh(ctx.count) && fresh(ctx.buffer)
    {
      GuardSoundIffFits(|ctx.message| % 64, |pieces[i]|);
      ctx.Update(pieces[i]);
      assert pieces[..i + 1][..i] == pieces[..i];
    }
    assert pieces[..|pieces|] == pieces;
    digest := ctx.Final();
  }

  // ---------- the digest of the empty message (RFC 1321, section A.5) ----------

  function MixOf(i: Index, u: bv32, v: bv32, w: bv32): bv32 {
    if i < 16 then FOf(u, v, w) else if i < 32 then GOf(u, v, w) else if i < 48 then HOf(u, v, w) else JOf(u, v, w)
  }

  lemma MixedOf(i: Index, u: bv32, v: bv32, w: bv32)
    ensures Mix(i, u as int, v as int, w as int) == MixOf(i, u, v, w) as int
  {
    hide FOf, GOf, HOf, JOf, F, G, H, J;
    OnBits(u, v, w);
  }

  lemma OnBits(u: bv32, v: bv32, w: bv32)
    ensures F(u as int, v as int, w as int) == FOf(u, v, w) as int
    ensures G(u as int, v as int, w as int) == GOf(u, v, w) as int
    ensures H(u as int, v as int, w as int) == HOf(u, v, w) as int
    ensures J(u as int, v as int, w as int) == JOf(u, v, w) as int
  {
    hide FOf, GOf, HOf, JOf;
    BackToBits(u);
    BackToBits(v);
    BackToBits(w);
  }

  lemma RotatedOf(u: bv32, n: Shift)
    ensures RotateLeft(u as int, n) == Rotated(u, n) as int
  {
    hide Rotated;
    BackToBits(u);
  }

  lemma AddFour(a: word, b: word, c: word, d: word)
    ensures Add(Add(a, b), Add(c, d)) == (a + b + c + d) % WORD
  {}

  // One operation on bits: m is what the registers mix to, s the sum, and r the sum turned round.
  lemma OpOf(q: Quad, x: Block, i: Index, j: nat, b: bv32, c: bv32, d: bv32, m: bv32, s: bv32, r: bv32)
    returns (q': Quad)
    requires i < j <= 64 && q.b == b as int && q.c == c as int && q.d == d as int && m == MixOf(i, b, c, d)
    requires s as int == (q.a + m as int + x[X(i)] + T(i)) % WORD && r == Rotated(s, S(i))
    ensures q' == Quad(q.d, (q.b + r as int) % WORD, q.b, q.c) && Ops(q, x, i, j) == Ops(q', x, i + 1, j)
  {
    hide Rotated, MixOf, Mix, RotateLeft, S, T, X;
    MixedOf(i, b, c, d);
    RotatedOf(s, S(i));
    AddFour(q.a, m as int, x[X(i)], T(i));
    q' := Op(i, q, x);
  }

  ghost function EmptyBlock(): Block {
    [0x80, 0, 0, 0, 0, 0, 0, 0, 0, 0, 0, 0, 0, 0, 0, 0]
  }

  lemma EmptyWords()
    ensures forall k :: 0 <= k < 16 ==> EmptyBlock()[k] == if k == 0 then 0x80 else 0
  {}

  lemma EmptyAfter4()
    ensures Ops(INIT, EmptyBlock(), 0, 4) == Quad(0xa5202774, 0x1b163203, 0xe7f06b23, 0xf59592dd)
  {
    hide RotateLeft, Mix, Op, Ops, EmptyBlock;
    EmptyWords();
    var x, q := EmptyBlock(), Quad(0x67452301, 0xefcdab89, 0x98badcfe, 0x10325476);
    q := OpOf(q, x, 0, 4, 0xefcdab89, 0x98badcfe, 0x10325476, 0x98badcfe, 0xd76aa4f7, 0xb5527beb);
    q := OpOf(q, x, 1, 4, 0xa5202774, 0xefcdab89, 0x98badcfe, 0xbd9afb8a, 0xb6950756, 0x50756b69);
    q := OpOf(q, x, 2, 4, 0xf59592dd, 0xa5202774, 0xefcdab89, 0xaf482b54, 0x6c23792d, 0xf25ad846);
    q := OpOf(q, x, 3, 4, 0xe7f06b23, 0xf59592dd, 0xa5202774, 0xe5900655, 0x971b80cc, 0x3325c6e0);
    NoOps(q, x, 4);
  }

  lemma EmptyAfter8()
    ensures Ops(INIT, EmptyBlock(), 0, 8) == Quad(0x32033344, 0x9bc13ce9, 0xf5b158db, 0x2f35d494)
  {
    hide RotateLeft, Mix, Op, Ops, EmptyBlock;
    EmptyWords();
    EmptyAfter4();
    OpsSplit(INIT, EmptyBlock(), 0, 4, 8);
    var x, q := EmptyBlock(), Quad(0xa5202774, 0x1b163203, 0xe7f06b23, 0xf59592dd);
    q := OpOf(q, x, 4, 8, 0x1b163203, 0xe7f06b23, 0xf59592dd, 0xe791a2df, 0x822dda02, 0x16ed0141);
    q := OpOf(q, x, 5, 8, 0x32033344, 0x1b163203, 0xe7f06b23, 0xd7f27a23, 0x150fd32a, 0xfd32a150);
    q := OpOf(q, x, 6, 8, 0x2f35d494, 0x32033344, 0x1b163203, 0x32033207, 0xc223e33d, 0xc67b8447);
    q := OpOf(q, x, 7, 8, 0xf5b158db, 0x2f35d494, 0x32033344, 0x27337394, 0x3f903a98, 0xa60fe40e);
    NoOps(q, x, 8);
  }

  lemma EmptyAfter12()
    ensures Ops(INIT, EmptyBlock(), 0, 12) == Quad(0x3893b991, 0x70768a29, 0xe1ef0576, 0xfce4a312)
  {
    hide RotateLeft, Mix, Op, Ops, EmptyBlock;
    EmptyWords();
    EmptyAfter8();
    OpsSplit(INIT, EmptyBlock(), 0, 8, 12);
    var x, q := EmptyBlock(), Quad(0x32033344, 0x9bc13ce9, 0xf5b158db, 0x2f35d494);
    q := OpOf(q, x, 8, 12, 0x9bc13ce9, 0xf5b158db, 0x2f35d494, 0xb5b5d8dd, 0x5139a4f9, 0x9cd27ca8);
    q := OpOf(q, x, 9, 12, 0x3893b991, 0x9bc13ce9, 0xf5b158db, 0xdda178cb, 0x981c450e, 0xc450e981);
    q := OpOf(q, x, 10, 12, 0xfce4a312, 0x3893b991, 0x9bc13ce9, 0x3b81bdf9, 0x31327285, 0xe50a6264);
    q := OpOf(q, x, 11, 12, 0xe1ef0576, 0xfce4a312, 0x3893b991, 0xf8f4b993, 0x1e12ce3a, 0x8e8784b3);
    NoOps(q, x, 12);
  }

  lemma EmptyAfter16()
    ensures Ops(INIT, EmptyBlock(), 0, 16) == Quad(0xf56c7cf1, 0xd6819c6a, 0x5aa53f75, 0x374943a7)
  {
    hide RotateLeft, Mix, Op, Ops, EmptyBlock;
    EmptyWords();
    EmptyAfter12();
    OpsSplit(INIT, EmptyBlock(), 0, 12, 16);
    var x, q := EmptyBlock(), Quad(0x3893b991, 0x70768a29, 0xe1ef0576, 0xfce4a312);
    q := OpOf(q, x, 12, 16, 0x70768a29, 0xe1ef0576, 0xfce4a312, 0xece62132, 0x9109ebe5, 0x84f5f2c8);
    q := OpOf(q, x, 13, 16, 0xf56c7cf1, 0x70768a29, 0xe1ef0576, 0x70e70927, 0x6b641dcc, 0x41dcc6b6);
    q := OpOf(q, x, 14, 16, 0x374943a7, 0xf56c7cf1, 0x70768a29, 0x757ec8a9, 0xfde711ad, 0x235bfbce);
    q := OpOf(q, x, 15, 16, 0x5aa53f75, 0x374943a7, 0xf56c7cf1, 0xb74943a5, 0x7173d5ef, 0x7bdc5cf5);
    NoOps(q, x, 16);
  }

  lemma EmptyAfter20()
    ensures Ops(INIT, EmptyBlock(), 0, 20) == Quad(0x1c7d7513, 0xbd782e17, 0xc095f13a, 0x7bd57a3a)
  {
    hide RotateLeft, Mix, Op, Ops, EmptyBlock;
    EmptyWords();
    EmptyAfter16();
    OpsSplit(INIT, EmptyBlock(), 0, 16, 20);
    var x, q := EmptyBlock(), Quad(0xf56c7cf1, 0xd6819c6a, 0x5aa53f75, 0x374943a7);
    q := OpOf(q, x, 16, 20, 0xd6819c6a, 0x5aa53f75, 0x374943a7, 0x5ea53c72, 0x4a2fdec5, 0x45fbd8a9);
    q := OpOf(q, x, 17, 20, 0x1c7d7513, 0xd6819c6a, 0x5aa53f75, 0x9c25b51b, 0x93afac02, 0x5f580527);
    q := OpOf(q, x, 18, 20, 0x7bd57a3a, 0x1c7d7513, 0xd6819c6a, 0x5afd793b, 0xdc011301, 0x44c07700);
    q := OpOf(q, x, 19, 20, 0xc095f13a, 0x7bd57a3a, 0x1c7d7513, 0x63957b3a, 0x23cddfce, 0xfce23cdd);
    NoOps(q, x, 20);
  }

  lemma EmptyAfter24()
    ensures Ops(INIT, EmptyBlock(), 0, 24) == Quad(0x3d1e3e6c, 0xe422531a, 0xeb41643e, 0x68b7b3e3)
  {
    hide RotateLeft, Mix, Op, Ops, EmptyBlock;
    EmptyWords();
    EmptyAfter20();
    OpsSplit(INIT, EmptyBlock(), 0, 20, 24);
    var x, q := EmptyBlock(), Quad(0x1c7d7513, 0xbd782e17, 0xc095f13a, 0x7bd57a3a);
    q := OpOf(q, x, 20, 24, 0xbd782e17, 0xc095f13a, 0x7bd57a3a, 0xb950ab12, 0xabfd3082, 0x7fa61055);
    q := OpOf(q, x, 21, 24, 0x3d1e3e6c, 0xbd782e17, 0xc095f13a, 0x3d7c3e2d, 0xbb95ccba, 0x2b997577);
    q := OpOf(q, x, 22, 24, 0x68b7b3e3, 0x3d1e3e6c, 0xbd782e17, 0x2836326b, 0xc16e0a26, 0x8289b05b);
    q := OpOf(q, x, 23, 24, 0xeb41643e, 0x68b7b3e3, 0x3d1e3e6c, 0x69a1a5af, 0x0eedcf8e, 0xf8e0eedc);
    NoOps(q, x, 24);
  }

  lemma EmptyAfter28()
    ensures Ops(INIT, EmptyBlock(), 0, 28) == Quad(0x306ec122, 0xa0572807, 0xa3c663da, 0xd28c77c2)
  {
    hide RotateLeft, Mix, Op, Ops, EmptyBlock;
    EmptyWords();
    EmptyAfter24();
    OpsSplit(INIT, EmptyBlock(), 0, 24, 28);
    var x, q := EmptyBlock(), Quad(0x3d1e3e6c, 0xe422531a, 0xeb41643e, 0x68b7b3e3);
    q := OpOf(q, x, 24, 28, 0xe422531a, 0xeb41643e, 0x68b7b3e3, 0xe362571e, 0x42626370, 0x4c4c6e08);
    q := OpOf(q, x, 25, 28, 0x306ec122, 0xe422531a, 0xeb41643e, 0x24625322, 0x50510edb, 0xa21db6a0);
    q := OpOf(q, x, 26, 28, 0xd28c77c2, 0x306ec122, 0xe422531a, 0xd04cd322, 0xb06344e7, 0xd139ec18);
    q := OpOf(q, x, 27, 28, 0xa3c663da, 0xd28c77c2, 0x306ec122, 0xe2c677c2, 0x0c42dfc9, 0xfc90c42d);
    NoOps(q, x, 28);
  }

  lemma EmptyAfter32()
    ensures Ops(INIT, EmptyBlock(), 0, 32) == Quad(0x13707036, 0xa2205f1f, 0x1c31c384, 0xae7813db)
  {
    hide RotateLeft, Mix, Op, Ops, EmptyBlock;
    EmptyWords();
    EmptyAfter28();
    OpsSplit(INIT, EmptyBlock(), 0, 28, 32);
    var x, q := EmptyBlock(), Quad(0x306ec122, 0xa0572807, 0xa3c663da, 0xd28c77c2);
    q := OpOf(q, x, 28, 32, 0xa0572807, 0xa3c663da, 0xd28c77c2, 0xa146201a, 0x7b98ca41, 0x7319482f);
    q := OpOf(q, x, 29, 32, 0x13707036, 0xa0572807, 0xa3c663da, 0x03516817, 0xd2cd83d1, 0x9b07a3a5);
    q := OpOf(q, x, 30, 32, 0xae7813db, 0x13707036, 0xa0572807, 0xb3705033, 0xbea5b6e6, 0x6db9afa9);
    q := OpOf(q, x, 31, 32, 0x1c31c384, 0xae7813db, 0x13707036, 0xbc3843cd, 0xe9b9b85e, 0x85ee9b9b);
    NoOps(q, x, 32);
  }

  lemma EmptyAfter36()
    ensures Ops(INIT, EmptyBlock(), 0, 36) == Quad(0xdf63eaa1, 0x004b6669, 0x12f3e755, 0xc3689f5b)
  {
    hide RotateLeft, Mix, Op, Ops, EmptyBlock;
    EmptyWords();
    EmptyAfter32();
    OpsSplit(INIT, EmptyBlock(), 0, 32, 36);
    var x, q := EmptyBlock(), Quad(0x13707036, 0xa2205f1f, 0x1c31c384, 0xae7813db);
    q := OpOf(q, x, 32, 36, 0xa2205f1f, 0x1c31c384, 0xae7813db, 0x10698f40, 0x23d438b8, 0x3d438b82);
    q := OpOf(q, x, 33, 36, 0xdf63eaa1, 0xa2205f1f, 0x1c31c384, 0x6172763a, 0x975c8096, 0xe404b4ba);
    q := OpOf(q, x, 34, 36, 0xc3689f5b, 0xdf63eaa1, 0xa2205f1f, 0xbe2b2ae5, 0x47fa4f8b, 0x4f8b47fa);
    q := OpOf(q, x, 35, 36, 0x12f3e755, 0xc3689f5b, 0xdf63eaa1, 0x0ef892af, 0xaefe29da, 0xed577f14);
    NoOps(q, x, 36);
  }

  lemma EmptyAfter40()
    ensures Ops(INIT, EmptyBlock(), 0, 40) == Quad(0x5f7a9b2e, 0xc5dc8c15, 0x91ca4cb7, 0xabc34e16)
  {
    hide RotateLeft, Mix, Op, Ops, EmptyBlock;
    EmptyWords();
    EmptyAfter36();
    OpsSplit(INIT, EmptyBlock(), 0, 36, 40);
    var x, q := EmptyBlock(), Quad(0xdf63eaa1, 0x004b6669, 0x12f3e755, 0xc3689f5b);
    q := OpOf(q, x, 36, 40, 0x004b6669, 0x12f3e755, 0xc3689f5b, 0xd1d01e67, 0x55f2f34c, 0x5f2f34c5);
    q := OpOf(q, x, 37, 40, 0x5f7a9b2e, 0x004b6669, 0x12f3e755, 0x4dc21a12, 0x5d098916, 0x4c48b2e8);
    q := OpOf(q, x, 38, 40, 0xabc34e16, 0x5f7a9b2e, 0x004b6669, 0xf4f2b351, 0xfea1e606, 0xe606fea1);
    q := OpOf(q, x, 39, 40, 0x91ca4cb7, 0xabc34e16, 0x5f7a9b2e, 0x6573998f, 0x247ebc68, 0x34123f5e);
    NoOps(q, x, 40);
  }

  lemma EmptyAfter44()
    ensures Ops(INIT, EmptyBlock(), 0, 44) == Quad(0x4497169d, 0x0fe32453, 0xfd95f243, 0x76fd93d4)
  {
    hide RotateLeft, Mix, Op, Ops, EmptyBlock;
    EmptyWords();
    EmptyAfter40();
    OpsSplit(INIT, EmptyBlock(), 0, 40, 44);
    var x, q := EmptyBlock(), Quad(0x5f7a9b2e, 0xc5dc8c15, 0x91ca4cb7, 0xabc34e16);
    q := OpOf(q, x, 40, 44, 0xc5dc8c15, 0x91ca4cb7, 0xabc34e16, 0xffd58eb4, 0x87eba8a8, 0x7eba8a88);
    q := OpOf(q, x, 41, 44, 0x4497169d, 0xc5dc8c15, 0x91ca4cb7, 0x1081d63f, 0xa6e64ccf, 0x32667d37);
    q := OpOf(q, x, 42, 44, 0x76fd93d4, 0x4497169d, 0xc5dc8c15, 0xf7b6095c, 0x5e6f8698, 0x86985e6f);
    q := OpOf(q, x, 43, 44, 0xfd95f243, 0x76fd93d4, 0x4497169d, 0xcfff770a, 0x9a642024, 0x124d3210);
    NoOps(q, x, 44);
  }

  lemma EmptyAfter48()
    ensures Ops(INIT, EmptyBlock(), 0, 48) == Quad(0x3f55edfd, 0xca7d2dbd, 0x68d84ea2, 0x22a31f54)
  {
    hide RotateLeft, Mix, Op, Ops, EmptyBlock;
    EmptyWords();
    EmptyAfter44();
    OpsSplit(INIT, EmptyBlock(), 0, 44, 48);
    var x, q := EmptyBlock(), Quad(0x4497169d, 0x0fe32453, 0xfd95f243, 0x76fd93d4);
    q := OpOf(q, x, 44, 48, 0x0fe32453, 0xfd95f243, 0x76fd93d4, 0x848b45c4, 0xa2f72c9a, 0x2f72c9aa);
    q := OpOf(q, x, 45, 48, 0x3f55edfd, 0x0fe32453, 0xfd95f243, 0xcd233bed, 0x2afc69a6, 0xe34d3157);
    q := OpOf(q, x, 46, 48, 0x22a31f54, 0x3f55edfd, 0x0fe32453, 0x1215d6fa, 0x2f4e4635, 0x46352f4e);
    q := OpOf(q, x, 47, 48, 0x68d84ea2, 0x22a31f54, 0x3f55edfd, 0x752ebc0b, 0x49be36c3, 0x61a4df1b);
    NoOps(q, x, 48);
  }

  lemma EmptyAfter52()
    ensures Ops(INIT, EmptyBlock(), 0, 52) == Quad(0x93aa2577, 0x561e0689, 0xcd85b8cb, 0x1688dc85)
  {
    hide RotateLeft, Mix, Op, Ops, EmptyBlock;
    EmptyWords();
    EmptyAfter48();
    OpsSplit(INIT, EmptyBlock(), 0, 48, 52);
    var x, q := EmptyBlock(), Quad(0x3f55edfd, 0xca7d2dbd, 0x68d84ea2, 0x22a31f54);
    q := OpOf(q, x, 48, 52, 0xca7d2dbd, 0x68d84ea2, 0x22a31f54, 0xb7a5a31d, 0xeb24b3de, 0xc92cf7ba);
    q := OpOf(q, x, 49, 52, 0x93aa2577, 0xca7d2dbd, 0x68d84ea2, 0x5dd298c2, 0xc3a0b7ad, 0x82deb70e);
    q := OpOf(q, x, 50, 52, 0x1688dc85, 0x93aa2577, 0xca7d2dbd, 0xa420fbb0, 0xb88d6df9, 0xb6fcdc46);
    q := OpOf(q, x, 51, 52, 0xcd85b8cb, 0x1688dc85, 0x93aa2577, 0xfb5d264e, 0xc26df444, 0x88984dbe);
    NoOps(q, x, 52);
  }

  lemma EmptyAfter56()
    ensures Ops(INIT, EmptyBlock(), 0, 56) == Quad(0x5625a114, 0x1e77fa61, 0x392ad0d0, 0x3450f42b)
  {
    hide RotateLeft, Mix, Op, Ops, EmptyBlock;
    EmptyWords();
    EmptyAfter52();
    OpsSplit(INIT, EmptyBlock(), 0, 52, 56);
    var x, q := EmptyBlock(), Quad(0x93aa2577, 0x561e0689, 0xcd85b8cb, 0x1688dc85);
    q := OpOf(q, x, 52, 56, 0x561e0689, 0xcd85b8cb, 0x1688dc85, 0x32fa9f30, 0x2c001e6a, 0x00079a8b);
    q := OpOf(q, x, 53, 56, 0x5625a114, 0x561e0689, 0xcd85b8cb, 0x2061e1bd, 0xc5f78ad4, 0xde2b5317);
    q := OpOf(q, x, 54, 56, 0x3450f42b, 0x5625a114, 0x561e0689, 0xebd45c6b, 0xb94a09b3, 0x04d9dca5);
    q := OpOf(q, x, 55, 56, 0x392ad0d0, 0x3450f42b, 0x5625a114, 0x8daa2ad0, 0x694c8f2a, 0xe54d2991);
    NoOps(q, x, 56);
  }

  lemma EmptyAfter60()
    ensures Ops(INIT, EmptyBlock(), 0, 60) == Quad(0x474a9c8c, 0x30130182, 0x36594b14, 0xdfce00bc)
  {
    hide RotateLeft, Mix, Op, Ops, EmptyBlock;
    EmptyWords();
    EmptyAfter56();
    OpsSplit(INIT, EmptyBlock(), 0, 56, 60);
    var x, q := EmptyBlock(), Quad(0x5625a114, 0x1e77fa61, 0x392ad0d0, 0x3450f42b);
    q := OpOf(q, x, 56, 60, 0x1e77fa61, 0x392ad0d0, 0x3450f42b, 0xe6d52b25, 0xaca34a88, 0x28d2a22b);
    q := OpOf(q, x, 57, 60, 0x474a9c8c, 0x1e77fa61, 0x392ad0d0, 0xd9a845ce, 0x0c2620d9, 0x98836430);
    q := OpOf(q, x, 58, 60, 0xdfce00bc, 0x474a9c8c, 0x1e77fa61, 0xb8849932, 0x94b0ad16, 0x568b4a58);
    q := OpOf(q, x, 59, 60, 0x36594b14, 0xdfce00bc, 0x474a9c8c, 0x61336bcb, 0xcdb377cd, 0xf9b9b66e);
    NoOps(q, x, 60);
  }

  lemma EmptyAfter64()
    ensures Ops(INIT, EmptyBlock(), 0, 64) == Quad(0x7246fad3, 0x14e45506, 0xff4ea3eb, 0x6e10a476)
  {
    hide RotateLeft, Mix, Op, Ops, EmptyBlock;
    EmptyWords();
    EmptyAfter60();
    OpsSplit(INIT, EmptyBlock(), 0, 60, 64);
    var x, q := EmptyBlock(), Quad(0x474a9c8c, 0x30130182, 0x36594b14, 0xdfce00bc);
    q := OpOf(q, x, 60, 64, 0x30130182, 0x36594b14, 0xdfce00bc, 0x066ab4d7, 0x4508cfe5, 0x4233f951);
    q := OpOf(q, x, 61, 64, 0x7246fad3, 0x30130182, 0x36594b14, 0xcbf5ff79, 0x68fef26a, 0xfbc9a9a3);
    q := OpOf(q, x, 62, 64, 0x6e10a476, 0x7246fad3, 0x30130182, 0x9dba04ac, 0xfeeb227b, 0x913dff75);
    q := OpOf(q, x, 63, 64, 0xff4ea3eb, 0x6e10a476, 0x7246fad3, 0x91ef0399, 0xad88d8ac, 0x1595b11b);
    NoOps(q, x, 64);
  }

  lemma NoOps(q: Quad, x: Block, i: nat)
    requires i <= 64
    ensures Ops(q, x, i, i) == q
  {}

  lemma EmptyCompressed()
    ensures Compress(INIT, Encoded(EmptyBlock())) ==
        Quad(0xd98c1dd4, 0x04b2008f, 0x980980e9, 0x7e42f8ec)
  {
    hide Op, Ops, Encoded, Decoded;
    DecodedEncoded(EmptyBlock());
    EmptyAfter64();
  }

  lemma {:induction false} EncodedZeros(n: nat)
    ensures Encoded(seq(n, _ => 0)) == Zeros(4 * n)
  {
    if n > 0 {
      EncodedZeros(n - 1);
      assert seq(n, _ => 0)[..n - 1] == seq(n - 1, _ => 0);
    }
  }

  lemma {:induction false} EncodedBefore(w: word, ws: seq<word>)
    ensures Encoded([w] + ws) == WordBytes(w) + Encoded(ws)
  {
    hide WordBytes;
    if ws == [] {
      assert [w] + ws == [w] && [w][..0] == [];
    } else {
      var front := ws[..|ws| - 1];
      EncodedBefore(w, front);
      assert ([w] + ws)[..|ws|] == [w] + front;
    }
  }

  lemma EmptyPadded()
    ensures Padded([], 55) == Encoded(EmptyBlock())
  {
    hide Encoded;
    EncodedZeros(15);
    EncodedZeros(2);
    EncodedBefore(0x80, seq(15, _ => 0));
    assert EmptyBlock() == [0x80] + seq(15, _ => 0);
    assert [0, 0] == seq(2, _ => 0);
  }

  lemma QuadBytesOf(q: Quad)
    ensures QuadBytes(q) == WordBytes(q.a) + WordBytes(q.b) + WordBytes(q.c) + WordBytes(q.d)
  {
    var ws := [q.a, q.b, q.c, q.d];
    hide WordBytes, Encoded;
    EncodedMore(ws, 0);
    EncodedMore(ws, 1);
    EncodedMore(ws, 2);
    EncodedMore(ws, 3);
    EncodedMore(ws, 4);
  }

  // d41d8cd98f00b204e9800998ecf8427e
  const EMPTY_DIGEST: seq<byte> :=
    [0xd4, 0x1d, 0x8c, 0xd9, 0x8f, 0x00, 0xb2, 0x04, 0xe9, 0x80, 0x09, 0x98, 0xec, 0xf8, 0x42, 0x7e]

  lemma EmptyBytes(q: Quad)
    requires q == Quad(0xd98c1dd4, 0x04b2008f, 0x980980e9, 0x7e42f8ec)
    ensures QuadBytes(q) == EMPTY_DIGEST
  {
    QuadBytesOf(q);
  }

  lemma EmptyDigest()
    ensures IsDigest([], EMPTY_DIGEST)
  {
    hide Compress, Encoded, QuadBytes;
    var p := Padded([], 55);
    EmptyPadded();
    EmptyCompressed();
    assert |p| == 64 && p[..64] == p && p[64..] == [];
    EmptyBytes(Digest(INIT, p));
    assert IsPadded([], p);
  }
}
