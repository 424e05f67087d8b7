/** neticmp.c: the Internet checksum of RFC 1071, and the echo request that carries it. */
module Checksum {

  type byte = b: int | 0 <= b < 0x100
  type u_short = w: int | 0 <= w < 0x1_0000

  const INT_LIMIT := 0x8000_0000
  const ICMP_ECHO := 8
  const ICMP_MINLEN := 8

  // Two bytes as the host loads them.
  function Word(b0: byte, b1: byte, big: bool): u_short {
    if big then 0x100 * b0 + b1 else b0 + 0x100 * b1
  }

  function FirstByte(w: u_short, big: bool): byte {
    if big then w / 0x100 else w % 0x100
  }

  function SecondByte(w: u_short, big: bool): byte {
    if big then w % 0x100 else w / 0x100
  }

  // The buffer with a word stored at k.
  function Store(s: seq<byte>, k: nat, w: u_short, big: bool): (t: seq<byte>)
    requires k + 1 < |s|
    ensures |t| == |s| && Word(t[k], t[k + 1], big) == w
    ensures forall i :: 0 <= i < |s| && i != k && i != k + 1 ==> t[i] == s[i]
  {
    var b0: byte, b1: byte := FirstByte(w, big), SecondByte(w, big);
    s[k := b0][k + 1 := b1]
  }

  // The words of a buffer added up; an odd last byte counts as a word with a zero behind it.
  function WordSum(s: seq<byte>, big: bool): nat {
    if s == [] then 0
    else if |s| == 1 then Word(s[0], 0, big)
    else Word(s[0], s[1], big) + WordSum(s[2..], big)
  }

  lemma {:induction false} SumWithin(s: seq<byte>, big: bool)
    ensures WordSum(s, big) <= 0xffff * (|s| / 2) + if |s| % 2 == 0 then 0 else if big then 0xff00 else 0xff
  {
    if |s| > 1 {
      SumWithin(s[2..], big);
    }
  }

  lemma {:induction false} WordSumStore(s: seq<byte>, big: bool, k: nat, w: u_short)
    requires k % 2 == 0 && k + 1 < |s|
    ensures var t := Store(s, k, w, big);
            WordSum(t, big) == WordSum(s, big) - Word(s[k], s[k + 1], big) + w
  {
    var t := Store(s, k, w, big);
    if k == 0 {
      assert t[2..] == s[2..];
    } else {
      WordSumStore(s[2..], big, k - 2, w);
      assert t[2..] == Store(s[2..], k - 2, w, big);
    }
  }

  // ---------- one's complement addition (RFC 1071, section 1) ----------

  // The 16-bit one's complement sum of words that add up to n.
  function OnesSum(n: nat): u_short {
    if n == 0 then 0 else (n - 1) % 0xffff + 1
  }

  // Adding with end-around carry.
  function OnesAdd(x: u_short, y: u_short): u_short {
    if x + y > 0xffff then x + y - 0xffff else x + y
  }

  // OnesSum is what end-around-carry addition, word after word, comes to.
  lemma OnesSumAdds(n: nat, w: u_short)
    ensures OnesSum(n + w) == OnesAdd(OnesSum(n), w)
  {
    if n > 0 {
      var q, r := (n - 1) / 0xffff, (n - 1) % 0xffff;
      assert n + w == q * 0xffff + r + 1 + w;
    }
  }

  // For what fits an int, two foldings of the high half leave 16 bits, up to a carry that the
  // truncation drops.
  lemma TwoFolds(sum: nat)
    requires sum < INT_LIMIT
    ensures var once := sum / 0x1_0000 + sum % 0x1_0000;
            var twice := once + once / 0x1_0000;
            once < 0x1_8000 && twice % 0x1_0000 == OnesSum(sum)
  {
    var hi, lo := sum / 0x1_0000, sum % 0x1_0000;
    var once := hi + lo;
    assert sum == 0xffff * hi + once;
    if sum > 0 {
      if once > 0xffff {
        assert sum - 1 == 0xffff * (hi + 1) + (once - 0xffff - 1);
      } else {
        assert sum - 1 == 0xffff * hi + (once - 1);
      }
    }
  }

  // ---------- byte order (RFC 1071, section 2) ----------

  // Hosts of the other byte order come to the same sum with its bytes swapped, so to the same bytes
  // in memory.
  lemma ByteOrder(s: seq<byte>)
    ensures
      var x := OnesSum(WordSum(s, true));
      OnesSum(WordSum(s, false)) == x % 0x100 * 0x100 + x / 0x100
  {
    var m, n := WordSum(s, true), WordSum(s, false);
    var k := SumSwapped(s);
    var x := OnesSum(m);
    if m > 0 {
      var q := (m - 1) / 0xffff;
      assert m == 0xffff * q + x;
      // 0x100 * x is the swapped word, but for multiples of 0xffff.
      var y: nat := x % 0x100 * 0x100 + x / 0x100;
      assert 0x100 * x == 0xffff * (x / 0x100) + y;
      assert n == 0xffff * (0x100 * q + x / 0x100 - k) + y;
      SumOf(n, 0x100 * q + x / 0x100 - k, y);
    }
  }

  lemma SumOf(n: nat, q: int, y: u_short)
    requires n == 0xffff * q + y && n > 0 && y > 0
    ensures OnesSum(n) == y
  {
    assert n - 1 == 0xffff * q + (y - 1);
    assert (n - 1) % 0xffff == y - 1 by {
      DivMod(n - 1, q, y - 1);
    }
  }

  lemma DivMod(n: nat, q: int, r: nat)
    requires n == 0xffff * q + r && r < 0xffff
    ensures n % 0xffff == r
  {}

  lemma {:induction false} SumSwapped(s: seq<byte>) returns (k: nat)
    ensures 0x100 * WordSum(s, true) == 0xffff * k + WordSum(s, false)
    ensures WordSum(s, true) == 0 <==> WordSum(s, false) == 0
    decreases |s|
  {
    k := 0;
    if s != [] {
      var rest := if |s| == 1 then [] else s[2..];
      k := SumSwapped(rest);
      k := k + s[0];
      var b1: byte := if |s| == 1 then 0 else s[1];
      assert 0x100 * Word(s[0], b1, true) == 0xffff * s[0] + Word(s[0], b1, false);
    }
  }

  // The example of RFC 1071, section 3, summed up by hosts of either byte order.
  lemma Example()
    ensures OnesSum(WordSum([0x00, 0x01, 0xf2, 0x03, 0xf4, 0xf5, 0xf6, 0xf7], true)) == 0xddf2
    ensures OnesSum(WordSum([0x00, 0x01, 0xf2, 0x03, 0xf4, 0xf5, 0xf6, 0xf7], false)) == 0xf2dd
  {
    var s: seq<byte> := [0x00, 0x01, 0xf2, 0x03, 0xf4, 0xf5, 0xf6, 0xf7];
    assert WordSum(s[6..], true) == 0xf6f7;
    assert WordSum(s[4..], true) == 0xf4f5 + 0xf6f7 by {
      assert s[4..][2..] == s[6..];
    }
    assert WordSum(s[2..], true) == 0xf203 + 0xf4f5 + 0xf6f7 by {
      assert s[2..][2..] == s[4..];
    }
    ByteOrder(s);
  }

  // ---------- in_cksum ----------

  function LongestSafe(big: bool): nat {
    if big then 0x1_0000 else 0x1_0001
  }

  // Every buffer of up to 65536 bytes, or 65537 where the odd byte is a low one, adds up to what an
  // int can hold; of the longer ones, some do not.
  lemma SumsFitIff(n: nat, big: bool)
    ensures (forall s: seq<byte> | |s| == n :: WordSum(s, big) < INT_LIMIT) <==> n <= LongestSafe(big)
  {
    forall s: seq<byte> | |s| == n
      ensures n <= LongestSafe(big) ==> WordSum(s, big) < INT_LIMIT
    {
      SumWithin(s, big);
    }
    var most := seq(n, _ => 0xff);
    MostSum(most, big);
    assert |most| == n;
  }

  lemma {:induction false} MostSum(s: seq<byte>, big: bool)
    requires forall i :: 0 <= i < |s| ==> s[i] == 0xff
    ensures WordSum(s, big) == 0xffff * (|s| / 2) + if |s| % 2 == 0 then 0 else if big then 0xff00 else 0xff
  {
    if |s| > 1 {
      MostSum(s[2..], big);
    }
  }

  // The sum is an int; the caller sees to it that it does not overflow (SumsFitIff).
  method InCksum(addr: seq<byte>, big: bool) returns (answer: u_short)
    requires WordSum(addr, big) < INT_LIMIT
    ensures answer == 0xffff - OnesSum(WordSum(addr, big))
  {
    hide OnesSum;
    var nleft, sum, w := |addr|, 0, 0;
    while nleft > 1
      invariant nleft >= 0 && w + nleft == |addr| && sum + WordSum(addr[w..], big) == WordSum(addr, big)
    {
      assert addr[w..][2..] == addr[w + 2..];
      sum := sum + Word(addr[w], addr[w + 1], big);
      w := w + 2;
      nleft := nleft - 2;
    }
    if nleft == 1 {
      sum := sum + Word(addr[w], 0, big);
    }
    assert sum < INT_LIMIT;
    TwoFolds(sum);
    sum := sum / 0x1_0000 + sum % 0x1_0000;
    sum := sum + sum / 0x1_0000;
    answer := 0xffff - sum % 0x1_0000;
  }

  // The checksum, stored in a word that was zero, brings the sum to all ones.
  lemma StoredChecksum(s: seq<byte>, big: bool, k: nat)
    requires k % 2 == 0 && k + 1 < |s| && s[k] == s[k + 1] == 0
    ensures var c: u_short := 0xffff - OnesSum(WordSum(s, big));
            OnesSum(WordSum(Store(s, k, c, big), big)) == 0xffff
  {
    var n := WordSum(s, big);
    var c: u_short := 0xffff - OnesSum(n);
    WordSumStore(s, big, k, c);
    OnesSumAdds(n, c);
  }

  // A word changed in a buffer that checks out: it goes unnoticed exactly when it changes by a
  // multiple of 65535 (zero for all ones, or the other way round) and not everything is zero then.
  lemma ChangeNoticed(s: seq<byte>, big: bool, k: nat, w: u_short)
    requires k % 2 == 0 && k + 1 < |s| && OnesSum(WordSum(s, big)) == 0xffff
    ensures var t := Store(s, k, w, big);
            OnesSum(WordSum(t, big)) == 0xffff <==>
            (w - Word(s[k], s[k + 1], big)) % 0xffff == 0 && WordSum(t, big) > 0
  {
    WordSumStore(s, big, k, w);
    var n, d := WordSum(s, big), w - Word(s[k], s[k + 1], big);
    AllOnes(n);
    AllOnes(n + d);
    Shifted(n, d);
  }

  lemma AllOnes(n: nat)
    ensures OnesSum(n) == 0xffff <==> n > 0 && n % 0xffff == 0
  {
    if n > 0 {
      assert n - 1 == 0xffff * ((n - 1) / 0xffff) + (n - 1) % 0xffff;
    }
  }

  lemma Shifted(n: nat, d: int)
    requires n % 0xffff == 0
    ensures (n + d) % 0xffff == 0 <==> d % 0xffff == 0
  {
    var q := n / 0xffff;
    assert n + d == 0xffff * q + d;
    assert d == 0xffff * (d / 0xffff) + d % 0xffff;
    assert n + d == 0xffff * (q + d / 0xffff) + d % 0xffff;
  }

  // ---------- the echo request ----------

  lemma SumFits(s: seq<byte>, big: bool)
    requires |s| <= 0x1_0000
    ensures WordSum(s, big) < INT_LIMIT
  {
    SumWithin(s, big);
  }

  // Fills in the header of an echo request over cc bytes; the checksum goes in last.
  method FillRequest(opacket: array<byte>, cc: nat, ident: u_short, seq_: u_short, big: bool)
    requires ICMP_MINLEN <= cc <= opacket.Length && cc <= 0x1_0000
    modifies opacket
    ensures opacket[0] == 8 && opacket[1] == 0
    ensures Word(opacket[4], opacket[5], big) == ident && opacket[6] == seq_ / 0x100 && opacket[7] == seq_ % 0x100
    ensures forall i :: 8 <= i < opacket.Length ==> opacket[i] == old(opacket[i])
    // Whoever sums up the whole request gets all ones: its checksum is zero.
    ensures OnesSum(WordSum(opacket[..cc], big)) == 0xffff
  {
    hide WordSum, OnesSum;
    opacket[0], opacket[1] := ICMP_ECHO, 0;
    opacket[2], opacket[3] := 0, 0;
    opacket[6], opacket[7] := seq_ / 0x100, seq_ % 0x100;
    opacket[4], opacket[5] := FirstByte(ident, big), SecondByte(ident, big);
    ghost var s := opacket[..cc];
    SumFits(s, big);
    var c := InCksum(opacket[..cc], big);
    StoredChecksum(s, big, 2);
    opacket[2], opacket[3] := FirstByte(c, big), SecondByte(c, big);
    assert opacket[..cc] == Store(s, 2, c, big);
  }

  // A request that arrives as it was sent checks out.
  method CheckRequest(opacket: array<byte>, cc: nat, ident: u_short, seq_: u_short, big: bool) returns (sum: u_short)
    requires ICMP_MINLEN <= cc <= opacket.Length && cc <= 0x1_0000
    modifies opacket
    ensures sum == 0
  {
    FillRequest(opacket, cc, ident, seq_, big);
    SumFits(opacket[..cc], big);
    sum := InCksum(opacket[..cc], big);
  }
}
