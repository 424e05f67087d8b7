/** session.c, client side of _autosync: choosing a protocol that both sides know. */
module Negotiation {

  datatype Option<T> = None | Some(value: T)

  const NUL: char := '\0'

  // ---------- lists of names ----------

  // What stands between two colons; a name is not empty.
  predicate IsField(n: string) {
    ':' !in n && NUL !in n
  }

  predicate IsName(n: string) {
    n != "" && IsField(n)
  }

  predicate AreFields(ns: seq<string>) {
    ns != [] && forall n <- ns :: IsField(n)
  }

  // Fields with a colon between them.
  function Join(ns: seq<string>): string
    requires ns != []
  {
    if |ns| == 1 then ns[0] else ns[0] + ":" + Join(ns[1..])
  }

  // Every string is such a list.
  lemma {:induction false} Fields(s: string) returns (ns: seq<string>)
    requires NUL !in s
    ensures AreFields(ns) && Join(ns) == s
  {
    if s == "" {
      ns := [""];
    } else {
      var rest := Fields(s[1..]);
      if s[0] == ':' {
        ns := [""] + rest;
        assert ns[1..] == rest;
      } else {
        ns := [[s[0]] + rest[0]] + rest[1..];
        assert ns[1..] == rest[1..];
        assert forall n <- ns :: n == [s[0]] + rest[0] || n in rest;
        assert rest[0] in rest;
      }
    }
  }

  // What the client should pick: the first of its own names that the server knows.
  function FirstCommon(cs: seq<string>, ss: seq<string>): (choice: Option<string>)
    ensures choice.Some? ==> choice.value in cs && choice.value in ss && choice.value != ""
  {
    if cs == [] then None else if cs[0] != "" && cs[0] in ss then Some(cs[0]) else FirstCommon(cs[1..], ss)
  }

  // The character at i, as C sees it.
  function At(s: string, i: nat): char
    requires i <= |s|
  {
    if i == |s| then NUL else s[i]
  }

  predicate IsStart(s: string, p: nat) {
    p <= |s| && (p == 0 || s[p - 1] == ':')
  }

  predicate IsEnd(s: string, p: nat) {
    p <= |s| && (p == |s| || s[p] == ':')
  }

  // The name n stands at p, between colons.
  ghost predicate NameAt(s: string, p: nat, n: string) {
    IsStart(s, p) && p + |n| <= |s| && s[p..p + |n|] == n && IsEnd(s, p + |n|)
  }

  // No other name stands at the beginning.
  lemma SameName(s: string, a: string, b: string)
    requires IsField(a) && IsField(b) && NameAt(s, 0, a) && NameAt(s, 0, b)
    ensures a == b
  {
    assert forall i :: 0 <= i < |a| ==> s[i] == a[i] && a[i] in a;
    assert forall i :: 0 <= i < |b| ==> s[i] == b[i] && b[i] in b;
  }

  lemma FirstStands(ns: seq<string>)
    requires AreFields(ns)
    ensures NameAt(Join(ns), 0, ns[0]) && IsField(ns[0])
  {
    assert Join(ns)[..|ns[0]|] == ns[0];
  }

  // A name further on stands in what follows the first name and its colon.
  lemma LaterStands(ns: seq<string>, p: nat, n: string)
    requires AreFields(ns) && IsField(n) && p > 0 && NameAt(Join(ns), p, n)
    ensures |ns| > 1 && p > |ns[0]| && NameAt(Join(ns[1..]), p - |ns[0]| - 1, n)
  {
    var s, a := Join(ns), ns[0];
    FirstStands(ns);
    assert s[..|a|] == a;
    assert forall i :: 0 <= i < |a| ==> s[i] == a[i] && a[i] in a;
    assert |ns| == 1 ==> s == a;
    assert p > |a|;
    if |ns| > 1 {
      Shift(s, a, Join(ns[1..]), p - |a| - 1, n);
    }
  }

  lemma StandsLater(ns: seq<string>, p: nat, n: string)
    requires AreFields(ns) && IsField(n) && |ns| > 1 && NameAt(Join(ns[1..]), p, n)
    ensures NameAt(Join(ns), p + |ns[0]| + 1, n)
  {
    Shift(Join(ns), ns[0], Join(ns[1..]), p, n);
  }

  lemma Shift(s: string, a: string, r: string, p: nat, n: string)
    requires s == a + ":" + r
    ensures NameAt(s, p + |a| + 1, n) <==> NameAt(r, p, n)
  {
    assert forall i :: 0 <= i < |r| ==> s[|a| + 1 + i] == r[i];
    if p + |n| <= |r| {
      assert s[p + |a| + 1..p + |a| + 1 + |n|] == r[p..p + |n|];
    }
  }

  ghost predicate Stands(s: string, n: string) {
    exists p: nat :: NameAt(s, p, n)
  }

  // Only the names of a list stand in it, and all of them do.
  lemma {:induction false} StandsIffListed(ns: seq<string>, n: string)
    requires AreFields(ns) && IsField(n)
    ensures Stands(Join(ns), n) <==> n in ns
  {
    FirstStands(ns);
    if |ns| > 1 {
      StandsIffListed(ns[1..], n);
    }
    if n in ns && n != ns[0] {
      var p: nat :| NameAt(Join(ns[1..]), p, n);
      StandsLater(ns, p, n);
    }
    if Stands(Join(ns), n) {
      var p: nat :| NameAt(Join(ns), p, n);
      if p == 0 {
        SameName(Join(ns), n, ns[0]);
        assert ns[0] in ns;
      } else {
        LaterStands(ns, p, n);
        var q: nat := p - |ns[0]| - 1;
        assert NameAt(Join(ns[1..]), q, n);
      }
    }
  }

  // The names standing before upto are not the server's.
  ghost predicate Unknown(c: string, upto: nat, ss: seq<string>) {
    forall q: nat, m :: q < upto && IsName(m) && NameAt(c, q, m) ==> m !in ss
  }

  lemma UnknownLater(cs: seq<string>, ss: seq<string>, upto: nat)
    requires AreFields(cs) && |cs| > 1 && upto > |cs[0]| && Unknown(Join(cs), upto, ss)
    ensures Unknown(Join(cs[1..]), upto - |cs[0]| - 1, ss)
  {
    forall q: nat, m | q < upto - |cs[0]| - 1 && IsName(m) && NameAt(Join(cs[1..]), q, m)
      ensures m !in ss
    {
      StandsLater(cs, q, m);
    }
  }

  lemma {:induction false} FirstFound(cs: seq<string>, ss: seq<string>, p: nat, n: string)
    requires AreFields(cs) && IsName(n) && NameAt(Join(cs), p, n) && n in ss && Unknown(Join(cs), p, ss)
    ensures FirstCommon(cs, ss) == Some(n)
  {
    FirstStands(cs);
    if p == 0 {
      SameName(Join(cs), n, cs[0]);
    } else {
      LaterStands(cs, p, n);
      UnknownLater(cs, ss, p);
      FirstFound(cs[1..], ss, p - |cs[0]| - 1, n);
    }
  }

  lemma {:induction false} NoneFound(cs: seq<string>, ss: seq<string>, upto: nat)
    requires AreFields(cs) && upto > |Join(cs)| && Unknown(Join(cs), upto, ss)
    ensures FirstCommon(cs, ss) == None
  {
    FirstStands(cs);
    if |cs| > 1 {
      UnknownLater(cs, ss, upto);
      NoneFound(cs[1..], ss, upto - |cs[0]| - 1);
    }
  }

  // Where the j-th field begins.
  function Pos(ns: seq<string>, j: nat): nat
    requires j < |ns|
  {
    if j == 0 then 0 else |ns[0]| + 1 + Pos(ns[1..], j - 1)
  }

  lemma {:induction false} FieldStands(ns: seq<string>, j: nat)
    requires AreFields(ns) && j < |ns|
    ensures NameAt(Join(ns), Pos(ns, j), ns[j])
  {
    FirstStands(ns);
    if j > 0 {
      FieldStands(ns[1..], j - 1);
      StandsLater(ns, Pos(ns[1..], j - 1), ns[j]);
    }
  }

  lemma {:induction false} StandsAsField(ns: seq<string>, p: nat, n: string) returns (j: nat)
    requires AreFields(ns) && IsField(n) && NameAt(Join(ns), p, n)
    ensures j < |ns| && p == Pos(ns, j) && ns[j] == n
  {
    FirstStands(ns);
    if p == 0 {
      SameName(Join(ns), n, ns[0]);
      j := 0;
    } else {
      LaterStands(ns, p, n);
      var k := StandsAsField(ns[1..], p - |ns[0]| - 1, n);
      j := k + 1;
    }
  }

  lemma {:induction false} PosOrder(ns: seq<string>, i: nat, j: nat)
    requires i < j < |ns|
    ensures Pos(ns, i) + |ns[i]| < Pos(ns, j)
    ensures j == i + 1 ==> Pos(ns, j) == Pos(ns, i) + |ns[i]| + 1
  {
    if i > 0 {
      PosOrder(ns[1..], i - 1, j - 1);
    }
  }

  // ---------- the scan ----------

  // The field of the client's list at cp, as far as idx, stands at p in the server's list.  An
  // empty field is followed over its colon into the next one.
  ghost predicate Agrees(c: string, cp: nat, idx: nat, s: string, p: nat) {
    && cp + idx <= |c| && p + idx <= |s| && s[p..p + idx] == c[cp..cp + idx]
    && forall k :: cp < k < cp + idx ==> c[k] != ':'
  }

  // The whole of it stands at p.
  ghost predicate Found(c: string, cp: nat, s: string, p: nat) {
    exists idx: nat :: idx > 0 && Agrees(c, cp, idx, s, p) && IsStart(s, p) && IsEnd(s, p + idx) && IsEnd(c, cp + idx)
  }

  // A name is not found before upto; an empty field, not at the very beginning.
  ghost predicate Clear(c: string, cp: nat, s: string, upto: nat)
    requires cp <= |c|
  {
    forall p: nat :: p < upto && (p == 0 || At(c, cp) != ':') ==> !Found(c, cp, s, p)
  }

  // idx characters from cp on have been followed up to sp; none was found before.
  ghost predicate Following(c: string, cp: nat, s: string, sp: nat, idx: nat)
    requires cp <= |c|
  {
    0 < idx <= sp <= |s| && Agrees(c, cp, idx, s, sp - idx) && IsStart(s, sp - idx) && Clear(c, cp, s, sp - idx)
  }

  ghost predicate Texts(c: string, cp: nat, s: string) {
    cp <= |c| && NUL !in c && NUL !in s
  }

  lemma FirstCharacter(c: string, cp: nat, s: string, p: nat)
    requires cp <= |c|
    ensures Found(c, cp, s, p) ==> IsStart(s, p) && p < |s| && cp < |c| && s[p] == At(c, cp)
  {
    if Found(c, cp, s, p) {
      var k: nat :| k > 0 && Agrees(c, cp, k, s, p) && IsStart(s, p) && IsEnd(s, p + k) && IsEnd(c, cp + k);
      assert s[p..p + k][0] == s[p] && c[cp..cp + k][0] == c[cp];
    }
  }

  lemma NotHere(c: string, cp: nat, s: string, sp: nat)
    requires Texts(c, cp, s) && sp <= |s| && Clear(c, cp, s, sp)
    requires (sp != 0 && s[sp - 1] != ':') || At(s, sp) != At(c, cp)
    ensures Clear(c, cp, s, sp + 1)
  {
    FirstCharacter(c, cp, s, sp);
  }

  // Where it is found it goes on as in the client's list, or ends where that one ends.
  lemma FoundGoesOn(c: string, cp: nat, s: string, p: nat, idx: nat)
    requires Found(c, cp, s, p) && Agrees(c, cp, idx, s, p) && idx > 0
    ensures (IsEnd(s, p + idx) && IsEnd(c, cp + idx)) || At(s, p + idx) == At(c, cp + idx)
  {
    var k: nat :| k > 0 && Agrees(c, cp, k, s, p) && IsStart(s, p) && IsEnd(s, p + k) && IsEnd(c, cp + k);
    if k > idx {
      assert s[p..p + k][idx] == s[p + idx] && c[cp..cp + k][idx] == c[cp + idx];
    }
  }

  lemma NoStartInside(c: string, cp: nat, s: string, from: nat, idx: nat, p: nat)
    requires Agrees(c, cp, idx, s, from) && from < p <= from + idx && c[cp] != ':'
    ensures !IsStart(s, p)
  {
    var j := p - 1 - from;
    assert s[p - 1] == s[from..from + idx][j] == c[cp..cp + idx][j] == c[cp + j];
  }

  lemma Astray(c: string, cp: nat, s: string, sp: nat, idx: nat)
    requires Texts(c, cp, s) && Following(c, cp, s, sp, idx)
    requires At(s, sp) != At(c, cp + idx) && !(IsEnd(s, sp) && IsEnd(c, cp + idx))
    ensures Clear(c, cp, s, sp + 1)
  {
    hide Found, Agrees, IsStart, IsEnd;
    AgreesInside(c, cp, idx, s, sp - idx);
    forall p: nat | p < sp + 1 && (p == 0 || At(c, cp) != ':')
      ensures !Found(c, cp, s, p)
    {
      FirstCharacter(c, cp, s, p);
      if p > sp - idx {
        NoStartInside(c, cp, s, sp - idx, idx, p);
      } else if p == sp - idx && Found(c, cp, s, p) {
        FoundGoesOn(c, cp, s, p, idx);
      }
    }
  }

  lemma AgreesInside(c: string, cp: nat, idx: nat, s: string, p: nat)
    requires Agrees(c, cp, idx, s, p)
    ensures cp + idx <= |c| && p + idx <= |s|
  {}

  lemma Onward(c: string, cp: nat, s: string, sp: nat, idx: nat)
    requires Texts(c, cp, s) && Following(c, cp, s, sp, idx)
    requires At(s, sp) == At(c, cp + idx) && !(IsEnd(s, sp) && IsEnd(c, cp + idx))
    ensures Following(c, cp, s, sp + 1, idx + 1)
  {
    assert sp < |s| ==> s[sp] in s;
    assert cp + idx < |c| ==> c[cp + idx] in c;
    assert s[sp - idx..sp + 1] == s[sp - idx..sp] + [s[sp]];
    assert c[cp..cp + idx + 1] == c[cp..cp + idx] + [c[cp + idx]];
  }

  lemma Begin(c: string, cp: nat, s: string, sp: nat)
    requires Texts(c, cp, s) && cp < |c| && sp <= |s| && IsStart(s, sp) && At(s, sp) == At(c, cp) && Clear(c, cp, s, sp)
    ensures Following(c, cp, s, sp + 1, 1)
  {
    assert c[cp] in c;
    assert s[sp..sp + 1] == [s[sp]] && c[cp..cp + 1] == [c[cp]];
  }

  lemma EndsAt(s: string, p: nat)
    requires p <= |s| && NUL !in s
    ensures (At(s, p) == NUL || At(s, p) == ':') <==> IsEnd(s, p)
  {
    assert p < |s| ==> s[p] in s;
  }

  // For one field of the client, the inner loop over the server's list.  match is the address of
  // the field being followed, or None; before a name it may be left over from the scan before.
  method ScanFor(c: string, cp: nat, s: string, match0: Option<nat>)
          returns (found: bool, match1: Option<nat>, idx: nat)
    requires Texts(c, cp, s) && s != "" && (match0 == None || !IsEnd(c, cp))
    ensures found ==> cp < |c| && match1 == Some(cp) && idx > 0 && IsEnd(c, cp + idx)
    ensures found ==> exists p: nat :: IsStart(s, p) && Agrees(c, cp, idx, s, p) && IsEnd(s, p + idx)
    ensures !found && cp < |c| ==> match1 == None && Clear(c, cp, s, |s| + 1)
  {
    hide Clear, Following, Texts, Agrees, Found;
    match1 := match0;
    idx := 0;
    var sp := 0;
    Facts(c, cp, s, 0, 0);
    Nothing(c, cp, s);
    while sp <= |s|
      invariant sp <= |s| + 1
      invariant sp == 0 ==> idx == 0 && match1 == match0 && Clear(c, cp, s, 0)
      invariant sp > 0 && match1 == None ==> idx == 0 && Clear(c, cp, s, sp)
      invariant sp > 0 && match1 != None && cp < |c| ==> match1 == Some(cp) && Following(c, cp, s, sp, idx)
      invariant sp > 0 && match1 != None && cp == |c| ==> sp == |s| + 1
    {
      Facts(c, cp, s, sp, idx);
      EndsAt(s, sp);
      EndsAt(c, cp + idx);
      if match1 != None && (At(s, sp) == NUL || At(s, sp) == ':') &&
          (At(c, cp + idx) == NUL || At(c, cp + idx) == ':') {
        ghost var p: nat := sp - idx;
        assert IsStart(s, p) && Agrees(c, cp, idx, s, p) && IsEnd(s, p + idx);
        return true, match1, idx;
      }
      if match1 == None && sp != 0 && (s[sp - 1] != ':' || At(s, sp) != At(c, cp + idx)) {
        NotHere(c, cp, s, sp);
        sp := sp + 1;
        continue;
      }
      if At(s, sp) != At(c, cp + idx) {
        if idx == 0 {
          NotHere(c, cp, s, sp);
        } else {
          Astray(c, cp, s, sp, idx);
        }
        idx := 0;
        match1 := None;
        sp := sp + 1;
        continue;
      }
      if idx > 0 {
        Onward(c, cp, s, sp, idx);
      } else if cp < |c| {
        Begin(c, cp, s, sp);
      }
      match1 := Some(cp);
      idx := idx + 1;
      sp := sp + 1;
    }
    TooFar(c, cp, s, sp, idx);
    return false, match1, idx;
  }

  lemma Nothing(c: string, cp: nat, s: string)
    requires cp <= |c|
    ensures Clear(c, cp, s, 0)
  {}

  lemma Facts(c: string, cp: nat, s: string, sp: nat, idx: nat)
    requires Texts(c, cp, s)
    ensures cp <= |c| && NUL !in c && NUL !in s && (At(s, |s|) == NUL) && (forall p: nat :: p < |s| ==> At(s, p) != NUL)
    ensures Following(c, cp, s, sp, idx) ==>
              0 < idx <= sp && cp + idx <= |c| && IsStart(s, sp - idx) && Agrees(c, cp, idx, s, sp - idx)
  {
    assert forall p :: 0 <= p < |s| ==> s[p] in s;
  }

  lemma TooFar(c: string, cp: nat, s: string, sp: nat, idx: nat)
    requires sp > |s| && cp <= |c|
    ensures !Following(c, cp, s, sp, idx)
  {}

  // ---------- the choice ----------

  // Before every empty field the one after it has been tried already.
  predicate Harmless(cs: seq<string>) {
    forall j :: 0 <= j < |cs| - 1 && cs[j] == "" ==> cs[j + 1] != "" && cs[j + 1] in cs[..j]
  }

  // What a scan that succeeds from cp returns: a name, or a colon and the field after it.
  ghost predicate Picked(c: string, cp: nat, s: string, n: string) {
    && cp + |n| <= |c| && n != "" && c[cp..cp + |n|] == n && IsStart(c, cp) && IsEnd(c, cp + |n|)
    && exists p: nat :: IsStart(s, p) && Agrees(c, cp, |n|, s, p) && IsEnd(s, p + |n|)
  }

  lemma {:induction false} NoNul(ns: seq<string>)
    requires AreFields(ns)
    ensures NUL !in Join(ns)
  {
    assert ns[0] in ns;
    if |ns| > 1 {
      NoNul(ns[1..]);
    }
  }

  lemma UnknownNone(c: string, ss: seq<string>)
    ensures Unknown(c, 0, ss)
  {}

  lemma NoName(c: string, cp: nat, ss: seq<string>)
    requires Unknown(c, cp, ss) && 0 < cp <= |c| && c[cp - 1] != ':'
    ensures Unknown(c, cp + 1, ss)
  {}

  lemma NameIsFound(c: string, cp: nat, s: string, p: nat, m: string)
    requires IsName(m) && NameAt(c, cp, m) && NameAt(s, p, m)
    ensures Found(c, cp, s, p) && c[cp] != ':' && p < |s|
  {
    assert m[0] in m && c[cp..cp + |m|][0] == m[0];
    forall k | cp < k < cp + |m|
      ensures c[k] != ':'
    {
      assert c[cp..cp + |m|][k - cp] == m[k - cp] && m[k - cp] in m;
    }
    assert Agrees(c, cp, |m|, s, p);
  }

  // A scan that fails has excluded the name at cp.
  lemma Passed(ss: seq<string>, c: string, s: string, cp: nat)
    requires AreFields(ss) && s == Join(ss) && cp <= |c| && Unknown(c, cp, ss)
    requires cp < |c| ==> Clear(c, cp, s, |s| + 1)
    ensures Unknown(c, cp + 1, ss)
    ensures cp < |c| ==> !Found(c, cp, s, 0)
  {
    hide Join, Found;
    forall m | IsName(m) && NameAt(c, cp, m)
      ensures m !in ss
    {
      StandsIffListed(ss, m);
      if Stands(s, m) {
        var p: nat :| NameAt(s, p, m);
        NameIsFound(c, cp, s, p, m);
      }
    }
  }

  lemma WholeName(c: string, cp: nat, s: string, p: nat, idx: nat)
    requires Texts(c, cp, s) && IsStart(c, cp) && 0 < idx && cp + idx <= |c| && IsEnd(c, cp + idx) && c[cp] != ':'
    requires IsStart(s, p) && Agrees(c, cp, idx, s, p) && IsEnd(s, p + idx)
    ensures var n := c[cp..cp + idx]; IsName(n) && NameAt(c, cp, n) && NameAt(s, p, n)
  {
    var n := c[cp..cp + idx];
    assert forall j :: 0 <= j < idx ==> n[j] == c[cp + j] && n[j] in c;
    assert |n| == idx;
  }

  // A scan that succeeds has found a name of both lists, or a colon and what follows it.
  lemma Success(cs: seq<string>, ss: seq<string>, c: string, s: string, cp: nat, idx: nat)
    requires AreFields(cs) && AreFields(ss) && c == Join(cs) && s == Join(ss) && Texts(c, cp, s) && Unknown(c, cp, ss)
    requires IsStart(c, cp) && idx > 0 && cp + idx <= |c| && IsEnd(c, cp + idx)
    requires exists p: nat :: IsStart(s, p) && Agrees(c, cp, idx, s, p) && IsEnd(s, p + idx)
    ensures var n := c[cp..cp + idx];
            Picked(c, cp, s, n) && (':' in n || FirstCommon(cs, ss) == Some(n)) && (Harmless(cs) ==> ':' !in n)
  {
    hide Join, FirstCommon, Harmless;
    var n := c[cp..cp + idx];
    var p: nat :| IsStart(s, p) && Agrees(c, cp, idx, s, p) && IsEnd(s, p + idx);
    assert |n| == idx && Picked(c, cp, s, n);
    assert n[0] == c[cp];
    if c[cp] != ':' {
      WholeName(c, cp, s, p, idx);
      StandsIffListed(ss, n);
      FirstFound(cs, ss, cp, n);
    } else if Harmless(cs) {
      NoHarm(cs, ss, cp, idx, p);
    }
  }

  lemma NextField(cs: seq<string>, cp: nat, n: string) returns (j: nat)
    requires AreFields(cs) && IsField(n) && NameAt(Join(cs), cp, "") && NameAt(Join(cs), cp + 1, n)
    ensures j + 1 < |cs| && cp == Pos(cs, j) && cs[j] == "" && cs[j + 1] == n
  {
    j := StandsAsField(cs, cp, "");
    var k := StandsAsField(cs, cp + 1, n);
    if k < j {
      PosOrder(cs, k, j);
    } else if k > j + 1 {
      PosOrder(cs, j, j + 1);
      PosOrder(cs, j + 1, k);
    }
  }

  lemma EmptyAnd(c: string, cp: nat, s: string, p: nat, idx: nat)
    requires Texts(c, cp, s) && IsStart(c, cp) && 0 < idx && cp + idx <= |c| && IsEnd(c, cp + idx) && c[cp] == ':'
    requires IsStart(s, p) && Agrees(c, cp, idx, s, p) && IsEnd(s, p + idx)
    ensures var n := c[cp + 1..cp + idx];
            IsField(n) && NameAt(c, cp, "") && NameAt(c, cp + 1, n) && NameAt(s, p + 1, n)
  {
    var n := c[cp + 1..cp + idx];
    assert s[p] == s[p..p + idx][0] == c[cp..cp + idx][0] == ':';
    assert forall j :: 0 <= j < |n| ==> n[j] == c[cp + 1 + j] && n[j] in c;
    assert s[p + 1..p + idx] == s[p..p + idx][1..] == c[cp..cp + idx][1..] == n;
  }

  // Where every field after an empty one has been tried before, no empty field is found.
  lemma NoHarm(cs: seq<string>, ss: seq<string>, cp: nat, idx: nat, p: nat)
    requires AreFields(cs) && AreFields(ss) && Unknown(Join(cs), cp, ss) && Texts(Join(cs), cp, Join(ss))
    requires IsStart(Join(cs), cp) && 0 < idx && cp + idx <= |Join(cs)| && Join(cs)[cp] == ':' &&
        IsEnd(Join(cs), cp + idx)
    requires IsStart(Join(ss), p) && Agrees(Join(cs), cp, idx, Join(ss), p) && IsEnd(Join(ss), p + idx)
    ensures !Harmless(cs)
  {
    hide Join;
    var c, s := Join(cs), Join(ss);
    var n := c[cp + 1..cp + idx];
    EmptyAnd(c, cp, s, p, idx);
    StandsIffListed(ss, n);
    var j := NextField(cs, cp, n);
    NotEarlier(cs, ss, j, n);
  }

  // A name of the server's list is not among the client's that have been passed over.
  lemma NotEarlier(cs: seq<string>, ss: seq<string>, j: nat, n: string)
    requires AreFields(cs) && j < |cs| && Unknown(Join(cs), Pos(cs, j), ss) && n in ss && IsField(n)
    ensures n == "" || n !in cs[..j]
  {
    hide Join;
    if n != "" {
      forall i: nat | i < j
        ensures cs[i] != n
      {
        FieldStands(cs, i);
        PosOrder(cs, i, j);
      }
    }
  }

  // The client's side of the negotiation; received is what the server has sent, not nothing.
  // For any two lists, the choice is right, or no name at all: it has a colon in it.
  method Choose(protocols: string, received: string, ghost cs: seq<string>, ghost ss: seq<string>)
    returns (choice: Option<string>, ghost at: nat)
    requires AreFields(cs) && AreFields(ss) && protocols == Join(cs) && received == Join(ss) && received != ""
    ensures choice == FirstCommon(cs, ss) || (choice.Some? && ':' in choice.value)
    ensures Harmless(cs) ==> choice == FirstCommon(cs, ss)
    ensures if choice == None then at == |protocols| else Picked(protocols, at, received, choice.value)
    ensures forall q: nat :: q < at && IsStart(protocols, q) ==> !Found(protocols, q, received, 0)
  {
    hide Found, Agrees, FirstCommon, Join, Picked, Unknown, Harmless;
    NoNul(cs);
    NoNul(ss);
    var match1: Option<nat>, idx, found := None, 0, false;
    var cp := 0;
    UnknownNone(protocols, ss);
    while cp <= |protocols|
      invariant cp <= |protocols| + 1 && Unknown(protocols, cp, ss) && (match1 == None || cp > |protocols|)
      invariant forall q: nat :: q < cp && q < |protocols| && IsStart(protocols, q) ==>
          !Found(protocols, q, received, 0)
    {
      at := cp;
      if cp != 0 && protocols[cp - 1] != ':' {
        NoName(protocols, cp, ss);
        cp := cp + 1;
        continue;
      }
      found, match1, idx := ScanFor(protocols, cp, received, match1);
      if found {
        choice := Some(protocols[match1.value..match1.value + idx]);
        Success(cs, ss, protocols, received, cp, idx);
        return;
      }
      Passed(ss, protocols, received, cp);
      cp := cp + 1;
    }
    NoneFound(cs, ss, cp);
    return None, |protocols|;
  }

  lemma JoinTwo(n: string)
    ensures Join(["", n]) == ":" + n
  {
    assert ["", n][1..] == [n];
  }

  // An empty field and the next one, found at the very beginning.
  lemma FoundAtOnce(cs: seq<string>, j: nat)
    requires AreFields(cs) && j < |cs| - 1 && cs[j] == ""
    ensures var c, cp := Join(cs), Pos(cs, j);
            cp < |c| && c[cp] == ':' && IsStart(c, cp) && Found(c, cp, ":" + cs[j + 1], 0)
  {
    var c, cp, n := Join(cs), Pos(cs, j), cs[j + 1];
    FieldStands(cs, j);
    FieldStands(cs, j + 1);
    PosOrder(cs, j, j + 1);
    assert n in cs;
    EmptyThen(c, cp, n);
  }

  lemma EmptyThen(c: string, cp: nat, n: string)
    requires NameAt(c, cp, "") && NameAt(c, cp + 1, n) && IsField(n)
    ensures Found(c, cp, ":" + n, 0) && cp < |c| && c[cp] == ':'
  {
    assert c[cp..cp + 1 + |n|] == [c[cp]] + c[cp + 1..cp + 1 + |n|];
    forall k | cp < k < cp + 1 + |n|
      ensures c[k] != ':'
    {
      assert c[k] == n[k - cp - 1] && n[k - cp - 1] in n;
    }
    assert (":" + n)[0..1 + |n|] == ":" + n;
    assert Agrees(c, cp, 1 + |n|, ":" + n, 0);
  }

  // Nor is a name picked before it that is in the server's list.
  lemma NotBefore(cs: seq<string>, j: nat, n: string, at: nat)
    requires AreFields(cs) && j < |cs| && IsName(n) && n !in cs[..j] && at < Pos(cs, j)
    ensures !Picked(Join(cs), at, ":" + n, n)
  {
    hide Join;
    if Picked(Join(cs), at, ":" + n, n) {
      var i := StandsAsField(cs, at, n);
      if i > j {
        PosOrder(cs, j, i);
      }
    }
  }

  lemma PickedStarts(c: string, at: nat, s: string, n: string)
    requires Picked(c, at, s, n)
    ensures n != "" && at < |c| && c[at] == n[0] && n[0] in n
  {
    assert c[at..at + |n|][0] == c[at];
  }

  // For every other list of the client there is one of the server with which it goes wrong.
  method ChoosesWrongly(cs: seq<string>) returns (ss: seq<string>, choice: Option<string>)
    requires AreFields(cs) && !Harmless(cs)
    ensures AreFields(ss) && choice != FirstCommon(cs, ss)
  {
    hide FirstCommon, Found, Join, Picked;
    var j :| 0 <= j < |cs| - 1 && cs[j] == "" && (cs[j + 1] == "" || cs[j + 1] !in cs[..j]);
    var n := cs[j + 1];
    ss := ["", n];
    ghost var at;
    JoinTwo(n);
    choice, at := Choose(Join(cs), ":" + n, cs, ss);
    FoundAtOnce(cs, j);
    if choice == FirstCommon(cs, ss) && choice.Some? {
      assert choice.value == n && n in cs;
      PickedStarts(Join(cs), at, ":" + n, n);
      NotBefore(cs, j, n, at);
    }
  }
}
