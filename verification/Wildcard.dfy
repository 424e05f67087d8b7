/** string.c: comparing two strings that may both contain wildcards. */
module Wildcard {

  const NUL: char := '\0'

  function Head(s: string): char {
    if s == "" then NUL else s[0]
  }

  // The first place of c in s, the end for NUL, or -1: strchr for strings without NUL.
  function StrChr(s: string, c: char): (k: int)
    ensures -1 <= k <= |s|
    ensures k >= 0 ==> Head(s[k..]) == c && forall i :: 0 <= i < k ==> s[i] != c
    ensures k == -1 ==> c != NUL && c !in s
  {
    if s == "" then (if c == NUL then 0 else -1)
    else if s[0] == c then 0
    else
      var k := StrChr(s[1..], c);
      if k == -1 then -1 else k + 1
  }

  // _equalWild: what its recursion over two pointers decides.
  predicate EqualWild(w: char, left: string, right: string)
    decreases |left| + |right|, 0
  {
    || (left != "" && left[0] == w && SeekRight(w, left[1..], right))
    || (right != "" && right[0] == w && SeekLeft(w, left, right[1..]))
    || (Head(left) == Head(right) && (left == "" || right == "" || EqualWild(w, left[1..], right[1..])))
  }

  // Whether left matches some part of right that begins with the first character of left.
  predicate SeekRight(w: char, left: string, right: string)
    decreases |left| + |right|, 1
  {
    var k := StrChr(right, Head(left));
    k >= 0 && (EqualWild(w, left, right[k..]) || (k < |right| && SeekRight(w, left, right[k + 1..])))
  }

  predicate SeekLeft(w: char, left: string, right: string)
    decreases |left| + |right|, 1
  {
    var k := StrChr(left, Head(right));
    k >= 0 && (EqualWild(w, left[k..], right) || (k < |left| && SeekLeft(w, left[k + 1..], right)))
  }

  // A candidate at the end of the string is a match: the scans never pass the end.
  lemma BothEnd(w: char, left: string, right: string)
    requires NUL !in left && NUL !in right && Head(left) == Head(right)
    ensures left == "" || right == "" ==> left == right == "" && EqualWild(w, left, right)
  {}

  // The procedure itself: two scanning loops and three recursive calls.
  method Equal(w: char, left: string, right: string) returns (equal: bool)
    requires w != NUL && NUL !in left && NUL !in right
    ensures equal == EqualWild(w, left, right)
    decreases |left| + |right|, 0
  {
    hide SeekRight, SeekLeft, StrChr;
    if Head(left) == w {
      equal := ScanRight(w, left[1..], right);
      if equal {
        return;
      }
    }
    if Head(right) == w {
      equal := ScanLeft(w, left, right[1..]);
      if equal {
        return;
      }
    }
    if Head(left) != Head(right) {
      return false;
    }
    if Head(left) == NUL {
      return true;
    }
    equal := Equal(w, left[1..], right[1..]);
  }

  // Tries the places of the right string that begin with the first character of the left one.
  method ScanRight(w: char, left: string, right: string) returns (equal: bool)
    requires w != NUL && NUL !in left && NUL !in right
    ensures equal == SeekRight(w, left, right)
    decreases |left| + |right|, 1
  {
    hide EqualWild, StrChr, SeekLeft;
    var rstr, k := 0, StrChr(right, Head(left));
    assert right[0..] == right;
    while k >= 0
      invariant rstr <= |right| && k == StrChr(right[rstr..], Head(left))
      invariant SeekRight(w, left, right) <==> SeekRight(w, left, right[rstr..])
      decreases |right| - rstr
    {
      assert right[rstr..][k..] == right[rstr + k..];
      BothEnd(w, left, right[rstr + k..]);
      equal := Equal(w, left, right[rstr + k..]);
      if equal {
        return;
      }
      assert right[rstr..][k + 1..] == right[rstr + k + 1..];
      rstr := rstr + k + 1;
      k := StrChr(right[rstr..], Head(left));
    }
    return false;
  }

  method ScanLeft(w: char, left: string, right: string) returns (equal: bool)
    requires w != NUL && NUL !in left && NUL !in right
    ensures equal == SeekLeft(w, left, right)
    decreases |left| + |right|, 1
  {
    hide EqualWild, StrChr, SeekRight;
    var lstr, k := 0, StrChr(left, Head(right));
    assert left[0..] == left;
    while k >= 0
      invariant lstr <= |left| && k == StrChr(left[lstr..], Head(right))
      invariant SeekLeft(w, left, right) <==> SeekLeft(w, left[lstr..], right)
      decreases |left| - lstr
    {
      assert left[lstr..][k..] == left[lstr + k..];
      BothEnd(w, left[lstr + k..], right);
      equal := Equal(w, left[lstr + k..], right);
      if equal {
        return;
      }
      assert left[lstr..][k + 1..] == left[lstr + k + 1..];
      lstr := lstr + k + 1;
      k := StrChr(left[lstr..], Head(right));
    }
    return false;
  }

  // ---------- symmetry ----------

  lemma {:induction false} Symmetric(w: char, l: string, r: string)
    ensures EqualWild(w, l, r) <==> EqualWild(w, r, l)
    decreases |l| + |r|, 0
  {
    if l != "" {
      SeekSymmetric(w, l[1..], r);
    }
    if r != "" {
      SeekSymmetric(w, r[1..], l);
    }
    if l != "" && r != "" {
      Symmetric(w, l[1..], r[1..]);
    }
  }

  lemma {:induction false} SeekSymmetric(w: char, l: string, r: string)
    ensures SeekRight(w, l, r) <==> SeekLeft(w, r, l)
    decreases |l| + |r|, 1
  {
    var k := StrChr(r, Head(l));
    if k >= 0 {
      Symmetric(w, l, r[k..]);
      if k < |r| {
        SeekSymmetric(w, l, r[k + 1..]);
      }
    }
  }

  // ---------- the language of a pattern ----------

  // A wildcard stands for any string.
  ghost predicate Matches(w: char, pattern: string, s: string)
    decreases |pattern|
  {
    if pattern == "" then s == ""
    else if pattern[0] == w then exists k: nat :: k <= |s| && Matches(w, pattern[1..], s[k..])
    else s != "" && s[0] == pattern[0] && Matches(w, pattern[1..], s[1..])
  }

  predicate NoDouble(w: char, pattern: string) {
    forall i :: 0 < i < |pattern| ==> !(pattern[i - 1] == w && pattern[i] == w)
  }

  // For a subject without wildcards: the comparison succeeds exactly when the pattern has no
  // two wildcards in a row and the subject is in its language.
  lemma {:induction false} ExactLanguage(w: char, p: string, s: string)
    requires w != NUL && NUL !in p && NUL !in s && w !in s
    ensures EqualWild(w, p, s) <==> NoDouble(w, p) && Matches(w, p, s)
    decreases |p| + |s|, 0
  {
    if p != "" {
      NoDoubleTail(w, p);
      if p[0] == w {
        SeekLanguage(w, p[1..], s);
      } else if s != "" {
        ExactLanguage(w, p[1..], s[1..]);
      }
    }
  }

  // Two wildcards in a row stand for the empty string too, but are not equal to it.
  lemma DoubleFails()
    ensures Matches('*', "**", "") && !EqualWild('*', "**", "")
  {
    assert ""[0..] == "" && "**"[1..] == "*" && "*"[1..] == "";
    assert Matches('*', "*", ""[0..]) by {
      assert Matches('*', "", ""[0..]);
    }
    assert "**"[0] == "**"[1] == '*';
    ExactLanguage('*', "**", "");
  }

  lemma NoDoubleTail(w: char, p: string)
    requires p != ""
    ensures NoDouble(w, p) <==> NoDouble(w, p[1..]) && !(p[0] == w && |p| > 1 && p[1] == w)
  {
    var t := p[1..];
    assert forall i :: 0 < i < |p| ==> p[i] == t[i - 1];
    assert forall i :: 0 < i < |t| ==> t[i] == p[i + 1] && t[i - 1] == p[i];
  }

  ghost predicate Somewhere(w: char, p: string, s: string) {
    exists k: nat :: k <= |s| && Matches(w, p, s[k..])
  }

  // A part of s that matches begins at a candidate.
  lemma Candidate(w: char, p: string, s: string, j: nat)
    requires w != NUL && NUL !in p && Head(p) != w && j <= |s| && Matches(w, p, s[j..])
    ensures var k := StrChr(s, Head(p)); 0 <= k <= j || (p == "" && j == |s| == k)
  {
    hide StrChr;
    assert p != "" ==> j < |s| && s[j] == p[0];
  }

  lemma Candidates(w: char, p: string, s: string)
    requires w != NUL && NUL !in p && NUL !in s && w !in s && Head(p) != w
    ensures var k := StrChr(s, Head(p));
            Somewhere(w, p, s) <==> k >= 0 && (Matches(w, p, s[k..]) || (k < |s| && Somewhere(w, p, s[k + 1..])))
  {
    hide StrChr, Matches, Head;
    var k := StrChr(s, Head(p));
    if Somewhere(w, p, s) {
      var j: nat :| j <= |s| && Matches(w, p, s[j..]);
      Candidate(w, p, s, j);
      if j > k {
        assert s[k + 1..][j - k - 1..] == s[j..];
      }
    }
    if 0 <= k < |s| && Somewhere(w, p, s[k + 1..]) {
      var j: nat :| j <= |s[k + 1..]| && Matches(w, p, s[k + 1..][j..]);
      assert s[k + 1..][j..] == s[k + 1 + j..];
    }
  }

  lemma NotFound(c: char, s: string)
    requires c != NUL && c !in s
    ensures StrChr(s, c) == -1
  {}

  // What follows a wildcard is looked for at every place where it can begin.
  lemma {:induction false} SeekLanguage(w: char, p: string, s: string)
    requires w != NUL && NUL !in p && NUL !in s && w !in s
    ensures SeekRight(w, p, s) <==> NoDouble(w, p) && Head(p) != w && Somewhere(w, p, s)
    decreases |p| + |s|, 1
  {
    hide Matches, Somewhere, NoDouble, EqualWild, SeekLeft, Head, StrChr;
    var k := StrChr(s, Head(p));
    if Head(p) != w {
      Candidates(w, p, s);
    } else {
      NotFound(w, s);
    }
    if k >= 0 {
      ExactLanguage(w, p, s[k..]);
      if k < |s| {
        SeekLanguage(w, p, s[k + 1..]);
      }
    }
  }

  // ---------- wildcards on both sides ----------

  // A pattern with nothing in place of its wildcards.
  function Strip(w: char, p: string): (s: string)
    ensures w !in s && (NUL !in p ==> NUL !in s)
  {
    if p == "" then "" else if p[0] == w then Strip(w, p[1..]) else [p[0]] + Strip(w, p[1..])
  }

  lemma {:induction false} Prefixed(w: char, p: string, q: string, s: string)
    requires Matches(w, q, s)
    ensures Matches(w, p + q, Strip(w, p) + s)
  {
    if p == "" {
      assert p + q == q && Strip(w, p) + s == s;
    } else {
      Prefixed(w, p[1..], q, s);
      assert (p + q)[1..] == p[1..] + q;
      var t := Strip(w, p) + s;
      if p[0] == w {
        assert t[0..] == Strip(w, p[1..]) + s;
      } else {
        assert t[1..] == Strip(w, p[1..]) + s;
      }
    }
  }

  // A wildcard takes up whatever is put in front.
  lemma Absorbed(w: char, p: string, a: string, s: string)
    requires Matches(w, [w] + p, s)
    ensures Matches(w, [w] + p, a + s)
  {
    assert ([w] + p)[1..] == p;
    var k: nat :| k <= |s| && Matches(w, p, s[k..]);
    assert (a + s)[|a| + k..] == s[k..];
  }

  lemma Starred(w: char, p: string, s: string)
    requires Matches(w, p, s)
    ensures Matches(w, [w] + p, s)
  {
    assert ([w] + p)[1..] == p && s[0..] == s;
  }

  // Two patterns that compare equal have a string without wildcards in common.
  lemma {:induction false} Common(w: char, l: string, r: string) returns (s: string)
    requires w != NUL && NUL !in l && NUL !in r && EqualWild(w, l, r)
    ensures w !in s && NUL !in s && Matches(w, l, s) && Matches(w, r, s)
    decreases |l| + |r|, 0
  {
    if l != "" && l[0] == w && SeekRight(w, l[1..], r) {
      s := CommonSeek(w, l[1..], r);
      assert [w] + l[1..] == l;
    } else if r != "" && r[0] == w && SeekLeft(w, l, r[1..]) {
      SeekSymmetric(w, r[1..], l);
      s := CommonSeek(w, r[1..], l);
      assert [w] + r[1..] == r;
    } else if l == "" || r == "" {
      s := "";
    } else {
      var t := Common(w, l[1..], r[1..]);
      Prefixed(w, l[..1], l[1..], t);
      Prefixed(w, r[..1], r[1..], t);
      s := Strip(w, l[..1]) + t;
      assert l[..1] == r[..1] && l == l[..1] + l[1..] && r == r[..1] + r[1..];
    }
  }

  lemma {:induction false} CommonSeek(w: char, p: string, r: string) returns (s: string)
    requires w != NUL && NUL !in p && NUL !in r && SeekRight(w, p, r)
    ensures w !in s && NUL !in s && Matches(w, [w] + p, s) && Matches(w, r, s)
    decreases |p| + |r|, 1
  {
    hide EqualWild, SeekLeft, Matches, Strip, Head;
    var k := StrChr(r, Head(p));
    var j: nat, t := k, "";
    if EqualWild(w, p, r[k..]) {
      t := Common(w, p, r[k..]);
      Starred(w, p, t);
    } else {
      j := k + 1;
      t := CommonSeek(w, p, r[k + 1..]);
    }
    s := Strip(w, r[..j]) + t;
    Prefixed(w, r[..j], r[j..], t);
    assert r == r[..j] + r[j..];
    Absorbed(w, p, Strip(w, r[..j]), t);
  }

  // The converse does not hold: here the wildcards would have to overlap.
  lemma OverlapFails()
    ensures Matches('*', "a*", "ab") && Matches('*', "*b", "ab") && !EqualWild('*', "a*", "*b")
  {
    assert "a*"[1..] == "*" && "*"[1..] == "" && "ab"[1..] == "b" && "b"[1..] == "" && "*b"[1..] == "b";
    assert Matches('*', "", "b"[1..]) && Matches('*', "b", "ab"[1..]);
    assert StrChr("a*", 'b') == -1;
  }
}
