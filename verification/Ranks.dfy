/** Integer binary logarithms, the ranks of the splay-tree potential. */
module Ranks {

  function Log2(n: nat): (k: nat)
    requires n > 0
  {
    if n == 1 then 0 else 1 + Log2(n / 2)
  }

  function Pow2(k: nat): (p: nat)
    ensures p > 0
  {
    if k == 0 then 1 else 2 * Pow2(k - 1)
  }

  // Log2 is the integer part of the binary logarithm.
  lemma {:induction false} Log2Bounds(n: nat)
    requires n > 0
    ensures Pow2(Log2(n)) <= n < 2 * Pow2(Log2(n))
  {
    if n > 1 {
      Log2Bounds(n / 2);
    }
  }

  lemma {:induction false} Log2Monotone(m: nat, n: nat)
    requires 0 < m <= n
    ensures Log2(m) <= Log2(n)
  {
    if m > 1 {
      Log2Monotone(m / 2, n / 2);
    }
  }

  lemma Log2Double(n: nat)
    requires n > 0
    ensures Log2(2 * n) == 1 + Log2(n)
  {
    assert 2 * n / 2 == n;
  }

  // Two disjoint parts of rank k make a whole of rank above k.
  lemma {:induction false} RankSum(m: nat, n: nat, whole: nat)
    requires m > 0 && n > 0 && m + n <= whole && Log2(m) == Log2(n)
    ensures Log2(whole) > Log2(m)
  {
    var least := if m < n then m else n;
    Log2Double(least);
    Log2Monotone(2 * least, whole);
  }

  // The cost of one double rotation.  x and y are the old sizes of the subtrees of the
  // node that rises and of its parent, z the size of the whole, y' and z' the new sizes
  // of the subtrees of the former parent and grandparent.
  lemma {:induction false} DoubleRotation(x: nat, y: nat, z: nat, y': nat, z': nat)
    requires 0 < x <= y <= z && 0 < y' <= z && 0 < z' <= z
    requires x + z' <= z || y' + z' <= z
    ensures 1 + Log2(y') + Log2(z') + 2 * Log2(x) <= Log2(y) + 3 * Log2(z)
  {
    Log2Monotone(x, y);
    Log2Monotone(y, z);
    Log2Monotone(y', z);
    Log2Monotone(z', z);
    if Log2(x) == Log2(z) {
      if Log2(y') == Log2(z) && Log2(z') == Log2(z) {
        if x + z' <= z {
          RankSum(x, z', z);
        } else {
          RankSum(y', z', z);
        }
      }
    }
  }
}
