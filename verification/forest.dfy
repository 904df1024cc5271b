/** The shape of a pre-order flat entry list. Each element carries the number
    of its DIRECT children (a file, or an empty directory, has none); the
    children's own subtrees follow each one immediately. */
module Forest {
  import opened Wrappers

  /** Where `n` consecutive pre-order trees starting at index `i` of `ar`
      end, or None when the list runs out first. */
  function Trees(ar: seq<nat>, i: nat, n: nat): (r: Option<nat>)
    requires i <= |ar|
    ensures r.Some? ==> i + n <= r.value <= |ar|
    decreases |ar| - i, n
  {
    if n == 0 then Some(i)
    else if i == |ar| then None
    else
      match Trees(ar, i + 1, ar[i])
      case None => None
      case Some(j) => Trees(ar, j, n - 1)
  }

  /** The sum of ar[i..j]. */
  function SumRange(ar: seq<nat>, i: nat, j: nat): nat
    requires i <= j <= |ar|
    decreases j - i
  {
    if i == j then 0 else ar[i] + SumRange(ar, i + 1, j)
  }

  lemma {:induction false} SumRangeSplit(ar: seq<nat>, i: nat, j: nat, k: nat)
    requires i <= j <= k <= |ar|
    ensures SumRange(ar, i, k) == SumRange(ar, i, j) + SumRange(ar, j, k)
    decreases j - i
  {
    if i < j {
      SumRangeSplit(ar, i + 1, j, k);
    }
  }

  /** Whether the elements from i on form n trees does not depend on what
      follows them. */
  lemma {:induction false} TreesExtend(ar: seq<nat>, tail: seq<nat>, i: nat, n: nat)
    requires i <= |ar|
    requires Trees(ar, i, n).Some?
    ensures Trees(ar + tail, i, n) == Trees(ar, i, n)
    decreases |ar| - i, n
  {
    if n > 0 {
      assert (ar + tail)[i] == ar[i];
      TreesExtend(ar, tail, i + 1, ar[i]);
      var j := Trees(ar, i + 1, ar[i]).value;
      TreesExtend(ar, tail, j, n - 1);
    }
  }

  /** n trees spanning ar[i..j]: every element other than the n roots is
      counted exactly once, as a direct child of its parent, so the child
      counts are counts of direct children and not of all descendants. */
  lemma {:induction false} TreesCount(ar: seq<nat>, i: nat, n: nat)
    requires i <= |ar|
    requires Trees(ar, i, n).Some?
    ensures var j := Trees(ar, i, n).value; j - i == n + SumRange(ar, i, j)
    decreases |ar| - i, n
  {
    if n > 0 {
      var j1 := Trees(ar, i + 1, ar[i]).value;
      var j := Trees(ar, j1, n - 1).value;
      TreesCount(ar, i + 1, ar[i]);
      TreesCount(ar, j1, n - 1);
      SumRangeSplit(ar, i + 1, j1, j);
    }
  }

  /** n == m + 1 trees taken apart: the first root, its children's trees,
      and the m trees after them. */
  lemma TreesSplit(ar: seq<nat>, i: nat, n: nat, m: nat, j: nat) returns (j1: nat)
    requires i <= |ar| && n == m + 1
    requires Trees(ar, i, n) == Some(j)
    ensures i < |ar| && i + 1 <= j1 <= j
    ensures Trees(ar, i + 1, ar[i]) == Some(j1)
    ensures Trees(ar, j1, m) == Some(j)
  {
    j1 := Trees(ar, i + 1, ar[i]).value;
  }
}
