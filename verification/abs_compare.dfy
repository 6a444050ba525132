/** `abs_pair_compare`: the qsort comparator on (value, index) pairs that
    orders by the magnitude of the value alone; the index never takes part. */
module AbsCompare {
  import opened Dense

  function AbsPairCompare(a: (real, int), b: (real, int)): (r: int)
    ensures r == -1 || r == 0 || r == 1
    ensures r == -1 <==> Abs(a.0) < Abs(b.0)
    ensures r == 1 <==> Abs(a.0) > Abs(b.0)
    ensures r == 0 <==> Abs(a.0) == Abs(b.0)
  {
    if Abs(a.0) < Abs(b.0) then -1
    else if Abs(a.0) > Abs(b.0) then 1
    else 0
  }

  /** Swapping the arguments negates the answer. */
  lemma Antisymmetric(a: (real, int), b: (real, int))
    ensures AbsPairCompare(a, b) == -AbsPairCompare(b, a)
  {
  }

  /** The comparator is a total preorder, as qsort requires: "not greater" is transitive. */
  lemma Transitive(a: (real, int), b: (real, int), c: (real, int))
    requires AbsPairCompare(a, b) <= 0 && AbsPairCompare(b, c) <= 0
    ensures AbsPairCompare(a, c) <= 0
  {
  }

  /** Pairs differing only in index, or in the sign of the value, compare equal. */
  lemma IgnoresIndexAndSign(v: real, i: int, j: int)
    ensures AbsPairCompare((v, i), (-v, j)) == 0
  {
  }
}
