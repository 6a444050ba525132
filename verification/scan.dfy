/** Sums and the prefix scan that numbers coarse dofs across ranks.

    `MPI_Scan(..., MPI_SUM)` gives rank `r` the sum of the counts of ranks
    0..r inclusive; subtracting the rank's own count leaves the exclusive prefix
    sum, the first global id of the rank's coarse dofs. The collective is
    modelled as a pure function of the list of all ranks' counts. */
module Scan {

  function Sum(s: seq<int>): int {
    if |s| == 0 then 0 else Sum(s[..|s| - 1]) + s[|s| - 1]
  }

  predicate NonNegative(s: seq<int>) {
    forall i :: 0 <= i < |s| ==> s[i] >= 0
  }

  /** A sum of counts is never negative. */
  lemma {:induction false} SumOfCounts(s: seq<nat>)
    ensures Sum(s) >= 0
  {
    if |s| > 0 {
      SumOfCounts(s[..|s| - 1]);
    }
  }

  lemma SumStep(s: seq<int>, i: nat)
    requires i < |s|
    ensures Sum(s[..i + 1]) == Sum(s[..i]) + s[i]
  {
    assert s[..i + 1][..i] == s[..i];
  }

  lemma SumWhole(s: seq<int>)
    ensures Sum(s[..|s|]) == Sum(s)
  {
    assert s[..|s|] == s;
  }

  /** Prefix sums of non-negative counts never decrease. */
  lemma {:induction false} SumMonotone(s: seq<int>, i: nat, j: nat)
    requires NonNegative(s)
    requires i <= j <= |s|
    ensures Sum(s[..i]) <= Sum(s[..j])
  {
    if i < j {
      SumMonotone(s, i, j - 1);
      SumStep(s, j - 1);
    }
  }

  /** What `MPI_Scan` with `MPI_SUM` hands to rank `rank`. */
  function InclusiveScan(counts: seq<int>, rank: nat): int
    requires rank < |counts|
  {
    Sum(counts[..rank + 1])
  }

  /** `coarse_truedof_offset`: the inclusive scan minus the rank's own count,
      which is the sum of the counts of all lower ranks. */
  function CoarseTruedofOffset(counts: seq<int>, rank: nat): (offset: int)
    requires rank < |counts|
    ensures offset == Sum(counts[..rank])
  {
    SumStep(counts, rank);
    InclusiveScan(counts, rank) - counts[rank]
  }

  /** The next rank's numbering starts right after this rank's last coarse dof. */
  lemma OffsetsContiguous(counts: seq<int>, rank: nat)
    requires rank + 1 < |counts|
    ensures CoarseTruedofOffset(counts, rank + 1) == CoarseTruedofOffset(counts, rank) + counts[rank]
  {
    SumStep(counts, rank);
  }

  /** The last rank's numbering ends at the global number of coarse dofs. */
  lemma OffsetsCoverTotal(counts: seq<int>)
    requires |counts| > 0
    ensures CoarseTruedofOffset(counts, |counts| - 1) + counts[|counts| - 1] == Sum(counts)
  {
    SumStep(counts, |counts| - 1);
    SumWhole(counts);
  }

  /** Global id `offset(rank) + k` of a rank's k-th local coarse dof lies in [0, total). */
  lemma GlobalIdInRange(counts: seq<int>, rank: nat, k: int)
    requires NonNegative(counts)
    requires rank < |counts| && 0 <= k < counts[rank]
    ensures 0 <= CoarseTruedofOffset(counts, rank) + k < Sum(counts)
  {
    SumMonotone(counts, 0, rank);
    assert counts[..0] == [];
    SumStep(counts, rank);
    SumMonotone(counts, rank + 1, |counts|);
    SumWhole(counts);
  }

  /** Two different local coarse dofs, on the same or on different ranks,
      receive different global ids. */
  lemma GlobalIdsDistinct(counts: seq<int>, r: nat, k: int, s: nat, l: int)
    requires NonNegative(counts)
    requires r < |counts| && 0 <= k < counts[r]
    requires s < |counts| && 0 <= l < counts[s]
    requires r != s || k != l
    ensures CoarseTruedofOffset(counts, r) + k != CoarseTruedofOffset(counts, s) + l
  {
    if r < s {
      SumStep(counts, r);
      SumMonotone(counts, r + 1, s);
    } else if s < r {
      SumStep(counts, s);
      SumMonotone(counts, s + 1, r);
    }
  }
}
