/** `contrib_filter_boundary`: zero the entries of a contribution matrix that
    are exactly zero or sit on an essential-boundary dof (when boundary
    avoidance is on), then drop every column left entirely zero, keeping the
    surviving columns in their original order. */
module BoundaryFilter {
  import opened Dense
  import opened Outcomes

  /** What the filter needs besides the matrix: the MIS-local-to-fine row map
      (`restriction`), the avoid-boundary switch, and the boundary dofs. */
  datatype Mask = Mask(restriction: seq<nat>, avoid: bool, essBdr: set<nat>) {

    /** The row map covers a column of `height` entries. */
    predicate Covers(height: nat) {
      height <= |restriction|
    }

    /** Entry `a` at MIS-local row `j` is zeroed by the filter. */
    predicate Zeroed(a: real, j: nat)
      requires j < |restriction|
    {
      a == 0.0 || (avoid && restriction[j] in essBdr)
    }
  }

  /** The column after filtering: zeroed entries become 0.0, all others are kept. */
  function FilterColumn(c: Column, mask: Mask): Column
    requires mask.Covers(|c|)
  {
    seq(|c|, j requires 0 <= j < |c| => if mask.Zeroed(c[j], j) then 0.0 else c[j])
  }

  /** The column keeps at least one entry, so the filter does not drop it. */
  predicate Survives(c: Column, mask: Mask)
    requires mask.Covers(|c|)
  {
    exists j :: 0 <= j < |c| && !mask.Zeroed(c[j], j)
  }

  predicate CoveredColumns(cols: seq<Column>, mask: Mask) {
    forall i :: 0 <= i < |cols| ==> mask.Covers(|cols[i]|)
  }

  /** Reference definition: the indices, among the first `n` columns, of the
      columns that survive, in increasing order. */
  ghost function KeptIndices(cols: seq<Column>, n: nat, mask: Mask): (kept: seq<nat>)
    requires n <= |cols| && CoveredColumns(cols, mask)
    ensures |kept| <= n
    ensures forall k :: 0 <= k < |kept| ==> kept[k] < n
    ensures forall k, l :: 0 <= k < l < |kept| ==> kept[k] < kept[l]
    ensures forall i :: 0 <= i < n ==> (i in kept <==> Survives(cols[i], mask))
  {
    if n == 0 then []
    else KeptIndices(cols, n - 1, mask) + (if Survives(cols[n - 1], mask) then [n - 1] else [])
  }

  /** Reference definition: the filtered surviving columns among the first `n`. */
  ghost function SurvivorsUpTo(cols: seq<Column>, n: nat, mask: Mask): seq<Column>
    requires n <= |cols| && CoveredColumns(cols, mask)
  {
    var kept := KeptIndices(cols, n, mask);
    seq(|kept|, k requires 0 <= k < |kept| => FilterColumn(cols[kept[k]], mask))
  }

  ghost function Survivors(local: Matrix, mask: Mask): seq<Column>
    requires local.Valid() && mask.Covers(local.height)
  {
    SurvivorsUpTo(local.cols, |local.cols|, mask)
  }

  lemma SurvivorsStep(cols: seq<Column>, n: nat, mask: Mask)
    requires n < |cols| && CoveredColumns(cols, mask)
    ensures SurvivorsUpTo(cols, n + 1, mask)
         == SurvivorsUpTo(cols, n, mask) + (if Survives(cols[n], mask) then [FilterColumn(cols[n], mask)] else [])
  {
  }

  /** One pass of the inner loop of `contrib_filter_boundary`: the filtered column, and whether
      any entry was kept (`atleastone`). */
  method FilterOneColumn(column: Column, mask: Mask) returns (newColumn: Column, atLeastOne: bool)
    requires mask.Covers(|column|)
    ensures newColumn == FilterColumn(column, mask)
    ensures atLeastOne == Survives(column, mask)
  {
    newColumn := [];
    atLeastOne := false;
    for j := 0 to |column|
      invariant |newColumn| == j
      invariant forall t :: 0 <= t < j ==> newColumn[t] == (if mask.Zeroed(column[t], t) then 0.0 else column[t])
      invariant atLeastOne <==> exists t :: 0 <= t < j && !mask.Zeroed(column[t], t)
    {
      if column[j] == 0.0 || (mask.avoid && mask.restriction[j] in mask.essBdr) {
        newColumn := newColumn + [0.0];
      } else {
        atLeastOne := true;
        newColumn := newColumn + [column[j]];
      }
    }
  }

  method FilterBoundary(local: Matrix, mask: Mask) returns (r: Result<Matrix>)
    requires local.Valid() && mask.Covers(local.height)
    ensures r.Err? <==> local.Width() == 0
    ensures r.Err? ==> r.error == NonPositiveWidth
    ensures r.Ok? ==> r.value.Valid() && r.value.height == local.height
    ensures r.Ok? ==> r.value.Width() <= local.Width()
    ensures r.Ok? ==> r.value.cols == Survivors(local, mask)
  {
    if |local.cols| == 0 {
      return Err(NonPositiveWidth);
    }
    var out: seq<Column> := [];
    for i := 0 to |local.cols|
      invariant out == SurvivorsUpTo(local.cols, i, mask)
      invariant |out| <= i
      invariant forall k :: 0 <= k < |out| ==> |out[k]| == local.height
    {
      var newColumn, atLeastOne := FilterOneColumn(local.cols[i], mask);
      FilterBoundaryStep(local, mask, i, out);
      if atLeastOne {
        out := out + [newColumn];
      }
    }
    r := Ok(Matrix(local.height, out));
  }

  /** One column of the loop of `contrib_filter_boundary`: the output grows by
      the column's filtered copy exactly when it survives, and stays a list of
      columns of the matrix's height. */
  lemma FilterBoundaryStep(local: Matrix, mask: Mask, i: nat, out: seq<Column>)
    requires local.Valid() && mask.Covers(local.height) && i < local.Width()
    requires out == SurvivorsUpTo(local.cols, i, mask) && |out| <= i
    requires forall k :: 0 <= k < |out| ==> |out[k]| == local.height
    ensures var next := out + (if Survives(local.cols[i], mask) then [FilterColumn(local.cols[i], mask)] else []);
            && next == SurvivorsUpTo(local.cols, i + 1, mask) && |next| <= i + 1
            && forall k :: 0 <= k < |next| ==> |next[k]| == local.height
  {
    SurvivorsStep(local.cols, i, mask);
  }

  /** When every column survives, the kept indices are all of 0..n-1. */
  lemma {:induction false} AllSurviveKeepsAll(cols: seq<Column>, n: nat, mask: Mask)
    requires n <= |cols| && CoveredColumns(cols, mask)
    requires forall i :: 0 <= i < n ==> Survives(cols[i], mask)
    ensures KeptIndices(cols, n, mask) == seq(n, i => i)
  {
    if n > 0 {
      AllSurviveKeepsAll(cols, n - 1, mask);
    }
  }

  /** Filtering is idempotent: a filtered matrix passes through the filter unchanged. */
  lemma FilterIdempotent(local: Matrix, mask: Mask)
    requires local.Valid() && mask.Covers(local.height)
    ensures var once := Matrix(local.height, Survivors(local, mask));
            once.Valid() && Survivors(once, mask) == once.cols
  {
    var kept := KeptIndices(local.cols, |local.cols|, mask);
    var once := Survivors(local, mask);
    forall k | 0 <= k < |once|
      ensures |once[k]| == local.height
      ensures Survives(once[k], mask)
      ensures FilterColumn(once[k], mask) == once[k]
    {
      var c := local.cols[kept[k]];
      assert Survives(c, mask);
      var j :| 0 <= j < |c| && !mask.Zeroed(c[j], j);
      assert once[k][j] == c[j];
    }
    AllSurviveKeepsAll(once, |once|, mask);
  }

  /** A column is absent from the output exactly when every one of its entries
      was zeroed; otherwise its filtered copy appears at the position of its
      index among the kept indices, which are increasing, so order is kept. */
  lemma DroppedIffAllZeroed(local: Matrix, mask: Mask, i: nat)
    requires local.Valid() && mask.Covers(local.height) && i < local.Width()
    ensures (forall j :: 0 <= j < local.height ==> mask.Zeroed(local.cols[i][j], j))
        <==> i !in KeptIndices(local.cols, |local.cols|, mask)
    ensures i in KeptIndices(local.cols, |local.cols|, mask) ==>
              exists k :: 0 <= k < |Survivors(local, mask)|
                       && KeptIndices(local.cols, |local.cols|, mask)[k] == i
                       && Survivors(local, mask)[k] == FilterColumn(local.cols[i], mask)
  {
    var kept := KeptIndices(local.cols, |local.cols|, mask);
    if i in kept {
      var k :| 0 <= k < |kept| && kept[k] == i;
      assert Survivors(local, mask)[k] == FilterColumn(local.cols[i], mask);
    }
  }

  /** The boundary-filter example: 3 rows, 2 columns, column 0 nonzero only on
      a boundary row, avoidance on. Column 0 is dropped, width 1 remains. */
  lemma DropsBoundaryOnlyColumn(a: real, b0: real, b1: real, b2: real)
    requires b1 != 0.0 || b2 != 0.0
    ensures var local := Matrix(3, [[a, 0.0, 0.0], [b0, b1, b2]]);
            var mask := Mask([10, 11, 12], true, {10});
            Survivors(local, mask) == [[0.0, b1, b2]]
  {
    var local := Matrix(3, [[a, 0.0, 0.0], [b0, b1, b2]]);
    var mask := Mask([10, 11, 12], true, {10});
    assert !Survives(local.cols[0], mask);
    assert Survives(local.cols[1], mask) by {
      if b1 != 0.0 { assert !mask.Zeroed(local.cols[1][1], 1); }
      else { assert !mask.Zeroed(local.cols[1][2], 2); }
    }
    assert KeptIndices(local.cols, 1, mask) == [];
    assert KeptIndices(local.cols, 2, mask) == [1];
    var f := FilterColumn(local.cols[1], mask);
    assert f[0] == 0.0 && f[1] == b1 && f[2] == b2;
    assert f == [0.0, b1, b2];
  }
}
