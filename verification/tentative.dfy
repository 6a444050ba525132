/** The tentative prolongator under construction (`ContribTent`): a sparse
    matrix with `rows` fine rows whose columns are filled left to right by a
    running counter `filledCols`, and its finalisation to a matrix of exactly
    `filledCols` columns. */
module Tentative {
  import opened Dense
  import opened Outcomes

  datatype Builder = Builder(
    rows: nat,                           // fine dofs (`rows`, the constructor's ND)
    filledCols: nat,                     // columns used so far (`filled_cols`)
    avoidEssBdr: bool,                   // `avoid_ess_bdr_dofs`
    svdEps: real,                        // relative singular-value cutoff (`svd_eps`)
    threshold: real,                     // entries of magnitude at most this are not stored (`threshold_`)
    entries: map<(nat, nat), real>)      // (row, column) -> value of the unfinalised sparse matrix
  {

    /** Every stored entry lies in a row of the operator and in an already filled column. */
    predicate Wf() {
      forall key :: key in entries ==> key.0 < rows && key.1 < filledCols
    }

    /** Only the column counter and the entries differ from `before`, and the
        counter moved on by `n` columns. */
    predicate Advanced(before: Builder, n: nat) {
      && rows == before.rows && avoidEssBdr == before.avoidEssBdr
      && svdEps == before.svdEps && threshold == before.threshold
      && filledCols == before.filledCols + n
    }

    /** Entries present before are still present with the same value. */
    predicate Extends(before: Builder) {
      forall key :: key in before.entries ==> key in entries && entries[key] == before.entries[key]
    }
  }

  /** `ContribTent(ND, avoid)`: no columns yet, cutoff 1e-10, threshold 0. */
  function NewBuilder(nd: nat, avoid: bool): (b: Builder)
    ensures b.Wf() && b.rows == nd && b.filledCols == 0 && b.avoidEssBdr == avoid
    ensures b.entries == map[] && b.threshold == 0.0
  {
    Builder(nd, 0, avoid, 0.0000000001, 0.0, map[])
  }

  /** Column `i` of `local` wrote value `v` into fine row `row`: some MIS-local
      row `j` maps to `row` and holds `v`, of magnitude above the threshold. */
  ghost predicate WrittenFrom(local: Matrix, restriction: seq<nat>, threshold: real, i: nat, row: nat, v: real)
    requires local.Valid() && i < local.Width() && local.height <= |restriction|
  {
    exists j :: 0 <= j < local.height && restriction[j] == row
             && Abs(local.cols[i][j]) > threshold && local.cols[i][j] == v
  }

  /** `contrib_tent_insert_simple`: local column i becomes global column
      `filledCols + i`; each entry of magnitude above the threshold is set at
      its fine row; the counter advances by the local width. */
  method InsertSimple(b: Builder, local: Matrix, restriction: seq<nat>) returns (r: Result<Builder>)
    requires b.Wf()
    requires local.Valid() && local.height <= |restriction|
    requires forall j :: 0 <= j < local.height ==> restriction[j] < b.rows
    ensures r.Err? <==> local.Width() == 0 || local.height < local.Width()
    ensures r.Err? ==> r.error == (if local.Width() == 0 then NonPositiveWidth else HeightBelowWidth)
    ensures r.Ok? ==> r.value.Advanced(b, local.Width())
    ensures r.Ok? ==> r.value.Wf() && r.value.Extends(b)
    ensures r.Ok? ==> forall key :: key in r.value.entries && key !in b.entries ==>
                        b.filledCols <= key.1
                        && WrittenFrom(local, restriction, b.threshold, key.1 - b.filledCols, key.0, r.value.entries[key])
    ensures r.Ok? ==> forall i, j | 0 <= i < local.Width() && 0 <= j < local.height && Abs(local.cols[i][j]) > b.threshold ::
                        (restriction[j], b.filledCols + i) in r.value.entries
  {
    if local.Width() == 0 {
      return Err(NonPositiveWidth);
    }
    if local.height < local.Width() {
      return Err(HeightBelowWidth);
    }
    var entries := b.entries;
    var col := b.filledCols;
    for i := 0 to local.Width()
      invariant col == b.filledCols + i
      invariant forall key :: key in b.entries ==> key in entries && entries[key] == b.entries[key]
      invariant forall key :: key in entries && key !in b.entries ==>
                  b.filledCols <= key.1 < col && key.0 < b.rows
                  && WrittenFrom(local, restriction, b.threshold, key.1 - b.filledCols, key.0, entries[key])
      invariant forall i', j | 0 <= i' < i && 0 <= j < local.height && Abs(local.cols[i'][j]) > b.threshold ::
                  (restriction[j], b.filledCols + i') in entries
    {
      entries := SetColumn(b, entries, local, restriction, i, col);
      col := col + 1;
    }
    r := Ok(b.(filledCols := col, entries := entries));
  }

  /** The inner loop of the insertion: set the entries of local column `i`
      into global column `col`. */
  method SetColumn(b: Builder, entries0: map<(nat, nat), real>, local: Matrix, restriction: seq<nat>, i: nat, col: nat)
    returns (entries: map<(nat, nat), real>)
    requires b.Wf() && col >= b.filledCols && col - b.filledCols == i
    requires local.Valid() && i < local.Width() && local.height <= |restriction|
    requires forall j :: 0 <= j < local.height ==> restriction[j] < b.rows
    requires forall key :: key in b.entries ==> key in entries0 && entries0[key] == b.entries[key]
    requires forall key :: key in entries0 && key !in b.entries ==>
               b.filledCols <= key.1 < col && key.0 < b.rows
               && WrittenFrom(local, restriction, b.threshold, key.1 - b.filledCols, key.0, entries0[key])
    ensures forall key :: key in entries0 ==> key in entries && entries[key] == entries0[key]
    ensures forall key :: key in entries && key !in b.entries ==>
              b.filledCols <= key.1 < col + 1 && key.0 < b.rows
              && WrittenFrom(local, restriction, b.threshold, key.1 - b.filledCols, key.0, entries[key])
    ensures forall j :: 0 <= j < local.height && Abs(local.cols[i][j]) > b.threshold ==> (restriction[j], col) in entries
  {
    entries := entries0;
    for j := 0 to local.height
      invariant forall key :: key in entries0 ==> key in entries && entries[key] == entries0[key]
      invariant forall key :: key in entries && key !in b.entries ==>
                  b.filledCols <= key.1 < col + 1 && key.0 < b.rows
                  && WrittenFrom(local, restriction, b.threshold, key.1 - b.filledCols, key.0, entries[key])
      invariant forall t :: 0 <= t < j && Abs(local.cols[i][t]) > b.threshold ==> (restriction[t], col) in entries
    {
      var v := local.cols[i][j];
      if Abs(v) > b.threshold {
        assert (restriction[j], col) !in entries0;
        entries := entries[(restriction[j], col) := v];
      }
    }
  }

  /** With pairwise distinct MIS rows (as an MIS's dof list is), every inserted
      entry holds exactly the local value at its position. */
  lemma InsertedValueExact(local: Matrix, restriction: seq<nat>, threshold: real, i: nat, j: nat, v: real)
    requires local.Valid() && i < local.Width() && local.height <= |restriction|
    requires forall s, t :: 0 <= s < t < local.height ==> restriction[s] != restriction[t]
    requires j < local.height
    requires WrittenFrom(local, restriction, threshold, i, restriction[j], v)
    ensures v == local.cols[i][j] && Abs(v) > threshold
  {
  }

  /** `basis` fits the MIS rows `dofs`, and its entries sit in the matrix at
      their MIS row and at column `start + i` for their basis column `i`: an
      entry of magnitude above the threshold is stored with its value, any
      other is not stored. */
  ghost predicate BasisPlaced(basis: Matrix, dofs: seq<nat>, threshold: real, start: nat, entries: map<(nat, nat), real>) {
    && basis.Valid() && basis.height <= |dofs|
    && forall i, j :: 0 <= i < basis.Width() && 0 <= j < basis.height ==>
         EntryPlaced(basis.cols[i][j], dofs[j], start + i, threshold, entries)
  }

  /** Value `v` at (`row`, `col`) is stored when its magnitude is above the
      threshold and absent otherwise (`if (fabs(v) > threshold_) Set(...)`). */
  predicate EntryPlaced(v: real, row: nat, col: nat, threshold: real, entries: map<(nat, nat), real>) {
    Stored(entries, row, col) == if Abs(v) > threshold then Some(v) else None
  }

  /** The value stored at (`row`, `col`), if any. */
  function Stored(entries: map<(nat, nat), real>, row: nat, col: nat): (v: Option<real>)
    ensures v.Some? <==> (row, col) in entries
    ensures v.Some? ==> v.value == entries[(row, col)]
  {
    if (row, col) in entries then Some(entries[(row, col)]) else None
  }

  /** What `InsertSimple` promises about the new entries places the whole
      basis, values included, when its MIS rows are distinct. */
  lemma InsertedPlaced(b: Builder, local: Matrix, restriction: seq<nat>, after: map<(nat, nat), real>)
    requires b.Wf() && local.Valid() && local.height <= |restriction|
    requires forall s, t :: 0 <= s < t < local.height ==> restriction[s] != restriction[t]
    requires forall key {:trigger after[key]} :: key in after && key !in b.entries ==>
               b.filledCols <= key.1 < b.filledCols + local.Width()
               && WrittenFrom(local, restriction, b.threshold, key.1 - b.filledCols, key.0, after[key])
    requires forall i, j | 0 <= i < local.Width() && 0 <= j < local.height && Abs(local.cols[i][j]) > b.threshold ::
               (restriction[j], b.filledCols + i) in after
    ensures BasisPlaced(local, restriction, b.threshold, b.filledCols, after)
  {
    forall i, j | 0 <= i < local.Width() && 0 <= j < local.height
      ensures EntryPlaced(local.cols[i][j], restriction[j], b.filledCols + i, b.threshold, after)
    {
      var key: (nat, nat) := (restriction[j], b.filledCols + i);
      if key in after {
        assert key !in b.entries;
        assert WrittenFrom(local, restriction, b.threshold, i, restriction[j], after[key]);
        InsertedValueExact(local, restriction, b.threshold, i, j, after[key]);
      }
    }
  }

  /** A finalised sparse matrix of `height` x `width` with its stored entries. */
  datatype Sparse = Sparse(height: nat, width: nat, entries: map<(nat, nat), real>) {
    predicate Valid() {
      forall key :: key in entries ==> key.0 < height && key.1 < width
    }
  }

  /** `contrib_tent_finalize`: the operator with `rows` rows and exactly
      `filledCols` columns; no stored entry falls outside it, and a builder that
      never filled a column yields an operator with no entries (`contrib_tent_finalize` only
      warns about it). */
  function Finalize(b: Builder): (p: Sparse)
    requires b.Wf()
    ensures p.Valid() && p.height == b.rows && p.width == b.filledCols
    ensures forall key :: key in p.entries <==> key in b.entries
    ensures forall key :: key in p.entries ==> p.entries[key] == b.entries[key]
    ensures b.filledCols == 0 ==> p.entries == map[]
  {
    Sparse(b.rows, b.filledCols, b.entries)
  }
}
