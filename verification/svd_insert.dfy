/** `SVDInsert`: for every MIS, choose the local basis (empty for a MIS this
    rank does not own or whose dofs all lie on the essential boundary, the 1x1
    identity for a single-dof MIS, otherwise the truncated left singular
    vectors of the boundary-filtered contributions), insert it into the
    tentative prolongator at the next free columns, and record how many
    coarse dofs it contributes. */
module SvdInsertion {
  import opened Dense
  import opened Outcomes
  import opened Partition
  import opened BoundaryFilter
  import opened Tentative
  import opened Extension
  import opened Scan

  /** What the decomposition and the orthonormal-set selection deliver
      (`xpack_svd_dense_arr` followed by `xpack_orth_set`): a well-formed basis
      of height `height`, with at most `total` columns (the input columns) and
      at most `height` (its columns are orthonormal). */
  predicate SvdFits(basis: Matrix, height: nat, total: nat) {
    basis.Valid() && basis.height == height && basis.Width() <= total && basis.Width() <= height
  }

  /** The decomposition step, taken as a parameter: on blocks of a common
      height it returns a basis that fits them. */
  ghost predicate IsTruncatedSvd(svd: seq<Matrix> -> Matrix) {
    forall blocks: seq<Matrix> {:trigger svd(blocks)} :: |blocks| > 0 && AllOfHeight(blocks, blocks[0].height) ==>
      SvdFits(svd(blocks), blocks[0].height, TotalWidth(blocks))
  }

  /** The received contributions of an owned MIS: at least one matrix, all of
      one height, and at least `rowSize` of them. */
  predicate ReceivedFit(blocks: seq<Matrix>, rowSize: nat) {
    |blocks| >= 1 && rowSize <= |blocks| && AllOfHeight(blocks, blocks[0].height)
  }

  /** Boundary avoidance is on and every dof of the MIS is on the essential boundary. */
  predicate Skipped(avoid: bool, rels: Rels, mis: nat)
    requires rels.Wf() && mis < rels.NumMises()
  {
    avoid && rels.AllOnEssentialBorder(mis)
  }

  /** The owned MIS makes `SVDInsert` abort: its contribution height differs
      from its size, or the filter meets a contribution without columns. */
  predicate MisFails(avoid: bool, rels: Rels, mis: nat, blocks: seq<Matrix>, rowSize: nat)
    requires rels.Wf() && mis < rels.NumMises() && ReceivedFit(blocks, rowSize)
  {
    || blocks[0].height != |rels.misDofs[mis]|
    || (!Skipped(avoid, rels, mis) && blocks[0].height != 1
        && exists q :: 0 <= q < rowSize && blocks[q].Width() == 0)
  }

  /** The boundary-filtered copies of the first `n` contributions: what the
      decomposition sees. */
  ghost function FilteredBlocks(blocks: seq<Matrix>, n: nat, mask: Mask): (f: seq<Matrix>)
    requires n <= |blocks| && forall q :: 0 <= q < |blocks| ==> blocks[q].Valid() && mask.Covers(blocks[q].height)
    ensures |f| == n
  {
    seq(n, (q: int) requires 0 <= q < n => Matrix(blocks[q].height, Survivors(blocks[q], mask)))
  }

  lemma FilteredBlocksStep(blocks: seq<Matrix>, n: nat, mask: Mask)
    requires n < |blocks| && forall q :: 0 <= q < |blocks| ==> blocks[q].Valid() && mask.Covers(blocks[q].height)
    ensures FilteredBlocks(blocks, n + 1, mask) == FilteredBlocks(blocks, n, mask) + [Matrix(blocks[n].height, Survivors(blocks[n], mask))]
  {
  }

  /** The basis chosen for an owned MIS that is neither skipped nor of size 1:
      empty when filtering left no column, otherwise the decomposition's result. */
  ghost function SvdBasis(filtered: seq<Matrix>, dim: nat, svd: seq<Matrix> -> Matrix): Matrix {
    if TotalWidth(filtered) == 0 then Empty(dim) else svd(filtered)
  }

  datatype MisResult = MisResult(builder: Builder, count: nat, basis: Matrix)

  /** The filtering loop: filter the first `rowSize` contributions, failing
      exactly when one of them has no column. */
  method FilterAll(blocks: seq<Matrix>, rowSize: nat, mask: Mask, dim: nat) returns (r: Result<seq<Matrix>>)
    requires ReceivedFit(blocks, rowSize) && blocks[0].height == dim && mask.Covers(dim)
    ensures r.Err? <==> exists q :: 0 <= q < rowSize && blocks[q].Width() == 0
    ensures r.Ok? ==> r.value == FilteredBlocks(blocks, rowSize, mask)
    ensures r.Ok? ==> AllOfHeight(r.value, dim) && TotalWidth(r.value) <= TotalWidth(blocks[..rowSize])
  {
    var filtered: seq<Matrix> := [];
    for q := 0 to rowSize
      invariant filtered == FilteredBlocks(blocks, q, mask)
      invariant AllOfHeight(filtered, dim)
      invariant TotalWidth(filtered) <= TotalWidth(blocks[..q])
      invariant forall t :: 0 <= t < q ==> blocks[t].Width() != 0
    {
      var f := FilterBoundary(blocks[q], mask);
      if f.Err? {
        return Err(f.error);
      }
      FilterAllStep(blocks, q, mask, dim, filtered, f.value);
      filtered := filtered + [f.value];
    }
    r := Ok(filtered);
  }

  /** Appending the filtered copy of contribution `q` keeps the invariants of
      the filtering loop. */
  lemma FilterAllStep(blocks: seq<Matrix>, q: nat, mask: Mask, dim: nat, filtered: seq<Matrix>, next: Matrix)
    requires q < |blocks| && AllOfHeight(blocks, dim) && mask.Covers(dim)
    requires filtered == FilteredBlocks(blocks, q, mask)
    requires AllOfHeight(filtered, dim) && TotalWidth(filtered) <= TotalWidth(blocks[..q])
    requires next.Valid() && next.height == dim && next.Width() <= blocks[q].Width()
    requires next.cols == Survivors(blocks[q], mask)
    ensures filtered + [next] == FilteredBlocks(blocks, q + 1, mask)
    ensures AllOfHeight(filtered + [next], dim)
    ensures TotalWidth(filtered + [next]) <= TotalWidth(blocks[..q + 1])
  {
    TotalWidthStep(blocks, q);
    FilteredBlocksStep(blocks, q, mask);
    TotalWidthStep(filtered + [next], q);
    assert (filtered + [next])[..q] == filtered;
  }

  /** Filter the first `rowSize` contributions and decompose them: fails
      exactly when one of them has no column; otherwise the chosen basis fits
      the MIS and has no more columns than the contributions had. */
  method FilterAndDecompose(blocks: seq<Matrix>, rowSize: nat, mask: Mask, dim: nat, svd: seq<Matrix> -> Matrix)
    returns (r: Result<Matrix>)
    requires IsTruncatedSvd(svd) && ReceivedFit(blocks, rowSize) && blocks[0].height == dim && mask.Covers(dim)
    ensures r.Err? <==> exists q :: 0 <= q < rowSize && blocks[q].Width() == 0
    ensures r.Ok? ==> r.value == SvdBasis(FilteredBlocks(blocks, rowSize, mask), dim, svd)
    ensures r.Ok? ==> SvdFits(r.value, dim, TotalWidth(blocks[..rowSize]))
  {
    var filtered :- FilterAll(blocks, rowSize, mask, dim);
    var total := TotalWidth(filtered);
    if total == 0 {
      r := Ok(Empty(dim));
    } else {
      assert |filtered| > 0;
      assert SvdFits(svd(filtered), dim, total);
      r := Ok(svd(filtered));
    }
  }

  /** Insert an owned MIS's non-empty basis at the next free columns. */
  method InsertBasis(b: Builder, basis: Matrix, dofs: seq<nat>) returns (r: MisResult)
    requires b.Wf() && basis.Valid() && 0 < basis.Width() <= basis.height && basis.height == |dofs|
    requires forall j :: 0 <= j < |dofs| ==> dofs[j] < b.rows
    requires forall s, t :: 0 <= s < t < |dofs| ==> dofs[s] != dofs[t]
    ensures r.count == basis.Width() && r.basis == basis
    ensures r.builder.Advanced(b, r.count)
    ensures r.builder.Wf() && r.builder.Extends(b)
    ensures forall key :: key in r.builder.entries && key !in b.entries ==>
              b.filledCols <= key.1 < b.filledCols + r.count && key.0 in dofs
    ensures BasisPlaced(basis, dofs, b.threshold, b.filledCols, r.builder.entries)
  {
    var inserted := InsertSimple(b, basis, dofs);
    var b' := inserted.value;
    forall key | key in b'.entries && key !in b.entries
      ensures key.0 in dofs
    {
      var j :| 0 <= j < basis.height && dofs[j] == key.0
               && Abs(basis.cols[key.1 - b.filledCols][j]) > b.threshold && basis.cols[key.1 - b.filledCols][j] == b'.entries[key];
    }
    InsertedPlaced(b, basis, dofs, b'.entries);
    r := MisResult(b', b'.filledCols - b.filledCols, basis);
  }

  /** The basis `SVDInsert` chooses for MIS `mis` and the number of coarse dofs
      it records for it (`mis_tent_interps[mis]`, `mis_numcoarsedof[mis]`). */
  ghost predicate ChosenFor(avoid: bool, rels: Rels, rank: int, mis: nat, slot: Option<seq<Matrix>>, rowSize: nat,
                            svd: seq<Matrix> -> Matrix, count: nat, basis: Matrix)
    requires rels.Wf() && mis < rels.NumMises()
    requires rels.Owns(rank, mis) ==> slot.Some? && ReceivedFit(slot.value, rowSize)
  {
    var dofs := rels.misDofs[mis];
    && count == basis.Width()
    && basis.Valid() && basis.height <= |dofs|
    && if !rels.Owns(rank, mis) then
         // not owned: nothing is inserted and the slot keeps an empty 0 x 0 matrix
         count == 0 && basis == Empty(0)
       else
         && slot.value[0].height == |dofs|
         && basis.height == |dofs|
         && if Skipped(avoid, rels, mis) then
              // the all-boundary check comes first, before the single-dof case
              count == 0 && basis == Empty(|dofs|)
            else if |dofs| == 1 then
              basis == Matrix(1, [[1.0]])
            else
              // the decomposition of the filtered contributions, or empty when
              // nothing survived the filter or every singular value was cut
              var chosen := SvdBasis(FilteredBlocks(slot.value, rowSize, Mask(dofs, avoid, rels.essBdr)), |dofs|, svd);
              && (chosen.Width() == 0 ==> basis == Empty(|dofs|))
              && (chosen.Width() > 0 ==> basis == chosen)
              && count <= TotalWidth(slot.value[..rowSize])
  }

  /** One iteration of the loop over MISes in `SVDInsert`. */
  method ProcessMis(b: Builder, rels: Rels, rank: int, mis: nat, slot: Option<seq<Matrix>>, rowSize: nat,
                    svd: seq<Matrix> -> Matrix)
    returns (r: Result<MisResult>)
    requires b.Wf() && rels.Wf() && mis < rels.NumMises() && rels.DofsBelow(b.rows) && rels.DistinctDofs()
    requires IsTruncatedSvd(svd)
    requires rels.Owns(rank, mis) ==> slot.Some? && ReceivedFit(slot.value, rowSize)
    // failures are exactly the assertion failures of `SVDInsert` on an owned MIS
    ensures r.Err? <==> rels.Owns(rank, mis) && MisFails(b.avoidEssBdr, rels, mis, slot.value, rowSize)
    ensures r.Ok? ==> ChosenFor(b.avoidEssBdr, rels, rank, mis, slot, rowSize, svd, r.value.count, r.value.basis)
    ensures r.Ok? ==> r.value.builder.Advanced(b, r.value.count)
    ensures r.Ok? ==> r.value.builder.Wf() && r.value.builder.Extends(b)
    // every new entry lies in this MIS's new columns and on one of its dofs
    ensures r.Ok? ==> forall key :: key in r.value.builder.entries && key !in b.entries ==>
              b.filledCols <= key.1 < b.filledCols + r.value.count && key.0 in rels.misDofs[mis]
    ensures r.Ok? ==> BasisPlaced(r.value.basis, rels.misDofs[mis], b.threshold, b.filledCols, r.value.builder.entries)
  {
    if rels.misMaster[mis] != rank {
      return Ok(MisResult(b, 0, Empty(0)));
    }
    var blocks := slot.value;
    var dofs := rels.misDofs[mis];
    var dim := blocks[0].height;
    if |dofs| != dim {
      return Err(HeightMismatch);
    }
    if b.avoidEssBdr && rels.AllOnEssentialBorder(mis) {
      return Ok(MisResult(b, 0, Empty(dim)));
    }
    var basis: Matrix;
    if dim == 1 {
      basis := Matrix(1, [[1.0]]);
    } else {
      var chosen :- FilterAndDecompose(blocks, rowSize, Mask(dofs, b.avoidEssBdr, rels.essBdr), dim, svd);
      if chosen.Width() == 0 {
        return Ok(MisResult(b, 0, Empty(dim)));
      }
      basis := chosen;
    }
    var inserted := InsertBasis(b, basis, dofs);
    r := Ok(inserted);
  }

  datatype InsertResult = InsertResult(
    builder: Builder,          // the tentative prolongator after every MIS was inserted
    misCounts: seq<nat>,       // `mis_numcoarsedof`
    bases: seq<Matrix>,        // `mis_tent_interps`
    numCoarseDofs: nat,        // coarse dofs this rank created
    truedofOffset: int)        // `coarse_truedof_offset`: global id of this rank's first coarse dof

  /** `Scan.Sum` of counts, itself a count. */
  function NatSum(s: seq<nat>): nat {
    SumOfCounts(s);
    Sum(s)
  }

  lemma NatSumAppend(s: seq<nat>, c: nat)
    ensures NatSum(s + [c]) == NatSum(s) + c
  {
    assert (s + [c])[..|s|] == s;
  }

  /** First local coarse dof of MIS `mis`: the counts of the MISes before it. */
  function MisStart(counts: seq<nat>, mis: nat): nat
    requires mis <= |counts|
  {
    NatSum(counts[..mis])
  }

  /** Appending a count leaves the start of every earlier MIS where it was. */
  lemma MisStartAppend(counts: seq<nat>, c: nat, mis: nat)
    requires mis <= |counts|
    ensures MisStart(counts + [c], mis) == MisStart(counts, mis)
    ensures mis == |counts| ==> MisStart(counts, mis) == NatSum(counts)
  {
    assert (counts + [c])[..mis] == counts[..mis];
    assert counts[..|counts|] == counts;
  }

  /** Entry `key` lies in the block of MIS `mis`: its column, counted from
      `base`, is one of the MIS's columns and its row is one of the MIS's dofs. */
  ghost predicate InMisBlock(rels: Rels, counts: seq<nat>, mis: nat, base: nat, key: (nat, nat))
    requires rels.Wf() && mis < |counts| <= rels.NumMises()
  {
    base + MisStart(counts, mis) <= key.1 < base + MisStart(counts, mis) + counts[mis] && key.0 in rels.misDofs[mis]
  }

  /** The contributions a rank needs for `SVDInsert`: one slot and one row size
      per MIS, and for every MIS it owns a non-empty list of same-height
      matrices, at least `rowSizes[mis]` long. */
  predicate InsertInputs(rels: Rels, rank: int, received: Received, rowSizes: seq<nat>)
    requires rels.Wf()
  {
    && |received| == rels.NumMises() && |rowSizes| == rels.NumMises()
    && forall mis :: 0 <= mis < rels.NumMises() && rels.Owns(rank, mis) ==>
         received[mis].Some? && ReceivedFit(received[mis].value, rowSizes[mis])
  }

  /** Every MIS counted so far got the count and basis `SVDInsert` chooses. */
  ghost predicate AllChosen(avoid: bool, rels: Rels, rank: int, received: Received, rowSizes: seq<nat>,
                            svd: seq<Matrix> -> Matrix, counts: seq<nat>, bases: seq<Matrix>)
    requires rels.Wf() && InsertInputs(rels, rank, received, rowSizes)
  {
    && |bases| == |counts| <= rels.NumMises()
    && forall m :: 0 <= m < |counts| ==>
      ChosenFor(avoid, rels, rank, m, received[m], rowSizes[m], svd, counts[m], bases[m])
  }

  /** The basis of every MIS in `bases` has as many columns as its count and
      is placed, values included, from column `base` plus the counts of the
      MISes before it. */
  ghost predicate AllPlaced(rels: Rels, threshold: real, base: nat, counts: seq<nat>, bases: seq<Matrix>,
                            entries: map<(nat, nat), real>)
    requires rels.Wf()
  {
    && |bases| == |counts| <= rels.NumMises()
    && forall m :: 0 <= m < |bases| ==> BlockPlaced(rels, threshold, base, counts, bases, entries, m)
  }

  /** The basis of MIS `m` has as many columns as its count and is placed,
      values included, from column `base` plus the counts of the MISes before it. */
  ghost predicate BlockPlaced(rels: Rels, threshold: real, base: nat, counts: seq<nat>, bases: seq<Matrix>,
                              entries: map<(nat, nat), real>, m: nat)
    requires rels.Wf()
  {
    && m < |bases| && m < |counts| && m < rels.NumMises()
    && bases[m].Width() == counts[m]
    && BasisPlaced(bases[m], rels.misDofs[m], threshold, base + MisStart(counts, m), entries)
  }

  /** Every entry of `entries` absent from `before` lies in the block of one
      of the MISes counted in `counts`. */
  ghost predicate AllLocal(rels: Rels, base: nat, counts: seq<nat>, before: map<(nat, nat), real>,
                           entries: map<(nat, nat), real>)
    requires rels.Wf()
  {
    && |counts| <= rels.NumMises()
    && forall key :: key in entries && key !in before ==>
      exists m :: 0 <= m < |counts| && InMisBlock(rels, counts, m, base, key)
  }

  /** `SVDInsert` aborts on MIS `mis`: this rank owns it and it fails. */
  predicate FailsAt(avoid: bool, rels: Rels, rank: int, received: Received, rowSizes: seq<nat>, mis: nat)
    requires rels.Wf() && InsertInputs(rels, rank, received, rowSizes) && mis < rels.NumMises()
  {
    rels.Owns(rank, mis) && MisFails(avoid, rels, mis, received[mis].value, rowSizes[mis])
  }

  /** What holds after the first `|counts|` MISes were processed: the builder
      advanced by their coarse dofs, each got the count and basis `SVDInsert` chooses, the
      bases sit at consecutive columns, and nothing was written elsewhere. */
  ghost predicate Consistent(b: Builder, rels: Rels, rank: int, received: Received, rowSizes: seq<nat>,
                             svd: seq<Matrix> -> Matrix, cur: Builder, counts: seq<nat>, bases: seq<Matrix>)
    requires rels.Wf() && InsertInputs(rels, rank, received, rowSizes)
  {
    && |bases| == |counts| <= rels.NumMises()
    && cur.Advanced(b, NatSum(counts)) && cur.Wf() && cur.Extends(b)
    && AllChosen(b.avoidEssBdr, rels, rank, received, rowSizes, svd, counts, bases)
    && AllPlaced(rels, b.threshold, b.filledCols, counts, bases, cur.entries)
    && AllLocal(rels, b.filledCols, counts, b.entries, cur.entries)
  }

  /** One iteration of the loop over MISes, on MIS `|counts|`. */
  method InsertNext(b: Builder, rels: Rels, rank: nat, received: Received, rowSizes: seq<nat>,
                    svd: seq<Matrix> -> Matrix, mis: nat, cur: Builder, counts: seq<nat>, bases: seq<Matrix>)
    returns (r: Result<(Builder, seq<nat>, seq<Matrix>)>)
    requires b.Wf() && rels.Wf() && rels.DofsBelow(b.rows) && rels.DistinctDofs() && IsTruncatedSvd(svd)
    requires InsertInputs(rels, rank, received, rowSizes)
    requires Consistent(b, rels, rank, received, rowSizes, svd, cur, counts, bases)
    requires mis == |counts| < rels.NumMises()
    ensures r.Err? <==> FailsAt(b.avoidEssBdr, rels, rank, received, rowSizes, mis)
    ensures r.Ok? ==> |r.value.1| == mis + 1
    ensures r.Ok? ==> Consistent(b, rels, rank, received, rowSizes, svd, r.value.0, r.value.1, r.value.2)
  {
    var p :- ProcessMis(cur, rels, rank, mis, received[mis], rowSizes[mis], svd);
    var next := p.builder;
    NatSumAppend(counts, p.count);
    PlacedStep(b, rels, mis, counts, bases, cur.entries, next.entries, cur.filledCols, p.count, p.basis);
    LocalStep(b, rels, mis, counts, cur.entries, next.entries, p.count);
    assert AllChosen(b.avoidEssBdr, rels, rank, received, rowSizes, svd, counts + [p.count], bases + [p.basis]);
    r := Ok((next, counts + [p.count], bases + [p.basis]));
  }

  /** `SVDInsert`: process every MIS in order, then number this rank's coarse
      dofs after those of all lower ranks. `rankCounts` holds every rank's
      number of coarse dofs as the prefix scan would see them; the entry of
      this rank is replaced by the count computed here. */
  method SvdInsert(b: Builder, rels: Rels, rank: nat, received: Received, rowSizes: seq<nat>,
                   svd: seq<Matrix> -> Matrix, rankCounts: seq<int>)
    returns (r: Result<InsertResult>)
    requires b.Wf() && rels.Wf() && rels.DofsBelow(b.rows) && rels.DistinctDofs() && IsTruncatedSvd(svd)
    requires InsertInputs(rels, rank, received, rowSizes)
    requires rank < |rankCounts|
    ensures r.Err? <==> exists mis :: 0 <= mis < rels.NumMises() && FailsAt(b.avoidEssBdr, rels, rank, received, rowSizes, mis)
    ensures r.Ok? ==> |r.value.misCounts| == rels.NumMises() && |r.value.bases| == rels.NumMises()
    ensures r.Ok? ==> AllChosen(b.avoidEssBdr, rels, rank, received, rowSizes, svd, r.value.misCounts, r.value.bases)
    // the counter advanced by exactly the coarse dofs created, one column each
    ensures r.Ok? ==> r.value.numCoarseDofs == NatSum(r.value.misCounts)
    ensures r.Ok? ==> r.value.builder.Advanced(b, r.value.numCoarseDofs)
    ensures r.Ok? ==> r.value.builder.Wf() && r.value.builder.Extends(b)
    // each MIS's basis occupies the columns right after those of the MISes before it
    ensures r.Ok? ==> AllPlaced(rels, b.threshold, b.filledCols, r.value.misCounts, r.value.bases, r.value.builder.entries)
    // and nothing is written outside those blocks
    ensures r.Ok? ==> AllLocal(rels, b.filledCols, r.value.misCounts, b.entries, r.value.builder.entries)
    // the offset counts the coarse dofs of the lower ranks only
    ensures r.Ok? ==> r.value.truedofOffset == Sum(rankCounts[..rank])
  {
    var all :- InsertAll(b, rels, rank, received, rowSizes, svd);
    var (cur, counts, bases) := all;
    var total := NatSum(counts);
    var offset := CoarseTruedofOffset(rankCounts[rank := total], rank);
    assert rankCounts[rank := total][..rank] == rankCounts[..rank];
    r := Ok(InsertResult(cur, counts, bases, total, offset));
  }

  /** The loop of `SVDInsert` over every MIS, in order: it stops at the first
      MIS that fails, and otherwise leaves the builder consistent with every
      MIS's count and basis. */
  method InsertAll(b: Builder, rels: Rels, rank: nat, received: Received, rowSizes: seq<nat>,
                   svd: seq<Matrix> -> Matrix)
    returns (r: Result<(Builder, seq<nat>, seq<Matrix>)>)
    requires b.Wf() && rels.Wf() && rels.DofsBelow(b.rows) && rels.DistinctDofs() && IsTruncatedSvd(svd)
    requires InsertInputs(rels, rank, received, rowSizes)
    ensures r.Err? <==> exists mis :: 0 <= mis < rels.NumMises() && FailsAt(b.avoidEssBdr, rels, rank, received, rowSizes, mis)
    ensures r.Ok? ==> |r.value.1| == rels.NumMises()
    ensures r.Ok? ==> Consistent(b, rels, rank, received, rowSizes, svd, r.value.0, r.value.1, r.value.2)
  {
    var cur := b;
    var counts: seq<nat> := [];
    var bases: seq<Matrix> := [];
    for mis := 0 to rels.NumMises()
      invariant |counts| == mis
      invariant Consistent(b, rels, rank, received, rowSizes, svd, cur, counts, bases)
      invariant forall m :: 0 <= m < mis ==> !FailsAt(b.avoidEssBdr, rels, rank, received, rowSizes, m)
    {
      var step := InsertNext(b, rels, rank, received, rowSizes, svd, mis, cur, counts, bases);
      if step.Err? {
        return Err(step.error);
      }
      assert forall m :: 0 <= m <= mis ==> !FailsAt(b.avoidEssBdr, rels, rank, received, rowSizes, m) by {
        assert !FailsAt(b.avoidEssBdr, rels, rank, received, rowSizes, mis);
      }
      cur, counts, bases := step.value.0, step.value.1, step.value.2;
    }
    r := Ok((cur, counts, bases));
  }

  /** Entries kept with their values, and new entries only in columns at or
      after `next`, keep a basis placed in the columns before `next` placed. */
  lemma BasisPlacedGrows(basis: Matrix, dofs: seq<nat>, threshold: real, start: nat, next: nat,
                         before: map<(nat, nat), real>, after: map<(nat, nat), real>)
    requires forall key :: key in before ==> key in after && after[key] == before[key]
    requires forall key :: key in after && key !in before ==> next <= key.1
    requires start + basis.Width() <= next
    requires BasisPlaced(basis, dofs, threshold, start, before)
    ensures BasisPlaced(basis, dofs, threshold, start, after)
  {
  }

  /** The block of MIS `m` ends no later than the columns of all counted MISes. */
  lemma {:induction false} MisBlockBelowTotal(counts: seq<nat>, m: nat)
    requires m < |counts|
    ensures MisStart(counts, m) + counts[m] <= NatSum(counts)
  {
    var init := counts[..|counts| - 1];
    if m < |counts| - 1 {
      MisBlockBelowTotal(init, m);
      assert init[..m] == counts[..m];
    } else {
      assert init == counts[..m];
    }
  }

  /** One step of the loop over MISes keeps every basis placed, with MIS
      `mis`'s basis appended at the columns right after the earlier ones. */
  lemma PlacedStep(b: Builder, rels: Rels, mis: nat, counts: seq<nat>, bases: seq<Matrix>,
                   before: map<(nat, nat), real>, after: map<(nat, nat), real>, start: nat, count: nat, basis: Matrix)
    requires rels.Wf() && mis < rels.NumMises() && |counts| == mis && |bases| == mis
    requires start == b.filledCols + NatSum(counts)
    requires forall key :: key in before ==> key in after && after[key] == before[key]
    requires forall key :: key in after && key !in before ==> start <= key.1
    requires AllPlaced(rels, b.threshold, b.filledCols, counts, bases, before)
    requires count == basis.Width()
    requires BasisPlaced(basis, rels.misDofs[mis], b.threshold, start, after)
    ensures AllPlaced(rels, b.threshold, b.filledCols, counts + [count], bases + [basis], after)
  {
    PlacedAllEarlier(rels, b.threshold, b.filledCols, counts, bases, before, after, start, count, basis);
    PlacedLast(rels, b.threshold, b.filledCols, counts, bases, after, start, count, basis, mis);
  }

  /** The earlier bases of `PlacedStep`, all at once. */
  lemma PlacedAllEarlier(rels: Rels, threshold: real, base: nat, counts: seq<nat>, bases: seq<Matrix>,
                         before: map<(nat, nat), real>, after: map<(nat, nat), real>, start: nat, count: nat, basis: Matrix)
    requires rels.Wf() && |counts| < rels.NumMises() && |bases| == |counts|
    requires start == base + NatSum(counts)
    requires forall key :: key in before ==> key in after && after[key] == before[key]
    requires forall key :: key in after && key !in before ==> start <= key.1
    requires AllPlaced(rels, threshold, base, counts, bases, before)
    ensures forall m :: 0 <= m < |counts| ==> BlockPlaced(rels, threshold, base, counts + [count], bases + [basis], after, m)
  {
    forall m | 0 <= m < |counts|
      ensures BlockPlaced(rels, threshold, base, counts + [count], bases + [basis], after, m)
    {
      PlacedEarlier(rels, threshold, base, counts, bases, before, after, start, m);
      PlacedShift(rels, threshold, base, counts, bases, after, count, basis, m);
    }
  }

  /** A basis placed before MIS `|counts|` stays placed when the next MIS
      writes only at or after the columns of all counted MISes. */
  lemma PlacedEarlier(rels: Rels, threshold: real, base: nat, counts: seq<nat>, bases: seq<Matrix>,
                      before: map<(nat, nat), real>, after: map<(nat, nat), real>, start: nat, m: nat)
    requires rels.Wf() && m < |counts|
    requires start == base + NatSum(counts)
    requires forall key :: key in before ==> key in after && after[key] == before[key]
    requires forall key :: key in after && key !in before ==> start <= key.1
    requires AllPlaced(rels, threshold, base, counts, bases, before)
    ensures BlockPlaced(rels, threshold, base, counts, bases, after, m)
  {
    assert BlockPlaced(rels, threshold, base, counts, bases, before, m);
    MisBlockBelowTotal(counts, m);
    BasisPlacedGrows(bases[m], rels.misDofs[m], threshold, base + MisStart(counts, m), start, before, after);
  }

  /** Appending MIS `|counts|` leaves the block of an earlier MIS where it was. */
  lemma PlacedShift(rels: Rels, threshold: real, base: nat, counts: seq<nat>, bases: seq<Matrix>,
                    after: map<(nat, nat), real>, count: nat, basis: Matrix, m: nat)
    requires rels.Wf() && |counts| == |bases| < rels.NumMises()
    requires BlockPlaced(rels, threshold, base, counts, bases, after, m)
    ensures BlockPlaced(rels, threshold, base, counts + [count], bases + [basis], after, m)
  {
    MisStartAppend(counts, count, m);
    assert (bases + [basis])[m] == bases[m];
  }

  /** The basis of MIS `|counts|`, placed from the end of the counted MISes'
      columns, sits at the start of its block. */
  lemma PlacedLast(rels: Rels, threshold: real, base: nat, counts: seq<nat>, bases: seq<Matrix>,
                   after: map<(nat, nat), real>, start: nat, count: nat, basis: Matrix, m: nat)
    requires rels.Wf() && m == |counts| < rels.NumMises() && |bases| == |counts|
    requires start == base + NatSum(counts) && count == basis.Width()
    requires BasisPlaced(basis, rels.misDofs[m], threshold, start, after)
    ensures BlockPlaced(rels, threshold, base, counts + [count], bases + [basis], after, m)
  {
    MisStartAppend(counts, count, m);
    assert base + MisStart(counts + [count], m) == start;
    assert (bases + [basis])[m] == basis;
  }

  /** One step of the loop over MISes keeps every new entry inside some
      MIS's block, the block of MIS `mis` now included. */
  lemma LocalStep(b: Builder, rels: Rels, mis: nat, counts: seq<nat>,
                  before: map<(nat, nat), real>, after: map<(nat, nat), real>, count: nat)
    requires rels.Wf() && mis < rels.NumMises() && |counts| == mis
    requires AllLocal(rels, b.filledCols, counts, b.entries, before)
    requires forall key :: key in after && key !in before ==>
               b.filledCols + NatSum(counts) <= key.1 < b.filledCols + NatSum(counts) + count
               && key.0 in rels.misDofs[mis]
    ensures AllLocal(rels, b.filledCols, counts + [count], b.entries, after)
  {
    var counts' := counts + [count];
    forall key | key in after && key !in b.entries
      ensures exists m :: 0 <= m <= mis && InMisBlock(rels, counts', m, b.filledCols, key)
    {
      if key in before {
        var m :| 0 <= m < mis && InMisBlock(rels, counts, m, b.filledCols, key);
        MisStartAppend(counts, count, m);
        assert InMisBlock(rels, counts', m, b.filledCols, key);
      } else {
        MisStartAppend(counts, count, mis);
        assert InMisBlock(rels, counts', mis, b.filledCols, key);
      }
    }
  }
}
