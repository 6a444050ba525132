/** The packing step of `CommunicateEigenvectors`: for every MIS, the
    candidate vectors of each aggregate touching it, already restricted to
    the MIS's dofs, are laid side by side in one send matrix, in the order of
    the MIS's aggregate row. The exchange that ships the send matrices to the
    owning rank is not modelled. */
module Packing {
  import opened Dense
  import opened Partition

  /** The columns of `blocks`, block after block. */
  function Concat(blocks: seq<Matrix>): seq<Column> {
    if |blocks| == 0 then [] else Concat(blocks[..|blocks| - 1]) + blocks[|blocks| - 1].cols
  }

  /** Every aggregate of the row has a candidate matrix. */
  predicate AesInRange(cutEvects: seq<Matrix>, row: seq<nat>) {
    forall j :: 0 <= j < |row| ==> row[j] < |cutEvects|
  }

  /** Sum of the widths of `cut_evects_arr[AE]` over an aggregate row. */
  function AeWidthSum(cutEvects: seq<Matrix>, row: seq<nat>): nat
    requires AesInRange(cutEvects, row)
  {
    if |row| == 0 then 0 else AeWidthSum(cutEvects, row[..|row| - 1]) + cutEvects[row[|row| - 1]].Width()
  }

  /** The restricted blocks of an MIS have the MIS's height and the width of
      the aggregate's candidate matrix they came from. */
  predicate RestrictedFit(blocks: seq<Matrix>, height: nat, cutEvects: seq<Matrix>, row: seq<nat>) {
    && |blocks| == |row|
    && AesInRange(cutEvects, row)
    && (forall j :: 0 <= j < |blocks| ==>
          blocks[j].Valid() && blocks[j].height == height && blocks[j].Width() == cutEvects[row[j]].Width())
  }

  lemma {:induction false} ConcatShape(blocks: seq<Matrix>, height: nat)
    requires AllOfHeight(blocks, height)
    ensures |Concat(blocks)| == TotalWidth(blocks)
    ensures forall i :: 0 <= i < |Concat(blocks)| ==> |Concat(blocks)[i]| == height
  {
    if |blocks| > 0 {
      ConcatShape(blocks[..|blocks| - 1], height);
    }
  }

  lemma {:induction false} WidthsAgree(blocks: seq<Matrix>, height: nat, cutEvects: seq<Matrix>, row: seq<nat>)
    requires RestrictedFit(blocks, height, cutEvects, row)
    ensures TotalWidth(blocks) == AeWidthSum(cutEvects, row)
  {
    if |row| > 0 {
      var n := |row| - 1;
      WidthsAgree(blocks[..n], height, cutEvects, row[..n]);
    }
  }

  /** Column `i` of block `j` sits at column `TotalWidth(blocks[..j]) + i`
      of the packed matrix. */
  lemma {:induction false} ConcatPlacement(blocks: seq<Matrix>, j: nat, i: nat)
    requires j < |blocks| && i < blocks[j].Width()
    ensures TotalWidth(blocks[..j]) + i < |Concat(blocks)|
    ensures Concat(blocks)[TotalWidth(blocks[..j]) + i] == blocks[j].cols[i]
  {
    var n := |blocks| - 1;
    ConcatLength(blocks);
    if j == n {
      assert blocks[..n] == blocks[..j];
      ConcatLength(blocks[..n]);
    } else {
      assert blocks[..n][..j] == blocks[..j];
      ConcatPlacement(blocks[..n], j, i);
    }
  }

  lemma {:induction false} ConcatLength(blocks: seq<Matrix>)
    ensures |Concat(blocks)| == TotalWidth(blocks)
  {
    if |blocks| > 0 {
      ConcatLength(blocks[..|blocks| - 1]);
    }
  }

  /** Unpacking inverts packing: the slice of the packed columns at block `j`'s
      offset and width is exactly block `j`. */
  lemma UnpackBlock(blocks: seq<Matrix>, j: nat)
    requires j < |blocks|
    ensures TotalWidth(blocks[..j]) + blocks[j].Width() <= |Concat(blocks)|
    ensures Concat(blocks)[TotalWidth(blocks[..j]) .. TotalWidth(blocks[..j]) + blocks[j].Width()] == blocks[j].cols
  {
    var off := TotalWidth(blocks[..j]);
    var w := blocks[j].Width();
    if w > 0 {
      ConcatPlacement(blocks, j, w - 1);
    } else {
      TotalWidthPrefix(blocks, j);
    }
    forall i | 0 <= i < w
      ensures Concat(blocks)[off + i] == blocks[j].cols[i]
    {
      ConcatPlacement(blocks, j, i);
    }
  }

  lemma TotalWidthPrefix(blocks: seq<Matrix>, j: nat)
    requires j <= |blocks|
    ensures TotalWidth(blocks[..j]) <= |Concat(blocks)|
  {
    ConcatLength(blocks);
    if j < |blocks| {
      var n := |blocks| - 1;
      assert blocks[..n + 1] == blocks;
      PrefixMonotone(blocks, j, |blocks|);
    } else {
      assert blocks[..j] == blocks;
    }
  }

  lemma {:induction false} PrefixMonotone(blocks: seq<Matrix>, j: nat, n: nat)
    requires j <= n <= |blocks|
    ensures TotalWidth(blocks[..j]) <= TotalWidth(blocks[..n])
  {
    if j < n {
      PrefixMonotone(blocks, j, n - 1);
      TotalWidthStep(blocks, n - 1);
    }
  }

  /** Column `i` of block `j` is column `TotalWidth(blocks[..j]) + i` of `send`. */
  predicate PlacedAt(send: Matrix, blocks: seq<Matrix>, j: nat, i: nat)
    requires j < |blocks| && i < blocks[j].Width()
  {
    TotalWidth(blocks[..j]) + i < send.Width() && send.cols[TotalWidth(blocks[..j]) + i] == blocks[j].cols[i]
  }

  /** The send matrix of one MIS: the first pass sums the widths and
      allocates a zero `mis_size` x `numvecs` matrix; the second copies each
      restricted block at the running column offset. */
  method PackOne(blocks: seq<Matrix>, height: nat, cutEvects: seq<Matrix>, row: seq<nat>) returns (send: Matrix)
    requires RestrictedFit(blocks, height, cutEvects, row)
    ensures send.Valid() && send.height == height
    ensures send.Width() == AeWidthSum(cutEvects, row)
    ensures send.cols == Concat(blocks)
  {
    var numVecs := 0;
    for j := 0 to |row|
      invariant numVecs == AeWidthSum(cutEvects, row[..j])
    {
      assert row[..j + 1][..j] == row[..j];
      numVecs := numVecs + cutEvects[row[j]].Width();
    }
    assert row[..|row|] == row;
    WidthsAgree(blocks, height, cutEvects, row);
    var cols := seq(numVecs, _ => Constant(height, 0.0));
    var offset := 0;
    for j := 0 to |row|
      invariant offset == TotalWidth(blocks[..j]) <= numVecs == TotalWidth(blocks)
      invariant |cols| == numVecs
      invariant cols[..offset] == Concat(blocks[..j])
    {
      var w := cutEvects[row[j]].Width();
      CopyBlock(cols, blocks, j, offset);
      cols := cols[..offset] + blocks[j].cols + cols[offset + w..];
      offset := offset + w;
    }
    assert blocks[..|blocks|] == blocks;
    assert cols[..offset] == cols;
    ConcatShape(blocks, height);
    send := Matrix(height, cols);
  }

  /** Copying block `j` over the columns at the running offset extends the
      packed prefix by that block and keeps the matrix's width. */
  lemma CopyBlock(cols: seq<Column>, blocks: seq<Matrix>, j: nat, offset: nat)
    requires j < |blocks| && offset == TotalWidth(blocks[..j])
    requires offset <= TotalWidth(blocks) <= |cols| && cols[..offset] == Concat(blocks[..j])
    ensures offset + blocks[j].Width() == TotalWidth(blocks[..j + 1]) <= |cols|
    ensures var next := cols[..offset] + blocks[j].cols + cols[offset + blocks[j].Width()..];
            |next| == |cols| && next[..offset + blocks[j].Width()] == Concat(blocks[..j + 1])
  {
    TotalWidthStep(blocks, j);
    PrefixMonotone(blocks, j + 1, |blocks|);
    assert blocks[..|blocks|] == blocks;
    assert blocks[..j + 1][..j] == blocks[..j];
  }

  /** Send matrices for every MIS of the rank: MIS `mis` gets height
      `|misDofs[mis]|`, width the sum of its aggregates' widths, and block `j`
      at the column offset of the blocks before it. */
  method PackSendMatrices(rels: Rels, cutEvects: seq<Matrix>, restricted: seq<seq<Matrix>>) returns (send: seq<Matrix>)
    requires rels.Wf() && |restricted| == rels.NumMises()
    requires forall mis :: 0 <= mis < rels.NumMises() ==> AesInRange(cutEvects, rels.misAEs[mis])
    requires forall mis :: 0 <= mis < |restricted| ==>
               RestrictedFit(restricted[mis], |rels.misDofs[mis]|, cutEvects, rels.misAEs[mis])
    ensures |send| == rels.NumMises()
    ensures forall mis :: 0 <= mis < |send| ==>
              send[mis].Valid() && send[mis].height == |rels.misDofs[mis]|
              && send[mis].Width() == AeWidthSum(cutEvects, rels.misAEs[mis])
    ensures forall mis, j, i :: 0 <= mis < |send| && 0 <= j < |restricted[mis]| && 0 <= i < restricted[mis][j].Width() ==>
              PlacedAt(send[mis], restricted[mis], j, i)
  {
    send := [];
    for mis := 0 to |restricted|
      invariant |send| == mis
      invariant forall m :: 0 <= m < mis ==>
                  send[m].Valid() && send[m].height == |rels.misDofs[m]|
                  && send[m].Width() == AeWidthSum(cutEvects, rels.misAEs[m])
                  && send[m].cols == Concat(restricted[m])
    {
      var one := PackOne(restricted[mis], |rels.misDofs[mis]|, cutEvects, rels.misAEs[mis]);
      send := send + [one];
    }
    forall mis, j, i | 0 <= mis < |send| && 0 <= j < |restricted[mis]| && 0 <= i < restricted[mis][j].Width()
      ensures PlacedAt(send[mis], restricted[mis], j, i)
    {
      ConcatPlacement(restricted[mis], j, i);
    }
  }
}
