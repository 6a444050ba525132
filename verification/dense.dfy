/** Dense column blocks over exact reals.

    A `Matrix` stores its columns one after another, as mfem's `DenseMatrix`
    stores its data column-major: entry (k, j) is `cols[j][k]`. */
module Dense {

  type Column = seq<real>

  datatype Matrix = Matrix(height: nat, cols: seq<Column>) {

    function Width(): nat {
      |cols|
    }

    /** Every column has exactly `height` entries. */
    predicate Valid() {
      forall j :: 0 <= j < |cols| ==> |cols[j]| == height
    }
  }

  /** A `height` x 0 matrix: the "allocated but still empty" contribution. */
  function Empty(height: nat): (m: Matrix)
    ensures m.Valid() && m.height == height && m.Width() == 0
  {
    Matrix(height, [])
  }

  /** A column of `n` entries all equal to `v`. */
  function Constant(n: nat, v: real): (c: Column)
    ensures |c| == n
    ensures forall k :: 0 <= k < n ==> c[k] == v
  {
    seq(n, k => v)
  }

  function Abs(x: real): real {
    if x < 0.0 then -x else x
  }

  /** Total number of columns over a list of blocks. */
  function TotalWidth(blocks: seq<Matrix>): nat {
    if |blocks| == 0 then 0 else TotalWidth(blocks[..|blocks| - 1]) + blocks[|blocks| - 1].Width()
  }

  /** Every block is well formed and has `height` rows. */
  predicate AllOfHeight(blocks: seq<Matrix>, height: nat) {
    forall q :: 0 <= q < |blocks| ==> blocks[q].Valid() && blocks[q].height == height
  }

  lemma TotalWidthStep(blocks: seq<Matrix>, n: nat)
    requires n < |blocks|
    ensures TotalWidth(blocks[..n + 1]) == TotalWidth(blocks[..n]) + blocks[n].Width()
  {
    assert blocks[..n + 1][..n] == blocks[..n];
  }
}
