/** Deterministic extra basis columns appended to the contribution of every
    MIS owned by this rank: constants and linear polynomials
    (`ExtendWithPolynomials`, `ExtendWithConstants`) and rigid-body modes
    (`ExtendWithRBMs`).

    A rank's per-MIS contributions are a slot per MIS, absent (`None`, the
    NULL pointer of `contrib.cpp`) or a list of matrices received from the ranks
    sharing the MIS; the extension rewrites the first matrix of the list. */
module Extension {
  import opened Dense
  import opened Outcomes
  import opened Partition

  type Received = seq<Option<seq<Matrix>>>

  /** Every present slot holds at least one well-formed matrix. */
  predicate SlotsWf(received: Received) {
    forall mis :: 0 <= mis < |received| && received[mis].Some? ==>
      |received[mis].value| >= 1 && received[mis].value[0].Valid()
  }

  /** The matrix the extension rewrites: the first one of the slot, or a
      `misSize` x 0 matrix when the slot is absent. */
  function Leading(slot: Option<seq<Matrix>>, misSize: nat): (m: Matrix)
    requires slot.Some? ==> |slot.value| >= 1
  {
    if slot.None? then Empty(misSize) else slot.value[0]
  }

  /** The matrices of the slot after the first, untouched by the extension. */
  function Rest(slot: Option<seq<Matrix>>): seq<Matrix>
    requires slot.Some? ==> |slot.value| >= 1
  {
    if slot.None? then [] else slot.value[1..]
  }

  // ---------------------------------------------------------------------------
  // Polynomials

  /** Position in the coordinate vector of coordinate `d` of node `node`
      (coordinates are stored one direction after another). */
  function CoordIndex(numNodes: int, d: int, node: int): int {
    numNodes * d + node
  }

  /** Every coordinate the order-1 extension reads is inside `coords`. */
  predicate PolynomialCoordsInRange(rels: Rels, rank: int, sd: int, numNodes: int, coords: seq<real>)
    requires rels.Wf()
  {
    forall mis, k, d :: 0 <= mis < rels.NumMises() && rels.Owns(rank, mis) && 0 <= k < |rels.misDofs[mis]| && 0 <= d < sd ==>
      0 <= CoordIndex(numNodes, d, rels.misDofs[mis][k]) < |coords|
  }

  /** Number of columns the polynomial extension appends. */
  function PolynomialColumns(order: int, sd: int): int {
    if order == 0 then 1 else sd + 1
  }

  /** The extended contribution: the old columns, a column of ones, and for
      order 1 one column per direction holding each dof's coordinate. */
  function PolyExtended(m: Matrix, dofs: seq<nat>, order: int, sd: int, numNodes: int, coords: seq<real>): (e: Matrix)
    requires m.Valid() && m.height == |dofs| && (order == 0 || (order == 1 && sd >= 0))
    requires order == 1 ==> forall k, d :: 0 <= k < |dofs| && 0 <= d < sd ==> 0 <= CoordIndex(numNodes, d, dofs[k]) < |coords|
    ensures e.Valid() && e.height == m.height
    ensures e.Width() == m.Width() + PolynomialColumns(order, sd)
    ensures e.cols[..m.Width()] == m.cols
    ensures forall k :: 0 <= k < m.height ==> e.cols[m.Width()][k] == 1.0
    ensures order == 1 ==> forall k, d :: 0 <= k < m.height && 0 <= d < sd ==>
              e.cols[m.Width() + d + 1][k] == coords[CoordIndex(numNodes, d, dofs[k])]
  {
    var h := m.height;
    var linear := if order == 1
                  then seq(sd, (d: int) requires 0 <= d < sd =>
                             seq(h, (k: int) requires 0 <= k < h => coords[CoordIndex(numNodes, d, dofs[k])]))
                  else [];
    Matrix(h, m.cols + [Constant(h, 1.0)] + linear)
  }

  /** The first check the loop of `ExtendWithPolynomials` fails on an owned MIS, if any: the
      height assertion, then the order. */
  function PolynomialCheck(lead: Matrix, misSize: nat, order: int): Option<Error> {
    if lead.height != misSize then Some(HeightMismatch)
    else if order != 0 && order != 1 then Some(UnsupportedOrder)
    else None
  }

  method ExtendWithPolynomials(received: Received, rels: Rels, rank: int, order: int, sd: int, numNodes: int, coords: seq<real>)
    returns (r: Result<Received>)
    requires rels.Wf() && |received| == rels.NumMises() && SlotsWf(received)
    requires order == 1 ==> sd >= 0 && PolynomialCoordsInRange(rels, rank, sd, numNodes, coords)
    ensures r.Err? <==> (exists mis :: 0 <= mis < |received| && rels.Owns(rank, mis)
                           && PolynomialCheck(Leading(received[mis], |rels.misDofs[mis]|), |rels.misDofs[mis]|, order).Some?)
    // the error is that of the first owned MIS that fails a check
    ensures r.Err? ==> exists mis :: 0 <= mis < |received| && rels.Owns(rank, mis)
                        && PolynomialCheck(Leading(received[mis], |rels.misDofs[mis]|), |rels.misDofs[mis]|, order) == Some(r.error)
                        && forall m :: 0 <= m < mis && rels.Owns(rank, m) ==>
                             PolynomialCheck(Leading(received[m], |rels.misDofs[m]|), |rels.misDofs[m]|, order).None?
    ensures r.Ok? ==> |r.value| == |received| && SlotsWf(r.value)
    ensures r.Ok? ==> forall mis :: 0 <= mis < |received| && !rels.Owns(rank, mis) ==> r.value[mis] == received[mis]
    ensures r.Ok? ==> forall mis :: 0 <= mis < |received| && rels.Owns(rank, mis) ==>
              r.value[mis].Some?
              && r.value[mis].value[1..] == Rest(received[mis])
              && r.value[mis].value[0] == PolyExtended(Leading(received[mis], |rels.misDofs[mis]|), rels.misDofs[mis], order, sd, numNodes, coords)
  {
    var out := received;
    for mis := 0 to |received|
      invariant |out| == |received| && SlotsWf(out)
      invariant forall m :: mis <= m < |received| ==> out[m] == received[m]
      invariant forall m :: 0 <= m < mis && !rels.Owns(rank, m) ==> out[m] == received[m]
      invariant forall m :: 0 <= m < mis && rels.Owns(rank, m) ==>
                  PolynomialCheck(Leading(received[m], |rels.misDofs[m]|), |rels.misDofs[m]|, order).None?
                  && out[m].Some? && out[m].value[1..] == Rest(received[m])
                  && out[m].value[0] == PolyExtended(Leading(received[m], |rels.misDofs[m]|), rels.misDofs[m], order, sd, numNodes, coords)
    {
      if rels.misMaster[mis] == rank {
        var misSize := |rels.misDofs[mis]|;
        var lead := Leading(received[mis], misSize);
        if lead.height != misSize {
          return Err(HeightMismatch);
        }
        if order != 0 && order != 1 {
          return Err(UnsupportedOrder);
        }
        var extended := PolyExtended(lead, rels.misDofs[mis], order, sd, numNodes, coords);
        out := out[mis := Some([extended] + Rest(received[mis]))];
      }
    }
    r := Ok(out);
  }

  /** `ExtendWithConstants`: the order-0 extension. Every owned MIS gains exactly
      one column, identically 1.0, after its unchanged old columns, and keeps
      the rest of its list; the only failure left is a height mismatch. */
  method ExtendWithConstants(received: Received, rels: Rels, rank: int) returns (r: Result<Received>)
    requires rels.Wf() && |received| == rels.NumMises() && SlotsWf(received)
    ensures r.Err? <==> (exists mis :: 0 <= mis < |received| && rels.Owns(rank, mis)
                           && Leading(received[mis], |rels.misDofs[mis]|).height != |rels.misDofs[mis]|)
    ensures r.Err? ==> r.error == HeightMismatch
    ensures r.Ok? ==> |r.value| == |received| && SlotsWf(r.value)
    ensures r.Ok? ==> forall mis :: 0 <= mis < |received| && !rels.Owns(rank, mis) ==> r.value[mis] == received[mis]
    ensures r.Ok? ==> forall mis :: 0 <= mis < |received| && rels.Owns(rank, mis) ==>
              r.value[mis].Some? && |r.value[mis].value| >= 1
              && r.value[mis].value[1..] == Rest(received[mis]) &&
              var lead := Leading(received[mis], |rels.misDofs[mis]|);
              var extended := r.value[mis].value[0];
              extended.height == lead.height && extended.Width() == lead.Width() + 1
              && extended.cols[..lead.Width()] == lead.cols && extended.cols[lead.Width()] == Constant(lead.height, 1.0)
  {
    r := ExtendWithPolynomials(received, rels, rank, 0, -1, -1, []);
  }

  // ---------------------------------------------------------------------------
  // Rigid-body modes

  /** Number of rigid-body modes in dimension `sd`: translations plus rotations. */
  function NumRbms(sd: int): nat {
    if sd == 1 then 1 else if sd == 2 then 3 else 6
  }

  /** Mesh node of the `node`-th group of `sd` consecutive MIS dofs (dofs are
      ordered by vector dimension, so dof `n*sd + d` is component d of node n). */
  function NodeNumber(dofs: seq<nat>, sd: nat, node: nat): nat
    requires sd > 0 && node * sd < |dofs|
  {
    dofs[node * sd] / sd
  }

  /** The first check the loop of `ExtendWithRBMs` fails on an owned MIS, if any: the
      height assertion, the dimension, divisibility, then each node number. */
  function RbmCheck(lead: Matrix, dofs: seq<nat>, sd: int, numNodes: int): Option<Error> {
    if lead.height != |dofs| then Some(HeightMismatch)
    else if sd != 1 && sd != 2 && sd != 3 then Some(UnsupportedDimension)
    else if |dofs| % sd != 0 then Some(SizeNotDivisible)
    else if exists node :: 0 <= node < |dofs| / sd && NodeOutside(dofs, sd, numNodes, node) then Some(NodeOutOfRange)
    else None
  }

  predicate NodeOutside(dofs: seq<nat>, sd: nat, numNodes: int, node: nat)
    requires sd > 0
  {
    node * sd < |dofs| && NodeNumber(dofs, sd, node) >= numNodes
  }

  /** Value of new column `c` at MIS-local row `k` (component `k % sd` of node `k / sd`). */
  function RbmValue(c: nat, k: nat, dofs: seq<nat>, sd: nat, numNodes: int, coords: seq<real>): real
    requires 1 <= sd <= 3 && c < NumRbms(sd) && k < |dofs| && |dofs| % sd == 0
    requires forall node :: 0 <= node < |dofs| / sd ==> !NodeOutside(dofs, sd, numNodes, node)
    requires sd * numNodes <= |coords|
  {
    var node := k / sd;
    var comp := k % sd;
    assert node * sd + comp == k;
    assert !NodeOutside(dofs, sd, numNodes, node);
    var nn := NodeNumber(dofs, sd, node);
    if c < sd then
      (if comp == c then 1.0 else 0.0)
    else if c == sd then
      (if comp == 0 then coords[numNodes + nn]
       else if comp == 1 then -coords[nn]
       else 0.0)
    else if c == sd + 1 then
      (if comp == 1 then coords[2 * numNodes + nn]
       else if comp == 2 then -coords[numNodes + nn]
       else 0.0)
    else
      (if comp == 0 then -coords[2 * numNodes + nn]
       else if comp == 2 then coords[nn]
       else 0.0)
  }

  /** The extended contribution: the old columns followed by the rigid-body modes,
      zero wherever `ExtendWithRBMs` does not write. */
  function RbmExtended(m: Matrix, dofs: seq<nat>, sd: int, numNodes: int, coords: seq<real>): (e: Matrix)
    requires m.Valid() && RbmCheck(m, dofs, sd, numNodes).None?
    requires sd * numNodes <= |coords|
    ensures e.Valid() && e.height == m.height
    ensures e.Width() == m.Width() + NumRbms(sd)
    ensures e.cols[..m.Width()] == m.cols
  {
    var h := m.height;
    var modes := seq(NumRbms(sd), (c: int) requires 0 <= c < NumRbms(sd) =>
                   seq(h, (k: int) requires 0 <= k < h => RbmValue(c, k, dofs, sd, numNodes, coords)));
    Matrix(h, m.cols + modes)
  }

  method ExtendWithRBMs(received: Received, rels: Rels, rank: int, sd: int, numNodes: int, coords: seq<real>)
    returns (r: Result<Received>)
    requires rels.Wf() && |received| == rels.NumMises() && SlotsWf(received)
    requires 1 <= sd <= 3 ==> sd * numNodes <= |coords|
    ensures r.Err? <==> (exists mis :: 0 <= mis < |received| && rels.Owns(rank, mis)
                           && RbmCheck(Leading(received[mis], |rels.misDofs[mis]|), rels.misDofs[mis], sd, numNodes).Some?)
    // the error is that of the first owned MIS that fails a check
    ensures r.Err? ==> exists mis :: 0 <= mis < |received| && rels.Owns(rank, mis)
                        && RbmCheck(Leading(received[mis], |rels.misDofs[mis]|), rels.misDofs[mis], sd, numNodes) == Some(r.error)
                        && forall m :: 0 <= m < mis && rels.Owns(rank, m) ==>
                             RbmCheck(Leading(received[m], |rels.misDofs[m]|), rels.misDofs[m], sd, numNodes).None?
    ensures r.Ok? ==> |r.value| == |received| && SlotsWf(r.value)
    ensures r.Ok? ==> forall mis :: 0 <= mis < |received| && !rels.Owns(rank, mis) ==> r.value[mis] == received[mis]
    ensures r.Ok? ==> forall mis :: 0 <= mis < |received| && rels.Owns(rank, mis) ==>
              r.value[mis].Some?
              && r.value[mis].value[1..] == Rest(received[mis])
              && r.value[mis].value[0] == RbmExtended(Leading(received[mis], |rels.misDofs[mis]|), rels.misDofs[mis], sd, numNodes, coords)
  {
    var out := received;
    for mis := 0 to |received|
      invariant |out| == |received| && SlotsWf(out)
      invariant forall m :: mis <= m < |received| ==> out[m] == received[m]
      invariant forall m :: 0 <= m < mis && !rels.Owns(rank, m) ==> out[m] == received[m]
      invariant forall m :: 0 <= m < mis && rels.Owns(rank, m) ==>
                  RbmCheck(Leading(received[m], |rels.misDofs[m]|), rels.misDofs[m], sd, numNodes).None?
                  && out[m].Some? && out[m].value[1..] == Rest(received[m])
                  && out[m].value[0] == RbmExtended(Leading(received[m], |rels.misDofs[m]|), rels.misDofs[m], sd, numNodes, coords)
    {
      if rels.misMaster[mis] == rank {
        var dofs := rels.misDofs[mis];
        var lead := Leading(received[mis], |dofs|);
        var check := RbmCheck(lead, dofs, sd, numNodes);
        if check.Some? {
          return Err(check.value);
        }
        var extended := RbmExtended(lead, dofs, sd, numNodes, coords);
        out := out[mis := Some([extended] + Rest(received[mis]))];
      }
    }
    r := Ok(out);
  }

  /** Row of component `d` of the `node`-th dof group. */
  function DofRow(node: nat, sd: nat, d: nat): nat {
    node * sd + d
  }

  lemma CoordInRange(sd: nat, numNodes: int, dir: nat, nn: nat, coords: seq<real>)
    requires 1 <= sd <= 3 && dir < sd && nn < numNodes && sd * numNodes <= |coords|
    ensures 0 <= CoordIndex(numNodes, dir, nn) < |coords|
  {
  }

  /** Coordinate `dir` (0 = x, 1 = y, 2 = z) of the mesh node behind the
      `node`-th dof group of the MIS. */
  function NodeCoord(dofs: seq<nat>, sd: nat, numNodes: int, coords: seq<real>, node: nat, dir: nat): real
    requires 1 <= sd <= 3 && node * sd < |dofs| && dir < sd && NodeNumber(dofs, sd, node) < numNodes
    requires sd * numNodes <= |coords|
  {
    CoordInRange(sd, numNodes, dir, NodeNumber(dofs, sd, node), coords);
    coords[CoordIndex(numNodes, dir, NodeNumber(dofs, sd, node))]
  }

  lemma DivModNode(node: nat, d: nat, sd: nat)
    requires 1 <= sd <= 3 && d < sd
    ensures DofRow(node, sd, d) / sd == node && DofRow(node, sd, d) % sd == d
  {
  }

  /** Value of new column `c` on component `d` of the `node`-th dof group. */
  lemma RbmValueAt(c: nat, node: nat, d: nat, dofs: seq<nat>, sd: nat, numNodes: int, coords: seq<real>)
    requires 1 <= sd <= 3 && c < NumRbms(sd) && d < sd && |dofs| % sd == 0
    requires forall node :: 0 <= node < |dofs| / sd ==> !NodeOutside(dofs, sd, numNodes, node)
    requires sd * numNodes <= |coords|
    requires DofRow(node, sd, d) < |dofs|
    ensures node * sd < |dofs| && NodeNumber(dofs, sd, node) < numNodes
    ensures var v := RbmValue(c, DofRow(node, sd, d), dofs, sd, numNodes, coords);
            var nn := NodeNumber(dofs, sd, node);
            v == (if c < sd then (if d == c then 1.0 else 0.0)
                  else if c == sd then
                    (if d == 0 then NodeCoord(dofs, sd, numNodes, coords, node, 1)
                     else if d == 1 then -NodeCoord(dofs, sd, numNodes, coords, node, 0) else 0.0)
                  else if c == sd + 1 then
                    (if d == 1 then NodeCoord(dofs, sd, numNodes, coords, node, 2)
                     else if d == 2 then -NodeCoord(dofs, sd, numNodes, coords, node, 1) else 0.0)
                  else
                    (if d == 0 then -NodeCoord(dofs, sd, numNodes, coords, node, 2)
                     else if d == 2 then NodeCoord(dofs, sd, numNodes, coords, node, 0) else 0.0))
  {
    DivModNode(node, d, sd);
    assert node < |dofs| / sd by {
      if sd == 1 {} else if sd == 2 {} else {}
    }
    assert !NodeOutside(dofs, sd, numNodes, node);
  }

  /** The rigid-body modes at the rows of one node: translation column `c` is 1
      exactly on component `c`; in 2-D and 3-D the first rotation is (y, -x) on
      the first two components; in 3-D the other two rotations are (0, z, -y)
      and (-z, 0, x). Old columns come first, unchanged. */
  lemma RbmModesAtNode(m: Matrix, dofs: seq<nat>, sd: nat, numNodes: int, coords: seq<real>, node: nat)
    requires 1 <= sd <= 3 && m.Valid() && RbmCheck(m, dofs, sd, numNodes).None?
    requires sd * numNodes <= |coords|
    requires node < |dofs| / sd
    ensures DofRow(node, sd, sd - 1) < |dofs| && NodeNumber(dofs, sd, node) < numNodes
    ensures var modes := RbmExtended(m, dofs, sd, numNodes, coords).cols[m.Width()..];
            forall c, d :: 0 <= c < sd && 0 <= d < sd ==> modes[c][DofRow(node, sd, d)] == (if c == d then 1.0 else 0.0)
    ensures var modes := RbmExtended(m, dofs, sd, numNodes, coords).cols[m.Width()..];
            sd >= 2 ==>
              && modes[sd][DofRow(node, sd, 0)] == NodeCoord(dofs, sd, numNodes, coords, node, 1)
              && modes[sd][DofRow(node, sd, 1)] == -NodeCoord(dofs, sd, numNodes, coords, node, 0)
              && (sd == 3 ==> modes[sd][DofRow(node, sd, 2)] == 0.0)
    ensures var modes := RbmExtended(m, dofs, sd, numNodes, coords).cols[m.Width()..];
            sd == 3 ==>
              && modes[4][DofRow(node, 3, 0)] == 0.0
              && modes[4][DofRow(node, 3, 1)] == NodeCoord(dofs, sd, numNodes, coords, node, 2)
              && modes[4][DofRow(node, 3, 2)] == -NodeCoord(dofs, sd, numNodes, coords, node, 1)
              && modes[5][DofRow(node, 3, 0)] == -NodeCoord(dofs, sd, numNodes, coords, node, 2)
              && modes[5][DofRow(node, 3, 1)] == 0.0
              && modes[5][DofRow(node, 3, 2)] == NodeCoord(dofs, sd, numNodes, coords, node, 0)
  {
    assert DofRow(node, sd, sd - 1) < |dofs| by {
      if sd == 1 {} else if sd == 2 {} else {}
    }
    assert !NodeOutside(dofs, sd, numNodes, node);
    forall c, d | 0 <= c < NumRbms(sd) && 0 <= d < sd
      ensures var modes := RbmExtended(m, dofs, sd, numNodes, coords).cols[m.Width()..];
              modes[c][DofRow(node, sd, d)] == RbmValue(c, DofRow(node, sd, d), dofs, sd, numNodes, coords)
    {
      assert DofRow(node, sd, d) <= DofRow(node, sd, sd - 1);
    }
    forall c: nat, d: nat | c < NumRbms(sd) && d < sd && DofRow(node, sd, d) < |dofs| {
      RbmValueAt(c, node, d, dofs, sd, numNodes, coords);
    }
  }

  /** The rigid-body example in 2-D with two nodes (4 dofs): the two translation
      columns are stacked 2x2 identities and the rotation column reads
      (y0, -x0, y1, -x1). */
  lemma Rbm2DTwoNodes(m: Matrix, x0: real, x1: real, y0: real, y1: real)
    requires m.Valid() && m.height == 4
    ensures var e := RbmExtended(m, [0, 1, 2, 3], 2, 2, [x0, x1, y0, y1]);
            e.Width() == m.Width() + 3
            && e.cols[m.Width()..] == [[1.0, 0.0, 1.0, 0.0], [0.0, 1.0, 0.0, 1.0], [y0, -x0, y1, -x1]]
  {
    var dofs: seq<nat> := [0, 1, 2, 3];
    var coords := [x0, x1, y0, y1];
    assert NodeNumber(dofs, 2, 0) == 0 && NodeNumber(dofs, 2, 1) == 1;
    assert !NodeOutside(dofs, 2, 2, 0) && !NodeOutside(dofs, 2, 2, 1);
    assert forall node :: 0 <= node < 2 ==> !NodeOutside(dofs, 2, 2, node);
    assert RbmCheck(m, dofs, 2, 2).None?;
    var modes := RbmExtended(m, dofs, 2, 2, coords).cols[m.Width()..];
    assert |modes| == 3;
    forall c, k | 0 <= c < 3 && 0 <= k < 4
      ensures modes[c][k] == RbmValue(c, k, dofs, 2, 2, coords)
    {
    }
    assert modes[0] == [1.0, 0.0, 1.0, 0.0];
    assert modes[1] == [0.0, 1.0, 0.0, 1.0];
    assert modes[2] == [y0, -x0, y1, -x1];
  }
}
