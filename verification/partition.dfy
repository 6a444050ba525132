/** The partition relations the construction consumes (`agg_partitioning_relations_t`),
    reduced to what the tentative prolongator reads: the owner rank of every
    minimal intersection set (MIS), the fine dofs of every MIS, the aggregates
    touching every MIS, and the essential-boundary dofs. */
module Partition {

  datatype Rels = Rels(
    misMaster: seq<int>,         // owner rank of each MIS (`mis_master`)
    misDofs: seq<seq<nat>>,      // fine dofs of each MIS, in MIS-local order (`mis_to_dof`)
    misAEs: seq<seq<nat>>,       // aggregates touching each MIS (`mis_to_AE`)
    essBdr: set<nat>)            // dofs on the essential boundary
  {

    function NumMises(): nat {
      |misMaster|
    }

    /** One dof row and one aggregate row per MIS; `mises_size[mis]` is the
        length of the MIS's dof row. */
    predicate Wf() {
      |misDofs| == |misMaster| && |misAEs| == |misMaster|
    }

    /** Every dof of every MIS is a row of an operator with `rows` rows. */
    predicate DofsBelow(rows: nat)
      requires Wf()
    {
      forall mis, k :: 0 <= mis < |misDofs| && 0 <= k < |misDofs[mis]| ==> misDofs[mis][k] < rows
    }

    /** No MIS lists a dof twice (each MIS's dof row is a set of dofs). */
    predicate DistinctDofs()
      requires Wf()
    {
      forall mis, s, t :: 0 <= mis < |misDofs| && 0 <= s < t < |misDofs[mis]| ==> misDofs[mis][s] != misDofs[mis][t]
    }

    predicate OnEssentialBorder(dof: nat) {
      dof in essBdr
    }

    predicate Owns(rank: int, mis: nat)
      requires mis < NumMises()
    {
      misMaster[mis] == rank
    }

    /** Every dof of the MIS lies on the essential boundary (vacuously true of an empty MIS). */
    predicate AllOnEssentialBorder(mis: nat)
      requires Wf() && mis < NumMises()
    {
      forall k :: 0 <= k < |misDofs[mis]| ==> OnEssentialBorder(misDofs[mis][k])
    }
  }
}
