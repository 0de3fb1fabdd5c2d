/** Merging at most sixteen runs straight into pages: each key's witness names its run in four bits and
    its place in the others (`DirectRecords` in `index_builder.rs`). */
module DirectMerge {
  import opened BitOps
  import opened Bytes
  import opened ExternalSort
  import opened Powers
  import opened RadixSorting
  import opened Results

  function Witness(run: nat, position: nat): nat {
    Or(position * 16, run)
  }

  /** The key a witness leads back to. */
  function Resolve(runs: seq<seq<nat>>, witnessId: nat): Option<nat> {
    var run, position := And(witnessId, 15), witnessId / 16;
    if run < |runs| && position < |runs[run]| then Some(runs[run][position]) else None
  }

  lemma WitnessSplits(run: nat, position: nat)
    requires run < 16
    ensures Witness(run, position) == 16 * position + run
    ensures And(Witness(run, position), 15) == run && Witness(run, position) / 16 == position
  {
    hide Or, And, Pow2;
    Sixteen();
    OrDisjoint(position, 4, run);
    AndMask(16 * position + run, 4);
  }

  lemma Sixteen()
    ensures Pow2(4) == 16
  {
  }

  /** Merges the runs; every witness leads back to its key. */
  method MergeDirect(runs: seq<seq<nat>>) returns (r: Result<(seq<nat>, seq<nat>)>)
    requires AllSorted(runs) && forall run | 0 <= run < |runs| :: |runs[run]| * 16 < U64
    ensures r.Ok? <==> |runs| <= 16
    ensures r.Ok? ==>
              var (out, witnesses) := r.value;
              && Sorted(out) && multiset(out) == All(runs) && |witnesses| == |out|
              && forall i | 0 <= i < |out| :: witnesses[i] < U64 && Resolve(runs, witnesses[i]) == Some(out[i])
  {
    hide Sorted, All, Witness, Resolve;
    if |runs| > 16 {
      return Err("direct merge has too many sources");
    }
    var out, origins := MergeVisit(runs);
    var witnesses: seq<nat> := [];
    for i := 0 to |out|
      invariant |witnesses| == i
      invariant forall j | 0 <= j < i :: witnesses[j] < U64 && Resolve(runs, witnesses[j]) == Some(out[j])
    {
      var (run, position) := origins[i];
      WitnessResolves(runs, run, position);
      witnesses := witnesses + [Witness(run, position)];
    }
    return Ok((out, witnesses));
  }

  lemma WitnessResolves(runs: seq<seq<nat>>, run: nat, position: nat)
    requires run < |runs| <= 16 && position < |runs[run]| && |runs[run]| * 16 < U64
    ensures Witness(run, position) < U64 && Resolve(runs, Witness(run, position)) == Some(runs[run][position])
  {
    hide Witness, And;
    WitnessSplits(run, position);
  }
}
