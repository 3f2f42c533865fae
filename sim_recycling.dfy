// fwdpp/simfunctions/recycling.hpp: FIFO queues of the indexes of extinct
// mutations and haploid genomes, and the helpers that reuse the front slot
// of a queue before growing the container.  A queue is the sequence of its
// entries from front to back.

module SimRecycling {
  import opened Types

  /** make_mut_queue: the indexes of the mutations whose count is zero, ascending. */
  method MakeMutQueue(mcounts: seq<nat>) returns (q: seq<nat>)
    ensures Ascending(q)
    ensures forall i: nat :: i in q <==> i < |mcounts| && mcounts[i] == 0
  {
    q := [];
    var i := 0;
    while i < |mcounts|
      invariant 0 <= i <= |mcounts|
      invariant Ascending(q) && forall k :: 0 <= k < |q| ==> q[k] < i
      invariant forall j: nat :: j in q <==> j < i && mcounts[j] == 0
    {
      if mcounts[i] == 0 {
        q := q + [i];
      }
      i := i + 1;
    }
  }

  /** make_gamete_queue: the indexes of the genomes with n == 0, ascending. */
  method MakeGameteQueue(gametes: seq<Gamete>) returns (q: seq<nat>)
    ensures Ascending(q)
    ensures forall i: nat :: i in q <==> i < |gametes| && gametes[i].n == 0
  {
    q := [];
    var i := 0;
    while i < |gametes|
      invariant 0 <= i <= |gametes|
      invariant Ascending(q) && forall k :: 0 <= k < |q| ==> q[k] < i
      invariant forall j: nat :: j in q <==> j < i && gametes[j].n == 0
    {
      if gametes[i].n == 0 {
        q := q + [i];
      }
      i := i + 1;
    }
  }

  /**
   * recycle_gamete: with a non-empty queue the front index is popped and
   * that genome's containers are swapped with the new ones (so the caller's
   * containers receive the old keys); otherwise a genome with n == 0 is
   * appended and the caller's containers are moved from, left empty here.
   */
  method RecycleGamete(gametes: seq<Gamete>, queue: seq<nat>, neutral: seq<nat>, selected: seq<nat>)
    returns (gametes2: seq<Gamete>, queue2: seq<nat>, neutral2: seq<nat>, selected2: seq<nat>, idx: nat)
    requires queue != [] ==> queue[0] < |gametes|
    ensures idx < |gametes2| && gametes2[idx].mutations == neutral && gametes2[idx].smutations == selected
    ensures queue != [] ==> && idx == queue[0] && queue2 == queue[1..]
                            && gametes2 == gametes[idx := gametes[idx].(mutations := neutral, smutations := selected)]
                            && neutral2 == gametes[idx].mutations && selected2 == gametes[idx].smutations
    ensures queue == [] ==> && queue2 == [] && idx == |gametes|
                            && gametes2 == gametes + [Gamete(0, neutral, selected)]
  {
    if queue != [] {
      idx := queue[0];
      queue2 := queue[1..];
      neutral2, selected2 := gametes[idx].mutations, gametes[idx].smutations;
      gametes2 := gametes[idx := gametes[idx].(mutations := neutral, smutations := selected)];
      return;
    }
    queue2, neutral2, selected2 := [], [], [];
    gametes2 := gametes + [Gamete(0, neutral, selected)];
    idx := |gametes2| - 1;
  }

  /**
   * recycle_mutation_helper: the new mutation overwrites the slot at the
   * front of the queue, which is popped, or is appended when the queue is
   * empty; it sits at the returned index.
   */
  method RecycleMutationHelper(queue: seq<nat>, mutations: seq<Mutation>, m: Mutation)
    returns (queue2: seq<nat>, mutations2: seq<Mutation>, idx: nat)
    requires queue != [] ==> queue[0] < |mutations|
    ensures idx < |mutations2| && mutations2[idx] == m
    ensures |mutations| <= |mutations2| && forall i :: 0 <= i < |mutations| && i != idx ==> mutations2[i] == mutations[i]
    ensures queue != [] ==> idx == queue[0] && queue2 == queue[1..] && |mutations2| == |mutations|
    ensures queue == [] ==> queue2 == [] && idx == |mutations| && mutations2 == mutations + [m]
  {
    if queue != [] {
      idx := queue[0];
      queue2 := queue[1..];
      mutations2 := mutations[idx := m];
      return;
    }
    queue2 := [];
    mutations2 := mutations + [m];
    idx := |mutations2| - 1;
  }

  /**
   * The slot recycle_gamete reuses from a queue that make_gamete_queue built
   * held an extinct genome, so the debug check against recycling an extant
   * genome never fires, and the genome count is unchanged.
   */
  lemma RecycledGameteWasExtinct(gametes: seq<Gamete>, queue: seq<nat>)
    requires forall i: nat :: i in queue <==> i < |gametes| && gametes[i].n == 0
    requires queue != []
    ensures queue[0] < |gametes| && gametes[queue[0]].n == 0
  {
    assert queue[0] in queue;
  }

  /** Popping the front of an ascending queue of extinct slots leaves an ascending queue of extinct slots. */
  lemma PopKeepsQueue(gametes: seq<Gamete>, queue: seq<nat>, idx: nat, g: Gamete)
    requires Ascending(queue) && queue != [] && idx == queue[0]
    requires forall i :: 0 <= i < |queue| ==> queue[i] < |gametes| && gametes[queue[i]].n == 0
    requires idx < |gametes|
    ensures var rest, gs := queue[1..], gametes[idx := g];
      Ascending(rest) && forall i :: 0 <= i < |rest| ==> rest[i] < |gs| && gs[rest[i]].n == 0
  {
    var rest, gs := queue[1..], gametes[idx := g];
    forall i | 0 <= i < |rest| ensures rest[i] < |gs| && gs[rest[i]].n == 0 {
      assert queue[i + 1] == rest[i] && queue[0] < queue[i + 1];
    }
  }
}
