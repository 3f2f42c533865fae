// fwdpp/ts/variant_filler.hpp: the 0/1 genotypes of the samples below a
// node of a marginal tree, read off the tree's sample list for that node.

module VariantFiller {
  import opened Types
  import opened MarginalTree

  /**
   * The constructor's loop as a value: sample_indexes maps each sample to
   * its place in the sample list and every other node to NULL; the first
   * sample outside [0, nnodes) throws out_of_range and the first repeat
   * invalid_argument, whichever comes first.
   */
  function Indexed(nnodes: nat, samples: seq<int>): (r: Result<seq<int>>)
    ensures r.Ok? ==> |r.value| == nnodes
    decreases |samples|
  {
    if samples == [] then Ok(seq(nnodes, _ => NULL))
    else
      var idx :- Indexed(nnodes, samples[..|samples| - 1]);
      var s := samples[|samples| - 1];
      if s < 0 || s >= nnodes then Err(OutOfRange)
      else if idx[s] != NULL then Err(InvalidArgument)
      else Ok(idx[s := |samples| - 1])
  }

  /** A sample list that is indexed names distinct nodes, each mapped to its place, and nothing else is mapped. */
  lemma {:induction false} IndexedLabels(nnodes: nat, samples: seq<int>)
    requires Indexed(nnodes, samples).Ok?
    ensures NodesBelow(samples, nnodes) && Distinct(samples)
    ensures var idx := Indexed(nnodes, samples).value;
      (forall i :: 0 <= i < |samples| ==> idx[samples[i]] == i)
      && forall x :: 0 <= x < nnodes && x !in samples ==> idx[x] == NULL
    decreases |samples|
  {
    if samples != [] {
      var n := |samples| - 1;
      var front := samples[..n];
      IndexedLabels(nnodes, front);
      var idx0 := Indexed(nnodes, front).value;
      var s := samples[n];
      var idx := Indexed(nnodes, samples).value;
      assert idx == idx0[s := n];
      assert s !in front;
      forall i | 0 <= i < |samples| ensures idx[samples[i]] == i {
        if i < n {
          assert samples[i] == front[i] && front[i] != s;
        }
      }
      forall x | 0 <= x < nnodes && x !in samples ensures idx[x] == NULL {
        assert x != s && x !in front;
      }
      forall i, j | 0 <= i < j < |samples| ensures samples[i] != samples[j] {
        if j < n {
          assert samples[i] == front[i] && samples[j] == front[j];
        } else {
          assert samples[i] == front[i];
        }
      }
      assert forall i :: 0 <= i < n ==> samples[i] == front[i];
    }
  }

  /** Samples within [0, nnodes) and without repeats are always indexed. */
  lemma {:induction false} IndexedWhenValid(nnodes: nat, samples: seq<int>)
    requires NodesBelow(samples, nnodes) && Distinct(samples)
    ensures Indexed(nnodes, samples).Ok?
    decreases |samples|
  {
    if samples != [] {
      var front := samples[..|samples| - 1];
      IndexedWhenValid(nnodes, front);
      IndexedLabels(nnodes, front);
      var s := samples[|samples| - 1];
      assert s !in front;
    }
  }

  /** Which exception an invalid sample list gives: out_of_range when its nodes are distinct, invalid_argument when they are nodes. */
  lemma {:induction false} IndexedErrors(nnodes: nat, samples: seq<int>)
    ensures Distinct(samples) && !NodesBelow(samples, nnodes) ==> Indexed(nnodes, samples) == Err(OutOfRange)
    ensures NodesBelow(samples, nnodes) && !Distinct(samples) ==> Indexed(nnodes, samples) == Err(InvalidArgument)
    decreases |samples|
  {
    if samples != [] {
      var n := |samples| - 1;
      var front := samples[..n];
      var s := samples[n];
      assert forall i :: 0 <= i < n ==> samples[i] == front[i];
      IndexedErrors(nnodes, front);
      if NodesBelow(front, nnodes) && Distinct(front) {
        IndexedWhenValid(nnodes, front);
        IndexedLabels(nnodes, front);
        var idx0 := Indexed(nnodes, front).value;
        if Distinct(samples) && !NodesBelow(samples, nnodes) {
          assert !(0 <= s < nnodes);
        }
        if NodesBelow(samples, nnodes) && !Distinct(samples) {
          var i, j :| 0 <= i < j < |samples| && samples[i] == samples[j];
          assert j == n;
          assert idx0[front[i]] == i;
        }
      }
    }
  }

  /** The samples a walk visits: how many visited nodes are samples. */
  function SampleCount(idx: seq<int>, nodes: seq<int>): (r: nat)
    ensures r <= |nodes|
  {
    if nodes == [] then 0
    else
      var v := nodes[|nodes| - 1];
      SampleCount(idx, nodes[..|nodes| - 1]) + (if 0 <= v < |idx| && idx[v] != NULL then 1 else 0)
  }

  /** The genotypes a walk leaves, node by node: the sample place of each visited sample set to 1, from all 0. */
  function Genotypes(idx: seq<int>, nodes: seq<int>, m: nat): (r: seq<int>)
    ensures |r| == m
  {
    if nodes == [] then seq(m, _ => 0)
    else
      var g := Genotypes(idx, nodes[..|nodes| - 1], m);
      var v := nodes[|nodes| - 1];
      var k := if 0 <= v < |idx| then idx[v] else NULL;
      if 0 <= k < m then g[k := 1] else g
  }

  /** The genotypes are 0 or 1, and 1 exactly at the sample places of the visited nodes. */
  lemma {:induction false} GenotypesMarked(idx: seq<int>, nodes: seq<int>, m: nat)
    requires forall q :: 0 <= q < |nodes| ==> 0 <= nodes[q] < |idx|
    requires forall x :: 0 <= x < |idx| ==> idx[x] == NULL || 0 <= idx[x] < m
    ensures forall k :: 0 <= k < m ==> Genotypes(idx, nodes, m)[k] == 0 || Genotypes(idx, nodes, m)[k] == 1
    ensures forall k :: 0 <= k < m ==> (Genotypes(idx, nodes, m)[k] == 1 <==> exists q :: 0 <= q < |nodes| && idx[nodes[q]] == k)
    decreases |nodes|
  {
    if nodes != [] {
      var p := |nodes| - 1;
      var front := nodes[..p];
      GenotypesMarked(idx, front, m);
      var g0 := Genotypes(idx, front, m);
      var g := Genotypes(idx, nodes, m);
      forall k | 0 <= k < m
        ensures (g[k] == 0 || g[k] == 1) && (g[k] == 1 <==> exists q :: 0 <= q < |nodes| && idx[nodes[q]] == k)
      {
        assert g0[k] == 1 <==> exists q :: 0 <= q < |front| && idx[front[q]] == k;
        if g0[k] == 1 {
          var q :| 0 <= q < |front| && idx[front[q]] == k;
          assert idx[nodes[q]] == k;
        }
        if (exists q :: 0 <= q < |nodes| && idx[nodes[q]] == k) && idx[nodes[p]] != k {
          var q :| 0 <= q < |nodes| && idx[nodes[q]] == k;
          assert q < p && front[q] == nodes[q];
        }
      }
    }
  }

  /** The sum of the genotypes. */
  function Ones(g: seq<int>): int
  {
    if g == [] then 0 else Ones(g[..|g| - 1]) + g[|g| - 1]
  }

  /** Setting a 0 entry to 1 adds one to the sum. */
  lemma {:induction false} OnesSet(g: seq<int>, k: nat)
    requires k < |g| && g[k] == 0
    ensures Ones(g[k := 1]) == Ones(g) + 1
    decreases |g|
  {
    var g2 := g[k := 1];
    if k < |g| - 1 {
      assert g2[..|g2| - 1] == g[..|g| - 1][k := 1];
      OnesSet(g[..|g| - 1], k);
    } else {
      assert g2[..|g2| - 1] == g[..|g| - 1];
    }
  }

  /** The list of samples below a node: from left_sample along next_sample, up to right_sample. */
  function SampleWalk(t: Tree, node: int): (c: Chain)
    requires Shaped(t) && 0 <= node < NumNodes(t)
    ensures forall q :: 0 <= q < |c.nodes| ==> 0 <= c.nodes[q] < NumNodes(t)
  {
    Walk(t.nextSample, t.leftSample[node], t.rightSample[node], NumNodes(t))
  }

  /**
   * On a walk that visits no node twice and an index map that sends no two
   * nodes to the same place, the count operator() returns is the number of
   * genotypes it sets to 1.
   */
  lemma {:induction false} CountIsOnes(idx: seq<int>, nodes: seq<int>, m: nat)
    requires forall q :: 0 <= q < |nodes| ==> 0 <= nodes[q] < |idx|
    requires forall x :: 0 <= x < |idx| ==> idx[x] == NULL || 0 <= idx[x] < m
    requires forall x, y :: 0 <= x < |idx| && 0 <= y < |idx| && x != y && idx[x] != NULL ==> idx[x] != idx[y]
    requires Distinct(nodes)
    ensures SampleCount(idx, nodes) == Ones(Genotypes(idx, nodes, m))
    decreases |nodes|
  {
    if nodes == [] {
      ZeroOnes(Genotypes(idx, nodes, m));
    } else {
      var p := |nodes| - 1;
      var front := nodes[..p];
      assert front + [nodes[p]] == nodes;
      CountIsOnes(idx, front, m);
      FillStep(idx, front, nodes[p], m);
      if idx[nodes[p]] != NULL {
        NotYetSet(idx, nodes, p, m);
        OnesSet(Genotypes(idx, front, m), idx[nodes[p]]);
      }
    }
  }

  /** A node not visited before, under an injective index map, finds its genotype still 0. */
  lemma NotYetSet(idx: seq<int>, nodes: seq<int>, p: nat, m: nat)
    requires p < |nodes| && forall q :: 0 <= q < |nodes| ==> 0 <= nodes[q] < |idx|
    requires forall x :: 0 <= x < |idx| ==> idx[x] == NULL || 0 <= idx[x] < m
    requires forall x, y :: 0 <= x < |idx| && 0 <= y < |idx| && x != y && idx[x] != NULL ==> idx[x] != idx[y]
    requires Distinct(nodes) && idx[nodes[p]] != NULL
    ensures Genotypes(idx, nodes[..p], m)[idx[nodes[p]]] == 0
  {
    var front := nodes[..p];
    GenotypesMarked(idx, front, m);
    assert forall q :: 0 <= q < |front| ==> front[q] == nodes[q] && nodes[q] != nodes[p];
  }

  /** All-zero genotypes sum to 0. */
  lemma {:induction false} ZeroOnes(g: seq<int>)
    requires forall k :: 0 <= k < |g| ==> g[k] == 0
    ensures Ones(g) == 0
    decreases |g|
  {
    if g != [] {
      ZeroOnes(g[..|g| - 1]);
    }
  }

  /**
   * With the index map of a sample list, the genotype of a sample is 1
   * exactly when the walk visits it.
   */
  lemma FilledSamples(nnodes: nat, samples: seq<int>, nodes: seq<int>)
    requires Indexed(nnodes, samples).Ok?
    requires forall q :: 0 <= q < |nodes| ==> 0 <= nodes[q] < nnodes
    ensures forall k :: 0 <= k < |samples| ==>
      (Genotypes(Indexed(nnodes, samples).value, nodes, |samples|)[k] == 1 <==> samples[k] in nodes)
  {
    var idx := Indexed(nnodes, samples).value;
    IndexedLabels(nnodes, samples);
    IndexedInjective(nnodes, samples);
    GenotypesMarked(idx, nodes, |samples|);
    var g := Genotypes(idx, nodes, |samples|);
    forall k | 0 <= k < |samples| ensures g[k] == 1 <==> samples[k] in nodes {
      if samples[k] in nodes {
        var q :| 0 <= q < |nodes| && nodes[q] == samples[k];
        assert idx[nodes[q]] == k;
      }
      if g[k] == 1 {
        var q :| 0 <= q < |nodes| && idx[nodes[q]] == k;
        if nodes[q] !in samples {
          assert idx[nodes[q]] == NULL;
        } else {
          var i :| 0 <= i < |samples| && samples[i] == nodes[q];
          assert idx[samples[i]] == i;
        }
      }
    }
  }

  /** An index map of a sample list sends distinct nodes to distinct places within the list. */
  lemma IndexedInjective(nnodes: nat, samples: seq<int>)
    requires Indexed(nnodes, samples).Ok?
    ensures var idx := Indexed(nnodes, samples).value;
      (forall x :: 0 <= x < nnodes ==> idx[x] == NULL || 0 <= idx[x] < |samples|)
      && forall x, y :: 0 <= x < y < nnodes && idx[x] != NULL ==> idx[x] != idx[y]
  {
    var idx := Indexed(nnodes, samples).value;
    IndexedLabels(nnodes, samples);
    forall x | 0 <= x < nnodes ensures idx[x] == NULL || (0 <= idx[x] < |samples| && samples[idx[x]] == x) {
      if x in samples {
        var i :| 0 <= i < |samples| && samples[i] == x;
        assert idx[samples[i]] == i;
      }
    }
  }

  /**
   * variant_filler: sample_indexes, fixed at construction, and the
   * genotypes buffer, one entry per sample, which operator() overwrites.
   */
  class Filler {
    const sampleIndexes: seq<int>
    const genotypes: array<int>

    /** Every sample index names an entry of the genotypes buffer. */
    ghost predicate Valid()
      reads this
    {
      forall x :: 0 <= x < |sampleIndexes| ==> sampleIndexes[x] == NULL || 0 <= sampleIndexes[x] < genotypes.Length
    }

    /** The member initialisers: the index map, and nsamples zero genotypes. */
    constructor (sampleIndexes: seq<int>, nsamples: nat)
      requires forall x :: 0 <= x < |sampleIndexes| ==> sampleIndexes[x] == NULL || 0 <= sampleIndexes[x] < nsamples
      ensures Valid() && this.sampleIndexes == sampleIndexes && genotypes.Length == nsamples && fresh(genotypes)
      ensures forall k :: 0 <= k < nsamples ==> genotypes[k] == 0
    {
      this.sampleIndexes := sampleIndexes;
      genotypes := new int[nsamples](_ => 0);
    }

    /**
     * operator(): out_of_range for a node outside the tree; otherwise the
     * genotypes are reset, and the walk over the node's sample list sets
     * the genotype of each sample it visits to 1 and counts them.  A list
     * that leaves the arrays or cycles is Undefined.
     */
    method Fill(t: Tree, node: int) returns (r: Result<nat>)
      requires Valid() && Shaped(t) && NumNodes(t) == |sampleIndexes|
      modifies genotypes
      ensures !(0 <= node < |sampleIndexes|) ==> r == Err(OutOfRange) && genotypes[..] == old(genotypes[..])
      ensures 0 <= node < |sampleIndexes| && SampleWalk(t, node).stop != AtEnd ==> r == Err(Undefined)
      ensures 0 <= node < |sampleIndexes| && SampleWalk(t, node).stop == AtEnd ==>
        r == Ok(SampleCount(sampleIndexes, SampleWalk(t, node).nodes))
        && genotypes[..] == Genotypes(sampleIndexes, SampleWalk(t, node).nodes, genotypes.Length)
    {
      if node < 0 || node >= |sampleIndexes| {
        return Err(OutOfRange);
      }
      Reset();
      r := Tally(t, node);
    }

    /** std::fill: every genotype back to 0. */
    method Reset()
      modifies genotypes
      ensures genotypes[..] == Genotypes(sampleIndexes, [], genotypes.Length)
    {
      for k := 0 to genotypes.Length
        invariant forall k2 :: 0 <= k2 < k ==> genotypes[k2] == 0
      {
        genotypes[k] := 0;
      }
    }

    /** The loop of operator() from left_sample[node], on genotypes that are all 0. */
    method Tally(t: Tree, node: int) returns (r: Result<nat>)
      requires Valid() && Shaped(t) && NumNodes(t) == |sampleIndexes| && 0 <= node < |sampleIndexes|
      requires genotypes[..] == Genotypes(sampleIndexes, [], genotypes.Length)
      modifies genotypes
      ensures SampleWalk(t, node).stop != AtEnd ==> r == Err(Undefined)
      ensures SampleWalk(t, node).stop == AtEnd ==>
        r == Ok(SampleCount(sampleIndexes, SampleWalk(t, node).nodes))
        && genotypes[..] == Genotypes(sampleIndexes, SampleWalk(t, node).nodes, genotypes.Length)
    {
      var m, g, idx := genotypes.Length, genotypes, sampleIndexes;
      ghost var c := SampleWalk(t, node);
      ghost var visited := [];
      var count := 0;
      var right := t.rightSample[node];
      var i := t.leftSample[node];
      var fuel := NumNodes(t);
      while i != NULL
        invariant Walk(t.nextSample, i, right, fuel).stop == c.stop
        invariant visited + Walk(t.nextSample, i, right, fuel).nodes == c.nodes
        invariant count == SampleCount(idx, visited)
        invariant g[..] == Genotypes(idx, visited, m)
        decreases fuel
      {
        if !(0 <= i < NumNodes(t)) || fuel == 0 {
          assert c.stop != AtEnd;
          return Err(Undefined);
        }
        count := Visit(g, idx, visited, i, count);
        if i == right {
          WalkStopsAt(t.nextSample, i, fuel, visited, c);
          return Ok(count);
        }
        WalkPrefixStepTo(t.nextSample, i, right, fuel, visited, c);
        visited := visited + [i];
        i := t.nextSample[i];
        fuel := fuel - 1;
      }
      assert visited + [] == visited;
      return Ok(count);
    }
  }

  /** A walk that reaches its stopping node ends there. */
  lemma WalkStopsAt(next: seq<int>, x: int, fuel: nat, prefix: seq<int>, total: Chain)
    requires 0 <= x < |next| && fuel > 0
    requires prefix + Walk(next, x, x, fuel).nodes == total.nodes && Walk(next, x, x, fuel).stop == total.stop
    ensures prefix + [x] == total.nodes && total.stop == AtEnd
  {
  }

  /** A loop that has collected a prefix of a walk moves on past x, which is not the stopping node. */
  lemma WalkPrefixStepTo(next: seq<int>, x: int, last: int, fuel: nat, prefix: seq<int>, total: Chain)
    requires 0 <= x < |next| && fuel > 0 && x != last
    requires prefix + Walk(next, x, last, fuel).nodes == total.nodes && Walk(next, x, last, fuel).stop == total.stop
    ensures (prefix + [x]) + Walk(next, next[x], last, fuel - 1).nodes == total.nodes
    ensures Walk(next, next[x], last, fuel - 1).stop == total.stop
  {
    var w := Walk(next, next[x], last, fuel - 1);
    assert Walk(next, x, last, fuel).nodes == [x] + w.nodes;
    assert prefix + ([x] + w.nodes) == (prefix + [x]) + w.nodes;
  }

  /** The body of operator()'s loop for one node: a sample node's place in the genotypes is set to 1 and counted. */
  method Visit(g: array<int>, idx: seq<int>, ghost visited: seq<int>, i: int, count: nat) returns (count2: nat)
    requires 0 <= i < |idx| && (idx[i] == NULL || 0 <= idx[i] < g.Length)
    requires count == SampleCount(idx, visited) && g[..] == Genotypes(idx, visited, g.Length)
    modifies g
    ensures count2 == SampleCount(idx, visited + [i]) && g[..] == Genotypes(idx, visited + [i], g.Length)
  {
    count2 := count;
    var si := idx[i];
    if si != NULL {
      count2 := count2 + 1;
      g[si] := 1;
    }
    FillStep(idx, visited, i, g.Length);
  }

  /** One visited node: the count and the genotypes of the walk so far grow by that node's sample, if any. */
  lemma FillStep(idx: seq<int>, visited: seq<int>, v: int, m: nat)
    requires 0 <= v < |idx| && (idx[v] == NULL || 0 <= idx[v] < m)
    ensures SampleCount(idx, visited + [v]) == SampleCount(idx, visited) + (if idx[v] != NULL then 1 else 0)
    ensures idx[v] == NULL ==> Genotypes(idx, visited + [v], m) == Genotypes(idx, visited, m)
    ensures idx[v] != NULL ==> Genotypes(idx, visited + [v], m) == Genotypes(idx, visited, m)[idx[v] := 1]
  {
    assert (visited + [v])[..|visited|] == visited;
  }

  /**
   * The constructor: sample_indexes from the sample list, or the exception
   * the first bad sample throws; nnodes is the node count of the tables.
   */
  method NewFiller(nnodes: nat, samples: seq<int>) returns (r: Result<Filler>)
    ensures Indexed(nnodes, samples).Err? ==> r == Err(Indexed(nnodes, samples).error)
    ensures Indexed(nnodes, samples).Ok? ==> r.Ok? && fresh(r.value) && fresh(r.value.genotypes) && r.value.Valid()
    ensures Indexed(nnodes, samples).Ok? ==> r.Ok? && r.value.sampleIndexes == Indexed(nnodes, samples).value
    ensures Indexed(nnodes, samples).Ok? ==> r.Ok? && r.value.genotypes.Length == |samples|
  {
    var idx := seq(nnodes, _ => NULL);
    for i := 0 to |samples|
      invariant Indexed(nnodes, samples[..i]) == Ok(idx)
    {
      assert samples[..i + 1][..i] == samples[..i];
      var s := samples[i];
      if s < 0 || s >= nnodes {
        IndexedFails(nnodes, samples, i + 1);
        return Err(OutOfRange);
      }
      if idx[s] != NULL {
        IndexedFails(nnodes, samples, i + 1);
        return Err(InvalidArgument);
      }
      idx := idx[s := i];
    }
    assert samples[..|samples|] == samples;
    IndexedInjective(nnodes, samples);
    var f := new Filler(idx, |samples|);
    return Ok(f);
  }

  /** Once a prefix of the sample list fails, the whole list fails the same way. */
  lemma {:induction false} IndexedFails(nnodes: nat, samples: seq<int>, i: nat)
    requires i <= |samples| && Indexed(nnodes, samples[..i]).Err?
    ensures Indexed(nnodes, samples) == Indexed(nnodes, samples[..i])
    decreases |samples| - i
  {
    if i < |samples| {
      assert samples[..i + 1][..i] == samples[..i];
      IndexedFails(nnodes, samples, i + 1);
    } else {
      assert samples[..i] == samples;
    }
  }
}
