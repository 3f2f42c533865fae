// fwdpp/ts/marginal_tree.hpp: a non-recombining tree stored as parallel
// arrays indexed by node id.  Siblings, the roots and the samples below a
// node form linked lists threaded through those arrays; the walks along
// them are modelled once here and used by the iterators, the advance
// policies, the tree visitor and the variant filler.

module MarginalTree {
  import opened Types

  /** How a walk along a link array ended. */
  datatype Stop =
    | AtEnd           // reached NULL, or visited the node it was told to stop at
    | Escaped(at: int) // reached a value that is not an index of the array
    | Unfinished      // still going after its fuel was spent: the list has a cycle

  /** The nodes a walk visited, in order, and how it ended. */
  datatype Chain = Chain(nodes: seq<int>, stop: Stop)

  /**
   * Follows next[] from x until NULL, stopping right after visiting last
   * (when last is a node), through at most fuel nodes.
   */
  function Walk(next: seq<int>, x: int, last: int, fuel: nat): (c: Chain)
    ensures |c.nodes| <= fuel
    ensures forall i :: 0 <= i < |c.nodes| ==> 0 <= c.nodes[i] < |next|
    ensures c.nodes == [] ==> (x == NULL && c.stop == AtEnd) || c.stop == Escaped(x) || c.stop == Unfinished
    ensures c.nodes != [] ==> c.nodes[0] == x
    ensures c.stop.Escaped? ==> !(0 <= c.stop.at < |next|) && c.stop.at != NULL
    decreases fuel
  {
    if x == NULL then Chain([], AtEnd)
    else if !(0 <= x < |next|) then Chain([], Escaped(x))
    else if fuel == 0 then Chain([], Unfinished)
    else if x == last then Chain([x], AtEnd)
    else
      var c := Walk(next, next[x], last, fuel - 1);
      Chain([x] + c.nodes, c.stop)
  }

  /**
   * A walk follows the links: each visited node but the last is not the
   * stopping node and links to the next one, and a walk that reached its
   * end finished at the stopping node or at a node linking to NULL.
   */
  lemma {:induction false} WalkLinks(next: seq<int>, x: int, last: int, fuel: nat)
    ensures var c := Walk(next, x, last, fuel);
      forall i :: 0 <= i < |c.nodes| - 1 ==> c.nodes[i] != last && next[c.nodes[i]] == c.nodes[i + 1]
    ensures var c := Walk(next, x, last, fuel);
      c.stop == AtEnd && c.nodes != [] ==> c.nodes[|c.nodes| - 1] == last || next[c.nodes[|c.nodes| - 1]] == NULL
    decreases fuel
  {
    if x != NULL && 0 <= x < |next| && fuel > 0 && x != last {
      WalkLinks(next, next[x], last, fuel - 1);
      var c := Walk(next, next[x], last, fuel - 1);
      assert Walk(next, x, last, fuel).nodes == [x] + c.nodes;
    }
  }

  /** Walks from equal positions of a walk agree for as long as both last. */
  lemma {:induction false} WalkShifted(next: seq<int>, c: seq<int>, i: nat, j: nat, k: nat)
    requires forall m :: 0 <= m < |c| ==> 0 <= c[m] < |next|
    requires forall m :: 0 <= m < |c| - 1 ==> next[c[m]] == c[m + 1]
    requires i < j && j + k < |c|
    ensures c[i] == c[j] ==> c[i + k] == c[j + k]
  {
    if k > 0 {
      WalkShifted(next, c, i, j, k - 1);
    }
  }

  /** A walk that reached NULL visited no node twice: a repeat would have made it cycle. */
  lemma WalkDistinct(next: seq<int>, x: int, fuel: nat)
    requires Walk(next, x, NULL, fuel).stop == AtEnd
    ensures Distinct(Walk(next, x, NULL, fuel).nodes)
  {
    var c := Walk(next, x, NULL, fuel).nodes;
    WalkLinks(next, x, NULL, fuel);
    forall i, j | 0 <= i < j < |c| ensures c[i] != c[j] {
      var k := |c| - 1 - j;
      WalkShifted(next, c, i, j, k);
      assert next[c[i + k]] == c[i + k + 1] && next[c[j + k]] == NULL;
    }
  }

  /** One step of a walk without a stopping node. */
  lemma WalkNext(next: seq<int>, x: int, fuel: nat)
    requires 0 <= x < |next| && fuel > 0
    ensures Walk(next, x, NULL, fuel).nodes == [x] + Walk(next, next[x], NULL, fuel - 1).nodes
    ensures Walk(next, x, NULL, fuel).stop == Walk(next, next[x], NULL, fuel - 1).stop
  {
  }

  /** A loop that has collected prefix of a walk moves on past x. */
  lemma WalkPrefixStep(next: seq<int>, x: int, fuel: nat, prefix: seq<int>, total: Chain)
    requires 0 <= x < |next| && fuel > 0
    requires prefix + Walk(next, x, NULL, fuel).nodes == total.nodes && Walk(next, x, NULL, fuel).stop == total.stop
    ensures (prefix + [x]) + Walk(next, next[x], NULL, fuel - 1).nodes == total.nodes
    ensures Walk(next, next[x], NULL, fuel - 1).stop == total.stop
  {
    WalkNext(next, x, fuel);
    assert prefix + ([x] + Walk(next, next[x], NULL, fuel - 1).nodes)
        == (prefix + [x]) + Walk(next, next[x], NULL, fuel - 1).nodes;
  }

  /** The list threaded through next[] from x: a list without a cycle visits each index at most once. */
  function ListFrom(next: seq<int>, x: int): Chain
  {
    Walk(next, x, NULL, |next|)
  }

  /**
   * A sequence laid out along next[] (each element links to the following
   * one and the last to NULL) is exactly what the walk from its head visits.
   */
  lemma {:induction false} WalkAlong(next: seq<int>, l: seq<int>, i: nat, fuel: nat)
    requires i <= |l| && |l| - i <= fuel
    requires forall j :: 0 <= j < |l| ==> 0 <= l[j] < |next|
    requires forall j :: 0 <= j < |l| - 1 ==> next[l[j]] == l[j + 1]
    requires l != [] ==> next[l[|l| - 1]] == NULL
    ensures Walk(next, if i < |l| then l[i] else NULL, NULL, fuel) == Chain(l[i..], AtEnd)
    decreases |l| - i
  {
    if i < |l| {
      var x := l[i];
      if i + 1 < |l| {
        WalkAlong(next, l, i + 1, fuel - 1);
      } else {
        assert next[x] == NULL;
      }
      assert l[i..] == [x] + l[i + 1..];
    }
  }

  /** A duplicate-free sequence of indexes into [0, n) has at most n elements. */
  lemma {:induction false} DistinctBound(s: seq<int>, n: nat)
    requires Distinct(s)
    requires forall i :: 0 <= i < |s| ==> 0 <= s[i] < n
    ensures |s| <= n
    decreases |s|
  {
    if s != [] {
      var x := s[|s| - 1];
      assert 0 <= x < n;
      var t := seq(|s| - 1, i requires 0 <= i < |s| - 1 => if s[i] > x then s[i] - 1 else s[i]);
      forall i, j | 0 <= i < j < |t| ensures t[i] != t[j] {
        assert s[i] != s[j] && s[i] != x && s[j] != x;
      }
      forall i | 0 <= i < |t| ensures 0 <= t[i] < n - 1 {
        assert s[i] != x;
      }
      DistinctBound(t, n - 1);
    }
  }

  /** Every element of s is a node id below n. */
  predicate NodesBelow(s: seq<int>, n: int)
  {
    forall i :: 0 <= i < |s| ==> 0 <= s[i] < n
  }

  /**
   * marginal_tree's public arrays and its private samples_list.  left and
   * right are the genomic interval of the tree; above_sample holds 0 or 1.
   */
  datatype Tree = Tree(
    parents: seq<int>, leafCounts: seq<int>, preservedLeafCounts: seq<int>,
    leftSib: seq<int>, rightSib: seq<int>, leftChild: seq<int>, rightChild: seq<int>,
    leftSample: seq<int>, rightSample: seq<int>, nextSample: seq<int>,
    sampleIndexMap: seq<int>, aboveSample: seq<int>,
    left: Double, right: Double, leftRoot: int, samplesList: seq<int>)

  /** The number of nodes the tree was built for. */
  function NumNodes(t: Tree): nat
  {
    |t.parents|
  }

  /** Every per-node array has one entry per node. */
  predicate Shaped(t: Tree)
  {
    var n := |t.parents|;
    |t.leafCounts| == n && |t.preservedLeafCounts| == n && |t.leftSib| == n && |t.rightSib| == n
    && |t.leftChild| == n && |t.rightChild| == n && |t.leftSample| == n && |t.rightSample| == n
    && |t.nextSample| == n && |t.sampleIndexMap| == n && |t.aboveSample| == n
  }

  /** The ancestors of x, x first, along parents. */
  function Ancestors(t: Tree, x: int): Chain
  {
    ListFrom(t.parents, x)
  }

  /** The root list: right_sib from left_root. */
  function RootList(t: Tree): Chain
  {
    ListFrom(t.rightSib, t.leftRoot)
  }

  /** The member initialisers of the sample-list constructors: nnodes NULL links and zero counts, left and right NaN. */
  function Blank(nnodes: nat, list: seq<int>): (t: Tree)
    ensures Shaped(t) && NumNodes(t) == nnodes && t.samplesList == list
  {
    var nulls := seq(nnodes, _ => NULL);
    var zeros := seq(nnodes, _ => 0);
    Tree(nulls, zeros, zeros, nulls, nulls, nulls, nulls, nulls, nulls, nulls, nulls, zeros, NaN, NaN, NULL, list)
  }

  /**
   * What init_samples has done after the first i entries of the list: each
   * of them knows its index, is its own sample list, is above a sample and
   * is linked to its neighbours in the list as a root; every other node is
   * still unset.
   */
  predicate SamplesInitialized(t: Tree, list: seq<int>, i: nat)
    requires Shaped(t) && i <= |list| && NodesBelow(list, NumNodes(t))
  {
    SamplesSet(t, list, i) && OthersUnset(t, list, i)
  }

  /** The first i entries of the list are set up. */
  predicate SamplesSet(t: Tree, list: seq<int>, i: nat)
    requires Shaped(t) && i <= |list| && NodesBelow(list, NumNodes(t))
  {
    forall j :: 0 <= j < i ==>
      t.sampleIndexMap[list[j]] == j && t.leftSample[list[j]] == j && t.rightSample[list[j]] == j
      && t.aboveSample[list[j]] == 1 && t.rightSib[list[j]] == After(list, j) && t.leftSib[list[j]] == Before(list, j)
  }

  /** Every node outside the first i entries of the list is still unset. */
  predicate OthersUnset(t: Tree, list: seq<int>, i: nat)
    requires Shaped(t) && i <= |list| && NodesBelow(list, NumNodes(t))
  {
    forall x :: 0 <= x < NumNodes(t) && x !in list[..i] ==>
      t.sampleIndexMap[x] == NULL && t.leftSample[x] == NULL && t.rightSample[x] == NULL
      && t.aboveSample[x] == 0 && t.rightSib[x] == NULL && t.leftSib[x] == NULL
  }

  /** The entry after list[j], or NULL for the last one. */
  function After(list: seq<int>, j: nat): int
    requires j < |list|
  {
    if j + 1 < |list| then list[j + 1] else NULL
  }

  /** In a walk to NULL, each node links to the node after it, the last one to NULL. */
  lemma WalkAfter(next: seq<int>, x: int, fuel: nat, i: nat)
    requires Walk(next, x, NULL, fuel).stop == AtEnd && i < |Walk(next, x, NULL, fuel).nodes|
    ensures next[Walk(next, x, NULL, fuel).nodes[i]] == After(Walk(next, x, NULL, fuel).nodes, i)
  {
    WalkLinks(next, x, NULL, fuel);
  }

  /** The entry before list[j], or NULL for the first one. */
  function Before(list: seq<int>, j: nat): int
    requires j < |list|
  {
    if j > 0 then list[j - 1] else NULL
  }

  /** t differs from b at most in the six arrays init_samples writes. */
  predicate OnlySampleArrays(t: Tree, b: Tree)
  {
    t == b.(sampleIndexMap := t.sampleIndexMap, leftSample := t.leftSample, rightSample := t.rightSample,
            aboveSample := t.aboveSample, rightSib := t.rightSib, leftSib := t.leftSib)
  }

  /** The writes one pass of init_samples' loop makes, for list[i]. */
  function InitOne(t: Tree, list: seq<int>, i: nat): (t2: Tree)
    requires Shaped(t) && i < |list| && NodesBelow(list, NumNodes(t))
    ensures Shaped(t2) && NumNodes(t2) == NumNodes(t) && OnlySampleArrays(t2, t)
  {
    var s := list[i];
    t.(sampleIndexMap := t.sampleIndexMap[s := i], leftSample := t.leftSample[s := i],
       rightSample := t.rightSample[s := i], aboveSample := t.aboveSample[s := 1],
       rightSib := if i < |list| - 1 then t.rightSib[s := list[i + 1]] else t.rightSib,
       leftSib := if i > 0 then t.leftSib[s := list[i - 1]] else t.leftSib)
  }

  /** One pass sets up list[i] when it has not been met before, and leaves the other nodes alone. */
  lemma InitOneStep(t: Tree, list: seq<int>, i: nat)
    requires Shaped(t) && i < |list| && NodesBelow(list, NumNodes(t))
    requires SamplesInitialized(t, list, i) && list[i] !in list[..i]
    ensures SamplesInitialized(InitOne(t, list, i), list, i + 1)
  {
    assert list[..i + 1] == list[..i] + [list[i]];
    InitOneSets(t, list, i);
    InitOneKeepsOthers(t, list, i);
  }

  lemma InitOneSets(t: Tree, list: seq<int>, i: nat)
    requires Shaped(t) && i < |list| && NodesBelow(list, NumNodes(t))
    requires SamplesSet(t, list, i) && list[i] !in list[..i]
    requires t.rightSib[list[i]] == NULL && t.leftSib[list[i]] == NULL
    ensures SamplesSet(InitOne(t, list, i), list, i + 1)
  {
    var t2 := InitOne(t, list, i);
    forall j | 0 <= j < i + 1
      ensures t2.sampleIndexMap[list[j]] == j && t2.leftSample[list[j]] == j && t2.rightSample[list[j]] == j
      && t2.aboveSample[list[j]] == 1 && t2.rightSib[list[j]] == After(list, j) && t2.leftSib[list[j]] == Before(list, j)
    {
      if j < i {
        assert list[j] in list[..i];
        assert list[j] != list[i];
      }
    }
  }

  lemma InitOneKeepsOthers(t: Tree, list: seq<int>, i: nat)
    requires Shaped(t) && i < |list| && NodesBelow(list, NumNodes(t))
    requires OthersUnset(t, list, i) && list[..i + 1] == list[..i] + [list[i]]
    ensures OthersUnset(InitOne(t, list, i), list, i + 1)
  {
    var t2 := InitOne(t, list, i);
    forall x | 0 <= x < NumNodes(t2) && x !in list[..i + 1]
      ensures t2.sampleIndexMap[x] == NULL && t2.leftSample[x] == NULL && t2.rightSample[x] == NULL
      && t2.aboveSample[x] == 0 && t2.rightSib[x] == NULL && t2.leftSib[x] == NULL
    {
      assert x != list[i] && x !in list[..i];
    }
  }

  /** An entry met again in the prefix before it makes the list not distinct. */
  lemma PrefixRepeat(list: seq<int>, i: nat)
    requires i < |list| && list[i] in list[..i]
    ensures !Distinct(list)
  {
    var j :| 0 <= j < i && list[j] == list[i];
  }

  /** A distinct prefix stays distinct with one more entry not in it. */
  lemma PrefixDistinct(list: seq<int>, i: nat)
    requires i < |list| && Distinct(list[..i]) && list[i] !in list[..i]
    ensures Distinct(list[..i + 1])
  {
    assert list[..i + 1] == list[..i] + [list[i]];
  }

  /**
   * init_samples on the member initialisers: a node met a second time
   * throws invalid_argument; otherwise every entry of the list is set up.
   */
  method InitSamples(nnodes: nat, list: seq<int>) returns (r: Result<Tree>)
    requires NodesBelow(list, nnodes)
    ensures r.Ok? <==> Distinct(list)
    ensures r.Err? ==> r.error == InvalidArgument
    ensures r.Ok? ==> Shaped(r.value) && NumNodes(r.value) == nnodes
    ensures r.Ok? ==> OnlySampleArrays(r.value, Blank(nnodes, list)) && SamplesInitialized(r.value, list, |list|)
  {
    var b := Blank(nnodes, list);
    var t := b;
    var i := 0;
    while i < |list|
      invariant 0 <= i <= |list|
      invariant Shaped(t) && NumNodes(t) == nnodes && OnlySampleArrays(t, b)
      invariant Distinct(list[..i])
      invariant SamplesInitialized(t, list, i)
    {
      var s := list[i];
      if t.sampleIndexMap[s] != NULL {
        PrefixRepeat(list, i);
        return Err(InvalidArgument);
      }
      ghost var t0 := t;
      t := InitOne(t, list, i);
      InitOneStep(t0, list, i);
      PrefixDistinct(list, i);
      i := i + 1;
    }
    assert list[..i] == list;
    return Ok(t);
  }

  /** The leaf-count loops: counts[s] = 1 for every s in nodes. */
  method MarkCounts(counts: seq<int>, nodes: seq<int>) returns (counts2: seq<int>)
    requires NodesBelow(nodes, |counts|)
    ensures |counts2| == |counts|
    ensures forall x :: 0 <= x < |counts| ==> counts2[x] == if x in nodes then 1 else counts[x]
  {
    counts2 := counts;
    var i := 0;
    while i < |nodes|
      invariant 0 <= i <= |nodes| && |counts2| == |counts|
      invariant forall x :: 0 <= x < |counts| ==> counts2[x] == if x in nodes[..i] then 1 else counts[x]
    {
      counts2 := counts2[nodes[i] := 1];
      assert nodes[..i + 1] == nodes[..i] + [nodes[i]];
      i := i + 1;
    }
    assert nodes[..i] == nodes;
  }

  /**
   * A freshly built tree: samples_list is list, init_samples has run, the
   * list's first entry is left_root, every listed node has leaf count 1,
   * exactly the preserved nodes have preserved leaf count 1, and there are
   * no edges yet.
   */
  predicate Constructed(t: Tree, nnodes: nat, list: seq<int>, preserved: seq<int>)
  {
    Shaped(t) && NumNodes(t) == nnodes && t.samplesList == list && list != [] && NodesBelow(list, nnodes)
    && SamplesInitialized(t, list, |list|) && t.leftRoot == list[0]
    && t.left == NaN && t.right == NaN
    && (forall x :: 0 <= x < nnodes ==> t.leafCounts[x] == if x in list then 1 else 0)
    && (forall x :: 0 <= x < nnodes ==> t.preservedLeafCounts[x] == if x in preserved then 1 else 0)
    && (forall x :: 0 <= x < nnodes ==>
          t.parents[x] == NULL && t.leftChild[x] == NULL && t.rightChild[x] == NULL && t.nextSample[x] == NULL)
  }

  /** Setting the counts and left_root leaves what init_samples did in place. */
  lemma SamplesStayInitialized(t: Tree, t2: Tree, list: seq<int>)
    requires Shaped(t) && NodesBelow(list, NumNodes(t)) && SamplesInitialized(t, list, |list|)
    requires t2 == t.(leafCounts := t2.leafCounts, preservedLeafCounts := t2.preservedLeafCounts, leftRoot := t2.leftRoot)
    requires |t2.leafCounts| == NumNodes(t) && |t2.preservedLeafCounts| == NumNodes(t)
    ensures Shaped(t2) && SamplesInitialized(t2, list, |list|)
  {
  }

  /** The constructor from a sample list: empty_samples for an empty list, invalid_argument for a repeated node. */
  method NewTree(nnodes: nat, samples: seq<int>) returns (r: Result<Tree>)
    requires NodesBelow(samples, nnodes)
    ensures samples == [] ==> r == Err(EmptySamples)
    ensures samples != [] ==> (r.Ok? <==> Distinct(samples)) && (r.Err? ==> r.error == InvalidArgument)
    ensures r.Ok? ==> Constructed(r.value, nnodes, samples, [])
  {
    if samples == [] {
      return Err(EmptySamples);
    }
    var t :- InitSamples(nnodes, samples);
    var counts := MarkCounts(t.leafCounts, samples);
    ghost var t0 := t;
    t := t.(leafCounts := counts, leftRoot := samples[0]);
    SamplesStayInitialized(t0, t, samples);
    return Ok(t);
  }

  /** forward_input_samples for lvalue lists: the samples, then the preserved nodes. */
  function ForwardInputSamples(a: seq<int>, b: seq<int>): (r: seq<int>)
    ensures |r| == |a| + |b|
    ensures r[..|a|] == a && r[|a|..] == b
  {
    a + b
  }

  /**
   * forward_input_samples for rvalue lists as written: the result is moved
   * out of a before b is appended, and b is appended to the moved-from a,
   * so the result is a alone.
   */
  function ForwardInputSamplesMoved(a: seq<int>, b: seq<int>): (r: seq<int>)
    ensures b != [] ==> |r| < |a| + |b|
  {
    a
  }

  /** The rvalue overload drops the preserved nodes: [0] and [1] give [0], not [0, 1]. */
  lemma MovedDropsPreserved()
    ensures ForwardInputSamplesMoved([0], [1]) == [0]
    ensures ForwardInputSamples([0], [1]) == [0, 1]
  {
    assert [0] + [1] == [0, 1];
  }

  /**
   * The constructor with preserved nodes: samples_list is the samples
   * followed by the preserved nodes; the preserved nodes also get leaf
   * count 1 and preserved leaf count 1.
   */
  method NewTreePreserved(nnodes: nat, samples: seq<int>, preserved: seq<int>) returns (r: Result<Tree>)
    requires NodesBelow(samples, nnodes) && NodesBelow(preserved, nnodes)
    ensures samples == [] && preserved == [] ==> r == Err(EmptySamples)
    ensures samples + preserved != [] ==>
      (r.Ok? <==> Distinct(samples + preserved)) && (r.Err? ==> r.error == InvalidArgument)
    ensures r.Ok? ==> Constructed(r.value, nnodes, samples + preserved, preserved)
  {
    var list := ForwardInputSamples(samples, preserved);
    if list == [] {
      return Err(EmptySamples);
    }
    var t :- InitSamples(nnodes, list);
    ghost var t0 := t;
    var counts := MarkCounts(t.leafCounts, list);
    var pcounts := MarkCounts(t.preservedLeafCounts, preserved);
    t := t.(leftRoot := list[0], leafCounts := counts, preservedLeafCounts := pcounts);
    SamplesStayInitialized(t0, t, list);
    return Ok(t);
  }

  /** The constructor from a node count alone: NULL links and no leaf-count arrays at all. */
  function Unsampled(nnodes: nat): (t: Tree)
    ensures NumNodes(t) == nnodes && |t.leafCounts| == 0 && |t.preservedLeafCounts| == 0
    ensures |t.rightSib| == nnodes && RootList(t) == Chain([], AtEnd)
  {
    Blank(nnodes, []).(leafCounts := [], preservedLeafCounts := [])
  }

  /** A built tree's samples are distinct: each knows its own index. */
  lemma ConstructedDistinct(t: Tree, nnodes: nat, list: seq<int>, preserved: seq<int>)
    requires Constructed(t, nnodes, list, preserved)
    ensures Distinct(list) && |list| <= nnodes
  {
    forall i, j | 0 <= i < j < |list| ensures list[i] != list[j] {
      assert t.sampleIndexMap[list[i]] == i && t.sampleIndexMap[list[j]] == j;
    }
    DistinctBound(list, nnodes);
  }

  /** The samples start out as the root list, left to right along right_sib. */
  lemma ConstructedRoots(t: Tree, nnodes: nat, list: seq<int>, preserved: seq<int>)
    requires Constructed(t, nnodes, list, preserved)
    ensures RootList(t) == Chain(list, AtEnd)
  {
    ConstructedDistinct(t, nnodes, list, preserved);
    assert SamplesInitialized(t, list, |list|);
    assert forall j :: 0 <= j < |list| - 1 ==> t.rightSib[list[j]] == After(list, j);
    var last := |list| - 1;
    assert t.rightSib[list[last]] == After(list, last);
    WalkAlong(t.rightSib, list, 0, |t.rightSib|);
    assert list[0..] == list;
  }

  /** ... and right to left along left_sib from the last sample. */
  lemma ConstructedRootsReversed(t: Tree, nnodes: nat, list: seq<int>, preserved: seq<int>)
    requires Constructed(t, nnodes, list, preserved)
    ensures ListFrom(t.leftSib, list[|list| - 1]) == Chain(Reversed(list), AtEnd)
  {
    ConstructedDistinct(t, nnodes, list, preserved);
    var r := Reversed(list);
    assert SamplesInitialized(t, list, |list|);
    forall j | 0 <= j < |r| - 1 ensures t.leftSib[r[j]] == r[j + 1] {
      assert r[j] == list[|list| - 1 - j] && r[j + 1] == list[|list| - 2 - j];
      assert t.leftSib[list[|list| - 1 - j]] == Before(list, |list| - 1 - j);
    }
    assert t.leftSib[r[|r| - 1]] == NULL by {
      assert r[|r| - 1] == list[0];
      assert t.leftSib[list[0]] == Before(list, 0);
    }
    WalkAlong(t.leftSib, r, 0, |t.leftSib|);
    assert r[0..] == r;
  }

  /** s back to front. */
  function Reversed(s: seq<int>): (r: seq<int>)
    ensures |r| == |s| && forall i :: 0 <= i < |s| ==> r[i] == s[|s| - 1 - i]
  {
    seq(|s|, i requires 0 <= i < |s| => s[|s| - 1 - i])
  }

  /**
   * marginal_tree::num_roots: runtime_error when left_root is NULL, else
   * the length of the root list.
   */
  method NumRoots(t: Tree) returns (r: Result<nat>)
    requires RootList(t).stop == AtEnd
    ensures t.leftRoot == NULL ==> r == Err(RuntimeError)
    ensures t.leftRoot != NULL ==> r == Ok(|RootList(t).nodes|)
  {
    if t.leftRoot == NULL {
      return Err(RuntimeError);
    }
    var nroots := 0;
    var lr := t.leftRoot;
    ghost var fuel: nat := |t.rightSib|;
    while lr != NULL
      invariant Walk(t.rightSib, lr, NULL, fuel).stop == AtEnd
      invariant nroots + |Walk(t.rightSib, lr, NULL, fuel).nodes| == |RootList(t).nodes|
      decreases fuel
    {
      nroots := nroots + 1;
      lr := t.rightSib[lr];
      fuel := fuel - 1;
    }
    return Ok(nroots);
  }

  /** A freshly built tree has one root per listed node. */
  lemma ConstructedNumRoots(t: Tree, nnodes: nat, list: seq<int>, preserved: seq<int>)
    requires Constructed(t, nnodes, list, preserved)
    ensures RootList(t).stop == AtEnd && |RootList(t).nodes| == |list| && t.leftRoot != NULL
  {
    ConstructedRoots(t, nnodes, list, preserved);
  }
}
