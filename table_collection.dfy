// fwdpp::ts::table_collection: the node, edge, site and mutation tables of
// one simulation, the genome length L, and the two edge index vectors
// I (input_left) and O (output_right) of Kelleher et al. (2016).

module TableCollection {
  import opened Types
  import opened Sorting

  /** Every edge's parent is a row of the node table (the index comparators read nodes[parent]). */
  predicate ParentsValid(edges: seq<Edge>, nodes: seq<Node>)
  {
    forall i :: 0 <= i < |edges| ==> 0 <= edges[i].parent < |nodes|
  }

  /** `r` holds each of 0 .. n-1 exactly once. */
  predicate IsIndexPermutation(r: seq<int>, n: nat)
  {
    multiset(r) == multiset(Range(0, n))
  }

  /** Time of the parent of edge i; 0 when the row does not exist. */
  function ParentTime(edges: seq<Edge>, nodes: seq<Node>, i: int): real
  {
    if 0 <= i < |edges| && 0 <= edges[i].parent < |nodes| then nodes[edges[i].parent].time else 0.0
  }

  function LeftOf(edges: seq<Edge>, i: int): real
  {
    if 0 <= i < |edges| then edges[i].left else 0.0
  }

  function RightOf(edges: seq<Edge>, i: int): real
  {
    if 0 <= i < |edges| then edges[i].right else 0.0
  }

  /** The input_left comparator as a sort key: left ascending, then parent time descending. */
  function InputKey(edges: seq<Edge>, nodes: seq<Node>, i: int): seq<real>
  {
    [LeftOf(edges, i), -ParentTime(edges, nodes, i)]
  }

  /** The output_right comparator as a sort key: right ascending, then parent time ascending. */
  function OutputKey(edges: seq<Edge>, nodes: seq<Node>, i: int): seq<real>
  {
    [RightOf(edges, i), ParentTime(edges, nodes, i)]
  }

  /** Edge i may precede edge j in I. */
  predicate InputBefore(edges: seq<Edge>, nodes: seq<Node>, i: int, j: int)
  {
    LeftOf(edges, i) < LeftOf(edges, j)
    || (LeftOf(edges, i) == LeftOf(edges, j) && ParentTime(edges, nodes, i) >= ParentTime(edges, nodes, j))
  }

  /** Edge i may precede edge j in O. */
  predicate OutputBefore(edges: seq<Edge>, nodes: seq<Node>, i: int, j: int)
  {
    RightOf(edges, i) < RightOf(edges, j)
    || (RightOf(edges, i) == RightOf(edges, j) && ParentTime(edges, nodes, i) <= ParentTime(edges, nodes, j))
  }

  /** For two-component keys, "not strictly after" is the comparator's weak order. */
  lemma PairNotLess(a: seq<real>, b: seq<real>)
    requires |a| == 2 && |b| == 2
    ensures !LexLess(b, a) <==> a[0] < b[0] || (a[0] == b[0] && a[1] <= b[1])
  {
    assert a[1..][1..] == [] && b[1..][1..] == [];
    assert LexLess(b[1..], a[1..]) <==> b[1] < a[1];
    assert LexLess(b, a) <==> b[0] < a[0] || (b[0] == a[0] && b[1] < a[1]);
  }

  /**
   * The index vector I built by build_indexes: a permutation of the edge ids
   * ordered by left, ties broken by decreasing parent time.
   */
  function InputOrder(edges: seq<Edge>, nodes: seq<Node>): (r: seq<int>)
    ensures IsIndexPermutation(r, |edges|) && |r| == |edges|
    ensures forall a, b :: 0 <= a < b < |r| ==> InputBefore(edges, nodes, r[a], r[b])
  {
    var key := i => InputKey(edges, nodes, i);
    var r := SortBy(Range(0, |edges|), key);
    SortByCorrect(Range(0, |edges|), key);
    forall a, b | 0 <= a < b < |r| ensures InputBefore(edges, nodes, r[a], r[b]) {
      PairNotLess(key(r[a]), key(r[b]));
    }
    r
  }

  /**
   * The index vector O built by build_indexes: a permutation of the edge ids
   * ordered by right, ties broken by increasing parent time.
   */
  function OutputOrder(edges: seq<Edge>, nodes: seq<Node>): (r: seq<int>)
    ensures IsIndexPermutation(r, |edges|) && |r| == |edges|
    ensures forall a, b :: 0 <= a < b < |r| ==> OutputBefore(edges, nodes, r[a], r[b])
  {
    var key := i => OutputKey(edges, nodes, i);
    var r := SortBy(Range(0, |edges|), key);
    SortByCorrect(Range(0, |edges|), key);
    forall a, b | 0 <= a < b < |r| ensures OutputBefore(edges, nodes, r[a], r[b]) {
      PairNotLess(key(r[a]), key(r[b]));
    }
    r
  }

  /** Every member of an index permutation is an edge id. */
  lemma PermutationInRange(r: seq<int>, n: nat)
    requires IsIndexPermutation(r, n)
    ensures forall k :: 0 <= k < |r| ==> 0 <= r[k] < n
  {
    forall k | 0 <= k < |r| ensures 0 <= r[k] < n {
      assert r[k] in multiset(r);
      assert r[k] in multiset(Range(0, n));
      assert r[k] in Range(0, n);
    }
  }

  /** maxpos must be > 0 and finite (NaN fails both tests as the library writes them). */
  function CheckMaxpos(maxpos: Double): (r: Outcome)
    ensures r == Done <==> maxpos.Finite? && maxpos.v > 0.0
    ensures r != Done ==> r == Fail(InvalidArgument)
  {
    match maxpos
    case Finite(v) => if v <= 0.0 then Fail(InvalidArgument) else Done
    case _ => Fail(InvalidArgument)
  }

  class TableCollection {
    /** Length of the genomic region (private in the library; read through GenomeLength). */
    var L: real
    var nodes: seq<Node>
    var edges: seq<Edge>
    var mutations: seq<MutationRecord>
    var sites: seq<Site>
    var inputLeft: seq<int>
    var outputRight: seq<int>
    /** Length of the edge table after the last simplification. */
    var edgeOffset: int

    /** The only invariant the class keeps: the genome length is positive. */
    predicate Valid()
      reads this
    {
      L > 0.0
    }

    /** table_collection(maxpos); the caller has validated maxpos with CheckMaxpos. */
    constructor (maxpos: real)
      requires maxpos > 0.0
      ensures Valid() && L == maxpos
      ensures nodes == [] && edges == [] && mutations == [] && sites == []
      ensures inputLeft == [] && outputRight == [] && edgeOffset == 0
    {
      L := maxpos;
      nodes, edges, mutations, sites := [], [], [], [];
      inputLeft, outputRight, edgeOffset := [], [], 0;
    }

    /** table_collection(num_initial_nodes, initial_time, pop, maxpos). */
    constructor WithNodes(numInitialNodes: int, initialTime: real, pop: int, maxpos: real)
      requires maxpos > 0.0
      ensures Valid() && L == maxpos
      ensures |nodes| == (if numInitialNodes < 0 then 0 else numInitialNodes)
      ensures forall k :: 0 <= k < |nodes| ==> nodes[k] == Node(pop, initialTime)
      ensures edges == [] && mutations == [] && sites == []
      ensures inputLeft == [] && outputRight == [] && edgeOffset == 0
    {
      var ns: seq<Node> := [];
      var i := 0;
      while i < numInitialNodes
        invariant 0 <= i && |ns| == i
        invariant i <= (if numInitialNodes < 0 then 0 else numInitialNodes)
        invariant forall k :: 0 <= k < |ns| ==> ns[k] == Node(pop, initialTime)
      {
        ns := ns + [Node(pop, initialTime)];
        i := i + 1;
      }
      L := maxpos;
      nodes, edges, mutations, sites := ns, [], [], [];
      inputLeft, outputRight, edgeOffset := [], [], 0;
    }

    /** Empties the four tables; L, the indexes and the offset are kept. */
    method Clear()
      modifies this
      ensures nodes == [] && edges == [] && mutations == [] && sites == []
      ensures L == old(L) && inputLeft == old(inputLeft) && outputRight == old(outputRight)
      ensures edgeOffset == old(edgeOffset)
    {
      nodes, edges, mutations, sites := [], [], [], [];
    }

    /**
     * Appends a node and returns its id, the new size less one cast to the
     * 32-bit id type (emplace_back_node is the same operation).
     */
    method PushBackNode(time: real, pop: int) returns (id: int)
      modifies this
      ensures nodes == old(nodes) + [Node(pop, time)]
      ensures id == ToInt32(|old(nodes)|)
      ensures |old(nodes)| <= INT32_MAX ==> id == |old(nodes)| && nodes[id] == Node(pop, time)
      ensures edges == old(edges) && sites == old(sites) && mutations == old(mutations)
      ensures L == old(L) && inputLeft == old(inputLeft) && outputRight == old(outputRight)
      ensures edgeOffset == old(edgeOffset)
    {
      nodes := nodes + [Node(pop, time)];
      id := ToInt32(|nodes| - 1);
    }

    /** Appends an edge and returns the new number of edges, not the new edge's id. */
    method PushBackEdge(left: real, right: real, parent: int, child: int) returns (size: int)
      modifies this
      ensures edges == old(edges) + [Edge(left, right, parent, child)]
      ensures size == |edges| == |old(edges)| + 1
      ensures nodes == old(nodes) && sites == old(sites) && mutations == old(mutations)
      ensures L == old(L) && inputLeft == old(inputLeft) && outputRight == old(outputRight)
      ensures edgeOffset == old(edgeOffset)
    {
      edges := edges + [Edge(left, right, parent, child)];
      size := |edges|;
    }

    /** Appends a site and returns its index. */
    method PushBackSite(s: Site) returns (id: int)
      modifies this
      ensures sites == old(sites) + [s] && id == |old(sites)|
      ensures nodes == old(nodes) && edges == old(edges) && mutations == old(mutations)
      ensures L == old(L) && inputLeft == old(inputLeft) && outputRight == old(outputRight)
      ensures edgeOffset == old(edgeOffset)
    {
      sites := sites + [s];
      id := |sites| - 1;
    }

    /** Appends a mutation record and returns its index. */
    method PushBackMutation(m: MutationRecord) returns (id: int)
      modifies this
      ensures mutations == old(mutations) + [m] && id == |old(mutations)|
      ensures nodes == old(nodes) && edges == old(edges) && sites == old(sites)
      ensures L == old(L) && inputLeft == old(inputLeft) && outputRight == old(outputRight)
      ensures edgeOffset == old(edgeOffset)
    {
      mutations := mutations + [m];
      id := |mutations| - 1;
    }

    /** Rebuilds I and O from the current edge and node tables. */
    method BuildIndexes()
      requires ParentsValid(edges, nodes)
      modifies this
      ensures inputLeft == InputOrder(edges, nodes) && outputRight == OutputOrder(edges, nodes)
      ensures Indexed()
      ensures nodes == old(nodes) && edges == old(edges) && sites == old(sites)
      ensures mutations == old(mutations) && L == old(L) && edgeOffset == old(edgeOffset)
    {
      inputLeft := InputOrder(edges, nodes);
      outputRight := OutputOrder(edges, nodes);
    }

    /**
     * table_collection::indexed() is not part of this model; it is taken to
     * mean that both index vectors have one entry per edge.
     */
    predicate Indexed()
      reads this
    {
      |inputLeft| == |edges| && |outputRight| == |edges|
    }

    function NumNodes(): nat
      reads this
    {
      |nodes|
    }

    function NumEdges(): nat
      reads this
    {
      |edges|
    }

    function GenomeLength(): real
      reads this
    {
      L
    }

    /** operator==: L and the four tables; the index vectors and the offset are not compared. */
    predicate Equals(b: TableCollection)
      reads this, b
    {
      L == b.L && sites == b.sites && edges == b.edges && nodes == b.nodes && mutations == b.mutations
    }
  }

  /**
   * The checked constructors: validate maxpos, then build the tables.
   * numInitialNodes < 0 adds no node, as the signed loop in the library does.
   */
  method NewTableCollection(numInitialNodes: int, initialTime: real, pop: int, maxpos: Double)
    returns (r: Result<TableCollection>)
    ensures r.Err? <==> CheckMaxpos(maxpos) != Done
    ensures r.Err? ==> r.error == InvalidArgument
    ensures r.Ok? ==> fresh(r.value) && r.value.Valid() && r.value.L == maxpos.v
    ensures r.Ok? ==> |r.value.nodes| == (if numInitialNodes < 0 then 0 else numInitialNodes)
    ensures r.Ok? ==> forall k :: 0 <= k < |r.value.nodes| ==> r.value.nodes[k] == Node(pop, initialTime)
    ensures r.Ok? ==> r.value.edges == [] && r.value.sites == [] && r.value.mutations == []
  {
    var c := CheckMaxpos(maxpos);
    if c.Fail? { return Err(c.error); }
    var t := new TableCollection.WithNodes(numInitialNodes, initialTime, pop, maxpos.v);
    r := Ok(t);
  }
}
