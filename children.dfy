// fwdpp/ts/marginal_tree_functions/children.hpp: iteration over the
// children of a node, left to right along right_sib from left_child or
// right to left along left_sib from right_child.

module Children {
  import opened Types
  import opened MarginalTree

  /** The sibling array a traversal in the given direction follows. */
  function Siblings(t: Tree, leftToRight: bool): seq<int>
  {
    if leftToRight then t.rightSib else t.leftSib
  }

  /** init_current_child after its checks: the first child in the given direction. */
  function FirstChild(t: Tree, n: int, leftToRight: bool): int
    requires 0 <= n < |t.leftChild| && |t.rightChild| == |t.leftChild|
  {
    if leftToRight then t.leftChild[n] else t.rightChild[n]
  }

  /** The children of n in the given direction. */
  function ChildList(t: Tree, n: int, leftToRight: bool): Chain
    requires 0 <= n < |t.leftChild| && |t.rightChild| == |t.leftChild|
  {
    ListFrom(Siblings(t, leftToRight), FirstChild(t, n, leftToRight))
  }

  /** child_iterator: the direction, the next child to hand out and the sibling array it follows. */
  class ChildIterator {
    const leftToRight: bool
    var currentChild: int
    const sib: seq<int>

    constructor (leftToRight: bool, first: int, sib: seq<int>)
      ensures this.leftToRight == leftToRight && currentChild == first && this.sib == sib
    {
      this.leftToRight := leftToRight;
      currentChild := first;
      this.sib := sib;
    }

    /**
     * operator(): hands out the current child and moves to its sibling;
     * NULL ends the iteration; a sibling index outside the array throws
     * runtime_error.  At NULL nothing is read (see Findings).
     */
    method Next() returns (r: Result<int>)
      modifies this
      ensures old(currentChild) == NULL ==> r == Ok(NULL) && currentChild == NULL
      ensures old(currentChild) != NULL && !(0 <= old(currentChild) < |sib|) ==>
        r == Err(RuntimeError) && currentChild == old(currentChild)
      ensures 0 <= old(currentChild) < |sib| ==> r == Ok(old(currentChild)) && currentChild == sib[old(currentChild)]
    {
      var c := currentChild;
      if c == NULL {
        return Ok(NULL);
      }
      if !(0 <= c < |sib|) {
        return Err(RuntimeError);
      }
      currentChild := sib[c];
      return Ok(c);
    }
  }

  /**
   * The guard of operator() as written: it throws only for an index at or
   * past the end of the sibling array.
   */
  function GuardThrows(current: int, sib: seq<int>): (b: bool)
    ensures b ==> !(0 <= current < |sib|)
  {
    current >= |sib|
  }

  /**
   * The guard lets NULL through to the read sib[NULL], on the last call of
   * every iteration, and lets every other negative index through as well.
   */
  lemma GuardAdmitsNull(sib: seq<int>)
    ensures !GuardThrows(NULL, sib) && !(0 <= NULL < |sib|)
    ensures forall c :: c < 0 ==> !GuardThrows(c, sib)
  {
  }

  /** The constructor: invalid_argument for a NULL node or one past the child arrays. */
  method NewChildIterator(t: Tree, n: int, leftToRight: bool) returns (r: Result<ChildIterator>)
    requires |t.rightChild| == |t.leftChild|
    ensures !(0 <= n < |t.leftChild|) ==> r == Err(InvalidArgument)
    ensures 0 <= n < |t.leftChild| ==> r.Ok? && fresh(r.value)
    ensures 0 <= n < |t.leftChild| ==> r.Ok? && r.value.currentChild == FirstChild(t, n, leftToRight)
    ensures 0 <= n < |t.leftChild| ==> r.Ok? && r.value.sib == Siblings(t, leftToRight) && r.value.leftToRight == leftToRight
  {
    if n == NULL {
      return Err(InvalidArgument);
    }
    if !(0 <= n < |t.leftChild|) {
      return Err(InvalidArgument);
    }
    var it := new ChildIterator(leftToRight, FirstChild(t, n, leftToRight), Siblings(t, leftToRight));
    return Ok(it);
  }

  /**
   * process_children with a collecting function: the children in the
   * given direction, or the iterator's exception.  A list with a cycle
   * would make the library loop forever, so the walk must end.
   */
  method GetChildren(t: Tree, n: int, leftToRight: bool) returns (r: Result<seq<int>>)
    requires |t.rightChild| == |t.leftChild|
    requires 0 <= n < |t.leftChild| ==> ChildList(t, n, leftToRight).stop != Unfinished
    ensures !(0 <= n < |t.leftChild|) ==> r == Err(InvalidArgument)
    ensures 0 <= n < |t.leftChild| && ChildList(t, n, leftToRight).stop == AtEnd ==>
      r == Ok(ChildList(t, n, leftToRight).nodes)
    ensures 0 <= n < |t.leftChild| && ChildList(t, n, leftToRight).stop.Escaped? ==> r == Err(RuntimeError)
  {
    var it :- NewChildIterator(t, n, leftToRight);
    var sib := Siblings(t, leftToRight);
    ghost var total := ChildList(t, n, leftToRight);
    ghost var fuel: nat := |sib|;
    var rv := [];
    while true
      invariant it.sib == sib && total.stop != Unfinished
      invariant Walk(sib, it.currentChild, NULL, fuel).stop == total.stop
      invariant rv + Walk(sib, it.currentChild, NULL, fuel).nodes == total.nodes
      decreases fuel
    {
      var step := it.Next();
      if step.Err? {
        return Err(step.error);
      }
      var c := step.value;
      if c == NULL {
        assert rv + [] == rv;
        return Ok(rv);
      }
      WalkPrefixStep(sib, c, fuel, rv, total);
      rv := rv + [c];
      fuel := fuel - 1;
    }
  }

  /** num_children: the number of children, counted left to right. */
  method NumChildren(t: Tree, n: int) returns (r: Result<nat>)
    requires |t.rightChild| == |t.leftChild|
    requires 0 <= n < |t.leftChild| ==> ChildList(t, n, true).stop != Unfinished
    ensures !(0 <= n < |t.leftChild|) ==> r == Err(InvalidArgument)
    ensures 0 <= n < |t.leftChild| && ChildList(t, n, true).stop == AtEnd ==> r == Ok(|ChildList(t, n, true).nodes|)
    ensures 0 <= n < |t.leftChild| && ChildList(t, n, true).stop.Escaped? ==> r == Err(RuntimeError)
  {
    var it :- NewChildIterator(t, n, true);
    ghost var total := ChildList(t, n, true);
    ghost var fuel: nat := |t.rightSib|;
    var nc := 0;
    while true
      invariant it.sib == t.rightSib
      invariant Walk(t.rightSib, it.currentChild, NULL, fuel).stop == total.stop
      invariant nc + |Walk(t.rightSib, it.currentChild, NULL, fuel).nodes| == |total.nodes|
      decreases fuel
    {
      var c :- it.Next();
      if c == NULL {
        return Ok(nc);
      }
      nc := nc + 1;
      fuel := fuel - 1;
    }
  }

  /**
   * The child list of n is doubly linked: right_child[n] is its last entry
   * and left_sib points back along it, as the tree visitor keeps it.
   */
  predicate DoublyLinked(t: Tree, n: int)
    requires Shaped(t) && 0 <= n < NumNodes(t)
  {
    var c := ChildList(t, n, true);
    c.stop == AtEnd
    && (c.nodes == [] ==> t.rightChild[n] == NULL)
    && (c.nodes != [] ==> t.rightChild[n] == c.nodes[|c.nodes| - 1] && t.leftSib[c.nodes[0]] == NULL)
    && forall j :: 0 <= j < |c.nodes| - 1 ==> t.leftSib[c.nodes[j + 1]] == c.nodes[j]
  }

  /** get_children in the other direction gives the same children in reverse order. */
  lemma ChildrenReversed(t: Tree, n: int)
    requires Shaped(t) && 0 <= n < NumNodes(t) && DoublyLinked(t, n)
    ensures ChildList(t, n, false) == Chain(Reversed(ChildList(t, n, true).nodes), AtEnd)
  {
    var l := ChildList(t, n, true).nodes;
    var r := Reversed(l);
    forall j | 0 <= j < |r| - 1 ensures t.leftSib[r[j]] == r[j + 1] {
      assert r[j] == l[|l| - 1 - j] && r[j + 1] == l[|l| - 2 - j];
      assert t.leftSib[l[(|l| - 2 - j) + 1]] == l[|l| - 2 - j];
    }
    if r != [] {
      assert r[|r| - 1] == l[0];
    }
    WalkAlong(t.leftSib, r, 0, |t.leftSib|);
    assert r[0..] == r;
  }
}
