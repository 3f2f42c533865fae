// fwdpp/ts/marginal_tree_functions/roots.hpp: iteration over the roots of
// a marginal tree, along right_sib from left_root.

module Roots {
  import opened Types
  import opened MarginalTree

  /** root_iterator: the next root to hand out and the right_sib array it follows. */
  class RootIterator {
    var currentRoot: int
    const rsib: seq<int>

    constructor (first: int, rsib: seq<int>)
      ensures currentRoot == first && this.rsib == rsib
    {
      currentRoot := first;
      this.rsib := rsib;
    }

    /**
     * operator(): hands out the current root and moves to its right
     * sibling; NULL ends the iteration; an index outside right_sib throws
     * runtime_error.  At NULL nothing is read (see Findings).
     */
    method Next() returns (r: Result<int>)
      modifies this
      ensures old(currentRoot) == NULL ==> r == Ok(NULL) && currentRoot == NULL
      ensures old(currentRoot) != NULL && !(0 <= old(currentRoot) < |rsib|) ==>
        r == Err(RuntimeError) && currentRoot == old(currentRoot)
      ensures 0 <= old(currentRoot) < |rsib| ==> r == Ok(old(currentRoot)) && currentRoot == rsib[old(currentRoot)]
    {
      var croot := currentRoot;
      if croot == NULL {
        return Ok(NULL);
      }
      if !(0 <= croot < |rsib|) {
        return Err(RuntimeError);
      }
      currentRoot := rsib[croot];
      return Ok(croot);
    }
  }

  /** The guard of operator() as written: it throws only for an index at or past the end of right_sib. */
  function RootGuardThrows(current: int, rsib: seq<int>): (b: bool)
    ensures b ==> !(0 <= current < |rsib|)
  {
    current >= |rsib|
  }

  /**
   * The guard lets NULL through to the read right_sib[NULL] when the root
   * list is exhausted, and lets every other negative index through as well.
   */
  lemma RootGuardAdmitsNull(rsib: seq<int>)
    ensures !RootGuardThrows(NULL, rsib) && !(0 <= NULL < |rsib|)
    ensures forall c :: c < 0 ==> !RootGuardThrows(c, rsib)
  {
  }

  /** The constructor: invalid_argument when left_root is NULL or right_sib is empty. */
  method NewRootIterator(t: Tree) returns (r: Result<RootIterator>)
    ensures t.leftRoot == NULL || t.rightSib == [] ==> r == Err(InvalidArgument)
    ensures t.leftRoot != NULL && t.rightSib != [] ==> r.Ok? && fresh(r.value)
    ensures t.leftRoot != NULL && t.rightSib != [] ==> r.Ok? && r.value.currentRoot == t.leftRoot && r.value.rsib == t.rightSib
  {
    var it := new RootIterator(t.leftRoot, t.rightSib);
    if it.currentRoot == NULL {
      return Err(InvalidArgument);
    }
    if it.rsib == [] {
      return Err(InvalidArgument);
    }
    return Ok(it);
  }

  /**
   * get_roots: the root list, left to right, or the iterator's exception.
   * A root list with a cycle would make the library loop forever, so the
   * walk must end.
   */
  method GetRoots(t: Tree) returns (r: Result<seq<int>>)
    requires RootList(t).stop != Unfinished
    ensures t.leftRoot == NULL || t.rightSib == [] ==> r == Err(InvalidArgument)
    ensures t.leftRoot != NULL && t.rightSib != [] && RootList(t).stop == AtEnd ==> r == Ok(RootList(t).nodes)
    ensures t.leftRoot != NULL && t.rightSib != [] && RootList(t).stop.Escaped? ==> r == Err(RuntimeError)
  {
    var it :- NewRootIterator(t);
    ghost var total := RootList(t);
    ghost var fuel: nat := |t.rightSib|;
    var rv := [];
    while true
      invariant it.rsib == t.rightSib && total.stop != Unfinished
      invariant Walk(t.rightSib, it.currentRoot, NULL, fuel).stop == total.stop
      invariant rv + Walk(t.rightSib, it.currentRoot, NULL, fuel).nodes == total.nodes
      decreases fuel
    {
      var step := it.Next();
      if step.Err? {
        return Err(step.error);
      }
      var croot := step.value;
      if croot == NULL {
        assert rv + [] == rv;
        return Ok(rv);
      }
      WalkPrefixStep(t.rightSib, croot, fuel, rv, total);
      rv := rv + [croot];
      fuel := fuel - 1;
    }
  }

  /** num_roots (free function): the number of roots the iterator hands out. */
  method NumRoots(t: Tree) returns (r: Result<nat>)
    requires RootList(t).stop != Unfinished
    ensures t.leftRoot == NULL || t.rightSib == [] ==> r == Err(InvalidArgument)
    ensures t.leftRoot != NULL && t.rightSib != [] && RootList(t).stop == AtEnd ==> r == Ok(|RootList(t).nodes|)
    ensures t.leftRoot != NULL && t.rightSib != [] && RootList(t).stop.Escaped? ==> r == Err(RuntimeError)
  {
    var it :- NewRootIterator(t);
    ghost var total := RootList(t);
    ghost var fuel: nat := |t.rightSib|;
    var nroots := 0;
    while true
      invariant it.rsib == t.rightSib && total.stop != Unfinished
      invariant Walk(t.rightSib, it.currentRoot, NULL, fuel).stop == total.stop
      invariant nroots + |Walk(t.rightSib, it.currentRoot, NULL, fuel).nodes| == |total.nodes|
      decreases fuel
    {
      var step := it.Next();
      if step.Err? {
        return Err(step.error);
      }
      if step.value == NULL {
        return Ok(nroots);
      }
      nroots := nroots + 1;
      fuel := fuel - 1;
    }
  }

  /**
   * The free num_roots and marginal_tree::num_roots agree on a tree with
   * a root: both count the root list.  A root list that reaches NULL has
   * only nodes of the tree, so right_sib is not empty.
   */
  lemma RootCountsAgree(t: Tree)
    requires RootList(t).stop == AtEnd && t.leftRoot != NULL
    ensures t.rightSib != [] && RootList(t).nodes != []
  {
  }
}
