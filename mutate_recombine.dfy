// fwdpp/mutate_recombine.hpp: the breakpoints asked of a recombination
// policy, the insertion of a new mutation key into a copy of a genome, and
// the offspring genome built from two parental genomes, the keys of new
// mutations and the crossover breakpoints.  A genome keeps two key lists,
// neutral and selected; the offspring builds both the same way, so each is
// described on its own ("one side": side == true is the neutral list).

module MutateRecombine {
  import opened Types
  import opened Keys
  import SimRecycling

  /** A key's position (keys past the mutation vector are never stored in a genome). */
  function Pos(mutations: seq<Mutation>, k: nat): real
  {
    if k < |mutations| then mutations[k].pos else 0.0
  }

  /** Keys whose positions never decrease. */
  predicate PosSorted(mutations: seq<Mutation>, keys: seq<nat>)
  {
    forall i, j :: 0 <= i < j < |keys| ==> Pos(mutations, keys[i]) <= Pos(mutations, keys[j])
  }

  /** Every key from index `from` on lies at or after v. */
  predicate Above(mutations: seq<Mutation>, keys: seq<nat>, from: nat, v: real)
  {
    forall k :: from <= k < |keys| ==> v <= Pos(mutations, keys[k])
  }

  predicate BreakpointsSorted(bp: seq<real>)
  {
    forall i, j :: 0 <= i < j < |bp| ==> bp[i] <= bp[j]
  }

  function LastBreakpoint(bp: seq<real>): real
  {
    if bp == [] then 0.0 else bp[|bp| - 1]
  }

  /** The key goes on the neutral list (side) or on the selected list (!side). */
  predicate OnSide(mutations: seq<Mutation>, side: bool, k: nat)
  {
    k < |mutations| && mutations[k].neutral == side
  }

  function SideOf(mutations: seq<Mutation>, side: bool): nat -> bool
  {
    (k: nat) => OnSide(mutations, side, k)
  }

  // ---------------------------------------------------------------------
  // generate_breakpoints
  // ---------------------------------------------------------------------

  predicate SameKeys(x: Gamete, y: Gamete)
  {
    x.mutations == y.mutations && x.smutations == y.smutations
  }

  /**
   * generate_breakpoints: no crossover when the two parental genomes are
   * equal or carry one mutation between them; otherwise the breakpoints the
   * recombination policy draws (`drawn`, as the policy is not modelled).
   */
  function GenerateBreakpoints(g1: nat, g2: nat, gametes: seq<Gamete>, drawn: seq<real>): (r: seq<real>)
    requires g1 < |gametes| && g2 < |gametes|
    ensures r == [] || r == drawn
    ensures SameKeys(gametes[g1], gametes[g2]) ==> r == []
    ensures var n1, n2 := |gametes[g1].mutations| + |gametes[g1].smutations|, |gametes[g2].mutations| + |gametes[g2].smutations|;
      (n1 == 0 && n2 == 1) || (n1 == 1 && n2 == 0) ==> r == []
    ensures var n1, n2 := |gametes[g1].mutations| + |gametes[g1].smutations|, |gametes[g2].mutations| + |gametes[g2].smutations|;
      !SameKeys(gametes[g1], gametes[g2]) && !((n1 == 0 && n2 == 1) || (n1 == 1 && n2 == 0)) ==> r == drawn
  {
    var nm1 := |gametes[g1].mutations| + |gametes[g1].smutations|;
    var nm2 := |gametes[g2].mutations| + |gametes[g2].smutations|;
    if ((if nm1 < nm2 then nm1 else nm2) == 0 && (if nm1 < nm2 then nm2 else nm1) == 1)
       || SameKeys(gametes[g1], gametes[g2])
    then []
    else drawn
  }

  // ---------------------------------------------------------------------
  // insert_new_mutation and the branch without breakpoints
  // ---------------------------------------------------------------------

  /** std::upper_bound by position from index `from`: the first key whose position is after v. */
  function SkipUpTo(mutations: seq<Mutation>, keys: seq<nat>, from: nat, v: real): (j: nat)
    requires from <= |keys|
    ensures from <= j <= |keys|
    ensures forall k :: from <= k < j ==> Pos(mutations, keys[k]) <= v
    ensures j < |keys| ==> v < Pos(mutations, keys[j])
    decreases |keys| - from
  {
    if from == |keys| || v < Pos(mutations, keys[from]) then from else SkipUpTo(mutations, keys, from + 1, v)
  }

  /** On sorted keys, everything from a key at or after v on lies at or after v. */
  lemma AboveFrom(mutations: seq<Mutation>, keys: seq<nat>, from: nat, v: real)
    requires PosSorted(mutations, keys) && from <= |keys|
    requires from < |keys| ==> v <= Pos(mutations, keys[from])
    ensures Above(mutations, keys, from, v)
  {
  }

  /**
   * insert_new_mutation: copies the keys of [from, end) whose positions are
   * not after the new key's onto c, then the new key, and returns where the
   * copy stopped; on sorted keys everything left lies after the new key.
   */
  method InsertNewMutation(keys: seq<nat>, from: nat, key: nat, mutations: seq<Mutation>, c: seq<nat>)
    returns (t: nat, c2: seq<nat>)
    requires from <= |keys| && key < |mutations|
    ensures t == SkipUpTo(mutations, keys, from, mutations[key].pos)
    ensures from <= t <= |keys| && c2 == c + keys[from..t] + [key]
    ensures forall k :: from <= k < t ==> Pos(mutations, keys[k]) <= mutations[key].pos
    ensures PosSorted(mutations, keys) ==> forall k :: t <= k < |keys| ==> mutations[key].pos < Pos(mutations, keys[k])
  {
    t := SkipUpTo(mutations, keys, from, mutations[key].pos);
    c2 := c + keys[from..t] + [key];
  }

  /**
   * The branch without breakpoints on one side: each new key of that side
   * goes after the first parent's keys at or before its position, and the
   * remaining keys of the first parent follow.
   */
  function MergeNew(mutations: seq<Mutation>, side: bool, src: seq<nat>, from: nat, news: seq<nat>, nx: nat): seq<nat>
    requires from <= |src| && nx <= |news|
    decreases |news| - nx
  {
    if nx == |news| then src[from..]
    else if OnSide(mutations, side, news[nx]) then
      var t := SkipUpTo(mutations, src, from, Pos(mutations, news[nx]));
      src[from..t] + [news[nx]] + MergeNew(mutations, side, src, t, news, nx + 1)
    else MergeNew(mutations, side, src, from, news, nx + 1)
  }

  function NoCrossover(mutations: seq<Mutation>, side: bool, src: seq<nat>, news: seq<nat>): seq<nat>
  {
    MergeNew(mutations, side, src, 0, news, 0)
  }

  /** The first parent's keys and the new keys of the side, nothing lost and nothing added. */
  lemma {:induction false} MergeNewMultiset(mutations: seq<Mutation>, side: bool, src: seq<nat>, from: nat, news: seq<nat>, nx: nat)
    requires from <= |src| && nx <= |news|
    ensures multiset(MergeNew(mutations, side, src, from, news, nx))
      == multiset(src[from..]) + multiset(Filter(news[nx..], SideOf(mutations, side)))
    decreases |news| - nx
  {
    if nx < |news| {
      NewsHead(news, nx, SideOf(mutations, side));
      if OnSide(mutations, side, news[nx]) {
        MergeNewMultiset(mutations, side, src, SkipUpTo(mutations, src, from, Pos(mutations, news[nx])), news, nx + 1);
        MergeInsertStep(mutations, side, src, from, news, nx);
      } else {
        MergeNewMultiset(mutations, side, src, from, news, nx + 1);
      }
    } else {
      assert news[nx..] == [];
    }
  }

  /** An inserted key keeps the multiset account of the merge. */
  lemma MergeInsertStep(mutations: seq<Mutation>, side: bool, src: seq<nat>, from: nat, news: seq<nat>, nx: nat)
    requires from <= |src| && nx < |news| && OnSide(mutations, side, news[nx])
    requires var t := SkipUpTo(mutations, src, from, Pos(mutations, news[nx]));
      multiset(MergeNew(mutations, side, src, t, news, nx + 1))
      == multiset(src[t..]) + multiset(Filter(news[nx + 1..], SideOf(mutations, side)))
    ensures multiset(MergeNew(mutations, side, src, from, news, nx))
      == multiset(src[from..]) + multiset(Filter(news[nx..], SideOf(mutations, side)))
  {
    var t := SkipUpTo(mutations, src, from, Pos(mutations, news[nx]));
    NewsHead(news, nx, SideOf(mutations, side));
    assert src[from..] == src[from..t] + src[t..];
    InsertAccount(MergeNew(mutations, side, src, from, news, nx), src[from..t], news[nx],
                  MergeNew(mutations, side, src, t, news, nx + 1), src[from..], src[t..],
                  Filter(news[nx..], SideOf(mutations, side)), Filter(news[nx + 1..], SideOf(mutations, side)));
  }

  /** The multiset bookkeeping of one inserted key. */
  lemma InsertAccount<T>(out: seq<T>, pre: seq<T>, m: T, rest: seq<T>, whole: seq<T>, tail: seq<T>, f: seq<T>, f2: seq<T>)
    requires out == pre + [m] + rest && whole == pre + tail && f == [m] + f2
    requires multiset(rest) == multiset(tail) + multiset(f2)
    ensures multiset(out) == multiset(whole) + multiset(f)
  {
  }

  /** Every key of s lies at or after v. */
  predicate AllAtLeast(mutations: seq<Mutation>, s: seq<nat>, v: real)
  {
    forall y :: y in s ==> v <= Pos(mutations, y)
  }

  /** Sorted pieces, all of the first at or before v and all of the second at or after v, join sorted. */
  lemma JoinSorted(mutations: seq<Mutation>, u: seq<nat>, w: seq<nat>, v: real)
    requires PosSorted(mutations, u) && PosSorted(mutations, w) && AllAtLeast(mutations, w, v)
    requires forall k :: 0 <= k < |u| ==> Pos(mutations, u[k]) <= v
    ensures PosSorted(mutations, u + w)
  {
    var r := u + w;
    forall i, j | 0 <= i < j < |r| ensures Pos(mutations, r[i]) <= Pos(mutations, r[j]) {
      if j >= |u| {
        assert r[j] == w[j - |u|] && r[j] in w;
        if i >= |u| {
          assert r[i] == w[i - |u|];
        }
      }
    }
  }

  /** Keys drawn from slices that lie at or after v lie at or after v. */
  lemma MembersAtLeast(mutations: seq<Mutation>, s: seq<nat>, x: seq<nat>, y: seq<nat>, v: real)
    requires multiset(s) == multiset(x) + multiset(y)
    requires AllAtLeast(mutations, x, v) && AllAtLeast(mutations, y, v)
    ensures AllAtLeast(mutations, s, v)
  {
    forall e | e in s ensures v <= Pos(mutations, e) {
      assert e in multiset(s);
    }
  }

  /** On sorted inputs the branch without breakpoints gives sorted keys. */
  lemma {:induction false} MergeNewSorted(mutations: seq<Mutation>, side: bool, src: seq<nat>, from: nat, news: seq<nat>, nx: nat)
    requires from <= |src| && nx <= |news|
    requires PosSorted(mutations, src) && PosSorted(mutations, news)
    ensures PosSorted(mutations, MergeNew(mutations, side, src, from, news, nx))
    decreases |news| - nx
  {
    if nx == |news| {
      assert PosSorted(mutations, src[from..]) by {
        forall i, j | 0 <= i < j < |src[from..]| ensures Pos(mutations, src[from..][i]) <= Pos(mutations, src[from..][j]) {
          assert src[from..][i] == src[from + i] && src[from..][j] == src[from + j];
        }
      }
    } else if OnSide(mutations, side, news[nx]) {
      MergeNewSorted(mutations, side, src, SkipUpTo(mutations, src, from, Pos(mutations, news[nx])), news, nx + 1);
      MergeSortedStep(mutations, side, src, from, news, nx);
    } else {
      MergeNewSorted(mutations, side, src, from, news, nx + 1);
    }
  }

  /** An inserted key keeps the merge sorted. */
  lemma MergeSortedStep(mutations: seq<Mutation>, side: bool, src: seq<nat>, from: nat, news: seq<nat>, nx: nat)
    requires from <= |src| && nx < |news| && OnSide(mutations, side, news[nx])
    requires PosSorted(mutations, src) && PosSorted(mutations, news)
    requires PosSorted(mutations, MergeNew(mutations, side, src, SkipUpTo(mutations, src, from, Pos(mutations, news[nx])), news, nx + 1))
    ensures PosSorted(mutations, MergeNew(mutations, side, src, from, news, nx))
  {
    var p := Pos(mutations, news[nx]);
    var t := SkipUpTo(mutations, src, from, p);
    var rest := MergeNew(mutations, side, src, t, news, nx + 1);
    MergeNewMultiset(mutations, side, src, t, news, nx + 1);
    UpToAtLeast(mutations, src, from, p);
    LaterNewsAtLeast(mutations, side, news, nx);
    MembersAtLeast(mutations, rest, src[t..], Filter(news[nx + 1..], SideOf(mutations, side)), p);
    UpToSorted(mutations, src, from, news[nx]);
    JoinSorted(mutations, src[from..t] + [news[nx]], rest, p);
  }

  /** On sorted keys, those past the upper bound of v lie at or after v. */
  lemma UpToAtLeast(mutations: seq<Mutation>, src: seq<nat>, from: nat, p: real)
    requires from <= |src| && PosSorted(mutations, src)
    ensures AllAtLeast(mutations, src[SkipUpTo(mutations, src, from, p)..], p)
  {
    var t := SkipUpTo(mutations, src, from, p);
    forall e | e in src[t..] ensures p <= Pos(mutations, e) {
      var k :| 0 <= k < |src[t..]| && src[t..][k] == e;
      assert src[t..][k] == src[t + k];
      if k > 0 { assert Pos(mutations, src[t]) <= Pos(mutations, src[t + k]); }
    }
  }

  /** On sorted new keys, the later keys of a side lie at or after the current one. */
  lemma LaterNewsAtLeast(mutations: seq<Mutation>, side: bool, news: seq<nat>, nx: nat)
    requires nx < |news| && PosSorted(mutations, news)
    ensures AllAtLeast(mutations, Filter(news[nx + 1..], SideOf(mutations, side)), Pos(mutations, news[nx]))
  {
    FilterMembers(news[nx + 1..], SideOf(mutations, side));
    forall e | e in news[nx + 1..] ensures Pos(mutations, news[nx]) <= Pos(mutations, e) {
      var k :| 0 <= k < |news[nx + 1..]| && news[nx + 1..][k] == e;
      assert news[nx + 1..][k] == news[nx + 1 + k];
    }
  }

  /** The keys up to a new key's upper bound, then the new key, are sorted and not after it. */
  lemma UpToSorted(mutations: seq<Mutation>, src: seq<nat>, from: nat, m: nat)
    requires from <= |src| && PosSorted(mutations, src)
    ensures var u := src[from..SkipUpTo(mutations, src, from, Pos(mutations, m))] + [m];
      PosSorted(mutations, u) && forall k :: 0 <= k < |u| ==> Pos(mutations, u[k]) <= Pos(mutations, m)
  {
    var t := SkipUpTo(mutations, src, from, Pos(mutations, m));
    var u := src[from..t] + [m];
    forall i, j | 0 <= i < j < |u| ensures Pos(mutations, u[i]) <= Pos(mutations, u[j]) {
      assert u[i] == src[from + i];
      if j < t - from { assert u[j] == src[from + j]; }
    }
    forall k | 0 <= k < |u| ensures Pos(mutations, u[k]) <= Pos(mutations, m) {
      if k < t - from { assert u[k] == src[from + k]; }
    }
  }

  // ---------------------------------------------------------------------
  // The branch with breakpoints
  // ---------------------------------------------------------------------

  /**
   * rec_gam_updater and rec_update_itr by their documented meaning: from
   * index `from`, the first key whose position is not before v.
   */
  function SkipBelow(mutations: seq<Mutation>, keys: seq<nat>, from: nat, v: real): (j: nat)
    requires from <= |keys|
    ensures from <= j <= |keys|
    decreases |keys| - from
  {
    if from == |keys| || v <= Pos(mutations, keys[from]) then from else SkipBelow(mutations, keys, from + 1, v)
  }

  /** The keys skipped lie before v, and the key stopped at does not. */
  lemma {:induction false} SkipBelowBounds(mutations: seq<Mutation>, keys: seq<nat>, from: nat, v: real)
    requires from <= |keys|
    ensures var j := SkipBelow(mutations, keys, from, v);
      && (forall k :: from <= k < j ==> Pos(mutations, keys[k]) < v)
      && (j < |keys| ==> v <= Pos(mutations, keys[j]))
    decreases |keys| - from
  {
    if from < |keys| && Pos(mutations, keys[from]) < v {
      SkipBelowBounds(mutations, keys, from + 1, v);
    }
  }

  /**
   * The main loop on one side.  `a` is the genome copied from (the one the
   * last crossover switched to), `b` the other one, at indices ia and ib;
   * nx is the next new key and i the next breakpoint.  A new key before the
   * breakpoint copies a's keys before it and, on its own side, is appended;
   * otherwise a's keys before the breakpoint are copied and the genomes
   * swap.  Both genomes always advance past what lies before the event.
   */
  function TrackFrom(mutations: seq<Mutation>, side: bool, a: seq<nat>, b: seq<nat>, ia: nat, ib: nat,
                     news: seq<nat>, nx: nat, bp: seq<real>, i: nat): seq<nat>
    requires ia <= |a| && ib <= |b| && nx <= |news| && i <= |bp|
    decreases |bp| - i, |news| - nx
  {
    if i == |bp| then []
    else if nx < |news| && Pos(mutations, news[nx]) < bp[i] then
      var p := Pos(mutations, news[nx]);
      var ia2 := SkipBelow(mutations, a, ia, p);
      a[ia..ia2] + (if OnSide(mutations, side, news[nx]) then [news[nx]] else [])
      + TrackFrom(mutations, side, a, b, ia2, SkipBelow(mutations, b, ib, p), news, nx + 1, bp, i)
    else
      var ia2 := SkipBelow(mutations, a, ia, bp[i]);
      a[ia..ia2] + TrackFrom(mutations, side, b, a, SkipBelow(mutations, b, ib, bp[i]), ia2, news, nx, bp, i + 1)
  }

  /** The offspring's keys on one side when there are breakpoints. */
  function Crossover(mutations: seq<Mutation>, side: bool, a: seq<nat>, b: seq<nat>, news: seq<nat>, bp: seq<real>): seq<nat>
  {
    TrackFrom(mutations, side, a, b, 0, 0, news, 0, bp, 0)
  }

  /** Whether an odd number of the breakpoints from index i on lie at or before x. */
  function OddCrossings(bp: seq<real>, i: nat, x: real): bool
    decreases |bp| - i
  {
    if i >= |bp| then false else (bp[i] <= x) != OddCrossings(bp, i + 1, x)
  }

  /**
   * The keys a parent passes on: those before the last breakpoint with an
   * even number of breakpoints at or before them (the first parent,
   * second == false) or an odd number (the second parent).
   */
  function Inherits(mutations: seq<Mutation>, bp: seq<real>, i: nat, second: bool): nat -> bool
  {
    (k: nat) => Pos(mutations, k) < LastBreakpoint(bp) && OddCrossings(bp, i, Pos(mutations, k)) == second
  }

  /** The new keys a side receives: its own, before the last breakpoint. */
  function NewKept(mutations: seq<Mutation>, side: bool, bp: seq<real>): nat -> bool
  {
    (k: nat) => OnSide(mutations, side, k) && Pos(mutations, k) < LastBreakpoint(bp)
  }

  /** Before the breakpoint at i nothing from i on has been crossed. */
  lemma {:induction false} NoCrossings(bp: seq<real>, i: nat, x: real)
    requires BreakpointsSorted(bp) && i < |bp| && x < bp[i]
    ensures !OddCrossings(bp, i, x) && x < LastBreakpoint(bp)
    decreases |bp| - i
  {
    if i + 1 < |bp| {
      assert bp[i] <= bp[i + 1];
      NoCrossings(bp, i + 1, x);
    }
  }

  /** The keys skipped up to v, when v is not after the breakpoint at i, are inherited from the first genome there. */
  lemma PrefixInherited(mutations: seq<Mutation>, a: seq<nat>, ia: nat, bp: seq<real>, i: nat, v: real)
    requires ia <= |a| && BreakpointsSorted(bp) && i < |bp| && v <= bp[i]
    ensures var ia2 := SkipBelow(mutations, a, ia, v);
      && Filter(a[ia..ia2], Inherits(mutations, bp, i, false)) == a[ia..ia2]
      && Filter(a[ia..ia2], Inherits(mutations, bp, i, true)) == []
  {
    var ia2 := SkipBelow(mutations, a, ia, v);
    SkipBelowBounds(mutations, a, ia, v);
    forall k | 0 <= k < |a[ia..ia2]| ensures Inherits(mutations, bp, i, false)(a[ia..ia2][k]) {
      assert a[ia..ia2][k] == a[ia + k];
      NoCrossings(bp, i, Pos(mutations, a[ia + k]));
    }
    FilterAll(a[ia..ia2], Inherits(mutations, bp, i, false));
    FilterNone(a[ia..ia2], Inherits(mutations, bp, i, true));
  }

  /** Past the breakpoint at i, crossing it flips which genome a key comes from. */
  lemma SuffixFlipped(mutations: seq<Mutation>, a: seq<nat>, ia2: nat, bp: seq<real>, i: nat, second: bool)
    requires ia2 <= |a| && i < |bp| && Above(mutations, a, ia2, bp[i])
    ensures Filter(a[ia2..], Inherits(mutations, bp, i, second)) == Filter(a[ia2..], Inherits(mutations, bp, i + 1, !second))
  {
    forall k | 0 <= k < |a[ia2..]|
      ensures Inherits(mutations, bp, i, second)(a[ia2..][k]) == Inherits(mutations, bp, i + 1, !second)(a[ia2..][k])
    {
      assert a[ia2..][k] == a[ia2 + k];
    }
    FilterSame(a[ia2..], Inherits(mutations, bp, i, second), Inherits(mutations, bp, i + 1, !second));
  }

  /** A slice is the copied prefix and the rest. */
  lemma SplitFilter(s: seq<nat>, from: nat, mid: nat, p: nat -> bool)
    requires from <= mid <= |s|
    ensures Filter(s[from..], p) == Filter(s[from..mid], p) + Filter(s[mid..], p)
  {
    assert s[from..] == s[from..mid] + s[mid..];
    FilterConcat(s[from..mid], s[mid..], p);
  }

  /** The first remaining new key, then the rest. */
  lemma NewsHead(news: seq<nat>, nx: nat, p: nat -> bool)
    requires nx < |news|
    ensures Filter(news[nx..], p) == (if p(news[nx]) then [news[nx]] else []) + Filter(news[nx + 1..], p)
  {
    assert news[nx..][1..] == news[nx + 1..];
  }

  /** Sorted keys past a skip lie at or after the value skipped to. */
  lemma SkipAbove(mutations: seq<Mutation>, keys: seq<nat>, from: nat, v: real)
    requires from <= |keys| && PosSorted(mutations, keys)
    ensures Above(mutations, keys, SkipBelow(mutations, keys, from, v), v)
  {
    SkipBelowBounds(mutations, keys, from, v);
    AboveFrom(mutations, keys, SkipBelow(mutations, keys, from, v), v);
  }

  /** What the main loop has yet to produce on one side, as a multiset. */
  function Owed(mutations: seq<Mutation>, side: bool, a: seq<nat>, b: seq<nat>, ia: nat, ib: nat,
                news: seq<nat>, nx: nat, bp: seq<real>, i: nat): multiset<nat>
    requires ia <= |a| && ib <= |b| && nx <= |news|
  {
    multiset(Filter(a[ia..], Inherits(mutations, bp, i, false)))
    + multiset(Filter(b[ib..], Inherits(mutations, bp, i, true)))
    + multiset(Filter(news[nx..], NewKept(mutations, side, bp)))
  }

  /** The loop state the multiset and order proofs need: sorted inputs, and everything left at or after the last breakpoint passed. */
  predicate Frontier(mutations: seq<Mutation>, a: seq<nat>, b: seq<nat>, ia: nat, ib: nat,
                     news: seq<nat>, nx: nat, bp: seq<real>, i: nat)
  {
    ia <= |a| && ib <= |b| && nx <= |news| && i <= |bp| && bp != []
    && BreakpointsSorted(bp) && PosSorted(mutations, a) && PosSorted(mutations, b) && PosSorted(mutations, news)
    && (0 < i ==> Above(mutations, a, ia, bp[i - 1]) && Above(mutations, b, ib, bp[i - 1])
                  && Above(mutations, news, nx, bp[i - 1]))
  }

  /** A new key before the next breakpoint: one step of the multiset account. */
  lemma OwedNewStep(mutations: seq<Mutation>, side: bool, a: seq<nat>, b: seq<nat>, ia: nat, ib: nat,
                    news: seq<nat>, nx: nat, bp: seq<real>, i: nat)
    requires Frontier(mutations, a, b, ia, ib, news, nx, bp, i) && i < |bp|
    requires nx < |news| && Pos(mutations, news[nx]) < bp[i]
    ensures var p := Pos(mutations, news[nx]);
      var ia2, ib2 := SkipBelow(mutations, a, ia, p), SkipBelow(mutations, b, ib, p);
      Owed(mutations, side, a, b, ia, ib, news, nx, bp, i)
      == multiset(a[ia..ia2]) + multiset(if OnSide(mutations, side, news[nx]) then [news[nx]] else [])
         + Owed(mutations, side, a, b, ia2, ib2, news, nx + 1, bp, i)
  {
    var p := Pos(mutations, news[nx]);
    var ia2, ib2 := SkipBelow(mutations, a, ia, p), SkipBelow(mutations, b, ib, p);
    SplitFilter(a, ia, ia2, Inherits(mutations, bp, i, false));
    PrefixInherited(mutations, a, ia, bp, i, p);
    SplitFilter(b, ib, ib2, Inherits(mutations, bp, i, true));
    PrefixInherited(mutations, b, ib, bp, i, p);
    NewsHead(news, nx, NewKept(mutations, side, bp));
    NoCrossings(bp, i, p);
  }

  /** A breakpoint: one step of the multiset account, after which the genomes swap. */
  lemma OwedBreakStep(mutations: seq<Mutation>, side: bool, a: seq<nat>, b: seq<nat>, ia: nat, ib: nat,
                      news: seq<nat>, nx: nat, bp: seq<real>, i: nat)
    requires Frontier(mutations, a, b, ia, ib, news, nx, bp, i) && i < |bp|
    ensures var ia2, ib2 := SkipBelow(mutations, a, ia, bp[i]), SkipBelow(mutations, b, ib, bp[i]);
      Owed(mutations, side, a, b, ia, ib, news, nx, bp, i)
      == multiset(a[ia..ia2]) + multiset([]) + Owed(mutations, side, b, a, ib2, ia2, news, nx, bp, i + 1)
  {
    var ia2, ib2 := SkipBelow(mutations, a, ia, bp[i]), SkipBelow(mutations, b, ib, bp[i]);
    SplitFilter(a, ia, ia2, Inherits(mutations, bp, i, false));
    PrefixInherited(mutations, a, ia, bp, i, bp[i]);
    SkipAbove(mutations, a, ia, bp[i]);
    SuffixFlipped(mutations, a, ia2, bp, i, false);
    SplitFilter(b, ib, ib2, Inherits(mutations, bp, i, true));
    PrefixInherited(mutations, b, ib, bp, i, bp[i]);
    SkipAbove(mutations, b, ib, bp[i]);
    SuffixFlipped(mutations, b, ib2, bp, i, true);
  }

  /** Past the last breakpoint nothing is owed. */
  lemma OwedAtEnd(mutations: seq<Mutation>, side: bool, a: seq<nat>, b: seq<nat>, ia: nat, ib: nat,
                  news: seq<nat>, nx: nat, bp: seq<real>)
    requires Frontier(mutations, a, b, ia, ib, news, nx, bp, |bp|)
    ensures Owed(mutations, side, a, b, ia, ib, news, nx, bp, |bp|) == multiset{}
  {
    var last := bp[|bp| - 1];
    forall k | 0 <= k < |a[ia..]| ensures !Inherits(mutations, bp, |bp|, false)(a[ia..][k]) {
      assert a[ia..][k] == a[ia + k];
    }
    FilterNone(a[ia..], Inherits(mutations, bp, |bp|, false));
    forall k | 0 <= k < |b[ib..]| ensures !Inherits(mutations, bp, |bp|, true)(b[ib..][k]) {
      assert b[ib..][k] == b[ib + k];
    }
    FilterNone(b[ib..], Inherits(mutations, bp, |bp|, true));
    forall k | 0 <= k < |news[nx..]| ensures !NewKept(mutations, side, bp)(news[nx..][k]) {
      assert news[nx..][k] == news[nx + k];
    }
    FilterNone(news[nx..], NewKept(mutations, side, bp));
  }

  /** The loop state after a new key before the next breakpoint. */
  lemma FrontierNewStep(mutations: seq<Mutation>, a: seq<nat>, b: seq<nat>, ia: nat, ib: nat,
                        news: seq<nat>, nx: nat, bp: seq<real>, i: nat)
    requires Frontier(mutations, a, b, ia, ib, news, nx, bp, i) && i < |bp| && nx < |news|
    ensures var p := Pos(mutations, news[nx]);
      Frontier(mutations, a, b, SkipBelow(mutations, a, ia, p), SkipBelow(mutations, b, ib, p), news, nx + 1, bp, i)
  {
  }

  /** The loop state after a breakpoint. */
  lemma FrontierBreakStep(mutations: seq<Mutation>, a: seq<nat>, b: seq<nat>, ia: nat, ib: nat,
                          news: seq<nat>, nx: nat, bp: seq<real>, i: nat)
    requires Frontier(mutations, a, b, ia, ib, news, nx, bp, i) && i < |bp|
    requires nx < |news| ==> bp[i] <= Pos(mutations, news[nx])
    ensures Frontier(mutations, b, a, SkipBelow(mutations, b, ib, bp[i]), SkipBelow(mutations, a, ia, bp[i]), news, nx, bp, i + 1)
  {
    SkipAbove(mutations, a, ia, bp[i]);
    SkipAbove(mutations, b, ib, bp[i]);
    AboveFrom(mutations, news, nx, bp[i]);
  }

  /**
   * What the main loop produces on one side, as a multiset: keys of the
   * genome it copies from with an even number of breakpoints at or before
   * them, keys of the other with an odd number, and the new keys of the
   * side, all before the last breakpoint.
   */
  lemma {:induction false} TrackMultiset(mutations: seq<Mutation>, side: bool, a: seq<nat>, b: seq<nat>, ia: nat, ib: nat,
                                         news: seq<nat>, nx: nat, bp: seq<real>, i: nat)
    requires Frontier(mutations, a, b, ia, ib, news, nx, bp, i)
    ensures multiset(TrackFrom(mutations, side, a, b, ia, ib, news, nx, bp, i))
      == Owed(mutations, side, a, b, ia, ib, news, nx, bp, i)
    decreases |bp| - i, |news| - nx
  {
    if i == |bp| {
      OwedAtEnd(mutations, side, a, b, ia, ib, news, nx, bp);
    } else if nx < |news| && Pos(mutations, news[nx]) < bp[i] {
      var p := Pos(mutations, news[nx]);
      FrontierNewStep(mutations, a, b, ia, ib, news, nx, bp, i);
      TrackMultiset(mutations, side, a, b, SkipBelow(mutations, a, ia, p), SkipBelow(mutations, b, ib, p), news, nx + 1, bp, i);
      MultisetNewStep(mutations, side, a, b, ia, ib, news, nx, bp, i);
    } else {
      FrontierBreakStep(mutations, a, b, ia, ib, news, nx, bp, i);
      TrackMultiset(mutations, side, b, a, SkipBelow(mutations, b, ib, bp[i]), SkipBelow(mutations, a, ia, bp[i]), news, nx, bp, i + 1);
      MultisetBreakStep(mutations, side, a, b, ia, ib, news, nx, bp, i);
    }
  }

  /** A new key before the next breakpoint keeps the multiset account. */
  lemma MultisetNewStep(mutations: seq<Mutation>, side: bool, a: seq<nat>, b: seq<nat>, ia: nat, ib: nat,
                        news: seq<nat>, nx: nat, bp: seq<real>, i: nat)
    requires Frontier(mutations, a, b, ia, ib, news, nx, bp, i) && i < |bp|
    requires nx < |news| && Pos(mutations, news[nx]) < bp[i]
    requires var p := Pos(mutations, news[nx]);
      var ia2, ib2 := SkipBelow(mutations, a, ia, p), SkipBelow(mutations, b, ib, p);
      multiset(TrackFrom(mutations, side, a, b, ia2, ib2, news, nx + 1, bp, i)) == Owed(mutations, side, a, b, ia2, ib2, news, nx + 1, bp, i)
    ensures multiset(TrackFrom(mutations, side, a, b, ia, ib, news, nx, bp, i)) == Owed(mutations, side, a, b, ia, ib, news, nx, bp, i)
  {
    var p := Pos(mutations, news[nx]);
    var ia2, ib2 := SkipBelow(mutations, a, ia, p), SkipBelow(mutations, b, ib, p);
    var h := if OnSide(mutations, side, news[nx]) then [news[nx]] else [];
    OwedNewStep(mutations, side, a, b, ia, ib, news, nx, bp, i);
    TrackNewHead(mutations, side, a, b, ia, ib, news, nx, bp, i);
    Account(TrackFrom(mutations, side, a, b, ia, ib, news, nx, bp, i), a[ia..ia2], h,
            TrackFrom(mutations, side, a, b, ia2, ib2, news, nx + 1, bp, i),
            Owed(mutations, side, a, b, ia, ib, news, nx, bp, i), Owed(mutations, side, a, b, ia2, ib2, news, nx + 1, bp, i));
  }

  /** A breakpoint keeps the multiset account, with the genomes swapped. */
  lemma MultisetBreakStep(mutations: seq<Mutation>, side: bool, a: seq<nat>, b: seq<nat>, ia: nat, ib: nat,
                          news: seq<nat>, nx: nat, bp: seq<real>, i: nat)
    requires Frontier(mutations, a, b, ia, ib, news, nx, bp, i) && i < |bp|
    requires nx < |news| ==> bp[i] <= Pos(mutations, news[nx])
    requires var ia2, ib2 := SkipBelow(mutations, a, ia, bp[i]), SkipBelow(mutations, b, ib, bp[i]);
      multiset(TrackFrom(mutations, side, b, a, ib2, ia2, news, nx, bp, i + 1)) == Owed(mutations, side, b, a, ib2, ia2, news, nx, bp, i + 1)
    ensures multiset(TrackFrom(mutations, side, a, b, ia, ib, news, nx, bp, i)) == Owed(mutations, side, a, b, ia, ib, news, nx, bp, i)
  {
    var ia2, ib2 := SkipBelow(mutations, a, ia, bp[i]), SkipBelow(mutations, b, ib, bp[i]);
    OwedBreakStep(mutations, side, a, b, ia, ib, news, nx, bp, i);
    TrackBreakHead(mutations, side, a, b, ia, ib, news, nx, bp, i);
    Account(TrackFrom(mutations, side, a, b, ia, ib, news, nx, bp, i), a[ia..ia2], [],
            TrackFrom(mutations, side, b, a, ib2, ia2, news, nx, bp, i + 1),
            Owed(mutations, side, a, b, ia, ib, news, nx, bp, i), Owed(mutations, side, b, a, ib2, ia2, news, nx, bp, i + 1));
  }

  /** One new key before the next breakpoint, unfolded. */
  lemma TrackNewHead(mutations: seq<Mutation>, side: bool, a: seq<nat>, b: seq<nat>, ia: nat, ib: nat,
                     news: seq<nat>, nx: nat, bp: seq<real>, i: nat)
    requires ia <= |a| && ib <= |b| && nx < |news| && i < |bp| && Pos(mutations, news[nx]) < bp[i]
    ensures var p := Pos(mutations, news[nx]);
      var ia2, ib2 := SkipBelow(mutations, a, ia, p), SkipBelow(mutations, b, ib, p);
      TrackFrom(mutations, side, a, b, ia, ib, news, nx, bp, i)
      == a[ia..ia2] + (if OnSide(mutations, side, news[nx]) then [news[nx]] else [])
         + TrackFrom(mutations, side, a, b, ia2, ib2, news, nx + 1, bp, i)
  {
  }

  /** One breakpoint, unfolded. */
  lemma TrackBreakHead(mutations: seq<Mutation>, side: bool, a: seq<nat>, b: seq<nat>, ia: nat, ib: nat,
                       news: seq<nat>, nx: nat, bp: seq<real>, i: nat)
    requires ia <= |a| && ib <= |b| && nx <= |news| && i < |bp|
    requires nx < |news| ==> bp[i] <= Pos(mutations, news[nx])
    ensures var ia2, ib2 := SkipBelow(mutations, a, ia, bp[i]), SkipBelow(mutations, b, ib, bp[i]);
      TrackFrom(mutations, side, a, b, ia, ib, news, nx, bp, i)
      == a[ia..ia2] + [] + TrackFrom(mutations, side, b, a, ib2, ia2, news, nx, bp, i + 1)
  {
  }

  /** The multiset bookkeeping of one step. */
  lemma Account<T>(out: seq<T>, pre: seq<T>, h: seq<T>, rest: seq<T>, owed: multiset<T>, owedRest: multiset<T>)
    requires out == pre + h + rest && multiset(rest) == owedRest
    requires owed == multiset(pre) + multiset(h) + owedRest
    ensures multiset(out) == owed
  {
  }
  /** A slice of sorted keys is sorted. */
  lemma SliceSorted(mutations: seq<Mutation>, keys: seq<nat>, lo: nat, hi: nat)
    requires PosSorted(mutations, keys) && lo <= hi <= |keys|
    ensures PosSorted(mutations, keys[lo..hi])
  {
    forall i, j | 0 <= i < j < hi - lo ensures Pos(mutations, keys[lo..hi][i]) <= Pos(mutations, keys[lo..hi][j]) {
      assert keys[lo..hi][i] == keys[lo + i] && keys[lo..hi][j] == keys[lo + j];
    }
  }

  /** The kept keys of a slice lying at or after v lie at or after v. */
  lemma FilteredAtLeast(mutations: seq<Mutation>, keys: seq<nat>, from: nat, v: real, p: nat -> bool)
    requires from <= |keys| && Above(mutations, keys, from, v)
    ensures AllAtLeast(mutations, Filter(keys[from..], p), v)
  {
    FilterMembers(keys[from..], p);
    forall y | y in Filter(keys[from..], p) ensures v <= Pos(mutations, y) {
      var k :| 0 <= k < |keys[from..]| && keys[from..][k] == y;
      assert keys[from..][k] == keys[from + k];
    }
  }

  /** Everything still owed lies at or after v when everything left does. */
  lemma OwedAtLeast(mutations: seq<Mutation>, side: bool, a: seq<nat>, b: seq<nat>, ia: nat, ib: nat,
                    news: seq<nat>, nx: nat, bp: seq<real>, i: nat, rest: seq<nat>, v: real)
    requires ia <= |a| && ib <= |b| && nx <= |news|
    requires Above(mutations, a, ia, v) && Above(mutations, b, ib, v) && Above(mutations, news, nx, v)
    requires multiset(rest) == Owed(mutations, side, a, b, ia, ib, news, nx, bp, i)
    ensures AllAtLeast(mutations, rest, v)
  {
    var fa := Filter(a[ia..], Inherits(mutations, bp, i, false));
    var fb := Filter(b[ib..], Inherits(mutations, bp, i, true));
    var fn := Filter(news[nx..], NewKept(mutations, side, bp));
    FilteredAtLeast(mutations, a, ia, v, Inherits(mutations, bp, i, false));
    FilteredAtLeast(mutations, b, ib, v, Inherits(mutations, bp, i, true));
    FilteredAtLeast(mutations, news, nx, v, NewKept(mutations, side, bp));
    assert multiset(rest) == multiset(fa) + multiset(fb) + multiset(fn);
    forall y | y in rest ensures v <= Pos(mutations, y) {
      assert y in multiset(rest);
      assert y in fa || y in fb || y in fn;
    }
  }

  /** On sorted inputs and breakpoints the main loop produces sorted keys. */
  lemma {:induction false} TrackSorted(mutations: seq<Mutation>, side: bool, a: seq<nat>, b: seq<nat>, ia: nat, ib: nat,
                                       news: seq<nat>, nx: nat, bp: seq<real>, i: nat)
    requires Frontier(mutations, a, b, ia, ib, news, nx, bp, i)
    ensures PosSorted(mutations, TrackFrom(mutations, side, a, b, ia, ib, news, nx, bp, i))
    decreases |bp| - i, |news| - nx
  {
    if i == |bp| {
    } else if nx < |news| && Pos(mutations, news[nx]) < bp[i] {
      var p := Pos(mutations, news[nx]);
      FrontierNewStep(mutations, a, b, ia, ib, news, nx, bp, i);
      TrackSorted(mutations, side, a, b, SkipBelow(mutations, a, ia, p), SkipBelow(mutations, b, ib, p), news, nx + 1, bp, i);
      SortedNewStep(mutations, side, a, b, ia, ib, news, nx, bp, i);
    } else {
      FrontierBreakStep(mutations, a, b, ia, ib, news, nx, bp, i);
      TrackSorted(mutations, side, b, a, SkipBelow(mutations, b, ib, bp[i]), SkipBelow(mutations, a, ia, bp[i]), news, nx, bp, i + 1);
      SortedBreakStep(mutations, side, a, b, ia, ib, news, nx, bp, i);
    }
  }

  /** A new key before the next breakpoint keeps the output sorted. */
  lemma SortedNewStep(mutations: seq<Mutation>, side: bool, a: seq<nat>, b: seq<nat>, ia: nat, ib: nat,
                      news: seq<nat>, nx: nat, bp: seq<real>, i: nat)
    requires Frontier(mutations, a, b, ia, ib, news, nx, bp, i) && i < |bp|
    requires nx < |news| && Pos(mutations, news[nx]) < bp[i]
    requires var p := Pos(mutations, news[nx]);
      PosSorted(mutations, TrackFrom(mutations, side, a, b, SkipBelow(mutations, a, ia, p), SkipBelow(mutations, b, ib, p), news, nx + 1, bp, i))
    ensures PosSorted(mutations, TrackFrom(mutations, side, a, b, ia, ib, news, nx, bp, i))
  {
    var p := Pos(mutations, news[nx]);
    var ia2, ib2 := SkipBelow(mutations, a, ia, p), SkipBelow(mutations, b, ib, p);
    var h := if OnSide(mutations, side, news[nx]) then [news[nx]] else [];
    var rest := TrackFrom(mutations, side, a, b, ia2, ib2, news, nx + 1, bp, i);
    FrontierNewStep(mutations, a, b, ia, ib, news, nx, bp, i);
    TrackMultiset(mutations, side, a, b, ia2, ib2, news, nx + 1, bp, i);
    SkipAbove(mutations, a, ia, p);
    SkipAbove(mutations, b, ib, p);
    AboveFrom(mutations, news, nx + 1, p);
    OwedAtLeast(mutations, side, a, b, ia2, ib2, news, nx + 1, bp, i, rest, p);
    SliceSorted(mutations, a, ia, ia2);
    var u := a[ia..ia2] + h;
    SkipBelowBounds(mutations, a, ia, p);
    PrefixBefore(mutations, a, ia, ia2, h, p);
    TrackNewHead(mutations, side, a, b, ia, ib, news, nx, bp, i);
    JoinSorted(mutations, u, rest, p);
  }

  /** A sorted, bounded slice followed by at most the bound itself is sorted and bounded. */
  lemma PrefixBefore(mutations: seq<Mutation>, a: seq<nat>, ia: nat, ia2: nat, h: seq<nat>, p: real)
    requires ia <= ia2 <= |a| && PosSorted(mutations, a[ia..ia2])
    requires forall k :: ia <= k < ia2 ==> Pos(mutations, a[k]) <= p
    requires |h| <= 1 && forall k :: 0 <= k < |h| ==> Pos(mutations, h[k]) == p
    ensures PosSorted(mutations, a[ia..ia2] + h)
    ensures forall k :: 0 <= k < |a[ia..ia2] + h| ==> Pos(mutations, (a[ia..ia2] + h)[k]) <= p
  {
    var u := a[ia..ia2] + h;
    forall x, y | 0 <= x < y < |u| ensures Pos(mutations, u[x]) <= Pos(mutations, u[y]) {
      assert u[x] == a[ia..ia2][x] == a[ia + x];
      if y < ia2 - ia { assert u[y] == a[ia..ia2][y]; }
    }
    forall k | 0 <= k < |u| ensures Pos(mutations, u[k]) <= p {
      if k < ia2 - ia { assert u[k] == a[ia + k]; }
    }
  }

  /** A breakpoint keeps the output sorted. */
  lemma SortedBreakStep(mutations: seq<Mutation>, side: bool, a: seq<nat>, b: seq<nat>, ia: nat, ib: nat,
                        news: seq<nat>, nx: nat, bp: seq<real>, i: nat)
    requires Frontier(mutations, a, b, ia, ib, news, nx, bp, i) && i < |bp|
    requires nx < |news| ==> bp[i] <= Pos(mutations, news[nx])
    requires PosSorted(mutations, TrackFrom(mutations, side, b, a, SkipBelow(mutations, b, ib, bp[i]), SkipBelow(mutations, a, ia, bp[i]), news, nx, bp, i + 1))
    ensures PosSorted(mutations, TrackFrom(mutations, side, a, b, ia, ib, news, nx, bp, i))
  {
    var ia2, ib2 := SkipBelow(mutations, a, ia, bp[i]), SkipBelow(mutations, b, ib, bp[i]);
    var rest := TrackFrom(mutations, side, b, a, ib2, ia2, news, nx, bp, i + 1);
    FrontierBreakStep(mutations, a, b, ia, ib, news, nx, bp, i);
    TrackMultiset(mutations, side, b, a, ib2, ia2, news, nx, bp, i + 1);
    OwedAtLeast(mutations, side, b, a, ib2, ia2, news, nx, bp, i + 1, rest, bp[i]);
    SliceSorted(mutations, a, ia, ia2);
    SkipBelowBounds(mutations, a, ia, bp[i]);
    assert forall k :: 0 <= k < |a[ia..ia2]| ==> Pos(mutations, a[ia..ia2][k]) <= bp[i] by {
      forall k | 0 <= k < |a[ia..ia2]| ensures Pos(mutations, a[ia..ia2][k]) <= bp[i] {
        assert a[ia..ia2][k] == a[ia + k];
      }
    }
    TrackBreakHead(mutations, side, a, b, ia, ib, news, nx, bp, i);
    assert a[ia..ia2] + [] == a[ia..ia2];
    JoinSorted(mutations, a[ia..ia2], rest, bp[i]);
  }

  // ---------------------------------------------------------------------
  // What the offspring inherits
  // ---------------------------------------------------------------------

  /**
   * The offspring's keys on sorted inputs: the first parent's keys with an
   * even number of breakpoints at or before them, the second parent's with
   * an odd number, and the side's new keys, all before the last breakpoint,
   * nothing else, in position order.
   */
  lemma CrossoverKeys(mutations: seq<Mutation>, side: bool, a: seq<nat>, b: seq<nat>, news: seq<nat>, bp: seq<real>)
    requires bp != [] && BreakpointsSorted(bp)
    requires PosSorted(mutations, a) && PosSorted(mutations, b) && PosSorted(mutations, news)
    ensures multiset(Crossover(mutations, side, a, b, news, bp))
      == multiset(Filter(a, Inherits(mutations, bp, 0, false)))
       + multiset(Filter(b, Inherits(mutations, bp, 0, true)))
       + multiset(Filter(news, NewKept(mutations, side, bp)))
    ensures PosSorted(mutations, Crossover(mutations, side, a, b, news, bp))
  {
    TrackMultiset(mutations, side, a, b, 0, 0, news, 0, bp, 0);
    TrackSorted(mutations, side, a, b, 0, 0, news, 0, bp, 0);
    assert a[0..] == a && b[0..] == b && news[0..] == news;
  }

  /** Without breakpoints: the first parent's keys and the side's new keys, in position order. */
  lemma NoCrossoverKeys(mutations: seq<Mutation>, side: bool, a: seq<nat>, news: seq<nat>)
    requires PosSorted(mutations, a) && PosSorted(mutations, news)
    ensures multiset(NoCrossover(mutations, side, a, news)) == multiset(a) + multiset(Filter(news, SideOf(mutations, side)))
    ensures PosSorted(mutations, NoCrossover(mutations, side, a, news))
  {
    MergeNewMultiset(mutations, side, a, 0, news, 0);
    MergeNewSorted(mutations, side, a, 0, news, 0);
    assert a[0..] == a && news[0..] == news;
  }

  /** With n breakpoints from index i on at or before x and the rest after it, the crossing count is n - i. */
  lemma {:induction false} CrossingsBetween(bp: seq<real>, i: nat, n: nat, x: real)
    requires BreakpointsSorted(bp) && i <= n <= |bp|
    requires forall k :: i <= k < n ==> bp[k] <= x
    requires n < |bp| ==> x < bp[n]
    ensures OddCrossings(bp, i, x) == ((n - i) % 2 == 1)
    decreases n - i
  {
    if i == n {
      if n < |bp| { NoCrossings(bp, n, x); }
    } else {
      CrossingsBetween(bp, i + 1, n, x);
    }
  }

  /**
   * Which parent a key before the last breakpoint comes from: with n
   * breakpoints at or before its position, the first parent when n is even
   * and the second when n is odd.  A key exactly at a breakpoint counts that
   * breakpoint, so it comes from the genome switched to there.
   */
  lemma SourceParent(mutations: seq<Mutation>, bp: seq<real>, k: nat, n: nat)
    requires BreakpointsSorted(bp) && n < |bp|
    requires forall j :: 0 <= j < n ==> bp[j] <= Pos(mutations, k)
    requires Pos(mutations, k) < bp[n]
    ensures Inherits(mutations, bp, 0, n % 2 == 1)(k)
    ensures !Inherits(mutations, bp, 0, n % 2 == 0)(k)
  {
    CrossingsBetween(bp, 0, n, Pos(mutations, k));
    NoCrossings(bp, n, Pos(mutations, k));
  }

  /**
   * Equal parents make crossing over pointless: the offspring holds the
   * same keys as without breakpoints, so generate_breakpoints may skip it.
   */
  lemma SameParents(mutations: seq<Mutation>, side: bool, a: seq<nat>, news: seq<nat>, bp: seq<real>)
    requires bp != [] && BreakpointsSorted(bp)
    requires PosSorted(mutations, a) && PosSorted(mutations, news)
    requires forall k :: 0 <= k < |a| ==> Pos(mutations, a[k]) < LastBreakpoint(bp)
    requires forall k :: 0 <= k < |news| ==> Pos(mutations, news[k]) < LastBreakpoint(bp)
    ensures multiset(Crossover(mutations, side, a, a, news, bp)) == multiset(NoCrossover(mutations, side, a, news))
  {
    CrossoverKeys(mutations, side, a, a, news, bp);
    NoCrossoverKeys(mutations, side, a, news);
    var before := (k: nat) => Pos(mutations, k) < LastBreakpoint(bp);
    FilterSplit(a, before, Inherits(mutations, bp, 0, false), Inherits(mutations, bp, 0, true));
    FilterAll(a, before);
    FilterSame(news, NewKept(mutations, side, bp), SideOf(mutations, side));
  }

  /** A key exactly at the first breakpoint of two comes from the second parent, not the first. */
  lemma AtBreakpoint()
    ensures var mutations := [Mutation(1.5, 0.0, 0.0, 0, 0, true)];
      var bp := [1.5, MAX_DOUBLE];
      Crossover(mutations, true, [], [0], [], bp) == [0] && Crossover(mutations, true, [0], [], [], bp) == []
  {
    var mutations := [Mutation(1.5, 0.0, 0.0, 0, 0, true)];
    var bp := [1.5, MAX_DOUBLE];
    assert SkipBelow(mutations, [0], 0, 1.5) == 0;
    assert SkipBelow(mutations, [0], 1, MAX_DOUBLE) == 1;
    assert SkipBelow(mutations, [0], 0, MAX_DOUBLE) == 1;
    assert TrackFrom(mutations, true, [0], [], 0, 0, [], 0, bp, 1) == [0] + TrackFrom(mutations, true, [], [0], 0, 1, [], 0, bp, 2);
    assert TrackFrom(mutations, true, [], [0], 0, 0, [], 0, bp, 1) == [] + TrackFrom(mutations, true, [0], [], 0, 0, [], 0, bp, 2);
  }

  // ---------------------------------------------------------------------
  // mutate_recombine
  // ---------------------------------------------------------------------

  /** The offspring's keys on one side: the merge without breakpoints, the crossover with them. */
  function Offspring(mutations: seq<Mutation>, side: bool, a: seq<nat>, b: seq<nat>, news: seq<nat>, bp: seq<real>): seq<nat>
  {
    if bp == [] then NoCrossover(mutations, side, a, news) else Crossover(mutations, side, a, b, news, bp)
  }

  /** One new key of the side without breakpoints, after what is already built. */
  lemma MergeStep(mutations: seq<Mutation>, side: bool, src: seq<nat>, from: nat, news: seq<nat>, nx: nat, acc: seq<nat>)
    requires from <= |src| && nx < |news|
    ensures var t := SkipUpTo(mutations, src, from, Pos(mutations, news[nx]));
      OnSide(mutations, side, news[nx]) ==>
        acc + MergeNew(mutations, side, src, from, news, nx) == (acc + src[from..t] + [news[nx]]) + MergeNew(mutations, side, src, t, news, nx + 1)
    ensures !OnSide(mutations, side, news[nx]) ==>
      MergeNew(mutations, side, src, from, news, nx) == MergeNew(mutations, side, src, from, news, nx + 1)
  {
  }

  /** The main loop's invariant on one side: what is built, followed by what is left to do, is the offspring's keys. */
  predicate Built(mutations: seq<Mutation>, side: bool, out: seq<nat>, a: seq<nat>, b: seq<nat>, ia: nat, ib: nat,
                  news: seq<nat>, nx: nat, bp: seq<real>, i: nat, whole: seq<nat>)
  {
    ia <= |a| && ib <= |b| && nx <= |news| && i <= |bp|
    && out + TrackFrom(mutations, side, a, b, ia, ib, news, nx, bp, i) == whole
  }

  /** One new key before the next breakpoint keeps the invariant. */
  lemma NewStep(mutations: seq<Mutation>, side: bool, out: seq<nat>, a: seq<nat>, b: seq<nat>, ia: nat, ib: nat,
                news: seq<nat>, nx: nat, bp: seq<real>, i: nat, whole: seq<nat>)
    requires Built(mutations, side, out, a, b, ia, ib, news, nx, bp, i, whole)
    requires nx < |news| && i < |bp| && Pos(mutations, news[nx]) < bp[i]
    ensures var p := Pos(mutations, news[nx]);
      var ia2, ib2 := SkipBelow(mutations, a, ia, p), SkipBelow(mutations, b, ib, p);
      Built(mutations, side, out + a[ia..ia2] + (if OnSide(mutations, side, news[nx]) then [news[nx]] else []),
            a, b, ia2, ib2, news, nx + 1, bp, i, whole)
  {
    TrackNewHead(mutations, side, a, b, ia, ib, news, nx, bp, i);
  }

  /** One breakpoint keeps the invariant, with the genomes swapped. */
  lemma BreakStep(mutations: seq<Mutation>, side: bool, out: seq<nat>, a: seq<nat>, b: seq<nat>, ia: nat, ib: nat,
                  news: seq<nat>, nx: nat, bp: seq<real>, i: nat, whole: seq<nat>)
    requires Built(mutations, side, out, a, b, ia, ib, news, nx, bp, i, whole) && i < |bp|
    requires nx < |news| ==> bp[i] <= Pos(mutations, news[nx])
    ensures var ia2, ib2 := SkipBelow(mutations, a, ia, bp[i]), SkipBelow(mutations, b, ib, bp[i]);
      Built(mutations, side, out + a[ia..ia2], b, a, ib2, ia2, news, nx, bp, i + 1, whole)
  {
    TrackBreakHead(mutations, side, a, b, ia, ib, news, nx, bp, i);
  }

  /** Past the last breakpoint everything is built. */
  lemma BuiltAtEnd(mutations: seq<Mutation>, side: bool, out: seq<nat>, a: seq<nat>, b: seq<nat>, ia: nat, ib: nat,
                   news: seq<nat>, nx: nat, bp: seq<real>, whole: seq<nat>)
    requires Built(mutations, side, out, a, b, ia, ib, news, nx, bp, |bp|, whole)
    ensures out == whole
  {
  }

  /**
   * The branch of mutate_recombine without breakpoints: each new key goes
   * through insert_new_mutation on its own side of the first parent's
   * genome, and what is left of that genome follows.
   */
  method MergeNewMutations(news: seq<nat>, g: Gamete, mutations: seq<Mutation>) returns (n2: seq<nat>, s2: seq<nat>)
    requires KeysIn(mutations, news)
    ensures n2 == NoCrossover(mutations, true, g.mutations, news)
    ensures s2 == NoCrossover(mutations, false, g.smutations, news)
  {
    var a, aS := g.mutations, g.smutations;
    n2, s2 := [], [];
    var nb, sb, k := 0, 0, 0;
    while k < |news|
      invariant k <= |news| && nb <= |a| && sb <= |aS|
      invariant n2 + MergeNew(mutations, true, a, nb, news, k) == NoCrossover(mutations, true, a, news)
      invariant s2 + MergeNew(mutations, false, aS, sb, news, k) == NoCrossover(mutations, false, aS, news)
    {
      var m := news[k];
      MergeStep(mutations, true, a, nb, news, k, n2);
      MergeStep(mutations, false, aS, sb, news, k, s2);
      if mutations[m].neutral {
        nb, n2 := InsertNewMutation(a, nb, m, mutations, n2);
      } else {
        sb, s2 := InsertNewMutation(aS, sb, m, mutations, s2);
      }
      k := k + 1;
    }
    n2, s2 := n2 + a[nb..], s2 + aS[sb..];
  }

  /**
   * A new key before the next breakpoint, on one side: rec_gam_updater
   * copies the keys of the genome copied from that lie before the key,
   * rec_update_itr skips those of the other genome, and the key is appended
   * when it belongs to this side.
   */
  method NewKeyOnSide(mutations: seq<Mutation>, side: bool, out: seq<nat>, a: seq<nat>, b: seq<nat>, ia: nat, ib: nat,
                      news: seq<nat>, nx: nat, bp: seq<real>, i: nat, ghost whole: seq<nat>)
    returns (out2: seq<nat>, ia2: nat, ib2: nat)
    requires Built(mutations, side, out, a, b, ia, ib, news, nx, bp, i, whole)
    requires nx < |news| && i < |bp| && news[nx] < |mutations| && mutations[news[nx]].pos < bp[i]
    ensures ia2 == SkipBelow(mutations, a, ia, mutations[news[nx]].pos) && ib2 == SkipBelow(mutations, b, ib, mutations[news[nx]].pos)
    ensures out2 == out + a[ia..ia2] + (if mutations[news[nx]].neutral == side then [news[nx]] else [])
    ensures Built(mutations, side, out2, a, b, ia2, ib2, news, nx + 1, bp, i, whole)
  {
    var m := news[nx];
    NewStep(mutations, side, out, a, b, ia, ib, news, nx, bp, i, whole);
    ia2 := SkipBelow(mutations, a, ia, mutations[m].pos);
    ib2 := SkipBelow(mutations, b, ib, mutations[m].pos);
    out2 := out + a[ia..ia2];
    if mutations[m].neutral == side {
      out2 := out2 + [m];
    }
  }

  /**
   * A breakpoint, on one side: the genome copied from gives its keys before
   * the breakpoint, the other genome skips past them, and the two swap.
   */
  method CrossOnSide(mutations: seq<Mutation>, side: bool, out: seq<nat>, a: seq<nat>, b: seq<nat>, ia: nat, ib: nat,
                     news: seq<nat>, nx: nat, bp: seq<real>, i: nat, ghost whole: seq<nat>)
    returns (out2: seq<nat>, a2: seq<nat>, b2: seq<nat>, ia2: nat, ib2: nat)
    requires Built(mutations, side, out, a, b, ia, ib, news, nx, bp, i, whole) && i < |bp|
    requires nx < |news| ==> bp[i] <= Pos(mutations, news[nx])
    ensures a2 == b && b2 == a && ia2 == SkipBelow(mutations, b, ib, bp[i]) && ib2 == SkipBelow(mutations, a, ia, bp[i])
    ensures out2 == out + a[ia..ib2]
    ensures Built(mutations, side, out2, a2, b2, ia2, ib2, news, nx, bp, i + 1, whole)
  {
    BreakStep(mutations, side, out, a, b, ia, ib, news, nx, bp, i, whole);
    var ja := SkipBelow(mutations, a, ia, bp[i]);
    out2 := out + a[ia..ja];
    a2, b2, ia2, ib2 := b, a, SkipBelow(mutations, b, ib, bp[i]), ja;
  }

  /**
   * The branch of mutate_recombine with breakpoints: the offspring's keys
   * on both sides, built by the main loop.
   */
  method Recombine(news: seq<nat>, bp: seq<real>, p1: Gamete, p2: Gamete, mutations: seq<Mutation>) returns (n2: seq<nat>, s2: seq<nat>)
    requires KeysIn(mutations, news)
    ensures n2 == Crossover(mutations, true, p1.mutations, p2.mutations, news, bp)
    ensures s2 == Crossover(mutations, false, p1.smutations, p2.smutations, news, bp)
  {
    n2, s2 := CrossoverLoop(news, bp, p1, p2, mutations,
                            Crossover(mutations, true, p1.mutations, p2.mutations, news, bp),
                            Crossover(mutations, false, p1.smutations, p2.smutations, news, bp));
  }

  /**
   * The main loop over new keys and breakpoints, copying from one parental
   * genome and swapping the two at each breakpoint, on both sides at once;
   * wn and ws are what it is to build.
   */
  method CrossoverLoop(news: seq<nat>, bp: seq<real>, p1: Gamete, p2: Gamete, mutations: seq<Mutation>,
                       ghost wn: seq<nat>, ghost ws: seq<nat>) returns (n2: seq<nat>, s2: seq<nat>)
    requires KeysIn(mutations, news)
    requires Built(mutations, true, [], p1.mutations, p2.mutations, 0, 0, news, 0, bp, 0, wn)
    requires Built(mutations, false, [], p1.smutations, p2.smutations, 0, 0, news, 0, bp, 0, ws)
    ensures n2 == wn && s2 == ws
  {
    n2, s2 := [], [];
    // The genome copied from and the other one, swapped at each breakpoint.
    var cur, oth, curS, othS := p1.mutations, p2.mutations, p1.smutations, p2.smutations;
    var itr: nat, jtr: nat, itrS: nat, jtrS: nat, next: nat, i: nat := 0, 0, 0, 0, 0, 0;
    while i < |bp|
      invariant Built(mutations, true, n2, cur, oth, itr, jtr, news, next, bp, i, wn)
      invariant Built(mutations, false, s2, curS, othS, itrS, jtrS, news, next, bp, i, ws)
      decreases |bp| - i, |news| - next
    {
      if next < |news| && mutations[news[next]].pos < bp[i] {
        n2, itr, jtr := NewKeyOnSide(mutations, true, n2, cur, oth, itr, jtr, news, next, bp, i, wn);
        s2, itrS, jtrS := NewKeyOnSide(mutations, false, s2, curS, othS, itrS, jtrS, news, next, bp, i, ws);
        next := next + 1;
      } else {
        n2, cur, oth, itr, jtr := CrossOnSide(mutations, true, n2, cur, oth, itr, jtr, news, next, bp, i, wn);
        s2, curS, othS, itrS, jtrS := CrossOnSide(mutations, false, s2, curS, othS, itrS, jtrS, news, next, bp, i, ws);
        i := i + 1;
      }
    }
    BuiltAtEnd(mutations, true, n2, cur, oth, itr, jtr, news, next, bp, wn);
    BuiltAtEnd(mutations, false, s2, curS, othS, itrS, jtrS, news, next, bp, ws);
  }

  /**
   * mutate_recombine: with neither new mutations nor breakpoints the first
   * parent's genome is reused; otherwise the offspring's neutral and
   * selected keys are built and stored through recycle_gamete, whose index
   * is returned (the buffers come back holding what recycle_gamete leaves).
   */
  method MutateRecombine(news: seq<nat>, bp: seq<real>, g1: nat, g2: nat, gametes: seq<Gamete>,
                         mutations: seq<Mutation>, queue: seq<nat>, neutral: seq<nat>, selected: seq<nat>)
    returns (gametes2: seq<Gamete>, queue2: seq<nat>, neutral2: seq<nat>, selected2: seq<nat>, idx: nat)
    requires g1 < |gametes| && g2 < |gametes| && KeysIn(mutations, news)
    requires queue != [] ==> queue[0] < |gametes|
    ensures news == [] && bp == [] ==>
      idx == g1 && gametes2 == gametes && queue2 == queue && neutral2 == neutral && selected2 == selected
    ensures news != [] || bp != [] ==>
      var n := Offspring(mutations, true, gametes[g1].mutations, gametes[g2].mutations, news, bp);
      var s := Offspring(mutations, false, gametes[g1].smutations, gametes[g2].smutations, news, bp);
      && idx < |gametes2| && gametes2[idx].mutations == n && gametes2[idx].smutations == s
      && (queue != [] ==> && idx == queue[0] && queue2 == queue[1..]
                          && gametes2 == gametes[idx := gametes[idx].(mutations := n, smutations := s)]
                          && neutral2 == gametes[idx].mutations && selected2 == gametes[idx].smutations)
      && (queue == [] ==> queue2 == [] && idx == |gametes| && gametes2 == gametes + [Gamete(0, n, s)])
  {
    if news == [] && bp == [] {
      return gametes, queue, neutral, selected, g1;
    }
    var n2: seq<nat>, s2: seq<nat>;
    if bp == [] {
      n2, s2 := MergeNewMutations(news, gametes[g1], mutations);
    } else {
      n2, s2 := Recombine(news, bp, gametes[g1], gametes[g2], mutations);
    }
    gametes2, queue2, neutral2, selected2, idx := SimRecycling.RecycleGamete(gametes, queue, n2, s2);
  }
}
