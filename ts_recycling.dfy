// fwdpp/ts/recycling.hpp: the recycling queues of tree-sequence
// simulations and flag_mutations_for_recycling, which, right after
// simplification and mutation counting, marks extinct and fixed mutations
// as reusable.  A recycled mutation has its count set to zero, its entry
// removed from the position lookup and its position set to the largest
// double.  The lookup (a multimap from position to mutation index) is
// modelled by its contents, a multiset of entries.

module TsRecycling {
  import opened Types
  import SimRecycling

  /** The members of a population that flagging reads and updates. */
  datatype TsPopulation = TsPopulation(
    mutations: seq<Mutation>,
    mcounts: seq<nat>,
    lookup: multiset<LookupEntry>,
    fixations: seq<Mutation>,
    fixationTimes: seq<nat>)

  /** What flag_mutations_for_recycling leaves behind: the population as far as it got, and whether it threw. */
  datatype FlagResult = FlagResult(pop: TsPopulation, outcome: Outcome)

  /** The sum of two 32-bit unsigned counts, wrapping around. */
  function UintSum(a: nat, b: nat): nat
  {
    (a + b) % UINT_MODULUS
  }

  /**
   * make_mut_queue (counts overload): the indexes whose count in the extant
   * nodes plus the count in the preserved nodes is zero, ascending.
   */
  method MakeMutQueue(mcounts: seq<nat>, preserved: seq<nat>) returns (q: seq<nat>)
    requires |mcounts| <= |preserved|
    ensures Ascending(q)
    ensures forall i: nat :: i in q <==> i < |mcounts| && UintSum(mcounts[i], preserved[i]) == 0
    ensures forall i :: 0 <= i < |mcounts| && mcounts[i] + preserved[i] < UINT_MODULUS ==>
              (i in q <==> mcounts[i] == 0 && preserved[i] == 0)
  {
    q := [];
    var i := 0;
    while i < |mcounts|
      invariant 0 <= i <= |mcounts|
      invariant Ascending(q) && forall k :: 0 <= k < |q| ==> q[k] < i
      invariant forall j: nat :: j in q <==> j < i && UintSum(mcounts[j], preserved[j]) == 0
    {
      if UintSum(mcounts[i], preserved[i]) == 0 {
        q := q + [i];
      }
      i := i + 1;
    }
  }

  /**
   * make_mut_queue (preserved-indexes overload): every index below
   * numMutations that simplification did not report as preserved,
   * ascending.  The largest size_t marks a preserved slot.
   */
  method MakeMutQueueFromIndexes(preservedIndexes: seq<nat>, numMutations: nat) returns (q: seq<nat>)
    requires numMutations <= SIZE_MAX
    requires forall k :: 0 <= k < |preservedIndexes| ==> preservedIndexes[k] < numMutations
    ensures Ascending(q)
    ensures forall i: nat :: i in q <==> i < numMutations && i !in preservedIndexes
  {
    var mindexes := new nat[numMutations](i => i);
    var k := 0;
    while k < |preservedIndexes|
      invariant 0 <= k <= |preservedIndexes|
      invariant forall j :: 0 <= j < numMutations ==>
                  mindexes[j] == if j in preservedIndexes[..k] then SIZE_MAX else j
    {
      assert preservedIndexes[..k + 1] == preservedIndexes[..k] + [preservedIndexes[k]];
      mindexes[preservedIndexes[k]] := SIZE_MAX;
      k := k + 1;
    }
    assert preservedIndexes[..k] == preservedIndexes;
    q := [];
    var i := 0;
    while i < numMutations
      invariant 0 <= i <= numMutations
      invariant Ascending(q) && forall t :: 0 <= t < |q| ==> q[t] < i
      invariant forall j: nat :: j in q <==> j < i && j !in preservedIndexes
    {
      if mindexes[i] != SIZE_MAX {
        q := q + [mindexes[i]];
      }
      i := i + 1;
    }
  }

  /**
   * process_mutation_index: the position of mutation i becomes the largest
   * double and one lookup entry mapping its old position to i is erased;
   * nothing else changes.
   */
  function MutationIndexProcessed(pop: TsPopulation, i: nat): (r: TsPopulation)
    requires i < |pop.mutations|
    ensures r.mutations == pop.mutations[i := pop.mutations[i].(pos := MAX_DOUBLE)]
    ensures r.mcounts == pop.mcounts && r.fixations == pop.fixations && r.fixationTimes == pop.fixationTimes
  {
    pop.(mutations := pop.mutations[i := pop.mutations[i].(pos := MAX_DOUBLE)],
         lookup := pop.lookup - multiset{LookupEntry(pop.mutations[i].pos, i)})
  }

  /** The lookup after process_mutation_index: one entry (old position, i) fewer, when there was one; every other entry as it was. */
  lemma IndexProcessedLookup(pop: TsPopulation, i: nat)
    requires i < |pop.mutations|
    ensures var r, x := MutationIndexProcessed(pop, i), LookupEntry(pop.mutations[i].pos, i);
      && (forall e :: e != x ==> r.lookup[e] == pop.lookup[e])
      && r.lookup[x] == if pop.lookup[x] > 0 then pop.lookup[x] - 1 else 0
  {
  }

  /** process_mutation_index followed by zeroing the count, as every removing branch of process_fixations does. */
  function Recycle(pop: TsPopulation, i: nat): (r: TsPopulation)
    requires i < |pop.mutations| && i < |pop.mcounts|
    ensures r.mcounts == pop.mcounts[i := 0]
    ensures r.mutations == MutationIndexProcessed(pop, i).mutations && r.lookup == MutationIndexProcessed(pop, i).lookup
    ensures r.fixations == pop.fixations && r.fixationTimes == pop.fixationTimes
  {
    MutationIndexProcessed(pop, i).(mcounts := pop.mcounts[i := 0])
  }

  /** A container of mutations kept sorted by position. */
  predicate SortedByPos(fix: seq<Mutation>)
  {
    forall a, b :: 0 <= a < b < |fix| ==> fix[a].pos <= fix[b].pos
  }

  /** std::lower_bound by position: the first index whose position is not below p. */
  function LowerBound(fix: seq<Mutation>, p: real): (d: nat)
    ensures d <= |fix|
    ensures forall k :: 0 <= k < d ==> fix[k].pos < p
    ensures d < |fix| ==> fix[d].pos >= p
  {
    if fix == [] || fix[0].pos >= p then 0 else 1 + LowerBound(fix[1..], p)
  }

  /** The end of std::equal_range by position: from lo, the first index whose position exceeds p. */
  function UpperFrom(fix: seq<Mutation>, p: real, lo: nat): (hi: nat)
    requires lo <= |fix|
    ensures lo <= hi <= |fix|
    ensures forall k :: lo <= k < hi ==> fix[k].pos <= p
    ensures hi < |fix| ==> fix[hi].pos > p
    decreases |fix| - lo
  {
    if lo == |fix| || fix[lo].pos > p then lo else UpperFrom(fix, p, lo + 1)
  }

  /** Insertion of x before index d. */
  function InsertAt<T>(s: seq<T>, d: nat, x: T): (r: seq<T>)
    requires d <= |s|
    ensures |r| == |s| + 1 && r[d] == x
    ensures multiset(r) == multiset(s) + multiset{x}
  {
    assert s == s[..d] + s[d..];
    s[..d] + [x] + s[d..]
  }

  /** The pair (fixation, time) inserted at the same index d of both containers. */
  function RecordAt(pop: TsPopulation, d: nat, m: Mutation, generation: nat): (r: TsPopulation)
    requires d <= |pop.fixations| && d <= |pop.fixationTimes|
    ensures r.mutations == pop.mutations && r.mcounts == pop.mcounts && r.lookup == pop.lookup
  {
    pop.(fixations := InsertAt(pop.fixations, d, m), fixationTimes := InsertAt(pop.fixationTimes, d, generation))
  }

  /** What every population handed to process_fixations and to flagging must allow. */
  predicate Ready(pop: TsPopulation, preserved: seq<nat>, preserve: bool, record: bool)
  {
    && |pop.mcounts| <= |pop.mutations| && |pop.mcounts| <= |preserved|
    && (preserve && record ==> |pop.fixations| <= |pop.fixationTimes|)
  }

  /**
   * What process_fixations may change: mutation i and count i, and the
   * fixation containers, which grow together by at most one record.
   */
  predicate TouchesOnly(pop: TsPopulation, r: TsPopulation, i: nat)
  {
    && |r.mutations| == |pop.mutations| && |r.mcounts| == |pop.mcounts|
    && (forall j :: 0 <= j < |pop.mutations| && j != i ==> r.mutations[j] == pop.mutations[j])
    && (forall j :: 0 <= j < |pop.mcounts| && j != i ==> r.mcounts[j] == pop.mcounts[j])
    && |r.fixations| - |pop.fixations| == |r.fixationTimes| - |pop.fixationTimes| <= 1
    && |pop.fixations| <= |r.fixations|
  }

  /**
   * process_fixations, the four overloads chosen by the policies `preserve`
   * (keep selected fixations) and `record` (record fixations).
   */
  function ProcessFixations(pop: TsPopulation, generation: nat, i: nat, preserve: bool, record: bool): (r: TsPopulation)
    requires i < |pop.mutations| && i < |pop.mcounts|
    requires preserve && record ==> |pop.fixations| <= |pop.fixationTimes|
    ensures |r.mutations| == |pop.mutations| && |r.mcounts| == |pop.mcounts|
    ensures forall j :: 0 <= j < |pop.mutations| && j != i ==> r.mutations[j] == pop.mutations[j]
    ensures forall j :: 0 <= j < |pop.mcounts| && j != i ==> r.mcounts[j] == pop.mcounts[j]
    ensures |r.fixations| - |pop.fixations| == |r.fixationTimes| - |pop.fixationTimes| <= 1
    ensures |pop.fixations| <= |r.fixations|
  {
    if preserve then FixationsPreserving(pop, generation, i, record) else FixationsRemoved(pop, generation, i, record)
  }

  /** The two overloads that remove every fixation, recording it first when `record` is set. */
  function FixationsRemoved(pop: TsPopulation, generation: nat, i: nat, record: bool): (r: TsPopulation)
    requires i < |pop.mutations| && i < |pop.mcounts|
    ensures TouchesOnly(pop, r, i)
  {
    var recorded := if record then pop.(fixations := pop.fixations + [pop.mutations[i]], fixationTimes := pop.fixationTimes + [generation]) else pop;
    Recycle(recorded, i)
  }

  /**
   * The two overloads that remove only neutral fixations; with `record`,
   * a neutral fixation is recorded in position order and a selected one is
   * recorded only when no equal record exists yet.
   */
  function FixationsPreserving(pop: TsPopulation, generation: nat, i: nat, record: bool): (r: TsPopulation)
    requires i < |pop.mutations| && i < |pop.mcounts|
    requires record ==> |pop.fixations| <= |pop.fixationTimes|
    ensures TouchesOnly(pop, r, i)
  {
    var m := pop.mutations[i];
    if m.neutral then
      if record then Recycle(RecordAt(pop, LowerBound(pop.fixations, m.pos), m, generation), i)
      else Recycle(pop, i)
    else if record then
      var lo := LowerBound(pop.fixations, m.pos);
      var hi := UpperFrom(pop.fixations, m.pos, lo);
      if m in pop.fixations[lo..hi] then pop else RecordAt(pop, lo, m, generation)
    else pop
  }

  /** One turn of the loop of flag_mutations_for_recycling, at index i. */
  function FlagStep(pop: TsPopulation, preserved: seq<nat>, twoN: nat, generation: nat, preserve: bool, record: bool, i: nat): (r: Result<TsPopulation>)
    requires Ready(pop, preserved, preserve, record) && i < |pop.mcounts|
    ensures r.Err? <==> preserved[i] == 0 && pop.mcounts[i] > twoN
    ensures r.Err? ==> r.error == RuntimeError
    ensures r.Ok? ==> Ready(r.value, preserved, preserve, record) && |r.value.mcounts| == |pop.mcounts| && |r.value.mutations| == |pop.mutations|
    ensures r.Ok? ==> forall j :: 0 <= j < |pop.mutations| && j != i ==> r.value.mutations[j] == pop.mutations[j]
    ensures r.Ok? ==> forall j :: 0 <= j < |pop.mcounts| && j != i ==> r.value.mcounts[j] == pop.mcounts[j]
  {
    if preserved[i] != 0 then Ok(pop)
    else if pop.mcounts[i] > twoN then Err(RuntimeError)
    else if pop.mcounts[i] == twoN then Ok(ProcessFixations(pop, generation, i, preserve, record))
    else if pop.mcounts[i] == 0 then Ok(MutationIndexProcessed(pop, i))
    else Ok(pop)
  }

  /** The loop of flag_mutations_for_recycling from index i on; it stops at the first count above twoN. */
  function FlagFrom(pop: TsPopulation, preserved: seq<nat>, twoN: nat, generation: nat, preserve: bool, record: bool, i: nat): (r: FlagResult)
    requires Ready(pop, preserved, preserve, record) && i <= |pop.mcounts|
    ensures |r.pop.mcounts| == |pop.mcounts| && |r.pop.mutations| == |pop.mutations|
    decreases |pop.mcounts| - i
  {
    if i == |pop.mcounts| then FlagResult(pop, Done)
    else
      var s := FlagStep(pop, preserved, twoN, generation, preserve, record, i);
      if s.Err? then FlagResult(pop, Fail(s.error))
      else FlagFrom(s.value, preserved, twoN, generation, preserve, record, i + 1)
  }

  /**
   * flag_mutations_for_recycling: a mutation absent from the preserved nodes
   * is processed as a fixation when its count is twoN and recycled when its
   * count is zero; a count above twoN throws runtime_error, leaving the
   * earlier indexes processed.
   */
  method FlagMutationsForRecycling(pop: TsPopulation, preserved: seq<nat>, twoN: nat, generation: nat, preserve: bool, record: bool)
    returns (r: FlagResult)
    requires Ready(pop, preserved, preserve, record)
    ensures r == FlagFrom(pop, preserved, twoN, generation, preserve, record, 0)
  {
    var cur := pop;
    var i := 0;
    while i < |pop.mcounts|
      invariant 0 <= i <= |pop.mcounts|
      invariant Ready(cur, preserved, preserve, record) && |cur.mcounts| == |pop.mcounts|
      invariant FlagFrom(cur, preserved, twoN, generation, preserve, record, i) == FlagFrom(pop, preserved, twoN, generation, preserve, record, 0)
    {
      if preserved[i] == 0 {
        if cur.mcounts[i] > twoN {
          return FlagResult(cur, Fail(RuntimeError));
        }
        if cur.mcounts[i] == twoN {
          cur := ProcessFixations(cur, generation, i, preserve, record);
        } else if cur.mcounts[i] == 0 {
          cur := MutationIndexProcessed(cur, i);
        }
      }
      i := i + 1;
    }
    r := FlagResult(cur, Done);
  }

  /** The policy in words: whether flagging recycles a mutation with these counts. */
  predicate Recycled(m: Mutation, count: nat, preservedCount: nat, twoN: nat, preserve: bool)
  {
    preservedCount == 0 && if count == twoN then !preserve || m.neutral else count == 0
  }

  /** Some count from index i on exceeds twoN while its preserved count is zero. */
  predicate OverCountFrom(mcounts: seq<nat>, preserved: seq<nat>, twoN: nat, i: nat)
    requires |mcounts| <= |preserved|
  {
    exists j :: i <= j < |mcounts| && preserved[j] == 0 && mcounts[j] > twoN
  }

  /** Flagging throws, with runtime_error, exactly when some count from i on exceeds twoN while its preserved count is zero. */
  lemma {:induction false} FlagFailsIff(pop: TsPopulation, preserved: seq<nat>, twoN: nat, generation: nat, preserve: bool, record: bool, i: nat)
    requires Ready(pop, preserved, preserve, record) && i <= |pop.mcounts|
    ensures var r := FlagFrom(pop, preserved, twoN, generation, preserve, record, i);
      && (r.outcome.Fail? <==> OverCountFrom(pop.mcounts, preserved, twoN, i))
      && (r.outcome.Fail? ==> r.outcome.error == RuntimeError)
    decreases |pop.mcounts| - i
  {
    if i < |pop.mcounts| {
      var s := FlagStep(pop, preserved, twoN, generation, preserve, record, i);
      if s.Ok? {
        var q := s.value;
        FlagFailsIff(q, preserved, twoN, generation, preserve, record, i + 1);
        assert FlagFrom(pop, preserved, twoN, generation, preserve, record, i) == FlagFrom(q, preserved, twoN, generation, preserve, record, i + 1);
        OverCountStep(pop.mcounts, q.mcounts, preserved, twoN, i);
      } else {
        assert preserved[i] == 0 && pop.mcounts[i] > twoN;
      }
    } else {
      assert !OverCountFrom(pop.mcounts, preserved, twoN, i);
    }
  }

  /** When index i is within bounds and the counts after it agree, the over-count test moves past i. */
  lemma OverCountStep(a: seq<nat>, b: seq<nat>, preserved: seq<nat>, twoN: nat, i: nat)
    requires |a| == |b| <= |preserved| && i < |a|
    requires !(preserved[i] == 0 && a[i] > twoN)
    requires forall j :: 0 <= j < |a| && j != i ==> b[j] == a[j]
    ensures OverCountFrom(a, preserved, twoN, i) <==> OverCountFrom(b, preserved, twoN, i + 1)
  {
    if OverCountFrom(a, preserved, twoN, i) {
      var j :| i <= j < |a| && preserved[j] == 0 && a[j] > twoN;
      assert j != i && b[j] == a[j];
    }
  }

  /** Indexes below i, and indexes whose preserved count is positive, are never touched. */
  lemma {:induction false} FlagKeeps(pop: TsPopulation, preserved: seq<nat>, twoN: nat, generation: nat, preserve: bool, record: bool, i: nat, j: nat)
    requires Ready(pop, preserved, preserve, record) && i <= |pop.mcounts| && j < |pop.mutations|
    requires j < i || j >= |pop.mcounts| || preserved[j] > 0
    ensures var r := FlagFrom(pop, preserved, twoN, generation, preserve, record, i);
      r.pop.mutations[j] == pop.mutations[j] && (j < |pop.mcounts| ==> r.pop.mcounts[j] == pop.mcounts[j])
    decreases |pop.mcounts| - i
  {
    if i < |pop.mcounts| {
      var s := FlagStep(pop, preserved, twoN, generation, preserve, record, i);
      if s.Ok? {
        FlagKeeps(s.value, preserved, twoN, generation, preserve, record, i + 1, j);
      }
    }
  }

  /**
   * What flagging makes of mutation j and its count: recycled (position the
   * largest double, count zero) exactly when the policy says so, and
   * otherwise unchanged.
   */
  function FlaggedEntry(pop: TsPopulation, preserved: seq<nat>, twoN: nat, preserve: bool, j: nat): (Mutation, nat)
    requires j < |pop.mcounts| && j < |pop.mutations| && j < |preserved|
  {
    if Recycled(pop.mutations[j], pop.mcounts[j], preserved[j], twoN, preserve)
    then (pop.mutations[j].(pos := MAX_DOUBLE), 0)
    else (pop.mutations[j], pop.mcounts[j])
  }

  /**
   * When flagging completes, each index from i on is recycled exactly when
   * the policy says so: its position becomes the largest double and its
   * count zero; every other mutation and count is unchanged.
   */
  lemma {:induction false} FlagDoneEffect(pop: TsPopulation, preserved: seq<nat>, twoN: nat, generation: nat, preserve: bool, record: bool, i: nat, j: nat)
    requires Ready(pop, preserved, preserve, record) && i <= j < |pop.mcounts|
    ensures var r := FlagFrom(pop, preserved, twoN, generation, preserve, record, i);
      r.outcome.Done? ==> (r.pop.mutations[j], r.pop.mcounts[j]) == FlaggedEntry(pop, preserved, twoN, preserve, j)
    decreases |pop.mcounts| - i
  {
    var s := FlagStep(pop, preserved, twoN, generation, preserve, record, i);
    if s.Ok? {
      var q := s.value;
      var r := FlagFrom(q, preserved, twoN, generation, preserve, record, i + 1);
      assert FlagFrom(pop, preserved, twoN, generation, preserve, record, i) == r;
      if j == i {
        StepEffect(pop, preserved, twoN, generation, preserve, record, i);
        FlagKeeps(q, preserved, twoN, generation, preserve, record, i + 1, j);
      } else {
        assert q.mutations[j] == pop.mutations[j] && q.mcounts[j] == pop.mcounts[j];
        FlagDoneEffect(q, preserved, twoN, generation, preserve, record, i + 1, j);
      }
    }
  }

  /** One step at index i recycles i exactly when the policy says so, and otherwise leaves it alone. */
  lemma StepEffect(pop: TsPopulation, preserved: seq<nat>, twoN: nat, generation: nat, preserve: bool, record: bool, i: nat)
    requires Ready(pop, preserved, preserve, record) && i < |pop.mcounts|
    ensures var s := FlagStep(pop, preserved, twoN, generation, preserve, record, i);
      s.Ok? ==> (s.value.mutations[i], s.value.mcounts[i]) == FlaggedEntry(pop, preserved, twoN, preserve, i)
  {
  }

  /** The lookup entries of the mutations flagging recycles, from index i on. */
  function RecycledEntries(pop: TsPopulation, preserved: seq<nat>, twoN: nat, preserve: bool, i: nat): multiset<LookupEntry>
    requires |pop.mcounts| <= |pop.mutations| && |pop.mcounts| <= |preserved| && i <= |pop.mcounts|
    decreases |pop.mcounts| - i
  {
    if i == |pop.mcounts| then multiset{}
    else
      (if Recycled(pop.mutations[i], pop.mcounts[i], preserved[i], twoN, preserve)
       then multiset{LookupEntry(pop.mutations[i].pos, i)} else multiset{})
      + RecycledEntries(pop, preserved, twoN, preserve, i + 1)
  }

  /** RecycledEntries from i on reads only the mutations and counts from i on. */
  lemma {:induction false} RecycledEntriesFrame(p: TsPopulation, q: TsPopulation, preserved: seq<nat>, twoN: nat, preserve: bool, i: nat)
    requires |p.mcounts| <= |p.mutations| && |p.mcounts| <= |preserved| && i <= |p.mcounts|
    requires |q.mcounts| == |p.mcounts| && |q.mutations| == |p.mutations|
    requires forall j :: i <= j < |p.mcounts| ==> q.mutations[j] == p.mutations[j] && q.mcounts[j] == p.mcounts[j]
    ensures RecycledEntries(q, preserved, twoN, preserve, i) == RecycledEntries(p, preserved, twoN, preserve, i)
    decreases |p.mcounts| - i
  {
    if i < |p.mcounts| {
      RecycledEntriesFrame(p, q, preserved, twoN, preserve, i + 1);
    }
  }

  /** When flagging completes, the lookup has lost exactly one entry per recycled mutation (when it held one). */
  lemma {:induction false} FlagDoneLookup(pop: TsPopulation, preserved: seq<nat>, twoN: nat, generation: nat, preserve: bool, record: bool, i: nat)
    requires Ready(pop, preserved, preserve, record) && i <= |pop.mcounts|
    ensures var r := FlagFrom(pop, preserved, twoN, generation, preserve, record, i);
      r.outcome.Done? ==> r.pop.lookup == pop.lookup - RecycledEntries(pop, preserved, twoN, preserve, i)
    decreases |pop.mcounts| - i
  {
    if i < |pop.mcounts| {
      var s := FlagStep(pop, preserved, twoN, generation, preserve, record, i);
      if s.Ok? {
        var r := FlagFrom(s.value, preserved, twoN, generation, preserve, record, i + 1);
        assert FlagFrom(pop, preserved, twoN, generation, preserve, record, i) == r;
        FlagDoneLookup(s.value, preserved, twoN, generation, preserve, record, i + 1);
        LookupStep(pop, preserved, twoN, generation, preserve, record, i, r);
      } else {
        assert FlagFrom(pop, preserved, twoN, generation, preserve, record, i).outcome.Fail?;
      }
    } else {
      assert RecycledEntries(pop, preserved, twoN, preserve, i) == multiset{};
      assert pop.lookup - multiset{} == pop.lookup;
    }
  }

  /** The lookup of one step, then of the rest, is the lookup less the entries recycled from i on. */
  lemma LookupStep(pop: TsPopulation, preserved: seq<nat>, twoN: nat, generation: nat, preserve: bool, record: bool, i: nat, r: FlagResult)
    requires Ready(pop, preserved, preserve, record) && i < |pop.mcounts|
    requires FlagStep(pop, preserved, twoN, generation, preserve, record, i).Ok?
    requires var q := FlagStep(pop, preserved, twoN, generation, preserve, record, i).value;
      r.outcome.Done? ==> r.pop.lookup == q.lookup - RecycledEntries(q, preserved, twoN, preserve, i + 1)
    ensures r.outcome.Done? ==> r.pop.lookup == pop.lookup - RecycledEntries(pop, preserved, twoN, preserve, i)
  {
    var q := FlagStep(pop, preserved, twoN, generation, preserve, record, i).value;
    var x := if Recycled(pop.mutations[i], pop.mcounts[i], preserved[i], twoN, preserve)
             then multiset{LookupEntry(pop.mutations[i].pos, i)} else multiset{};
    var rest := RecycledEntries(pop, preserved, twoN, preserve, i + 1);
    StepLookup(pop, preserved, twoN, generation, preserve, record, i);
    assert q.lookup == pop.lookup - x;
    RecycledEntriesFrame(pop, q, preserved, twoN, preserve, i + 1);
    assert RecycledEntries(pop, preserved, twoN, preserve, i) == x + rest;
    MinusMinus(pop.lookup, x, rest);
  }

  /** One step removes the lookup entry of index i exactly when the policy recycles it. */
  lemma StepLookup(pop: TsPopulation, preserved: seq<nat>, twoN: nat, generation: nat, preserve: bool, record: bool, i: nat)
    requires Ready(pop, preserved, preserve, record) && i < |pop.mcounts|
    ensures var s := FlagStep(pop, preserved, twoN, generation, preserve, record, i);
      var gone := if Recycled(pop.mutations[i], pop.mcounts[i], preserved[i], twoN, preserve)
                  then multiset{LookupEntry(pop.mutations[i].pos, i)} else multiset{};
      s.Ok? ==> s.value.lookup == pop.lookup - gone
  {
    if preserved[i] == 0 && pop.mcounts[i] == twoN {
      FixationLookup(pop, generation, i, preserve, record);
    }
  }

  /** process_fixations erases the lookup entry of i exactly when it recycles i. */
  lemma FixationLookup(pop: TsPopulation, generation: nat, i: nat, preserve: bool, record: bool)
    requires i < |pop.mutations| && i < |pop.mcounts|
    requires preserve && record ==> |pop.fixations| <= |pop.fixationTimes|
    ensures ProcessFixations(pop, generation, i, preserve, record).lookup ==
      if !preserve || pop.mutations[i].neutral then pop.lookup - multiset{LookupEntry(pop.mutations[i].pos, i)} else pop.lookup
  {
  }

  lemma MinusMinus<T>(a: multiset<T>, x: multiset<T>, b: multiset<T>)
    ensures (a - x) - b == a - (x + b)
  {
  }

  /**
   * A selected fixation kept by the preserve policy and recorded: its count
   * and mutation stay, and it is recorded once — inserted, in position
   * order, only when no equal record exists yet.
   */
  lemma SelectedFixationRecordedOnce(pop: TsPopulation, generation: nat, i: nat)
    requires i < |pop.mutations| && i < |pop.mcounts| && |pop.fixations| <= |pop.fixationTimes|
    requires !pop.mutations[i].neutral && SortedByPos(pop.fixations)
    ensures var r, m := ProcessFixations(pop, generation, i, true, true), pop.mutations[i];
      && r.mutations == pop.mutations && r.mcounts == pop.mcounts && r.lookup == pop.lookup
      && SortedByPos(r.fixations) && m in r.fixations
      && multiset(r.fixations) == multiset(pop.fixations) + (if m in pop.fixations then multiset{} else multiset{m})
  {
    var m := pop.mutations[i];
    var lo := LowerBound(pop.fixations, m.pos);
    var hi := UpperFrom(pop.fixations, m.pos, lo);
    EqualRangeFinds(pop.fixations, m);
    if m !in pop.fixations {
      InsertKeepsSorted(pop.fixations, m);
    }
  }

  /** On a position-sorted container, std::find over the equal range of m's position finds m exactly when it is present. */
  lemma EqualRangeFinds(fix: seq<Mutation>, m: Mutation)
    requires SortedByPos(fix)
    ensures var lo := LowerBound(fix, m.pos);
      m in fix[lo..UpperFrom(fix, m.pos, lo)] <==> m in fix
  {
    var lo := LowerBound(fix, m.pos);
    var hi := UpperFrom(fix, m.pos, lo);
    if m in fix {
      var k :| 0 <= k < |fix| && fix[k] == m;
      InEqualRange(fix, m.pos, lo, hi, k);
      assert fix[lo..hi][k - lo] == m;
    } else {
      SliceMembers(fix, lo, hi);
    }
  }

  /** An element at position p lies between std::equal_range's bounds. */
  lemma InEqualRange(fix: seq<Mutation>, p: real, lo: nat, hi: nat, k: nat)
    requires SortedByPos(fix) && k < |fix| && fix[k].pos == p
    requires lo == LowerBound(fix, p) && hi == UpperFrom(fix, p, lo)
    ensures lo <= k < hi
  {
  }

  lemma SliceMembers<T>(s: seq<T>, lo: nat, hi: nat)
    requires lo <= hi <= |s|
    ensures forall x :: x in s[lo..hi] ==> x in s
  {
    forall x | x in s[lo..hi] ensures x in s {
      var j :| 0 <= j < hi - lo && s[lo..hi][j] == x;
      assert s[lo + j] == x;
    }
  }

  /** Inserting at the lower bound of its position keeps a container position-sorted. */
  lemma InsertKeepsSorted(fix: seq<Mutation>, m: Mutation)
    requires SortedByPos(fix)
    ensures SortedByPos(InsertAt(fix, LowerBound(fix, m.pos), m))
  {
    var d := LowerBound(fix, m.pos);
    var r := InsertAt(fix, d, m);
    forall a, b | 0 <= a < b < |r| ensures r[a].pos <= r[b].pos {
      if a < d && b > d {
        assert r[a] == fix[a] && r[b] == fix[b - 1];
      } else if a == d {
        assert r[b] == fix[b - 1] && fix[d].pos >= m.pos;
      } else if b == d {
        assert r[a] == fix[a];
      } else if a > d {
        assert r[a] == fix[a - 1] && r[b] == fix[b - 1];
      } else {
        assert r[a] == fix[a] && r[b] == fix[b];
      }
    }
  }

  /**
   * Under the preserve policy with recording, a neutral fixation is recorded
   * in position order with its generation at the same index, and recycled.
   */
  lemma NeutralFixationRecordedInOrder(pop: TsPopulation, generation: nat, i: nat)
    requires i < |pop.mutations| && i < |pop.mcounts| && |pop.fixations| == |pop.fixationTimes|
    requires pop.mutations[i].neutral && SortedByPos(pop.fixations)
    ensures var r, m := ProcessFixations(pop, generation, i, true, true), pop.mutations[i];
      && SortedByPos(r.fixations) && |r.fixations| == |r.fixationTimes|
      && (exists d :: 0 <= d < |r.fixations| && r.fixations[d] == m && r.fixationTimes[d] == generation
                      && r.fixations == InsertAt(pop.fixations, d, m) && r.fixationTimes == InsertAt(pop.fixationTimes, d, generation))
      && r.mcounts[i] == 0 && r.mutations[i] == m.(pos := MAX_DOUBLE)
  {
    InsertKeepsSorted(pop.fixations, pop.mutations[i]);
  }

  /** Without the preserve policy, recording appends the fixation and the generation in parallel, and the mutation is recycled. */
  lemma AppendedFixation(pop: TsPopulation, generation: nat, i: nat)
    requires i < |pop.mutations| && i < |pop.mcounts|
    ensures var r := ProcessFixations(pop, generation, i, false, true);
      && r.fixations == pop.fixations + [pop.mutations[i]] && r.fixationTimes == pop.fixationTimes + [generation]
      && r.mcounts[i] == 0 && r.mutations[i] == pop.mutations[i].(pos := MAX_DOUBLE)
      && r.lookup == pop.lookup - multiset{LookupEntry(pop.mutations[i].pos, i)}
  {
  }

  /** Without recording, the fixation containers are never touched; under the preserve policy, sortedness of fixations is kept. */
  lemma {:induction false} FlagFixationContainers(pop: TsPopulation, preserved: seq<nat>, twoN: nat, generation: nat, preserve: bool, record: bool, i: nat)
    requires Ready(pop, preserved, preserve, record) && i <= |pop.mcounts|
    ensures var r := FlagFrom(pop, preserved, twoN, generation, preserve, record, i);
      && (!record ==> r.pop.fixations == pop.fixations && r.pop.fixationTimes == pop.fixationTimes)
      && (preserve && SortedByPos(pop.fixations) ==> SortedByPos(r.pop.fixations))
      && |r.pop.fixations| - |pop.fixations| == |r.pop.fixationTimes| - |pop.fixationTimes|
    decreases |pop.mcounts| - i
  {
    if i < |pop.mcounts| {
      var s := FlagStep(pop, preserved, twoN, generation, preserve, record, i);
      if s.Ok? {
        if preserve && record && SortedByPos(pop.fixations) && preserved[i] == 0 && pop.mcounts[i] == twoN {
          var m := pop.mutations[i];
          if m.neutral {
            InsertKeepsSorted(pop.fixations, m);
          } else {
            SelectedFixationRecordedOnce(pop, generation, i);
          }
        }
        FlagFixationContainers(s.value, preserved, twoN, generation, preserve, record, i + 1);
      }
    }
  }
}
