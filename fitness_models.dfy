// fwdpp/fitness_models.hpp: fitness from the selected mutations of two
// genomes.  site_dependent_fitness walks the two position-sorted lists of
// selected keys together and calls a homozygote policy for a key both carry
// and a heterozygote policy for a key only one carries; the multiplicative
// and additive models are two choices of policies.  Fitness is modelled in
// exact `real` arithmetic.

module FitnessModels {
  import opened Types
  import opened Keys

  /** One call of a fitness policy, on the key it is given. */
  datatype Call = Hom(key: nat) | Het(key: nat)

  function Pos(mutations: seq<Mutation>, k: nat): real
  {
    if k < |mutations| then mutations[k].pos else 0.0
  }

  /** The heterozygote calls for the rest of a list, in order. */
  function HetAll(b: seq<nat>, j: nat): (r: seq<Call>)
    requires j <= |b|
    ensures |r| == |b| - j && forall k :: 0 <= k < |r| ==> r[k] == Het(b[j + k])
    decreases |b| - j
  {
    if j == |b| then [] else [Het(b[j])] + HetAll(b, j + 1)
  }

  /**
   * The policy calls site_dependent_fitness makes from key a[i] of the
   * first genome and b[j] of the second on: a key of the second genome not
   * after a[i] is a homozygote when it is a[i] (and both move on) and a
   * heterozygote otherwise; once the second genome has nothing left at or
   * before a[i], a[i] is a heterozygote; after the first genome, the rest
   * of the second are heterozygotes.
   */
  function Calls(mutations: seq<Mutation>, a: seq<nat>, i: nat, b: seq<nat>, j: nat): seq<Call>
    requires i <= |a| && j <= |b|
    decreases |a| - i + |b| - j
  {
    if i == |a| then HetAll(b, j)
    else if j < |b| && !(Pos(mutations, b[j]) > Pos(mutations, a[i])) then
      if b[j] == a[i] then [Hom(a[i])] + Calls(mutations, a, i + 1, b, j + 1)
      else [Het(b[j])] + Calls(mutations, a, i, b, j + 1)
    else [Het(a[i])] + Calls(mutations, a, i + 1, b, j)
  }

  /** The mutation a call is about (a default one for a key out of range). */
  function CallMutation(mutations: seq<Mutation>, c: Call): Mutation
  {
    if c.key < |mutations| then mutations[c.key] else Mutation(0.0, 0.0, 0.0, 0, 0, true)
  }

  /** The fitness after applying the calls in order, from f. */
  function Apply(mutations: seq<Mutation>, hom: (real, Mutation) -> real, het: (real, Mutation) -> real,
                 f: real, calls: seq<Call>): real
    decreases |calls|
  {
    if calls == [] then f
    else
      var m := CallMutation(mutations, calls[0]);
      Apply(mutations, hom, het, if calls[0].Hom? then hom(f, m) else het(f, m), calls[1..])
  }

  /** Applying the first call then the rest. */
  lemma ApplyHead(mutations: seq<Mutation>, hom: (real, Mutation) -> real, het: (real, Mutation) -> real,
                  f: real, calls: seq<Call>)
    requires calls != []
    ensures Apply(mutations, hom, het, f, calls)
         == Apply(mutations, hom, het, if calls[0].Hom? then hom(f, CallMutation(mutations, calls[0])) else het(f, CallMutation(mutations, calls[0])), calls[1..])
  {
  }

  /** Applying a call then the rest. */
  lemma ApplyCons(mutations: seq<Mutation>, hom: (real, Mutation) -> real, het: (real, Mutation) -> real,
                  f: real, c: Call, rest: seq<Call>)
    requires c.key < |mutations|
    ensures Apply(mutations, hom, het, f, [c] + rest)
         == Apply(mutations, hom, het, if c.Hom? then hom(f, mutations[c.key]) else het(f, mutations[c.key]), rest)
  {
    assert ([c] + rest)[1..] == rest;
  }

  /**
   * site_dependent_fitness: starting from starting_fitness, every policy
   * call of the merge is applied in turn.
   */
  method SiteDependentFitness(mutations: seq<Mutation>, g1: seq<nat>, g2: seq<nat>,
                              hom: (real, Mutation) -> real, het: (real, Mutation) -> real, start: real)
    returns (fitness: real)
    requires KeysIn(mutations, g1) && KeysIn(mutations, g2)
    ensures fitness == Apply(mutations, hom, het, start, Calls(mutations, g1, 0, g2, 0))
    ensures g1 == [] && g2 == [] ==> fitness == start
  {
    fitness := start;
    if g1 == [] && g2 == [] {
      return;
    }
    ghost var target := Apply(mutations, hom, het, start, Calls(mutations, g1, 0, g2, 0));
    if g1 == [] {
      fitness := HetRest(mutations, g2, 0, hom, het, fitness, target);
      return;
    }
    var i: nat, j: nat := 0, 0;
    while i < |g1|
      invariant i <= |g1| && j <= |g2|
      invariant Apply(mutations, hom, het, fitness, Calls(mutations, g1, i, g2, j)) == target
    {
      fitness, j := ScanSecond(mutations, g1, i, g2, j, hom, het, fitness, target);
      i := i + 1;
    }
    fitness := HetRest(mutations, g2, j, hom, het, fitness, target);
  }

  /** The loops over the rest of the second genome: each key is a heterozygote. */
  method HetRest(mutations: seq<Mutation>, g2: seq<nat>, j0: nat, hom: (real, Mutation) -> real,
                 het: (real, Mutation) -> real, fitness0: real, ghost target: real)
    returns (fitness: real)
    requires j0 <= |g2| && KeysIn(mutations, g2)
    requires Apply(mutations, hom, het, fitness0, HetAll(g2, j0)) == target
    ensures fitness == target
  {
    fitness := fitness0;
    var j := j0;
    while j < |g2|
      invariant j <= |g2| && Apply(mutations, hom, het, fitness, HetAll(g2, j)) == target
    {
      ApplyCons(mutations, hom, het, fitness, Het(g2[j]), HetAll(g2, j + 1));
      fitness := het(fitness, mutations[g2[j]]);
      j := j + 1;
    }
  }

  /**
   * One turn of the outer loop for key g1[i]: the keys of the second genome
   * not after it are heterozygotes until one is g1[i] itself, a homozygote;
   * if none is, g1[i] is a heterozygote.
   */
  method ScanSecond(mutations: seq<Mutation>, g1: seq<nat>, i: nat, g2: seq<nat>, j0: nat,
                    hom: (real, Mutation) -> real, het: (real, Mutation) -> real, fitness0: real, ghost target: real)
    returns (fitness: real, j: nat)
    requires i < |g1| && j0 <= |g2| && KeysIn(mutations, g1) && KeysIn(mutations, g2)
    requires Apply(mutations, hom, het, fitness0, Calls(mutations, g1, i, g2, j0)) == target
    ensures j <= |g2| && Apply(mutations, hom, het, fitness, Calls(mutations, g1, i + 1, g2, j)) == target
  {
    fitness, j := fitness0, j0;
    var found := false;
    while !found && j < |g2| && !(mutations[g2[j]].pos > mutations[g1[i]].pos)
      invariant j <= |g2|
      invariant !found ==> Apply(mutations, hom, het, fitness, Calls(mutations, g1, i, g2, j)) == target
      invariant found ==> Apply(mutations, hom, het, fitness, Calls(mutations, g1, i + 1, g2, j)) == target
    {
      if g2[j] == g1[i] {
        ApplyCons(mutations, hom, het, fitness, Hom(g1[i]), Calls(mutations, g1, i + 1, g2, j + 1));
        fitness := hom(fitness, mutations[g1[i]]);
        found := true;
      } else {
        ApplyCons(mutations, hom, het, fitness, Het(g2[j]), Calls(mutations, g1, i, g2, j + 1));
        fitness := het(fitness, mutations[g2[j]]);
      }
      j := j + 1;
    }
    if !found {
      ApplyCons(mutations, hom, het, fitness, Het(g1[i]), Calls(mutations, g1, i + 1, g2, j));
      fitness := het(fitness, mutations[g1[i]]);
    }
  }

  /** Positions strictly increase along a list (so no key repeats). */
  predicate StrictlySorted(mutations: seq<Mutation>, keys: seq<nat>)
  {
    forall x, y :: 0 <= x < y < |keys| ==> Pos(mutations, keys[x]) < Pos(mutations, keys[y])
  }

  /** Keys of the two genomes at the same position are the same mutation (infinitely many sites). */
  predicate SameSiteSameKey(mutations: seq<Mutation>, a: seq<nat>, b: seq<nat>)
  {
    forall x, y :: 0 <= x < |a| && 0 <= y < |b| && Pos(mutations, a[x]) == Pos(mutations, b[y]) ==> a[x] == b[y]
  }

  /** How often policy call c is made. */
  function Times(calls: seq<Call>, c: Call): nat
  {
    multiset(calls)[c]
  }

  lemma HetAllCount(b: seq<nat>, j: nat, k: nat)
    requires j <= |b| && forall x, y :: j <= x < y < |b| ==> b[x] != b[y]
    ensures Times(HetAll(b, j), Hom(k)) == 0
    ensures Times(HetAll(b, j), Het(k)) == if k in b[j..] then 1 else 0
    decreases |b| - j
  {
    if j < |b| {
      HetAllCount(b, j + 1, k);
      assert b[j..] == [b[j]] + b[j + 1..];
      assert [Het(b[j])] + HetAll(b, j + 1) == HetAll(b, j);
      if b[j] == k {
        assert k !in b[j + 1..] by {
          forall x | j + 1 <= x < |b| ensures b[x] != k { }
        }
      }
    }
  }

  /** On sorted, consistent lists, the rest of each list lies at or after the current key. */
  predicate Frontier(mutations: seq<Mutation>, a: seq<nat>, i: nat, b: seq<nat>, j: nat)
  {
    i <= |a| && j <= |b| && StrictlySorted(mutations, a) && StrictlySorted(mutations, b)
    && SameSiteSameKey(mutations, a, b)
  }

  /**
   * With both lists position-sorted and keys at the same site the same
   * mutation, a key carried by both genomes gets the homozygote policy
   * once, a key carried by one gets the heterozygote policy once, and
   * nothing else is called.
   */
  lemma {:induction false} CallsCount(mutations: seq<Mutation>, a: seq<nat>, i: nat, b: seq<nat>, j: nat, k: nat)
    requires Frontier(mutations, a, i, b, j)
    ensures Times(Calls(mutations, a, i, b, j), Hom(k)) == if k in a[i..] && k in b[j..] then 1 else 0
    ensures Times(Calls(mutations, a, i, b, j), Het(k)) == if (k in a[i..]) != (k in b[j..]) then 1 else 0
    decreases |a| - i + |b| - j
  {
    if i == |a| {
      HetAllCount(b, j, k);
    } else if j < |b| && !(Pos(mutations, b[j]) > Pos(mutations, a[i])) {
      if b[j] == a[i] {
        CallsCount(mutations, a, i + 1, b, j + 1, k);
        HeadStep(mutations, a, i, k);
        HeadStep(mutations, b, j, k);
        HomCount(a, i, b, j, k, Calls(mutations, a, i + 1, b, j + 1));
      } else {
        CallsCount(mutations, a, i, b, j + 1, k);
        HeadStep(mutations, b, j, k);
        assert Pos(mutations, b[j]) != Pos(mutations, a[i]);
        BeforeHead(mutations, a, i, b, j);
        HetCount(b, j, a[i..], k, Calls(mutations, a, i, b, j + 1));
      }
    } else {
      CallsCount(mutations, a, i + 1, b, j, k);
      HeadStep(mutations, a, i, k);
      if j < |b| {
        BeforeHead(mutations, b, j, a, i);
      }
      HetCount(a, i, b[j..], k, Calls(mutations, a, i + 1, b, j));
    }
  }

  /** How often a call is made after one more call in front. */
  lemma TimesCons(c: Call, rest: seq<Call>, d: Call)
    ensures Times([c] + rest, d) == Times(rest, d) + if c == d then 1 else 0
  {
    assert multiset([c] + rest) == multiset([c]) + multiset(rest);
  }

  /** The counting step for a key carried by both genomes. */
  lemma HomCount(a: seq<nat>, i: nat, b: seq<nat>, j: nat, k: nat, rest: seq<Call>)
    requires i < |a| && j < |b| && a[i] == b[j]
    requires (k in a[i..]) == (k == a[i] || k in a[i + 1..]) && a[i] !in a[i + 1..]
    requires (k in b[j..]) == (k == b[j] || k in b[j + 1..]) && b[j] !in b[j + 1..]
    requires Times(rest, Hom(k)) == if k in a[i + 1..] && k in b[j + 1..] then 1 else 0
    requires Times(rest, Het(k)) == if (k in a[i + 1..]) != (k in b[j + 1..]) then 1 else 0
    ensures Times([Hom(a[i])] + rest, Hom(k)) == if k in a[i..] && k in b[j..] then 1 else 0
    ensures Times([Hom(a[i])] + rest, Het(k)) == if (k in a[i..]) != (k in b[j..]) then 1 else 0
  {
    TimesCons(Hom(a[i]), rest, Hom(k));
    TimesCons(Hom(a[i]), rest, Het(k));
  }

  /** The counting step for a key s[i] that the other genome's rest o does not carry. */
  lemma HetCount(s: seq<nat>, i: nat, o: seq<nat>, k: nat, rest: seq<Call>)
    requires i < |s| && s[i] !in o
    requires (k in s[i..]) == (k == s[i] || k in s[i + 1..]) && s[i] !in s[i + 1..]
    requires Times(rest, Hom(k)) == if k in s[i + 1..] && k in o then 1 else 0
    requires Times(rest, Het(k)) == if (k in s[i + 1..]) != (k in o) then 1 else 0
    ensures Times([Het(s[i])] + rest, Hom(k)) == if k in s[i..] && k in o then 1 else 0
    ensures Times([Het(s[i])] + rest, Het(k)) == if (k in s[i..]) != (k in o) then 1 else 0
  {
    TimesCons(Het(s[i]), rest, Hom(k));
    TimesCons(Het(s[i]), rest, Het(k));
  }

  /** A suffix is its head and the rest; the head does not recur. */
  lemma HeadStep(mutations: seq<Mutation>, s: seq<nat>, i: nat, k: nat)
    requires i < |s| && StrictlySorted(mutations, s)
    ensures s[i..] == [s[i]] + s[i + 1..]
    ensures (k in s[i..]) == (k == s[i] || k in s[i + 1..])
    ensures s[i] !in s[i + 1..]
  {
    assert s[i..] == [s[i]] + s[i + 1..];
    forall x | i + 1 <= x < |s| ensures s[x] != s[i] {
      assert Pos(mutations, s[i]) < Pos(mutations, s[x]);
    }
  }

  /** A key of one list strictly before the other's current key is not in the other's rest. */
  lemma BeforeHead(mutations: seq<Mutation>, a: seq<nat>, i: nat, b: seq<nat>, j: nat)
    requires i < |a| && j < |b| && StrictlySorted(mutations, a)
    requires Pos(mutations, b[j]) < Pos(mutations, a[i])
    ensures b[j] !in a[i..]
  {
    forall x | i <= x < |a| ensures a[x] != b[j] {
      if x > i { assert Pos(mutations, a[i]) < Pos(mutations, a[x]); }
    }
  }

  /** Two copies of one genome: every key is a homozygote, in order. */
  lemma {:induction false} SameGenomeAllHom(mutations: seq<Mutation>, a: seq<nat>, i: nat)
    requires i <= |a|
    ensures |Calls(mutations, a, i, a, i)| == |a| - i
    ensures forall k :: 0 <= k < |a| - i ==> Calls(mutations, a, i, a, i)[k] == Hom(a[i + k])
    decreases |a| - i
  {
    if i < |a| {
      SameGenomeAllHom(mutations, a, i + 1);
      var rest := Calls(mutations, a, i + 1, a, i + 1);
      assert Calls(mutations, a, i, a, i) == [Hom(a[i])] + rest;
      forall k | 0 <= k < |a| - i ensures ([Hom(a[i])] + rest)[k] == Hom(a[i + k]) {
        if k > 0 { assert ([Hom(a[i])] + rest)[k] == rest[k - 1]; }
      }
    }
  }

  // ---------------------------------------------------------------------
  // multiplicative_diploid and additive_diploid
  // ---------------------------------------------------------------------

  function MultHom(scaling: real): (real, Mutation) -> real
  {
    (f: real, m: Mutation) => f * (1.0 + scaling * m.s)
  }

  function MultHet(): (real, Mutation) -> real
  {
    (f: real, m: Mutation) => f * (1.0 + m.h * m.s)
  }

  function AddHom(scaling: real): (real, Mutation) -> real
  {
    (f: real, m: Mutation) => f + scaling * m.s
  }

  function AddHet(): (real, Mutation) -> real
  {
    (f: real, m: Mutation) => f + m.h * m.s
  }

  /** The multiplicative model's factor for one call. */
  function Factor(scaling: real, c: Call, m: Mutation): real
  {
    if c.Hom? then 1.0 + scaling * m.s else 1.0 + m.h * m.s
  }

  /** The additive model's term for one call. */
  function Term(scaling: real, c: Call, m: Mutation): real
  {
    if c.Hom? then scaling * m.s else m.h * m.s
  }

  /** f times the multiplicative model's factors, one after the other. */
  function Product(mutations: seq<Mutation>, scaling: real, f: real, calls: seq<Call>): real
    decreases |calls|
  {
    if calls == [] then f
    else Product(mutations, scaling, f * Factor(scaling, calls[0], CallMutation(mutations, calls[0])), calls[1..])
  }

  /** The sum of the additive model's terms. */
  function Sum(mutations: seq<Mutation>, scaling: real, calls: seq<Call>): real
    decreases |calls|
  {
    if calls == [] then 0.0
    else Term(scaling, calls[0], CallMutation(mutations, calls[0])) + Sum(mutations, scaling, calls[1..])
  }

  /** One multiplicative policy call multiplies by its factor. */
  lemma MultStep(scaling: real, f: real, c: Call, m: Mutation)
    ensures (if c.Hom? then MultHom(scaling)(f, m) else MultHet()(f, m)) == f * Factor(scaling, c, m)
  {
  }

  /** The multiplicative policies applied from f multiply f by the factors. */
  lemma {:induction false} MultiplicativeProduct(mutations: seq<Mutation>, scaling: real, f: real, calls: seq<Call>)
    ensures Apply(mutations, MultHom(scaling), MultHet(), f, calls) == Product(mutations, scaling, f, calls)
    decreases |calls|
  {
    if calls != [] {
      var m := CallMutation(mutations, calls[0]);
      MultStep(scaling, f, calls[0], m);
      ApplyHead(mutations, MultHom(scaling), MultHet(), f, calls);
      var g := f * Factor(scaling, calls[0], m);
      MultiplicativeProduct(mutations, scaling, g, calls[1..]);
      assert Product(mutations, scaling, f, calls) == Product(mutations, scaling, g, calls[1..]);
    }
  }

  /** The additive policies applied from f give f plus the sum of the terms. */
  lemma {:induction false} AdditiveSum(mutations: seq<Mutation>, scaling: real, f: real, calls: seq<Call>)
    ensures Apply(mutations, AddHom(scaling), AddHet(), f, calls) == f + Sum(mutations, scaling, calls)
    decreases |calls|
  {
    if calls != [] {
      var m := CallMutation(mutations, calls[0]);
      var c := Term(scaling, calls[0], m);
      ApplyHead(mutations, AddHom(scaling), AddHet(), f, calls);
      var g := if calls[0].Hom? then AddHom(scaling)(f, m) else AddHet()(f, m);
      assert g == f + c;
      AdditiveSum(mutations, scaling, f + c, calls[1..]);
    }
  }

  /**
   * multiplicative_diploid: fitness 1 times 1 + scaling*s for each
   * homozygous and 1 + h*s for each heterozygous selected mutation.
   */
  method MultiplicativeDiploid(mutations: seq<Mutation>, g1: seq<nat>, g2: seq<nat>, scaling: real) returns (w: real)
    requires KeysIn(mutations, g1) && KeysIn(mutations, g2)
    ensures w == Product(mutations, scaling, 1.0, Calls(mutations, g1, 0, g2, 0))
    ensures g1 == [] && g2 == [] ==> w == 1.0
  {
    w := SiteDependentFitness(mutations, g1, g2, MultHom(scaling), MultHet(), 1.0);
    MultiplicativeProduct(mutations, scaling, 1.0, Calls(mutations, g1, 0, g2, 0));
  }

  /**
   * additive_diploid: 1 plus the sum, from 0, of scaling*s for each
   * homozygous and h*s for each heterozygous selected mutation.
   */
  method AdditiveDiploid(mutations: seq<Mutation>, g1: seq<nat>, g2: seq<nat>, scaling: real) returns (w: real)
    requires KeysIn(mutations, g1) && KeysIn(mutations, g2)
    ensures w == 1.0 + Sum(mutations, scaling, Calls(mutations, g1, 0, g2, 0))
    ensures g1 == [] && g2 == [] ==> w == 1.0
  {
    var sum := SiteDependentFitness(mutations, g1, g2, AddHom(scaling), AddHet(), 0.0);
    AdditiveSum(mutations, scaling, 0.0, Calls(mutations, g1, 0, g2, 0));
    w := 1.0 + sum;
  }
}
