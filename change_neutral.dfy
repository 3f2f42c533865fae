// fwdpp/sugar/change_neutral.hpp: toggling a mutation's neutrality flag.
// The key of the mutation moves, in every extant haploid genome that holds
// it, from the container for its old class (neutral or selected) to the
// other one, at the place that keeps that container ordered by position.

module ChangeNeutral {
  import opened Types
  import opened Keys

  /**
   * change_neutral_details: when mindex occurs in a, its first occurrence is
   * erased and mindex is inserted into b at the upper bound of pos.
   */
  function MoveKey(mutations: seq<Mutation>, pos: real, mindex: nat, a: seq<nat>, b: seq<nat>): (r: (seq<nat>, seq<nat>))
    requires KeysIn(mutations, b)
    ensures mindex !in a ==> r == (a, b)
    ensures mindex in a ==> multiset(r.0) == multiset(a) - multiset{mindex}
    ensures mindex in a ==> multiset(r.1) == multiset(b) + multiset{mindex}
  {
    var i := FindKey(a, mindex);
    if i == |a| then (a, b)
    else
      var k := KeyUpperBound(mutations, b, pos);
      RemoveAt(a, i);
      assert b == b[..k] + b[k..];
      (a[..i] + a[i + 1..], b[..k] + [mindex] + b[k..])
  }

  /** Only positions are read: toggling a flag does not change where a key moves. */
  lemma MoveKeyToggled(mutations: seq<Mutation>, mindex: nat, a: seq<nat>, b: seq<nat>)
    requires mindex < |mutations| && KeysIn(mutations, b)
    ensures var pos := mutations[mindex].pos;
      MoveKey(Toggled(mutations, mindex), pos, mindex, a, b) == MoveKey(mutations, pos, mindex, a, b)
  {
    KeyUpperBoundSamePositions(mutations, Toggled(mutations, mindex), b, mutations[mindex].pos);
  }

  /** Both containers stay ordered by position when the key moves by its own position. */
  lemma MoveKeySorted(mutations: seq<Mutation>, mindex: nat, a: seq<nat>, b: seq<nat>)
    requires mindex < |mutations| && KeysSorted(mutations, a) && KeysSorted(mutations, b)
    ensures var r := MoveKey(mutations, mutations[mindex].pos, mindex, a, b);
      KeysSorted(mutations, r.0) && KeysSorted(mutations, r.1)
  {
    var i := FindKey(a, mindex);
    if i < |a| {
      RemoveKeySorted(mutations, a, i);
      InsertKeySorted(mutations, b, mindex);
    }
  }

  /** One genome after the change: extinct genomes are skipped; wasNeutral picks the direction. */
  function ChangedGamete(mutations: seq<Mutation>, mindex: nat, wasNeutral: bool, g: Gamete): (r: Gamete)
    requires mindex < |mutations| && GameteKeysIn(mutations, g)
    ensures r.n == g.n
    ensures g.n == 0 ==> r == g
    ensures multiset(r.mutations) + multiset(r.smutations) == multiset(g.mutations) + multiset(g.smutations)
    ensures g.n > 0 && wasNeutral && mindex in g.mutations ==> mindex in r.smutations
    ensures g.n > 0 && !wasNeutral && mindex in g.smutations ==> mindex in r.mutations
    ensures wasNeutral && mindex !in g.mutations ==> r == g
    ensures !wasNeutral && mindex !in g.smutations ==> r == g
  {
    var pos := mutations[mindex].pos;
    if g.n == 0 then g
    else if wasNeutral then
      var m := MoveKey(mutations, pos, mindex, g.mutations, g.smutations);
      g.(mutations := m.0, smutations := m.1)
    else
      var m := MoveKey(mutations, pos, mindex, g.smutations, g.mutations);
      g.(smutations := m.0, mutations := m.1)
  }

  /** The flag toggled, nothing else about the mutation changed. */
  function Toggled(mutations: seq<Mutation>, mindex: nat): (r: seq<Mutation>)
    requires mindex < |mutations|
    ensures |r| == |mutations| && r[mindex].neutral == !mutations[mindex].neutral
    ensures r[mindex] == mutations[mindex].(neutral := r[mindex].neutral)
    ensures forall i :: 0 <= i < |mutations| && i != mindex ==> r[i] == mutations[i]
  {
    mutations[mindex := mutations[mindex].(neutral := !mutations[mindex].neutral)]
  }

  /**
   * change_neutral: out_of_range for a bad key; otherwise the flag is
   * toggled and every extant genome is updated in turn.
   */
  method ChangeNeutral(mutations: seq<Mutation>, gametes: seq<Gamete>, mindex: nat)
    returns (r: Outcome, mutations2: seq<Mutation>, gametes2: seq<Gamete>)
    requires mindex < |mutations| ==> forall i :: 0 <= i < |gametes| ==> GameteKeysIn(mutations, gametes[i])
    ensures mindex >= |mutations| ==> r == Fail(OutOfRange) && mutations2 == mutations && gametes2 == gametes
    ensures mindex < |mutations| ==> r == Done && mutations2 == Toggled(mutations, mindex)
    ensures mindex < |mutations| ==> |gametes2| == |gametes| && forall i :: 0 <= i < |gametes| ==>
      gametes2[i] == ChangedGamete(mutations, mindex, mutations[mindex].neutral, gametes[i])
  {
    if mindex >= |mutations| {
      return Fail(OutOfRange), mutations, gametes;
    }
    var isNeutral := mutations[mindex].neutral;
    mutations2 := Toggled(mutations, mindex);
    var pos := mutations2[mindex].pos;
    gametes2 := gametes;
    var i := 0;
    while i < |gametes2|
      invariant 0 <= i <= |gametes2| == |gametes|
      invariant forall j :: 0 <= j < i ==> gametes2[j] == ChangedGamete(mutations, mindex, isNeutral, gametes[j])
      invariant forall j :: i <= j < |gametes| ==> gametes2[j] == gametes[j]
    {
      var g := gametes2[i];
      if g.n > 0 {
        if isNeutral {
          MoveKeyToggled(mutations, mindex, g.mutations, g.smutations);
          var m := MoveKey(mutations2, pos, mindex, g.mutations, g.smutations);
          g := g.(mutations := m.0, smutations := m.1);
        } else {
          MoveKeyToggled(mutations, mindex, g.smutations, g.mutations);
          var m := MoveKey(mutations2, pos, mindex, g.smutations, g.mutations);
          g := g.(smutations := m.0, mutations := m.1);
        }
        gametes2 := gametes2[i := g];
      }
      i := i + 1;
    }
    r := Done;
  }

  /**
   * The state the library checks after each genome: both containers ordered
   * by position, neutral keys in the first and selected keys in the second.
   */
  predicate Sane(mutations: seq<Mutation>, g: Gamete)
  {
    KeysSorted(mutations, g.mutations) && KeysSorted(mutations, g.smutations)
    && (forall k :: k in g.mutations ==> mutations[k].neutral)
    && (forall k :: k in g.smutations ==> !mutations[k].neutral)
  }

  /** Moving the key out of the container of its old class files every key under its current class. */
  lemma MoveKeyClasses(mutations: seq<Mutation>, mindex: nat, a: seq<nat>, b: seq<nat>)
    requires mindex < |mutations| && KeysIn(mutations, a) && KeysIn(mutations, b)
    requires var cls := mutations[mindex].neutral;
      (forall k :: k in a ==> mutations[k].neutral == cls) && (forall k :: k in b ==> mutations[k].neutral != cls)
    requires multiset(a)[mindex] <= 1
    ensures var cls, m2, r := mutations[mindex].neutral, Toggled(mutations, mindex), MoveKey(mutations, mutations[mindex].pos, mindex, a, b);
      (forall k :: k in r.0 ==> k < |m2| && m2[k].neutral == cls) && (forall k :: k in r.1 ==> k < |m2| && m2[k].neutral != cls)
  {
    var cls, m2, r := mutations[mindex].neutral, Toggled(mutations, mindex), MoveKey(mutations, mutations[mindex].pos, mindex, a, b);
    forall k | k in r.0 ensures k < |m2| && m2[k].neutral == cls {
      assert k in multiset(r.0);
      assert k in a;
    }
    forall k | k in r.1 ensures k < |m2| && m2[k].neutral != cls {
      assert k in multiset(r.1);
    }
  }

  /**
   * A sane extant genome holding the key at most once stays sane: the moved
   * key is filed under its new class, every other key under its unchanged
   * class.
   */
  lemma ChangeNeutralSane(mutations: seq<Mutation>, mindex: nat, g: Gamete)
    requires mindex < |mutations| && g.n > 0 && Sane(mutations, g)
    requires multiset(g.mutations)[mindex] + multiset(g.smutations)[mindex] <= 1
    ensures Sane(Toggled(mutations, mindex), ChangedGamete(mutations, mindex, mutations[mindex].neutral, g))
  {
    var m2 := Toggled(mutations, mindex);
    var r := ChangedGamete(mutations, mindex, mutations[mindex].neutral, g);
    if mutations[mindex].neutral {
      MoveKeySorted(mutations, mindex, g.mutations, g.smutations);
      MoveKeyClasses(mutations, mindex, g.mutations, g.smutations);
    } else {
      MoveKeySorted(mutations, mindex, g.smutations, g.mutations);
      MoveKeyClasses(mutations, mindex, g.smutations, g.mutations);
    }
    SamePositionsSorted(mutations, m2, r.mutations);
    SamePositionsSorted(mutations, m2, r.smutations);
  }
}
