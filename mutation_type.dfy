// fwdpp/types/mutation.hpp: the standard mutation type, the infinitely-many-
// sites mutation function and the mutation serializer.  mutation_base
// (fwdpp/forward_types.hpp) is not part of this model; its is_equal is taken
// to compare position, neutrality flag and xtra, the fields it declares.

module MutationType {
  import opened Types
  import opened Scalars
  import SimRecycling

  /** The constructor: neutrality is derived from the selection coefficient. */
  function NewMutation(pos: real, s: real, h: real, g: nat, x: nat): (m: Mutation)
    ensures m.pos == pos && m.s == s && m.h == h && m.g == g && m.xtra == x
    ensures m.neutral <==> s == 0.0
  {
    Mutation(pos, s, h, g, x, s == 0.0)
  }

  /** operator==: g, s and h, then the base fields. */
  function MutationEquals(a: Mutation, b: Mutation): (r: bool)
    ensures r <==> a == b
  {
    a.g == b.g && a.s == b.s && a.h == b.h && a.pos == b.pos && a.neutral == b.neutral && a.xtra == b.xtra
  }

  /** Some entry of the lookup records position pos (lookup.find(pos) != lookup.end()). */
  predicate HasPosition(lookup: multiset<LookupEntry>, pos: real)
  {
    exists e :: e in lookup && e.pos == pos
  }

  /**
   * infsites_mutation.  The position function's successive results are the
   * sequence draws; the uniform draw against pselected, the effect size and
   * the dominance are the parameters selected, esize and dominance.  The
   * first draw not in the lookup is taken, the mutation is put in a
   * recycled or new slot, and (pos, index) is recorded in the lookup.
   */
  method InfsitesMutation(queue: seq<nat>, mutations: seq<Mutation>, lookup: multiset<LookupEntry>,
                          generation: nat, draws: seq<real>, selected: bool, esize: real, dominance: real, x: nat)
    returns (queue2: seq<nat>, mutations2: seq<Mutation>, lookup2: multiset<LookupEntry>, idx: nat, used: nat)
    requires exists k :: 0 <= k < |draws| && !HasPosition(lookup, draws[k])
    requires queue != [] ==> queue[0] < |mutations|
    ensures used < |draws| && !HasPosition(lookup, draws[used])
    ensures forall k :: 0 <= k < used ==> HasPosition(lookup, draws[k])
    ensures idx < |mutations2|
    ensures mutations2[idx] == NewMutation(draws[used], if selected then esize else 0.0, if selected then dominance else 0.0, generation, x)
    ensures !selected ==> mutations2[idx].neutral && mutations2[idx].h == 0.0
    ensures lookup2 == lookup + multiset{LookupEntry(draws[used], idx)}
    ensures queue != [] ==> idx == queue[0] && queue2 == queue[1..] && |mutations2| == |mutations|
    ensures queue == [] ==> queue2 == [] && idx == |mutations| && |mutations2| == |mutations| + 1
    ensures forall i :: 0 <= i < |mutations| && i != idx ==> mutations2[i] == mutations[i]
  {
    ghost var free :| 0 <= free < |draws| && !HasPosition(lookup, draws[free]);
    used := 0;
    while HasPosition(lookup, draws[used])
      invariant used <= free
      invariant forall k :: 0 <= k < used ==> HasPosition(lookup, draws[k])
      decreases free - used
    {
      used := used + 1;
    }
    var m := NewMutation(draws[used], if selected then esize else 0.0, if selected then dominance else 0.0, generation, x);
    queue2, mutations2, idx := SimRecycling.RecycleMutationHelper(queue, mutations, m);
    lookup2 := lookup + multiset{LookupEntry(draws[used], idx)};
  }

  /** serialize_mutation: g, pos, s, h, xtra. */
  function MutationWords(m: Mutation): seq<Scalar>
  {
    [U32(m.g), F64(m.pos), F64(m.s), F64(m.h), U16(m.xtra)]
  }

  /** deserialize_mutation: the same order, then the constructor, which rederives the neutral flag. */
  function ReadMutation(ws: seq<Scalar>, p: nat): Read<Mutation>
  {
    match ReadU32(ws, p)
    case Short => Short
    case Got(g, p1) =>
      match ReadF64(ws, p1)
      case Short => Short
      case Got(pos, p2) =>
        match ReadF64(ws, p2)
        case Short => Short
        case Got(s, p3) =>
          match ReadF64(ws, p3)
          case Short => Short
          case Got(h, p4) =>
            match ReadU16(ws, p4)
            case Short => Short
            case Got(xtra, p5) => Got(NewMutation(pos, s, h, g, xtra), p5)
  }

  /** Reading a written mutation gives back every field but the flag, which becomes s == 0. */
  lemma MutationRead(ws: seq<Scalar>, q: nat, m: Mutation)
    requires At(ws, q, MutationWords(m))
    ensures ReadMutation(ws, q) == Got(NewMutation(m.pos, m.s, m.h, m.g, m.xtra), q + 5)
  {
    var w := MutationWords(m);
    assert ws[q..q + 5] == w;
    assert ws[q] == w[0] && ws[q + 1] == w[1] && ws[q + 2] == w[2] && ws[q + 3] == w[3] && ws[q + 4] == w[4];
  }

  /** The serializer round-trips a mutation exactly when its flag agrees with its selection coefficient. */
  lemma MutationRoundTrip(m: Mutation)
    ensures Decodes(MutationWords, ReadMutation, m) <==> (m.neutral <==> m.s == 0.0)
  {
    var ws := MutationWords(m);
    assert At(ws, 0, MutationWords(m));
    MutationRead(ws, 0, m);
    if m.neutral <==> m.s == 0.0 {
      forall ws', q: nat | At(ws', q, MutationWords(m))
        ensures ReadMutation(ws', q) == Got(m, q + |MutationWords(m)|)
      {
        MutationRead(ws', q, m);
      }
    }
  }
}
