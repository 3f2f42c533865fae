// fwdpp/data_matrix.hpp: the public side of the sample matrices.  The
// key lists mutation_keys returns can be sorted by position and filtered;
// genotype_matrix and haplotype_matrix build the matrix of a sample; and
// row_sums and col_sums sum its neutral and its selected half.

module DataMatrix {
  import opened Types
  import opened Sorting
  import opened DataMatrixDetails

  /** The comparator of sort_keys: a key is ordered by its mutation's position. */
  function PosKey(mutations: seq<Mutation>): KeyFreq -> seq<real>
  {
    (k: KeyFreq) => if k.key < |mutations| then [mutations[k.key].pos] else []
  }

  lemma SingletonOrder(a: real, b: real)
    ensures !LexLess([b], [a]) <==> a <= b
  {
    assert [b][1..] == [] && [a][1..] == [];
  }

  /**
   * sort_keys: the same keys, with as many copies of each, in order of
   * increasing mutation position.
   */
  function SortKeys(mutations: seq<Mutation>, keys: seq<KeyFreq>): (r: seq<KeyFreq>)
    requires KeysInRange(mutations, keys)
    ensures |r| == |keys| && multiset(r) == multiset(keys)
    ensures KeysInRange(mutations, r)
    ensures forall i, j :: 0 <= i < j < |r| ==> mutations[r[i].key].pos <= mutations[r[j].key].pos
  {
    SortByCorrect(keys, PosKey(mutations));
    var r := SortBy(keys, PosKey(mutations));
    assert forall i :: 0 <= i < |r| ==> r[i] in multiset(keys);
    assert KeysInRange(mutations, r);
    assert forall i, j :: 0 <= i < j < |r| ==> mutations[r[i].key].pos <= mutations[r[j].key].pos by {
      forall i, j | 0 <= i < j < |r| ensures mutations[r[i].key].pos <= mutations[r[j].key].pos {
        assert !LexLess(PosKey(mutations)(r[j]), PosKey(mutations)(r[i]));
        SingletonOrder(mutations[r[i].key].pos, mutations[r[j].key].pos);
      }
    }
    r
  }

  /**
   * filter_keys (the erase/remove_if idiom): every key f flags is removed
   * with all its copies, every other key keeps all its copies, and the
   * survivors stay in their order.
   */
  function FilterKeys(keys: seq<KeyFreq>, f: KeyFreq -> bool): (r: seq<KeyFreq>)
    ensures forall x :: multiset(r)[x] == if f(x) then 0 else multiset(keys)[x]
    ensures forall x :: x in r <==> x in keys && !f(x)
  {
    var keep := (k: KeyFreq) => !f(k);
    FilterMultiset(keys, keep, f);
    FilterMembers(keys, keep);
    FilterMembers(keys, f);
    var r := Filter(keys, keep);
    assert forall x :: multiset(r)[x] == if f(x) then 0 else multiset(keys)[x] by {
      forall x ensures multiset(r)[x] == if f(x) then 0 else multiset(keys)[x] {
        if f(x) {
          assert x !in r;
        } else {
          assert x !in Filter(keys, f);
        }
      }
    }
    r
  }

  /** Removing with a filter keeps the survivors in their input order. */
  lemma FilterKeysOrder(f: KeyFreq -> bool, a: seq<KeyFreq>, b: seq<KeyFreq>)
    ensures FilterKeys(a + b, f) == FilterKeys(a, f) + FilterKeys(b, f)
  {
    FilterConcat(a, b, (k: KeyFreq) => !f(k));
  }

  /** genotype_matrix: fill_matrix with the genotype encoding. */
  method GenotypeMatrix(pop: SampledPop, individuals: seq<nat>, neutralKeys: seq<KeyFreq>, selectedKeys: seq<KeyFreq>)
    returns (r: Result<DataMatrix>)
    requires FillRequires(pop, individuals, neutralKeys, selectedKeys)
    ensures r == Filled(pop, individuals, neutralKeys, selectedKeys, Genotype)
    ensures r.Ok? ==> r.value.ncol == |individuals|
  {
    FilledRectangularIfOk(pop, individuals, neutralKeys, selectedKeys, Genotype);
    r := FillMatrix(pop, individuals, neutralKeys, selectedKeys, Genotype);
  }

  /** haplotype_matrix: fill_matrix with the haplotype encoding. */
  method HaplotypeMatrix(pop: SampledPop, individuals: seq<nat>, neutralKeys: seq<KeyFreq>, selectedKeys: seq<KeyFreq>)
    returns (r: Result<DataMatrix>)
    requires FillRequires(pop, individuals, neutralKeys, selectedKeys)
    ensures r == Filled(pop, individuals, neutralKeys, selectedKeys, Haplotype)
    ensures r.Ok? ==> r.value.ncol == 2 * |individuals|
  {
    FilledRectangularIfOk(pop, individuals, neutralKeys, selectedKeys, Haplotype);
    r := FillMatrix(pop, individuals, neutralKeys, selectedKeys, Haplotype);
  }

  lemma FilledRectangularIfOk(pop: SampledPop, individuals: seq<nat>, neutralKeys: seq<KeyFreq>, selectedKeys: seq<KeyFreq>, mtype: MatrixType)
    requires FillRequires(pop, individuals, neutralKeys, selectedKeys)
    ensures Filled(pop, individuals, neutralKeys, selectedKeys, mtype).Ok? ==>
      Filled(pop, individuals, neutralKeys, selectedKeys, mtype).value.ncol == Cols(mtype, |individuals|)
  {
    if Filled(pop, individuals, neutralKeys, selectedKeys, mtype).Ok? {
      FilledRectangular(pop, individuals, neutralKeys, selectedKeys, mtype);
    }
  }

  /** Both halves of a matrix hold one row of ncol entries per position. */
  predicate WellFormed(m: DataMatrix)
  {
    Rectangular(m.neutral, m.ncol) && Rectangular(m.selected, m.ncol)
  }

  /** row_sums: the neutral half's row sums, then the selected half's. */
  method RowSums(m: DataMatrix) returns (neutral: seq<nat>, selected: seq<nat>)
    requires WellFormed(m)
    ensures neutral == LineSums(m.neutral.data, |m.neutral.positions|, m.ncol, true)
    ensures selected == LineSums(m.selected.data, |m.selected.positions|, m.ncol, true)
  {
    neutral := RowColSums(m.neutral.data, |m.neutral.positions|, m.ncol, true);
    selected := RowColSums(m.selected.data, |m.selected.positions|, m.ncol, true);
  }

  /** col_sums: the neutral half's column sums, then the selected half's. */
  method ColSums(m: DataMatrix) returns (neutral: seq<nat>, selected: seq<nat>)
    requires WellFormed(m)
    ensures neutral == LineSums(m.neutral.data, |m.neutral.positions|, m.ncol, false)
    ensures selected == LineSums(m.selected.data, |m.selected.positions|, m.ncol, false)
  {
    neutral := RowColSums(m.neutral.data, |m.neutral.positions|, m.ncol, false);
    selected := RowColSums(m.selected.data, |m.selected.positions|, m.ncol, false);
  }

  /**
   * The row sums of a single-locus sample's matrix count, for each neutral
   * key, the sampled genomes carrying it (in 32-bit arithmetic), whichever
   * encoding the matrix uses.
   */
  lemma RowSumsCountCarriers(pop: SampledPop, individuals: seq<nat>, neutralKeys: seq<KeyFreq>, selectedKeys: seq<KeyFreq>,
                             mtype: MatrixType, r: nat)
    requires pop.SingleLocus? && FillRequires(pop, individuals, neutralKeys, selectedKeys)
    requires individuals != [] && r < |neutralKeys|
    ensures var m := Filled(pop, individuals, neutralKeys, selectedKeys, mtype).value;
      WellFormed(m) && |LineSums(m.neutral.data, |m.neutral.positions|, m.ncol, true)| == |neutralKeys| &&
      LineSums(m.neutral.data, |m.neutral.positions|, m.ncol, true)[r] ==
        Carriers(pop.gametes, Sampled(pop.diploids, individuals), neutralKeys[r].key, true) % UINT_MODULUS
  {
    var pairs := Sampled(pop.diploids, individuals);
    var m := Filled(pop, individuals, neutralKeys, selectedKeys, mtype).value;
    FilledRectangular(pop, individuals, neutralKeys, selectedKeys, mtype);
    FilledRowSum(pop.gametes, pairs, neutralKeys, true, mtype, r);
    var w := Cols(mtype, |pairs|);
    RowsLength(pop.gametes, pairs, neutralKeys, true, mtype);
    assert |m.neutral.data| == |neutralKeys| * w;
    CellInRange(0, 0, |neutralKeys|, w);
  }
}
