# fwdpp core, modelled in Dafny

This project models the deterministic bookkeeping of fwdpp, a C++ header
library for forward-time population-genetic simulation, and proves
properties of that model. One Dafny module follows each modelled header:

- tree-sequence recording: the node, edge, site and mutation tables, their
  sort orders, the input/output edge indexes and count_trees; the nested
  forward lists and the edge buffer that hold births between
  simplifications; the edges of a diploid offspring's two genomes;
- simplification: segments, the segment overlapper, the ancestry and edge
  buffers, node remapping, the mutation and site simplification and both
  simplify_tables drivers (sorted and buffered);
- marginal trees: the tree arrays and their constructors, the leaf-count
  and sample-list policies, the tree visitor's sweeps, the child and root
  iterators and the variant filler;
- mutation and genome bookkeeping: recycling queues (classic and
  tree-sequence), fixation handling, genome cleaning, compact_mutations,
  change_neutral, add_mutation(s), mutate_recombine and
  generate_offspring;
- demography (copy, merge, remove, swap, and the split/admix checks) and its
  sugar wrappers;
- samples and matrices: "0/1" sample blocks, the ms-style sampler and
  finish_sample, genotype and haplotype matrices with their row and column
  sums, and the site-frequency spectrum;
- fitness: the two-list merge of site_dependent_fitness and the
  multiplicative and additive models;
- serialization of scalars, genomes, mutations and whole populations, with
  round-trip lemmas, and the checks popbase makes on population input;
- the remove_lost/remove_fixed_lost/update_gamete_list utilities and the
  argument validators.

Every C++ `throw` is an `Err`/`Fail` value of a `Result`/`Outcome` datatype
in module `Types`, which also holds the shared sequence helpers (`Filter`,
`Map`, `FlatMap`, counting, permutations). Genomic positions and times are
`real`; `std::size_t` limits and the `int32` index type are explicit
constants (`SIZE_MAX`, `INT32_MAX`, `NULL == -1`). Each C++ `std::sort` is
modelled by one insertion sort (module `Sorting`), whose result is proved
sorted and a permutation of its input.

## Model

| member | source | states |
|---|---|---|
| NestedForwardLists.CheckIndex | fwdpp/types/nested_forward_lists.hpp:55-71 | a null index is invalid_argument, an index whose size_t cast is not below the size is out_of_range, otherwise the index is accepted |
| NestedForwardLists.NestedForwardLists.Head | fwdpp/types/nested_forward_lists.hpp:100-106 | head(at) is the first element index of list at, or null for an empty list; the checks of CheckIndex decide the errors |
| NestedForwardLists.NestedForwardLists.Tail | fwdpp/types/nested_forward_lists.hpp:92-98 | tail(at) is the last element index of list at, or null for an empty list; a null index throws invalid_argument and any other index outside the head vector throws out_of_range |
| NestedForwardLists.NestedForwardLists.Next | fwdpp/types/nested_forward_lists.hpp:108-114 | next(at) gives the following element of at's list, or null at the end; a null index throws invalid_argument and any other index outside the data vector throws out_of_range |
| NestedForwardLists.NestedForwardLists.Fetch | fwdpp/types/nested_forward_lists.hpp:160-167 | fetch(at) gives the stored datum; a null index throws invalid_argument and any other index outside the data vector throws out_of_range |
| NestedForwardLists.NestedForwardLists.Extend | fwdpp/types/nested_forward_lists.hpp:119-149 | extend rejects a null index and a full store, resizes the heads and tails when at is past them, appends the datum, makes it the new tail of list at (and its head when the list was empty), links the old tail to it, and changes no other list |
| NestedForwardLists.NestedForwardLists.InsertNewRecord | fwdpp/types/nested_forward_lists.hpp:45-52 | a first element of an empty list becomes both its head and tail with a null next |
| NestedForwardLists.NestedForwardLists.AppendRecord | fwdpp/types/nested_forward_lists.hpp:140-148 | appending to a non-empty list links the old tail's next to the new element, which becomes the tail; heads do not change |
| NestedForwardLists.NestedForwardLists.NullifyList | fwdpp/types/nested_forward_lists.hpp:177-186 | nullify_list checks the index and then sets only that list's head and tail to null; data and next are kept |
| NestedForwardLists.NestedForwardLists.Reset | fwdpp/types/nested_forward_lists.hpp:188-196 | reset(n) empties the data and leaves n null heads and tails, so n empty lists |
| NestedForwardLists.NestedForwardLists.Clear | fwdpp/types/nested_forward_lists.hpp:198-205 | clear empties data, heads, tails and next |
| NestedForwardLists.NestedForwardLists.Elements | fwdpp/types/nested_forward_lists.hpp:93-114 | walking head then next from list at yields exactly that list's data in insertion order |
| NestedForwardLists.WalkFromHead | fwdpp/types/nested_forward_lists.hpp:93-114 | following next from head(i) visits exactly the elements recorded for list i, in order |
| NestedForwardLists.ListLength | fwdpp/types/nested_forward_lists.hpp:119-149 | no list is longer than the data store |
| Types.ToInt32 | fwdpp/ts/recording/edge_buffer.hpp:185-186 | the int32 cast of a size_t index, wrapping modulo 2^32 into [-2^31, 2^31), the identity on indexes that fit |
| Types.ToSizeT | fwdpp/ts/recording/diploid_offspring.hpp:118 | the conversion of the returned int32 node index to std::size_t, modulo 2^64, the identity on non-negative values |
| EdgeBuffer.CopyBirthsSinceLastSimplification | fwdpp/ts/recording/edge_buffer.hpp:168-214 | copy_births walks the parents from the last down, copies the births of the buffered parents newer than max_time, stops at the first older buffered parent, and throws on a negative or too large int32 parent |
| EdgeBuffer.CopiedParentsNewer | fwdpp/ts/recording/edge_buffer.hpp:195-210 | every copied edge has a buffered parent newer than max_time |
| EdgeBuffer.CopyStopsAtOlderParent | fwdpp/ts/recording/edge_buffer.hpp:205-209 | no parent at or below the first buffered parent older than max_time contributes an edge |
| EdgeBuffer.CopyErrors | fwdpp/ts/recording/edge_buffer.hpp:185-192 | copying fails only with a runtime or overflow error, and only for a parent index that does not fit an int32 |
| EdgeBuffer.Buffered | fwdpp/ts/recording/edge_buffer.hpp:57-63 | the alive ids kept are exactly those with a non-empty buffered list, in their order |
| EdgeBuffer.FirstBadIndex | fwdpp/ts/recording/edge_buffer.hpp:57-63 | head() on the alive ids fails exactly when some id is null or out of range, with the first offender's error |
| EdgeBuffer.FirstIndex | fwdpp/ts/recording/edge_buffer.hpp:70-86 | starts[p] is the index of p's first edge, or max size_t when p has none |
| EdgeBuffer.LastIndex | fwdpp/ts/recording/edge_buffer.hpp:70-86 | stops[p] is the index of p's last edge, or max size_t when p has none |
| EdgeBuffer.EdgeRanges | fwdpp/ts/recording/edge_buffer.hpp:70-86 | the scan over the edge table fills starts and stops with every parent's first and last edge index |
| EdgeBuffer.AliveWithNewEdges | fwdpp/ts/recording/edge_buffer.hpp:56-63 | the first loop keeps the alive ids with buffered births, in order, and throws the first invalid id's error |
| EdgeBuffer.SortedLocations | fwdpp/ts/recording/edge_buffer.hpp:88-102 | the locations are one per kept parent, with its true start and stop, sorted by non-increasing parent time and then by start |
| EdgeBuffer.TimesNeverIncrease | fwdpp/ts/recording/edge_buffer.hpp:105-114 | on locations sorted by the comparison, each parent's birth time is at least the next one's, so the check loop never throws runtime_error |
| EdgeBuffer.FindPreExistingEdges | fwdpp/ts/recording/edge_buffer.hpp:47-117 | find_pre_existing_edges fails exactly as head() does on the alive ids, returns nothing when no alive node has buffered births, and otherwise returns each kept parent's location in time order; its runtime_error check never fires |
| EdgeBuffer.LocationsDistinct | fwdpp/ts/recording/edge_buffer.hpp:88-92 | distinct alive ids give locations of distinct parents |
| EdgeBuffer.HandleFrom | fwdpp/ts/recording/edge_buffer.hpp:119-166 | handle_pre_existing_edges never changes the edges already in the liftover and keeps its offset within the edge table |
| EdgeBuffer.HandlePreExistingEdges | fwdpp/ts/recording/edge_buffer.hpp:119-166 | the loop over the locations computes HandleFrom: old edges newer than each parent, that parent's old edges, then its births |
| EdgeBuffer.OldEdgesAreSlice | fwdpp/ts/recording/edge_buffer.hpp:140-158 | the old edges taken for one location are exactly the slice of the edge table from the offset to the new offset |
| EdgeBuffer.HandleConserves | fwdpp/ts/recording/edge_buffer.hpp:119-166 | on a sorted edge table the liftover ends up with its old content, the old edges before the returned offset and every location's births, as a multiset |
| EdgeBuffer.AppendRemaining | fwdpp/ts/recording/edge_buffer.hpp:229-232 | the old edges from the returned offset on are appended to the liftover in order |
| EdgeBuffer.StitchConserves | fwdpp/ts/recording/edge_buffer.hpp:216-238 | stitching keeps every old edge, adds the copied births and the buffered births of every alive parent, and adds nothing else |
| EdgeBuffer.StitchedEdges | fwdpp/ts/recording/edge_buffer.hpp:216-232 | the new edge table starts with the copied births and is, as a multiset, the old edges plus all buffered births; the errors are copy_births' then find_pre_existing_edges' |
| EdgeBuffer.StitchTogetherEdges | fwdpp/ts/recording/edge_buffer.hpp:216-238 | stitch_together_edges replaces the edge table by the stitched edges and resets the buffer to one empty list per node; an error changes nothing |
| TableCollection.CheckMaxpos | fwdpp/ts/types/table_collection.hpp:77-96 | a genome length is accepted exactly when it is finite and positive, else invalid_argument |
| TableCollection.TableCollection.WithNodes | fwdpp/ts/types/table_collection.hpp:87-101 | the n-node constructor appends n nodes with the given pop and time and no other rows |
| TableCollection.TableCollection.Clear | fwdpp/ts/types/table_collection.hpp:103-111 | clear empties nodes, edges, mutations and sites and keeps the rest |
| TableCollection.TableCollection.PushBackNode | fwdpp/ts/types/table_collection.hpp:113-118 | push_back_node appends the node and returns the new size less one cast to the 32-bit id type: the new node's index while it fits, wrapped modulo 2^32 beyond |
| TableCollection.TableCollection.PushBackEdge | fwdpp/ts/types/table_collection.hpp:128-133 | push_back_edge appends the edge and returns the new size |
| TableCollection.TableCollection.PushBackSite | fwdpp/ts/types/table_collection.hpp:143-149 | push_back_site appends the site and returns its index |
| TableCollection.TableCollection.PushBackMutation | fwdpp/ts/types/table_collection.hpp:159-165 | push_back_mutation appends the mutation and returns its index |
| TableCollection.InputOrder | fwdpp/ts/types/table_collection.hpp:180-194 | input_left is a permutation of the edge indexes ordered by left, then by parent time descending |
| TableCollection.OutputOrder | fwdpp/ts/types/table_collection.hpp:195-203 | output_right is a permutation of the edge indexes ordered by right, then by parent time ascending |
| TableCollection.TableCollection.BuildIndexes | fwdpp/ts/types/table_collection.hpp:176-204 | build_indexes sets both indexes to those orders and changes no table |
| TableCollection.NewTableCollection | fwdpp/ts/types/table_collection.hpp:87-101 | the constructor throws invalid_argument for a non-positive or non-finite maxpos and otherwise builds the n-node tables |
| TableCollectionFunctions.EdgeLessIsKeyLess | fwdpp/ts/table_collection_functions.hpp:14-39 | edge order is parent time descending, then parent, child and left, a lexicographic order on a key |
| TableCollectionFunctions.SortedEdges | fwdpp/ts/table_collection_functions.hpp:54-69 | the edges from offset on come first, sorted, then the first offset edges in their old order, and nothing is lost |
| TableCollectionFunctions.SortEdgeTable | fwdpp/ts/table_collection_functions.hpp:54-69 | sort_edge_table throws out_of_range unless 0 <= offset < size, an empty table included, and otherwise sorts and rotates the edges |
| TableCollectionFunctions.SortedMutations | fwdpp/ts/table_collection_functions.hpp:94-104 | the mutations are permuted into non-decreasing site position |
| TableCollectionFunctions.RebuildSiteTable | fwdpp/ts/table_collection_functions.hpp:106-135 | rebuild_site_table keeps each mutation's fields and position, renumbers the sites so that consecutive sites differ in position, every site is used, site ids do not decrease along the mutations, and its tables_error never fires |
| TableCollectionFunctions.RebuiltKeepsPositions | fwdpp/ts/table_collection_functions.hpp:106-135 | every rebuilt mutation sits at the position its old site had |
| TableCollectionFunctions.RebuiltNeighboursDiffer | fwdpp/ts/table_collection_functions.hpp:108-117 | a site is appended only when its position differs from the last site's |
| TableCollectionFunctions.SortTablesForSimplification | fwdpp/ts/table_collection_functions.hpp:149-164 | a negative offset skips the edge sort; the mutation table is always sorted |
| TableCollectionFunctions.SortTables | fwdpp/ts/table_collection_functions.hpp:166-173 | sort_tables sorts the edges from offset and then sorts the mutations and rebuilds the sites |
| TableCollectionFunctions.BuiltIndexesSorted | fwdpp/ts/types/table_collection.hpp:176-204 | the built indexes are sorted by left and by right |
| TableCollectionFunctions.NextTree | fwdpp/ts/table_collection_functions.hpp:197-220 | one pass of the loop skips exactly the edges leaving and entering at tree_left and finds the next breakpoint or L |
| TableCollectionFunctions.CountTrees | fwdpp/ts/table_collection_functions.hpp:175-222 | count_trees throws tables_error on unindexed tables and otherwise returns the number of distinct breakpoints in [0, L), at least 1 |
| Sorting.SortByCorrect | fwdpp/ts/table_collection_functions.hpp:62-67 | the sort used for std::sort returns a sorted permutation of its input |
| Keys.FindKey | fwdpp/sugar/change_neutral.hpp:34 | std::find gives the first position holding the key, or the end when no position does |
| ChangeNeutral.MoveKey | fwdpp/sugar/change_neutral.hpp:18-50 | a genome without the key is unchanged; otherwise one copy of the key leaves the first container and one copy enters the second |
| ChangeNeutral.MoveKeySorted | fwdpp/sugar/change_neutral.hpp:42-49 | inserting at the upper bound of the key's own position keeps the destination position-sorted, and erasing keeps the source sorted |
| ChangeNeutral.MoveKeyToggled | fwdpp/sugar/change_neutral.hpp:83-87 | the insertion point read after the flag is toggled is the one read before it, as only positions are compared |
| ChangeNeutral.ChangedGamete | fwdpp/sugar/change_neutral.hpp:89-107 | extinct genomes and genomes without the key are unchanged; an extant carrier gets the key in the other container; the count and the key multiset of the genome are kept |
| ChangeNeutral.Toggled | fwdpp/sugar/change_neutral.hpp:83-86 | only the neutral flag of mutation mindex changes, and it is negated |
| ChangeNeutral.ChangeNeutral | fwdpp/sugar/change_neutral.hpp:53-108 | change_neutral throws out_of_range for mindex >= mutations.size() and changes nothing; otherwise the flag is toggled and every genome is updated as ChangedGamete says |
| ChangeNeutral.MoveKeyClasses | fwdpp/sugar/change_neutral.hpp:89-107 | after the move every key sits in the container of its current class |
| ChangeNeutral.ChangeNeutralSane | fwdpp/sugar/change_neutral.hpp:105 | an extant genome that was sorted and classified, holding the key at most once, is still sorted and classified afterwards (the condition the source asserts) |
| CompactMutations.NewOrder | fwdpp/algorithm/compact_mutations.hpp:30-40 | the new order is a permutation of 0..n-1 |
| CompactMutations.NewOrderPermutation | fwdpp/algorithm/compact_mutations.hpp:30-40 | the new order holds every old index exactly once |
| CompactMutations.NewOrderInUseSorted | fwdpp/algorithm/compact_mutations.hpp:37-40 | the indexes with nonzero count come first, sorted by position |
| CompactMutations.NewOrderInUseFirst | fwdpp/algorithm/compact_mutations.hpp:33-35 | an entry of the new order has a nonzero count exactly when it lies in the leading block |
| CompactMutations.NewOrderRestAscending | fwdpp/algorithm/compact_mutations.hpp:33-35 | the zero-count indexes follow in their original order (the partition is stable) |
| CompactMutations.Reindex | fwdpp/algorithm/compact_mutations.hpp:41-47 | reindex maps each counted old index to its new index and leaves every other entry 0 |
| CompactMutations.ReindexInUse | fwdpp/algorithm/compact_mutations.hpp:41-47 | for each counted mutation i, the new order at reindex[i] is i; zero-count mutations get 0 |
| CompactMutations.RewriteKeys | fwdpp/algorithm/compact_mutations.hpp:52-59 | every key is replaced by reindex of it |
| CompactMutations.RekeyGametes | fwdpp/algorithm/compact_mutations.hpp:48-61 | the keys of every extant genome are rewritten through reindex; genomes with n == 0 are untouched |
| CompactMutations.Reordered | fwdpp/algorithm/compact_mutations.hpp:66-69 | element t of the reordered vector is the old element at the new order's position t |
| CompactMutations.Reorder | fwdpp/algorithm/compact_mutations.hpp:62-87 | the mutations and counts come out in the new order and the lookup is repointed step by step |
| CompactMutations.CompactMutations | fwdpp/algorithm/compact_mutations.hpp:11-89 | compact_mutations permutes mutations and counts in step, rewrites the extant genomes, repoints the lookup and returns reindex, which sends every counted mutation to its slot in the new vector |
| CompactMutations.CompactedLayout | fwdpp/algorithm/compact_mutations.hpp:30-40 | after compaction the counted mutations come first, in non-decreasing position, and the zero-count ones follow in their old relative order |
| CompactMutations.LookupOfIndexes | fwdpp/io/detail/serialize_population.hpp:77-82 | a consistent lookup holds exactly the entries of the counted indexes |
| CompactMutations.LookupRepointedSplit | fwdpp/algorithm/compact_mutations.hpp:66-85 | after t steps the lookup holds the new entries of the first t slots and the old entries of the mutations still to move |
| CompactMutations.RepointedStep | fwdpp/algorithm/compact_mutations.hpp:70-84 | one step repoints the moved counted mutation's entry to its new index and leaves the rest |
| CompactMutations.CompactedLookup | fwdpp/algorithm/compact_mutations.hpp:70-84 | a lookup consistent with the counts before compaction is consistent with the compacted mutations and counts afterwards |
| CompactMutations.RekeyedContainer | fwdpp/algorithm/compact_mutations.hpp:52-59 | counted keys rewritten through reindex name the same mutations and keep their position order |
| CompactMutations.CompactedGenome | fwdpp/algorithm/compact_mutations.hpp:48-61 | an extant genome carries the same mutations, in the same order, after compaction |
| Keys.RemoveIf | fwdpp/ts/remove_fixations_from_gametes.hpp:74-81 | the erase/remove_if idiom leaves exactly the keys the predicate rejects, in their original order |
| Keys.RemovedExactly | fwdpp/ts/remove_fixations_from_gametes.hpp:74-81 | a key survives the removal exactly when it was present and the predicate rejects it |
| Keys.FilterKeysSorted | fwdpp/ts/remove_fixations_from_gametes.hpp:74-81 | removing keys from a position-sorted container leaves it position-sorted |
| RemoveFixations.RemoveFixationsFromGenomes | fwdpp/ts/remove_fixations_from_gametes.hpp:51-85 | with no key of count twoN and preserved count 0 nothing changes; otherwise every genome becomes Cleaned under removal_criteria (count twoN, preserved count 0, and neutral or selected fixations not preserved) |
| RemoveFixations.NoFixationNoRemoval | fwdpp/ts/remove_fixations_from_gametes.hpp:52-69 | the early return is consistent with the criterion: when nothing is fixed, the criterion removes no key a genome holds |
| RemoveFixations.CleanedExactly | fwdpp/ts/remove_fixations_from_gametes.hpp:62-83 | a key leaves an extant genome exactly when it meets removal_criteria; n is kept and genomes with n == 0 are untouched |
| RemoveFixations.CleanedSorted | fwdpp/ts/remove_fixations_from_gametes.hpp:74-81 | the surviving keys keep their order in both containers |
| GenomeCleaner.NextExtant | fwdpp/internal/haploid_genome_cleaner.hpp:56-67 | the first genome at or after the start with n > 0, every genome skipped being extinct |
| GenomeCleaner.FindFixation | fwdpp/internal/haploid_genome_cleaner.hpp:69-96 | the first position of the container whose key is a fixation under the policy, or the end |
| GenomeCleaner.SurveyOf | fwdpp/internal/haploid_genome_cleaner.hpp:222-242 | a class is flagged exactly when the first extant genome's container of that class holds a fixation, and its first fixation is recorded |
| GenomeCleaner.HaploidGenomeCleaner | fwdpp/internal/haploid_genome_cleaner.hpp:200-256 | remove_nothing is a no-op; otherwise nothing changes when the first extant genome holds no fixation, and every extant genome is erased from the first fixation found, in each class that has one; genomes with n == 0 are skipped |
| GenomeCleaner.SearchAll | fwdpp/internal/haploid_genome_cleaner.hpp:258-289 | each flag is set exactly when some genome's container of that class holds a fixation |
| GenomeCleaner.HaploidGenomeCleanerSearchAll | fwdpp/internal/haploid_genome_cleaner.hpp:291-330 | the search-all version inspects every genome, then filters the fixations from each class of every extant genome that has one anywhere |
| GenomeCleaner.ErasedFromFilter | fwdpp/internal/haploid_genome_cleaner.hpp:101-153 | when no key before the first fixation's occurrence is a fixation, the erasure from it is the whole-container removal |
| GenomeCleaner.ErasedFromMembers | fwdpp/internal/haploid_genome_cleaner.hpp:118-124 | the erasure removes only fixations; every key that is not one survives |
| GenomeCleaner.ErasedFromSorted | fwdpp/internal/haploid_genome_cleaner.hpp:118-124 | the remaining keys keep their order |
| GenomeCleaner.FirstFixationFirstEverywhere | fwdpp/internal/haploid_genome_cleaner.hpp:35-46 | with strictly ordered positions and fixations shared across genomes, no key of a genome lies before the first extant genome's first fixation and is a fixation |
| GenomeCleaner.NoFixationFilter | fwdpp/internal/haploid_genome_cleaner.hpp:225-231 | when the reference container holds no fixation and fixations are shared, the container holds none either |
| GenomeCleaner.SweptContainer | fwdpp/internal/haploid_genome_cleaner.hpp:243-255 | one container class of the single-locus sweep equals the removal of every fixation |
| GenomeCleaner.SweptRemovesFixations | fwdpp/internal/haploid_genome_cleaner.hpp:164-171 | under fwdpp's own assumptions (every fixation is carried by every extant genome, in the container of its class, and each container is in strictly increasing position order) the single-locus sweep removes exactly the fixations from every extant genome |
| GenomeCleaner.SweptAllRemovesFixations | fwdpp/internal/haploid_genome_cleaner.hpp:307-330 | the search-all version removes every fixation from every extant genome, with no assumption on order |
| GenomeCleaner.SweptAllExactly | fwdpp/internal/haploid_genome_cleaner.hpp:146-152 | a key stays exactly when it was present and is not a fixation the policy accepts |
| Validators.Validate | fwdpp/util/validators.hpp:14-25 | unary_validator returns its argument exactly when the predicate holds of it and throws the validator's exception otherwise |
| Validators.Trunc | fwdpp/util/validators.hpp:38-39 | the integral part modf stores is the value rounded toward zero: within one below a non-negative value, within one above a negative one |
| Validators.FractionalPart | fwdpp/util/validators.hpp:38-39 | modf's fractional part is NaN exactly for NaN and, for a finite value, zero exactly when the value is integral |
| Validators.CastsToInt | fwdpp/util/validators.hpp:28-41 | casts_to_int accepts exactly the integral finite values and both infinities (whose fractional part is zero), returning the value; anything else is invalid_argument |
| Validators.NonNegative | fwdpp/util/validators.hpp:43-51 | non_negative accepts exactly the values >= 0, including +inf and excluding NaN, and throws invalid_argument for the rest |
| Validators.IsPositive | fwdpp/util/validators.hpp:53-61 | is_positive accepts exactly the values > 0, including +inf and excluding NaN, and throws invalid_argument for the rest |
| Validators.IsFinite | fwdpp/util/validators.hpp:63-74 | isfinite accepts exactly the finite values and throws invalid_argument for infinities and NaN |
| Validators.PositiveIsNonNegative | fwdpp/util/validators.hpp:43-61 | a value that passes is_positive passes non_negative; NaN fails non_negative, is_positive and casts_to_int |
| Validators.InfinityCastsToInt | fwdpp/util/validators.hpp:28-41 | casts_to_int lets both infinities through, and only isfinite rejects them |
| Validators.FiniteIntegral | fwdpp/util/validators.hpp:28-74 | a value that passes both isfinite and casts_to_int is an integer |
| SimRecycling.MakeMutQueue | fwdpp/simfunctions/recycling.hpp:47-62 | the mutation queue holds, in ascending order, exactly the indexes whose count is zero |
| SimRecycling.MakeGameteQueue | fwdpp/simfunctions/recycling.hpp:64-78 | the genome queue holds, in ascending order, exactly the indexes of genomes with n == 0 |
| SimRecycling.RecycleGamete | fwdpp/simfunctions/recycling.hpp:80-113 | recycle_gamete pops the front slot and gives it the new containers, or appends a new genome with n == 0 when the queue is empty; the returned index holds the new containers |
| SimRecycling.RecycleMutationHelper | fwdpp/simfunctions/recycling.hpp:128-149 | the new mutation overwrites the popped front slot, or is appended when the queue is empty, and sits at the returned index; no other mutation changes |
| SimRecycling.RecycledGameteWasExtinct | fwdpp/simfunctions/recycling.hpp:95-106 | a slot taken from a queue that make_gamete_queue built holds an extinct genome, so the debug check never throws |
| SimRecycling.PopKeepsQueue | fwdpp/simfunctions/recycling.hpp:95-109 | after a pop and the refill of the popped slot, the rest of the queue is still ascending and still names only extinct genomes |
| TsRecycling.MakeMutQueue | fwdpp/ts/recycling.hpp:19-40 | the queue holds, in ascending order, exactly the indexes whose extant count plus preserved count is zero in 32-bit unsigned arithmetic, which for sums below 2^32 is the true sum |
| TsRecycling.MakeMutQueueFromIndexes | fwdpp/ts/recycling.hpp:42-83 | the queue holds, in ascending order, exactly the indexes below num_mutations that are not among the preserved indexes |
| TsRecycling.MutationIndexProcessed | fwdpp/ts/recycling.hpp:87-104 | process_mutation_index sets the position of mutation i to the largest double and changes no count or fixation record |
| TsRecycling.IndexProcessedLookup | fwdpp/ts/recycling.hpp:93-103 | the lookup loses one entry mapping the old position to i, when it held one, and every other entry keeps its multiplicity |
| TsRecycling.Recycle | fwdpp/ts/recycling.hpp:119-120 | a removing branch processes the mutation index and zeroes count i, and leaves the fixation records as they were |
| TsRecycling.LowerBound | fwdpp/ts/recycling.hpp:196-201 | std::lower_bound by position gives the first index whose position is not below p: every record before it is below p |
| TsRecycling.UpperFrom | fwdpp/ts/recycling.hpp:215-218 | the end of std::equal_range is the first index from the lower bound whose position exceeds p |
| TsRecycling.InsertAt | fwdpp/ts/recycling.hpp:202-204 | vector::insert at d puts the element at index d and adds exactly it to the contents |
| TsRecycling.RecordAt | fwdpp/ts/recycling.hpp:201-204 | recording inserts the fixation and its generation at the same index of the two containers and changes nothing else |
| TsRecycling.ProcessFixations | fwdpp/ts/recycling.hpp:106-231 | each of the four process_fixations overloads changes only mutation i and count i, and records at most one fixation, in both containers together |
| TsRecycling.FixationsRemoved | fwdpp/ts/recycling.hpp:106-140 | the overloads that remove all fixations touch only index i and add at most one record |
| TsRecycling.FixationsPreserving | fwdpp/ts/recycling.hpp:158-231 | the overloads that keep selected fixations touch only index i and add at most one record |
| TsRecycling.FlagStep | fwdpp/ts/recycling.hpp:305-324 | one turn throws runtime_error exactly when the preserved count is zero and the count exceeds twoN; otherwise only index i may change |
| TsRecycling.FlagFrom | fwdpp/ts/recycling.hpp:303-326 | the loop from index i on keeps the lengths of the mutation and count vectors |
| TsRecycling.FlagMutationsForRecycling | fwdpp/ts/recycling.hpp:234-327 | flag_mutations_for_recycling computes the loop specification from index 0 |
| TsRecycling.FlagFailsIff | fwdpp/ts/recycling.hpp:305-311 | flagging throws, always with runtime_error, exactly when some count from i on exceeds twoN while its preserved count is zero |
| TsRecycling.FlagKeeps | fwdpp/ts/recycling.hpp:303-305 | indexes before i, and indexes with a positive preserved count, keep their mutation and count |
| TsRecycling.FlagDoneEffect | fwdpp/ts/recycling.hpp:255-270 | when flagging completes, each index is recycled exactly when its preserved count is zero and it is extinct, or fixed and neutral or not preserved: its position becomes the largest double and its count zero; any other index is unchanged |
| TsRecycling.FlagDoneLookup | fwdpp/ts/recycling.hpp:267-268 | when flagging completes, the lookup has lost exactly the entries of the recycled mutations |
| TsRecycling.FixationLookup | fwdpp/ts/recycling.hpp:106-231 | process_fixations erases the lookup entry of i exactly when it recycles i, which is when fixations are not preserved or the mutation is neutral |
| TsRecycling.SelectedFixationRecordedOnce | fwdpp/ts/recycling.hpp:208-230 | a selected fixation under the preserve and record policies stays in the population and is recorded once, in position order, only when no equal record exists yet |
| TsRecycling.EqualRangeFinds | fwdpp/ts/recycling.hpp:215-221 | on position-sorted records, std::find over the equal range of the position finds the mutation exactly when it is recorded at all |
| TsRecycling.InsertKeepsSorted | fwdpp/ts/recycling.hpp:196-202 | inserting at the lower bound of its position keeps the records sorted by position |
| TsRecycling.NeutralFixationRecordedInOrder | fwdpp/ts/recycling.hpp:192-207 | a neutral fixation under the preserve and record policies is recorded in position order, with its generation at the same index, and is recycled |
| TsRecycling.AppendedFixation | fwdpp/ts/recycling.hpp:126-140 | without the preserve policy, recording appends the fixation and the generation in parallel, then recycles the mutation |
| TsRecycling.FlagFixationContainers | fwdpp/ts/recycling.hpp:272-277 | without recording, the fixation containers never change; under the preserve policy they stay sorted by position; both grow together |
| Util.LostRemoved | fwdpp/util.hpp:102-127 | the mutations remove_lost keeps all have n > 0 and are unchecked, and there are no more of them than before |
| Util.RemoveLost | fwdpp/util.hpp:102-127 | remove_lost's loop leaves exactly the mutations with n > 0, in order, with checked cleared |
| Util.RemoveLostWithLookup | fwdpp/util.hpp:134-160 | the lookup overload leaves the same list, and the lookup loses exactly the positions of the lost mutations |
| Util.LostRemovedKeepsExtant | fwdpp/util.hpp:112-126 | a mutation is kept exactly when some mutation with n > 0 is it, unchecked |
| Util.FixedLostRemoved | fwdpp/util.hpp:166-201 | the mutations remove_fixed_lost keeps are neither lost nor fixed (0 < n != twoN) and are unchecked |
| Util.NewFixations | fwdpp/util.hpp:185-189 | the fixations recorded all have n == twoN and are unchecked |
| Util.RemoveFixedLost | fwdpp/util.hpp:166-201 | remove_fixed_lost keeps the segregating mutations in order, appends each fixed mutation to the fixations and one copy of the generation per fixation to the times |
| Util.RemoveFixedLostWithLookup | fwdpp/util.hpp:208-245 | the lookup overload does the same, and the lookup loses exactly the positions of the erased mutations |
| Util.FixedLostPartition | fwdpp/util.hpp:181-200 | no mutation goes missing: the kept, the recorded and the lost mutations together are the old list, unchecked, as a multiset |
| Util.NewFixationsAreFixed | fwdpp/util.hpp:185-189 | exactly one fixation is recorded per mutation with n == twoN |
| Util.VisitAll | fwdpp/util.hpp:253-263 | visiting keys with the adjuster keeps the number of mutations |
| Util.AdjustMutationCounts | fwdpp/util.hpp:247-268 | adjust_mutation_counts visits the neutral keys and then the selected keys of the genome |
| Util.VisitAllCounts | fwdpp/util.hpp:253-263 | after the visits, a mutation referred to c > 0 times is checked and has n equal to its old n (when it was already checked) plus c copies of n; a mutation not referred to is unchanged |
| Util.GametesUpdated | fwdpp/util.hpp:298-317 | the genomes update_gamete_list keeps all have n > 0 |
| Util.UpdateGameteList | fwdpp/util.hpp:298-317 | update_gamete_list drops the genomes with n == 0 and then removes the matched keys from each genome left |
| Util.DropEmptyGametes | fwdpp/util.hpp:303-306 | the erase/remove_if pass keeps exactly the genomes with n != 0, in order |
| Util.RemoveMatchedKeys | fwdpp/util.hpp:309-316 | the for_each pass removes the matched keys from every genome, in order |
| Util.GametesUpdatedIsFilterMap | fwdpp/util.hpp:298-317 | the result is the filter of the extant genomes followed by the key removal |
| Util.KeysRemovedExactly | fwdpp/util.hpp:310-315 | a key survives in a genome exactly when it was there and the policy does not match it |
| SamplingFunctions.NumBins | fwdpp/sampling_functions.hpp:108 | the spectrum has N - 1 bins, computed in unsigned arithmetic, so 2^32 - 1 bins when N == 0 |
| SamplingFunctions.Bins | fwdpp/sampling_functions.hpp:108-113 | the spectrum has NumBins(N) entries |
| SamplingFunctions.PopulationSfs | fwdpp/sampling_functions.hpp:103-115 | population_sfs's loop computes the spectrum of the counts |
| SamplingFunctions.BinCounts | fwdpp/sampling_functions.hpp:111 | bin k holds the number of segregating mutations (0 < n < N) with count k + 1 |
| SamplingFunctions.BinsSum | fwdpp/sampling_functions.hpp:108-113 | the bins sum to the number of segregating mutations |
| MutationCounts.ProcessGametes | fwdpp/demography.hpp:41 | the recount called after a deme change yields one count per mutation, covering at least every mutation and every old count slot |
| MutationCounts.BumpOne | fwdpp/demography.hpp:36-40 | one diploid's step changes no genome count's position: the genome list keeps its length |
| MutationCounts.Bumped | fwdpp/demography.hpp:36-40 | the loop over a whole deme keeps the genome list's length |
| MutationCounts.BumpedCounts | fwdpp/demography.hpp:36-40 | when no 32-bit count wraps, the loop adds (copy_deme) or removes (remove_deme) exactly the number of slots of the deme naming each genome, and changes nothing else about it |
| MutationCounts.BumpedKeys | fwdpp/demography.hpp:70-74 | the count loop leaves every genome's neutral and selected mutation keys unchanged |
| MutationCounts.BumpDeme | fwdpp/demography.hpp:70-74 | the loop incrementing or decrementing both genomes of each diploid of a deme, with unsigned wrap-around, computes the deme-wide bump |
| Demography.CopyDeme | fwdpp/demography.hpp:26-43 | -1 exactly when i is not a deme, leaving everything alone; otherwise 0, deme i appended again, its genomes' counts raised and the mutation counts recomputed |
| Demography.Merged | fwdpp/demography.hpp:52-55 | after the merge there is one deme fewer, the lower deme holds its own diploids followed by the higher deme's, demes below the higher index keep their place and later demes shift down by one |
| Demography.MergeDemes | fwdpp/demography.hpp:46-57 | -1 exactly when either index is not a deme, 1 exactly when both are the same deme, nothing changes on either; otherwise 0 and the higher deme is merged into the lower one |
| Demography.RemoveDeme | fwdpp/demography.hpp:63-78 | -1 exactly when i is not a deme, leaving everything alone; otherwise 0, the deme's genomes lose their copies, the deme is erased and the other demes keep their order |
| Demography.SwapDemes | fwdpp/demography.hpp:81-88 | -1 exactly when either index is not a deme, 1 exactly when they are equal, nothing changes on either; otherwise 0 and the two demes trade places |
| Demography.SplitDemeCheck | fwdpp/demography.hpp:103-104 | split_deme returns -1 exactly when i is not a deme, 1 exactly when the new deme would take at least all of deme i, and proceeds exactly otherwise |
| Demography.RoundNonNegative | fwdpp/demography.hpp:126 | std::round of a non-negative value lies within one half of it, halves rounding up |
| Demography.AdmixSizes | fwdpp/demography.hpp:126 | the two shares add up to N_new and deme i's share is pi * N_new rounded to the nearest integer |
| Demography.AdmixDemesCheck | fwdpp/demography.hpp:123-132 | -1 exactly when either index is not a deme; 1 when pi lies outside [0, 1) or, without replacement, when a share is at least its source deme's size; 0 only for a valid pi and every check passed |
| Demography.CopyDemeConsistent | fwdpp/demography.hpp:33-40 | when every genome's count equals the number of diploid slots naming it and no count wraps, copy_deme keeps that invariant |
| Demography.RemoveDemeConsistent | fwdpp/demography.hpp:69-75 | remove_deme keeps every genome's count equal to the number of slots naming it, and no count wraps below zero |
| Demography.MergeDemesConsistent | fwdpp/demography.hpp:52-55 | merging keeps every diploid, so the genome counts stay consistent without being touched |
| Demography.SwapDemesConsistent | fwdpp/demography.hpp:86 | swapping keeps every diploid, so the genome counts stay consistent without being touched |
| SugarDemography.UpdateNs | fwdpp/sugar/demography.hpp:18-31 | after update_Ns, Ns holds the size of each deme in order and nothing else in the population changed |
| SugarDemography.CopyPop | fwdpp/sugar/demography.hpp:42-54 | copy_pop returns copy_deme's code, changes nothing on error, and on success copies the deme and leaves Ns current |
| SugarDemography.MergePops | fwdpp/sugar/demography.hpp:69-80 | merge_pops returns merge_demes' code, changes nothing on error, and on success merges the demes and leaves Ns current |
| SugarDemography.RemovePop | fwdpp/sugar/demography.hpp:94-106 | remove_pop returns remove_deme's code, changes nothing on error, and on success erases the deme and leaves Ns current |
| SugarDemography.SwapPops | fwdpp/sugar/demography.hpp:121-132 | swap_pops swaps the two demes and their two Ns entries, which keeps Ns current when it was current |
| SugarDemography.SplitPopCheck | fwdpp/sugar/demography.hpp:147-161 | with i asserted to be a deme, split_pop returns 1 exactly when N_new is at least deme i's size and proceeds otherwise |
| SugarDemography.AdmixPopsCheck | fwdpp/sugar/demography.hpp:179-193 | admix_pops returns admix_demes' code, which is 0 only for existing demes and pi in [0, 1) |
| Scalars.ReadU32 | fwdpp/io/gamete.hpp:58 | reading an unsigned succeeds exactly when the next word is an unsigned, and yields that word's value one word further on |
| Scalars.ReadU16 | fwdpp/types/mutation.hpp:177 | reading a 16-bit xtra field succeeds exactly when the next word is one, and yields its value one word further on |
| Scalars.ReadSize | fwdpp/io/gamete.hpp:59 | reading a size_t succeeds exactly when the next word is one, and yields its value one word further on |
| Scalars.ReadF64 | fwdpp/types/mutation.hpp:174-176 | reading a double succeeds exactly when the next word is one, and yields its value one word further on |
| Scalars.U32s | fwdpp/io/gamete.hpp:30 | writing k unsigned values emits exactly k words |
| Scalars.ReadU32s | fwdpp/io/gamete.hpp:63 | a successful read of k unsigned values yields k values and advances k words |
| Scalars.ReadU32sAt | fwdpp/io/gamete.hpp:60-64 | k written unsigned values read back as themselves, ending right after them |
| Scalars.ReadN | fwdpp/io/gamete.hpp:103-106 | reading k elements in turn, when it succeeds, yields exactly k elements |
| Scalars.ReadNShort | fwdpp/io/gamete.hpp:103-106 | once the stream fails while reading elements, reading more of them fails too |
| Scalars.ReadElements | fwdpp/io/gamete.hpp:103-106 | the loop appending k read elements to a container succeeds exactly when the k reads do, and appends exactly what they read |
| Scalars.ReadNWords | fwdpp/io/gamete.hpp:86-89 | elements each written by a serializer its deserializer inverts read back, in order, ending after the last |
| Scalars.ReadCountedWords | fwdpp/io/gamete.hpp:82-106 | a container written as its size and its elements reads back as the same container |
| GameteIO.EmptyGameteLayout | fwdpp/io/gamete.hpp:25-37 | a genome with no mutations is written as its count and two zero sizes, with no key words |
| GameteIO.GameteRoundTrip | fwdpp/io/gamete.hpp:23-72 | deserialize_gamete inverts serialize_gamete, count and both key lists included, wherever the words sit in a stream |
| GameteIO.GameteReadAt | fwdpp/io/gamete.hpp:55-71 | the reads of deserialize_gamete over a written genome give that genome and end right after its words |
| GameteIO.WriteGametes | fwdpp/io/gamete.hpp:77-90 | write_gametes appends the number of genomes and then every genome's words, in order |
| GameteIO.ReadGametes | fwdpp/io/gamete.hpp:94-107 | read_gametes succeeds exactly when the size and every genome read, and appends exactly the genomes read |
| GameteIO.GametesRoundTrip | fwdpp/io/gamete.hpp:77-107 | a container written by write_gametes reads back by read_gametes as the same genomes, whatever follows in the stream |
| MutationType.NewMutation | fwdpp/types/mutation.hpp:43-47 | the constructor stores pos, s, h, g and xtra and flags the mutation neutral exactly when s is zero |
| MutationType.MutationEquals | fwdpp/types/mutation.hpp:63-68 | two mutations are equal exactly when g, s, h and the base fields agree, that is when they are the same value |
| MutationType.InfsitesMutation | fwdpp/types/mutation.hpp:107-117 | the first drawn position absent from the lookup is used; the new mutation has s and h zero unless selected; it goes to the recycled slot when there is one, else at the end; the lookup gains exactly its position and index; no other mutation changes |
| MutationType.MutationRead | fwdpp/types/mutation.hpp:159-179 | reading a written mutation gives back g, pos, s, h and xtra, with the neutral flag recomputed from s |
| MutationType.MutationRoundTrip | fwdpp/types/mutation.hpp:138-179 | the serializer round-trips a mutation exactly when its neutral flag agrees with s being zero |
| PopulationIO.DiploidRoundTrip | fwdpp/io/detail/serialize_population.hpp:28 | a diploid's two genome indexes read back as the same diploid |
| PopulationIO.SerializePopulation | fwdpp/io/detail/serialize_population.hpp:21-43 | the stream gains N, the mutations, the genomes, the diploids, the fixations, their times, and the counts with their size, in that order |
| PopulationIO.FillLookup | fwdpp/io/detail/serialize_population.hpp:77-82 | the loop puts exactly the positions of the mutations with a nonzero count, with their indexes, in the lookup |
| PopulationIO.DeserializePopulation | fwdpp/io/detail/serialize_population.hpp:47-83 | the loaded population depends on the stream alone and is read field by field in the written order, with the lookup rebuilt |
| PopulationIO.SectionsRead | fwdpp/io/detail/serialize_population.hpp:53-74 | each section of a written population reads back, each read ending where the next section starts |
| PopulationIO.MutationsRead | fwdpp/io/detail/serialize_population.hpp:54 | a written container of mutations whose neutral flags agree with s reads back as itself |
| PopulationIO.GametesRead | fwdpp/io/detail/serialize_population.hpp:55 | a written container of genomes reads back as itself |
| PopulationIO.DiploidsRead | fwdpp/io/detail/serialize_population.hpp:56 | a written container of diploids reads back as itself |
| PopulationIO.PopulationReadsBack | fwdpp/io/detail/serialize_population.hpp:21-83 | a written population read back from the start of its words is the population, every field in place, with its lookup rebuilt from the counts |
| PopulationIO.PopulationRoundTrip | fwdpp/io/detail/serialize_population.hpp:21-83 | deserialize_population inverts serialize_population whatever follows in the stream, provided the flags agree with s, there is a time per fixation and a mutation per count |
| Keys.KeyUpperBound | fwdpp/mutate_recombine.hpp:61-65 | std::upper_bound by position over keys: a count no larger than the list, every key before it at or before pos |
| Keys.KeyUpperBoundRest | fwdpp/mutate_recombine.hpp:61-65 | on position-sorted keys, every key from the upper bound on lies strictly after pos, so the bound splits the list there |
| Keys.InsertKeySorted | fwdpp/sugar/add_mutation.hpp:115-126 | inserting a key at the upper bound of its own position keeps a position-sorted key list sorted |
| Keys.RemoveKeySorted | fwdpp/sugar/change_neutral.hpp:39 | erasing one key keeps a position-sorted key list sorted |
| Keys.SamePositionsSorted | fwdpp/sugar/change_neutral.hpp:42-49 | whether keys are sorted depends on the mutations' positions only, so changing other fields keeps it |
| Keys.LookupOfEntries | fwdpp/io/detail/serialize_population.hpp:77-82 | the lookup holds one entry for the position and index of every mutation with a nonzero count, and no other entry |
| MarginalTree.Walk | fwdpp/ts/marginal_tree.hpp:191-197 | following the links from a node visits only in-range nodes starting at that node, and ends at NULL, at an out-of-range index, or when the bound runs out |
| MarginalTree.WalkDistinct | fwdpp/ts/marginal_tree.hpp:193-197 | a walk that reaches NULL visits no node twice |
| MarginalTree.WalkAlong | fwdpp/ts/marginal_tree.hpp:71-78 | a list laid out along the links, each element pointing to the next and the last to NULL, is exactly what the walk from its head visits |
| MarginalTree.Blank | fwdpp/ts/marginal_tree.hpp:93-107 | the member initialisers give nnodes NULL links and zero counts in every per-node array, with the sample list stored |
| MarginalTree.InitOneStep | fwdpp/ts/marginal_tree.hpp:60-78 | one pass of init_samples over a node not met before records its index, its sample bounds, above_sample and its sibling links, and leaves the other nodes alone |
| MarginalTree.InitSamples | fwdpp/ts/marginal_tree.hpp:56-80 | init_samples throws invalid_argument exactly when a node is listed twice; otherwise it sets up every listed node and touches only the sample arrays and sibling links |
| MarginalTree.MarkCounts | fwdpp/ts/marginal_tree.hpp:117-120 | the leaf-count loop sets the count of every listed node to 1 and leaves all others alone |
| MarginalTree.NewTree | fwdpp/ts/marginal_tree.hpp:91-122 | the constructor throws empty_samples for an empty list and invalid_argument for a repeated node, and otherwise builds the tree with the samples as roots and leaves |
| MarginalTree.ForwardInputSamples | fwdpp/ts/marginal_tree.hpp:46-53 | the lvalue overload gives the samples followed by the preserved nodes |
| MarginalTree.ForwardInputSamplesMoved | fwdpp/ts/marginal_tree.hpp:37-44 | the rvalue overload as written loses the preserved nodes whenever there are any |
| MarginalTree.MovedDropsPreserved | fwdpp/ts/marginal_tree.hpp:37-53 | on samples [0] and preserved [1], the rvalue overload gives [0] where the lvalue overload gives [0, 1] |
| MarginalTree.NewTreePreserved | fwdpp/ts/marginal_tree.hpp:124-162 | the constructor with preserved nodes lists the samples then the preserved nodes, throws as the other constructor does, and gives the preserved nodes preserved leaf count 1 |
| MarginalTree.Unsampled | fwdpp/ts/marginal_tree.hpp:164-181 | the node-count constructor has NULL links, an empty root list and no leaf-count arrays |
| MarginalTree.ConstructedDistinct | fwdpp/ts/marginal_tree.hpp:62-67 | a built tree's samples are distinct nodes, no more of them than nodes |
| MarginalTree.ConstructedRoots | fwdpp/ts/marginal_tree.hpp:71-74 | a built tree's root list along right_sib from left_root is the sample list, in order |
| MarginalTree.ConstructedRootsReversed | fwdpp/ts/marginal_tree.hpp:75-78 | along left_sib from the last sample the roots come in reverse order |
| MarginalTree.NumRoots | fwdpp/ts/marginal_tree.hpp:183-199 | num_roots throws runtime_error when left_root is NULL and otherwise counts the root list |
| MarginalTree.ConstructedNumRoots | fwdpp/ts/marginal_tree.hpp:117-122 | a freshly built tree has one root per listed node |
| Children.ChildIterator.constructor | fwdpp/ts/marginal_tree_functions/children.hpp:38-49 | the iterator stores its direction, its first child and the sibling array it follows |
| Children.ChildIterator.Next | fwdpp/ts/marginal_tree_functions/children.hpp:51-64 | the corrected operator() of Findings: a call hands out the current child and moves to its sibling; NULL ends the iteration without a read; any other index outside the sibling array throws runtime_error, where the library's guard throws only for an index at or past the end |
| Children.GuardThrows | fwdpp/ts/marginal_tree_functions/children.hpp:58 | the guard as written only fires for an index outside the sibling array |
| Children.GuardAdmitsNull | fwdpp/ts/marginal_tree_functions/children.hpp:58-62 | the guard as written does not stop NULL, or any other negative index, from being read |
| Children.NewChildIterator | fwdpp/ts/marginal_tree_functions/children.hpp:19-49 | the constructor throws invalid_argument for NULL or a node past the child arrays, and otherwise starts at the left or right child with right_sib or left_sib |
| Children.GetChildren | fwdpp/ts/marginal_tree_functions/children.hpp:100-113 | get_children returns exactly the children in the chosen direction, or the iterator's exception |
| Children.NumChildren | fwdpp/ts/marginal_tree_functions/children.hpp:115-126 | num_children is the length of the left-to-right child list, or the iterator's exception |
| Children.ChildrenReversed | fwdpp/ts/marginal_tree_functions/children.hpp:100-113 | when the sibling links are consistent both ways, the right-to-left children are the left-to-right ones reversed |
| Roots.RootIterator.constructor | fwdpp/ts/marginal_tree_functions/roots.hpp:21-23 | the iterator stores its first root and the right_sib array |
| Roots.RootIterator.Next | fwdpp/ts/marginal_tree_functions/roots.hpp:37-49 | the corrected operator() of Findings: a call hands out the current root and moves to its right sibling; NULL ends the iteration without a read; any other index outside right_sib throws runtime_error, where the library's guard throws only for an index at or past the end |
| Roots.RootGuardThrows | fwdpp/ts/marginal_tree_functions/roots.hpp:43 | the guard as written only fires for an index outside right_sib |
| Roots.RootGuardAdmitsNull | fwdpp/ts/marginal_tree_functions/roots.hpp:43-47 | the guard as written does not stop NULL, or any other negative index, from being read |
| Roots.NewRootIterator | fwdpp/ts/marginal_tree_functions/roots.hpp:21-35 | the constructor throws invalid_argument when left_root is NULL or right_sib is empty, and otherwise starts at left_root |
| Roots.GetRoots | fwdpp/ts/marginal_tree_functions/roots.hpp:80-88 | get_roots returns exactly the root list, left to right, or the iterator's exception |
| Roots.NumRoots | fwdpp/ts/marginal_tree_functions/roots.hpp:90-98 | the free num_roots is the length of the root list, or the iterator's exception |
| Roots.RootCountsAgree | fwdpp/ts/marginal_tree_functions/roots.hpp:90-98 | a tree with a root list reaching NULL has a non-empty right_sib and at least one root, so the free num_roots agrees with the member |
| SiblingLists.Unlink | fwdpp/ts/tree_visitor.hpp:264-281 | unlinking a node from a doubly linked sibling list makes its neighbours link past it, and the rest of the list stays doubly linked without it |
| SiblingLists.UnlinkClear | fwdpp/ts/tree_visitor.hpp:264-284 | unlinking a node and then clearing its own sibling links leaves the rest of the list doubly linked and the node out of it |
| SiblingLists.Append | fwdpp/ts/tree_visitor.hpp:300-314 | appending a node not yet in the list at its right end links the old last entry to it and leaves the list doubly linked with it last |
| SiblingLists.InsertBefore | fwdpp/ts/tree_visitor.hpp:112-120 | putting a node in front of an entry makes the entry's old left neighbour link right to it and the entry link left to it, with the list doubly linked |
| SiblingLists.ReplaceAt | fwdpp/ts/tree_visitor.hpp:164-173 | a node put where an entry was, given that entry's two old neighbours, takes over its place in the doubly linked list |
| AdvancePolicies.Shifted | fwdpp/ts/detail/advance_marginal_tree_policies.hpp:27-34 | moving counts along a path keeps one count per node |
| AdvancePolicies.AddAlongAncestors | fwdpp/ts/detail/advance_marginal_tree_policies.hpp:27-34 | the loop up the parents from p adds the two amounts to the leaf and preserved leaf counts of p and each of its ancestors, changing nothing else |
| AdvancePolicies.OutgoingLeafCounts | fwdpp/ts/detail/advance_marginal_tree_policies.hpp:16-35 | outgoing_leaf_counts takes the child's two counts from the parent and every ancestor of it, and does nothing when they sum to zero |
| AdvancePolicies.IncomingLeafCounts | fwdpp/ts/detail/advance_marginal_tree_policies.hpp:38-55 | incoming_leaf_counts adds the child's two counts to the parent and every ancestor of it, and does nothing when they sum to zero |
| AdvancePolicies.ShiftedBack | fwdpp/ts/detail/advance_marginal_tree_policies.hpp:27-53 | moving counts up a path by d and then by -d gives the counts back |
| AdvancePolicies.ShiftedAt | fwdpp/ts/detail/advance_marginal_tree_policies.hpp:27-34 | along a path without repeats, a node's count moves by d exactly when it is on the path |
| AdvancePolicies.ShiftedOff | fwdpp/ts/detail/advance_marginal_tree_policies.hpp:27-34 | a node off the path keeps its count |
| AdvancePolicies.LeafCountsMovedExactly | fwdpp/ts/detail/advance_marginal_tree_policies.hpp:16-55 | exactly the ancestors of the parent change, each once by the child's counts, unless those sum to zero |
| AdvancePolicies.LeafCountsMovedOnlyCounts | fwdpp/ts/detail/advance_marginal_tree_policies.hpp:16-55 | both policies change only the two count arrays; the links and every other array stay as they were |
| AdvancePolicies.IncomingThenOutgoing | fwdpp/ts/detail/advance_marginal_tree_policies.hpp:16-55 | an edge entering and then leaving the tree restores every count, when the child is not its parent's ancestor |
| AdvancePolicies.OutgoingStaysNonNegative | fwdpp/ts/detail/advance_marginal_tree_policies.hpp:31-32 | the debug assertions of outgoing_leaf_counts hold when every ancestor counts at least the child's leaves |
| AdvancePolicies.ResetNode | fwdpp/ts/detail/advance_marginal_tree_policies.hpp:71-80 | resetting a node's sample list keeps the links well formed and next_sample unchanged |
| AdvancePolicies.JoinChild | fwdpp/ts/detail/advance_marginal_tree_policies.hpp:84-96 | joining one child's sample list to its parent's keeps the links well formed |
| AdvancePolicies.JoinChildren | fwdpp/ts/detail/advance_marginal_tree_policies.hpp:81-98 | joining the children's lists in turn keeps the links well formed |
| AdvancePolicies.UpdateNode | fwdpp/ts/detail/advance_marginal_tree_policies.hpp:71-98 | one pass of the outer loop keeps the links well formed |
| AdvancePolicies.UpdateUpward | fwdpp/ts/detail/advance_marginal_tree_policies.hpp:69-99 | the passes up a path keep the links well formed |
| AdvancePolicies.AppendChildSamples | fwdpp/ts/detail/advance_marginal_tree_policies.hpp:84-96 | the inner loop body for a child v joins v's list to n's: n's list starts with v's when it was empty, else n's last sample links to v's first; either way it now ends where v's does |
| AdvancePolicies.RebuildNode | fwdpp/ts/detail/advance_marginal_tree_policies.hpp:71-98 | one outer pass resets n's list to its own sample, or to nothing, and then joins its children's lists left to right |
| AdvancePolicies.UpdateSamplesList | fwdpp/ts/detail/advance_marginal_tree_policies.hpp:58-100 | update_samples_list rebuilds the sample list of node and each of its ancestors in turn, and changes only the three sample-list arrays |
| AdvancePolicies.JoinChildrenJoins | fwdpp/ts/detail/advance_marginal_tree_policies.hpp:81-98 | the inner loop chains the children's sample lists after the ones already joined, in child order, each list's last sample linking to the next list's first |
| AdvancePolicies.UpdateNodeJoins | fwdpp/ts/detail/advance_marginal_tree_policies.hpp:71-98 | after a pass at n, n's sample list is its own sample (if it is one) followed by its children's lists in order, when n is not its own child and the lists end at distinct samples |
| TreeVisitor.Detached | fwdpp/ts/tree_visitor.hpp:262-284 | the link statements of step T4 change only the link arrays and keep every link NULL or a node |
| TreeVisitor.Attached | fwdpp/ts/tree_visitor.hpp:298-318 | the link statements of step T2 change only the link arrays and keep every link NULL or a node |
| TreeVisitor.RootDropped | fwdpp/ts/tree_visitor.hpp:184-194 | closing up a place in the root list changes only the sibling links and left_root |
| TreeVisitor.Unrooted | fwdpp/ts/tree_visitor.hpp:93-107 | taking the topmost node out of the root list changes only the sibling links and left_root |
| TreeVisitor.Rooted | fwdpp/ts/tree_visitor.hpp:109-121 | putting c into the root list changes only the sibling links and left_root |
| TreeVisitor.RootReplaced | fwdpp/ts/tree_visitor.hpp:164-174 | replacing c by root in the root list changes only the sibling links and left_root |
| TreeVisitor.DetachedChildren | fwdpp/ts/tree_visitor.hpp:262-284 | step T4 takes c out of p's child list, the rest keeping its order, and leaves c without parent or siblings |
| TreeVisitor.AttachedChildren | fwdpp/ts/tree_visitor.hpp:298-318 | step T2 appends c to the end of p's child list and makes p its parent |
| TreeVisitor.DetachedFrame | fwdpp/ts/tree_visitor.hpp:262-284 | step T4 leaves every sibling list sharing no node with p's child list doubly linked as it was |
| TreeVisitor.AttachedFrame | fwdpp/ts/tree_visitor.hpp:298-318 | step T2 leaves the list c came from (the root list) doubly linked everywhere but at c |
| TreeVisitor.UnrootedRoots | fwdpp/ts/tree_visitor.hpp:93-107 | the outgoing update's removal takes the topmost node out of the root list, which stays a doubly linked list of parentless nodes |
| TreeVisitor.RemainingRoots | fwdpp/ts/tree_visitor.hpp:95-105 | after a removal, left_root is NULL exactly when no root remains, and otherwise is one of the remaining roots |
| TreeVisitor.RootedRoots | fwdpp/ts/tree_visitor.hpp:109-121 | the outgoing update puts c in front of left_root in the root list, or makes it the only root, and makes it left_root |
| TreeVisitor.ReplacedRoots | fwdpp/ts/tree_visitor.hpp:164-174 | the incoming update's replacement puts root in c's place in the root list |
| TreeVisitor.DroppedRoots | fwdpp/ts/tree_visitor.hpp:184-194 | the incoming update's removal takes c out of the root list, which stays doubly linked |
| TreeVisitor.Marked | fwdpp/ts/tree_visitor.hpp:78-83 | whether some entry of a list from a given place on has above_sample set |
| TreeVisitor.KidAboveChildren | fwdpp/ts/tree_visitor.hpp:77-83 | the inner loop of update_roots_outgoing finds a child above a sample exactly when x has one |
| TreeVisitor.ClimbOut | fwdpp/ts/tree_visitor.hpp:67-87 | the climb in update_roots_outgoing stops at a node above a sample, marked so, or at a parentless node |
| TreeVisitor.ClimbIn | fwdpp/ts/tree_visitor.hpp:142-154 | the climb in update_roots_incoming marks every node it passes above a sample and stops at the first already marked, or at a parentless node |
| TreeVisitor.RootsOutgoing | fwdpp/ts/tree_visitor.hpp:42-123 | update_roots_outgoing changes only above_sample, the sibling links and left_root, keeping every link NULL or a node; that the root list stays exact is TreeRoots.RootsOutgoingTracked |
| TreeVisitor.RootsIncoming | fwdpp/ts/tree_visitor.hpp:125-197 | update_roots_incoming changes only above_sample, the sibling links and left_root, keeping every link NULL or a node; that the root list stays exact is TreeRoots.RootsIncomingTracked |
| TreeVisitor.SamplesUpdated | fwdpp/ts/tree_visitor.hpp:288-292 | the sample-list update keeps the tree ready for the visitor and changes only the sample-list arrays |
| TreeVisitor.Removed | fwdpp/ts/tree_visitor.hpp:262-294 | one pass of the step T4 loop keeps the tree ready for the visitor |
| TreeVisitor.Added | fwdpp/ts/tree_visitor.hpp:298-329 | one pass of the step T2 loop keeps the tree ready for the visitor |
| TreeVisitor.Outgoing | fwdpp/ts/tree_visitor.hpp:260-295 | the step T4 loop processes exactly the consecutive edges of O from k whose right end is x, and stops at the first other one or at the end |
| TreeVisitor.Incoming | fwdpp/ts/tree_visitor.hpp:296-330 | the step T2 loop processes exactly the consecutive edges of I from j whose left end is x, and stops at the first other one or at the end |
| TreeVisitor.LeftRootFixed | fwdpp/ts/tree_visitor.hpp:336-344 | the fix-up moves left_root only, to a node with no left sibling, and keeps it NULL exactly when it was |
| TreeVisitor.Min | fwdpp/ts/tree_visitor.hpp:404 | std::min gives one of its arguments, at most both |
| TreeVisitor.NextBreak | fwdpp/ts/tree_visitor.hpp:401-409 | the new tree's right end is the least of L, the next left end in I and the next right end in O |
| TreeVisitor.Sweeps | fwdpp/ts/tree_visitor.hpp:260-344 | the two sweeps and the fix-up keep the tree ready, keep x, and leave j and k past every edge at x |
| TreeVisitor.Step | fwdpp/ts/tree_visitor.hpp:255-420 | operator() keeps the tree ready and j and k within their vectors; the root list after each call is TreeRoots.StepVisible |
| TreeVisitor.StepProgress | fwdpp/ts/tree_visitor.hpp:401-417 | on ordered index vectors, a call short of L moves x strictly forward to at most L, records [x, x') as the tree's interval, returns true and keeps the vectors ordered |
| TreeVisitor.StepStops | fwdpp/ts/tree_visitor.hpp:258-419 | on ordered index vectors, a call at L changes nothing and returns false |
| TreeVisitor.LeftRootFixedLeftmost | fwdpp/ts/tree_visitor.hpp:336-344 | when the root list is well formed, the fix-up moves left_root to its first entry, so the root iterator visits exactly the roots; TreeRoots.StepVisible and TreeRoots.ConstructedVisible establish that hypothesis after every call and at construction |
| TreeVisitor.KidsAbove | fwdpp/ts/tree_visitor.hpp:78-83 | the inner loop over a node's children computes the child-above-sample search |
| TreeVisitor.ClimbOutgoing | fwdpp/ts/tree_visitor.hpp:67-87 | the outer loop of update_roots_outgoing computes the outgoing climb |
| TreeVisitor.ClimbIncoming | fwdpp/ts/tree_visitor.hpp:142-154 | the loop of update_roots_incoming computes the incoming climb |
| TreeVisitor.Unroot | fwdpp/ts/tree_visitor.hpp:93-107 | the removal statements of update_roots_outgoing compute the removal of the topmost node from the root list |
| TreeVisitor.Root | fwdpp/ts/tree_visitor.hpp:109-121 | the insertion statements of update_roots_outgoing compute the insertion of c |
| TreeVisitor.UpdateRootsOutgoing | fwdpp/ts/tree_visitor.hpp:42-123 | update_roots_outgoing is the climb followed by the root list edits, and fails only on a cycle |
| TreeVisitor.ReplaceRoot | fwdpp/ts/tree_visitor.hpp:164-174 | the replacement statements of update_roots_incoming compute root taking c's place |
| TreeVisitor.DropRoot | fwdpp/ts/tree_visitor.hpp:184-194 | the removal statements of update_roots_incoming compute c's removal |
| TreeVisitor.UpdateRootsIncoming | fwdpp/ts/tree_visitor.hpp:125-197 | update_roots_incoming is the climb followed by the root list edits, and fails only on a cycle |
| TreeVisitor.UpdateSamples | fwdpp/ts/tree_visitor.hpp:288-292 | the call to update_samples_list computes the sample-list update, or reports a cycle |
| TreeVisitor.Detach | fwdpp/ts/tree_visitor.hpp:262-284 | the step T4 link statements compute Detached |
| TreeVisitor.Attach | fwdpp/ts/tree_visitor.hpp:298-318 | the step T2 link statements compute Attached |
| TreeVisitor.RemoveEdge | fwdpp/ts/tree_visitor.hpp:262-293 | the body of the step T4 loop is the link statements, the outgoing leaf counts, the sample lists when kept, and the outgoing root update, in that order |
| TreeVisitor.InsertEdge | fwdpp/ts/tree_visitor.hpp:298-327 | the body of the step T2 loop is the link statements, the incoming leaf counts, the sample lists when kept, and the incoming root update, in that order |
| TreeVisitor.OutgoingPass | fwdpp/ts/tree_visitor.hpp:260-295 | one pass of the step T4 loop leaves exactly the rest of the sweep to do from k + 1, or reports the sweep's failure |
| TreeVisitor.IncomingPass | fwdpp/ts/tree_visitor.hpp:296-330 | one pass of the step T2 loop leaves exactly the rest of the sweep to do from j + 1, or reports the sweep's failure |
| TreeVisitor.OutgoingStops | fwdpp/ts/tree_visitor.hpp:260 | the step T4 loop stops, with the tree unchanged, at the end of O or at an edge whose right end is not x |
| TreeVisitor.IncomingStops | fwdpp/ts/tree_visitor.hpp:296 | the step T2 loop stops, with the tree unchanged, at the end of I or at an edge whose left end is not x |
| TreeVisitor.RemoveOutgoing | fwdpp/ts/tree_visitor.hpp:260-295 | the step T4 loop computes the outgoing sweep |
| TreeVisitor.InsertIncoming | fwdpp/ts/tree_visitor.hpp:296-330 | the step T2 loop computes the incoming sweep |
| TreeVisitor.FixLeftRoot | fwdpp/ts/tree_visitor.hpp:336-344 | the fix-up loop computes the fix-up, or reports a cycle in left_sib |
| TreeVisitor.StepTree | fwdpp/ts/tree_visitor.hpp:258-419 | the body of operator() computes one step on the edges in input_left and output_right order |
| TreeVisitor.ConstructedReady | fwdpp/ts/tree_visitor.hpp:207-208 | a freshly built marginal tree is ready for the visitor, and its samples are its root list |
| TreeVisitor.Visitor.constructor | fwdpp/ts/tree_visitor.hpp:203-209 | j and k start at the beginning of I and O, x at 0, with the tree, the edges, L and the flag stored |
| TreeVisitor.Visitor.Advance | fwdpp/ts/tree_visitor.hpp:255-420 | operator() commits the tree, j, k and x of one step and returns its flag; when the step fails nothing changes |
| TreeVisitor.NewVisitor | fwdpp/ts/tree_visitor.hpp:200-216 | the constructor gives the marginal tree's errors first, then invalid_argument when there are edges but an index vector is empty, and otherwise a visitor at the start of the tables |
| TreeVisitor.NewVisitorPreserved | fwdpp/ts/tree_visitor.hpp:218-237 | the constructor with preserved nodes does the same on the tree built from both lists |
| TreeRoots.ClimbOutMarks | fwdpp/ts/tree_visitor.hpp:64-87 | the outgoing climb leaves every above_sample mark correct (a node is marked exactly when it is a sample or has a marked child); the only marks it changes go from 1 to 0, at or above where it starts, at nodes with a parent or at the topmost node when it ran off the top |
| TreeRoots.ClimbInMarks | fwdpp/ts/tree_visitor.hpp:140-154 | the incoming climb leaves every above_sample mark correct; the only marks it changes go from 0 to 1, at or above where it starts, at nodes with a parent or at the topmost node when it ran off the top |
| TreeRoots.DetachedFrom | fwdpp/ts/tree_visitor.hpp:262-284 | the link statements of step T4 take c out of p's child list, leave every other child list and the root list threaded, and keep every mark correct except possibly at p and its ancestors |
| TreeRoots.AttachedFrom | fwdpp/ts/tree_visitor.hpp:298-318 | the link statements of step T2 append c to p's child list, leave the other child lists threaded and the root list threaded everywhere but at c, and keep every mark correct except possibly at p and its ancestors |
| TreeRoots.RootsOutgoingTracked | fwdpp/ts/tree_visitor.hpp:42-123 | after an edge leaves, update_roots_outgoing makes above_sample correct again and leaves a root list that is exactly the parentless nodes above a sample |
| TreeRoots.RootsIncomingTracked | fwdpp/ts/tree_visitor.hpp:125-197 | after an edge enters, update_roots_incoming makes above_sample correct again and leaves a root list that is exactly the parentless nodes above a sample |
| TreeRoots.RemovedStages | fwdpp/ts/tree_visitor.hpp:285-292 | between the link statements and update_roots_outgoing, step T4 changes only the leaf counts and the sample lists |
| TreeRoots.AddedStages | fwdpp/ts/tree_visitor.hpp:319-326 | between the link statements and update_roots_incoming, step T2 changes only the leaf counts and the sample lists |
| TreeRoots.RemovedTracked | fwdpp/ts/tree_visitor.hpp:262-294 | one pass of the step T4 loop, for an edge in the tree, keeps the child lists, the marks and the root list exact |
| TreeRoots.AddedTracked | fwdpp/ts/tree_visitor.hpp:298-329 | one pass of the step T2 loop, for an edge whose child has no parent and is younger than its parent, keeps the child lists, the marks and the root list exact |
| TreeRoots.OutgoingTracked | fwdpp/ts/tree_visitor.hpp:260-295 | the whole step T4 loop keeps the child lists, the marks and the root list exact |
| TreeRoots.IncomingTracked | fwdpp/ts/tree_visitor.hpp:296-330 | the whole step T2 loop keeps the child lists, the marks and the root list exact |
| TreeRoots.VisibleMoved | fwdpp/ts/tree_visitor.hpp:336-344 | moving left_root to the first root and recording the interval keep the root list exact and make left_root its first entry |
| TreeRoots.StepVisible | fwdpp/ts/tree_visitor.hpp:255-420 | after each call of operator() the root list is exactly the parentless nodes above a sample, left_root is its first entry, and the walk along right_sib from left_root visits exactly that list |
| TreeRoots.ConstructedVisible | fwdpp/ts/marginal_tree.hpp:92-162 | the tree the constructors build has no edges, marks exactly the samples, and has the samples as its root list with left_root first |
| TreeRoots.UpNext | fwdpp/ts/tree_visitor.hpp:62-63 | a walk up the parent links continues one step from any node that has a parent |
| TreeRoots.UpLast | fwdpp/ts/tree_visitor.hpp:62-63 | a walk up the parent links that ends at a node got there from one of its children |
| TreeRoots.MarkedAbove | fwdpp/ts/tree_visitor.hpp:61-63 | when every mark is correct, a marked node is reached from some sample along the parent links |
| TreeRoots.AboveMarked | fwdpp/ts/tree_visitor.hpp:61-63 | when every mark is correct, every node a sample reaches along the parent links is marked |
| TreeRoots.AboveExactly | fwdpp/ts/tree_visitor.hpp:61-63 | in a tracked tree, above_sample marks a node exactly when some sample reaches it along the parent links |
| TreeRoots.RootsAreTopmost | fwdpp/ts/tree_visitor.hpp:50-52 | in a tracked tree, a node is in the root list exactly when it has no parent and some sample reaches it along the parent links: the roots are the topmost ancestors of the samples |
| VariantFiller.Indexed | fwdpp/ts/variant_filler.hpp:32-51 | the constructor's loop, when it does not throw, gives one sample index per node |
| VariantFiller.IndexedLabels | fwdpp/ts/variant_filler.hpp:36-51 | when the loop does not throw, the samples are distinct nodes, each mapped to its place in the list, and no other node is mapped |
| VariantFiller.IndexedWhenValid | fwdpp/ts/variant_filler.hpp:36-51 | samples that are distinct nodes never make the constructor throw |
| VariantFiller.IndexedErrors | fwdpp/ts/variant_filler.hpp:39-48 | a label outside [0, nnodes) among distinct labels gives out_of_range; a repeated node among valid labels gives invalid_argument |
| VariantFiller.IndexedFails | fwdpp/ts/variant_filler.hpp:36-51 | once the loop throws on a prefix of the sample list, the whole list throws the same exception |
| VariantFiller.SampleCount | fwdpp/ts/variant_filler.hpp:70-74 | the count operator() returns is at most the number of nodes visited |
| VariantFiller.Genotypes | fwdpp/ts/variant_filler.hpp:65-75 | the genotypes hold one entry per sample |
| VariantFiller.GenotypesMarked | fwdpp/ts/variant_filler.hpp:65-75 | every genotype is 0 or 1, and 1 exactly at the place of a visited sample |
| VariantFiller.SampleWalk | fwdpp/ts/variant_filler.hpp:66-80 | the walk from left_sample along next_sample visits only nodes of the tree |
| VariantFiller.CountIsOnes | fwdpp/ts/variant_filler.hpp:70-75 | on a walk without repeats and an injective index map, the returned count is the number of genotypes set to 1 |
| VariantFiller.FilledSamples | fwdpp/ts/variant_filler.hpp:65-80 | with the index map of a sample list, a sample's genotype is 1 exactly when the walk visits it |
| VariantFiller.IndexedInjective | fwdpp/ts/variant_filler.hpp:44-50 | the index map of a sample list sends distinct nodes to distinct places within the list |
| VariantFiller.FillStep | fwdpp/ts/variant_filler.hpp:70-75 | one visited node adds one to the count and sets its genotype to 1 when it is a sample, and changes nothing otherwise |
| VariantFiller.Filler.constructor | fwdpp/ts/variant_filler.hpp:30-34 | the filler holds the index map and nsamples zero genotypes |
| VariantFiller.Filler.Fill | fwdpp/ts/variant_filler.hpp:55-83 | operator() throws out_of_range for a node outside the tree, leaving the genotypes alone; otherwise it returns the number of samples below the node and leaves genotype 1 exactly for them |
| VariantFiller.Filler.Reset | fwdpp/ts/variant_filler.hpp:65 | std::fill sets every genotype back to 0 |
| VariantFiller.Filler.Tally | fwdpp/ts/variant_filler.hpp:66-82 | the loop from left_sample to right_sample counts the samples it visits and sets their genotypes |
| VariantFiller.Visit | fwdpp/ts/variant_filler.hpp:70-75 | the loop body for one node computes that node's step of the count and the genotypes |
| VariantFiller.NewFiller | fwdpp/ts/variant_filler.hpp:30-52 | the constructor throws the first bad sample's exception, and otherwise holds the index map and one zero genotype per sample |
| AddMutation.SetSlot | fwdpp/sugar/add_mutation.hpp:143-146 | pointing one diploid slot at a genome keeps the number of diploids |
| AddMutation.CountsNoWrap | fwdpp/sugar/add_mutation.hpp:136-139 | without wrap-around the 32-bit count updates are plain subtraction from the source and addition to an empty destination |
| AddMutation.FindMutation | fwdpp/sugar/add_mutation.hpp:51-52 | std::find gives the first mutation equal to the new one, or the end when there is none |
| AddMutation.GetMutIndex | fwdpp/sugar/add_mutation.hpp:25-86 | an equal mutation already present is reused with nothing changed; otherwise the new mutation overwrites the first mutation of count zero, or is appended with a count of zero; the result indexes the mutation and its count is the old count or zero |
| AddMutation.SelectedLength | fwdpp/sugar/add_mutation.hpp:170-182 | collect_gametes selects one slot per clist value 0 or 1 and two per value 2 |
| AddMutation.SelectedSlots | fwdpp/sugar/add_mutation.hpp:170-182 | every selected slot belongs to a listed individual, and every slot clist chooses for a listed individual is selected |
| AddMutation.CollectGametes | fwdpp/sugar/add_mutation.hpp:156-184 | the map groups exactly the selected slots by the genome index they hold: the first genome for clist 0 or 2, the second for clist 1 or 2 |
| AddMutation.GroupSizesCover | fwdpp/sugar/add_mutation.hpp:105-147 | when the visited genome indexes are distinct and cover every selected slot's genome, the groups' sizes add up to the number of selected slots |
| AddMutation.InsertKey | fwdpp/sugar/add_mutation.hpp:111-126 | one insertion keeps every key of both containers a valid mutation index |
| AddMutation.WithKeysSorted | fwdpp/sugar/add_mutation.hpp:109-130 | inserting the keys at their position's upper bound keeps both position-sorted containers sorted |
| AddMutation.WithKeysContents | fwdpp/sugar/add_mutation.hpp:109-130 | the neutral keys join the neutral container and the selected keys the selected one, each key once per listing; nothing else changes |
| AddMutation.AddKeys | fwdpp/sugar/add_mutation.hpp:107-131 | the inner loop inserts the keys into copies of the genome's containers, and each mutation's count rises by its occurrences among the keys times the group size |
| AddMutation.SetSlots | fwdpp/sugar/add_mutation.hpp:143-146 | exactly the slots of the group point at the new genome afterwards; every other slot keeps its genome |
| AddMutation.Moved | fwdpp/sugar/add_mutation.hpp:133-139 | the destination genome of a group holds one copy per moved slot |
| AddMutation.MovedContents | fwdpp/sugar/add_mutation.hpp:107-135 | the destination genome holds the source genome's keys plus the new neutral keys in its neutral container and the new selected keys in its selected one, position-sorted when the source was |
| AddMutation.ProcessGroup | fwdpp/sugar/add_mutation.hpp:105-147 | one iteration over a collected genome keeps the loop invariant: counts, destinations, genomes and diploid slots as after that many groups |
| AddMutation.MoveSlots | fwdpp/sugar/add_mutation.hpp:143-146 | the diploid update of one group keeps the diploid part of the loop invariant with the group pointed at its destination |
| AddMutation.DestsStep | fwdpp/sugar/add_mutation.hpp:133-134 | the recycled or appended destination is a genome of count zero that no group came from or went to, and the queue loses only its front |
| AddMutation.GametesStep | fwdpp/sugar/add_mutation.hpp:133-139 | after one group its destination holds the copy and its source has lost the moved copies |
| AddMutation.DiploidsStep | fwdpp/sugar/add_mutation.hpp:143-146 | after one group its slots name the destination and all other slots are unchanged |
| AddMutation.TotalStep | fwdpp/sugar/add_mutation.hpp:136-139 | without wrap-around the copies taken off the source are the copies put on the destination, so the total count is kept |
| AddMutation.SingleDemeChecks | fwdpp/sugar/add_mutation.hpp:321-335 | the single-deme checks fail only with out_of_range or runtime_error |
| AddMutation.MutationKeyChecks | fwdpp/sugar/add_mutation.hpp:555-561 | add_mutations' extra checks fail only with runtime_error |
| AddMutation.CheckSingleDeme | fwdpp/sugar/add_mutation.hpp:321-335 | the three check loops pass exactly when every individual index is below the number of diploids, every clist value is 0, 1 or 2, and the lists have one length |
| AddMutation.CheckMutationKeys | fwdpp/sugar/add_mutation.hpp:555-561 | the key checks pass exactly when every key indexes the mutations and counts and mutations have one size |
| AddMutation.IterationOrder | fwdpp/sugar/add_mutation.hpp:105 | the loop over the map visits each collected genome exactly once |
| AddMutation.CollectedGroups | fwdpp/sugar/add_mutation.hpp:341-342 | the map collect_gametes builds, in any iteration order, meets add_mutation_details' demands and its group sizes add up to the selected slots |
| AddMutation.InsertKeys | fwdpp/sugar/add_mutation.hpp:341-342 | collect_gametes then add_mutation_details raises each key's count by its occurrences times the number of selected slots, moves every selected slot to a genome with the keys added, and leaves every other slot alone |
| AddMutation.ApplyGroups | fwdpp/sugar/add_mutation.hpp:91-148 | add_mutation_details over the collected groups gives the same counts and slot outcome |
| AddMutation.AddMutation | fwdpp/sugar/add_mutation.hpp:281-344 | a failed check throws with nothing changed; otherwise the mutation is found or placed, only its count changes, rising by the number of selected slots, and the selected slots move to genomes that carry it |
| AddMutation.OneKeyCounts | fwdpp/sugar/add_mutation.hpp:342 | with a single key only that key's count moves, by the number of selected slots |
| AddMutation.AddMutations | fwdpp/sugar/add_mutation.hpp:499-564 | the single-deme checks then the key checks decide the error with nothing changed; otherwise each key's count rises by its occurrences times the number of selected slots and the selected slots move to genomes that carry the keys |
| AddMutation.MetapopShapeChecks | fwdpp/sugar/add_mutation.hpp:391-405 | the shape checks pass exactly when every clist value is 0, 1 or 2, the two lists have one length, and each pair of inner lists has one length |
| AddMutation.MetapopGuardAdmitsPastEnd | fwdpp/sugar/add_mutation.hpp:407-419 | with one deme of one diploid, individual 1 of deme 0 passes every check as written although it is past the deme's end |
| AddMutation.DemeLoopInRange | fwdpp/sugar/add_mutation.hpp:407-419 | the corrected deme loop passes exactly when every deme index from i on is a deme and each of its individual indexes lies inside it |
| AddMutation.MetapopChecks | fwdpp/sugar/add_mutation.hpp:391-419 | the corrected checks pass exactly when the shape checks pass and every deme and individual index is in range |
| AddMutation.MetapopKeysChecks | fwdpp/sugar/add_mutation.hpp:609-643 | the metapopulation add_mutations passes only with every index in range, every key a mutation and one size for counts and mutations |
| AddMutation.MultiLocusChecks | fwdpp/sugar/add_mutation.hpp:470-487 | the multi-locus checks pass only with valid clist values, one length, a locus below the first individual's number of loci and every individual index in range |
| AddMutation.MultiLocusInRange | fwdpp/sugar/add_mutation.hpp:479-487 | when every individual has the same number of loci, passing the checks means every selected genome exists |
| AddMutation.MultiLocusKeysChecks | fwdpp/sugar/add_mutation.hpp:690-713 | the multi-locus add_mutations passes only with the multi-locus checks passed, every key a mutation and one size for counts and mutations |
| AddMutation.SelectedSlotsMoved | fwdpp/sugar/add_mutation.hpp:133-146 | after add_mutation_details every selected slot points at a genome holding its old genome's keys with the new mutations inserted, carried once per slot of the group |
| AddMutation.OtherSlotsKept | fwdpp/sugar/add_mutation.hpp:141-146 | a diploid slot that was not selected keeps its genome key |
| AddMutation.GenomesOutcome | fwdpp/sugar/add_mutation.hpp:136-137 | a genome some slot was moved off loses one copy per moved slot, and an extant genome no slot was moved off is unchanged |
| AddMutation.DetailsOutcome | fwdpp/sugar/add_mutation.hpp:89-148 | the loop's final state is the population-level outcome of add_mutation_details for the selected slots |
| MutateRecombine.GenerateBreakpoints | fwdpp/mutate_recombine.hpp:15-29 | no breakpoints when the two genomes carry the same keys or one mutation between them; otherwise the breakpoints the recombination policy draws |
| MutateRecombine.SkipUpTo | fwdpp/mutate_recombine.hpp:61-66 | the upper bound by position: every key skipped is at or before the value and the key stopped at is after it |
| MutateRecombine.InsertNewMutation | fwdpp/mutate_recombine.hpp:54-69 | the keys not after the new key's position are copied, then the new key; the copy stops at the upper bound, and on sorted keys everything left lies after the new key |
| MutateRecombine.MergeNewMultiset | fwdpp/mutate_recombine.hpp:86-137 | the branch without breakpoints keeps every key of the first genome and adds exactly the side's new keys |
| MutateRecombine.MergeNewSorted | fwdpp/mutate_recombine.hpp:86-137 | on sorted inputs the branch without breakpoints gives position-sorted keys |
| MutateRecombine.SkipBelowBounds | fwdpp/mutate_recombine.hpp:172-178 | rec_gam_updater and rec_update_itr stop at the first key not before the value: every key skipped lies before it |
| MutateRecombine.NoCrossings | fwdpp/mutate_recombine.hpp:166-206 | a position before the current breakpoint has crossed none of the breakpoints still ahead |
| MutateRecombine.TrackMultiset | fwdpp/mutate_recombine.hpp:166-206 | the main loop outputs the keys of the current genome with an even number of breakpoints at or before them, those of the other genome with an odd number, and the side's new keys before the last breakpoint |
| MutateRecombine.TrackSorted | fwdpp/mutate_recombine.hpp:166-206 | on sorted inputs and sorted breakpoints the main loop's output is position-sorted |
| MutateRecombine.CrossoverKeys | fwdpp/mutate_recombine.hpp:148-206 | with sorted breakpoints the offspring takes the first parent's keys with an even number of breakpoints at or before them, the second parent's with an odd number, and the side's new keys, position-sorted |
| MutateRecombine.NoCrossoverKeys | fwdpp/mutate_recombine.hpp:86-137 | without breakpoints the offspring holds the first parent's keys and the side's new keys, position-sorted |
| MutateRecombine.CrossingsBetween | fwdpp/mutate_recombine.hpp:166-206 | the parity of the breakpoints crossed up to a position is the parity of their number |
| MutateRecombine.SourceParent | fwdpp/mutate_recombine.hpp:166-206 | a key with n breakpoints at or before its position comes from the first parent when n is even and from the second when n is odd |
| MutateRecombine.SameParents | fwdpp/mutate_recombine.hpp:19-26 | equal parents make the crossover give the same keys as no crossover, so skipping the breakpoints changes nothing |
| MutateRecombine.AtBreakpoint | fwdpp/mutate_recombine.hpp:166-206 | a mutation exactly at the first breakpoint comes from the second parent, not the first |
| MutateRecombine.MergeNewMutations | fwdpp/mutate_recombine.hpp:86-134 | the no-breakpoint loop builds each side as the merge of the first parent's keys with the side's new keys |
| MutateRecombine.NewKeyOnSide | fwdpp/mutate_recombine.hpp:168-188 | a new key before the next breakpoint: the current genome's keys before it are copied, the other genome skips past it, the key is added on its own side, and the loop invariant is kept |
| MutateRecombine.CrossOnSide | fwdpp/mutate_recombine.hpp:190-204 | a breakpoint: the current genome's keys before it are copied, the other genome skips past it, the two genomes swap and the loop invariant is kept |
| MutateRecombine.Recombine | fwdpp/mutate_recombine.hpp:138-206 | the main loop builds both sides as the crossover of the two parents with the new keys |
| MutateRecombine.MutateRecombine | fwdpp/mutate_recombine.hpp:73-210 | with neither new keys nor breakpoints the first parent's genome is reused unchanged; otherwise the offspring's keys are stored in the recycled genome at the front of the queue, or in a new genome of count zero, and nothing else changes |
| DiploidOffspring.AdjacentFind | fwdpp/ts/recording/diploid_offspring.hpp:65-66 | std::adjacent_find: the first index whose breakpoint equals the next one, with no such pair before it |
| DiploidOffspring.FindDifferent | fwdpp/ts/recording/diploid_offspring.hpp:83-85 | the end of the run of breakpoints equal to the current one |
| DiploidOffspring.NoRepeatsKept | fwdpp/ts/recording/diploid_offspring.hpp:67-70 | breakpoints without adjacent repeats are passed on unchanged |
| DiploidOffspring.ReducedMembers | fwdpp/ts/recording/diploid_offspring.hpp:79-93 | the reduced breakpoints are drawn from the input |
| DiploidOffspring.ReducedIncreasing | fwdpp/ts/recording/diploid_offspring.hpp:79-93 | on non-decreasing breakpoints the reduction is strictly increasing |
| DiploidOffspring.ReducedCount | fwdpp/ts/recording/diploid_offspring.hpp:79-93 | on non-decreasing breakpoints each value survives once when it occurs an odd number of times and not at all when even |
| DiploidOffspring.ReducedOddRuns | fwdpp/ts/recording/diploid_offspring.hpp:73-93 | the reduction keeps exactly the breakpoints seen an odd number of times, once each and increasing: double crossovers cancel |
| DiploidOffspring.ReducedKeepsSentinel | fwdpp/ts/recording/diploid_offspring.hpp:30-33 | a single max-double sentinel at the end survives the reduction |
| DiploidOffspring.OddBreakpoints | fwdpp/ts/recording/diploid_offspring.hpp:79-93 | the loop over runs builds the reduced breakpoints |
| DiploidOffspring.FirstBad | fwdpp/ts/recording/diploid_offspring.hpp:34-41 | the first loop segment whose right end is not above its left, every earlier one rising |
| DiploidOffspring.LoopEdges | fwdpp/ts/recording/diploid_offspring.hpp:34-50 | the loop's edges before a stop, segment by segment |
| DiploidOffspring.SplitBreakpointsAddEdges | fwdpp/ts/recording/diploid_offspring.hpp:20-51 | the calls are those of the edge sequence with the sentinel's segment ending at L |
| DiploidOffspring.Points | fwdpp/ts/recording/diploid_offspring.hpp:25-37 | one more cut point than breakpoints: 0, the breakpoints before the sentinel, and L |
| DiploidOffspring.EmittedThrows | fwdpp/ts/recording/diploid_offspring.hpp:34-41 | invalid_argument is thrown exactly when the cut points after 0 fail to rise, after the edges before the bad segment |
| DiploidOffspring.EmittedSegments | fwdpp/ts/recording/diploid_offspring.hpp:25-50 | without a throw segment k spans cut points k and k+1, from the first parent when k is even and the second when odd; segment 0 is dropped when the first breakpoint is 0 |
| DiploidOffspring.EmittedTiles | fwdpp/ts/recording/diploid_offspring.hpp:25-50 | without a throw and with no negative breakpoint the edges cover [0, L) left to right without gap or overlap |
| DiploidOffspring.EmittedEndpoints | fwdpp/ts/recording/diploid_offspring.hpp:27-48 | every edge has the offspring as child and one of the two parents as parent |
| DiploidOffspring.LoneSentinelAsWritten | fwdpp/ts/recording/diploid_offspring.hpp:25-34 | as written, a lone sentinel gives the single edge [0, max double) rather than [0, L), which does not tile the genome |
| DiploidOffspring.CancelledPairAsWritten | fwdpp/ts/recording/diploid_offspring.hpp:25-93 | as written, the breakpoints [x, x, max double] reduce to the lone sentinel and give the single edge [0, max double) |
| DiploidOffspring.AsWrittenAgrees | fwdpp/ts/recording/diploid_offspring.hpp:25-50 | with more than one breakpoint the corrected first edge is the library's |
| DiploidOffspring.SplitBreakpoints | fwdpp/ts/recording/diploid_offspring.hpp:55-97 | no breakpoints give the edge [0, L) from the first parent; otherwise the edges of the reduced breakpoints, which are the input when nothing repeats, in the corrected form of Findings: a lone sentinel gives [0, L), where the library gives [0, max double) |
| DiploidOffspring.PushAll | fwdpp/ts/recording/diploid_offspring.hpp:114-116 | the callback appends the edges to the edge table in order and changes nothing else |
| DiploidOffspring.RegisterDiploidOffspring | fwdpp/ts/recording/diploid_offspring.hpp:99-119 | the node is appended and its index cast to int32; when the cast equals INT32_MAX invalid_argument is thrown with no edges added; otherwise the edges of the corrected split (see Findings: a lone sentinel gives [0, L), where the library gives [0, max double)) are appended with the cast index as child, and that index returned as a size_t |
| DiploidOffspring.Births | fwdpp/ts/recording/diploid_offspring.hpp:137-139 | one birth record per edge, holding its interval and child |
| DiploidOffspring.ExtendStep | fwdpp/ts/recording/diploid_offspring.hpp:137-139 | one more successful extend stores the edge's birth and joins it to its parent's list |
| DiploidOffspring.ExtendAll | fwdpp/ts/recording/diploid_offspring.hpp:137-139 | the buffer stays valid; when every extend can succeed each edge's birth is stored and listed under its parent, otherwise the call fails |
| DiploidOffspring.RegisterDiploidOffspringBuffered | fwdpp/ts/recording/diploid_offspring.hpp:121-142 | the node is appended, its index cast to int32, and the edge table untouched; when the cast equals INT32_MAX invalid_argument is thrown; otherwise the births of the corrected split (see Findings: a lone sentinel gives [0, L), where the library gives [0, max double)) go to the edge buffer under their parents, and the cast index is returned as a size_t |
| GenerateOffspring.StablePartition | fwdpp/ts/generate_offspring.hpp:69-73 | std::stable_partition: the selected keys first, in their order, then the rest; the keys are permuted, and the split index counts the selected |
| GenerateOffspring.ProcessNewMutations | fwdpp/ts/generate_offspring.hpp:55-75 | all_mutations passes every key; selected_variants_only passes exactly the selected keys, in order, out of a permutation |
| GenerateOffspring.PolicyNewKeys | fwdpp/ts/generate_offspring.hpp:55-75 | the selected keys are passed under both policies; the neutral keys under all_mutations only |
| GenerateOffspring.UsedSorted | fwdpp/ts/generate_offspring.hpp:69-74 | the stable partition keeps position order among the keys passed on |
| GenerateOffspring.NoBreakpointKeys | fwdpp/ts/generate_offspring.hpp:118-123 | without breakpoints the offspring holds the parent genome's keys and the keys passed on, sorted |
| GenerateOffspring.Parental | fwdpp/ts/generate_offspring.hpp:148-158 | the parent's two genomes swap exactly when the swapper returns nonzero, or are the same genome |
| GenerateOffspring.GenerateOffspringHaploidGenome | fwdpp/ts/generate_offspring.hpp:100-126 | the intermediates keep all new keys with the swap and breakpoints; the offspring genome holds mutate_recombine's keys built from the keys the policy passes, placed as mutate_recombine places it |
| GenerateOffspring.Bumped | fwdpp/ts/generate_offspring.hpp:174-175 | each of the offspring's genomes gains one copy, one per slot, and no other count changes |
| GenerateOffspring.OnePlaced | fwdpp/ts/generate_offspring.hpp:159-164 | placing the first genome leaves genomes outside the queue unchanged and the queue still indexing genomes |
| GenerateOffspring.TwoPlaced | fwdpp/ts/generate_offspring.hpp:159-170 | after both placements earlier genomes outside the queue are unchanged, counts are the prior ones, and only the queue's front was taken |
| GenerateOffspring.GenerateOffspringDetails | fwdpp/ts/generate_offspring.hpp:128-179 | both intermediates keep the swaps, breakpoints and all new keys; the offspring's genomes are built from the possibly swapped parents and each gains one copy; genomes outside the queue are otherwise unchanged |
| Simplification.MakeSegment | fwdpp/ts/simplification/simplification.hpp:22-33 | a segment is made exactly when left < right, with the given bounds and node; otherwise invalid_argument |
| Simplification.MinRightBounds | fwdpp/ts/simplification/simplification.hpp:60-76 | set_partition's tright is at most every kept segment's right end, and is one of them or max double |
| Simplification.SurvivingFacts | fwdpp/ts/simplification/simplification.hpp:60-76 | set_partition keeps only segments of the overlap that end after the current left, never more than were there |
| Simplification.SurvivingDrops | fwdpp/ts/simplification/simplification.hpp:60-76 | a segment ending at or before the current left is dropped, so the overlap shrinks |
| Simplification.SegmentOverlapper.constructor | fwdpp/ts/simplification/simplification.hpp:79-85 | an empty queue and overlap, left 0 and right max double |
| Simplification.SegmentOverlapper.Init | fwdpp/ts/simplification/simplification.hpp:87-97 | the sweep restarts at the queue's front, stops before the sentinel, with an empty overlap, left 0 and right max double; a finalized queue makes the sweep valid |
| Simplification.SegmentOverlapper.ClearQueue | fwdpp/ts/simplification/simplification.hpp:147-151 | the queue is emptied and nothing else changes |
| Simplification.SegmentOverlapper.Enqueue | fwdpp/ts/simplification/simplification.hpp:153-158 | the segment is appended when left < right; otherwise its constructor throws invalid_argument and the queue is unchanged |
| Simplification.SegmentOverlapper.FinalizeQueue | fwdpp/ts/simplification/simplification.hpp:160-169 | the queue is sorted by left end and capped with the sentinel [maxlen, maxlen + 1) |
| Simplification.SegmentOverlapper.NumOverlaps | fwdpp/ts/simplification/simplification.hpp:171-175 | the number of segments in the overlap |
| Simplification.SegmentOverlapper.SetPartition | fwdpp/ts/simplification/simplification.hpp:60-76 | the overlap keeps exactly the segments that end after left, in order, and tright is their least right end |
| Simplification.SegmentOverlapper.Next | fwdpp/ts/simplification/simplification.hpp:99-133 | it returns true exactly when the overlap is non-empty; then [left, right) is non-empty, every overlapping segment covers it, and it starts at or after the previous interval's end; false means the queue is used up; the sweep's measure never grows and falls with each interval |
| Simplification.SegmentOverlapper.StartStep | fwdpp/ts/simplification/simplification.hpp:103-119 | with queue left, the next interval is non-empty, covered by every overlapping segment and after the previous one |
| Simplification.StartValues | fwdpp/ts/simplification/simplification.hpp:103-119 | the first branch of the call operator on values: the next interval and overlap keep the sweep invariant |
| Simplification.Partition | fwdpp/ts/simplification/simplification.hpp:63-75 | the compaction loop keeps the surviving segments and their least right end |
| Simplification.Starting | fwdpp/ts/simplification/simplification.hpp:111-117 | the segments that start at left are appended to the overlap, stopping at the first that does not or at the sentinel, and tright stays their least right end |
| Simplification.FinalizedReady | fwdpp/ts/simplification/simplification.hpp:160-169 | segments inside [0, maxlen), sorted and capped with the sentinel, form a queue the sweep can run on |
| Simplification.StartSound | fwdpp/ts/simplification/simplification.hpp:103-119 | the first branch yields a non-empty interval covered by the overlap, after the previous one, with the measure lowered |
| Simplification.EndSound | fwdpp/ts/simplification/simplification.hpp:121-131 | the second branch yields, while segments remain, the interval from the old right to the least right end, covered by all of them, with fewer segments |
| SimplificationBuffers.LastOfChild | fwdpp/ts/simplification/simplification.hpp:245-249 | the index of the last buffered edge for the child, or -1 when there is none |
| SimplificationBuffers.BufferEdge | fwdpp/ts/simplification/simplification.hpp:241-269 | the last edge of the same child is extended to right when it ends at left; otherwise a new edge is appended |
| SimplificationBuffers.BufferEdgeCovers | fwdpp/ts/simplification/simplification.hpp:241-269 | buffering adds exactly [left, right) to what the buffer covers for that child and nothing for others, keeps every edge non-empty, and adds at most one edge |
| SimplificationBuffers.OutputBufferedEdges | fwdpp/ts/simplification/simplification.hpp:271-286 | the buffer is appended to the new edges sorted by child, as a permutation keeping each child's edges in buffered order, and its length is returned |
| SimplificationBuffers.SortByStable | fwdpp/ts/simplification/simplification.hpp:276-281 | the stable sort keeps each child's edges in their buffered order |
| SimplificationBuffers.AddAncestry | fwdpp/ts/simplification/simplification.hpp:288-313 | a segment that starts where the last ends and maps to the same node extends it; otherwise a new segment is appended, which throws invalid_argument unless left < right |
| SimplificationBuffers.AddAncestryMaps | fwdpp/ts/simplification/simplification.hpp:288-313 | appending at or after the end of an increasing list succeeds, keeps it increasing, ends it at right, and maps exactly the old positions plus [left, right) to the node |
| SimplificationBuffers.RecordSite | fwdpp/ts/simplification/simplification.hpp:458-467 | the site is copied unless the last new site has its position; the mutation then points at the last new site, which has that position |
| SimplificationBuffers.RecordSiteSorted | fwdpp/ts/simplification/simplification.hpp:458-467 | fed positions in non-decreasing order, the new site table stays strictly increasing and ends at the mutation's position |
| SimplificationNodes.IdmapCount | fwdpp/ts/simplification/simplification.hpp:324-358 | a consistent idmap has exactly as many non-null entries as there are output nodes |
| SimplificationNodes.IdmapBound | fwdpp/ts/simplification/simplification.hpp:324-358 | every non-null idmap entry names an existing output node |
| SimplificationNodes.IdmapAllNull | fwdpp/ts/simplification/simplification.hpp:430-455 | an idmap of null entries is consistent with no output nodes |
| SimplificationNodes.IdmapSet | fwdpp/ts/simplification/simplification.hpp:355-358 | giving a null entry the next output id keeps the idmap consistent with one more node |
| SimplificationNodes.RecordSampleNodes | fwdpp/ts/simplification/simplification.hpp:430-455 | invalid_argument exactly when a sample repeats or is already mapped; otherwise each sample in order gets the next output node copied from its input node, the ancestry [0, L) on it and its idmap entry, keeping the idmap consistent |
| SimplificationNodes.RecordOne | fwdpp/ts/simplification/simplification.hpp:441-453 | one unmapped sample is recorded and the loop invariant extends by one |
| SimplificationNodes.BufferAll | fwdpp/ts/simplification/simplification.hpp:361-366 | after the loop the buffer covers for each child what it covered plus [left, right) exactly when some overlapping segment maps to that child, and its edges stay well formed |
| SimplificationNodes.MergeSweep | fwdpp/ts/simplification/simplification.hpp:330-378 | the sweep keeps the merge invariant over every interval of the overlapper: a sample keeps its node with its ancestry tiling up to the last right end; a non-sample gets at most one new node, only at a coalescence |
| SimplificationNodes.MergeRecord | fwdpp/ts/simplification/simplification.hpp:379-394 | the end of merge_ancestors: only the parent's ancestry and idmap entry change, both stay consistent, and a sample's ancestry tiles [0, maxlen) |
| SimplificationNodes.MergeAncestors | fwdpp/ts/simplification/simplification.hpp:316-395 | only the parent's ancestry and idmap entry change; a sample keeps its node and its ancestry tiles [0, maxlen); a non-sample either changes nothing or gets one new node copied from its input node; the new edges are appended well formed and sorted by child |
| SimplificationNodes.SortedEdgesOk | fwdpp/ts/simplification/simplification.hpp:276-281 | sorting the buffered edges keeps them well formed |
| SimplificationQueue.ClipMaps | fwdpp/ts/simplification/simplification.hpp:604-619 | the queued pieces map a position to a node exactly when it lies under the edge and the child's ancestry maps it to that node |
| SimplificationQueue.ClipOk | fwdpp/ts/simplification/simplification.hpp:612-616 | pieces of well-formed segments are well formed |
| SimplificationQueue.EdgesQueueSnoc | fwdpp/ts/simplification/simplification.hpp:404-424 | one more edge adds the clipped ancestry of its child at the end of the queue |
| SimplificationQueue.QueueEdge | fwdpp/ts/simplification/simplification.hpp:408-423 | the inner loop for one edge appends the child's ancestry clipped to the edge |
| SimplificationQueue.EdgesQueueOk | fwdpp/ts/simplification/simplification.hpp:404-424 | the queue built from edges with left < right holds well-formed segments |
| SimplificationQueue.FinalizedOk | fwdpp/ts/simplification/simplification.hpp:425 | a finalized queue of well-formed segments is ready for the sweep and names existing nodes |
| SimplificationQueue.QueueChildren | fwdpp/ts/simplification/simplification.hpp:604-619 | the child's segments that overlap [left, right) are appended, clipped to it, and nothing else changes |
| SimplificationQueue.QueueRun | fwdpp/ts/simplification/simplification.hpp:403-424 | the loop stops at the first edge of another parent and has queued the clipped ancestry under each edge of the parent |
| SimplificationQueue.FindParentChildSegmentOverlap | fwdpp/ts/simplification/simplification.hpp:397-427 | the returned index is the first edge of another parent; the queue holds the children's ancestry under the parent's edges sorted by left end and capped with the sentinel at maxlen, ready for the sweep |
| SimplificationQueue.FetchBirth | fwdpp/ts/simplification/simplification.hpp:630-635 | fetch and next read the birth at that link and the following link, or null at the list's end |
| SimplificationQueue.QueueBirth | fwdpp/ts/simplification/simplification.hpp:630-635 | one birth of the list appends its child's ancestry clipped to the birth's interval |
| SimplificationQueue.ProcessBirthsFromBuffer | fwdpp/ts/simplification/simplification.hpp:621-638 | walking the parent's list appends the clipped ancestry under each of its births in list order, keeping the queue well formed, and changes nothing else |
| SimplificationMutations.CoverNodeMaps | fwdpp/ts/simplification/simplification.hpp:531-551 | an increasing ancestry list maps a position to a node exactly when one of its segments holds it, and then to that segment's node |
| SimplificationMutations.Remap | fwdpp/ts/simplification/simplification.hpp:508-554 | one mutation in, one mutation out |
| SimplificationMutations.RemapKeeps | fwdpp/ts/simplification/simplification.hpp:531-551 | a remapped mutation keeps a node exactly when its position lies in a segment of its node's ancestry |
| SimplificationMutations.Entries | fwdpp/ts/simplification/simplification.hpp:477-481 | one map entry per mutation |
| SimplificationMutations.PrepMutationSimplification | fwdpp/ts/simplification/simplification.hpp:470-490 | the map holds one entry per mutation, a permutation sorted by node and then by position |
| SimplificationMutations.PrepFacts | fwdpp/ts/simplification/simplification.hpp:470-490 | a permutation of the entries describes the mutations and visits every one of them |
| SimplificationMutations.RemapNodes | fwdpp/ts/simplification/simplification.hpp:506-554 | only mutation nodes change; when every ancestry list is increasing each becomes the node of the segment holding its position, or null |
| SimplificationMutations.ScanStep | fwdpp/ts/simplification/simplification.hpp:531-551 | one pass of the innermost loop advances the entry or the segment and keeps the scan invariant |
| SimplificationMutations.FilterKeepsSorted | fwdpp/ts/simplification/simplification.hpp:558-562 | std::remove_if keeps the order of what it keeps, so position order survives |
| SimplificationMutations.RebuildSites | fwdpp/ts/simplification/simplification.hpp:563-570 | each kept mutation, in order, is repointed at a new site of its position and its key preserved; new sites are input sites, no more than the mutations, strictly sorted when the positions were sorted |
| SimplificationMutations.RebuiltSimplified | fwdpp/ts/simplification/simplification.hpp:556-573 | the filter and the site rebuild after the remap leave Simplified tables |
| SimplificationMutations.SimplifyMutations | fwdpp/ts/simplification/simplification.hpp:492-582 | the survivors are exactly the mutations whose position lies in their node's ancestry, moved to that segment's node in order with their keys preserved; sites are rebuilt from theirs, strictly sorted when positions were |
| SimplifyTables.StartOk | fwdpp/ts/simplify_tables.hpp:33-45 | after a fresh state and record_sample_nodes, the simplifier state is consistent, every sample keeps its node with ancestry [0, L), and unmapped nodes have no ancestry |
| SimplifyTables.MergeParent | fwdpp/ts/simplify_tables.hpp:57-62 | finding the overlaps and merging one parent keeps the state consistent and the samples kept, changes only that parent's ancestry and idmap entry, and only appends nodes and edges |
| SimplifyTables.NextParentUnvisited | fwdpp/ts/simplify_tables.hpp:55-58 | with each parent's edges contiguous, the parent at the start of the next run has not been merged yet |
| SimplifyTables.Overwrite | fwdpp/ts/simplify_tables.hpp:66-76 | std::copy of the new edges to the destination: the prefix up to the destination, then the new edges, then the rest of the old table |
| SimplifyTables.TransferNewNodesAndEdges | fwdpp/ts/simplification/simplification.hpp:584-602 | the edge table is cut at the destination and the node table replaced by the new nodes; nothing else changes |
| SimplifyTables.StartSimplification | fwdpp/ts/simplify_tables.hpp:33-45 | invalid_argument exactly when a sample repeats; otherwise one new node per sample, the state consistent, every sample kept, and every list increasing |
| SimplifyTables.FlushEdges | fwdpp/ts/simplify_tables.hpp:63-76 | the buffered new edges are written at the destination, which moves past them; the rest of the table is kept |
| SimplifyTables.SortedParentStep | fwdpp/ts/simplify_tables.hpp:55-71 | one pass of the loop merges the next parent, moves past its edges and keeps the state and sweep invariants |
| SimplifyTables.SortedEdgeLoop | fwdpp/ts/simplify_tables.hpp:52-77 | after the loop the written prefix of the edge table holds the new edges, the state is consistent, every sample kept and every ancestry list increasing |
| SimplifyTables.SimplifySorted | fwdpp/ts/simplify_tables.hpp:21-92 | invalid_argument with the tables unchanged exactly when a sample repeats; otherwise the idmap counts the new nodes, each a copy of its input node, every sample keeps its node over [0, L), the new edges are well formed, and the mutations and sites are Simplified |
| SimplifyTablesBuffered.LatestTime | fwdpp/ts/simplify_tables.hpp:123-127 | the latest birth time among the alive nodes, or minus max double when there are none |
| SimplifyTablesBuffered.MaxTime | fwdpp/ts/simplify_tables.hpp:123-127 | the loop computes the latest time of the alive nodes |
| SimplifyTablesBuffered.MergeBufferedBirths | fwdpp/ts/simplify_tables.hpp:138-148 | a parent's buffered births are queued and merged, keeping the simplifier state ready and changing only that parent's ancestry and idmap entry |
| SimplifyTablesBuffered.MergeNewParents | fwdpp/ts/simplify_tables.hpp:128-155 | the parents younger than the alive nodes are merged from the buffer newest first, the state stays ready, and new edges are only appended |
| SimplifyTablesBuffered.MergeYoungerParents | fwdpp/ts/simplify_tables.hpp:166-177 | the table's parents older than the existing parent are merged, stopping at a parent not older, and the state stays ready |
| SimplifyTablesBuffered.QueueParentEdges | fwdpp/ts/simplify_tables.hpp:210-232 | runtime_error exactly when an edge in the range or the one after it belongs to another parent; otherwise the clipped ancestry under the range is queued |
| SimplifyTablesBuffered.MergeExistingParent | fwdpp/ts/simplify_tables.hpp:164-240 | one existing parent: the older parents, the location checks, its edges and its buffered births; it either throws runtime_error or keeps the state ready and moves past its edges |
| SimplifyTablesBuffered.MergeExistingParents | fwdpp/ts/simplify_tables.hpp:164-240 | the loop over existing parents either throws runtime_error or keeps the state ready |
| SimplifyTablesBuffered.MergeAllParents | fwdpp/ts/simplify_tables.hpp:123-251 | an alive index past the buffer gives out_of_range; otherwise every parent is merged or runtime_error is thrown, and the state stays ready |
| SimplifyTablesBuffered.ReplaceTables | fwdpp/ts/simplify_tables.hpp:254-270 | the tables take the new nodes and edges, the mutations and sites are Simplified, and the buffer is reset to one empty list per new node |
| SimplifyTablesBuffered.SimplifyBuffered | fwdpp/ts/simplify_tables.hpp:94-271 | a repeated sample gives invalid_argument, a bad alive index out_of_range, a location check runtime_error, each with tables and buffer unchanged; otherwise the result of the sorted simplifier's contract and an empty buffer with one list per new node |
| EdgeBuffer.BirthEdges | fwdpp/ts/recording/edge_buffer.hpp:155-163 | one edge per birth of the parent's list, in list order, with the birth's interval and child and the parent as parent |
| EdgeBuffer.ParentBirths | fwdpp/ts/recording/edge_buffer.hpp:154-163 | walking the parent's list yields the edges of its births in order |
| EdgeBuffer.Location | fwdpp/ts/recording/edge_buffer.hpp:69-92 | the parent's first and last edge index in the table, or the max size_t pair when it has no edge |
| EdgeBuffer.LocationKeyOrder | fwdpp/ts/recording/edge_buffer.hpp:95-102 | sorting by (minus parent time, start, parent) puts older parents first and, at one time, lower starts first |
| EdgeBuffer.FirstBadAt | fwdpp/ts/recording/edge_buffer.hpp:57-63 | the first alive index that head rejects decides the error thrown |
| EdgeBuffer.LocationsDisjoint | fwdpp/ts/recording/edge_buffer.hpp:95-116 | in a sorted table, the edge ranges of two different existing parents in sorted order do not overlap and come in order |
| EdgeBuffer.NewerEnd | fwdpp/ts/recording/edge_buffer.hpp:131-137 | the first loop stops at the first edge whose parent is not older than the existing parent, having passed only older ones |
| EdgeBuffer.UpToEnd | fwdpp/ts/recording/edge_buffer.hpp:140-146 | the second loop stops at the parent's start or at the first edge whose parent is younger |
| EdgeBuffer.StepOffset | fwdpp/ts/recording/edge_buffer.hpp:127-153 | the offset after handling one existing parent: past its edges when it has some |
| EdgeBuffer.TakeNewer | fwdpp/ts/recording/edge_buffer.hpp:131-137 | the first loop lifts over exactly the edges it passes |
| EdgeBuffer.TakeUpTo | fwdpp/ts/recording/edge_buffer.hpp:140-146 | the second loop lifts over exactly the edges it passes |
| EdgeBuffer.ParentEdges | fwdpp/ts/recording/edge_buffer.hpp:148-151 | the parent's existing edges from start to stop inclusive, in order |
| EdgeBuffer.OldEdges | fwdpp/ts/recording/edge_buffer.hpp:127-153 | the table edges lifted over for one existing parent and the offset after it |
| EdgeBuffer.UpToReachesStart | fwdpp/ts/recording/edge_buffer.hpp:140-146 | with sorted, consistent locations the second loop always reaches the parent's start |
| EdgeBuffer.BufferedDistinct | fwdpp/ts/recording/edge_buffer.hpp:56-63 | distinct alive nodes give distinct parents with new edges |
| EdgeBuffer.LocationsInRange | fwdpp/ts/recording/edge_buffer.hpp:69-92 | the locations found name valid lists and valid edge ranges |
| EdgeBuffer.FoundConsistent | fwdpp/ts/recording/edge_buffer.hpp:48-117 | the locations found for distinct alive nodes are consistent with the edge table |
| EdgeBuffer.MergeOldAndBuffered | fwdpp/ts/recording/edge_buffer.hpp:226-233 | after the births copied so far, every table edge and every buffered birth of an alive parent appears exactly once in the new edge list when the table is sorted |
| NestedForwardLists.AppendKeepsValid | fwdpp/ts/nested_forward_lists.hpp:128-136 | linking a new element after a non-empty list's tail keeps the lists well formed |
| NestedForwardLists.InsertKeepsValid | fwdpp/ts/nested_forward_lists.hpp:28-35 | making a new element the only element of an empty list keeps the lists well formed |
| NestedForwardLists.GrowKeepsValid | fwdpp/ts/nested_forward_lists.hpp:118-122 | adding empty lists at the end keeps the lists well formed |
| NestedForwardLists.NullifyKeepsValid | fwdpp/ts/nested_forward_lists.hpp:165-174 | forgetting a list keeps the lists well formed |
| NestedForwardLists.Pushed | fwdpp/ts/nested_forward_lists.hpp:112-137 | extend adds the data index at the end of its list, creating missing lists empty, and no other list changes |
| NestedForwardLists.NestedForwardLists.Contents | fwdpp/ts/nested_forward_lists.hpp:149-163 | fetching along a list gives one value per element |
| NestedForwardLists.NestedForwardLists.AllContents | fwdpp/ts/nested_forward_lists.hpp:149-163 | the values of every list |
| NestedForwardLists.NestedForwardLists.constructor | fwdpp/ts/nested_forward_lists.hpp:84-86 | empty data, heads and tails |
| NestedForwardLists.NestedForwardLists.Push | fwdpp/ts/nested_forward_lists.hpp:123-136 | the value is appended to data and joins the end of its list: a new head for an empty list, otherwise linked after the old tail, which it replaces |
| NestedForwardLists.NestedForwardLists.Grow | fwdpp/ts/nested_forward_lists.hpp:118-122 | heads and tails are resized with null and the new lists are empty; data and links are unchanged |
| NestedForwardLists.NextInList | fwdpp/ts/nested_forward_lists.hpp:104-110 | next of a list's element is the list's following element, or null at its end |
| NestedForwardLists.WalkSuffix | fwdpp/ts/nested_forward_lists.hpp:104-110 | following next from an element visits exactly the rest of its list |
| DataMatrixDetails.TalliedCounts | fwdpp/internal/data_matrix_details.hpp:25-44 | each key's tally rises by its occurrences in the container when its mutation is extant, and a key is present exactly when it was or is newly seen extant |
| DataMatrixDetails.UpdateMutationKeys | fwdpp/internal/data_matrix_details.hpp:25-44 | the loop tallies the container's extant keys |
| DataMatrixDetails.TallyAllCounts | fwdpp/internal/data_matrix_details.hpp:49-123 | over many containers each key's tally is its prior tally plus its occurrences in all of them when extant, and a key is present exactly when seen |
| DataMatrixDetails.SampleKeys | fwdpp/internal/data_matrix_details.hpp:49-79 | the keys tallied for a sample are exactly the extant keys of its genomes, each counted once per genome carrying it |
| DataMatrixDetails.TallyAllConcat | fwdpp/internal/data_matrix_details.hpp:57-76 | tallying two runs of containers is tallying the first and then the second |
| DataMatrixDetails.TallyIndividual | fwdpp/internal/data_matrix_details.hpp:57-76 | one individual's genomes are tallied in turn |
| DataMatrixDetails.TallyLoci | fwdpp/internal/data_matrix_details.hpp:95-114 | every locus of a multi-locus individual is tallied in turn |
| DataMatrixDetails.MutationKeys | fwdpp/internal/data_matrix_details.hpp:49-123 | the neutral tally when neutral keys are asked for, the selected tally when selected keys are, each empty otherwise |
| DataMatrixDetails.TallyIfAsked | fwdpp/internal/data_matrix_details.hpp:57-76 | the loop over individuals extends the tally by one individual when asked and keeps it empty otherwise |
| DataMatrixDetails.Site | fwdpp/internal/data_matrix_details.hpp:138-159 | one entry per individual for a genotype matrix, two for a haplotype matrix |
| DataMatrixDetails.SiteRow | fwdpp/internal/data_matrix_details.hpp:170-193 | a row has one entry per individual for genotypes and two for haplotypes |
| DataMatrixDetails.GenotypeEntry | fwdpp/internal/data_matrix_details.hpp:138-159 | a genotype entry counts the individual's genomes that carry the key |
| DataMatrixDetails.HaplotypeEntries | fwdpp/internal/data_matrix_details.hpp:138-159 | haplotype entries 2j and 2j + 1 are 1 exactly when the first and the second genome of individual j carry the key |
| DataMatrixDetails.SiteRowSum | fwdpp/internal/data_matrix_details.hpp:138-193 | a row sums to the number of genome copies in the sample that carry the key, for both matrix types |
| DataMatrixDetails.UpdateSite | fwdpp/internal/data_matrix_details.hpp:138-159 | genotype: one entry from 0 to 2, zero exactly when neither genome carries the key; haplotype: two entries, each 1 exactly when that genome carries it |
| DataMatrixDetails.AppendRow | fwdpp/internal/data_matrix_details.hpp:172-180 | the loop over individuals appends the key's row |
| DataMatrixDetails.PositionsOf | fwdpp/internal/data_matrix_details.hpp:127-134 | one position per key, the key's mutation position, in key order |
| DataMatrixDetails.ColOf | fwdpp/data_matrix.hpp:258-274 | a column of a row-major matrix has one entry per row |
| DataMatrixDetails.ColEntry | fwdpp/data_matrix.hpp:258-274 | entry r of column c is entry c of row r |
| DataMatrixDetails.RowsLayout | fwdpp/internal/data_matrix_details.hpp:170-193 | the filled rows are stored row-major: rows times columns entries, row r being key r's row |
| DataMatrixDetails.FilledRowSum | fwdpp/internal/data_matrix_details.hpp:170-193 | row r of the filled matrix sums to the number of sampled genome copies carrying key r |
| DataMatrixDetails.FilledGenotypeColumn | fwdpp/internal/data_matrix_details.hpp:170-193 | in a genotype matrix, entry (r, c) counts individual c's copies of key r |
| DataMatrixDetails.FillRows | fwdpp/internal/data_matrix_details.hpp:163-197 | the loops fill exactly the row-major rows of the keys |
| DataMatrixDetails.LocusOf | fwdpp/internal/data_matrix_details.hpp:208-230 | the first locus whose interval holds the position, or runtime_error when none does |
| DataMatrixDetails.FindLocus | fwdpp/internal/data_matrix_details.hpp:208-230 | the loop finds the first locus holding the position, or throws runtime_error |
| DataMatrixDetails.LocusOfFirst | fwdpp/internal/data_matrix_details.hpp:212-222 | the search returns the first holding locus, not a later one |
| DataMatrixDetails.LocusPairs | fwdpp/internal/data_matrix_details.hpp:257-259 | each individual's genome pair at the key's locus |
| DataMatrixDetails.MultiRowsSucceed | fwdpp/internal/data_matrix_details.hpp:243-298 | the multi-locus fill succeeds exactly when every key lies in a locus and varies in the sample; otherwise runtime_error |
| DataMatrixDetails.MultiRowsErrPersists | fwdpp/internal/data_matrix_details.hpp:243-298 | a throw at one key ends the fill with that error |
| DataMatrixDetails.MultiRow | fwdpp/internal/data_matrix_details.hpp:255-269 | one key's row: its locus, the sample's entries at that locus and the invariant-site check |
| DataMatrixDetails.FillMultiRows | fwdpp/internal/data_matrix_details.hpp:243-298 | the loop over keys builds the multi-locus rows or stops at the first throw |
| DataMatrixDetails.FillMatrix | fwdpp/internal/data_matrix_details.hpp:304-319 | the filled matrix with one column per individual for genotypes and two for haplotypes, dispatched by population type |
| DataMatrixDetails.UpdatePositions | fwdpp/internal/data_matrix_details.hpp:127-134 | the positions of the keys, in key order |
| DataMatrixDetails.FilledRectangular | fwdpp/internal/data_matrix_details.hpp:304-319 | a filled matrix has rows times columns entries in each half and one position per row |
| DataMatrixDetails.LineSums | fwdpp/internal/data_matrix_details.hpp:321-352 | nothing for an empty matrix; otherwise one sum per row or per column |
| DataMatrixDetails.LineSum | fwdpp/internal/data_matrix_details.hpp:342-348 | the unsigned 32-bit sum of one row or column, wrapping modulo 2^32 |
| DataMatrixDetails.RowColSums | fwdpp/internal/data_matrix_details.hpp:321-352 | the loops give the row or column sums |
| DataMatrix.SortKeys | fwdpp/data_matrix.hpp:151-171 | the keys are permuted into non-decreasing position order |
| DataMatrix.FilterKeys | fwdpp/data_matrix.hpp:173-187 | exactly the keys the predicate rejects are kept, each as often as before |
| DataMatrix.FilterKeysOrder | fwdpp/data_matrix.hpp:173-187 | the filter keeps the order of the kept keys |
| DataMatrix.GenotypeMatrix | fwdpp/data_matrix.hpp:189-212 | the filled genotype matrix, one column per individual |
| DataMatrix.HaplotypeMatrix | fwdpp/data_matrix.hpp:214-237 | the filled haplotype matrix, two columns per individual |
| DataMatrix.FilledRectangularIfOk | fwdpp/data_matrix.hpp:189-237 | a matrix built without a throw is rectangular |
| DataMatrix.RowSums | fwdpp/data_matrix.hpp:239-255 | the row sums of the neutral half and of the selected half |
| DataMatrix.ColSums | fwdpp/data_matrix.hpp:257-274 | the column sums of the neutral half and of the selected half |
| DataMatrix.RowSumsCountCarriers | fwdpp/data_matrix.hpp:239-255 | each neutral row sum of a single-locus matrix counts the sampled genome copies carrying that key |
| MsSampling.RemoveNoDerived | fwdpp/internal/ms_sampling.hpp:10-21 | the block keeps, in order, exactly the sites some sampled genome carries |
| MsSampling.RemoveNoDerivedExactly | fwdpp/internal/ms_sampling.hpp:13-19 | a site is dropped exactly when every character of its string is '0' |
| MsSampling.TrimLast | fwdpp/internal/ms_sampling.hpp:23-35 | the block becomes every non-empty string cut by its last character, with the all-'0' sites then removed |
| MsSampling.TrimmedFacts | fwdpp/internal/ms_sampling.hpp:23-35 | trimming sites of n+1 characters leaves sites of n characters and keeps the block sorted by position |
| MsSampling.FindSite | fwdpp/internal/ms_sampling.hpp:48-50 | the find_if index is within the block, |block| meaning not found |
| MsSampling.FindSiteFirst | fwdpp/internal/ms_sampling.hpp:93-97 | no site before the index found lies within epsilon of the position, and a found site does |
| MsSampling.Zeros | fwdpp/internal/ms_sampling.hpp:53-54 | the new site string has n characters, all '0' |
| MsSampling.UpdateSampleBlock | fwdpp/internal/ms_sampling.hpp:40-63 | each key's position is located or appended as an all-'0' site of n characters, and character scalar*i+offset of that site is set to '1' |
| MsSampling.UpdatedBlockFacts | fwdpp/internal/ms_sampling.hpp:45-62 | recording a genome keeps the old positions and every other genome's characters, new sites are '0' for the other genomes, and every key's position ends with a '1' in the genome's column |
| MsSampling.RemoveFixedVariants | fwdpp/internal/ms_sampling.hpp:65-79 | the sample keeps, in order, exactly the sites not carried by all nsam genomes |
| MsSampling.RemoveFixedExactly | fwdpp/internal/ms_sampling.hpp:70-77 | on sites of nsam characters, a site is dropped exactly when every character is '1' |
| MsSampling.MsSampleSeparateSingleDeme | fwdpp/internal/ms_sampling.hpp:81-160 | the neutral and selected keys of both genomes of every listed diploid are recorded in columns 2i and 2i+1, then each block is finished (fixed sites removed when asked, sorted, trimmed for odd n) |
| MsSampling.RecordDiploid | fwdpp/internal/ms_sampling.hpp:104-115 | the four update_sample_block calls for one diploid record its neutral and selected keys and keep every site at nsam characters |
| MsSampling.RecordPair | fwdpp/internal/ms_sampling.hpp:104-109 | the first genome is recorded in column 2i and the second in column 2i+1 of one block, keeping every site at nsam characters |
| MsSampling.UpdatedBlockWellFormed | fwdpp/internal/ms_sampling.hpp:53-60 | recording keeps every site string at n characters |
| MsSampling.FinishBlock | fwdpp/internal/ms_sampling.hpp:117-148 | one block is filtered of fixed sites when asked, sorted by position and trimmed when n is odd |
| MsSampling.FinishedFacts | fwdpp/internal/ms_sampling.hpp:117-158 | a finished block is sorted by position, with nsam characters per site, or nsam - 1 when n is odd |
| MsSampling.MsSampleFacts | fwdpp/internal/ms_sampling.hpp:143-158 | both blocks are sorted by position; for odd n sampled as the first n of 2*|diplist| genomes every site has n characters, and for even n every site has 2*|diplist| |
| SamplingDetails.Ones | fwdpp/sugar/sampling/sampling_details.hpp:21 | an added fixation's string has nsam characters, all '1' |
| SamplingDetails.AddFixations | fwdpp/sugar/sampling/sampling_details.hpp:11-32 | the sample is extended at its end by the fixation sites the policy takes |
| SamplingDetails.FixationSitesExactly | fwdpp/sugar/sampling/sampling_details.hpp:17-31 | one all-'1' site of nsam characters is added per fixation the ALL/NEUTRAL/SELECTED policy takes, at that fixation's position, and nothing else |
| SamplingDetails.FinishSample | fwdpp/sugar/sampling/sampling_details.hpp:34-48 | fixations are added only when removeFixed is false, then the block is sorted by position |
| SamplingDetails.FinishFacts | fwdpp/sugar/sampling/sampling_details.hpp:34-48 | the finished block is sorted by position and is a permutation of the sample plus the added fixation sites |
| SamplingDetails.FinishSampleSeparate | fwdpp/sugar/sampling/sampling_details.hpp:50-70 | the neutral block takes the neutral fixations and the selected block the selected ones, each sorted |
| SamplingDetails.SeparateFixationsSplit | fwdpp/sugar/sampling/sampling_details.hpp:55-59 | every fixation site added to the neutral block comes from a neutral fixation, and every one added to the selected block from a selected fixation |
| SamplingDetails.FinishSampleLoci | fwdpp/sugar/sampling/sampling_details.hpp:72-91 | every locus takes all fixations when removeFixed is false and is sorted, locus i staying in place i |
| SamplingDetails.FinishSepAllAt | fwdpp/sugar/sampling/sampling_details.hpp:93-118 | finishing separated loci keeps their number and finishes locus i into place i |
| SamplingDetails.FinishSampleSepLoci | fwdpp/sugar/sampling/sampling_details.hpp:93-118 | each locus's neutral block takes neutral fixations and its selected block selected ones, each sorted |
| SamplingDetails.SampleDetails | fwdpp/sugar/sampling/sampling_details.hpp:160-171 | the separated sample of 2*|individuals| genomes, selected sites after neutral ones, finished with all fixations |
| SamplingDetails.SampleSepDetails | fwdpp/sugar/sampling/sampling_details.hpp:193-203 | the separated sample with its neutral block finished by neutral and its selected block by selected fixations |
| SamplingDetails.SampleDetailsFacts | fwdpp/sugar/sampling/sampling_details.hpp:160-171 | the sample of individuals is sorted by position and every site has one character per sampled genome |
| SamplingDetails.FinishWellFormed | fwdpp/sugar/sampling/sampling_details.hpp:34-48 | finishing keeps every site at nsam characters |
| FitnessModels.SiteDependentFitness | fwdpp/fitness_models.hpp:46-116 | the fitness is starting_fitness with the homozygote and heterozygote policies applied in the order of the two-list merge; two empty lists give starting_fitness unchanged |
| FitnessModels.ScanSecond | fwdpp/fitness_models.hpp:86-112 | one outer turn for a key of the first genome calls het on the second genome's earlier keys, hom if it meets the key itself, and het on the key when it does not |
| FitnessModels.HetRest | fwdpp/fitness_models.hpp:113-114 | the keys left in the second genome after the merge each get the heterozygote policy, in order |
| FitnessModels.HetAllCount | fwdpp/fitness_models.hpp:113-114 | the trailing keys of a list without repeats are each called heterozygote exactly once and never homozygote |
| FitnessModels.CallsCount | fwdpp/fitness_models.hpp:86-114 | with both lists position-sorted and one mutation per site, a key in both genomes gets the homozygote policy exactly once, and a key in only one gets the heterozygote policy exactly once |
| FitnessModels.SameGenomeAllHom | fwdpp/fitness_models.hpp:86-112 | two copies of the same genome make every key a homozygote, in list order |
| FitnessModels.MultiplicativeProduct | fwdpp/fitness_models.hpp:238-247 | the multiplicative policies multiply the fitness by 1 + scaling*s per homozygote and 1 + h*s per heterozygote |
| FitnessModels.AdditiveSum | fwdpp/fitness_models.hpp:267-276 | the additive policies add scaling*s per homozygote and h*s per heterozygote |
| FitnessModels.MultiplicativeDiploid | fwdpp/fitness_models.hpp:230-249 | the fitness is the product, from 1, of the factors of the merge's calls; a diploid with no selected mutation has fitness 1 |
| FitnessModels.AdditiveDiploid | fwdpp/fitness_models.hpp:259-278 | the fitness is 1 plus the sum, from 0, of the terms of the merge's calls; a diploid with no selected mutation has fitness 1 |
| PopBase.Population.constructor | fwdpp/sugar/poptypes/popbase.hpp:155-177 | a new population has no mutations, counts, lookup or fixations, and one genome carried 2N times, the product taken as a 32-bit unsigned value |
| PopBase.Population.FromInput | fwdpp/sugar/poptypes/popbase.hpp:179-186 | the population takes the given genomes and mutations with every other container empty |
| PopBase.Population.ValidateDiploidKeys | fwdpp/sugar/poptypes/popbase.hpp:45-61 | out_of_range exactly when a key is past the last genome; runtime_error exactly when both are in range and one genome is extinct; success otherwise |
| PopBase.Population.ValidateGameteCounts | fwdpp/sugar/poptypes/popbase.hpp:62-74 | success exactly when every tally equals the n of the genome at its index; a runtime_error names a tally that differs, and a tally past the last genome is an out-of-bounds read |
| PopBase.KeyCheckDone | fwdpp/sugar/poptypes/popbase.hpp:225-240 | a container passes check_mutation_keys exactly when every key names a mutation whose neutrality matches the container; otherwise it fails with out_of_range or logic_error |
| PopBase.Population.CheckMutationKeys | fwdpp/sugar/poptypes/popbase.hpp:218-241 | the outcome is the first failing key's error, or success; a non-empty container leaves mcounts resized to the number of mutations, and nothing else changes |
| PopBase.Resized | fwdpp/sugar/poptypes/popbase.hpp:227 | std::vector::resize with value 0 gives n entries, the old ones kept and the new ones zero |
| PopBase.ResizedTwice | fwdpp/sugar/poptypes/popbase.hpp:225-227 | resizing on every key of the loop is the same as resizing once |
| PopBase.GameteCheckDone | fwdpp/sugar/poptypes/popbase.hpp:258-262 | the genome loop succeeds exactly when every genome's neutral keys name neutral mutations and its selected keys selected ones |
| PopBase.Population.CheckGametes | fwdpp/sugar/poptypes/popbase.hpp:258-262 | each genome's neutral then selected container is checked in turn, stopping at the first error |
| PopBase.LookupOf | fwdpp/sugar/poptypes/popbase.hpp:254-257 | after the loop the lookup holds the position of every mutation |
| PopBase.PositionsExactly | fwdpp/sugar/poptypes/popbase.hpp:254-257 | a position is in the lookup exactly when some mutation has it |
| PopBase.Population.FillInternalStructures | fwdpp/sugar/poptypes/popbase.hpp:243-264 | the lookup becomes the set of mutation positions and the fixations are cleared; the outcome is the genome check's, and on success every count is the number of copies carried, each genome weighted by its n |
| PopBase.Population.ClearContainers | fwdpp/sugar/poptypes/popbase.hpp:202-212 | every container is emptied |
| PopBase.PopulationFromInput | fwdpp/sugar/poptypes/popbase.hpp:179-190 | the new population holds the given data and every mutation position; it throws exactly when some genome holds a key out of range or in the wrong container, and otherwise every count is the number of copies carried, each genome weighted by its n |
| TableCollection.TableCollection.constructor | fwdpp/ts/types/table_collection.hpp:77-85 | a table collection of length maxpos starts with every table and index empty and edge_offset 0 |
| TableCollectionFunctions.SortMutationTable | fwdpp/ts/table_collection_functions.hpp:94-104 | the mutation table is replaced by its sort on site position and every other table is kept |
| TableCollectionFunctions.RebuildSites | fwdpp/ts/table_collection_functions.hpp:119-134 | the loop of rebuild_site_table computes the new site table and renumbered mutations |
| TableCollectionFunctions.RebuiltKeepsFields | fwdpp/ts/table_collection_functions.hpp:106-128 | every rebuilt mutation keeps all its fields except the site index |
| TableCollectionFunctions.RebuiltFromCopy | fwdpp/ts/table_collection_functions.hpp:106-117 | every new site is a site of the old table |
| TableCollectionFunctions.RebuiltOrdered | fwdpp/ts/table_collection_functions.hpp:106-134 | the rebuilt mutations' site indexes never decrease |
| TableCollectionFunctions.RebuiltAllReferenced | fwdpp/ts/table_collection_functions.hpp:106-134 | every new site is referenced by some mutation |
| Sorting.SortByPermutes | fwdpp/ts/table_collection_functions.hpp:62-67 | sorting keeps every element with its multiplicity |
| Sorting.SortBySorted | fwdpp/ts/table_collection_functions.hpp:62-67 | the sorted sequence is ordered by the key |
| CompactMutations.RepointNext | fwdpp/algorithm/compact_mutations.hpp:70-84 | one lookup update of the reorder loop repoints a counted mutation's entry to its new index |

## Left out

- NestedForwardLists.NestedForwardLists.Extend: the next entries of elements of a list dropped by nullify_list are not stated, as nothing reads them.
- extend_from_container, release_memory and the reverse iterators of nested_forward_lists: conveniences not used by the modelled core.
- get_minimal_edge_sort_cmp, edge_table_strictly_sorted and edge_table_minimally_sorted: debug checks, not used by the modelled operations.
- The edge_liftover argument of stitch_together_edges is a local of the model; the source clears it at the end, so callers see the same state.
- The emplace_back_* variants of table_collection: the same as push_back_*, forwarding constructor arguments.
- Floating point: positions, times, selection coefficients and fitness are exact `real`s; rounding, NaN and infinity appear only where the source tests for them (the validators, maxpos), as explicit values.
- Randomness: the Poisson and uniform draws of generate_new_mutations and generate_breakpoints, the parent swaps and the mutation model of generate_offspring, and the individual draws of ms_sample and split/admix_demes are parameters (fixed breakpoints, new keys, swap flags, individual lists) or left out; generate_new_mutations itself (fwdpp/mutate_recombine.hpp:30-52) is not modelled beyond the keys it returns.
- generate_mutations_and_breakpoints and the generate_offspring dispatcher: their callbacks become the parameters of GenerateOffspring.GenerateOffspringDetails.
- The deprecated simplify_tables overloads (fwdpp/ts/simplify_tables.hpp:277-338) and make_simplifier_internal_state: thin wrappers; the simplifier state is a set of locals of the drivers.
- SimplifyTables.Overwrite: past the end of the edge table the model extends the table, where std::copy would write out of bounds; the drivers only copy where the edges fit.
- SimplificationMutations.SimplifyMutations: the relation to the remapped mutations (Remap) is stated only when every ancestry list is increasing in position, which simplification maintains; sortedness and the site checks hold unconditionally.
- SimplifyTablesBuffered.SimplifyBuffered: the mutation and site part is the sorted driver's, stated under the same increasing-ancestry condition.
- TreeRoots.StepVisible: the root list is proved exact for calls whose edges fit the tree: each edge leaving has its child's parent as its parent, each edge entering finds its child without a parent (TreeRoots.OutgoingFits, TreeRoots.IncomingFits), and every edge joins a child to an older parent (TreeRoots.EdgesRanked, with the node birth times as the rank). These are what a valid, indexed edge table gives; the model takes them as hypotheses rather than deriving them from the tables.
- MutationType.InfsitesMutation: the random positions are a finite parameter, and the method requires that one of them is free in the lookup. The source's do-while loop (fwdpp/types/mutation.hpp:107-117) redraws until it finds a free position, so with every position taken it never ends; the model does not describe that case.
- std::sort is not stable, so entries with equal keys may come out in any order. The model sorts with one stable insertion sort (Sorting.SortBy), so the members below promise one particular order among equal keys, where the library promises only some sorted permutation. Their results are sorted permutations of the input, as every std::sort result is; the order of equal keys is the model's choice, not the library's.
- TableCollection.TableCollection.BuildIndexes: the index vectors are stated as the stable sort of the edge ids; std::sort may order edges with equal keys differently.
- TableCollectionFunctions.SortEdgeTable: the edge table is stated as the stable sort of the edges; std::sort may order edges with equal keys differently.
- TableCollectionFunctions.SortMutationTable: the mutation table is stated as the stable sort of the mutations; std::sort may order mutations at the same site differently.
- CompactMutations.CompactMutations: the new mutation order is stated as the stable sort by position; std::sort may order mutations at the same position differently, and the new keys with them.
- Simplification.SegmentOverlapper.FinalizeQueue: the segment queue is stated as the stable sort by left end; std::sort may order segments with the same left end differently.
- SamplingDetails.FinishSample: the sample is stated as the stable sort by position; std::sort may order sites at the same position differently.
- MsSampling.FinishBlock: the block is stated as the stable sort by position; std::sort may order sites at the same position differently.
- Unordered containers: the iteration order of the std::unordered_map built by collect_gametes is a parameter (the order of the group keys); every result is stated for any order.
- AddMutation.AddKeys: mutation counts are unbounded naturals, with no 32-bit wrap of mcounts.
- The metapopulation and multi-locus add_mutation(s) overloads: modelled through their argument checks only; their insertion, which differs from the single-deme one only in how collect_gametes walks demes or loci, is not modelled.
- MutationCounts.ProcessGametes: process_gametes lives in a header that is not part of this model; it is modelled by its documented meaning (every count recomputed from the extant genomes).
- mutation_base::is_equal (forward_types.hpp is not part of this model): taken to compare position, neutrality and the extra field.
- table_collection::indexed() and the three-argument marginal_tree constructor are not part of this model; they are taken as "both index vectors have one entry per edge" and as the plain constructor.
- rec_gam_updater and rec_update_itr (mutation_internal.hpp is not part of this model): taken to skip to the first key whose position is not below the breakpoint.
- The scalar, mutation and diploid stream helpers (scalar_serialization.hpp, io/mutation.hpp and io/diploid.hpp are not part of this model): modelled as tagged words with a matching read for every write.
- util.hpp's mutation list: std::list is modelled as a sequence; erase while iterating becomes a filter.
- The DataMatrixDetails debug checks (the NDEBUG extinct-genome check): assertions, not behaviour.
- ms_sample_separate_mlocus and the multi-locus sample_details overload (fwdpp/internal/ms_sampling.hpp:162-257, fwdpp/sugar/sampling/sampling_details.hpp:173-191): the model samples one locus; the sample_details overloads that draw individuals with a random number generator are left out with the other draws.
- haplotype_dependent_fitness, site_dependent_fitness2 and no_selection: alternative fitness front ends not used by the modelled core.
- popbase::is_equal and the reserve calls of its constructors: a field-by-field comparison and memory hints.
- Serialization does not store the neutral flag, so a mutation whose flag change_neutral toggled does not round-trip; the round-trip lemmas state this as a condition rather than an unconditional equality.

## Findings

| source | as written | input that shows it | evidently intended | confidence | as-written member | corrected member |
|---|---|---|---|---|---|---|
| fwdpp/ts/marginal_tree.hpp:37-44 | the rvalue forward_input_samples moves a into the result, then appends b to the moved-from a | samples [0] and preserved nodes [1] give [0] | the samples followed by the preserved nodes, [0, 1], as the lvalue overload gives | not executed | MarginalTree.MovedDropsPreserved | MarginalTree.ForwardInputSamples |
| fwdpp/ts/marginal_tree_functions/children.hpp:58-62 | operator() tests only `current_child >= size` before reading sib[current_child] | the last call of any iteration, with current_child == NULL (-1), reads sib[-1]; any other negative index is read too | NULL ends the iteration without a read, and every other index outside the array throws | not executed | Children.GuardAdmitsNull | Children.ChildIterator.Next |
| fwdpp/ts/marginal_tree_functions/roots.hpp:43-47 | operator() tests only `current_root >= size` before reading right_sib[current_root] | the last call of any iteration, with current_root == NULL (-1), reads right_sib[-1]; any other negative index is read too | NULL ends the iteration without a read, and every other index outside right_sib throws | not executed | Roots.RootGuardAdmitsNull | Roots.RootIterator.Next |
| fwdpp/sugar/add_mutation.hpp:407-419 | the deme check compares the loop counter with `>`, and each individual index with its deme's size with `>` | one deme of one diploid, individual 1 of deme 0: every check passes and collect_gametes reads past the deme | demes[i] < number of demes and every individual index < its deme's size | not executed | AddMutation.MetapopGuardAdmitsPastEnd | AddMutation.MetapopChecks |
| fwdpp/ts/recording/diploid_offspring.hpp:25-34 | with the breakpoints [max double] only, the first edge is [0, max double) | breakpoints [max double] with L = 1 give the edge [0, max double) for the first parent; so do [x, x, max double] for any x below max double, a double crossover the reduction cancels (DiploidOffspring.CancelledPairAsWritten) | the edge [0, L), as every later edge is clipped at L | not executed | DiploidOffspring.LoneSentinelAsWritten | DiploidOffspring.EmittedTiles |
