# reneu core, modelled in Dafny

This project models the core of reneu, a neuron reconstruction toolkit.

- **`skeleton.dfy`**: the Python `Skeleton` class.
  - Building the node and attribute tables (`from_nodes_and_parents`).
  - The little-endian "precomputed" binary skeleton format, decoding and encoding (`from_precomputed`, `to_precomputed`).
  - Equality (`__eq__`).
  - A float32 is kept as its four bytes and is never interpreted, so the byte layout is exact. Every Python exception on the way becomes an `Err` value that names its cause.
- **`volume.dfy`**: the C-order scan of a 3-D volume that several loops share.
  - The scan is a sequence of "looks": a voxel and one axis (z, y, x), in loop order.
  - Lemmas state that the scan visits every look of the volume exactly once and in increasing order.
  - Also here: the set of labels of a volume, and the in-place relabelling of a volume.
- **`disjoint_sets.dfy`**: the union-find over segment ids (`DisjointSets`), and two functions beside it.
  - The union-find is kept as a map from each tracked id to its root: the parent map after full path compression.
  - Its contracts are stated as a partition. `union_set` joins exactly the two sets it names, whichever root survives.
  - `seg_pairs_to_array`.
  - `agglomerated_segmentation_to_merge_pairs`: the merge pairs are exactly the fragment pairs that touch inside one agglomerated segment.
- **`region_graph.dfy`**: the region adjacency graph and its greedy mean-affinity agglomeration.
  - A contact edge counts the touching voxel faces between two regions and sums their affinities.
  - The constructor's triple loop is proved to give every pair of regions exactly the faces and affinity between them.
  - On a well-formed graph (edges kept at the smaller id, as the constructor leaves it, so the first merge of `greedy_merge_until`), `merge` is proved to lose no contact: what any region had with the two merged regions, it now has with the survivor. `merge` does not keep that layout, and a later merge can leave a contact on the absorbed region (`MergeStrandsContact`).
  - `greedy_merge_until` is proved to merge exactly the heap entries at or above the threshold, highest mean first. Its union-find ends as exactly the partition joined along those entries, and every voxel is relabelled by its root.
- **`nblast.dfy`**: NBLAST scoring.
  - The bin lookup of `ScoreTable`: `binary_search` never reads the first threshold (index 0); it is proved to return the number of the other thresholds that lie below the value, i.e. the largest index i >= 1 whose threshold is below the value, or 0.
  - The fill loops of the `NBLASTScoreMatrix` constructor.
  - `get_mean_score_matrix`: the result is symmetric with a unit diagonal.

Floating-point values are modelled as follows:
- Affinities, edge counts and sums, distances, dot products and scores are `real`. Rounding is not modelled.
- The constant `std::numeric_limits<float>::max()` is the exact real 340282346638528859811704183484516925440.
- Integer casts are written out: `ToInt32`, `ToUint32` and `ToUint8` wrap modulo 2^32 or 2^8.

Where a C++ `assert` guards a function (shapes that must agree), it is a `requires`. Where Python raises or asserts, the model returns `Err`.

The region graph's constructor counts voxels per id (`id2count`, `cpp/include/reneu/segmentation/region_graph.hpp:137-140`) but never stores the counts. Every region therefore has `voxelNum == 0`, and `merge` always absorbs its first argument into its second. The model keeps this behaviour; `BuiltGraphContacts` and `MergeWithoutTallies` state it. The intended tallies are not modelled, because the source gives no other use of them.

## Model

| member | source | states |
|---|---|---|
| Skeleton.ZeroIsSigned | reneu/skeleton.py:156 | a float32 word equals 0 under `np.ma.allequal` exactly when it is +0.0 or -0.0 |
| Skeleton.ToInt32 | reneu/skeleton.py:40-49 | storing into the int32 attribute table keeps an in-range value, always lands in int32 range, and differs from the input by a multiple of 2^32 |
| Skeleton.ToUint32 | reneu/skeleton.py:146 | the cast to uint32 keeps values below 2^32 and always lands in [0, 2^32) |
| Skeleton.ToUint8 | reneu/skeleton.py:145 | the cast to uint8 keeps values 0..255 and always differs from the input by a multiple of 256 |
| Skeleton.DecodeEncodeU32 | reneu/skeleton.py:150 | unpacking a packed little-endian uint32 gives back the count |
| Skeleton.NodesAndParents | reneu/skeleton.py:32-51 | intended behaviour. Succeeds exactly when the node array has 4 columns and the node, parent and (given) class counts agree; otherwise fails with the assertion that fired. On success each node is its row, the class column is the class (0 when classes are omitted), the parent column is the parent, and the child and sibling columns are -2 |
| Skeleton.DefaultClassesUnreachable | reneu/skeleton.py:35 | with classes omitted, the code as written always fails (`len(None)`) where the intended function succeeds; with classes given, the two agree |
| Skeleton.FromNodesAndParents | reneu/skeleton.py:32-51 | filling a table with -2 and then writing the class and parent columns in place produces exactly the as-written result |
| Skeleton.EdgeRowsAt | reneu/skeleton.py:107-112 | edge row k is the pair of uint32 words at byte 8k of the edge section |
| Skeleton.LastParentIsInt32 | reneu/skeleton.py:113-115 | a scattered parent always lies in int32 range |
| Skeleton.ScatterParents | reneu/skeleton.py:113-115 | the scatter succeeds exactly when every edge's child is a vertex index (otherwise IndexError); each vertex then gets the parent of the last edge naming it as child, or -2 when none does |
| Skeleton.Decode | reneu/skeleton.py:78-140 | fewer than 8 bytes is exactly the header error; a buffer shorter than the mandatory sections is the length error; decoding succeeds exactly when every check passes, and then yields the decoded sections |
| Skeleton.DecodeLayout | reneu/skeleton.py:103-140 | where each decoded field comes from. x, y and z are words of the vertex section. The radius comes from the radii section, or is zero when absent. The class comes from the class section, or is 0 when absent. The parent is the last edge naming the vertex. The child and sibling columns are -2 |
| Skeleton.FromPrecomputed | reneu/skeleton.py:78-140 | the procedure (length checks, in-place parent scatter, optional sections) returns exactly what `Decode` specifies, errors included |
| Skeleton.XyzBytesLayout | reneu/skeleton.py:151 | bytes 12i..12i+12 of the vertex section are node i's x, y and z |
| Skeleton.EdgeBytesLayout | reneu/skeleton.py:152 | bytes 8k..8k+8 of the edge section are edge k's child and parent, each as a little-endian uint32 |
| Skeleton.RadiusBytesLayout | reneu/skeleton.py:157 | bytes 4i..4i+4 of the radii section are node i's radius |
| Skeleton.LayoutClass | reneu/skeleton.py:161 | byte i of the class section is node i's class cast to uint8 |
| Skeleton.RadiiSection | reneu/skeleton.py:155-157 | the radii section is 4 bytes per node when a radius or a class is nonzero, and empty otherwise |
| Skeleton.ClassSection | reneu/skeleton.py:160-161 | the class section is one byte per node when a class is nonzero, and empty otherwise |
| Skeleton.Encode | reneu/skeleton.py:142-162 | fails, and only then, when a count does not fit a uint32. The length is the mandatory sections plus 5 bytes per node when a class is nonzero, plus 4 when only a radius is nonzero, plus nothing otherwise |
| Skeleton.WriteXyz | reneu/skeleton.py:151 | the loop appends exactly the vertex section |
| Skeleton.WriteEdges | reneu/skeleton.py:152 | the loop appends exactly the edge section |
| Skeleton.WriteRadii | reneu/skeleton.py:157 | the loop appends exactly the radii section |
| Skeleton.ZeroColumns | reneu/skeleton.py:156-160 | the one-pass test reports the class column all zero exactly when no class section is written. It reports both columns zero exactly when no radii section is written |
| Skeleton.ToPrecomputed | reneu/skeleton.py:142-162 | the buffer-appending procedure returns exactly what `Encode` specifies |
| Skeleton.EncodePassesLengthChecks | reneu/skeleton.py:94-137 | the encoder's output passes every length check of the decoder. The header repeats the counts. The radii and class sections are present exactly when they were written |
| Skeleton.EncodedDecodable | reneu/skeleton.py:113-115 | decoding the encoder's output succeeds exactly when every edge's child, as a uint32, is a vertex index |
| Skeleton.EncodeDecodeRoundTrip | reneu/skeleton.py:142-162 | what decoding returns for an encoded skeleton. xyz is unchanged. The radius is unchanged when written, and otherwise +0.0 where the original was ±0. The class is cast to uint8. The parent comes from the edges. The child and sibling columns are -2 |
| Skeleton.RoundTripExact | reneu/skeleton.py:78-162 | a skeleton in the decoder's form comes back unchanged from encoding then decoding. That form has uint8 classes, no -0.0 radius, parents given by the edges, and unset child and sibling columns |
| Skeleton.Equals | reneu/skeleton.py:166-169 | two skeletons are equal exactly when every node's x, y, z and radius are close to the other's and the attribute tables agree in every column |
| Skeleton.EqualsNeedsEqualAttributes | reneu/skeleton.py:168-169 | any differing attribute entry makes `==` false, however close the nodes are |
| Skeleton.EqualsReflexive | reneu/skeleton.py:166-169 | a skeleton equals itself whenever closeness is reflexive |
| Skeleton.RoundTripEquals | reneu/skeleton.py:166-169 | under `==`, a skeleton in the decoder's form comes back equal from encoding then decoding, -0.0 radii included |
| Volume.VoxelSteps | cpp/include/reneu/segmentation/region_graph.hpp:155-162 | one voxel of the scan makes exactly three looks (z, y, x) |
| Volume.ScanStepsBounds | cpp/include/reneu/segmentation/region_graph.hpp:149-151 | every look of the triple loop lies inside the volume |
| Volume.ScanStepsCover | cpp/include/reneu/segmentation/region_graph.hpp:149-151 | every voxel and axis of the volume is looked at by the triple loop |
| Volume.ScanStepsAscending | cpp/include/reneu/segmentation/region_graph.hpp:149-151 | the triple loop visits looks in strictly increasing C order, so none twice |
| Volume.WholeScan | cpp/include/reneu/segmentation/disjoint_sets.hpp:193-195 | the looks made before the loop counters run out are the whole scan |
| Volume.Labels | cpp/include/reneu/segmentation/region_graph.hpp:136 | the ids of the volume include every voxel's id |
| Volume.MapVolume | cpp/include/reneu/segmentation/region_graph.hpp:220-222 | the in-place transform replaces every voxel by the function of its old value |
| DisjointSets.FindSetOf | cpp/include/reneu/segmentation/disjoint_sets.hpp:89-95 | find_set answers a nonzero id with a nonzero id, and differs from the id only when it returns the id's nonzero root |
| DisjointSets.FindSetCases | cpp/include/reneu/segmentation/disjoint_sets.hpp:89-95 | find_set is the root, or the id itself when the root is 0 |
| DisjointSets.WithSet | cpp/include/reneu/segmentation/disjoint_sets.hpp:72-77 | make_set tracks the id, makes a new id a singleton, and leaves every tracked id as it was |
| DisjointSets.MakeSetIdempotent | cpp/include/reneu/segmentation/disjoint_sets.hpp:72-77 | make_set on a tracked id changes nothing, so repeating it changes nothing |
| DisjointSets.MakeSetKeepsPartition | cpp/include/reneu/segmentation/disjoint_sets.hpp:72-77 | make_set keeps a valid partition, keeps every existing set, and puts the new id with nothing else |
| DisjointSets.UnionJoins | cpp/include/reneu/segmentation/disjoint_sets.hpp:79-81 | whichever root survives, union_set keeps a valid partition on the same ids and puts s0 with s1. Afterwards two ids are together exactly when they were before, or one was with s0 and the other with s1 |
| DisjointSets.UnionFindSet | cpp/include/reneu/segmentation/disjoint_sets.hpp:89-95 | after a union, find_set agrees on the two ids unless their root is 0. Then it answers each with itself, and so tells them apart |
| DisjointSets.MakeAndUnionJoins | cpp/include/reneu/segmentation/disjoint_sets.hpp:83-87 | make_and_union_set leaves a valid partition that is exactly the old one joined along the pair |
| DisjointSets.JoinsSnoc | cpp/include/reneu/segmentation/disjoint_sets.hpp:110-112 | one more make_and_union_set extends "joined along the pairs so far" to the next pair |
| DisjointSets.JoinsKeepsTogether | cpp/include/reneu/segmentation/disjoint_sets.hpp:97-113 | after joining, the two ids of every pair are together, and ids that were together stay together |
| DisjointSets.RelatedOutside | cpp/include/reneu/segmentation/disjoint_sets.hpp:97-113 | an id neither tracked nor named by a pair stays alone |
| DisjointSets.SortedIdsOrder | cpp/include/reneu/segmentation/disjoint_sets.hpp:124 | the walk over a `std::map` visits every tracked id once, in increasing order |
| DisjointSets.SortedPairsOrder | cpp/include/reneu/segmentation/disjoint_sets.hpp:110 | the walk over a `std::set` of pairs visits every pair once, in lexicographic order |
| DisjointSets.RowSet | cpp/include/reneu/segmentation/disjoint_sets.hpp:103-108 | every row of the n x 2 array is among the collected pairs |
| DisjointSets.RowsOf | cpp/include/reneu/segmentation/disjoint_sets.hpp:103-108 | the gathering loop collects exactly the distinct rows |
| DisjointSets.SegPairsToArray | cpp/include/reneu/segmentation/disjoint_sets.hpp:17-29 | a fresh n x 2 array whose row i is pair i |
| DisjointSets.ToArrayRows | cpp/include/reneu/segmentation/disjoint_sets.hpp:121-134 | to_array's rows are exactly (id, find_set(id)) for the tracked ids whose find_set differs from themselves, first column strictly increasing |
| DisjointSets.RelabelledId | cpp/include/reneu/segmentation/disjoint_sets.hpp:149-155 | background stays 0; a nonzero id becomes its find_set, which is nonzero |
| DisjointSets.Singletons | cpp/include/reneu/segmentation/disjoint_sets.hpp:56-59 | make_set over the ids leaves each a set of its own |
| DisjointSets.DisjointSets.constructor | cpp/include/reneu/segmentation/disjoint_sets.hpp:47-49 | the empty structure tracks no id |
| DisjointSets.DisjointSets.FromSegmentation | cpp/include/reneu/segmentation/disjoint_sets.hpp:52-60 | every nonzero label of the segmentation is a singleton, and nothing else is tracked |
| DisjointSets.DisjointSets.MakeSet | cpp/include/reneu/segmentation/disjoint_sets.hpp:72-77 | the state becomes make_set of the old state |
| DisjointSets.DisjointSets.UnionSet | cpp/include/reneu/segmentation/disjoint_sets.hpp:79-81 | the state stays valid and becomes a union of the old state's two sets |
| DisjointSets.DisjointSets.MakeAndUnionSet | cpp/include/reneu/segmentation/disjoint_sets.hpp:83-87 | the state stays valid and is the old partition joined along the pair |
| DisjointSets.DisjointSets.MergeArray | cpp/include/reneu/segmentation/disjoint_sets.hpp:97-113 | the state stays valid and is the old partition joined along the distinct rows in lexicographic order |
| DisjointSets.DisjointSets.ToArray | cpp/include/reneu/segmentation/disjoint_sets.hpp:121-134 | the array holds to_array's rows, in ascending id order |
| DisjointSets.DisjointSets.Relabel | cpp/include/reneu/segmentation/disjoint_sets.hpp:136-167 | every voxel becomes its relabelled id: background stays 0, anything else becomes its find_set |
| DisjointSets.MergePairsExactly | cpp/include/reneu/segmentation/disjoint_sets.hpp:193-225 | a pair is emitted exactly when, across some face, two different foreground fragments meet inside one agglomerated segment, later voxel first; so every pair joins two distinct nonzero fragments |
| DisjointSets.EmitAt | cpp/include/reneu/segmentation/disjoint_sets.hpp:196-222 | one voxel appends exactly its z, y and x pairs, in that order |
| DisjointSets.EmitRow | cpp/include/reneu/segmentation/disjoint_sets.hpp:195-223 | the x loop extends the pairs of the scan so far by those of one row |
| DisjointSets.AgglomeratedSegmentationToMergePairs | cpp/include/reneu/segmentation/disjoint_sets.hpp:182-231 | a fresh n x 2 array whose rows are exactly the merge pairs of the whole scan, in scan order |
| RegionGraph.PlusAdds | cpp/include/reneu/segmentation/region_graph.hpp:26-28 | adding two contacts adds their counts and their sums |
| RegionGraph.AbsorbEdge | cpp/include/reneu/segmentation/region_graph.hpp:26-31 | absorb resets the other edge, and the two edges together hold the same count and sum as before |
| RegionGraph.AbsorbMeanBetween | cpp/include/reneu/segmentation/region_graph.hpp:22-31 | the mean affinity after absorbing lies between the two means before |
| RegionGraph.AbsorbProps | cpp/include/reneu/segmentation/region_graph.hpp:41-63 | the receiver keeps its id, adds the other's voxels, and adds every one of its contacts key by key. The other keeps its id and nothing else |
| RegionGraph.AbsorbConserves | cpp/include/reneu/segmentation/region_graph.hpp:55-63 | towards any id, the receiver now holds what the two regions held together, and it touches exactly the ids either touched |
| RegionGraph.Touch | cpp/include/reneu/segmentation/region_graph.hpp:86 | indexing the region map inserts a default region for a missing id and changes nothing else |
| RegionGraph.WithContactBetween | cpp/include/reneu/segmentation/region_graph.hpp:71-79 | accumulate_edge adds exactly one face of the given affinity between two different regions (the second one foreground) and leaves every other contact alone |
| RegionGraph.WithContactWellFormed | cpp/include/reneu/segmentation/region_graph.hpp:71-79 | between tracked regions, accumulate_edge keeps every contact at its smaller id with at least one face, and keeps the region ids |
| RegionGraph.InitialGraph | cpp/include/reneu/segmentation/region_graph.hpp:142-146 | one region per nonzero fragment id |
| RegionGraph.InitialRegions | cpp/include/reneu/segmentation/region_graph.hpp:136-146 | the loop over the unique ids builds exactly one empty region per nonzero id |
| RegionGraph.ContactsBetween | cpp/include/reneu/segmentation/region_graph.hpp:149-166 | after a run of looks, each contact has grown by the number of faces between its two regions and by their affinities |
| RegionGraph.ContactsWellFormed | cpp/include/reneu/segmentation/region_graph.hpp:149-166 | the scan keeps the graph well formed and its region ids fixed |
| RegionGraph.ContactsKeepRegions | cpp/include/reneu/segmentation/region_graph.hpp:149-166 | the scan never changes a region's id or voxel tally |
| RegionGraph.BuiltGraphContacts | cpp/include/reneu/segmentation/region_graph.hpp:124-167 | the built graph has one region per nonzero fragment id, each with tally 0. It is well formed. Between any two regions the contact counts exactly the faces where they touch and sums the affinity across those faces |
| RegionGraph.Merged | cpp/include/reneu/segmentation/region_graph.hpp:84-117 | merge adds only the two merged ids to the region map, inserting them when missing; no other id appears or disappears |
| RegionGraph.MergeAbsorbs | cpp/include/reneu/segmentation/region_graph.hpp:84-117 | after merge, the absorbed region has no voxels and no contacts, and no lower region keeps an edge to it. The survivor holds both tallies. Every other region keeps its id and tally |
| RegionGraph.MergeConservesContacts | cpp/include/reneu/segmentation/region_graph.hpp:93-114 | on a well-formed graph merge loses no contact. What any other region had with the two merged regions, it now has with the survivor alone, and nothing with the absorbed one. Contacts between two other regions are untouched |
| RegionGraph.MergeStrandsContact | cpp/include/reneu/segmentation/region_graph.hpp:84-114 | `absorb` copies the absorbed region's edges under their old keys, so merge(1, 3) on a well-formed graph where 1 touches 2 leaves the edge at region 3 keyed 2 and the graph is no longer well formed; a following merge(2, 5) redirects only edges held below 2, so region 3 keeps its contact with the absorbed 2 and has none with the survivor 5 |
| RegionGraph.MergeWithoutTallies | cpp/include/reneu/segmentation/region_graph.hpp:86-88 | with every tally 0, as the constructor leaves them, merge absorbs its first argument into its second and tallies stay 0 |
| RegionGraph.HeapEdges | cpp/include/reneu/segmentation/region_graph.hpp:178-182 | every heap entry joins a lower region id to a higher one, both tracked |
| RegionGraph.UnitedAlong | cpp/include/reneu/segmentation/region_graph.hpp:209 | union_set along the entries never changes the tracked ids |
| RegionGraph.UnitedAlongCanonical | cpp/include/reneu/segmentation/region_graph.hpp:200-210 | whichever roots survive, the unions keep the map a valid partition |
| RegionGraph.UnitedAlongJoins | cpp/include/reneu/segmentation/region_graph.hpp:200-210 | whichever roots survive, the unions leave exactly the starting partition joined along the merged pairs |
| RegionGraph.PopTop | cpp/include/reneu/segmentation/region_graph.hpp:200-203 | taking the top entry off keeps "popped in nonincreasing mean order, all at or above the threshold", and shrinks the heap |
| RegionGraph.PoppedAll | cpp/include/reneu/segmentation/region_graph.hpp:200-203 | once the top falls below the threshold, the popped entries are exactly those at or above it, distinct, in nonincreasing mean order |
| RegionGraph.FreshSets | cpp/include/reneu/segmentation/region_graph.hpp:194-197 | make_set over the labels tracks exactly them, each on its own |
| RegionGraph.MakeSets | cpp/include/reneu/segmentation/region_graph.hpp:188-197 | a fresh union-find holding each label as a singleton |
| RegionGraph.UniteAlong | cpp/include/reneu/segmentation/region_graph.hpp:209 | one union_set extends the fold of unions by the entry's pair |
| RegionGraph.RegionGraph.AccumulateEdge | cpp/include/reneu/segmentation/region_graph.hpp:71-79 | the graph becomes the old one with the contact added |
| RegionGraph.RegionGraph.AccumulateVoxel | cpp/include/reneu/segmentation/region_graph.hpp:152-163 | one voxel adds the contacts of its z, y and x looks |
| RegionGraph.RegionGraph.AccumulateRow | cpp/include/reneu/segmentation/region_graph.hpp:151-164 | the x loop adds the contacts of one row |
| RegionGraph.RegionGraph.AccumulatePlane | cpp/include/reneu/segmentation/region_graph.hpp:150-165 | the y loop adds the contacts of one plane |
| RegionGraph.RegionGraph.AccumulateVolume | cpp/include/reneu/segmentation/region_graph.hpp:149-166 | the z loop adds the contacts of the whole scan |
| RegionGraph.RegionGraph.constructor | cpp/include/reneu/segmentation/region_graph.hpp:124-167 | the graph is the built graph whose contacts `BuiltGraphContacts` characterises |
| RegionGraph.RegionGraph.AbsorbSmaller | cpp/include/reneu/segmentation/region_graph.hpp:86-90 | the region with no more voxels than the other is absorbed (ties absorb the first argument), after both ids are inserted |
| RegionGraph.RegionGraph.HandOn | cpp/include/reneu/segmentation/region_graph.hpp:95-113 | one pass of merge's loop extends the regions visited so far by one |
| RegionGraph.RegionGraph.Merge | cpp/include/reneu/segmentation/region_graph.hpp:84-117 | the graph becomes `Merged` of the old one, which `MergeAbsorbs` and `MergeConservesContacts` characterise |
| RegionGraph.RegionGraph.InitialHeap | cpp/include/reneu/segmentation/region_graph.hpp:177-182 | the heap holds exactly one entry per contact, with its mean affinity |
| RegionGraph.RegionGraph.MergeAlong | cpp/include/reneu/segmentation/region_graph.hpp:206 | merging along one more entry extends the fold of merges |
| RegionGraph.RegionGraph.MergeStep | cpp/include/reneu/segmentation/region_graph.hpp:205-209 | one pass after the pop, merge then union_set, extends both the fold of merges and the fold of unions by the entry |
| RegionGraph.RegionGraph.MergeWhileAbove | cpp/include/reneu/segmentation/region_graph.hpp:200-210 | the loop pops exactly the entries at or above the threshold, highest mean first and each once. The graph is merged along them in that order, and the union-find is united along them |
| RegionGraph.RegionGraph.GreedyMergeUntil | cpp/include/reneu/segmentation/region_graph.hpp:169-225 | the merged entries are exactly the contacts whose initial mean reaches the threshold, highest first. The union-find over all labels is exactly their partition joined along those entries. Every voxel is relabelled by its label's root |
| Nblast.BinarySearch | include/xiuli/neuron/nblast.hpp:41-58 | the answer brackets the value between neighbouring thresholds, whatever the first threshold is; with thresholds ascending from index 1 it is the number of thresholds from index 1 on that lie below the value (index 0 is never read) |
| Nblast.BracketIsCountBelow | include/xiuli/neuron/nblast.hpp:41-58 | with thresholds ascending from index 1, a bracketing index is the number of thresholds from index 1 on that lie below the value |
| Nblast.CountBelowIsLargestBelow | include/xiuli/neuron/nblast.hpp:41-58 | that count is the largest index i >= 1 whose threshold is below the value, or 0 when there is none |
| Nblast.DistThresholdsSorted | include/xiuli/neuron/nblast.hpp:35-36 | 22 distance thresholds, ascending from index 1; the first is out of order |
| Nblast.AdpThresholdsSorted | include/xiuli/neuron/nblast.hpp:38 | 11 dot-product thresholds, ascending |
| Nblast.AdpIndexPastTable | include/xiuli/neuron/nblast.hpp:86 | the dot-product bin is at most 10, and is 10, one past the last column, exactly when the value exceeds 1 |
| Nblast.DistIndexPastTable | include/xiuli/neuron/nblast.hpp:85 | the distance bin is at most 21, and is 21, one past the last row, exactly when the distance exceeds the largest float32 |
| Nblast.LookupIndices | include/xiuli/neuron/nblast.hpp:84-87 | as written: the bins are the counts below. They lie inside the 21 x 10 table exactly when the distance is at most the largest float32 and the dot product at most 1 |
| Nblast.ClampedBins | include/xiuli/neuron/nblast.hpp:84-88 | the corrected bins always lie in the table, equal the counts below where those do, and are the last row or column otherwise |
| Nblast.Score | include/xiuli/neuron/nblast.hpp:84-88 | the corrected lookup reads the clamped bins, which are the binary-search bins for every value inside the thresholds |
| Nblast.FillUpperTriangle | include/xiuli/neuron/nblast.hpp:354-360 | every cell on or above the diagonal gets the score of its target and query. The strict lower triangle keeps what the fresh matrix held |
| Nblast.NBLASTScoreMatrix.constructor | include/xiuli/neuron/nblast.hpp:348-361 | a vcNum x vcNum matrix whose upper triangle and diagonal are the scores; the lower triangle is never written |
| Nblast.MeanScoreMatrix | include/xiuli/neuron/nblast.hpp:394-405 | the mean matrix is symmetric with a unit diagonal, and above the diagonal holds the mean of the two directed normalised scores |

## Left out

- `DisjointSets.DisjointSets.UnionSet`: which root survives is left open (either root may be linked under the other), because Boost's union by rank is not modelled. Every partition property is proved for both choices. `RegionGraph.UnitedAlong` records the choice as a boolean per union.
- Path compression, `compress_sets` and `count_sets` are not modelled: the state is the fully compressed representative map. The printed counts (`std::cout`) and `mergeNum` are output only.
- `DisjointSets.FindSetOf`: an untracked id resolves through 0, the value a default-inserted parent entry holds. The insertion itself is not modelled, so the tracked ids stay unchanged.
- The commented-out serialisation of `DisjointSets` and the Python bindings (`py_merge_array`, `py_relabel`, `py_greedy_merge_until`) are not modelled.
- `RegionGraph.RegionGraph.GreedyMergeUntil` requires a well-formed graph whose region ids are labels of the volume. This holds for every graph the constructor builds from the same fragments (`BuiltGraphContacts`), and it keeps every heap entry's ids inside the union-find. Other inputs would call `union_set` on ids never made into sets.
- `RegionGraph.RegionGraph.MergeWhileAbove` requires the union-find to hold singletons only, as `make_set` leaves it just before the loop.
- The heap's order among entries of equal mean is left open: any entry of maximal mean may come off first.
- Heap means are taken when the heap is built and are not updated by `merge`. The model keeps this behaviour: merged entries are judged by their initial means.
- `RegionGraph.MergeConservesContacts` holds only for a well-formed graph, i.e. for the first merge after construction. From the second merge on, `absorb` may have left edges at their larger id, and the source can leave a contact on the absorbed region (`MergeStrandsContact` exhibits it); no contact-conservation property is claimed for later merges. The relabelled output of `greedy_merge_until` does not depend on it, since the heap is built once before any merge.
- The unused `id2count` tally is not modelled (see the note above).
- `get_normalized_score_matrix` (division by each query's self score, which may be zero in float32) is not modelled. `Nblast.MeanScoreMatrix` takes the normalised matrix as its input.
- `Nblast.MeanScoreMatrix`: the raw matrix starts as `xt::empty` and only its upper triangle and diagonal are written (`FillUpperTriangle`), yet the normalisation reads every cell, so each off-diagonal mean averages a real score with the uninitialised lower cell (`nblast.hpp` lines 352-358 and 383-401). Because the normalised matrix is an input here, the model does not show this.
- `VectorCloud`, its k-d tree and `query_by` are not part of this model. The constructor takes the score of each target and query as the function parameter `score`.
- The `ScoreTable` constructors that load a CSV file (file I/O) are not modelled; a table is a 21 x 10 value.
- Float32 rounding of thresholds, affinities, counts, sums and scores is not modelled (see above).
- `from_swc` and `to_swc` (file I/O) are not modelled. Nor are the C++ base class `XSkeleton` or its `edges` property: `Skeleton.Encode` takes the edge rows as a parameter.
- `Skeleton.Equals` requires equal node counts: numpy broadcasting between arrays of different shapes is not modelled. `np.ma.allclose` with `atol=0.001` is the parameter `close`.
- Byte order: the model reads and writes every word little-endian. The source writes the vertex, edge, radius and class arrays with `tobytes('C')` in the host's order and reads radii as native `np.float32` (only vertices and edges are read as explicit little-endian), so `Skeleton.EncodeDecodeRoundTrip` and the layout lemmas describe the source on little-endian hosts only.
- `Skeleton.NodesAndParents`: the conversion of a float64 node array to float32 (`astype(np.float32)`) is not modelled. Nodes are given as float32 words.

## Findings

| source | as written | input that shows it | evidently intended | confidence | as-written member | corrected member |
|---|---|---|---|---|---|---|
| include/xiuli/neuron/nblast.hpp:84-88 | `table(distIdx, adpIdx)` with the bins straight from `binary_search`, which can return the index one past the last threshold | an absolute dot product above 1.0 (rounding of two unit vectors can give 1.0000001) gives `adpIdx == 10` in a table of 10 columns; a distance above `FLT_MAX` (infinity) gives `distIdx == 21` in a table of 21 rows | values past the last threshold use the last bin | medium (not executed) | Nblast.LookupIndices | Nblast.Score |
| reneu/skeleton.py:35 | `assert nodes.shape[0] == len(parents) == len(classes)` evaluates `len(classes)` before the `classes is None` branch (lines 43-47) | `from_nodes_and_parents(nodes, parents)` with `classes` omitted raises TypeError (`Skeleton.DefaultClassesUnreachable`) | an omitted class column defaults to zeros, as lines 45-47 do | high (not executed) | Skeleton.FromNodesAndParents | Skeleton.NodesAndParents |
