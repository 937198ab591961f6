# Bridge topology search by a genetic algorithm, in Dafny

The Python program `genetic_algorithms/ga_bridge.py` searches for good truss bridges with a genetic
algorithm. This project models its core in Dafny and proves properties of that model.

- The half span is a lattice of integer points, `loc`.
- Every pair of lattice points at most one step apart in each coordinate is a candidate bar, `comb`.
- A genome has one 0/1 gene per candidate bar.
- Decoding a genome gives the switched-on bars together with their mirror images about
  `x = length // 2`. The structure is then hinged at node 1, rolls at the node of largest x, and
  takes a load of -100 at the node nearest the middle of the span.
- One generation ranks the population by fitness and draws a pool by rank. Each row of the pool
  then undergoes, with probability `cross_rate`, a uniform crossover with a mate row; then a
  per-gene mutation.
- `normalize` min-max scales a vector.

Modules:

- `Geometry` (`geometry.dfy`) covers the lattice, the candidate bars and the reflection.
- `Decoding` (`decoding.dfy`) covers the genome-to-bars decoding and the support and load placement.
- `GeneticOperators` (`operators.dfy`) covers crossover, mutation, rank selection and one whole
  generation, as functions of their random draws.
- `Normalization` (`normalization.dfy`) covers `normalize`.
- `Bridge` (`dna.dfy`) holds the class `DNA`. Its population is an `array2<int>` field. `Build`,
  `Crossover`, `Mutate` and `Evolve` are methods.
  - `Crossover` and `Mutate` update one row of a population array in place, as the numpy row view
    `parent = pop[i]` does.
  - `Evolve` replaces the population by a fresh array.
  - Each method is proved equal to the corresponding function of the other modules.

Inputs and parameters:

- Every random draw is a parameter of the operation that consumes it:
  - the initial population;
  - the crossover coin, the mate index and the gene mask;
  - the per-gene mutation draws and the redrawn genes;
  - the ranks drawn by rank selection.
- The decreasing-fitness order `argsort(fitness)[::-1]` is an input. It must list every index
  once, with fitness not increasing. numpy's default sort is not stable, so the order among
  equal fitness values is left open.
- For each individual, the x coordinates `nodes_range('x')` and the node ids `node_map.keys()` of
  its assembled system are inputs.

Four details of the code that are easy to misread:

- Lattice height. The lattice is `product(range(m + 1), repeat=2)` filtered by `y <= height`, so y
  is also capped by `m = length // 2` (`LatticeContents`, `LatticeSize`).
- Degenerate structures. The degenerate test is `len(x_range) <= 2` on the list of all node x
  values, not a count of distinct x positions (`DecodeIndividualDegenerate`).
- Hinge. The hinge is always placed on node id 1, whichever node is leftmost (`HingedNode`).
- Recorded length. The length that `build` records is `max(x_range)` (line 59), while
  `get_fitness` uses `max - min` (line 86) (`DecodeIndividualSupports`).

## Model

| member | source | states |
|---|---|---|
| Geometry.MirrorLine | genetic_algorithms/ga_bridge.py:15 | `length // 2` is the floor of half the length: `2m <= length < 2m + 2` |
| Geometry.Mirror | genetic_algorithms/ga_bridge.py:158-166 | the reflection keeps y and puts the new x as far past the line as the old x was before it |
| Geometry.MirrorInvolution | genetic_algorithms/ga_bridge.py:158-166 | reflecting twice gives the point back; a point is its own reflection exactly when it lies on the line |
| Geometry.FilterContents | genetic_algorithms/ga_bridge.py:21 | `filter` keeps exactly the accepted elements (both directions) |
| Geometry.ProductFromContents | genetic_algorithms/ga_bridge.py:21 | `product(range(n), repeat=2)` from column x on holds exactly the points with x' >= x and both coordinates in range |
| Geometry.Lattice | genetic_algorithms/ga_bridge.py:21 | `loc`, the points of `product(range(m + 1), repeat=2)` no higher than `height`: each has 0 <= x <= m and 0 <= y <= height; exact contents, order and size in `LatticeContents`, `LatticeAscending`, `LatticeSize` |
| Geometry.LatticeContents | genetic_algorithms/ga_bridge.py:21 | a point is in `loc` exactly when 0 <= x <= m, 0 <= y <= m and y <= height |
| Geometry.LatticeAscending | genetic_algorithms/ga_bridge.py:21 | `loc` is in strictly increasing x-major order, so its points are distinct |
| Geometry.LatticeSize | genetic_algorithms/ga_bridge.py:21 | `len(loc)` is (m + 1)(min(m, height) + 1), or 0 when m or height is negative |
| Geometry.PairsFromContents | genetic_algorithms/ga_bridge.py:27 | `combinations(range(n), 2)` holds exactly the index pairs i < j < n |
| Geometry.PairsFromAscending | genetic_algorithms/ga_bridge.py:27 | those pairs come in lexicographic order |
| Geometry.NearIsAtMostOneStep | genetic_algorithms/ga_bridge.py:26 | for any two points, Euclidean distance below 1.5 (squared and scaled: 4 d² < 9) holds exactly when they are at most one step apart in each coordinate |
| Geometry.Near | genetic_algorithms/ga_bridge.py:26 | `euclidean(p, q) < 1.5`, in integers as 4 d² < 9; `NearIsAtMostOneStep` gives its meaning |
| Geometry.Edges | genetic_algorithms/ga_bridge.py:26-27 | `comb`: every pair i < j indexes `loc` and joins near points; exact contents and order in `EdgesContents` and `LatticeEdges` |
| Geometry.EdgesContents | genetic_algorithms/ga_bridge.py:26-27 | an index pair is in `comb` exactly when it is an ordered pair of near points, and `comb` is in lexicographic order |
| Geometry.LatticeEdges | genetic_algorithms/ga_bridge.py:21-27 | `comb` holds exactly the pairs i < j whose lattice points are distinct neighbours |
| Geometry.GeometryNonEmpty | genetic_algorithms/ga_bridge.py:21-27 | for length >= 2 and height >= 0 there is at least one lattice point and one candidate bar |
| Geometry.ReferenceGeometry | genetic_algorithms/ga_bridge.py:169 | the configuration `DNA(10, 3, ...)` has 24 lattice points and at least one candidate bar |
| Decoding.MirrorAll | genetic_algorithms/ga_bridge.py:50 | reflecting a list of bars keeps its length |
| Decoding.SetBits | genetic_algorithms/ga_bridge.py:41 | every position listed by `argwhere(pop[i] == 1)` is a gene position |
| Decoding.SetBitsContents | genetic_algorithms/ga_bridge.py:41 | those positions are exactly the genes equal to 1, ascending |
| Decoding.Elements | genetic_algorithms/ga_bridge.py:43-50 | the bars for the edge indices `on`, two per index (the bar and its mirror); their positions in `ElementsAt`, symmetry in `ElementsMirrorInvariant` |
| Decoding.Decode | genetic_algorithms/ga_bridge.py:41-50 | the bars of a genome, two per set gene; order in `DecodeOrder`, symmetry in `DecodeSymmetric` |
| Decoding.AddElements | genetic_algorithms/ga_bridge.py:41-50 | the loop adding each switched-on bar and then its mirror produces the decoded bar list |
| Decoding.ElementsAt | genetic_algorithms/ga_bridge.py:43-50 | for edge indices `on`, bar 2t is the bar of `on[t]` and bar 2t + 1 its mirror image; there are 2 len(on) bars |
| Decoding.DecodeOrder | genetic_algorithms/ga_bridge.py:41-50 | a genome with k set genes decodes to 2k bars: the t-th set gene's bar at 2t and its mirror at 2t + 1 |
| Decoding.ElementsMirrorInvariant | genetic_algorithms/ga_bridge.py:48-50 | reflecting all bars of a decoded list gives a rearrangement of the same bars |
| Decoding.DecodeSymmetric | genetic_algorithms/ga_bridge.py:41-50 | the decoded structure is symmetric: reflection permutes its bars, each bar's mirror is a bar, and a point is a node exactly when its mirror is |
| Decoding.EmptyGenomeIsDegenerate | genetic_algorithms/ga_bridge.py:41-57 | an all-zero genome decodes to no bars and so to no nodes, and an empty node list makes the individual degenerate |
| Decoding.ArgMax | genetic_algorithms/ga_bridge.py:64 | `np.argmax` is the first index of a largest entry |
| Decoding.ArgMin | genetic_algorithms/ga_bridge.py:63 | `np.argmin` is the first index of a smallest entry |
| Decoding.MaxOf | genetic_algorithms/ga_bridge.py:59 | `max(x_range)` is an entry and bounds all entries from above |
| Decoding.MinOf | genetic_algorithms/ga_bridge.py:60 | `min(x_range)` is an entry and bounds all entries from below |
| Decoding.MidDistances | genetic_algorithms/ga_bridge.py:63 | one distance per node |
| Decoding.LoadIndex | genetic_algorithms/ga_bridge.py:59-63 | the load goes on the first node nearest to (max + min) / 2, stated with integers: the first minimiser of abs(2x - (max + min)) |
| Decoding.NearestDoubled | genetic_algorithms/ga_bridge.py:63 | the first minimiser of abs(x - c / 2) over the reals is the first minimiser of abs(2x - c) over the integers |
| Decoding.BuildIndividual | genetic_algorithms/ga_bridge.py:40-73 | one pass of the `build` loop yields what `DecodeIndividual` specifies |
| Decoding.DecodeIndividual | genetic_algorithms/ga_bridge.py:40-73 | one pass of `build`: a structure is recorded exactly when there are more than two nodes, and then its hinge is node 1, its load is -100 on the recorded middle node, and roller and middle node are node ids; the full record in `DecodeIndividualDegenerate` and `DecodeIndividualSupports` |
| Decoding.DecodeIndividualDegenerate | genetic_algorithms/ga_bridge.py:54-57 | an individual is degenerate exactly when its node list has at most two entries; it then records no structure, node 0, length 0 and 0 elements |
| Decoding.DecodeIndividualSupports | genetic_algorithms/ga_bridge.py:58-73 | otherwise the structure has the decoded bars, hinge at node 1, roller at the first node of largest x, load -100 at the middle node (also recorded as `middle_node`), length `max(x_range)`, and `n_elements` equal to half the number of bars |
| GeneticOperators.Crossed | genetic_algorithms/ga_bridge.py:96-103 | crossover keeps the genome length |
| GeneticOperators.CrossedGenes | genetic_algorithms/ga_bridge.py:96-103 | without a crossover the child is the parent; with one, each gene comes from the mate where the mask is set and from the parent elsewhere; 0/1 genomes give a 0/1 genome |
| GeneticOperators.Positions | genetic_algorithms/ga_bridge.py:106 | the positions selected for mutation are gene positions |
| GeneticOperators.PositionsContents | genetic_algorithms/ga_bridge.py:106 | they are exactly the genes whose draw is below the mutation rate, ascending |
| GeneticOperators.Scatter | genetic_algorithms/ga_bridge.py:107 | `child[i] = values` keeps the genome length; its effect gene by gene in `ScatterAt` |
| GeneticOperators.Mutated | genetic_algorithms/ga_bridge.py:105-108 | `mutate` keeps the genome length; which genes change, and to what, in `MutatedGenes` |
| GeneticOperators.ScatterAt | genetic_algorithms/ga_bridge.py:107 | `child[i] = values` puts each value at its position and leaves all other genes unchanged |
| GeneticOperators.MutatedGenes | genetic_algorithms/ga_bridge.py:105-108 | mutation changes only genes whose draw is below the rate; each selected gene takes its redrawn value; 0/1 redraws keep a 0/1 genome |
| GeneticOperators.RankSelection | genetic_algorithms/ga_bridge.py:123-129 | the pool has as many rows as the population |
| GeneticOperators.RankSelectionRows | genetic_algorithms/ga_bridge.py:123-129 | pool row t is the population row of rank `picks[t]`; a better rank never gives a less fit row; a 0/1 population gives a 0/1 pool |
| GeneticOperators.RankWeights | genetic_algorithms/ga_bridge.py:127 | `1 / np.arange(1, n + 1)`, one weight per rank; see `RankWeightsDecrease` |
| GeneticOperators.RankProbabilities | genetic_algorithms/ga_bridge.py:127-128 | `rank_p / np.sum(rank_p)`, one probability per rank; a distribution by `RankProbabilitiesDistribution` |
| GeneticOperators.RankWeightsDecrease | genetic_algorithms/ga_bridge.py:127 | the rank weights 1/k are positive and strictly decrease |
| GeneticOperators.RankProbabilitiesDistribution | genetic_algorithms/ga_bridge.py:127-128 | the rank probabilities are positive, strictly decrease with rank, and sum to 1 |
| GeneticOperators.NextGeneration | genetic_algorithms/ga_bridge.py:110-120 | one generation keeps the population size |
| GeneticOperators.NextGenerationGenes | genetic_algorithms/ga_bridge.py:110-120 | the next generation is again a 0/1 population of the same shape; a gene not selected for mutation comes from the mate when crossover happened and its mask bit is set, and otherwise from the parent row |
| Normalization.Least | genetic_algorithms/ga_bridge.py:143 | `np.min` is an entry and bounds all entries from below |
| Normalization.Greatest | genetic_algorithms/ga_bridge.py:143 | `np.max` is an entry and bounds all entries from above |
| Normalization.Normalize | genetic_algorithms/ga_bridge.py:140-143 | `normalize(x)`, one entry per input entry; its range, extremes and order in `NormalizeRange` |
| Normalization.Rescale | genetic_algorithms/ga_bridge.py:143 | `(x - min) / (max - min)`, one entry per input entry; see `RescaleRange` |
| Normalization.SpreadApart | genetic_algorithms/ga_bridge.py:141-143 | a vector that is not constant has its minimum strictly below its maximum, so the division is defined |
| Normalization.NormalizeRange | genetic_algorithms/ga_bridge.py:140-143 | a constant vector maps to 0.1 everywhere; otherwise every entry lies in [0, 1], exactly the smallest entries map to 0 and exactly the largest to 1, and order is kept |
| Normalization.RescaleRange | genetic_algorithms/ga_bridge.py:143 | scaling entries of [lo, hi] by (x - lo) / (hi - lo) lands in [0, 1], sends exactly lo to 0 and exactly hi to 1, and keeps order |
| Bridge.Row | genetic_algorithms/ga_bridge.py:115 | row i of the array, `pop[i]`, gene by gene |
| Bridge.FromRows | genetic_algorithms/ga_bridge.py:125 | a fresh array whose rows are the given rows, as fancy indexing returns |
| Bridge.SplitOutcomes | genetic_algorithms/ga_bridge.py:34-37 | the four result arrays of `build`, entry i of each taken from outcome i |
| Bridge.DNA.constructor | genetic_algorithms/ga_bridge.py:12-31 | a valid object with the given parameters, `loc`, `comb` and mirror line as defined, the given initial 0/1 population, and no builds |
| Bridge.DNA.Build | genetic_algorithms/ga_bridge.py:33-76 | entry i of the four result arrays is `DecodeIndividual` of row i, and `builds` holds the structures; the population is unchanged |
| Bridge.DNA.Crossover | genetic_algorithms/ga_bridge.py:96-103 | the row becomes `Crossed` of its old value with the mate's pool row; other rows are unchanged |
| Bridge.DNA.Mutate | genetic_algorithms/ga_bridge.py:105-108 | the row becomes `Mutated` of its old value; other rows are unchanged |
| Bridge.DNA.Evolve | genetic_algorithms/ga_bridge.py:110-120 | the new population is `NextGeneration` of the rank-selected pool of the old one; the object stays valid, so the population is again 0/1 of the same shape |

## Left out

- `get_fitness` and `validate_calc` (lines 78-94 and 132-137) are left out. They call the finite element solver of `anastruct`, which is not part of this model.
- `SystemElements` internals are left out: merging equal points into one node, assigning node ids, and `nodes_range`. Node x values and node ids are inputs of `Build`. `EmptyGenomeIsDegenerate` proves that an all-zero genome has no bars and no nodes; the step from an empty node set to an empty `nodes_range` list is not modelled.
- The random number generator and its distributions are left out. The model does not capture that the mate is drawn in proportion to fitness, that ranks are drawn with the rank probabilities (only the probabilities themselves are modelled and proved a distribution), or that draws are uniform.
- `np.allclose(x, x[0])` in `normalize` is modelled as exact equality of all entries; the tolerances of floating point comparison are not modelled.
- Floating point arithmetic is modelled by real numbers throughout (`normalize`, the midpoint distances, the rank probabilities).
- `choose_fit_parent` (lines 146-155) is left out: nothing in the modelled core calls it.
- The driver loop, plotting and pickling (lines 169-192) are left out; only the geometry of its configuration `DNA(10, 3, ...)` is stated (`ReferenceGeometry`).
- `parent[:] = child` in `evolve` copies a row onto itself, because `crossover` and `mutate` return their argument; it is modelled as nothing.
- Bridge.DNA.Crossover: the loop writes the masked genes one at a time where numpy assigns them in one vectorised step; the mate row comes from the unchanged copy of the pool, so the order of writes does not matter.
- Bridge.DNA.Mutate: the loop writes the selected genes one at a time where numpy assigns `child[i] = values` in one step; the positions are distinct, so the result is the same.
- Bridge.DNA.Build: the per-row outcomes are collected in a sequence and the four result arrays are created from it, instead of writing into zero-filled arrays inside the loop; the contents are the same.
- Bridge.DNA.Build: `builds` keeps a copy of the contents of the returned `built` array, where line 75 stores that very array, so the two are aliased in the source. Nothing writes into the array afterwards, so no behaviour is lost.
- Normalization.Normalize: the empty vector is excluded by its precondition. On an empty vector numpy raises `IndexError` at `x[0]` (line 141); the only caller, `get_fitness` (line 92), is left out and always passes `pop_size` entries.
- numpy's fixed-width integers and the `object` array of builds are left out. Lattice coordinates, genes and node ids are unbounded integers; no value in the core comes near a width limit.
