/** The `DNA` class of `genetic_algorithms/ga_bridge.py`: the candidate lattice and edges, the
    population of genomes as a 2-D array of genes, decoding the population into structures
    (`build`), and one generation of rank selection, crossover and mutation (`evolve`). Every
    random draw of the source is a parameter of the method that consumes it. */
module Bridge {
  import opened Geometry
  import opened Decoding
  import opened GeneticOperators

  /** Row i of a 2-D array of genes, `pop[i]`. */
  function Row(a: array2<int>, i: nat): (r: seq<int>)
    requires i < a.Length0
    reads a
    ensures |r| == a.Length1
    ensures forall j :: 0 <= j < a.Length1 ==> r[j] == a[i, j]
  {
    seq(a.Length1, j requires 0 <= j < a.Length1 reads a => a[i, j])
  }

  /** All rows of a 2-D array of genes. */
  function Rows(a: array2<int>): (rows: seq<seq<int>>)
    reads a
    ensures |rows| == a.Length0
    ensures forall i :: 0 <= i < a.Length0 ==> rows[i] == Row(a, i)
  {
    seq(a.Length0, i requires 0 <= i < a.Length0 reads a => Row(a, i))
  }

  /** A new array holding the given rows, as `np.array(rows)` or a fancy-indexed copy makes. */
  method FromRows(rows: seq<seq<int>>, width: nat) returns (a: array2<int>)
    requires forall i :: 0 <= i < |rows| ==> |rows[i]| == width
    ensures fresh(a) && a.Length0 == |rows| && a.Length1 == width
    ensures Rows(a) == rows
  {
    a := new int[|rows|, width]((i, j) requires 0 <= i < |rows| && 0 <= j < width => rows[i][j]);
    forall i | 0 <= i < |rows| ensures Row(a, i) == rows[i] {
    }
  }

  /** The four result arrays of `build`, `builds`, `middle_node`, `all_lengths` and `n_elements`,
      from the outcome of each row. */
  method SplitOutcomes(outcomes: seq<Outcome>)
      returns (built: array<Option<Structure>>, middleNode: array<int>, allLengths: array<int>, nElements: array<int>)
    ensures fresh(built) && fresh(middleNode) && fresh(allLengths) && fresh(nElements)
    ensures built.Length == middleNode.Length == allLengths.Length == nElements.Length == |outcomes|
    ensures forall i :: 0 <= i < |outcomes| ==> Outcome(built[i], middleNode[i], allLengths[i], nElements[i]) == outcomes[i]
  {
    var n := |outcomes|;
    built := new Option<Structure>[n](k requires 0 <= k < n => outcomes[k].build);
    middleNode := new int[n](k requires 0 <= k < n => outcomes[k].middleNode);
    allLengths := new int[n](k requires 0 <= k < n => outcomes[k].length);
    nElements := new int[n](k requires 0 <= k < n => outcomes[k].nElements);
  }

  class DNA {
    const length: int
    const height: int
    const mirrorLine: int
    const popSize: nat
    const crossRate: real
    const mutationRate: real
    /** The candidate node positions of the left half. */
    const loc: seq<Point>
    /** The candidate bars: index pairs into `loc`; gene k of a genome switches bar k on. */
    const comb: seq<Edge>
    /** One genome per row, one 0/1 gene per candidate bar. */
    var pop: array2<int>
    /** The structures of the last `build`, `None` before the first. */
    var builds: Option<seq<Option<Structure>>>

    ghost predicate Valid()
      reads `pop, pop
    {
      && mirrorLine == MirrorLine(length)
      && loc == Lattice(length, height)
      && comb == Edges(loc)
      && EdgesIndex(loc, comb)
      && pop.Length0 == popSize && pop.Length1 == |comb|
      && IsPopulation(Rows(pop), popSize, |comb|)
    }

    /** `DNA(length, height, pop_size, cross_rate, mutation_rate)`, with the random initial
        population `np.random.randint(0, 2, size=(pop_size, len(comb)))` given as `initialPop`. */
    constructor (length: int, height: int, initialPop: seq<seq<int>>,
                 popSize: nat := 600, crossRate: real := 0.8, mutationRate: real := 0.0001)
      requires IsPopulation(initialPop, popSize, |Edges(Lattice(length, height))|)
      ensures Valid() && fresh(pop)
      ensures this.length == length && this.height == height && this.popSize == popSize
      ensures this.crossRate == crossRate && this.mutationRate == mutationRate
      ensures Rows(pop) == initialPop && builds == None
    {
      this.length := length;
      this.height := height;
      this.popSize := popSize;
      this.crossRate := crossRate;
      this.mutationRate := mutationRate;
      var m := MirrorLine(length);
      var points := Lattice(length, height);
      mirrorLine := m;
      loc := points;
      comb := Edges(points);
      var p := FromRows(initialPop, |Edges(points)|);
      pop := p;
      builds := None;
      new;
      LatticeEdges(length, height);
      assert forall k :: 0 <= k < |comb| ==> comb[k] in comb;
    }

    /** `build`: decodes every genome and places its supports and load. The node x coordinates
        `nodes_range('x')` and the node ids `node_map.keys()` of the system assembled for row i
        are given as `xRanges[i]` and `nodeIds[i]`. */
    method Build(xRanges: seq<seq<int>>, nodeIds: seq<seq<int>>)
        returns (built: array<Option<Structure>>, middleNode: array<int>, allLengths: array<int>, nElements: array<int>)
      requires Valid()
      requires |xRanges| == popSize && |nodeIds| == popSize
      requires forall i :: 0 <= i < popSize ==> |nodeIds[i]| == |xRanges[i]|
      modifies `builds
      ensures Valid()
      ensures fresh(built) && fresh(middleNode) && fresh(allLengths) && fresh(nElements)
      ensures built.Length == popSize && middleNode.Length == popSize
      ensures allLengths.Length == popSize && nElements.Length == popSize
      ensures forall i :: 0 <= i < popSize ==>
        Outcome(built[i], middleNode[i], allLengths[i], nElements[i])
          == DecodeIndividual(loc, comb, mirrorLine, Row(pop, i), xRanges[i], nodeIds[i])
      ensures builds == Some(built[..])
    {
      var outcomes: seq<Outcome> := [];
      for i := 0 to popSize
        invariant |outcomes| == i
        invariant forall k :: 0 <= k < i ==>
          outcomes[k] == DecodeIndividual(loc, comb, mirrorLine, Row(pop, k), xRanges[k], nodeIds[k])
      {
        var o := BuildIndividual(loc, comb, mirrorLine, Row(pop, i), xRanges[i], nodeIds[i]);
        outcomes := outcomes + [o];
      }
      built, middleNode, allLengths, nElements := SplitOutcomes(outcomes);
      builds := Some(built[..]);
    }

    /** `crossover(parent, pop, fitness)` on row `row` of `parent`: with probability `cross_rate`
        (the draw `coin`), the genes where `mask` is set are copied from row `mate` of the pool. */
    method Crossover(parent: array2<int>, row: nat, pool: seq<seq<int>>, coin: real, mate: nat, mask: seq<bool>)
      requires row < parent.Length0 && parent.Length1 == |comb|
      requires |pool| == popSize && mate < popSize && |pool[mate]| == |comb| && |mask| == |comb|
      modifies parent
      ensures Row(parent, row) == Crossed(old(Row(parent, row)), pool[mate], coin, crossRate, mask)
      ensures forall k :: 0 <= k < parent.Length0 && k != row ==> Row(parent, k) == old(Row(parent, k))
    {
      if coin < crossRate {
        for j := 0 to |comb|
          invariant forall l :: 0 <= l < j ==> parent[row, l] == if mask[l] then pool[mate][l] else old(parent[row, l])
          invariant forall l :: j <= l < |comb| ==> parent[row, l] == old(parent[row, l])
          invariant forall k, l :: 0 <= k < parent.Length0 && 0 <= l < parent.Length1 && k != row ==>
            parent[k, l] == old(parent[k, l])
        {
          if mask[j] {
            parent[row, j] := pool[mate][j];
          }
        }
      }
      forall k | 0 <= k < parent.Length0 && k != row ensures Row(parent, k) == old(Row(parent, k)) {
      }
    }

    /** `mutate(child)` on row `row` of `child`: the genes whose draw is below `mutation_rate`
        are replaced by the redrawn genes, in ascending position order. */
    method Mutate(child: array2<int>, row: nat, draws: seq<real>, redraws: seq<int>)
      requires row < child.Length0 && child.Length1 == |comb|
      requires |draws| == |comb| && |redraws| == |Positions(draws, mutationRate)|
      modifies child
      ensures Row(child, row) == Mutated(old(Row(child, row)), draws, mutationRate, redraws)
      ensures forall k :: 0 <= k < child.Length0 && k != row ==> Row(child, k) == old(Row(child, k))
    {
      var ps := Positions(draws, mutationRate);
      for t := 0 to |ps|
        invariant Row(child, row) == Scatter(old(Row(child, row)), ps[..t], redraws[..t])
        invariant forall k, l :: 0 <= k < child.Length0 && 0 <= l < child.Length1 && k != row ==>
          child[k, l] == old(child[k, l])
      {
        ghost var before := Row(child, row);
        child[row, ps[t]] := redraws[t];
        assert Row(child, row) == before[ps[t] := redraws[t]];
        assert ps[..t + 1][..t] == ps[..t] && redraws[..t + 1][..t] == redraws[..t];
      }
      assert ps[..|ps|] == ps && redraws[..|redraws|] == redraws;
      forall k | 0 <= k < child.Length0 && k != row ensures Row(child, k) == old(Row(child, k)) {
      }
    }

    /** `evolve(fitness)`: rank selection gives the pool (`order` is `argsort(fitness)[::-1]` and
        `picks` the drawn ranks); each row of a fresh copy of the pool is crossed with a row of the
        unchanged pool and mutated; the result becomes the population. */
    method Evolve(fitness: seq<real>, order: seq<nat>, picks: seq<nat>, coins: seq<real>, mates: seq<nat>,
                  masks: seq<seq<bool>>, draws: seq<seq<real>>, redraws: seq<seq<int>>)
      requires Valid()
      requires |fitness| == popSize && DescendingOrder(order, fitness)
      requires |picks| == popSize && forall t :: 0 <= t < |picks| ==> picks[t] < popSize
      requires EvolveDraws(popSize, |comb|, mutationRate, coins, mates, masks, draws, redraws)
      requires forall i :: 0 <= i < popSize ==> AllBits(redraws[i])
      modifies `pop
      ensures Valid() && fresh(pop)
      ensures Rows(pop) == NextGeneration(RankSelection(old(Rows(pop)), order, picks), |comb|, crossRate,
                                          mutationRate, coins, mates, masks, draws, redraws)
    {
      var pool := RankSelection(Rows(pop), order, picks);
      RankSelectionRows(Rows(pop), fitness, order, picks, |comb|);
      ghost var next := NextGeneration(pool, |comb|, crossRate, mutationRate, coins, mates, masks, draws, redraws);
      var p := FromRows(pool, |comb|);
      for i := 0 to popSize
        invariant forall k :: 0 <= k < i ==> Row(p, k) == next[k]
        invariant forall k :: i <= k < popSize ==> Row(p, k) == pool[k]
      {
        Crossover(p, i, pool, coins[i], mates[i], masks[i]);
        Mutate(p, i, draws[i], redraws[i]);
      }
      pop := p;
      NextGenerationGenes(pool, |comb|, crossRate, mutationRate, coins, mates, masks, draws, redraws);
    }
  }
}
