/** The genetic operators of `DNA` as functions of their random draws: crossover (line 96),
    mutation (line 105), rank selection (line 123) and one whole generation of `evolve` (line 110). */
module GeneticOperators {

  /** A row of `width` genes, each 0 or 1. */
  predicate IsGenome(g: seq<int>, width: nat)
  {
    |g| == width && forall j :: 0 <= j < |g| ==> 0 <= g[j] <= 1
  }

  /** `size` rows of `width` genes, each 0 or 1. */
  predicate IsPopulation(rows: seq<seq<int>>, size: nat, width: nat)
  {
    |rows| == size && forall i :: 0 <= i < |rows| ==> IsGenome(rows[i], width)
  }

  /** Values drawn by `np.random.randint(0, 2, ...)`. */
  predicate AllBits(vs: seq<int>)
  {
    forall t :: 0 <= t < |vs| ==> 0 <= vs[t] <= 1
  }

  // ---------------------------------------------------------------- crossover

  /** `crossover` with its draws given: the coin `np.random.rand()` and the boolean gene mask
      `cross_index`; `mate` is the row of the pool the mate index picks. */
  function Crossed(parent: seq<int>, mate: seq<int>, coin: real, crossRate: real, mask: seq<bool>): (child: seq<int>)
    requires |mate| == |parent| && |mask| == |parent|
    ensures |child| == |parent|
  {
    if coin < crossRate then seq(|parent|, j requires 0 <= j < |parent| => if mask[j] then mate[j] else parent[j])
    else parent
  }

  /** Without a crossover the child is the parent; with one, each gene comes from the mate where
      the mask is set and from the parent elsewhere, so 0/1 genomes give a 0/1 genome. */
  lemma CrossedGenes(parent: seq<int>, mate: seq<int>, coin: real, crossRate: real, mask: seq<bool>)
    requires |mate| == |parent| && |mask| == |parent|
    ensures var child := Crossed(parent, mate, coin, crossRate, mask);
      (coin >= crossRate ==> child == parent)
      && (coin < crossRate ==> forall j :: 0 <= j < |parent| ==> child[j] == if mask[j] then mate[j] else parent[j])
      && (forall j :: 0 <= j < |parent| && !mask[j] ==> child[j] == parent[j])
      && (IsGenome(parent, |parent|) && IsGenome(mate, |parent|) ==> IsGenome(child, |parent|))
  {
  }

  // ---------------------------------------------------------------- mutation

  /** `np.where(draws < rate)[0]`: the positions whose draw is below the rate, ascending. */
  function Positions(draws: seq<real>, rate: real): (ps: seq<nat>)
    ensures forall t :: 0 <= t < |ps| ==> ps[t] < |draws|
  {
    if draws == [] then []
    else Positions(draws[..|draws| - 1], rate) + (if draws[|draws| - 1] < rate then [|draws| - 1] else [])
  }

  /** `child[ps] = vs`: assigns vs[t] at position ps[t], in order. */
  function Scatter(child: seq<int>, ps: seq<nat>, vs: seq<int>): (r: seq<int>)
    requires |vs| == |ps| && forall t :: 0 <= t < |ps| ==> ps[t] < |child|
    ensures |r| == |child|
  {
    if ps == [] then child
    else Scatter(child, ps[..|ps| - 1], vs[..|vs| - 1])[ps[|ps| - 1] := vs[|vs| - 1]]
  }

  /** `mutate` with its draws given: one uniform draw per gene and, for the positions selected,
      the redrawn genes in ascending position order. */
  function Mutated(child: seq<int>, draws: seq<real>, rate: real, redraws: seq<int>): (r: seq<int>)
    requires |draws| == |child| && |redraws| == |Positions(draws, rate)|
    ensures |r| == |child|
  {
    Scatter(child, Positions(draws, rate), redraws)
  }

  /** `Positions` holds exactly the positions whose draw is below the rate, ascending. */
  lemma {:induction false} PositionsContents(draws: seq<real>, rate: real)
    ensures forall j: nat :: j in Positions(draws, rate) ==> j < |draws| && draws[j] < rate
    ensures forall j: nat :: j < |draws| && draws[j] < rate ==> j in Positions(draws, rate)
    ensures forall s, t :: 0 <= s < t < |Positions(draws, rate)| ==> Positions(draws, rate)[s] < Positions(draws, rate)[t]
  {
    if draws != [] {
      var init := draws[..|draws| - 1];
      PositionsContents(init, rate);
      forall j: nat | j < |init| ensures draws[j] == init[j] {}
    }
  }

  /** With distinct ascending positions, each listed position receives its value and every other
      gene keeps its old value. */
  lemma {:induction false} ScatterAt(child: seq<int>, ps: seq<nat>, vs: seq<int>)
    requires |vs| == |ps| && forall t :: 0 <= t < |ps| ==> ps[t] < |child|
    requires forall s, t :: 0 <= s < t < |ps| ==> ps[s] < ps[t]
    ensures forall t :: 0 <= t < |ps| ==> Scatter(child, ps, vs)[ps[t]] == vs[t]
    ensures forall j :: 0 <= j < |child| && j !in ps ==> Scatter(child, ps, vs)[j] == child[j]
  {
    if ps != [] {
      var n := |ps| - 1;
      var ps', vs' := ps[..n], vs[..n];
      ScatterAt(child, ps', vs');
      var prev := Scatter(child, ps', vs');
      var r := Scatter(child, ps, vs);
      assert r == prev[ps[n] := vs[n]];
      forall t | 0 <= t < n ensures r[ps[t]] == vs[t] {
        assert ps'[t] == ps[t] && vs'[t] == vs[t];
        assert ps[t] < ps[n];
      }
      forall j | 0 <= j < |child| && j !in ps ensures r[j] == child[j] {
        assert j !in ps' by {
          forall t | 0 <= t < n ensures ps'[t] != j {
            assert ps'[t] == ps[t];
          }
        }
        assert ps[n] in ps;
      }
    }
  }

  /** Mutation changes only the genes whose draw is below the rate; those receive the redrawn
      values in ascending position order; so 0/1 redraws keep a 0/1 genome. */
  lemma MutatedGenes(child: seq<int>, draws: seq<real>, rate: real, redraws: seq<int>)
    requires |draws| == |child| && |redraws| == |Positions(draws, rate)|
    ensures var r, ps := Mutated(child, draws, rate, redraws), Positions(draws, rate);
      (forall j :: 0 <= j < |child| && !(draws[j] < rate) ==> r[j] == child[j])
      && (forall t :: 0 <= t < |ps| ==> r[ps[t]] == redraws[t])
      && (IsGenome(child, |child|) && AllBits(redraws) ==> IsGenome(r, |child|))
  {
    var r, ps := Mutated(child, draws, rate, redraws), Positions(draws, rate);
    PositionsContents(draws, rate);
    ScatterAt(child, ps, redraws);
    forall j | 0 <= j < |child| ensures r[j] == child[j] || exists t :: 0 <= t < |ps| && r[j] == redraws[t] {
      if j in ps {
        var t :| 0 <= t < |ps| && ps[t] == j;
      }
    }
  }

  // ---------------------------------------------------------------- rank selection

  /** `np.argsort(fitness)[::-1]`: a permutation of the indices with fitness not increasing. */
  predicate DescendingOrder(order: seq<nat>, fitness: seq<real>)
  {
    && |order| == |fitness|
    && (forall k :: 0 <= k < |order| ==> order[k] < |fitness|)
    && (forall k, l :: 0 <= k < l < |order| ==> order[k] != order[l])
    && (forall k, l :: 0 <= k < l < |order| ==> fitness[order[k]] >= fitness[order[l]])
  }

  /** `rank_selection`: `pop[order][picks]`, where `picks` are the drawn ranks (0 is the best). */
  function RankSelection(pop: seq<seq<int>>, order: seq<nat>, picks: seq<nat>): (pool: seq<seq<int>>)
    requires |order| == |pop| && forall k :: 0 <= k < |order| ==> order[k] < |pop|
    requires |picks| == |pop| && forall t :: 0 <= t < |picks| ==> picks[t] < |pop|
    ensures |pool| == |pop|
  {
    var ranked := seq(|pop|, k requires 0 <= k < |pop| => pop[order[k]]);
    seq(|picks|, t requires 0 <= t < |picks| => ranked[picks[t]])
  }

  /** The pool has as many rows as the population; row t is a copy of the row of rank picks[t],
      so a better rank never gives a less fit row, and a 0/1 population gives a 0/1 pool. */
  lemma RankSelectionRows(pop: seq<seq<int>>, fitness: seq<real>, order: seq<nat>, picks: seq<nat>, width: nat)
    requires DescendingOrder(order, fitness) && |fitness| == |pop|
    requires |picks| == |pop| && forall t :: 0 <= t < |picks| ==> picks[t] < |pop|
    ensures var pool := RankSelection(pop, order, picks);
      |pool| == |pop|
      && (forall t :: 0 <= t < |pool| ==> pool[t] == pop[order[picks[t]]] && pool[t] in pop)
      && (forall t, u :: 0 <= t < |pool| && 0 <= u < |pool| && picks[t] <= picks[u] ==>
            fitness[order[picks[t]]] >= fitness[order[picks[u]]])
      && (IsPopulation(pop, |pop|, width) ==> IsPopulation(pool, |pop|, width))
  {
    var pool := RankSelection(pop, order, picks);
    forall t, u | 0 <= t < |pool| && 0 <= u < |pool| && picks[t] <= picks[u]
      ensures fitness[order[picks[t]]] >= fitness[order[picks[u]]]
    {
      if picks[t] < picks[u] {
        assert fitness[order[picks[t]]] >= fitness[order[picks[u]]];
      }
    }
  }

  /** `1 / np.arange(1, n + 1)`: the weight of rank k + 1 is 1 / (k + 1). */
  function RankWeights(n: nat): (w: seq<real>)
    ensures |w| == n
  {
    seq(n, k requires 0 <= k < n => 1.0 / (k + 1) as real)
  }

  function Sum(s: seq<real>): real
  {
    if s == [] then 0.0 else Sum(s[..|s| - 1]) + s[|s| - 1]
  }

  /** `rank_p / np.sum(rank_p)`: the selection probability of each rank. */
  function RankProbabilities(n: nat): (p: seq<real>)
    ensures |p| == n
  {
    var w := RankWeights(n);
    if n == 0 then []
    else
      RankWeightsDecrease(n);
      SumPositive(w);
      Scaled(w, Sum(w))
  }

  /** Every entry divided by c. */
  function Scaled(s: seq<real>, c: real): (r: seq<real>)
    requires c != 0.0
    ensures |r| == |s|
  {
    seq(|s|, k requires 0 <= k < |s| => s[k] / c)
  }

  /** The rank weights are positive and strictly decrease with rank. */
  lemma RankWeightsDecrease(n: nat)
    ensures forall k :: 0 <= k < n ==> RankWeights(n)[k] > 0.0
    ensures forall k, l :: 0 <= k < l < n ==> RankWeights(n)[k] > RankWeights(n)[l]
  {
    var w := RankWeights(n);
    forall k, l | 0 <= k < l < n ensures w[k] > w[l] {
      var a, b := (k + 1) as real, (l + 1) as real;
      assert w[l] * b == 1.0 && w[k] * a == 1.0;
      assert w[l] * a < w[l] * b;
    }
  }

  lemma {:induction false} SumPositive(s: seq<real>)
    requires |s| > 0 && forall k :: 0 <= k < |s| ==> s[k] > 0.0
    ensures Sum(s) > 0.0
  {
    if |s| > 1 {
      SumPositive(s[..|s| - 1]);
    }
  }

  lemma {:induction false} SumScaled(s: seq<real>, c: real)
    requires c != 0.0
    ensures Sum(Scaled(s, c)) == Sum(s) / c
  {
    if s != [] {
      var init := s[..|s| - 1];
      SumScaled(init, c);
      assert Scaled(s, c)[..|s| - 1] == Scaled(init, c);
    }
  }

  /** The selection probabilities are positive, strictly decrease with rank (so the best row is the
      likeliest pick and the worst the least likely) and sum to 1. */
  lemma RankProbabilitiesDistribution(n: nat)
    requires n > 0
    ensures Sum(RankProbabilities(n)) == 1.0
    ensures forall k :: 0 <= k < n ==> RankProbabilities(n)[k] > 0.0
    ensures forall k, l :: 0 <= k < l < n ==> RankProbabilities(n)[k] > RankProbabilities(n)[l]
  {
    var w := RankWeights(n);
    RankWeightsDecrease(n);
    SumPositive(w);
    var total := Sum(w);
    var p := Scaled(w, total);
    assert p == RankProbabilities(n);
    SumScaled(w, total);
    DivideSelf(total);
    forall k | 0 <= k < n ensures p[k] > 0.0 {
      DivideMonotone(w[k], 0.0, total);
    }
    forall k, l | 0 <= k < l < n ensures p[k] > p[l] {
      DivideMonotone(w[k], w[l], total);
    }
  }

  lemma DivideSelf(c: real)
    requires c > 0.0
    ensures c / c == 1.0
  {
  }

  lemma DivideMonotone(a: real, b: real, c: real)
    requires a > b && c > 0.0
    ensures a / c > b / c
  {
    assert a / c - b / c == (a - b) / c;
    assert (a - b) / c * c == a - b;
  }

  // ---------------------------------------------------------------- one generation

  /** The per-row draws of one `evolve` pass over a pool of n rows of width genes. */
  predicate EvolveDraws(n: nat, width: nat, mutationRate: real, coins: seq<real>, mates: seq<nat>,
                        masks: seq<seq<bool>>, draws: seq<seq<real>>, redraws: seq<seq<int>>)
  {
    && |coins| == n && |mates| == n && |masks| == n && |draws| == n && |redraws| == n
    && (forall i :: 0 <= i < n ==> mates[i] < n)
    && (forall i :: 0 <= i < n ==> |masks[i]| == width)
    && (forall i :: 0 <= i < n ==> |draws[i]| == width)
    && (forall i :: 0 <= i < n ==> |redraws[i]| == |Positions(draws[i], mutationRate)|)
  }

  /** The population `evolve` leaves: row i of the pool crossed with the pool row `mates[i]`, then
      mutated. Mates are always rows of the pool as selected, never children made earlier. */
  function NextGeneration(pool: seq<seq<int>>, width: nat, crossRate: real, mutationRate: real, coins: seq<real>,
                          mates: seq<nat>, masks: seq<seq<bool>>, draws: seq<seq<real>>, redraws: seq<seq<int>>): (next: seq<seq<int>>)
    requires forall i :: 0 <= i < |pool| ==> |pool[i]| == width
    requires EvolveDraws(|pool|, width, mutationRate, coins, mates, masks, draws, redraws)
    ensures |next| == |pool|
  {
    seq(|pool|, i requires 0 <= i < |pool| =>
      Mutated(Crossed(pool[i], pool[mates[i]], coins[i], crossRate, masks[i]), draws[i], mutationRate, redraws[i]))
  }

  /** A 0/1 pool and 0/1 redraws give P rows of width 0/1 genes; a gene whose draw is not below the
      mutation rate comes from the mate (crossover happened and its mask bit is set) or else from
      the parent row of the pool. */
  lemma NextGenerationGenes(pool: seq<seq<int>>, width: nat, crossRate: real, mutationRate: real, coins: seq<real>,
                            mates: seq<nat>, masks: seq<seq<bool>>, draws: seq<seq<real>>, redraws: seq<seq<int>>)
    requires IsPopulation(pool, |pool|, width)
    requires EvolveDraws(|pool|, width, mutationRate, coins, mates, masks, draws, redraws)
    requires forall i :: 0 <= i < |pool| ==> AllBits(redraws[i])
    ensures var next := NextGeneration(pool, width, crossRate, mutationRate, coins, mates, masks, draws, redraws);
      IsPopulation(next, |pool|, width)
      && forall i, j :: 0 <= i < |pool| && 0 <= j < width && !(draws[i][j] < mutationRate) ==>
           next[i][j] == if coins[i] < crossRate && masks[i][j] then pool[mates[i]][j] else pool[i][j]
  {
    var next := NextGeneration(pool, width, crossRate, mutationRate, coins, mates, masks, draws, redraws);
    forall i | 0 <= i < |pool|
      ensures IsGenome(next[i], width)
      ensures forall j :: 0 <= j < width && !(draws[i][j] < mutationRate) ==>
           next[i][j] == if coins[i] < crossRate && masks[i][j] then pool[mates[i]][j] else pool[i][j]
    {
      var child := Crossed(pool[i], pool[mates[i]], coins[i], crossRate, masks[i]);
      CrossedGenes(pool[i], pool[mates[i]], coins[i], crossRate, masks[i]);
      MutatedGenes(child, draws[i], mutationRate, redraws[i]);
    }
  }
}
