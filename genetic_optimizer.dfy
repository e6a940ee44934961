/** The genetic optimizer of `data_analysis/src/ML/genetic_optimizer.rs`:
    configuration clamping, population refilling, one generation
    (tournament, crossover with two cut points, mutation, survivor
    selection) and the generation loop with early stopping.

    Every random sample is an explicit input (`Generation`).
 */
module GeneticOptimizer {
  import opened Outcomes
  import opened Selection
  import opened Tournament
  import opened CrossoverMutation

  /** A fitness value or `f64::INFINITY`. */
  datatype Extended = Finite(value: real) | Infinity

  /** `a.min(b)` on the extended values. */
  function MinWith(a: Extended, b: real): (m: Extended)
    ensures m.Finite?
    ensures m.value <= b && (a.Finite? ==> m.value <= a.value)
    ensures m.value == b || (a.Finite? && m.value == a.value)
  {
    if a.Finite? && a.value <= b then a else Finite(b)
  }

  /** `best` is the smallest element of `keys`, or infinity when there is none. */
  predicate IsMinimum(best: Extended, keys: set<real>) {
    if keys == {} then best == Infinity
    else best.Finite? && best.value in keys && forall k :: k in keys ==> best.value <= k
  }

  /** `best_fitness <= target`: never holds for infinity. */
  predicate Reaches(best: Extended, target: real) {
    best.Finite? && best.value <= target
  }

  // ---------------------------------------------------------------------
  // Configuration clamping done by `new`

  function Max(a: int, b: int): int {
    if a >= b then a else b
  }

  /** `max(4, pop_size)`: raised to 4, and not made even. */
  function ClampedPopSize(popSize: nat): (s: nat)
    ensures s >= 4
    ensures popSize >= 4 ==> s == popSize
    ensures popSize < 4 ==> s == 4
  {
    Max(4, popSize)
  }

  /** The parent count `new` keeps: capped to the largest even count the
      population allows, otherwise an odd count is decremented. */
  function AdjustedParents(numParents: nat, popSize: nat): nat {
    if numParents > popSize then popSize - popSize % 2
    else if numParents % 2 != 0 then numParents - 1
    else numParents
  }

  lemma AdjustedParentsProperties(numParents: nat, popSize: nat)
    ensures AdjustedParents(numParents, popSize) % 2 == 0
    ensures AdjustedParents(numParents, popSize) <= popSize
    ensures AdjustedParents(numParents, popSize) <= numParents
    ensures numParents == 1 ==> AdjustedParents(numParents, popSize) == 0
    ensures numParents % 2 == 0 && numParents <= popSize ==> AdjustedParents(numParents, popSize) == numParents
    ensures numParents > popSize ==> AdjustedParents(numParents, popSize) == popSize - popSize % 2
    ensures AdjustedParents(numParents, popSize) == 0 <==> numParents == 1 || (numParents > popSize && popSize < 2) || numParents == 0
  {
  }

  /** `f64::clamp`. */
  function Clamp(x: real, lo: real, hi: real): (c: real)
    requires lo <= hi
    ensures lo <= c <= hi
    ensures lo <= x <= hi ==> c == x
    ensures x < lo ==> c == lo
    ensures x > hi ==> c == hi
  {
    if x < lo then lo else if x > hi then hi else x
  }

  function MinReal(a: real, b: real): real {
    if a <= b then a else b
  }

  function MaxReal(a: real, b: real): real {
    if a >= b then a else b
  }

  /** `gene_min.min(gene_max)` followed by `gene_max.max(gene_min)`. */
  function GeneRange(geneMin: real, geneMax: real): (r: (real, real))
    ensures r.0 <= r.1
    ensures geneMin <= geneMax ==> r == (geneMin, geneMax)
    ensures geneMin > geneMax ==> r == (geneMax, geneMax)
  {
    var lo := MinReal(geneMin, geneMax);
    (lo, MaxReal(geneMax, lo))
  }

  // ---------------------------------------------------------------------
  // Shapes of individuals

  /** An individual of length `len` whose genes lie in `[lo, hi]`. */
  predicate Fits(v: Individual, len: nat, lo: real, hi: real) {
    |v| == len && forall j :: 0 <= j < |v| ==> lo <= v[j] <= hi
  }

  predicate AllFit(pop: seq<Individual>, len: nat, lo: real, hi: real) {
    forall i :: 0 <= i < |pop| ==> Fits(pop[i], len, lo, hi)
  }

  /** Cut points inside `[1, len)` never reach past parents of length `len`. */
  lemma CutsKeepPairInBounds(p1: Individual, p2: Individual, cps: seq<nat>, len: nat)
    requires Cuts(cps, len) && |p1| == len && |p2| == len
    ensures PairFits(p1, p2, cps, len)
  {
    forall k: nat | Swapped(cps, len, k)
      ensures k < len
    {
      SwappedBelowLength(cps, len, k);
    }
  }

  /** Children only hold their parents' genes, so they stay in range. */
  lemma ChildrenFit(c1: Individual, c2: Individual, p1: Individual, p2: Individual,
                    cps: seq<nat>, len: nat, lo: real, hi: real)
    requires Children(c1, c2, p1, p2, cps, len)
    requires Fits(p1, len, lo, hi) && Fits(p2, len, lo, hi)
    ensures Fits(c1, len, lo, hi) && Fits(c2, len, lo, hi)
  {
    forall k | 0 <= k < len
      ensures lo <= c1[k] <= hi && lo <= c2[k] <= hi
    {
      ChildrenExchangeGenes(c1, c2, p1, p2, cps, len, k);
    }
  }

  lemma WinnersFit(population: seq<Individual>, draws: seq<Draw>, parents: seq<Parent>,
                   len: nat, lo: real, hi: real)
    requires AllFit(population, len, lo, hi)
    requires |parents| <= |draws|
    requires forall i :: 0 <= i < |parents| ==>
      DrawFits(draws[i], |population|) && parents[i] == Winner(population, draws[i])
    ensures forall i :: 0 <= i < |parents| ==> Fits(parents[i].genes, len, lo, hi)
  {
    forall i | 0 <= i < |parents|
      ensures Fits(parents[i].genes, len, lo, hi)
    {
      WinnerProperties(population, draws[i]);
    }
  }

  lemma OffspringFit(parents: seq<Parent>, cuts: seq<seq<nat>>, offspring: seq<Individual>,
                     len: nat, lo: real, hi: real)
    requires |parents| % 2 == 0 && |offspring| == |parents| && |cuts| >= |parents| / 2
    requires forall i :: 0 <= i < |parents| ==> Fits(parents[i].genes, len, lo, hi)
    requires forall i :: 0 <= i < |parents| / 2 ==>
      Children(offspring[2 * i], offspring[2 * i + 1], parents[2 * i].genes, parents[2 * i + 1].genes,
               cuts[i], len)
    ensures AllFit(offspring, len, lo, hi)
  {
    forall m | 0 <= m < |offspring|
      ensures Fits(offspring[m], len, lo, hi)
    {
      var h := m / 2;
      assert m == 2 * h || m == 2 * h + 1;
      ChildrenFit(offspring[2 * h], offspring[2 * h + 1], parents[2 * h].genes, parents[2 * h + 1].genes,
                  cuts[h], len, lo, hi);
    }
  }

  lemma MutatedFit(m: seq<Individual>, offspring: seq<Individual>, coins: seq<seq<real>>,
                   values: seq<seq<real>>, rate: real, len: nat, lo: real, hi: real)
    requires lo <= hi && AllFit(offspring, len, lo, hi)
    requires MutationDraws(offspring, coins, values, rate, lo, hi)
    requires MutatedFrom(m, offspring, coins, values, rate)
    ensures AllFit(m, len, lo, hi)
  {
    forall i, j | 0 <= i < |m| && 0 <= j < |m[i]|
      ensures lo <= m[i][j] <= hi
    {
      MutatedGenesInRange(m, offspring, coins, values, rate, lo, hi, i, j);
    }
  }

  // ---------------------------------------------------------------------
  // The samples of one generation

  /** Everything `step` draws: refills before and after selection, the
      tournament samples, the two cut points of each pair, and the mutation
      coins and replacement values. */
  datatype Generation = Generation(
    refill: seq<Individual>,
    draws: seq<Draw>,
    cuts: seq<seq<nat>>,
    coins: seq<seq<real>>,
    values: seq<seq<real>>,
    newcomers: seq<Individual>)

  /** The mating part of one generation, stated on its samples: `parents`
      are the tournament winners of the first `numParents` draws on `pop`,
      `crossed` the two children of each pair of parents under that pair's
      cut points, and `offspring` those children after mutation. */
  ghost predicate Bred(pop: seq<Individual>, g: Generation, numParents: nat, vectorSize: nat, rate: real,
                       parents: seq<Parent>, crossed: seq<Individual>, offspring: seq<Individual>)
  {
    && numParents % 2 == 0
    && |parents| == numParents && |g.draws| >= numParents
    && (forall i :: 0 <= i < numParents ==>
          DrawFits(g.draws[i], |pop|) && parents[i] == Winner(pop, g.draws[i]))
    && |crossed| == numParents && |g.cuts| >= numParents / 2
    && (forall i :: 0 <= i < numParents / 2 ==>
          Children(crossed[2 * i], crossed[2 * i + 1], parents[2 * i].genes, parents[2 * i + 1].genes,
                   g.cuts[i], vectorSize))
    && |g.coins| == numParents && |g.values| == numParents
    && (forall i :: 0 <= i < numParents ==> |g.coins[i]| == |crossed[i]| && |g.values[i]| == |crossed[i]|)
    && MutatedFrom(offspring, crossed, g.coins, g.values, rate)
  }

  /** The children of one pair are fixed by the parents and the cut points. */
  lemma ChildrenDetermined(c1: Individual, c2: Individual, d1: Individual, d2: Individual,
                           p1: Individual, p2: Individual, cps: seq<nat>, len: nat)
    requires Children(c1, c2, p1, p2, cps, len) && Children(d1, d2, p1, p2, cps, len)
    ensures c1 == d1 && c2 == d2
  {
    assert forall k :: 0 <= k < |c1| ==> c1[k] == d1[k];
    assert forall k :: 0 <= k < |c2| ==> c2[k] == d2[k];
  }

  /** The mating of a generation is a function of the population and the
      samples: the winners, the children and the mutated offspring are
      the same whichever run produced them. */
  lemma BredDetermined(pop: seq<Individual>, g: Generation, numParents: nat, vectorSize: nat, rate: real,
                       p1: seq<Parent>, c1: seq<Individual>, o1: seq<Individual>,
                       p2: seq<Parent>, c2: seq<Individual>, o2: seq<Individual>)
    requires Bred(pop, g, numParents, vectorSize, rate, p1, c1, o1)
    requires Bred(pop, g, numParents, vectorSize, rate, p2, c2, o2)
    ensures p1 == p2 && c1 == c2 && o1 == o2
  {
    assert forall i :: 0 <= i < numParents ==> p1[i] == p2[i];
    forall i | 0 <= i < numParents
      ensures c1[i] == c2[i]
    {
      var h := i / 2;
      assert 2 * h == i || 2 * h + 1 == i;
      ChildrenDetermined(c1[2 * h], c1[2 * h + 1], c2[2 * h], c2[2 * h + 1],
                         p1[2 * h].genes, p1[2 * h + 1].genes, g.cuts[h], vectorSize);
    }
    assert c1 == c2;
    forall i | 0 <= i < numParents
      ensures o1[i] == o2[i]
    {
      assert forall j :: 0 <= j < |o1[i]| ==> o1[i][j] == o2[i][j];
    }
  }

  /** `population` holds the survivors' vectors in the key order `order`,
      each key once, followed by newcomers up to `size` individuals. */
  predicate Laid(population: seq<Individual>, survivors: map<real, Individual>, order: seq<real>,
                 newcomers: seq<Individual>, size: nat)
  {
    && |order| == |survivors| <= size && |population| == size && |newcomers| >= size - |order|
    && (forall i :: 0 <= i < |order| ==> order[i] in survivors && population[i] == survivors[order[i]])
    && (forall i, j :: 0 <= i < j < |order| ==> order[i] != order[j])
    && (forall k :: k in survivors ==> k in order)
    && population[|order|..] == newcomers[..size - |order|]
  }

  /** The survivors' values listed in `order`, padded with newcomers. */
  lemma LaidOut(values: seq<Individual>, order: seq<real>, survivors: map<real, Individual>,
                newcomers: seq<Individual>, size: nat)
    requires |order| == |values| == |survivors| <= size <= |newcomers|
    requires forall i :: 0 <= i < |order| ==> order[i] in survivors && values[i] == survivors[order[i]]
    requires forall i, j :: 0 <= i < j < |order| ==> order[i] != order[j]
    requires forall k :: k in survivors ==> k in order
    ensures Laid(values + newcomers[..size - |values|], survivors, order, newcomers, size)
  {
    assert (values + newcomers[..size - |values|])[|order|..] == newcomers[..size - |values|];
  }

  /** What one generation of `step` did: the population it started from,
      the mating, the selected survivors, the order `values()` listed them
      in, and the population it left. */
  datatype Trace = Trace(before: seq<Individual>, parents: seq<Parent>, crossed: seq<Individual>,
                         offspring: seq<Individual>, survivors: map<real, Individual>,
                         order: seq<real>, after: seq<Individual>)

  /** There is only one minimum of a set of keys. */
  lemma MinimumUnique(a: Extended, b: Extended, keys: set<real>)
    requires IsMinimum(a, keys) && IsMinimum(b, keys)
    ensures a == b
  {
    if keys != {} {
      assert a.value <= b.value && b.value <= a.value;
    }
  }

  /** `step` panics: the tournament on a zero parent count, or the crossover,
      which asks for two cut points, on vectors shorter than 3. */
  predicate StepPanics(numParents: nat, vectorSize: nat) {
    numParents == 0 || vectorSize < 3
  }

  function StepPanicMessage(numParents: nat): string {
    if numParents == 0 then "Number of parents must be positive"
    else "Number of crosspoints must be less than vector length"
  }

  /** Some element of a non-empty set. */
  lemma Pick(s: set<real>) returns (x: real)
    requires s != {}
    ensures x in s
  {
    if forall y :: y !in s {
      assert false;
    }
    var k :| k in s;
    x := k;
  }

  /** Returns the values of `m` in an arbitrary order of its keys, each
      once, as `HashMap::values().cloned().collect()` does. */
  method CollectValues(m: map<real, Individual>) returns (vs: seq<Individual>, ghost order: seq<real>)
    ensures |order| == |vs| == |m|
    ensures forall i :: 0 <= i < |order| ==> order[i] in m && vs[i] == m[order[i]]
    ensures forall i, j :: 0 <= i < j < |order| ==> order[i] != order[j]
    ensures forall k :: k in m ==> k in order && m[k] in vs
  {
    var remaining := m.Keys;
    vs := [];
    order := [];
    while remaining != {}
      invariant remaining <= m.Keys
      invariant |order| == |vs| && |order| + |remaining| == |m.Keys|
      invariant forall i :: 0 <= i < |order| ==> order[i] in m && order[i] !in remaining && vs[i] == m[order[i]]
      invariant forall i, j :: 0 <= i < j < |order| ==> order[i] != order[j]
      invariant forall k :: k in m ==> k in remaining || k in order
      decreases |remaining|
    {
      ghost var some := Pick(remaining);
      var k :| k in remaining;
      vs := vs + [m[k]];
      order := order + [k];
      remaining := remaining - {k};
    }
    forall k | k in m
      ensures m[k] in vs
    {
      var i :| 0 <= i < |order| && order[i] == k;
      assert vs[i] == m[k];
    }
  }

  lemma ValuesFit(m: map<real, Individual>, from: seq<Individual>, len: nat, lo: real, hi: real)
    requires AllFit(from, len, lo, hi)
    requires forall k :: k in m ==> m[k] in from
    ensures forall k :: k in m ==> Fits(m[k], len, lo, hi)
  {
    forall k | k in m
      ensures Fits(m[k], len, lo, hi)
    {
      var i :| 0 <= i < |from| && from[i] == m[k];
    }
  }

  lemma PaddedFit(vs: seq<Individual>, order: seq<real>, m: map<real, Individual>,
                  extra: seq<Individual>, len: nat, lo: real, hi: real)
    requires |order| == |vs|
    requires forall i :: 0 <= i < |order| ==> order[i] in m && vs[i] == m[order[i]]
    requires forall k :: k in m ==> Fits(m[k], len, lo, hi)
    requires AllFit(extra, len, lo, hi)
    ensures AllFit(vs + extra, len, lo, hi)
  {
    forall i | 0 <= i < |vs + extra|
      ensures Fits((vs + extra)[i], len, lo, hi)
    {
      if i < |vs| {
        var key := order[i];
        assert key in m && (vs + extra)[i] == m[key];
        assert Fits(m[key], len, lo, hi);
      } else {
        assert (vs + extra)[i] == extra[i - |vs|];
        assert Fits(extra[i - |vs|], len, lo, hi);
      }
    }
  }

  /** The minimum key of the survivors, folding `min` from infinity. */
  method BestFitness(keys: set<real>) returns (best: Extended)
    ensures IsMinimum(best, keys)
  {
    best := Infinity;
    var remaining := keys;
    while remaining != {}
      invariant remaining <= keys
      invariant best.Infinity? <==> remaining == keys
      invariant best.Finite? ==>
        best.value in keys && (forall k :: k in keys && k !in remaining ==> best.value <= k)
      decreases |remaining|
    {
      ghost var some := Pick(remaining);
      var k :| k in remaining;
      best := MinWith(best, k);
      remaining := remaining - {k};
    }
  }

  /** The minimum fitness key is never negative, and is infinite exactly
      when nothing survived. */
  lemma BestFitnessBounds(best: Extended, survivors: map<real, Individual>)
    requires IsMinimum(best, survivors.Keys)
    requires forall k :: k in survivors ==> Fitness(survivors[k]) == k
    ensures best.Infinity? <==> survivors == map[]
    ensures best.Finite? ==> best.value >= 0.0
  {
    if best.Finite? {
      assert Fitness(survivors[best.value]) == best.value;
    } else {
      assert survivors.Keys == {};
    }
  }

  // ---------------------------------------------------------------------
  // The optimizer

  class GeneticOptimizer {
    const popSize: nat
    const vectorSize: nat
    const numParents: nat
    const mutationRate: real
    const selectionRatio: real
    const geneMin: real
    const geneMax: real
    var population: seq<Individual>

    /** The clamped configuration, and a population of `popSize` in-range
        individuals. */
    ghost predicate Valid()
      reads this
    {
      && Configured()
      && |population| == popSize
      && AllFit(population, vectorSize, geneMin, geneMax)
    }

    predicate Configured() {
      && popSize >= 4 && vectorSize >= 1
      && numParents % 2 == 0 && numParents <= popSize
      && 0.0 <= mutationRate <= 1.0
      && 0.1 <= selectionRatio <= 1.0
      && geneMin <= geneMax
    }

    /** Random draws for `n` consecutive generations, each fitting the configuration. */
    predicate GenerationsFit(gens: seq<Generation>, n: nat) {
      |gens| >= n && forall i {:trigger GenerationFits(gens[i])} :: 0 <= i < n ==> GenerationFits(gens[i])
    }

    /** What a generation's samples must look like for this configuration. */
    predicate GenerationFits(g: Generation) {
      && AllFit(g.refill, vectorSize, geneMin, geneMax)
      && |g.draws| >= numParents
      && (forall i :: 0 <= i < numParents ==> DrawFits(g.draws[i], popSize))
      && (!StepPanics(numParents, vectorSize) ==>
            && |g.cuts| >= numParents / 2
            && forall i :: 0 <= i < numParents / 2 ==> CutPoints(g.cuts[i], 2, vectorSize))
      && |g.coins| == numParents && |g.values| == numParents
      && (forall i :: 0 <= i < numParents ==> |g.coins[i]| == vectorSize && |g.values[i]| == vectorSize)
      && (forall i, j :: 0 <= i < |g.coins| && 0 <= j < |g.coins[i]| ==> 0.0 <= g.coins[i][j] < 1.0)
      && (forall i, j :: 0 <= i < |g.values| && 0 <= j < |g.values[i]| ==>
            geneMin <= g.values[i][j] <= geneMax)
      && |g.newcomers| >= popSize
      && AllFit(g.newcomers, vectorSize, geneMin, geneMax)
    }

    constructor Init(popSize: nat, vectorSize: nat, numParents: nat, mutationRate: real,
                     selectionRatio: real, geneMin: real, geneMax: real, population: seq<Individual>)
      ensures this.popSize == popSize && this.vectorSize == vectorSize && this.numParents == numParents
      ensures this.mutationRate == mutationRate && this.selectionRatio == selectionRatio
      ensures this.geneMin == geneMin && this.geneMax == geneMax
      ensures this.population == population
    {
      this.popSize := popSize;
      this.vectorSize := vectorSize;
      this.numParents := numParents;
      this.mutationRate := mutationRate;
      this.selectionRatio := selectionRatio;
      this.geneMin := geneMin;
      this.geneMax := geneMax;
      this.population := population;
    }

    /** `maintain_population_size`: pads with fresh individuals or truncates
        to `popSize`. */
    method MaintainPopulationSize(newcomers: seq<Individual>)
      modifies this
      requires |population| < popSize ==> |newcomers| >= popSize - |population|
      ensures |population| == popSize
      ensures old(|population|) < popSize ==>
        population == old(population) + newcomers[..popSize - old(|population|)]
      ensures old(|population|) >= popSize ==> population == old(population)[..popSize]
    {
      var currentSize := |population|;
      if currentSize < popSize {
        var additionalNeeded := popSize - currentSize;
        for i := 0 to additionalNeeded
          invariant population == old(population) + newcomers[..i]
        {
          population := population + [newcomers[i]];
          assert newcomers[..i + 1] == newcomers[..i] + [newcomers[i]];
        }
      } else if currentSize > popSize {
        population := population[..popSize];
      } else {
        assert population[..popSize] == population;
      }
    }

    /** Generation `t` is what `step` does with the samples `g` under this
        configuration: mating on `t.before`, selection of the offspring,
        and the survivors followed by newcomers as `t.after`. */
    ghost predicate Generated(t: Trace, g: Generation) {
      && Configured()
      && Bred(t.before, g, numParents, vectorSize, mutationRate, t.parents, t.crossed, t.offspring)
      && t.survivors == Survivors(selectionRatio, t.offspring)
      && Laid(t.after, t.survivors, t.order, g.newcomers, popSize)
    }

    /** A generation is fixed by the population it starts from and its
        samples, up to the order in which `values()` lists the survivors. */
    lemma GeneratedDetermined(t1: Trace, t2: Trace, g: Generation)
      requires Generated(t1, g) && Generated(t2, g) && t1.before == t2.before
      ensures t1.parents == t2.parents && t1.crossed == t2.crossed && t1.offspring == t2.offspring
      ensures t1.survivors == t2.survivors
      ensures |t1.order| == |t2.order| && t1.after[|t1.order|..] == t2.after[|t2.order|..]
    {
      BredDetermined(t1.before, g, numParents, vectorSize, mutationRate,
                     t1.parents, t1.crossed, t1.offspring, t2.parents, t2.crossed, t2.offspring);
    }

    /** Tournament, crossover with two cut points and mutation on the
        current population: the mating part of `step`. */
    method Breed(g: Generation) returns (r: Outcome<seq<Individual>>, ghost parents: seq<Parent>,
                                         ghost crossed: seq<Individual>)
      requires Valid() && GenerationFits(g)
      ensures StepPanics(numParents, vectorSize) <==> !r.Ok?
      ensures !r.Ok? ==> r == Panic(StepPanicMessage(numParents))
      ensures r.Ok? ==> Bred(population, g, numParents, vectorSize, mutationRate, parents, crossed, r.value)
      ensures r.Ok? ==> |r.value| == numParents && AllFit(r.value, vectorSize, geneMin, geneMax)
    {
      if numParents > 0 {
        ParentCountProperties(numParents, popSize);
      }
      var winners := BinaryTournament(population, numParents, g.draws);
      if !winners.Ok? {
        return Panic(winners.message), [], [];
      }
      var ps := winners.value;
      WinnersFit(population, g.draws, ps, vectorSize, geneMin, geneMax);
      if !StepPanics(numParents, vectorSize) {
        forall i | 0 <= i < numParents / 2
          ensures PairFits(ps[2 * i].genes, ps[2 * i + 1].genes, g.cuts[i], vectorSize)
        {
          CutsKeepPairInBounds(ps[2 * i].genes, ps[2 * i + 1].genes, g.cuts[i], vectorSize);
        }
      }
      var children := Crossover(ps, 2, g.cuts);
      if !children.Ok? {
        return Panic(children.message), ps, [];
      }
      var cs := children.value;
      assert |ps[0].genes| == vectorSize;
      OffspringFit(ps, g.cuts, cs, vectorSize, geneMin, geneMax);
      var mutated := Mutation(mutationRate, geneMin, geneMax, cs, g.coins, g.values);
      assert mutated.Ok?;
      MutatedFit(mutated.value, cs, g.coins, g.values, mutationRate, vectorSize, geneMin, geneMax);
      return mutated, ps, cs;
    }

    /** `step`: one generation.  It panics exactly when `StepPanics` holds,
        leaving the population as it was; otherwise `t` records the
        generation `Generated` describes, from the old population to the
        new one, and the result is the smallest survivor fitness, infinite
        when nothing survived. */
    method Step(g: Generation) returns (best: Outcome<Extended>, ghost t: Trace)
      modifies this
      requires Valid() && GenerationFits(g)
      ensures Valid()
      ensures StepPanics(numParents, vectorSize) ==>
        best == Panic(StepPanicMessage(numParents)) && population == old(population)
      ensures !StepPanics(numParents, vectorSize) ==>
        && best.Ok?
        && t.before == old(population) && t.after == population
        && Generated(t, g)
        && IsMinimum(best.value, t.survivors.Keys)
        && (best.value.Infinity? <==> t.survivors == map[])
        && (best.value.Finite? ==> best.value.value >= 0.0)
    {
      MaintainPopulationSize(g.refill);
      assert population == old(population);
      var mutated, parents, crossed := Breed(g);
      if !mutated.Ok? {
        return Panic(mutated.message), Trace(old(population), parents, crossed, [], map[], [], population);
      }
      var b, survivors, order := Replace(mutated.value, g.newcomers);
      t := Trace(old(population), parents, crossed, mutated.value, survivors, order, population);
      return Ok(b), t;
    }

    /** The population becomes the survivors, in the order `values()`
        lists them, topped up from `newcomers` to `popSize`. */
    method Repopulate(kept: map<real, Individual>, newcomers: seq<Individual>) returns (ghost order: seq<real>)
      modifies this
      requires Configured() && |kept| <= popSize
      requires forall k :: k in kept ==> Fits(kept[k], vectorSize, geneMin, geneMax)
      requires |newcomers| >= popSize && AllFit(newcomers, vectorSize, geneMin, geneMax)
      ensures Valid()
      ensures Laid(population, kept, order, newcomers, popSize)
    {
      var values;
      values, order := CollectValues(kept);
      population := values;
      ghost var padding := newcomers[..popSize - |values|];
      assert AllFit(padding, vectorSize, geneMin, geneMax);
      PaddedFit(values, order, kept, padding, vectorSize, geneMin, geneMax);
      MaintainPopulationSize(newcomers);
      assert population == values + padding;
      LaidOut(values, order, kept, newcomers, popSize);
    }

    /** The replacement part of `step`: the survivors of `offspring` become
        the population in the order `values()` lists them, padded with
        newcomers, and the smallest survivor fitness is reported. */
    method Replace(offspring: seq<Individual>, newcomers: seq<Individual>)
      returns (best: Extended, ghost survivors: map<real, Individual>, ghost order: seq<real>)
      modifies this
      requires Configured()
      requires |offspring| == numParents && AllFit(offspring, vectorSize, geneMin, geneMax)
      requires |newcomers| >= popSize && AllFit(newcomers, vectorSize, geneMin, geneMax)
      ensures Valid()
      ensures survivors == Survivors(selectionRatio, offspring)
      ensures Laid(population, survivors, order, newcomers, popSize)
      ensures IsMinimum(best, survivors.Keys)
      ensures best.Infinity? <==> survivors == map[]
      ensures best.Finite? ==> best.value >= 0.0
    {
      var selected := EnvironmentalSelection(selectionRatio, offspring);
      assert selected.Ok?;
      var kept := selected.value;
      survivors := kept;
      SurvivorsContents(selectionRatio, offspring);
      ValuesFit(kept, offspring, vectorSize, geneMin, geneMax);
      order := Repopulate(kept, newcomers);
      best := BestFitness(kept.Keys);
      BestFitnessBounds(best, kept);
    }

    /** `optimize`: runs at most `maxGenerations` generations, stopping after
        the first whose best fitness reaches the target.  `trace` records
        the generations run, each starting from the population the previous
        one left, and each history entry is its generation's best fitness. */
    method Optimize(maxGenerations: nat, target: Option<real>, gens: seq<Generation>)
      returns (history: Outcome<seq<Extended>>, ghost trace: seq<Trace>)
      modifies this
      requires Valid()
      requires GenerationsFit(gens, maxGenerations)
      ensures Valid()
      ensures history.Panic? <==> maxGenerations > 0 && StepPanics(numParents, vectorSize)
      ensures history.Panic? ==> history == Panic(StepPanicMessage(numParents)) && population == old(population)
      ensures !history.Err?
      ensures history.Ok? ==> StoppedAtTarget(history.value, maxGenerations, target)
      ensures history.Ok? ==> HistoryOf(history.value, trace, gens, old(population), population)
    {
      var fitnessHistory: seq<Extended> := [];
      trace := [];
      var gen := 0;
      var reached := false;
      while gen < maxGenerations && !reached
        invariant Valid()
        invariant gen <= maxGenerations && |fitnessHistory| == gen
        invariant gen > 0 ==> !StepPanics(numParents, vectorSize)
        invariant target.None? ==> !reached
        invariant target.Some? ==> forall i :: 0 <= i < gen - 1 ==> !Reaches(fitnessHistory[i], target.value)
        invariant target.Some? ==> (reached <==> gen > 0 && Reaches(fitnessHistory[gen - 1], target.value))
        invariant HistoryOf(fitnessHistory, trace, gens, old(population), population)
        decreases maxGenerations - gen
      {
        var best, t := RecordedStep(gens, gen, fitnessHistory, trace, old(population));
        if !best.Ok? {
          return Panic(best.message), trace;
        }
        fitnessHistory := fitnessHistory + [best.value];
        trace := trace + [t];
        gen := gen + 1;
        reached := target.Some? && Reaches(best.value, target.value);
      }
      history := Ok(fitnessHistory);
    }

    /** One `step` of `optimize`, extending the record of the generations
        run so far by the next one. */
    method RecordedStep(gens: seq<Generation>, gen: nat, ghost history: seq<Extended>,
                        ghost trace: seq<Trace>, ghost start: seq<Individual>)
      returns (best: Outcome<Extended>, ghost t: Trace)
      modifies this
      requires Valid() && gen == |trace| < |gens| && GenerationFits(gens[gen])
      requires HistoryOf(history, trace, gens, start, population)
      ensures Valid()
      ensures StepPanics(numParents, vectorSize) ==>
        best == Panic(StepPanicMessage(numParents)) && population == old(population)
      ensures !StepPanics(numParents, vectorSize) ==>
        best.Ok? && HistoryOf(history + [best.value], trace + [t], gens, start, population)
    {
      best, t := Step(gens[gen]);
      if best.Ok? {
        HistoryExtends(history, trace, gens, start, old(population), best.value, t);
      }
    }

    /** One generation: `t` is what `g` made of `t.before`, and `best` the
        smallest fitness among its survivors. */
    ghost predicate Recorded(t: Trace, g: Generation, best: Extended) {
      Generated(t, g) && IsMinimum(best, t.survivors.Keys)
    }

    /** The best fitness a generation reports and its survivors depend only
        on the population it starts from and its samples. */
    lemma RecordedDetermined(t1: Trace, t2: Trace, g: Generation, b1: Extended, b2: Extended)
      requires Recorded(t1, g, b1) && Recorded(t2, g, b2) && t1.before == t2.before
      ensures b1 == b2 && t1.survivors == t2.survivors
    {
      GeneratedDetermined(t1, t2, g);
      MinimumUnique(b1, b2, t1.survivors.Keys);
    }

    /** `history` and `trace` record consecutive generations of `gens`,
        the first starting from `start` and the last leaving `end`; each
        entry is its generation's best fitness. */
    ghost predicate HistoryOf(history: seq<Extended>, trace: seq<Trace>, gens: seq<Generation>,
                              start: seq<Individual>, end: seq<Individual>)
    {
      && |trace| == |history| <= |gens|
      && (forall i {:trigger Recorded(trace[i], gens[i], history[i])} :: 0 <= i < |trace| ==>
            Recorded(trace[i], gens[i], history[i]))
      && (forall i :: 0 < i < |trace| ==> trace[i].before == trace[i - 1].after)
      && (if |trace| == 0 then end == start else trace[0].before == start && trace[|trace| - 1].after == end)
    }

    lemma HistoryExtends(history: seq<Extended>, trace: seq<Trace>, gens: seq<Generation>,
                         start: seq<Individual>, end: seq<Individual>, best: Extended, t: Trace)
      requires HistoryOf(history, trace, gens, start, end)
      requires |trace| < |gens| && Recorded(t, gens[|trace|], best) && t.before == end
      ensures HistoryOf(history + [best], trace + [t], gens, start, t.after)
    {
      var history', trace' := history + [best], trace + [t];
      forall i | 0 <= i < |trace'|
        ensures Recorded(trace'[i], gens[i], history'[i])
      {
        if i < |trace| {
          assert trace'[i] == trace[i] && history'[i] == history[i];
        }
      }
      forall i | 0 < i < |trace'|
        ensures trace'[i].before == trace'[i - 1].after
      {
        if i < |trace| {
          assert trace'[i] == trace[i] && trace'[i - 1] == trace[i - 1];
        }
      }
    }
  }

  /** A history of at most `maxGenerations` entries (exactly that many
      without a target) in which only the last entry may reach the target,
      and a history cut short ends on one that does. */
  predicate StoppedAtTarget(history: seq<Extended>, maxGenerations: nat, target: Option<real>) {
    && |history| <= maxGenerations
    && (target.None? ==> |history| == maxGenerations)
    && (target.Some? ==>
          && (forall i :: 0 <= i < |history| - 1 ==> !Reaches(history[i], target.value))
          && (|history| < maxGenerations ==> |history| > 0 && Reaches(history[|history| - 1], target.value)))
  }

  /** `new`: panics on a zero population size, vector size or parent count
      (in that order); otherwise clamps the configuration and draws the
      initial population from `initial`. */
  method New(popSize: nat, vectorSize: nat, numParents: nat, mutationRate: real,
             selectionRatio: real, geneMin: real, geneMax: real, initial: seq<Individual>)
    returns (r: Outcome<GeneticOptimizer>)
    requires popSize > 0 && vectorSize > 0 && numParents > 0 ==>
      && |initial| >= ClampedPopSize(popSize)
      && AllFit(initial, vectorSize, GeneRange(geneMin, geneMax).0, GeneRange(geneMin, geneMax).1)
    ensures popSize == 0 ==> r == Panic("Population size must be positive")
    ensures popSize > 0 && vectorSize == 0 ==> r == Panic("Vector size must be positive")
    ensures popSize > 0 && vectorSize > 0 && numParents == 0 ==> r == Panic("Number of parents must be positive")
    ensures !r.Err?
    ensures r.Ok? ==>
      && popSize > 0 && vectorSize > 0 && numParents > 0
      && fresh(r.value)
      && r.value.Valid()
      && r.value.popSize == ClampedPopSize(popSize)
      && r.value.vectorSize == vectorSize
      && r.value.numParents == AdjustedParents(numParents, ClampedPopSize(popSize))
      && r.value.mutationRate == Clamp(mutationRate, 0.0, 1.0)
      && r.value.selectionRatio == Clamp(selectionRatio, 0.1, 1.0)
      && (r.value.geneMin, r.value.geneMax) == GeneRange(geneMin, geneMax)
      && r.value.population == initial[..ClampedPopSize(popSize)]
    ensures popSize > 0 && vectorSize > 0 && numParents > 0 ==> r.Ok?
  {
    if popSize == 0 {
      return Panic("Population size must be positive");
    }
    if vectorSize == 0 {
      return Panic("Vector size must be positive");
    }
    if numParents == 0 {
      return Panic("Number of parents must be positive");
    }
    var size := Max(4, popSize);
    var parents := AdjustedParents(numParents, size);
    AdjustedParentsProperties(numParents, size);
    var rate := Clamp(mutationRate, 0.0, 1.0);
    var ratio := Clamp(selectionRatio, 0.1, 1.0);
    var range := GeneRange(geneMin, geneMax);
    var population: seq<Individual> := [];
    for i := 0 to size
      invariant population == initial[..i]
    {
      population := population + [initial[i]];
      assert initial[..i + 1] == initial[..i] + [initial[i]];
    }
    var o := new GeneticOptimizer.Init(size, vectorSize, parents, rate, ratio, range.0, range.1, population);
    return Ok(o);
  }
}
