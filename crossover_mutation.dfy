/** Multi-point crossover and per-gene mutation, after
    `data_analysis/src/ML/crossover_mutation.rs`.

    The shuffled cut points of each pair, the mutation coins and the
    replacement values are explicit inputs.
 */
module CrossoverMutation {
  import opened Outcomes
  import opened Selection
  import opened Tournament

  // ---------------------------------------------------------------------
  // Cut points and the positions they swap

  /** Cut points as `crossover` draws them for one pair: `n` distinct values
      of `1..len`, sorted. */
  predicate CutPoints(cps: seq<nat>, n: nat, len: nat) {
    |cps| == n && Cuts(cps, len)
  }

  /** Strictly increasing values in `[1, bound)`. */
  predicate Cuts(cps: seq<nat>, bound: nat) {
    && (forall j :: 0 <= j < |cps| ==> 1 <= cps[j] < bound)
    && (forall i, j :: 0 <= i < j < |cps| ==> cps[i] < cps[j])
  }

  /** Where the segment after cut `j - 1` ends: at cut `j`, or at `len`. */
  function Bound(cps: seq<nat>, j: nat, len: nat): nat {
    if j < |cps| then cps[j] else len
  }

  /** Whether position `k` of a vector of length `len` is exchanged between
      the two children: segment `[cps[j], Bound(cps, j + 1, len))` is
      exchanged for every even `j`.  Written by peeling off the last cut,
      whose segment runs to `len`, while the earlier cuts' segments end at
      the last cut. */
  predicate Swapped(cps: seq<nat>, len: nat, k: nat)
    decreases |cps|
  {
    if cps == [] then false
    else
      var n := |cps| - 1;
      Swapped(cps[..n], cps[n], k) || (n % 2 == 0 && cps[n] <= k < len)
  }

  /** Number of cut points at or below `k`. */
  function CutsAtMost(cps: seq<nat>, k: nat): (c: nat)
    ensures c <= |cps|
  {
    if cps == [] then 0
    else CutsAtMost(cps[..|cps| - 1], k) + (if cps[|cps| - 1] <= k then 1 else 0)
  }

  lemma CutsPrefix(cps: seq<nat>, bound: nat, j: nat)
    requires Cuts(cps, bound) && j < |cps|
    ensures Cuts(cps[..j], cps[j])
  {
  }

  /** Only positions below the end of the vector are ever exchanged. */
  lemma {:induction false} SwappedBelowLength(cps: seq<nat>, len: nat, k: nat)
    requires Cuts(cps, len + 1)
    ensures Swapped(cps, len, k) ==> cps != [] && cps[0] <= k < len
  {
    if cps != [] {
      var n := |cps| - 1;
      CutsPrefix(cps, len + 1, n);
      assert Cuts(cps[..n], cps[n] + 1);
      SwappedBelowLength(cps[..n], cps[n], k);
      if n > 0 {
        assert cps[..n][0] == cps[0];
      }
    }
  }

  /** The segment before the first cut point, position 0 in particular, is
      never exchanged. */
  lemma FirstPositionKept(cps: seq<nat>, len: nat)
    requires Cuts(cps, len)
    ensures !Swapped(cps, len, 0)
  {
    SwappedBelowLength(cps, len, 0);
  }

  lemma {:induction false} CutsAtMostAll(cps: seq<nat>, k: nat)
    requires forall j :: 0 <= j < |cps| ==> cps[j] <= k
    ensures CutsAtMost(cps, k) == |cps|
  {
    if cps != [] {
      CutsAtMostAll(cps[..|cps| - 1], k);
    }
  }

  /** A position inside the vector is exchanged exactly when an odd number
      of cut points lie at or below it. */
  lemma {:induction false} SwappedIffOddCuts(cps: seq<nat>, len: nat, k: nat)
    requires Cuts(cps, len) && k < len
    ensures Swapped(cps, len, k) <==> CutsAtMost(cps, k) % 2 == 1
  {
    if cps != [] {
      var n := |cps| - 1;
      CutsPrefix(cps, len, n);
      if cps[n] <= k {
        SwappedBelowLength(cps[..n], cps[n], k);
        assert Cuts(cps[..n], cps[n] + 1);
        CutsAtMostAll(cps[..n], k);
      } else {
        SwappedIffOddCuts(cps[..n], cps[n], k);
      }
    }
  }

  /** The segment reading: exchanged exactly when inside some segment that
      starts at an even-numbered cut point. */
  predicate InSegment(cps: seq<nat>, len: nat, j: nat, k: nat) {
    j < |cps| && j % 2 == 0 && cps[j] <= k < Bound(cps, j + 1, len)
  }

  lemma {:induction false} SwappedIffInSegment(cps: seq<nat>, len: nat, k: nat)
    requires Cuts(cps, len)
    ensures Swapped(cps, len, k) <==> exists j: nat :: InSegment(cps, len, j, k)
  {
    if cps != [] {
      var n := |cps| - 1;
      var pre := cps[..n];
      CutsPrefix(cps, len, n);
      SwappedIffInSegment(pre, cps[n], k);
      if Swapped(cps, len, k) {
        if Swapped(pre, cps[n], k) {
          var j: nat :| InSegment(pre, cps[n], j, k);
          assert InSegment(cps, len, j, k);
        } else {
          assert InSegment(cps, len, n, k);
        }
      } else {
        if j: nat :| InSegment(cps, len, j, k) {
          if j < n {
            assert InSegment(pre, cps[n], j, k);
          }
          assert false;
        }
      }
    }
  }

  /** Appending the next cut point extends the exchanged set by that cut's
      segment (which ends at the following cut, or at `len`). */
  lemma SwappedStep(cps: seq<nat>, len: nat, j: nat, k: nat)
    requires j < |cps|
    ensures Swapped(cps[..j + 1], Bound(cps, j + 1, len), k) ==
      (Swapped(cps[..j], cps[j], k) || (j % 2 == 0 && cps[j] <= k < Bound(cps, j + 1, len)))
  {
    assert cps[..j + 1][..j] == cps[..j];
  }

  lemma {:induction false} SwappedGrows(cps: seq<nat>, len: nat, j: nat, k: nat)
    requires j <= |cps|
    requires Swapped(cps[..j], Bound(cps, j, len), k)
    ensures Swapped(cps, len, k)
    decreases |cps| - j
  {
    if j == |cps| {
      assert cps[..j] == cps;
    } else {
      SwappedStep(cps, len, j, k);
      SwappedGrows(cps, len, j + 1, k);
    }
  }

  // ---------------------------------------------------------------------
  // Crossover

  /** Every exchanged position exists in both parents (otherwise the swap
      indexes out of bounds). */
  ghost predicate PairFits(p1: Individual, p2: Individual, cps: seq<nat>, len: nat) {
    forall k: nat :: Swapped(cps, len, k) ==> k < |p1| && k < |p2|
  }

  /** `c1` and `c2` are the children of `p1` and `p2` for the cut points
      `cps`: each a copy of its own parent with the exchanged positions
      taken from the other. */
  ghost predicate Children(c1: Individual, c2: Individual, p1: Individual, p2: Individual,
                     cps: seq<nat>, len: nat)
  {
    && PairFits(p1, p2, cps, len)
    && |c1| == |p1| && |c2| == |p2|
    && (forall k :: 0 <= k < |p1| ==> c1[k] == if Swapped(cps, len, k) then p2[k] else p1[k])
    && (forall k :: 0 <= k < |p2| ==> c2[k] == if Swapped(cps, len, k) then p1[k] else p2[k])
  }

  /** Crossover only exchanges genes position by position. */
  lemma ChildrenExchangeGenes(c1: Individual, c2: Individual, p1: Individual, p2: Individual,
                              cps: seq<nat>, len: nat, k: nat)
    requires Children(c1, c2, p1, p2, cps, len)
    requires k < |p1| && k < |p2|
    ensures multiset{c1[k], c2[k]} == multiset{p1[k], p2[k]}
    ensures Swapped(cps, len, k) ==> c1[k] == p2[k] && c2[k] == p1[k]
    ensures !Swapped(cps, len, k) ==> c1[k] == p1[k] && c2[k] == p2[k]
  {
  }

  /** Position `k` of `a`, `b` holds the genes of position `k` of `x`, `y`,
      either kept or exchanged. */
  predicate ExchangedAt(a: seq<real>, b: seq<real>, x: seq<real>, y: seq<real>, k: nat)
    requires k < |a| && k < |b| && k < |x| && k < |y|
  {
    (a[k] == x[k] && b[k] == y[k]) || (a[k] == y[k] && b[k] == x[k])
  }

  lemma {:induction false} PositionwiseExchangeKeepsPool(a: seq<real>, b: seq<real>, x: seq<real>, y: seq<real>)
    requires |a| == |b| == |x| == |y|
    requires forall k: nat :: k < |a| ==> ExchangedAt(a, b, x, y, k)
    ensures multiset(a) + multiset(b) == multiset(x) + multiset(y)
  {
    if a != [] {
      var n := |a| - 1;
      var a', b', x', y' := a[..n], b[..n], x[..n], y[..n];
      forall k: nat | k < n
        ensures ExchangedAt(a', b', x', y', k)
      {
        assert ExchangedAt(a, b, x, y, k);
      }
      PositionwiseExchangeKeepsPool(a', b', x', y');
      LastSplit(a);
      LastSplit(b);
      LastSplit(x);
      LastSplit(y);
      assert ExchangedAt(a, b, x, y, n);
      var ends := multiset{a[n]} + multiset{b[n]};
      assert ends == multiset{x[n]} + multiset{y[n]};
      assert multiset(a) + multiset(b) == multiset(a') + multiset(b') + ends;
      assert multiset(x) + multiset(y) == multiset(x') + multiset(y') + ends;
    }
  }

  lemma LastSplit(s: seq<real>)
    requires s != []
    ensures multiset(s) == multiset(s[..|s| - 1]) + multiset{s[|s| - 1]}
  {
    assert s == s[..|s| - 1] + [s[|s| - 1]];
  }

  /** Two pairs of sequences whose first `m` positions hold the same genes
      between them and whose tails agree hold the same genes overall. */
  lemma PoolFromParts(a: seq<real>, b: seq<real>, x: seq<real>, y: seq<real>, m: nat)
    requires m <= |a| && m <= |b| && |a| == |x| && |b| == |y|
    requires multiset(a[..m]) + multiset(b[..m]) == multiset(x[..m]) + multiset(y[..m])
    requires a[m..] == x[m..] && b[m..] == y[m..]
    ensures multiset(a) + multiset(b) == multiset(x) + multiset(y)
  {
    assert a == a[..m] + a[m..] && x == x[..m] + x[m..];
    assert b == b[..m] + b[m..] && y == y[..m] + y[m..];
    forall g: real
      ensures (multiset(a) + multiset(b))[g] == (multiset(x) + multiset(y))[g]
    {
      assert (multiset(a[..m]) + multiset(b[..m]))[g] == (multiset(x[..m]) + multiset(y[..m]))[g];
    }
  }

  /** The two children hold exactly the parents' genes between them. */
  lemma ChildrenKeepGenePool(c1: Individual, c2: Individual, p1: Individual, p2: Individual,
                             cps: seq<nat>, len: nat)
    requires Children(c1, c2, p1, p2, cps, len)
    ensures multiset(c1) + multiset(c2) == multiset(p1) + multiset(p2)
  {
    // Past the shorter parent nothing is exchanged.
    var m := if |p1| <= |p2| then |p1| else |p2|;
    forall k: nat | k < m
      ensures ExchangedAt(c1[..m], c2[..m], p1[..m], p2[..m], k)
    {
      ChildrenExchangeGenes(c1, c2, p1, p2, cps, len, k);
    }
    PositionwiseExchangeKeepsPool(c1[..m], c2[..m], p1[..m], p2[..m]);
    forall k | m <= k < |p1|
      ensures c1[k] == p1[k]
    {
      assert !Swapped(cps, len, k);
    }
    forall k | m <= k < |p2|
      ensures c2[k] == p2[k]
    {
      assert !Swapped(cps, len, k);
    }
    assert c1[m..] == p1[m..] && c2[m..] == p2[m..];
    PoolFromParts(c1, c2, p1, p2, m);
  }

  /** Without cut points the children are copies of their parents. */
  lemma NoCutsCopiesParents(c1: Individual, c2: Individual, p1: Individual, p2: Individual, len: nat)
    requires Children(c1, c2, p1, p2, [], len)
    ensures c1 == p1 && c2 == p2
  {
  }

  /** The configuration under which `crossover` reaches its pair loop. */
  predicate CrossoverRuns(parents: seq<Parent>, numCrosspoints: nat) {
    |parents| % 2 == 0 && |parents| > 0 && numCrosspoints < |parents[0].genes|
  }

  ghost predicate AllPairsFit(parents: seq<Parent>, cuts: seq<seq<nat>>, len: nat)
    requires |cuts| >= |parents| / 2
  {
    forall i :: 0 <= i < |parents| / 2 ==>
      PairFits(parents[2 * i].genes, parents[2 * i + 1].genes, cuts[i], len)
  }

  /** Processes one pair: clones both parents and swaps the segment that
      starts at every even-numbered cut point. */
  method CrossPair(p1: Individual, p2: Individual, cps: seq<nat>, len: nat)
    returns (r: Outcome<(Individual, Individual)>)
    requires Cuts(cps, len)
    ensures r.Ok? <==> PairFits(p1, p2, cps, len)
    ensures r.Ok? ==> Children(r.value.0, r.value.1, p1, p2, cps, len)
    ensures !r.Ok? ==> r == Panic("index out of bounds")
  {
    var child1 := p1;
    var child2 := p2;
    assert cps[..0] == [];
    for j := 0 to |cps|
      invariant |child1| == |p1| && |child2| == |p2|
      invariant forall k: nat :: Swapped(cps[..j], Bound(cps, j, len), k) ==> k < |p1| && k < |p2|
      invariant forall k :: 0 <= k < |p1| ==>
        child1[k] == if Swapped(cps[..j], Bound(cps, j, len), k) then p2[k] else p1[k]
      invariant forall k :: 0 <= k < |p2| ==>
        child2[k] == if Swapped(cps[..j], Bound(cps, j, len), k) then p1[k] else p2[k]
    {
      var done := cps[..j];
      var next := cps[..j + 1];
      var start := cps[j];
      var end := if j + 1 < |cps| then cps[j + 1] else len;
      assert Bound(cps, j, len) == start && Bound(cps, j + 1, len) == end;
      CutsPrefix(cps, len, j);
      assert Cuts(done, start + 1);
      forall k: nat
        ensures Swapped(done, start, k) ==> k < start
      {
        SwappedBelowLength(done, start, k);
      }
      forall k: nat
        ensures Swapped(next, end, k) == (Swapped(done, start, k) || (j % 2 == 0 && start <= k < end))
      {
        SwappedStep(cps, len, j, k);
      }
      if j % 2 == 0 {
        var k := start;
        while k < end
          invariant start <= k <= end
          invariant |child1| == |p1| && |child2| == |p2|
          invariant forall k': nat :: Swapped(done, start, k') || start <= k' < k ==>
            k' < |p1| && k' < |p2|
          invariant forall k' :: 0 <= k' < |p1| ==>
            child1[k'] == if Swapped(done, start, k') || start <= k' < k then p2[k'] else p1[k']
          invariant forall k' :: 0 <= k' < |p2| ==>
            child2[k'] == if Swapped(done, start, k') || start <= k' < k then p1[k'] else p2[k']
        {
          if k >= |child1| || k >= |child2| {
            assert Swapped(next, end, k);
            SwappedGrows(cps, len, j + 1, k);
            return Panic("index out of bounds");
          }
          var gene := child1[k];
          child1 := child1[k := child2[k]];
          child2 := child2[k := gene];
          k := k + 1;
        }
      }
      forall k: nat | Swapped(next, end, k)
        ensures k < |p1| && k < |p2|
      {
        SwappedStep(cps, len, j, k);
        if Swapped(done, start, k) {
          assert Swapped(cps[..j], Bound(cps, j, len), k);
        } else {
          assert j % 2 == 0 && start <= k < end;
        }
      }
    }
    assert cps[..|cps|] == cps && Bound(cps, |cps|, len) == len;
    return Ok((child1, child2));
  }

  /** `crossover`: panics on an odd parent count (checked before emptiness),
      returns nothing for no parents, panics when the first parent is not
      longer than the number of cut points, and otherwise crosses each pair
      in order with its own cut points. */
  method Crossover(parents: seq<Parent>, numCrosspoints: nat, cuts: seq<seq<nat>>)
    returns (r: Outcome<seq<Individual>>)
    requires CrossoverRuns(parents, numCrosspoints) ==>
      && |cuts| >= |parents| / 2
      && forall i :: 0 <= i < |parents| / 2 ==>
           CutPoints(cuts[i], numCrosspoints, |parents[0].genes|)
    ensures |parents| % 2 != 0 ==> r == Panic("Number of parents must be even")
    ensures |parents| == 0 ==> r == Ok([])
    ensures |parents| % 2 == 0 && |parents| > 0 && numCrosspoints >= |parents[0].genes| ==>
      r == Panic("Number of crosspoints must be less than vector length")
    ensures CrossoverRuns(parents, numCrosspoints) ==>
      && (r.Ok? <==> AllPairsFit(parents, cuts, |parents[0].genes|))
      && (!r.Ok? ==> r == Panic("index out of bounds"))
    ensures CrossoverRuns(parents, numCrosspoints) && r.Ok? ==>
      && |r.value| == |parents|
      && forall i :: 0 <= i < |parents| / 2 ==>
           Children(r.value[2 * i], r.value[2 * i + 1], parents[2 * i].genes, parents[2 * i + 1].genes,
                    cuts[i], |parents[0].genes|)
  {
    var numParents := |parents|;
    if numParents % 2 != 0 {
      return Panic("Number of parents must be even");
    }
    if numParents == 0 {
      return Ok([]);
    }
    var len := |parents[0].genes|;
    if numCrosspoints >= len {
      return Panic("Number of crosspoints must be less than vector length");
    }
    var offspring: seq<Individual> := [];
    var i := 0;
    while i < numParents
      invariant 0 <= i <= numParents && i % 2 == 0
      invariant |offspring| == i
      invariant forall h :: 0 <= h < i / 2 ==>
        PairFits(parents[2 * h].genes, parents[2 * h + 1].genes, cuts[h], len)
      invariant forall h :: 0 <= h < i / 2 ==>
        Children(offspring[2 * h], offspring[2 * h + 1], parents[2 * h].genes, parents[2 * h + 1].genes,
                 cuts[h], len)
    {
      var pair := CrossPair(parents[i].genes, parents[i + 1].genes, cuts[i / 2], len);
      if !pair.Ok? {
        return Panic(pair.message);
      }
      offspring := offspring + [pair.value.0, pair.value.1];
      i := i + 2;
    }
    return Ok(offspring);
  }

  // ---------------------------------------------------------------------
  // Mutation

  /** The draws `mutation` consumes: a coin in `[0, 1)` for every gene, and,
      when the gene range is not inverted, a replacement value in
      `[gmin, gmax]` for every gene whose coin is below the rate. */
  predicate MutationDraws(offspring: seq<Individual>, coins: seq<seq<real>>, values: seq<seq<real>>,
                          rate: real, gmin: real, gmax: real)
  {
    && |coins| == |offspring| && |values| == |offspring|
    && (forall i :: 0 <= i < |offspring| ==> |coins[i]| == |offspring[i]| && |values[i]| == |offspring[i]|)
    && (forall i, j :: 0 <= i < |coins| && 0 <= j < |coins[i]| ==> 0.0 <= coins[i][j] < 1.0)
    && (forall i, j :: 0 <= i < |values| && 0 <= j < |values[i]| && coins[i][j] < rate && gmin <= gmax ==>
          gmin <= values[i][j] <= gmax)
  }

  /** The gene `(i, j)` is replaced. */
  predicate Mutates(coins: seq<seq<real>>, rate: real, i: nat, j: nat) {
    i < |coins| && j < |coins[i]| && coins[i][j] < rate
  }

  /** `m` is `offspring` with every gene whose coin is below `rate` replaced
      by its drawn value. */
  predicate MutatedFrom(m: seq<Individual>, offspring: seq<Individual>, coins: seq<seq<real>>,
                        values: seq<seq<real>>, rate: real)
    requires |coins| == |offspring| && |values| == |offspring|
    requires forall i :: 0 <= i < |offspring| ==> |coins[i]| == |offspring[i]| && |values[i]| == |offspring[i]|
  {
    && |m| == |offspring|
    && (forall i :: 0 <= i < |m| ==> |m[i]| == |offspring[i]|)
    && (forall i, j :: 0 <= i < |m| && 0 <= j < |m[i]| ==>
          m[i][j] == if coins[i][j] < rate then values[i][j] else offspring[i][j])
  }

  /** `mutation`: panics on a rate outside `[0, 1]`; otherwise replaces each
      gene whose coin falls below the rate.  Sampling a replacement from an
      inverted range `gmin > gmax` panics, so that happens exactly when some
      gene mutates. */
  method Mutation(rate: real, gmin: real, gmax: real, offspring: seq<Individual>,
                  coins: seq<seq<real>>, values: seq<seq<real>>)
    returns (r: Outcome<seq<Individual>>)
    requires 0.0 <= rate <= 1.0 ==> MutationDraws(offspring, coins, values, rate, gmin, gmax)
    ensures !(0.0 <= rate <= 1.0) ==> r == Panic("Mutation rate must be between 0 and 1")
    ensures 0.0 <= rate <= 1.0 ==>
      (r.Panic? <==> gmin > gmax && exists i: nat, j: nat :: Mutates(coins, rate, i, j))
    ensures 0.0 <= rate <= 1.0 && r.Panic? ==> r == Panic("cannot sample empty range")
    ensures !r.Err?
    ensures r.Ok? ==> 0.0 <= rate <= 1.0 && MutatedFrom(r.value, offspring, coins, values, rate)
  {
    if !(0.0 <= rate <= 1.0) {
      return Panic("Mutation rate must be between 0 and 1");
    }
    var mutated: seq<Individual> := [];
    for i := 0 to |offspring|
      invariant |mutated| == i
      invariant forall h :: 0 <= h < i ==> |mutated[h]| == |offspring[h]|
      invariant forall h, j :: 0 <= h < i && 0 <= j < |mutated[h]| ==>
        mutated[h][j] == if coins[h][j] < rate then values[h][j] else offspring[h][j]
      invariant gmin > gmax ==> forall h: nat, j: nat :: h < i ==> !Mutates(coins, rate, h, j)
    {
      var individual := offspring[i];
      for j := 0 to |individual|
        invariant |individual| == |offspring[i]|
        invariant forall j' :: 0 <= j' < |individual| ==>
          individual[j'] == if j' < j && coins[i][j'] < rate then values[i][j'] else offspring[i][j']
        invariant gmin > gmax ==> forall j': nat :: j' < j ==> !Mutates(coins, rate, i, j')
      {
        if coins[i][j] < rate {
          if gmin > gmax {
            assert Mutates(coins, rate, i, j);
            return Panic("cannot sample empty range");
          }
          individual := individual[j := values[i][j]];
        }
      }
      mutated := mutated + [individual];
    }
    return Ok(mutated);
  }

  /** An inverted gene range admits any replacement values, so the draws
      of a mutating gene fit and `mutation` reaches its sampling panic. */
  lemma InvertedRangeReachesSampling()
    ensures MutationDraws([[2.0]], [[0.25]], [[7.0]], 0.5, 1.0, 0.0)
    ensures Mutates([[0.25]], 0.5, 0, 0)
  {
  }

  /** At rate 0 nothing mutates: the offspring come back unchanged. */
  lemma MutationAtRateZero(m: seq<Individual>, offspring: seq<Individual>, coins: seq<seq<real>>,
                           values: seq<seq<real>>, gmin: real, gmax: real)
    requires MutationDraws(offspring, coins, values, 0.0, gmin, gmax)
    requires MutatedFrom(m, offspring, coins, values, 0.0)
    ensures m == offspring
  {
    forall i | 0 <= i < |m|
      ensures m[i] == offspring[i]
    {
      assert |coins[i]| == |m[i]|;
    }
  }

  /** At rate 1 every coin is below the rate: every gene is replaced. */
  lemma MutationAtRateOne(m: seq<Individual>, offspring: seq<Individual>, coins: seq<seq<real>>,
                          values: seq<seq<real>>, gmin: real, gmax: real)
    requires MutationDraws(offspring, coins, values, 1.0, gmin, gmax)
    requires MutatedFrom(m, offspring, coins, values, 1.0)
    ensures m == values
  {
    forall i | 0 <= i < |m|
      ensures m[i] == values[i]
    {
      assert |coins[i]| == |m[i]|;
    }
  }

  /** For an ordered gene range, every gene of the result is either the
      original gene or a value in `[gmin, gmax]`. */
  lemma MutatedGenesInRange(m: seq<Individual>, offspring: seq<Individual>, coins: seq<seq<real>>,
                            values: seq<seq<real>>, rate: real, gmin: real, gmax: real,
                            i: nat, j: nat)
    requires gmin <= gmax
    requires MutationDraws(offspring, coins, values, rate, gmin, gmax)
    requires MutatedFrom(m, offspring, coins, values, rate)
    requires i < |m| && j < |m[i]|
    ensures m[i][j] == offspring[i][j] || gmin <= m[i][j] <= gmax
  {
    assert |coins[i]| == |m[i]|;
  }
}
