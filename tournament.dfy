/** Binary tournament parent selection, after `src/ML/tournament.rs`.

    The random generator is replaced by explicit draws: for each
    tournament, the first sampled index and the successive samples of the
    second index (the source re-draws the second index until it differs
    from the first).
 */
module Tournament {
  import opened Outcomes
  import opened Selection

  /** An individual together with the fitness computed when it was selected. */
  datatype Parent = Parent(fitness: real, genes: Individual)

  /** The samples of one tournament: `first`, then every sample of the second
      index in order, up to and including the first that differs from `first`. */
  datatype Draw = Draw(first: nat, seconds: seq<nat>)

  /** The samples lie in `[0, size)` and the retry loop for the second index ends. */
  predicate DrawFits(d: Draw, size: nat) {
    && d.first < size
    && (forall j :: 0 <= j < |d.seconds| ==> d.seconds[j] < size)
    && (exists j :: 0 <= j < |d.seconds| && d.seconds[j] != d.first)
  }

  /** The second index the retry loop settles on. */
  ghost function SecondIndex(first: nat, seconds: seq<nat>): nat
    requires exists j :: 0 <= j < |seconds| && seconds[j] != first
  {
    if seconds[0] != first then seconds[0]
    else
      var j :| 0 <= j < |seconds| && seconds[j] != first;
      assert seconds[1..][j - 1] == seconds[j];
      SecondIndex(first, seconds[1..])
  }

  lemma {:induction false} SecondIndexIsADifferentSample(first: nat, seconds: seq<nat>)
    requires exists j :: 0 <= j < |seconds| && seconds[j] != first
    ensures SecondIndex(first, seconds) != first
    ensures SecondIndex(first, seconds) in seconds
  {
    if seconds[0] == first {
      var j :| 0 <= j < |seconds| && seconds[j] != first;
      assert seconds[1..][j - 1] == seconds[j];
      SecondIndexIsADifferentSample(first, seconds[1..]);
    }
  }

  /** The winner of one tournament: the fitter of the two sampled
      individuals, the second one on a tie. */
  ghost function Winner(population: seq<Individual>, d: Draw): Parent
    requires DrawFits(d, |population|)
  {
    var i1 := d.first;
    var i2 := SecondIndex(d.first, d.seconds);
    SecondIndexIsADifferentSample(d.first, d.seconds);
    var f1 := Fitness(population[i1]);
    var f2 := Fitness(population[i2]);
    if f1 < f2 then Parent(f1, population[i1]) else Parent(f2, population[i2])
  }

  function Min(a: real, b: real): real {
    if a <= b then a else b
  }

  /** What a tournament promises: two distinct valid indices, the cached
      fitness is the winner's own, the winner is one of the two sampled
      individuals and the fitter of them, and a tie goes to the second. */
  lemma WinnerProperties(population: seq<Individual>, d: Draw)
    requires DrawFits(d, |population|)
    ensures var w := Winner(population, d);
      var i1 := d.first;
      var i2 := SecondIndex(d.first, d.seconds);
      && i1 != i2 && i1 < |population| && i2 < |population|
      && w.fitness == Fitness(w.genes)
      && (w.genes == population[i1] || w.genes == population[i2])
      && w.fitness == Min(Fitness(population[i1]), Fitness(population[i2]))
      && (Fitness(population[i1]) == Fitness(population[i2]) ==> w.genes == population[i2])
  {
    SecondIndexIsADifferentSample(d.first, d.seconds);
  }

  /** The number of parents actually selected: `num_parents` rounded down to
      even, at least 2, and capped to the largest even count the population
      size allows. */
  function ParentCount(requested: nat, size: nat): nat {
    var even := requested - requested % 2;
    var atLeastTwo := if even == 0 then 2 else even;
    if atLeastTwo > size then size - size % 2 else atLeastTwo
  }

  lemma ParentCountProperties(requested: nat, size: nat)
    requires requested > 0
    ensures ParentCount(requested, size) % 2 == 0
    ensures ParentCount(requested, size) <= size
    ensures size == 1 ==> ParentCount(requested, size) == 0
    ensures size >= 2 ==> ParentCount(requested, size) >= 2
    ensures requested % 2 == 0 && requested <= size ==> ParentCount(requested, size) == requested
  {
  }

  /** `binary_tournament`: panics on a zero parent count (checked first) or an
      empty population; otherwise runs `ParentCount` tournaments in order. */
  method BinaryTournament(population: seq<Individual>, numParents: nat, draws: seq<Draw>)
    returns (r: Outcome<seq<Parent>>)
    requires numParents > 0 && |population| > 0 ==>
      && |draws| >= ParentCount(numParents, |population|)
      && forall i :: 0 <= i < ParentCount(numParents, |population|) ==> DrawFits(draws[i], |population|)
    ensures numParents == 0 ==> r == Panic("Number of parents must be positive")
    ensures numParents > 0 && |population| == 0 ==> r == Panic("Population cannot be empty")
    ensures numParents > 0 && |population| > 0 ==>
      && r.Ok?
      && |r.value| == ParentCount(numParents, |population|)
      && forall i :: 0 <= i < |r.value| ==> r.value[i] == Winner(population, draws[i])
  {
    if numParents <= 0 {
      return Panic("Number of parents must be positive");
    }
    if |population| == 0 {
      return Panic("Population cannot be empty");
    }
    var count := numParents - numParents % 2;
    if count == 0 {
      count := 2;
    }
    if count > |population| {
      count := |population| - |population| % 2;
    }
    var result: seq<Parent> := [];
    for i := 0 to count
      invariant |result| == i
      invariant forall j :: 0 <= j < i ==> result[j] == Winner(population, draws[j])
    {
      var d := draws[i];
      var idx1 := d.first;
      ghost var w :| 0 <= w < |d.seconds| && d.seconds[w] != idx1;
      var t := 0;
      var idx2 := d.seconds[0];
      assert d.seconds[0..] == d.seconds;
      while idx2 == idx1
        invariant 0 <= t <= w && idx2 == d.seconds[t]
        invariant d.seconds[t..][w - t] != idx1
        invariant SecondIndex(idx1, d.seconds[t..]) == SecondIndex(idx1, d.seconds)
        decreases w - t
      {
        assert d.seconds[t..][1..] == d.seconds[t + 1..];
        t := t + 1;
        idx2 := d.seconds[t];
      }
      var fitness1 := Fitness(population[idx1]);
      var fitness2 := Fitness(population[idx2]);
      if fitness1 < fitness2 {
        result := result + [Parent(fitness1, population[idx1])];
      } else {
        result := result + [Parent(fitness2, population[idx2])];
      }
    }
    return Ok(result);
  }
}
