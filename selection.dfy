/** Fitness evaluation and environmental (truncation) selection,
    after `data_analysis/src/ML/selection.rs`.

    `environmental_selection` scores every candidate, sorts the scored
    candidates with Rust's stable `sort_by`, takes the first
    `round(len * ratio)` of them and inserts each into a map keyed by its
    fitness. The stable sort is modelled by its unique outcome: the
    candidate indices ordered by fitness and, on equal fitness, by
    position (`Ranking`). Equal fitness values share one key, so the later
    candidate overwrites the earlier one.
 */
module Selection {
  import opened Outcomes

  /** A gene vector: one candidate solution. */
  type Individual = seq<real>

  /** Sum of the squares of the genes (`calculate_fitness`). */
  function Fitness(v: Individual): (r: real)
    ensures r >= 0.0
  {
    if v == [] then 0.0 else SquareNonNegative(v[0]); v[0] * v[0] + Fitness(v[1..])
  }

  lemma SquareNonNegative(x: real)
    ensures x * x >= 0.0
  {
    if x < 0.0 {
      assert x * x > 0.0;
    }
  }

  lemma FitnessExamples()
    ensures Fitness([]) == 0.0
    ensures Fitness([1.0, 2.0, 3.0]) == 14.0
  {
    assert [1.0, 2.0, 3.0][1..] == [2.0, 3.0];
    assert [2.0, 3.0][1..] == [3.0];
    assert [3.0][1..] == [];
  }

  /** The fitness of every candidate, by position. */
  function Fitnesses(population: seq<Individual>): (fits: seq<real>)
    ensures |fits| == |population|
    ensures forall i :: 0 <= i < |population| ==> fits[i] == Fitness(population[i])
  {
    if population == [] then [] else [Fitness(population[0])] + Fitnesses(population[1..])
  }

  /** Rust's `f64::round` for a non-negative argument: halves round up. */
  function Round(x: real): (n: nat)
    requires x >= 0.0
    ensures n as real <= x + 0.5 < n as real + 1.0
  {
    (x + 0.5).Floor
  }

  /** `(len as f64 * ratio).round() as usize` */
  function NumSelected(len: nat, ratio: real): (m: nat)
    requires 0.0 <= ratio <= 1.0
    ensures m <= len
    ensures ratio == 1.0 ==> m == len
    ensures ratio == 0.0 ==> m == 0
  {
    assert len as real * ratio <= len as real;
    Round(len as real * ratio)
  }

  // ---------------------------------------------------------------------
  // The stable sort by fitness, on candidate indices

  predicate IndicesBelow(s: seq<nat>, n: nat) {
    forall k :: 0 <= k < |s| ==> s[k] < n
  }

  /** Candidate `i` comes before candidate `j` in a stable ascending sort:
      lower fitness first, and on equal fitness the earlier position first. */
  predicate Before(fits: seq<real>, i: nat, j: nat)
    requires i < |fits| && j < |fits|
  {
    fits[i] < fits[j] || (fits[i] == fits[j] && i < j)
  }

  predicate RankedBy(fits: seq<real>, s: seq<nat>)
    requires IndicesBelow(s, |fits|)
  {
    forall a, b :: 0 <= a < b < |s| ==> Before(fits, s[a], s[b])
  }

  function Insert(fits: seq<real>, x: nat, s: seq<nat>): (r: seq<nat>)
    requires x < |fits| && IndicesBelow(s, |fits|)
    ensures |r| == |s| + 1 && IndicesBelow(r, |fits|)
  {
    if |s| == 0 || Before(fits, x, s[0]) then [x] + s
    else [s[0]] + Insert(fits, x, s[1..])
  }

  lemma {:induction false} InsertAddsIndex(fits: seq<real>, x: nat, s: seq<nat>)
    requires x < |fits| && IndicesBelow(s, |fits|)
    ensures multiset(Insert(fits, x, s)) == multiset(s) + multiset{x}
  {
    if |s| > 0 && !Before(fits, x, s[0]) {
      assert s == [s[0]] + s[1..];
      InsertAddsIndex(fits, x, s[1..]);
    }
  }

  function SortIndices(fits: seq<real>, s: seq<nat>): (r: seq<nat>)
    requires IndicesBelow(s, |fits|)
    ensures |r| == |s| && IndicesBelow(r, |fits|)
  {
    if |s| == 0 then [] else Insert(fits, s[0], SortIndices(fits, s[1..]))
  }

  lemma {:induction false} SortIndicesPermutes(fits: seq<real>, s: seq<nat>)
    requires IndicesBelow(s, |fits|)
    ensures multiset(SortIndices(fits, s)) == multiset(s)
  {
    if |s| > 0 {
      assert s == [s[0]] + s[1..];
      SortIndicesPermutes(fits, s[1..]);
      InsertAddsIndex(fits, s[0], SortIndices(fits, s[1..]));
    }
  }

  /** The indices `lo, lo + 1, ..., hi - 1`. */
  function Range(lo: nat, hi: nat): (r: seq<nat>)
    requires lo <= hi
    ensures |r| == hi - lo
    ensures forall k :: 0 <= k < |r| ==> r[k] == lo + k
    decreases hi - lo
  {
    if lo == hi then [] else [lo] + Range(lo + 1, hi)
  }

  /** Candidate indices in the order the stable sort leaves them. */
  function Ranking(fits: seq<real>): (r: seq<nat>)
    ensures |r| == |fits| && IndicesBelow(r, |fits|)
  {
    SortIndices(fits, Range(0, |fits|))
  }

  lemma {:induction false} InsertRanked(fits: seq<real>, x: nat, s: seq<nat>)
    requires x < |fits| && IndicesBelow(s, |fits|) && RankedBy(fits, s) && x !in s
    ensures RankedBy(fits, Insert(fits, x, s))
  {
    if |s| == 0 || Before(fits, x, s[0]) {
      var r := Insert(fits, x, s);
      forall a, b | 0 <= a < b < |r| ensures Before(fits, r[a], r[b]) {
        if a > 0 {
          assert r[a] == s[a - 1] && r[b] == s[b - 1];
        } else if b > 1 {
          assert Before(fits, s[0], s[b - 1]);
        }
      }
    } else {
      var t := Insert(fits, x, s[1..]);
      assert RankedBy(fits, s[1..]) by {
        forall a, b | 0 <= a < b < |s[1..]| ensures Before(fits, s[1..][a], s[1..][b]) {
          assert s[1..][a] == s[a + 1] && s[1..][b] == s[b + 1];
        }
      }
      assert x !in s[1..];
      InsertRanked(fits, x, s[1..]);
      var r := [s[0]] + t;
      InsertAddsIndex(fits, x, s[1..]);
      forall b | 0 <= b < |t| ensures Before(fits, s[0], t[b]) {
        assert t[b] in multiset(t);
        if t[b] == x {
          assert x != s[0];
        } else {
          assert t[b] in multiset(s[1..]);
          var c :| 0 <= c < |s[1..]| && s[1..][c] == t[b];
          assert s[c + 1] == t[b];
        }
      }
      forall a, b | 0 <= a < b < |r| ensures Before(fits, r[a], r[b]) {
        if a > 0 {
          assert r[a] == t[a - 1] && r[b] == t[b - 1];
        } else {
          assert r[b] == t[b - 1];
        }
      }
    }
  }

  predicate Distinct(s: seq<nat>) {
    forall a, b :: 0 <= a < b < |s| ==> s[a] != s[b]
  }

  lemma {:induction false} SortRanked(fits: seq<real>, s: seq<nat>)
    requires IndicesBelow(s, |fits|) && Distinct(s)
    ensures RankedBy(fits, SortIndices(fits, s))
  {
    if s != [] {
      assert Distinct(s[1..]) by {
        forall a, b | 0 <= a < b < |s[1..]| ensures s[1..][a] != s[1..][b] {
          assert s[1..][a] == s[a + 1] && s[1..][b] == s[b + 1];
        }
      }
      SortRanked(fits, s[1..]);
      var t := SortIndices(fits, s[1..]);
      assert s[0] !in s[1..];
      SortIndicesPermutes(fits, s[1..]);
      assert s[0] !in multiset(t);
      InsertRanked(fits, s[0], t);
    }
  }

  /** The ranking is a stable ascending order of all candidates. */
  lemma RankingIsStableSort(fits: seq<real>)
    ensures RankedBy(fits, Ranking(fits))
    ensures forall a, b :: 0 <= a < b < |fits| ==> fits[Ranking(fits)[a]] <= fits[Ranking(fits)[b]]
    ensures forall c :: 0 <= c < |fits| ==> c in Ranking(fits)
    ensures Distinct(Ranking(fits))
  {
    var rg := Range(0, |fits|);
    var r := Ranking(fits);
    SortRanked(fits, rg);
    SortIndicesPermutes(fits, rg);
    forall c | 0 <= c < |fits| ensures c in r {
      assert rg[c] == c;
      assert c in multiset(rg);
    }
    forall a, b | 0 <= a < b < |r| ensures fits[r[a]] <= fits[r[b]] && r[a] != r[b] {
      assert Before(fits, r[a], r[b]);
    }
  }

  /** The position of candidate `c` in the ranking. */
  lemma RankOf(fits: seq<real>, c: nat) returns (j: nat)
    requires c < |fits|
    ensures j < |fits| && Ranking(fits)[j] == c
  {
    RankingIsStableSort(fits);
    var r := Ranking(fits);
    assert c in r;
    j :| 0 <= j < |r| && r[j] == c;
  }

  // ---------------------------------------------------------------------
  // Environmental selection

  /** The map after inserting the first `m` ranked candidates, in ranked
      order, each under its own fitness. */
  function Inserted(population: seq<Individual>, ranking: seq<nat>, m: nat): map<real, Individual>
    requires m <= |ranking| && IndicesBelow(ranking, |population|)
  {
    if m == 0 then map[]
    else
      var c := population[ranking[m - 1]];
      Inserted(population, ranking, m - 1)[Fitness(c) := c]
  }

  /** The candidates `environmental_selection` takes, best first. */
  function Taken(ratio: real, population: seq<Individual>): (t: seq<nat>)
    requires 0.0 <= ratio <= 1.0
    ensures |t| == NumSelected(|population|, ratio) && IndicesBelow(t, |population|)
  {
    Ranking(Fitnesses(population))[..NumSelected(|population|, ratio)]
  }

  /** The map `environmental_selection` returns for a valid ratio. */
  function Survivors(ratio: real, population: seq<Individual>): map<real, Individual>
    requires 0.0 <= ratio <= 1.0
  {
    Inserted(population, Ranking(Fitnesses(population)), NumSelected(|population|, ratio))
  }

  method EnvironmentalSelection(ratio: real, population: seq<Individual>)
    returns (r: Outcome<map<real, Individual>>)
    ensures !(0.0 <= ratio <= 1.0) ==> r == Panic("Selection ratio must be between 0 and 1")
    ensures 0.0 <= ratio <= 1.0 ==> r == Ok(Survivors(ratio, population))
  {
    if !(0.0 <= ratio <= 1.0) {
      return Panic("Selection ratio must be between 0 and 1");
    }
    var fits := Fitnesses(population);
    var ranking := Ranking(fits);
    var numSelected := NumSelected(|population|, ratio);
    var selected := map[];
    for i := 0 to numSelected
      invariant selected == Inserted(population, ranking, i)
    {
      selected := selected[fits[ranking[i]] := population[ranking[i]]];
    }
    return Ok(selected);
  }

  lemma {:induction false} InsertedKeys(population: seq<Individual>, ranking: seq<nat>, m: nat)
    requires m <= |ranking| && IndicesBelow(ranking, |population|)
    ensures forall k :: k in Inserted(population, ranking, m) <==>
      exists i :: 0 <= i < m && Fitness(population[ranking[i]]) == k
    ensures |Inserted(population, ranking, m)| <= m
  {
    if m > 0 {
      InsertedKeys(population, ranking, m - 1);
    }
  }

  /** Among the first `m` ranked candidates, the one at rank `i` is the last
      with fitness `k`. */
  predicate LastWithFitness(population: seq<Individual>, ranking: seq<nat>, m: nat, i: nat, k: real)
    requires m <= |ranking| && IndicesBelow(ranking, |population|)
  {
    && i < m
    && Fitness(population[ranking[i]]) == k
    && forall j :: i < j < m ==> Fitness(population[ranking[j]]) != k
  }

  lemma {:induction false} InsertedValues(population: seq<Individual>, ranking: seq<nat>, m: nat)
    requires m <= |ranking| && IndicesBelow(ranking, |population|)
    ensures forall k :: k in Inserted(population, ranking, m) ==>
      exists i: nat :: LastWithFitness(population, ranking, m, i, k)
        && Inserted(population, ranking, m)[k] == population[ranking[i]]
  {
    if m > 0 {
      InsertedValues(population, ranking, m - 1);
      var s := Inserted(population, ranking, m);
      var last := Fitness(population[ranking[m - 1]]);
      forall k | k in s
        ensures exists i: nat :: LastWithFitness(population, ranking, m, i, k) && s[k] == population[ranking[i]]
      {
        if k != last {
          assert k in Inserted(population, ranking, m - 1);
          var i: nat :| LastWithFitness(population, ranking, m - 1, i, k)
            && Inserted(population, ranking, m - 1)[k] == population[ranking[i]];
          assert LastWithFitness(population, ranking, m, i, k);
        } else {
          assert LastWithFitness(population, ranking, m, m - 1, k);
        }
      }
    }
  }

  lemma {:induction false} InsertedDistinctSize(population: seq<Individual>, ranking: seq<nat>, m: nat)
    requires m <= |ranking| && IndicesBelow(ranking, |population|)
    requires forall i, j :: 0 <= i < j < m ==> Fitness(population[ranking[i]]) != Fitness(population[ranking[j]])
    ensures |Inserted(population, ranking, m)| == m
  {
    if m > 0 {
      InsertedDistinctSize(population, ranking, m - 1);
      InsertedKeys(population, ranking, m - 1);
      var k := Fitness(population[ranking[m - 1]]);
      assert k !in Inserted(population, ranking, m - 1);
    }
  }

  /** Keys, values and size of the selected map. */
  lemma SurvivorsContents(ratio: real, population: seq<Individual>)
    requires 0.0 <= ratio <= 1.0
    ensures var s := Survivors(ratio, population);
      var t := Taken(ratio, population);
      && s.Keys == (set i | 0 <= i < |t| :: Fitness(population[t[i]]))
      && (forall k :: k in s ==> Fitness(s[k]) == k && s[k] in population)
      && |s| <= NumSelected(|population|, ratio)
  {
    var ranking := Ranking(Fitnesses(population));
    var m := NumSelected(|population|, ratio);
    var t := Taken(ratio, population);
    InsertedKeys(population, ranking, m);
    InsertedValues(population, ranking, m);
    assert forall i :: 0 <= i < m ==> t[i] == ranking[i];
  }

  /** Fewer than `round(len * ratio)` survivors only when fitness values collide. */
  lemma SurvivorsCollide(ratio: real, population: seq<Individual>)
    requires 0.0 <= ratio <= 1.0
    requires |Survivors(ratio, population)| < NumSelected(|population|, ratio)
    ensures var t := Taken(ratio, population);
      exists i, j :: 0 <= i < j < |t| && Fitness(population[t[i]]) == Fitness(population[t[j]])
  {
    var ranking := Ranking(Fitnesses(population));
    var m := NumSelected(|population|, ratio);
    var t := Taken(ratio, population);
    assert forall i :: 0 <= i < m ==> t[i] == ranking[i];
    if forall i, j :: 0 <= i < j < m ==> Fitness(population[ranking[i]]) != Fitness(population[ranking[j]]) {
      InsertedDistinctSize(population, ranking, m);
      assert false;
    }
  }

  /** On a fitness tie the last tied candidate in sorted order is kept. */
  lemma SurvivorsLastTieWins(ratio: real, population: seq<Individual>)
    requires 0.0 <= ratio <= 1.0
    ensures var s := Survivors(ratio, population);
      var t := Taken(ratio, population);
      forall k :: k in s ==>
        exists i :: 0 <= i < |t| && s[k] == population[t[i]]
          && (forall j :: i < j < |t| ==> Fitness(population[t[j]]) != k)
  {
    var ranking := Ranking(Fitnesses(population));
    var m := NumSelected(|population|, ratio);
    var t := Taken(ratio, population);
    InsertedValues(population, ranking, m);
    assert forall i :: 0 <= i < m ==> t[i] == ranking[i];
  }

  lemma InsertedAtMostLater(population: seq<Individual>, fits: seq<real>, ranking: seq<nat>, m: nat, j: nat)
    requires fits == Fitnesses(population)
    requires m <= j < |ranking| && IndicesBelow(ranking, |population|)
    requires forall a, b :: 0 <= a < b < |ranking| ==> fits[ranking[a]] <= fits[ranking[b]]
    ensures forall k :: k in Inserted(population, ranking, m) ==> k <= fits[ranking[j]]
  {
    InsertedKeys(population, ranking, m);
    forall k | k in Inserted(population, ranking, m) ensures k <= fits[ranking[j]] {
      var i :| 0 <= i < m && Fitness(population[ranking[i]]) == k;
      assert fits[ranking[i]] <= fits[ranking[j]];
    }
  }

  /** Every survivor is at least as fit as every candidate left behind. */
  lemma SurvivorsAreBest(ratio: real, population: seq<Individual>)
    requires 0.0 <= ratio <= 1.0
    ensures var s := Survivors(ratio, population);
      var t := Taken(ratio, population);
      forall k, c :: k in s && 0 <= c < |population| && c !in t ==> k <= Fitness(population[c])
  {
    var fits := Fitnesses(population);
    var ranking := Ranking(fits);
    var m := NumSelected(|population|, ratio);
    var t := Taken(ratio, population);
    assert Survivors(ratio, population) == Inserted(population, ranking, m);
    RankingIsStableSort(fits);
    forall c | 0 <= c < |population| && c !in t
      ensures forall k :: k in Inserted(population, ranking, m) ==> k <= Fitness(population[c])
    {
      var j := RankOf(fits, c);
      assert m <= j;
      InsertedAtMostLater(population, fits, ranking, m, j);
    }
  }

  lemma ScenarioFitnesses(population: seq<Individual>)
    requires population == [[3.0, 4.0], [1.0, 1.0], [2.0, 2.0], [5.0, 5.0]]
    ensures Fitnesses(population) == [25.0, 2.0, 8.0, 50.0]
  {
    assert Fitness([3.0, 4.0]) == 25.0 by {
      assert [3.0, 4.0][1..] == [4.0] && [4.0][1..] == [];
    }
    assert Fitness([1.0, 1.0]) == 2.0 by {
      assert [1.0, 1.0][1..] == [1.0] && [1.0][1..] == [];
    }
    assert Fitness([2.0, 2.0]) == 8.0 by {
      assert [2.0, 2.0][1..] == [2.0] && [2.0][1..] == [];
    }
    assert Fitness([5.0, 5.0]) == 50.0 by {
      assert [5.0, 5.0][1..] == [5.0] && [5.0][1..] == [];
    }
  }

  lemma ScenarioSortTail(fits: seq<real>)
    requires fits == [25.0, 2.0, 8.0, 50.0]
    ensures SortIndices(fits, [1, 2, 3]) == [1, 2, 3]
  {
    assert [1, 2, 3][1..] == [2, 3];
    assert [2, 3][1..] == [3];
    assert [3][1..] == [];
    assert SortIndices(fits, [3]) == [3];
    assert SortIndices(fits, [2, 3]) == Insert(fits, 2, [3]) == [2, 3];
    assert SortIndices(fits, [1, 2, 3]) == Insert(fits, 1, [2, 3]) == [1, 2, 3];
  }

  lemma ScenarioInsertFirst(fits: seq<real>)
    requires fits == [25.0, 2.0, 8.0, 50.0]
    ensures Insert(fits, 0, [1, 2, 3]) == [1, 2, 0, 3]
  {
    assert [1, 2, 3][1..] == [2, 3];
    assert [2, 3][1..] == [3];
    assert Insert(fits, 0, [3]) == [0, 3];
    assert Insert(fits, 0, [2, 3]) == [2] + Insert(fits, 0, [3]) == [2, 0, 3];
    assert Insert(fits, 0, [1, 2, 3]) == [1] + Insert(fits, 0, [2, 3]) == [1, 2, 0, 3];
  }

  lemma RangeFour()
    ensures Range(0, 4) == [0, 1, 2, 3]
  {
    var r := Range(0, 4);
    assert r[0] == 0 && r[1] == 1 && r[2] == 2 && r[3] == 3;
  }

  lemma ScenarioRanking(fits: seq<real>)
    requires fits == [25.0, 2.0, 8.0, 50.0]
    ensures Ranking(fits) == [1, 2, 0, 3]
  {
    RangeFour();
    assert [0, 1, 2, 3][1..] == [1, 2, 3];
    ScenarioSortTail(fits);
    ScenarioInsertFirst(fits);
    assert SortIndices(fits, [0, 1, 2, 3]) == Insert(fits, 0, SortIndices(fits, [1, 2, 3]));
  }

  /** The scenario of selection.rs: fitnesses 25, 2, 8, 50 at ratio 0.5. */
  lemma SurvivorsScenario(population: seq<Individual>)
    requires population == [[3.0, 4.0], [1.0, 1.0], [2.0, 2.0], [5.0, 5.0]]
    ensures Survivors(0.5, population).Keys == {2.0, 8.0}
  {
    var fits := Fitnesses(population);
    ScenarioFitnesses(population);
    ScenarioRanking(fits);
    var ranking := Ranking(fits);
    assert NumSelected(4, 0.5) == 2 by {
      assert (2.0 + 0.5).Floor == 2;
    }
    assert Survivors(0.5, population) == Inserted(population, ranking, 2);
    var one := Inserted(population, ranking, 1);
    assert one == map[2.0 := population[1]] by {
      assert Inserted(population, ranking, 0) == map[];
      assert Fitness(population[1]) == fits[1] == 2.0;
    }
    assert Fitness(population[2]) == fits[2] == 8.0;
    assert Inserted(population, ranking, 2) == one[8.0 := population[2]];
  }
}
