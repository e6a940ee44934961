/** The differencing transforms and the guards of the ARIMA model, after
    `data_analysis/src/ML/arima.rs`.

    `difference` applies the first-difference operator `d` times;
    `undifference` turns forecasts of the differenced series back into the
    original scale by running sums.  The least-squares fit and the forecast
    recursion are numeric code over a linear-algebra library and are not
    part of this model: `Fit` receives the outcome of each of its five
    linear solves as an input, and `Forecast` the outcome of the numeric
    part behind its guard.
 */
module Arima {
  import opened Outcomes

  /** One first difference: `s[i + 1] - s[i]` for each adjacent pair. */
  function Diff(s: seq<real>): (r: seq<real>)
    requires |s| >= 1
    ensures |r| == |s| - 1
  {
    seq(|s| - 1, i requires 0 <= i < |s| - 1 => s[i + 1] - s[i])
  }

  /** `d` first differences, the newest applied last. */
  function Differenced(s: seq<real>, d: nat): (r: seq<real>)
    requires |s| >= d
    ensures |r| == |s| - d
  {
    if d == 0 then s else Diff(Differenced(s, d - 1))
  }

  /** Running sums of `p` started from `start`: entry `i` is `start` plus
      `p[0] + ... + p[i]`. */
  function RunningSums(p: seq<real>, start: real): (r: seq<real>)
    ensures |r| == |p|
  {
    if |p| == 0 then [] else [start + p[0]] + RunningSums(p[1..], start + p[0])
  }

  function Last(s: seq<real>): real
    requires |s| > 0
  {
    s[|s| - 1]
  }

  /** What `undifference` computes: `d` rounds of running sums, every round
      started from the same last original value. */
  function Undifferenced(p: seq<real>, last: real, d: nat): (r: seq<real>)
    ensures |r| == |p|
  {
    if d == 0 then p else RunningSums(Undifferenced(p, last, d - 1), last)
  }

  /** Each running sum is the previous one (or the start) plus the next
      value. */
  lemma {:induction false} RunningSumsStep(p: seq<real>, start: real, i: nat)
    requires i < |p|
    ensures RunningSums(p, start)[i] == (if i == 0 then start else RunningSums(p, start)[i - 1]) + p[i]
  {
    if i > 0 {
      RunningSumsStep(p[1..], start + p[0], i - 1);
    }
  }

  /** Differencing undoes running sums once the start is put in front. */
  lemma {:induction false} DiffUndoesRunningSums(p: seq<real>, start: real)
    ensures Diff([start] + RunningSums(p, start)) == p
  {
    var s := [start] + RunningSums(p, start);
    forall i | 0 <= i < |p|
      ensures Diff(s)[i] == p[i]
    {
      RunningSumsStep(p, start, i);
    }
  }

  /** With `d = 1`, putting the last original value in front of the
      undifferenced forecasts and differencing gives the forecasts back. */
  lemma UndifferenceOnceInverts(p: seq<real>, orig: seq<real>)
    requires |orig| > 0
    ensures Diff([Last(orig)] + Undifferenced(p, Last(orig), 1)) == p
  {
    DiffUndoesRunningSums(p, Last(orig));
  }

  // ---------------------------------------------------------------------
  // Undifferencing for d >= 2

  /** Integration that does invert differencing: the running sums of each
      level start from the last value of the original series differenced to
      that level. */
  function Integrated(p: seq<real>, orig: seq<real>, d: nat): (r: seq<real>)
    requires |orig| >= d
    ensures |r| == |p|
    decreases d
  {
    if d == 0 then p else RunningSums(Integrated(p, Diff(orig), d - 1), Last(orig))
  }

  /** Differencing can also be taken with the newest difference first. */
  lemma {:induction false} DifferencedFront(s: seq<real>, d: nat)
    requires |s| >= d && d > 0
    ensures Differenced(s, d) == Differenced(Diff(s), d - 1)
    decreases d
  {
    if d > 1 {
      DifferencedFront(s, d - 1);
    }
  }

  /** Differencing a concatenation: the differences of each part, plus the
      step from the last value of the first part into the second. */
  lemma DiffConcat(a: seq<real>, b: seq<real>)
    requires |a| > 0
    ensures Diff(a + b) == Diff(a) + Diff([Last(a)] + b)
  {
    var l, r := Diff(a + b), Diff(a) + Diff([Last(a)] + b);
    forall i | 0 <= i < |l|
      ensures l[i] == r[i]
    {
      if i >= |a| - 1 {
        assert ([Last(a)] + b)[i - (|a| - 1)] == (a + b)[i];
        assert ([Last(a)] + b)[i - (|a| - 1) + 1] == (a + b)[i + 1];
      }
    }
  }

  /** `Integrated` extends a series so that the extension's `d`-th
      differences are exactly `p`. */
  lemma {:induction false} IntegratedInverts(p: seq<real>, orig: seq<real>, d: nat)
    requires |orig| >= d
    ensures Differenced(orig + Integrated(p, orig, d), d) == Differenced(orig, d) + p
    decreases d
  {
    if d > 0 {
      var y := Integrated(p, Diff(orig), d - 1);
      var x := Integrated(p, orig, d);
      assert x == RunningSums(y, Last(orig));
      DiffConcat(orig, x);
      DiffUndoesRunningSums(y, Last(orig));
      assert Diff(orig + x) == Diff(orig) + y;
      IntegratedInverts(p, Diff(orig), d - 1);
      DifferencedFront(orig + x, d);
      DifferencedFront(orig, d);
    }
  }

  /** For `d <= 1` what `undifference` computes is the inverse. */
  lemma UndifferencedAgreesUpToOne(p: seq<real>, orig: seq<real>, d: nat)
    requires d <= 1 && |orig| >= 1
    ensures Undifferenced(p, Last(orig), d) == Integrated(p, orig, d)
  {
  }

  /** For `d = 2`, `orig = [1, 2]` and a forecast second difference of 0,
      the series continues with first difference 1, i.e. with 3, but
      `undifference` yields 4. */
  lemma UndifferencedTwiceExample()
    ensures Integrated([0.0], [1.0, 2.0], 2) == [3.0]
    ensures Undifferenced([0.0], Last([1.0, 2.0]), 2) == [4.0]
    ensures Differenced([1.0, 2.0] + [4.0], 2) != Differenced([1.0, 2.0], 2) + [0.0]
  {
    assert Diff([1.0, 2.0]) == [1.0];
    assert Differenced([1.0, 2.0], 2) == Diff([1.0]) == [];
    assert [1.0, 2.0] + [4.0] == [1.0, 2.0, 4.0];
    assert Diff([1.0, 2.0, 4.0]) == [1.0, 2.0];
    assert Differenced([1.0, 2.0, 4.0], 2) == Diff([1.0, 2.0]);
    assert Diff([1.0, 2.0])[0] != ([] + [0.0])[0];
  }

  // ---------------------------------------------------------------------
  // The model

  /** Index of the first failed solve, or `|solves|` when none failed. */
  function FirstFailure(solves: seq<Option<seq<real>>>): (i: nat)
    ensures i <= |solves|
    ensures forall j :: 0 <= j < i ==> solves[j].Some?
    ensures i < |solves| ==> solves[i].None?
  {
    if |solves| == 0 || solves[0].None? then 0 else 1 + FirstFailure(solves[1..])
  }

  function Max(a: nat, b: nat): nat {
    if a >= b then a else b
  }

  /** The message of an unsigned subtraction that goes below zero. */
  const LagUnderflow: string := "attempt to subtract with overflow"

  class Arima {
    const p: nat
    const d: nat
    const q: nat
    var arParams: Option<seq<real>>
    var maParams: Option<seq<real>>
    var intercept: Option<real>

    /** `is_fitted`. */
    predicate IsFitted()
      reads this
    {
      arParams.Some? && maParams.Some? && intercept.Some?
    }

    /** The fields after a solve with coefficient vector `c`: the
        intercept first, then the AR and the MA coefficients. */
    predicate HoldsCoefficients(c: seq<real>)
      reads this
      requires |c| == p + q + 1
    {
      && intercept == Some(c[0])
      && arParams == Some(c[1..p + 1])
      && maParams == Some(c[p + 1..])
    }

    /** `new`: the given orders, no parameters yet. */
    constructor (p: nat, d: nat, q: nat)
      ensures this.p == p && this.d == d && this.q == q
      ensures arParams == None && maParams == None && intercept == None
      ensures !IsFitted()
    {
      this.p := p;
      this.d := d;
      this.q := q;
      arParams := None;
      maParams := None;
      intercept := None;
    }

    /** `difference`: `d` first differences; a series shorter than `d` runs
        out and the length computation `n - 1` underflows. */
    method Difference(series: seq<real>) returns (r: Outcome<seq<real>>)
      ensures |series| >= d ==> r == Ok(Differenced(series, d))
      ensures |series| < d ==> r == Panic("attempt to subtract with overflow")
    {
      var result := series;
      for k := 0 to d
        invariant k <= |series| && result == Differenced(series, k)
      {
        var n := |result|;
        if n == 0 {
          return Panic("attempt to subtract with overflow");
        }
        var temp := seq(n - 1, _ => 0.0);
        for i := 0 to n - 1
          invariant |temp| == n - 1
          invariant forall j :: 0 <= j < i ==> temp[j] == result[j + 1] - result[j]
        {
          temp := temp[i := result[i + 1] - result[i]];
        }
        assert temp == Diff(result);
        result := temp;
      }
      return Ok(result);
    }

    /** `undifference`: `d` rounds of running sums, each from the last
        original value; with `d > 0` an empty original series underflows
        `len() - 1`. */
    method Undifference(diffPreds: seq<real>, orig: seq<real>) returns (r: Outcome<seq<real>>)
      ensures d == 0 ==> r == Ok(diffPreds)
      ensures d > 0 && |orig| == 0 ==> r == Panic("attempt to subtract with overflow")
      ensures d > 0 && |orig| > 0 ==> r == Ok(Undifferenced(diffPreds, Last(orig), d))
    {
      var result := diffPreds;
      for k := 0 to d
        invariant k > 0 ==> |orig| > 0
        invariant |orig| > 0 ==> result == Undifferenced(diffPreds, Last(orig), k)
        invariant |orig| == 0 ==> result == diffPreds
      {
        var n := |result|;
        if |orig| == 0 {
          return Panic("attempt to subtract with overflow");
        }
        var lastOrigIdx := |orig| - 1;
        var temp := seq(n + 1, _ => 0.0);
        temp := temp[0 := orig[lastOrigIdx]];
        for i := 0 to n
          invariant |temp| == n + 1 && temp[0] == Last(orig)
          invariant forall j :: 1 <= j <= i ==> temp[j] == RunningSums(result, Last(orig))[j - 1]
        {
          RunningSumsStep(result, Last(orig), i);
          temp := temp[i + 1 := temp[i] + result[i]];
        }
        result := temp[1..];
        assert result == RunningSums(Undifferenced(diffPreds, Last(orig), k), Last(orig));
      }
      return Ok(result);
    }

    /** `fit`: too short a series is rejected without touching the model.
        With more MA than AR terms, the first MA lag index of the first
        round goes below zero and the fit panics, again before anything is
        stored. Otherwise each of the five rounds takes the outcome of its linear
        solve from `solves`; a failed solve ends the fit with an error,
        keeping the parameters of the previous round, and a successful one
        stores its coefficients. */
    method Fit(data: seq<real>, solves: seq<Option<seq<real>>>) returns (r: Outcome<()>)
      modifies this
      requires |solves| == 5
      requires forall i :: 0 <= i < 5 && solves[i].Some? ==> |solves[i].value| == p + q + 1
      ensures |data| <= p + d + q ==>
        r == Err("Not enough data points to fit the model") && unchanged(this)
      ensures |data| > p + d + q && q > p ==> r == Panic(LagUnderflow) && unchanged(this)
      ensures r.Panic? <==> |data| > p + d + q && q > p
      ensures |data| > p + d + q && q <= p ==> (r.Ok? <==> FirstFailure(solves) == 5)
      ensures |data| > p + d + q && q <= p && FirstFailure(solves) < 5 ==>
        r == Err("Failed to solve linear system")
      ensures |data| > p + d + q && q <= p && FirstFailure(solves) == 0 ==> unchanged(this)
      ensures |data| > p + d + q && q <= p && FirstFailure(solves) > 0 ==>
        IsFitted() && HoldsCoefficients(solves[FirstFailure(solves) - 1].value)
    {
      if |data| <= p + d + q {
        return Err("Not enough data points to fit the model");
      }
      var diffData := Difference(data);
      assert diffData.Ok?;
      var n := |diffData.value|;
      var effectiveN := n - Max(p, q);
      // The lag check of the source cannot fail once the length check passed.
      assert effectiveN > 0;
      // The first MA lag of row 0, `0 + p - p - 1`, goes below zero in the
      // first round, before any parameter is stored.
      if q > p {
        return Panic(LagUnderflow);
      }
      for round := 0 to 5
        invariant round <= FirstFailure(solves)
        invariant round == 0 ==> unchanged(this)
        invariant round > 0 ==> IsFitted() && HoldsCoefficients(solves[round - 1].value)
      {
        if solves[round].None? {
          return Err("Failed to solve linear system");
        }
        var coefficients := solves[round].value;
        intercept := Some(coefficients[0]);
        if p > 0 {
          arParams := Some(coefficients[1..p + 1]);
        } else {
          assert coefficients[1..p + 1] == [];
          arParams := Some([]);
        }
        if q > 0 {
          maParams := Some(coefficients[p + 1..]);
        } else {
          assert coefficients[p + 1..] == [];
          maParams := Some([]);
        }
      }
      return Ok(());
    }

    /** `forecast`: an unfitted model is rejected; a fitted one yields what
        the forecast recursion (not modelled) produces. */
    method Forecast(data: seq<real>, steps: nat, computed: Outcome<seq<real>>) returns (r: Outcome<seq<real>>)
      ensures !IsFitted() ==> r == Err("Model must be fitted before forecasting")
      ensures IsFitted() ==> r == computed
    {
      if !IsFitted() {
        return Err("Model must be fitted before forecasting");
      }
      return computed;
    }
  }
}
