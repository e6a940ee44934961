/** Normalised satisfaction of an objective value, after
    `data_analysis/src/ML/satisfaccion.rs`: the squared distance of `vo` from
    the worse end of `[vmin, vmax]`, relative to the width of the interval,
    for a minimised or a maximised objective.
 */
module Satisfaction {
  import opened Outcomes

  const MinimiseMode: string := "minimizacion"
  const MaximiseMode: string := "maximizacion"

  function Square(x: real): real {
    x * x
  }

  /** `calcular_satisfaccion`: rejects an empty or inverted interval before
      looking at the mode, then rejects any mode but the two known ones. */
  function CalculateSatisfaction(vo: real, vmin: real, vmax: real, mode: string): (r: Outcome<real>)
    ensures vmax <= vmin ==> r == Err("Valor maximo no puede ser menor al minimo")
    ensures vmax > vmin && mode != MinimiseMode && mode != MaximiseMode ==>
      r == Err("Modo debe ser minimizacion o maximizacion")
    ensures r.Ok? <==> vmax > vmin && (mode == MinimiseMode || mode == MaximiseMode)
    ensures r.Ok? ==> r.value >= 0.0
    ensures !r.Panic?
  {
    if vmax <= vmin then Err("Valor maximo no puede ser menor al minimo")
    else if mode == MinimiseMode then Ok(Square((vmax - vo) / (vmax - vmin)))
    else if mode == MaximiseMode then Ok(Square((vo - vmin) / (vmax - vmin)))
    else Err("Modo debe ser minimizacion o maximizacion")
  }

  lemma SquareBetweenZeroAndOne(x: real)
    requires 0.0 <= x <= 1.0
    ensures 0.0 <= Square(x) <= 1.0
  {
    assert x * x <= x * 1.0;
  }

  lemma RatioBetweenZeroAndOne(a: real, b: real)
    requires 0.0 <= a <= b && b > 0.0
    ensures 0.0 <= a / b <= 1.0
  {
    assert a / b * b == a;
  }

  /** For an objective inside the interval, satisfaction lies in `[0, 1]`. */
  lemma SatisfactionInUnitRange(vo: real, vmin: real, vmax: real, mode: string)
    requires vmin <= vo <= vmax && vmin < vmax
    requires mode == MinimiseMode || mode == MaximiseMode
    ensures var r := CalculateSatisfaction(vo, vmin, vmax, mode);
      r.Ok? && 0.0 <= r.value <= 1.0
  {
    if mode == MinimiseMode {
      RatioBetweenZeroAndOne(vmax - vo, vmax - vmin);
      SquareBetweenZeroAndOne((vmax - vo) / (vmax - vmin));
    } else {
      RatioBetweenZeroAndOne(vo - vmin, vmax - vmin);
      SquareBetweenZeroAndOne((vo - vmin) / (vmax - vmin));
    }
  }

  /** Minimisation is fully satisfied at `vmin` and not at all at `vmax`;
      maximisation the other way round. */
  lemma SatisfactionEndpoints(vmin: real, vmax: real)
    requires vmin < vmax
    ensures CalculateSatisfaction(vmin, vmin, vmax, MinimiseMode) == Ok(1.0)
    ensures CalculateSatisfaction(vmax, vmin, vmax, MinimiseMode) == Ok(0.0)
    ensures CalculateSatisfaction(vmin, vmin, vmax, MaximiseMode) == Ok(0.0)
    ensures CalculateSatisfaction(vmax, vmin, vmax, MaximiseMode) == Ok(1.0)
  {
    var w := vmax - vmin;
    assert w / w == 1.0;
    assert 0.0 / w == 0.0;
    assert Square(1.0) == 1.0 && Square(0.0) == 0.0;
    assert CalculateSatisfaction(vmin, vmin, vmax, MinimiseMode) == Ok(Square(w / w));
    assert CalculateSatisfaction(vmax, vmin, vmax, MinimiseMode) == Ok(Square(0.0 / w));
    assert CalculateSatisfaction(vmin, vmin, vmax, MaximiseMode) == Ok(Square(0.0 / w));
    assert CalculateSatisfaction(vmax, vmin, vmax, MaximiseMode) == Ok(Square(w / w));
  }

  /** The two modes mirror each other: minimising `vo` is maximising the
      value reflected about the middle of the interval. */
  lemma ModesMirror(vo: real, vmin: real, vmax: real)
    requires vmin < vmax
    ensures CalculateSatisfaction(vo, vmin, vmax, MinimiseMode)
         == CalculateSatisfaction(vmin + vmax - vo, vmin, vmax, MaximiseMode)
  {
  }

  /** Within the interval, satisfaction never improves as `vo` grows under
      minimisation, and never worsens under maximisation. */
  lemma SatisfactionMonotone(a: real, b: real, vmin: real, vmax: real)
    requires vmin <= a <= b <= vmax && vmin < vmax
    ensures CalculateSatisfaction(a, vmin, vmax, MinimiseMode).value
         >= CalculateSatisfaction(b, vmin, vmax, MinimiseMode).value
    ensures CalculateSatisfaction(a, vmin, vmax, MaximiseMode).value
         <= CalculateSatisfaction(b, vmin, vmax, MaximiseMode).value
  {
    var w := vmax - vmin;
    DivideMonotone(vmax - b, vmax - a, w);
    DivideMonotone(a - vmin, b - vmin, w);
    SquareMonotone((vmax - b) / w, (vmax - a) / w);
    SquareMonotone((a - vmin) / w, (b - vmin) / w);
  }

  lemma DivideMonotone(x: real, y: real, w: real)
    requires 0.0 <= x <= y && w > 0.0
    ensures 0.0 <= x / w <= y / w
  {
    assert y / w - x / w == (y - x) / w;
  }

  lemma SquareMonotone(x: real, y: real)
    requires 0.0 <= x <= y
    ensures Square(x) <= Square(y)
  {
    assert x * x <= x * y;
    assert x * y <= y * y;
  }
}
