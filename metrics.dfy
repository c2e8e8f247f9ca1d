/** The derived `% Change` column (`calc_percent_change`). */
module Metrics {
  import opened Wrappers

  /** The relative change from the value at debut to the current market value, in percent.
      Undefined (never zero, never infinite) when either value is missing or the value at
      debut is zero. */
  function PercentChange(debut: Option<real>, current: Option<real>): (r: Option<real>)
    ensures r.None? <==> debut.None? || current.None? || debut.value == 0.0
    ensures r.Some? ==> r.value * debut.value == (current.value - debut.value) * 100.0
  {
    if debut.None? || current.None? || debut.value == 0.0 then None
    else Some((current.value - debut.value) / debut.value * 100.0)
  }

  /** Applying a defined change to the value at debut gives back the current value. */
  lemma PercentChangeRecoversCurrent(debut: Option<real>, current: Option<real>)
    requires PercentChange(debut, current).Some?
    ensures debut.Some? && current.Some?
    ensures debut.value + debut.value * PercentChange(debut, current).value / 100.0 == current.value
  {
    var d, c, p := debut.value, current.value, PercentChange(debut, current).value;
    assert p * d == (c - d) * 100.0;
    calc {
      d + d * p / 100.0;
      d + (p * d) / 100.0;
      d + (c - d) * 100.0 / 100.0;
      c;
    }
  }

  /** For a positive value at debut the sign of the change is the direction of the move. */
  lemma PercentChangeSign(d: real, c: real)
    requires d > 0.0
    ensures PercentChange(Some(d), Some(c)).Some?
    ensures PercentChange(Some(d), Some(c)).value > 0.0 <==> c > d
    ensures PercentChange(Some(d), Some(c)).value < 0.0 <==> c < d
    ensures PercentChange(Some(d), Some(c)).value == 0.0 <==> c == d
  {
    var p := PercentChange(Some(d), Some(c)).value;
    assert p * d == (c - d) * 100.0;
    if p > 0.0 {
      assert p * d > 0.0;
    } else if p < 0.0 {
      assert p * d < 0.0;
    } else {
      assert p * d == 0.0;
    }
  }
}
