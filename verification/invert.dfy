/** The inverse solver `power2srf_norminc` at the level of its outputs: the
    permittivity grid `ep` passed through as given, the NaN-masked rms heights `sh`,
    and per permittivity the selected correlation length (or NaN).

    The closed-form rms heights, the grids themselves and the forward
    predictor are inputs: `rawSh` is the rms height before masking, `cl` the
    correlation-length grid (which may hold an overflowed or NaN value), and
    `predict(i, j)` the predicted incoherent power (dB) at permittivity index
    `i` and correlation-length index `j`.
 */
module Invert {
  import opened Floats
  import GridSearch

  datatype Estimate = Estimate(ep: seq<Float>, sh: seq<Float>, cl: seq<Float>)

  /** The correlation-length grid holds finite values in non-decreasing
      order, as `10**linspace(lo, hi, n)` does when `lo <= hi` and nothing
      overflows. */
  predicate FiniteNonDecreasing(cl: seq<Float>) {
    && (forall a :: 0 <= a < |cl| ==> cl[a].Finite?)
    && (forall a, b :: 0 <= a < b < |cl| ==> cl[a].value <= cl[b].value)
  }

  /** The acceptance oracle of the search: grid point `(i, j)` is accepted when
      its predicted incoherent power is finite and below the observed one. */
  function Acceptance(predict: (nat, nat) -> Float, pn: Float): GridSearch.Oracle {
    (i: nat, j: nat) => Accepts(predict(i, j), pn)
  }

  /** `power2srf_norminc` from the masking of the rms heights onward: mask,
      search, and turn each selected index into its correlation length. */
  method Power2Srf(ep: seq<Float>, rawSh: seq<Float>, cl: seq<Float>,
                   predict: (nat, nat) -> Float, pn: Float, n: nat)
    returns (est: Estimate)
    requires |ep| == n && |rawSh| == n && |cl| == n
    ensures est.ep == ep && |est.sh| == n && |est.cl| == n
    ensures forall i :: 0 <= i < n ==> !est.sh[i].NaN?
    ensures forall i :: 0 <= i < n && !rawSh[i].NaN? ==> est.sh[i] == rawSh[i]
    ensures forall i :: 0 <= i < n && rawSh[i].NaN? ==> est.sh[i] == Finite(0.0)
    ensures forall i :: 0 <= i < n && est.sh[i] == Finite(0.0) ==> est.cl[i].NaN?
    ensures forall i :: 0 <= i < n && !est.cl[i].NaN? ==>
              exists j :: 0 <= j < n && est.cl[i] == cl[j] && Accepts(predict(i, j), pn)
    ensures forall i :: 0 <= i < n ==>
              match GridSearch.Run(Validity(rawSh), Acceptance(predict, pn), n).sel[i]
              case None => est.cl[i].NaN?
              case Some(j) => j < |cl| && est.cl[i] == cl[j]
    ensures FiniteNonDecreasing(cl) ==>
              forall i1, i2 :: (0 <= i1 < i2 < n && !est.cl[i1].NaN? && !est.cl[i2].NaN?) ==>
                est.cl[i2].value <= est.cl[i1].value
  {
    var sh := MaskNaN(rawSh);
    var valid := Validity(rawSh);
    var accept := Acceptance(predict, pn);
    var sel, probes, jn, clamped := GridSearch.SearchGrid(valid, accept, n);
    var clOut := seq(n, i requires 0 <= i < n =>
      if sel[i].Some? then cl[sel[i].value] else NaN);
    est := Estimate(ep, sh, clOut);
    forall i | 0 <= i < n && !clOut[i].NaN?
      ensures exists j :: 0 <= j < n && clOut[i] == cl[j] && Accepts(predict(i, j), pn)
    {
      var j := sel[i].value;
      assert accept(i, j);
    }
    if FiniteNonDecreasing(cl) {
      forall i1, i2 | 0 <= i1 < i2 < n && !clOut[i1].NaN? && !clOut[i2].NaN?
        ensures clOut[i2].value <= clOut[i1].value
      {
        var j1, j2 := sel[i1].value, sel[i2].value;
        assert j2 <= j1;
        assert j2 < j1 ==> cl[j2].value <= cl[j1].value;
      }
    }
  }
}
