/** Double-precision values reduced to what the inversion inspects: whether a
    value is NaN, an infinity, or a finite number, and how the IEEE-754 `<`
    comparison treats each of them.  The arithmetic that produces these values
    (dB conversions, the closed-form rms height, the forward predictor) is not
    modelled; only the comparisons and masks the search applies to them are.
 */
module Floats {

  datatype Float = NaN | NegInf | PosInf | Finite(value: real)

  predicate IsInf(x: Float) {
    x.NegInf? || x.PosInf?
  }

  /** The IEEE-754 `<`: false whenever either side is NaN, and infinities
      compare below / above every finite number. */
  predicate Less(a: Float, b: Float) {
    match a
    case NaN => false
    case PosInf => false
    case NegInf => b.Finite? || b.PosInf?
    case Finite(x) => b.PosInf? || (b.Finite? && x < b.value)
  }

  /** The acceptance test of the correlation-length scan: the predicted
      incoherent power `tmp` lies below the observed `pn` and is not infinite.
      A NaN prediction, a NaN target and a -Inf prediction (zero linear power)
      are all rejected. */
  function Accepts(tmp: Float, pn: Float): (ok: bool)
    ensures ok <==> tmp.Finite? && (pn.PosInf? || (pn.Finite? && tmp.value < pn.value))
  {
    Less(tmp, pn) && !IsInf(tmp)
  }

  /** `sh[np.isnan(sh)] = 0`: every NaN entry becomes zero, every other entry
      (including infinities) is kept. */
  function MaskNaN(sh: seq<Float>): (masked: seq<Float>)
    ensures |masked| == |sh|
    ensures forall i :: 0 <= i < |sh| ==> !masked[i].NaN?
    ensures forall i :: 0 <= i < |sh| && !sh[i].NaN? ==> masked[i] == sh[i]
    ensures forall i :: 0 <= i < |sh| && sh[i].NaN? ==> masked[i] == Finite(0.0)
  {
    seq(|sh|, i requires 0 <= i < |sh| => if sh[i].NaN? then Finite(0.0) else sh[i])
  }

  /** The per-permittivity flag `sh[i] != 0` taken after masking: a
      permittivity sample is searched exactly when its raw rms height is
      neither NaN nor zero.  Without the mask a NaN would compare unequal to
      zero and be searched. */
  function Validity(rawSh: seq<Float>): (valid: seq<bool>)
    ensures |valid| == |rawSh|
    ensures forall i :: 0 <= i < |rawSh| ==> (valid[i] <==> !rawSh[i].NaN? && rawSh[i] != Finite(0.0))
  {
    var sh := MaskNaN(rawSh);
    seq(|sh|, i requires 0 <= i < |sh| => sh[i] != Finite(0.0))
  }
}
