/**
 * The score formula shared by skill matching and job-description matching:
 * `(part / whole) * 100 if whole else 0`, over exact reals.
 */
module Percentage {

  /** `part` out of `whole` as a percentage; an empty `whole` scores 0. */
  function Percent(part: nat, whole: nat): (p: real)
    ensures whole == 0 ==> p == 0.0
    ensures whole > 0 ==> p * whole as real == part as real * 100.0
    ensures part <= whole ==> 0.0 <= p <= 100.0
    ensures p == 100.0 <==> whole > 0 && part == whole
    ensures p == 0.0 <==> whole == 0 || part == 0
  {
    if whole == 0 then 0.0 else (part as real / whole as real) * 100.0
  }
}
