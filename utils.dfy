/** The range clamp of acpilight/utils.py. */
module Utils {

  function Min(a: real, b: real): real { if b < a then b else a }

  function Max(a: real, b: real): real { if b > a then b else a }

  /** normalize(value, minimum_value, maximum_value) on reals (the percentages). */
  function Normalize(value: real, minimum: real, maximum: real): (r: real)
    ensures minimum <= maximum ==> minimum <= r <= maximum
    ensures minimum <= value <= maximum ==> r == value
    ensures value < minimum ==> r == minimum
    ensures minimum <= maximum < value ==> r == maximum
    ensures maximum < minimum ==> r == minimum
  {
    Max(Min(value, maximum), minimum)
  }

  /** The same clamp on integers (the raw brightness values): it agrees with
      the real clamp on every input. */
  function NormalizeInt(value: int, minimum: int, maximum: int): (r: int)
    ensures r as real == Normalize(value as real, minimum as real, maximum as real)
    ensures minimum <= maximum ==> minimum <= r <= maximum
    ensures minimum <= value <= maximum ==> r == value
    ensures maximum < minimum ==> r == minimum
  {
    var m := if maximum < value then maximum else value;
    if minimum > m then minimum else m
  }

  /** Clamping twice is clamping once. */
  lemma NormalizeIdempotent(value: real, minimum: real, maximum: real)
    ensures Normalize(Normalize(value, minimum, maximum), minimum, maximum)
         == Normalize(value, minimum, maximum)
  {
  }

  /** The clamp never reorders two values. */
  lemma NormalizeMonotone(v1: real, v2: real, minimum: real, maximum: real)
    requires v1 <= v2
    ensures Normalize(v1, minimum, maximum) <= Normalize(v2, minimum, maximum)
  {
  }

  /** The example of the docstring: normalize(-5, 0, 100) == 0. */
  lemma NormalizeExample()
    ensures NormalizeInt(-5, 0, 100) == 0
  {
  }
}
