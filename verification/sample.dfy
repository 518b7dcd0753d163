/**
 The sample size of one analysis pass: the `sample` query parameter, parsed
 as an integer, kept when it lies in [1, 500] and replaced by 50 otherwise.
 */
module Sample {
  import opened Wrappers

  const MinSampleSize: int := 1
  const MaxSampleSize: int := 500
  const DefaultSampleSize: int := 50

  /**
   Resolves the parsed parameter. `parsed` is `None` when parsing produced
   `NaN` (missing or non-numeric parameter).
   */
  function ResolveSampleSize(parsed: Option<int>): (size: int)
    ensures MinSampleSize <= size <= MaxSampleSize
    ensures parsed.Some? && MinSampleSize <= parsed.value <= MaxSampleSize ==> size == parsed.value
    ensures parsed.None? || parsed.value < MinSampleSize || parsed.value > MaxSampleSize ==> size == DefaultSampleSize
  {
    if parsed.None? || parsed.value < MinSampleSize || parsed.value > MaxSampleSize then
      DefaultSampleSize
    else
      parsed.value
  }
}
