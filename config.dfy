/**
 * The two command-line values the watch loop depends on, and how Watch.py
 * replaces an out-of-range value by its default before the loop starts.
 */
module Config {

  const DefaultDepth := 5
  const MaxDepth := 10
  const DefaultFrequency := 15
  const MinFrequency := 1
  const MaxFrequency := 3600

  /** The walk depth: kept when in 0..10, otherwise the default 5. */
  function ClampDepth(depth: int): (r: int)
    ensures 0 <= r <= MaxDepth
    ensures 0 <= depth <= MaxDepth ==> r == depth
    ensures !(0 <= depth <= MaxDepth) ==> r == DefaultDepth
  {
    // membership in Python's range(0, 11)
    if 0 <= depth < MaxDepth + 1 then depth else DefaultDepth
  }

  /** The refresh period in seconds: kept when in 1..3600, otherwise the default 15. */
  function ClampFrequency(frequency: int): (r: int)
    ensures MinFrequency <= r <= MaxFrequency
    ensures MinFrequency <= frequency <= MaxFrequency ==> r == frequency
    ensures !(MinFrequency <= frequency <= MaxFrequency) ==> r == DefaultFrequency
  {
    // membership in Python's range(1, 3601)
    if MinFrequency <= frequency < MaxFrequency + 1 then frequency else DefaultFrequency
  }
}
