/** The client's configured resource limits. */
module Limits {
  import opened Text

  datatype ResponseLimits = ResponseLimits(
    maxHead: usize,
    maxBody: usize,
    maxChunkLine: usize,
    maxTrailer: usize)

  /** `current + addition > limit`, asked without forming the sum. */
  predicate WouldExceed(current: nat, addition: nat, limit: usize)
    ensures WouldExceed(current, addition, limit) <==> current + addition > limit
  {
    current > limit || addition > limit - current
  }
}
