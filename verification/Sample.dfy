/** Names that the concrete examples share. */
module Samples {
  import opened Tables

  const NAME: Name := [116]
  const COL_P: Name := [112]
  const COL_A: Name := [97]
  const COL_B: Name := [98]
  const COL_C: Name := [99]
}
