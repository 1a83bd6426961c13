/** The integer widths and the saturating subtraction that several models share. */
module Arithmetic {
  const MAX_SAFE_INTEGER: int := 9_007_199_254_740_991
  const MAX_I64: int := 9_223_372_036_854_775_807

  /** `saturating_sub` on unsigned integers. */
  function SaturatingSub(a: nat, b: nat): (r: nat)
    ensures r == if a < b then 0 else a - b
  {
    if a < b then 0 else a - b
  }
}
