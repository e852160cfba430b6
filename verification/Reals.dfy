/** Whole numbers of reals, as the C language takes them. */
module Reals {

  /** Rounds toward zero, as a conversion to a whole number does. */
  function Trunc(x: real): (n: int)
    ensures x >= 0.0 ==> n as real <= x < n as real + 1.0
    ensures x <= 0.0 ==> n as real - 1.0 < x <= n as real
  {
    if x >= 0.0 then x.Floor else -((-x).Floor)
  }
}
