/** Conversion between real and whole numbers. */
module Numbers {

  /** Conversion of a float to an integer: toward zero. */
  function Truncate(x: real): int {
    if x >= 0.0 then x.Floor else -((-x).Floor)
  }
}
