/** Python's `math.ceil` and `math.floor`, on exact reals (floating-point rounding is not modelled). */
module PyMath {

  /** `math.floor(x)`: the greatest integer not above x. */
  function Floor(x: real): (n: int)
    ensures n as real <= x < n as real + 1.0
  {
    x.Floor
  }

  /** `math.ceil(x)`: the least integer not below x. */
  function Ceil(x: real): (n: int)
    ensures n as real - 1.0 < x <= n as real
  {
    -((-x).Floor)
  }
}
