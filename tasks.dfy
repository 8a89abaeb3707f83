/**
 * The two task computations of the getting-started pipeline: `double`
 * writes the `intermediate` data node from `input`, and `add` writes
 * `output` from `intermediate`. Values are Python integers, so `int`.
 */
module Tasks {

  /** Amount that task `add` adds to its input. */
  const Increment := 10

  /** Task `double`: the intermediate value is twice the input, so it is even
      and halving it gives the input back. */
  function Double(nb: int): (r: int)
    ensures r % 2 == 0 && r / 2 == nb
  {
    nb * 2
  }

  /** Task `add`: the output exceeds its input by exactly `Increment`; the
      message it prints and the time it sleeps have no bearing on the value. */
  function Add(nb: int): (r: int)
    ensures r - Increment == nb
  {
    nb + Increment
  }

  /** The pipeline `my_pipeline` runs `double` and then `add` on its result. */
  function Pipeline(x: int): (r: int)
    ensures r == 2 * x + Increment
    ensures (r - Increment) / 2 == x
  {
    Add(Double(x))
  }
}
