/** Shared vocabulary of the model: real vectors, the errors the program can
    raise inside the modelled core, and small arithmetic helpers. */
module Tensors {

  /** One row of a tensor along its last axis (a frame, a one-hot character,
      a hidden vector). Floating point is modelled by reals. */
  type Vec = seq<real>

  /** The failures the modelled core can raise. */
  datatype Error =
    | OddTimeSteps     // a Reshape that pairs adjacent time steps met an odd count
    | BatchSizeNotOne  // the batch-size-1 assertion of the greedy decoder failed

  datatype Result<T> = Ok(value: T) | Err(error: Error)

  /** 2 ** n */
  function Pow2(n: nat): (p: nat)
    ensures p >= 1
  {
    if n == 0 then 1 else 2 * Pow2(n - 1)
  }

  /** tf.zeros((n,)) */
  function Zeros(n: nat): (v: Vec)
    ensures |v| == n
  {
    seq(n, _ => 0.0)
  }

  /** 1.0 for true, 0.0 for false: tf.cast(b, tf.float32). */
  function Indicator(b: bool): real
  {
    if b then 1.0 else 0.0
  }

  /** tf.reduce_sum over one row. */
  function Sum(v: Vec): real
  {
    if v == [] then 0.0 else Sum(v[..|v| - 1]) + v[|v| - 1]
  }

  /** The row-major contents of a matrix, which every Reshape keeps. */
  function Flatten(rows: seq<Vec>): Vec
  {
    if rows == [] then [] else rows[0] + Flatten(rows[1..])
  }

  /** Number of true entries. */
  function CountTrue(m: seq<bool>): (n: nat)
    ensures n <= |m|
  {
    if m == [] then 0 else CountTrue(m[..|m| - 1]) + (if m[|m| - 1] then 1 else 0)
  }

  // Arithmetic facts the solver does not find unaided.

  lemma MulLe(a: int, b: int, p: nat)
    requires a <= b
    ensures a * p <= b * p
  {
  }

  /** Division with remainder is unique. */
  lemma DivModUnique(n: int, p: int, q: int, r: int)
    requires p >= 1 && 0 <= r < p && n == q * p + r
    ensures n / p == q && n % p == r
  {
    var q', r' := n / p, n % p;
    assert n == q' * p + r';
    if q' < q {
      MulLe(q' + 1, q, p);
    } else if q < q' {
      MulLe(q + 1, q', p);
    }
  }
}
