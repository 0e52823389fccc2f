/** Shared vocabulary: optional and fallible results, bytes, and small arithmetic. */
module Prelude {
  datatype Option<+T> = None | Some(value: T)

  datatype Result<+T, +E> = Ok(value: T) | Err(error: E)

  /** One octet of a packet or a register-pipe message. */
  type Byte = b: int | 0 <= b < 256

  function Min(a: int, b: int): int {
    if a <= b then a else b
  }

  function Max(a: int, b: int): int {
    if a <= b then b else a
  }

  function Clamp(x: int, lo: int, hi: int): int
    requires lo <= hi
  {
    if x < lo then lo else if x > hi then hi else x
  }

  function AbsReal(x: real): real {
    if x < 0.0 then -x else x
  }

  /** Every value with its sign turned. */
  function Negated(d: seq<real>): (r: seq<real>)
    ensures |r| == |d| && forall i | 0 <= i < |d| :: r[i] == -d[i]
  {
    seq(|d|, i requires 0 <= i < |d| => -d[i])
  }

  function Pow2(k: nat): (p: nat)
    ensures p >= 1
  {
    if k == 0 then 1 else 2 * Pow2(k - 1)
  }
}
