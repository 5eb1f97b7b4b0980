/** Notions that several modules share. */
module Basics {

  datatype Option<+T> = None | Some(value: T)

  /** n copies of x, as a zeroed allocation holds them. */
  function Repeat<T>(x: T, n: nat): (r: seq<T>)
    ensures |r| == n && forall i :: 0 <= i < n ==> r[i] == x
  {
    seq(n, i => x)
  }
}
