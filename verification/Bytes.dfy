/** Bytes, and what several devices need of them. */
module Bytes {

  newtype byte = x: int | 0 <= x < 256

  function Min(a: nat, b: nat): (m: nat)
    ensures m <= a && m <= b && (m == a || m == b)
  {
    if a < b then a else b
  }

  lemma Remainder(a: nat, n: nat)
    requires a < n
    ensures (a + n) % n == a
  {
  }

  lemma Assoc(a: seq<byte>, b: seq<byte>, c: seq<byte>)
    ensures a + b + c == a + (b + c)
  {
  }
}
