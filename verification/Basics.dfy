/** What the modules share: bytes, optional results, C's integer limits and memcpy. */
module Basics {

  datatype Option<+T> = None | Some(value: T)

  type Bytes = seq<bv8>

  const INT_MAX := 0x7FFF_FFFF
  const UINT_RANGE := 0x1_0000_0000

  function Min(a: int, b: int): int { if a <= b then a else b }

  function Max(a: int, b: int): int { if a >= b then a else b }

  /** Chunks put together in order. */
  function Join(chunks: seq<Bytes>): Bytes {
    if chunks == [] then [] else Join(chunks[..|chunks| - 1]) + chunks[|chunks| - 1]
  }

  /** A remainder is known by the quotient that goes with it. */
  lemma ModUnique(x: int, n: int, q: int, r: int)
    requires n > 0 && x == n * q + r && 0 <= r < n
    ensures x % n == r
  {
    var k := q - x / n;
    assert n * k == x % n - r;
    assert k >= 1 ==> n * k >= n;
    assert k <= -1 ==> n * k <= -n;
  }

  /** memcpy into a buffer at `at`. */
  method Memcpy(buf: array<bv8>, at: nat, data: Bytes)
    requires at + |data| <= buf.Length
    modifies buf
    ensures forall k :: at <= k < at + |data| ==> buf[k] == data[k - at]
    ensures forall k :: 0 <= k < buf.Length && !(at <= k < at + |data|) ==> buf[k] == old(buf[k])
  {
    for i := 0 to |data|
      invariant forall k :: at <= k < at + i ==> buf[k] == data[k - at]
      invariant forall k :: 0 <= k < buf.Length && !(at <= k < at + i) ==> buf[k] == old(buf[k])
    {
      buf[at + i] := data[i];
    }
  }
}
