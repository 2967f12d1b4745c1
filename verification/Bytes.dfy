/** Bytes, and the little-endian numbers in them. */
module Bytes {

  type Byte = b: int | 0 <= b < 256

  datatype Option<+T> = None | Some(value: T)

  function Pad(n: nat): (z: seq<Byte>)
    ensures |z| == n
  {
    seq(n, _ => 0)
  }

  function U16(b: seq<Byte>, at: nat): nat
    requires at + 2 <= |b|
  {
    b[at] as int + (b[at + 1] as int) * 0x100
  }

  function U32(b: seq<Byte>, at: nat): nat
    requires at + 4 <= |b|
  {
    U16(b, at) + 0x10000 * U16(b, at + 2)
  }

  function Le16(n: nat): (b: seq<Byte>)
    requires n < 0x10000
    ensures |b| == 2
  {
    [n % 0x100, n / 0x100]
  }

  function Le32(n: nat): (b: seq<Byte>)
    requires n < 0x1_0000_0000
    ensures |b| == 4
  {
    Le16(n % 0x10000) + Le16(n / 0x10000)
  }

  lemma Le16ReadsBack(b: seq<Byte>, at: nat, n: nat)
    requires n < 0x10000 && at + 2 <= |b| && b[at..at + 2] == Le16(n)
    ensures U16(b, at) == n
  {
    assert b[at] == b[at..at + 2][0] && b[at + 1] == b[at..at + 2][1];
  }

  lemma SliceInPlace(b: seq<Byte>, at: nat, y: seq<Byte>, i: nat, j: nat)
    requires at + |y| <= |b| && b[at..at + |y|] == y && i <= j <= |y|
    ensures b[at + i..at + j] == y[i..j]
  {
    forall k | i <= k < j ensures b[at + k] == y[k] {
      assert b[at..at + |y|][k] == y[k];
    }
  }

  lemma Le32ReadsBack(b: seq<Byte>, at: nat, n: nat)
    requires n < 0x1_0000_0000 && at + 4 <= |b| && b[at..at + 4] == Le32(n)
    ensures U32(b, at) == n
  {
    SliceInPlace(b, at, Le32(n), 0, 2);
    SliceInPlace(b, at, Le32(n), 2, 4);
    Le16ReadsBack(b, at, n % 0x10000);
    Le16ReadsBack(b, at + 2, n / 0x10000);
  }
}
