/** Bytes, machine words and their big-endian form (encoding/binary, xdr/pad.go). */
module Octets {

  datatype Option<+T> = None | Some(value: T)

  type byte = b: int | 0 <= b < 0x100
  type u32 = n: int | 0 <= n < 0x1_0000_0000
  type u64 = n: int | 0 <= n < 0x1_0000_0000_0000_0000

  const TWO32: int := 0x1_0000_0000
  const TWO64: int := 0x1_0000_0000_0000_0000

  function Pow256(k: nat): (p: nat)
    ensures p > 0
  {
    if k == 0 then 1 else 0x100 * Pow256(k - 1)
  }

  /** The low k bytes of n, most significant first. */
  function BigEndian(n: nat, k: nat): (r: seq<byte>)
    ensures |r| == k
  {
    if k == 0 then [] else BigEndian(n / 0x100, k - 1) + [n % 0x100]
  }

  function FromBigEndian(b: seq<byte>): (n: nat)
    ensures n < Pow256(|b|)
  {
    if b == [] then 0 else 0x100 * FromBigEndian(b[..|b| - 1]) + b[|b| - 1]
  }

  lemma {:induction false} BigEndianRoundTrip(n: nat, k: nat)
    requires n < Pow256(k)
    ensures FromBigEndian(BigEndian(n, k)) == n
  {
    if k > 0 {
      BigEndianRoundTrip(n / 0x100, k - 1);
      assert BigEndian(n, k)[..k - 1] == BigEndian(n / 0x100, k - 1);
    }
  }

  lemma {:induction false} BigEndianInverse(b: seq<byte>)
    ensures BigEndian(FromBigEndian(b), |b|) == b
  {
    if b != [] {
      BigEndianInverse(b[..|b| - 1]);
      assert b == b[..|b| - 1] + [b[|b| - 1]];
    }
  }

  lemma WordSizes()
    ensures Pow256(4) == TWO32 && Pow256(8) == TWO64
  {
    assert Pow256(2) == 0x1_0000;
    assert Pow256(6) == 0x1_0000_0000_0000;
  }

  function U32Bytes(n: u32): (r: seq<byte>)
    ensures |r| == 4
  {
    BigEndian(n, 4)
  }

  function U32Of(b: seq<byte>): u32
    requires |b| == 4
  {
    WordSizes();
    FromBigEndian(b)
  }

  function U64Bytes(n: u64): (r: seq<byte>)
    ensures |r| == 8
  {
    BigEndian(n, 8)
  }

  function U64Of(b: seq<byte>): u64
    requires |b| == 8
  {
    WordSizes();
    FromBigEndian(b)
  }

  lemma U32RoundTrip(n: u32)
    ensures U32Of(U32Bytes(n)) == n
  {
    WordSizes();
    BigEndianRoundTrip(n, 4);
  }

  lemma U64RoundTrip(n: u64)
    ensures U64Of(U64Bytes(n)) == n
  {
    WordSizes();
    BigEndianRoundTrip(n, 8);
  }

  /** Pad: the bytes that bring a length to a multiple of four. */
  function Pad(size: nat): (p: nat)
    ensures p < 4 && (size + p) % 4 == 0
  {
    (4 - size % 4) % 4
  }

  function Zeros(n: nat): (z: seq<byte>)
    ensures |z| == n
  {
    if n == 0 then [] else Zeros(n - 1) + [0]
  }

  /** The stored length of a slice: Go's uint32(len). */
  function Truncate32(n: int): u32 {
    n % TWO32
  }
}
