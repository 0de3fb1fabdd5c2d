/** Bytes and the fixed-width big-endian integers of the SQLite file format. */
module Bytes {
  type byte = b: int | 0 <= b < 256

  const U16: nat := 0x1_0000
  const U32: nat := 0x1_0000_0000
  const U64: nat := 0x1_0000_0000_0000_0000

  type u32 = n: nat | n < U32
  type u64 = n: nat | n < U64
  type i64 = n: int | -0x8000_0000_0000_0000 <= n < 0x8000_0000_0000_0000

  /** A record payload: a slice never spans more than half the address space. */
  type Payload = s: seq<byte> | |s| < 0x8000_0000_0000_0000

  function Zeros(n: nat): (z: seq<byte>)
    ensures |z| == n
  {
    seq(n, _ => 0)
  }

  /** The `width` low-order bytes of `value`, most significant first. */
  function BigEndian(value: nat, width: nat): (b: seq<byte>)
    ensures |b| == width
  {
    if width == 0 then [] else BigEndian(value / 256, width - 1) + [value % 256]
  }

  function FromBigEndian(b: seq<byte>): nat {
    if b == [] then 0 else FromBigEndian(b[..|b| - 1]) * 256 + b[|b| - 1]
  }

  function Pow256(n: nat): (p: nat)
    ensures p >= 1
  {
    if n == 0 then 1 else 256 * Pow256(n - 1)
  }

  lemma {:induction false} BigEndianRoundTrip(value: nat, width: nat)
    requires value < Pow256(width)
    ensures FromBigEndian(BigEndian(value, width)) == value
  {
    if width > 0 {
      BigEndianRoundTrip(value / 256, width - 1);
      assert BigEndian(value, width)[..width - 1] == BigEndian(value / 256, width - 1);
    }
  }

  /** `value as u64`: two's complement. */
  function ToU64(value: i64): u64 {
    if value < 0 then value + U64 else value
  }

  function ToI64(value: u64): (r: i64)
    ensures ToU64(r) == value
  {
    if value >= 0x8000_0000_0000_0000 then value - U64 else value
  }

  lemma CastRoundTrip(value: i64)
    ensures ToI64(ToU64(value)) == value
  {
  }

  /** Reads a big-endian word of `width` bytes at `at`. */
  function ReadWord(bytes: seq<byte>, at: nat, width: nat): nat
    requires at + width <= |bytes|
  {
    FromBigEndian(bytes[at..at + width])
  }

  lemma WordRoundTrip(bytes: seq<byte>, at: nat, width: nat, value: nat)
    requires at + width <= |bytes| && bytes[at..at + width] == BigEndian(value, width)
    requires value < Pow256(width)
    ensures ReadWord(bytes, at, width) == value
  {
    BigEndianRoundTrip(value, width);
  }
}
