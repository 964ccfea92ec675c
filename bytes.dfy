/**
 * Machine integers and byte strings as the Rust code uses them: `u8`, `u32`,
 * `u64`, the 32-byte arrays produced by the two hash functions, and the
 * big-endian encoding of `u64::to_be_bytes`.
 */
module Bytes {

  /** 2^64, one past the largest `u64`. */
  const TWO_64: nat := 0x1_0000_0000_0000_0000

  type byte = x: int | 0 <= x < 256
  type u32 = x: int | 0 <= x < 0x1_0000_0000
  type u64 = x: int | 0 <= x < 0x1_0000_0000_0000_0000

  /** A `[u8; 32]`: the output size of SHA-256 and of BLAKE3. */
  type Bytes32 = s: seq<byte> | |s| == 32 witness seq(32, _ => 0)

  /**
   * A cryptographic hash function seen from outside: a total, deterministic map
   * from any byte string to 32 bytes. SHA-256 and BLAKE3 are parameters of
   * this type; nothing about their internals is assumed.
   */
  type HashFn = seq<byte> -> Bytes32

  /**
   * A hash with no collision between the two given inputs. Collision
   * resistance is never assumed globally; lemmas that need it take this as an
   * explicit hypothesis about the inputs they talk about.
   */
  predicate NoCollision(h: HashFn, a: seq<byte>, b: seq<byte>)
  {
    h(a) == h(b) ==> a == b
  }

  /** The bytes of an ASCII text, as a Rust byte-string literal `b"..."` gives them. */
  function AsciiBytes(s: string): (r: seq<byte>)
    ensures |r| == |s|
    ensures forall i :: 0 <= i < |s| && s[i] as int < 256 ==> r[i] == s[i] as int
  {
    seq(|s|, i requires 0 <= i < |s| => (s[i] as int) % 256)
  }

  function Pow256(n: nat): (r: nat)
    ensures r >= 1
  {
    if n == 0 then 1 else 256 * Pow256(n - 1)
  }

  lemma Pow256Of8()
    ensures Pow256(8) == TWO_64
  {
    assert Pow256(1) == 0x100;
    assert Pow256(2) == 0x1_0000;
    assert Pow256(3) == 0x100_0000;
    assert Pow256(4) == 0x1_0000_0000;
    assert Pow256(5) == 0x100_0000_0000;
    assert Pow256(6) == 0x1_0000_0000_0000;
    assert Pow256(7) == 0x100_0000_0000_0000;
  }

  /** The low `n` bytes of `x`, most significant first. */
  function BigEndian(x: nat, n: nat): (r: seq<byte>)
    ensures |r| == n
  {
    if n == 0 then [] else BigEndian(x / 256, n - 1) + [x % 256]
  }

  /** The number whose big-endian bytes are `s`. */
  function FromBigEndian(s: seq<byte>): (r: nat)
    ensures r < Pow256(|s|)
  {
    if s == [] then 0 else FromBigEndian(s[..|s| - 1]) * 256 + s[|s| - 1]
  }

  /** Decoding undoes encoding for every number that fits in `n` bytes. */
  lemma {:induction false} BigEndianRoundTrip(x: nat, n: nat)
    requires x < Pow256(n)
    ensures FromBigEndian(BigEndian(x, n)) == x
  {
    if n > 0 {
      assert x / 256 < Pow256(n - 1);
      BigEndianRoundTrip(x / 256, n - 1);
      var s := BigEndian(x, n);
      assert s[..|s| - 1] == BigEndian(x / 256, n - 1);
    }
  }

  /** `u64::to_be_bytes`: eight bytes from which the value is recovered. */
  function ToBeBytes64(x: u64): (r: seq<byte>)
    ensures |r| == 8
    ensures FromBigEndian(r) == x
  {
    Pow256Of8();
    BigEndianRoundTrip(x, 8);
    BigEndian(x, 8)
  }

  /**
   * `usize as u64`. A Rust length never reaches 2^64, so on the 64-bit
   * targets the crate is built for the cast keeps the value; the reduction is
   * written out so that the model states the width.
   */
  function LengthAsU64(n: nat): (r: u64)
    ensures n < TWO_64 ==> r == n
  {
    n % TWO_64
  }
}
