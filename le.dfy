/** Fixed-width unsigned integers and their little-endian byte encoding.
    Every on-disk and ioctl field of the btrfs search protocol is read with
    `u64::from_le` / `u32::from_le` / `u16::from_le`; here the byte order is
    written out explicitly instead of reinterpreting memory. */
module LittleEndian {

  type u8 = x: int | 0 <= x < 0x100
  type u16 = x: int | 0 <= x < 0x1_0000
  type u32 = x: int | 0 <= x < 0x1_0000_0000
  type u64 = x: int | 0 <= x < 0x1_0000_0000_0000_0000

  const U32_MAX: u32 := 0xFFFF_FFFF
  const U64_MAX: u64 := 0xFFFF_FFFF_FFFF_FFFF

  /** 256 to the power n: one more than the largest value n bytes hold. */
  function Pow256(n: nat): (r: nat)
    ensures r > 0
  {
    if n == 0 then 1 else 256 * Pow256(n - 1)
  }

  /** The number whose little-endian encoding is bs (least significant byte first). */
  function FromLe(bs: seq<u8>): (r: nat)
    ensures r < Pow256(|bs|)
  {
    if bs == [] then 0 else bs[0] + 256 * FromLe(bs[1..])
  }

  /** The width-byte little-endian encoding of n. */
  function ToLe(n: nat, width: nat): (bs: seq<u8>)
    requires n < Pow256(width)
    ensures |bs| == width
    ensures FromLe(bs) == n
  {
    if width == 0 then [] else [n % 256] + ToLe(n / 256, width - 1)
  }

  /** Decoding then re-encoding gives back the same bytes: the encoding is onto. */
  lemma {:induction false} ToLeFromLe(bs: seq<u8>)
    ensures ToLe(FromLe(bs), |bs|) == bs
  {
    if bs != [] {
      var rest := FromLe(bs[1..]);
      assert FromLe(bs) % 256 == bs[0];
      assert FromLe(bs) / 256 == rest;
      ToLeFromLe(bs[1..]);
    }
  }

  /** Two byte strings of the same width that decode to the same number are equal. */
  lemma FromLeInjective(a: seq<u8>, b: seq<u8>)
    requires |a| == |b| && FromLe(a) == FromLe(b)
    ensures a == b
  {
    ToLeFromLe(a);
    ToLeFromLe(b);
  }

  /** The u16 stored little-endian at `at`. */
  function LeU16(b: seq<u8>, at: nat): (r: u16)
    requires at + 2 <= |b|
  {
    assert Pow256(2) == 0x1_0000;
    FromLe(b[at..at + 2])
  }

  /** The u32 stored little-endian at `at`. */
  function LeU32(b: seq<u8>, at: nat): (r: u32)
    requires at + 4 <= |b|
  {
    assert Pow256(4) == 0x1_0000_0000;
    FromLe(b[at..at + 4])
  }

  /** The u64 stored little-endian at `at`. */
  function LeU64(b: seq<u8>, at: nat): (r: u64)
    requires at + 8 <= |b|
  {
    assert Pow256(8) == 0x1_0000_0000_0000_0000;
    FromLe(b[at..at + 8])
  }

  function U16Le(x: u16): (bs: seq<u8>)
    ensures |bs| == 2 && LeU16(bs, 0) == x
  {
    assert Pow256(2) == 0x1_0000;
    var bs := ToLe(x, 2);
    assert bs[0..2] == bs;
    bs
  }

  function U32Le(x: u32): (bs: seq<u8>)
    ensures |bs| == 4 && LeU32(bs, 0) == x
  {
    assert Pow256(4) == 0x1_0000_0000;
    var bs := ToLe(x, 4);
    assert bs[0..4] == bs;
    bs
  }

  function U64Le(x: u64): (bs: seq<u8>)
    ensures |bs| == 8 && LeU64(bs, 0) == x
  {
    assert Pow256(8) == 0x1_0000_0000_0000_0000;
    var bs := ToLe(x, 8);
    assert bs[0..8] == bs;
    bs
  }
}
