/** Unsigned integers of the widths the codecs use, and their fixed-width
    little-endian (SSZ `uintN`) and big-endian (`to_be_bytes`) byte forms. */
module Uints {

  type uint8 = n: int | 0 <= n < 256

  /** 256^k: the number of distinct values a k-byte integer can hold. */
  function Pow256(k: nat): (r: nat)
    ensures r > 0
  {
    if k == 0 then 1 else 256 * Pow256(k - 1)
  }

  type uint64 = n: nat | n < Pow256(8)

  type uint256 = n: nat | n < Pow256(32)

  /** `width` bytes, least significant first. A value that does not fit is
      reduced modulo 256^width, as a fixed-width integer type would be. */
  function ToLittleEndian(n: nat, width: nat): (r: seq<uint8>)
    ensures |r| == width
  {
    if width == 0 then [] else [n % 256] + ToLittleEndian(n / 256, width - 1)
  }

  /** The unsigned value of a little-endian byte string. */
  function FromLittleEndian(bs: seq<uint8>): (n: nat)
    ensures n < Pow256(|bs|)
  {
    if bs == [] then 0 else bs[0] + 256 * FromLittleEndian(bs[1..])
  }

  /** `width` bytes, most significant first, reduced modulo 256^width. */
  function ToBigEndian(n: nat, width: nat): (r: seq<uint8>)
    ensures |r| == width
  {
    if width == 0 then [] else ToBigEndian(n / 256, width - 1) + [n % 256]
  }

  /** The unsigned value of a big-endian byte string. */
  function FromBigEndian(bs: seq<uint8>): (n: nat)
    ensures n < Pow256(|bs|)
  {
    if bs == [] then 0 else 256 * FromBigEndian(bs[..|bs| - 1]) + bs[|bs| - 1]
  }

  lemma {:induction false} LittleEndianRoundTrip(n: nat, width: nat)
    requires n < Pow256(width)
    ensures FromLittleEndian(ToLittleEndian(n, width)) == n
  {
    if width > 0 {
      var bs := ToLittleEndian(n, width);
      LittleEndianRoundTrip(n / 256, width - 1);
      assert bs[1..] == ToLittleEndian(n / 256, width - 1);
    }
  }

  lemma {:induction false} FromLittleEndianRoundTrip(bs: seq<uint8>)
    ensures ToLittleEndian(FromLittleEndian(bs), |bs|) == bs
  {
    if bs != [] {
      FromLittleEndianRoundTrip(bs[1..]);
      var n := FromLittleEndian(bs);
      assert n % 256 == bs[0] && n / 256 == FromLittleEndian(bs[1..]);
    }
  }

  lemma {:induction false} BigEndianRoundTrip(n: nat, width: nat)
    requires n < Pow256(width)
    ensures FromBigEndian(ToBigEndian(n, width)) == n
  {
    if width > 0 {
      var bs := ToBigEndian(n, width);
      BigEndianRoundTrip(n / 256, width - 1);
      assert bs[..width - 1] == ToBigEndian(n / 256, width - 1);
    }
  }
}
