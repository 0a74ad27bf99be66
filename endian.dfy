/** Unsigned integers as byte sequences in either byte order. */
module Endian {
  import opened Ints

  function Pow256(n: nat): (r: nat)
    ensures r >= 1
  {
    if n == 0 then 1 else 256 * Pow256(n - 1)
  }

  /** Little-endian value: bs[0] is the least significant byte. */
  function DecodeLE(bs: seq<u8>): (v: nat)
    ensures v < Pow256(|bs|)
  {
    if bs == [] then 0 else bs[0] + 256 * DecodeLE(bs[1..])
  }

  /** Big-endian value: bs[0] is the most significant byte. */
  function DecodeBE(bs: seq<u8>): (v: nat)
    ensures v < Pow256(|bs|)
  {
    if bs == [] then 0 else DecodeBE(bs[..|bs| - 1]) * 256 + bs[|bs| - 1]
  }

  /** The n low-order bytes of v, least significant first. */
  function EncodeLE(v: nat, n: nat): (bs: seq<u8>)
    ensures |bs| == n
  {
    if n == 0 then [] else [v % 256] + EncodeLE(v / 256, n - 1)
  }

  /** The n low-order bytes of v, most significant first. */
  function EncodeBE(v: nat, n: nat): (bs: seq<u8>)
    ensures |bs| == n
  {
    if n == 0 then [] else EncodeBE(v / 256, n - 1) + [v % 256]
  }

  function Reverse(bs: seq<u8>): (r: seq<u8>)
    ensures |r| == |bs|
  {
    if bs == [] then [] else [bs[|bs| - 1]] + Reverse(bs[..|bs| - 1])
  }

  lemma {:induction false} DecodeEncodeLE(v: nat, n: nat)
    requires v < Pow256(n)
    ensures DecodeLE(EncodeLE(v, n)) == v
  {
    if n > 0 {
      var bs := EncodeLE(v, n);
      assert bs[1..] == EncodeLE(v / 256, n - 1);
      DecodeEncodeLE(v / 256, n - 1);
    }
  }

  lemma {:induction false} DecodeEncodeBE(v: nat, n: nat)
    requires v < Pow256(n)
    ensures DecodeBE(EncodeBE(v, n)) == v
  {
    if n > 0 {
      var bs := EncodeBE(v, n);
      assert bs[..|bs| - 1] == EncodeBE(v / 256, n - 1);
      DecodeEncodeBE(v / 256, n - 1);
    }
  }

  lemma {:induction false} EncodeDecodeLE(bs: seq<u8>)
    ensures EncodeLE(DecodeLE(bs), |bs|) == bs
  {
    if bs != [] {
      var d := DecodeLE(bs);
      assert d % 256 == bs[0] && d / 256 == DecodeLE(bs[1..]);
      EncodeDecodeLE(bs[1..]);
      assert bs == [bs[0]] + bs[1..];
    }
  }

  lemma {:induction false} EncodeDecodeBE(bs: seq<u8>)
    ensures EncodeBE(DecodeBE(bs), |bs|) == bs
  {
    if bs != [] {
      var init := bs[..|bs| - 1];
      var d := DecodeBE(bs);
      assert d % 256 == bs[|bs| - 1] && d / 256 == DecodeBE(init);
      EncodeDecodeBE(init);
      assert bs == init + [bs[|bs| - 1]];
    }
  }

  /** Reading big-endian is reading the reversed bytes little-endian. */
  lemma {:induction false} BigEndianIsReversedLittle(bs: seq<u8>)
    ensures DecodeBE(bs) == DecodeLE(Reverse(bs))
  {
    if bs != [] {
      var init := bs[..|bs| - 1];
      var r := Reverse(bs);
      assert r[0] == bs[|bs| - 1] && r[1..] == Reverse(init);
      BigEndianIsReversedLittle(init);
    }
  }
}
