/**
 * Bytes and bit strings as the Huffman codec handles them: Python's
 * `f"{n:08b}"` (fixed-width binary, most significant bit first) and
 * `int(s, 2)` (value of a binary string), and the two whole-buffer
 * conversions built on them.
 */
module BitStrings {
  type Byte = x: int | 0 <= x < 256

  /** A string of '0'/'1' characters; `true` stands for '1'. */
  type Bits = seq<bool>

  function Pow2(n: nat): (p: nat)
    ensures p >= 1
  {
    if n == 0 then 1 else 2 * Pow2(n - 1)
  }

  /** `int(bs, 2)`: the first bit is the most significant one. */
  function ValueOf(bs: Bits): (v: nat)
    ensures v < Pow2(|bs|)
  {
    if bs == [] then 0
    else 2 * ValueOf(bs[..|bs| - 1]) + (if bs[|bs| - 1] then 1 else 0)
  }

  /** `f"{n:0{w}b}"` for a value that fits in `w` bits. */
  function Binary(n: nat, w: nat): (bs: Bits)
    requires n < Pow2(w)
    ensures |bs| == w
  {
    if w == 0 then [] else Binary(n / 2, w - 1) + [n % 2 == 1]
  }

  /** `f"{b:08b}"` for one byte. */
  function ByteBits(b: Byte): (bs: Bits)
    ensures |bs| == 8
  {
    assert Pow2(8) == 256;
    Binary(b, 8)
  }

  /** `'0' * n` */
  function Zeros(n: nat): (bs: Bits)
    ensures |bs| == n && forall k :: 0 <= k < n ==> !bs[k]
  {
    seq(n, _ => false)
  }

  /** `''.join(f"{byte:08b}" for byte in data)` */
  function Unpack(data: seq<Byte>): (bs: Bits)
    ensures |bs| == 8 * |data|
  {
    if data == [] then [] else ByteBits(data[0]) + Unpack(data[1..])
  }

  /** The bytes `int(bs[i:i+8], 2)` for i = 0, 8, 16, ... of a whole number of bytes. */
  function Packed(bs: Bits): (data: seq<Byte>)
    requires |bs| % 8 == 0
    ensures |data| == |bs| / 8
  {
    if bs == [] then []
    else
      assert Pow2(|bs[..8]|) == 256;
      [ValueOf(bs[..8])] + Packed(bs[8..])
  }

  lemma {:induction false} ValueOfBinary(n: nat, w: nat)
    requires n < Pow2(w)
    ensures ValueOf(Binary(n, w)) == n
  {
    if w > 0 {
      ValueOfBinary(n / 2, w - 1);
      assert Binary(n, w)[..w - 1] == Binary(n / 2, w - 1);
    }
  }

  lemma {:induction false} BinaryOfValue(bs: Bits)
    ensures Binary(ValueOf(bs), |bs|) == bs
  {
    if bs != [] {
      var init := bs[..|bs| - 1];
      BinaryOfValue(init);
      assert bs == init + [bs[|bs| - 1]];
    }
  }

  /** The first bit of a binary string is its most significant one. */
  lemma {:induction false} FirstBitIsMostSignificant(bs: Bits)
    requires |bs| >= 1
    ensures bs[0] <==> ValueOf(bs) >= Pow2(|bs| - 1)
  {
    if |bs| > 1 {
      var init := bs[..|bs| - 1];
      FirstBitIsMostSignificant(init);
      assert init[0] == bs[0];
    }
  }

  /** Packing then unpacking gives back the bit string. */
  lemma {:induction false} UnpackPacked(bs: Bits)
    requires |bs| % 8 == 0
    ensures Unpack(Packed(bs)) == bs
  {
    if bs != [] {
      UnpackPacked(bs[8..]);
      BinaryOfValue(bs[..8]);
      assert Packed(bs)[1..] == Packed(bs[8..]);
      assert bs == bs[..8] + bs[8..];
    }
  }

  /** Unpacking then packing gives back the bytes. */
  lemma {:induction false} PackedUnpack(data: seq<Byte>)
    ensures Packed(Unpack(data)) == data
  {
    if data != [] {
      var bs := Unpack(data);
      PackedUnpack(data[1..]);
      assert Pow2(8) == 256;
      ValueOfBinary(data[0], 8);
      assert bs[..8] == ByteBits(data[0]);
      assert bs[8..] == Unpack(data[1..]);
    }
  }

  /** Each byte of `Packed(bs)` holds its eight bits most significant first. */
  lemma PackedMsbFirst(bs: Bits, i: nat)
    requires |bs| % 8 == 0 && i < |bs| / 8
    ensures Packed(bs)[i] >= 128 <==> bs[8 * i]
    ensures Packed(bs)[i] % 2 == 1 <==> bs[8 * i + 7]
  {
    PackedAt(bs, i);
    var byte := bs[8 * i .. 8 * i + 8];
    assert byte[0] == bs[8 * i] && byte[7] == bs[8 * i + 7];
    FirstBitIsMostSignificant(byte);
    assert Pow2(7) == 128;
    LastBitIsParity(byte);
  }

  /** The last bit of a binary string is its least significant one. */
  lemma LastBitIsParity(bs: Bits)
    requires |bs| >= 1
    ensures bs[|bs| - 1] <==> ValueOf(bs) % 2 == 1
  {
    var h := ValueOf(bs[..|bs| - 1]);
    assert ValueOf(bs) == 2 * h + (if bs[|bs| - 1] then 1 else 0);
  }

  lemma {:induction false} PackedAt(bs: Bits, i: nat)
    requires |bs| % 8 == 0 && i < |bs| / 8
    ensures Packed(bs)[i] == ValueOf(bs[8 * i .. 8 * i + 8])
  {
    if i > 0 {
      PackedAt(bs[8..], i - 1);
      assert bs[8..][8 * (i - 1) .. 8 * (i - 1) + 8] == bs[8 * i .. 8 * i + 8];
    }
  }
}
