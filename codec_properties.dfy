/**
 * What `compress` and `decompress` guarantee together: the layout of the
 * compressed bytes, the greedy decoding of an encoded stream, the round
 * trip for inputs with two or more distinct byte values, and the loss of
 * every input with a single distinct byte value.
 */
module HuffmanProperties {
  import opened BitStrings
  import opened Codes
  import opened Huffman
  import opened Wrappers

  /** The header is the bit string's first byte, read back by `int(bit_string[:8], 2)`. */
  lemma HeaderIsFirstByte(payload: seq<Byte>)
    requires payload != []
    ensures Unpack(payload)[..8] == ByteBits(payload[0])
    ensures Unpack(payload)[8..] == Unpack(payload[1..])
    ensures ValueOf(Unpack(payload)[..8]) == payload[0]
  {
    assert Pow2(8) == 256;
    ValueOfBinary(payload[0], 8);
  }

  /**
   * The compressed bytes: a header holding the padding (1 to 8), then the
   * encoded bits, most significant first, then that many zero bits, in
   * exactly `2 + len(encoded) // 8` bytes.
   */
  lemma FrameLayout(encoded: Bits)
    ensures var padding := Padding(|encoded|);
            var payload := Packed(Framed(encoded));
            && 1 <= padding <= 8
            && |payload| == 2 + |encoded| / 8
            && payload[0] == padding
            && Unpack(payload) == ByteBits(padding) + encoded + Zeros(padding)
  {
    var padding := Padding(|encoded|);
    var framed := Framed(encoded);
    UnpackPacked(framed);
    HeaderIsFirstByte(Packed(framed));
    assert framed[..8] == ByteBits(padding);
    assert Pow2(8) == 256;
    ValueOfBinary(padding, 8);
  }

  /** Every bit after the encoded stream is a zero. */
  lemma PaddingBitsAreZero(encoded: Bits, k: nat)
    requires 8 + |encoded| <= k < 8 * |Packed(Framed(encoded))|
    ensures !Unpack(Packed(Framed(encoded)))[k]
  {
    FrameLayout(encoded);
  }

  /**
   * Reading the bits that complete the code of `b` from the accumulator
   * `current` emits `b` and nothing else, and leaves the accumulator empty.
   */
  lemma {:induction false} GreedyCompletesCode(codes: CodeTable, b: Byte, current: Bits, s: Bits, rest: Bits)
    requires PrefixFree(codes) && b in codes
    requires current + s == codes[b] && s != []
    ensures Greedy(s + rest, Reverse(codes), current) == [b] + Greedy(rest, Reverse(codes), [])
    decreases |s|
  {
    var reverse := Reverse(codes);
    var code := current + [s[0]];
    assert (s + rest)[0] == s[0] && (s + rest)[1..] == s[1..] + rest;
    if |s| == 1 {
      assert code == codes[b];
      CodeLooksUp(codes, b);
    } else {
      assert code + s[1..] == codes[b];
      ProperPrefixIsNoCode(codes, b, code);
      GreedyCompletesCode(codes, b, code, s[1..], rest);
    }
  }

  /** A byte value's own code is decoded back to that byte value. */
  lemma CodeLooksUp(codes: CodeTable, b: Byte)
    requires PrefixFree(codes) && b in codes
    ensures codes[b] in Reverse(codes) && Reverse(codes)[codes[b]] == b
  {
    ReverseInverts(codes);
    PrefixFreeInjective(codes);
  }

  /** A proper prefix of a code of a prefix-free table is no code. */
  lemma ProperPrefixIsNoCode(codes: CodeTable, b: Byte, code: Bits)
    requires PrefixFree(codes) && b in codes
    requires code <= codes[b] && |code| < |codes[b]|
    ensures code !in Reverse(codes)
  {
    forall k | k in codes ensures codes[k] != code {
      if k != b {
        assert !(codes[k] <= codes[b]);
      }
    }
    ReverseInverts(codes);
  }

  /** Decoding an encoded stream followed by more bits gives back the input, then decodes the rest. */
  lemma {:induction false} DecodeEncoded(data: seq<Byte>, codes: CodeTable, tail: Bits)
    requires forall b :: b in data ==> b in codes
    requires PrefixFree(codes) && forall b :: b in codes ==> codes[b] != []
    ensures Greedy(EncodeBits(data, codes) + tail, Reverse(codes), []) == data + Greedy(tail, Reverse(codes), [])
  {
    if data == [] {
      assert EncodeBits(data, codes) + tail == tail;
    } else {
      var b := data[0];
      var more := EncodeBits(data[1..], codes) + tail;
      EncodeCons(data, codes, tail);
      assert [] + codes[b] == codes[b];
      GreedyCompletesCode(codes, b, [], codes[b], more);
      DecodeEncoded(data[1..], codes, tail);
      assert data == [b] + data[1..];
    }
  }

  lemma EncodeCons(data: seq<Byte>, codes: CodeTable, tail: Bits)
    requires data != [] && forall b :: b in data ==> b in codes
    ensures EncodeBits(data, codes) + tail == codes[data[0]] + (EncodeBits(data[1..], codes) + tail)
  {
  }

  /** Trailing bits that never reach a code are dropped without an error. */
  lemma {:induction false} GreedyUnmatched(bits: Bits, reverse: map<Bits, Byte>, current: Bits)
    requires forall k :: 0 < k <= |bits| ==> current + bits[..k] !in reverse
    ensures Greedy(bits, reverse, current) == []
  {
    if bits != [] {
      var code := current + [bits[0]];
      assert code == current + bits[..1];
      forall k | 0 < k <= |bits| - 1 ensures code + bits[1..][..k] !in reverse {
        assert code + bits[1..][..k] == current + bits[..k + 1];
      }
      GreedyUnmatched(bits[1..], reverse, code);
    }
  }

  /** An encoded stream with trailing bits that form no code decodes to the input alone. */
  lemma TrailingBitsDropped(data: seq<Byte>, codes: CodeTable, tail: Bits)
    requires forall b :: b in data ==> b in codes
    requires PrefixFree(codes) && forall b :: b in codes ==> codes[b] != []
    requires forall k :: 0 < k <= |tail| ==> tail[..k] !in codes.Values
    ensures Greedy(EncodeBits(data, codes) + tail, Reverse(codes), []) == data
  {
    DecodeEncoded(data, codes, tail);
    ReverseInverts(codes);
    forall k | 0 < k <= |tail| ensures [] + tail[..k] !in Reverse(codes) {
      assert [] + tail[..k] == tail[..k];
    }
    GreedyUnmatched(tail, Reverse(codes), []);
    assert data + [] == data;
  }

  /** With a prefix-free table of non-empty codes, an encoded stream has exactly one parse. */
  lemma UniqueParse(d1: seq<Byte>, d2: seq<Byte>, codes: CodeTable)
    requires forall b :: b in d1 ==> b in codes
    requires forall b :: b in d2 ==> b in codes
    requires PrefixFree(codes) && forall b :: b in codes ==> codes[b] != []
    requires EncodeBits(d1, codes) == EncodeBits(d2, codes)
    ensures d1 == d2
  {
    TrailingBitsDropped(d1, codes, []);
    TrailingBitsDropped(d2, codes, []);
    assert EncodeBits(d1, codes) + [] == EncodeBits(d1, codes);
    assert EncodeBits(d2, codes) + [] == EncodeBits(d2, codes);
  }

  /**
   * The round trip: for an input with two or more distinct byte values,
   * decompressing what `compress` produces gives back exactly the input.
   */
  lemma RoundTrip(data: seq<Byte>, codes: CodeTable)
    requires ValidCodeTable(codes, data)
    requires exists i, j :: 0 <= i < |data| && 0 <= j < |data| && data[i] != data[j]
    ensures Decompressed(Packed(Framed(EncodeBits(data, codes))), codes) == Success(data)
  {
    var i, j :| 0 <= i < |data| && 0 <= j < |data| && data[i] != data[j];
    forall b | b in codes ensures codes[b] != [] {
      assert data[i] in codes && data[j] in codes;
    }
    var encoded := EncodeBits(data, codes);
    var payload := Packed(Framed(encoded));
    FrameLayout(encoded);
    HeaderIsFirstByte(payload);
    var bits := Unpack(payload);
    var padding := Padding(|encoded|);
    assert Strip(bits, padding) == encoded;
    TrailingBitsDropped(data, codes, []);
    assert encoded + [] == encoded;
  }

  lemma {:induction false} EncodeEmptyCodes(data: seq<Byte>, codes: CodeTable)
    requires forall b :: b in data ==> b in codes && codes[b] == []
    ensures EncodeBits(data, codes) == []
  {
    if data != [] {
      EncodeEmptyCodes(data[1..], codes);
    }
  }

  lemma {:induction false} ZerosValue(n: nat)
    ensures ValueOf(Zeros(n)) == 0
  {
    if n > 0 {
      assert Zeros(n)[..n - 1] == Zeros(n - 1);
      ZerosValue(n - 1);
    }
  }

  /**
   * An input with a single distinct byte value gets the empty code, is
   * compressed to the two bytes `[8, 0]` whatever its length, and
   * decompresses to nothing: the round trip does not hold for it.
   */
  lemma SingleSymbolLost(data: seq<Byte>, codes: CodeTable)
    requires ValidCodeTable(codes, data)
    requires data != [] && forall i :: 0 <= i < |data| ==> data[i] == data[0]
    ensures codes == map[data[0] := []]
    ensures Packed(Framed(EncodeBits(data, codes))) == [8, 0]
    ensures Decompressed([8, 0], codes) == Success([])
  {
    assert codes.Keys == {data[0]};
    EncodeEmptyCodes(data, codes);
    EmptyStreamPayload();
    OversizedHeaderEmpties([8, 0], codes);
  }

  /** An empty encoded stream is framed as a full byte of padding: the header 8, then a zero byte. */
  lemma EmptyStreamPayload()
    ensures Packed(Framed([])) == [8, 0]
  {
    FrameLayout([]);
    var payload := Packed(Framed([]));
    HeaderIsFirstByte(payload);
    assert payload[1..] == [payload[1]];
    assert Unpack(payload)[8..] == Zeros(8);
    assert ByteBits(payload[1]) == Zeros(8);
    ZerosValue(8);
    assert Pow2(8) == 256;
    ValueOfBinary(payload[1], 8);
  }

  /** A header of 0 strips nothing: every bit after the header is decoded. */
  lemma ZeroHeaderStripsNothing(payload: seq<Byte>, codes: CodeTable)
    requires payload != [] && payload[0] == 0
    ensures Decompressed(payload, codes) == Success(Greedy(Unpack(payload[1..]), Reverse(codes), []))
  {
    HeaderIsFirstByte(payload);
  }

  /** A header at least as large as the bits after it leaves nothing to decode. */
  lemma OversizedHeaderEmpties(payload: seq<Byte>, codes: CodeTable)
    requires payload != [] && payload[0] >= 8 * (|payload| - 1)
    ensures Decompressed(payload, codes) == Success([])
  {
    HeaderIsFirstByte(payload);
  }
}
