/**
 * `compress` and `decompress`: the code table applied to the input, framed
 * behind a one-byte padding header and packed into bytes; and the reverse
 * walk that reads the header, drops the padding and decodes greedily.
 */
module Huffman {
  import opened BitStrings
  import opened Frequency
  import opened HuffmanTree
  import opened Codes
  import opened Wrappers

  datatype HuffmanError =
    | EmptyAlphabet  // `heap[0]` on the empty heap of an empty input
    | MissingHeader  // `int("", 2)` on an empty payload

  /** The two results of `compress`: the packed bytes and the code table. */
  datatype Compressed = Compressed(payload: seq<Byte>, codes: CodeTable)

  /** `''.join(codes[byte] for byte in data)` */
  function EncodeBits(data: seq<Byte>, codes: CodeTable): Bits
    requires forall b :: b in data ==> b in codes
  {
    if data == [] then [] else codes[data[0]] + EncodeBits(data[1..], codes)
  }

  /** `8 - len(encoded) % 8`: the zero bits that complete the last byte, a whole byte when none are missing. */
  function Padding(n: nat): (p: nat)
    ensures 1 <= p <= 8 && (n + p) % 8 == 0
    ensures (8 + n + p) % 8 == 0
  {
    assert n + (8 - n % 8) == 8 * (n / 8 + 1);
    8 - n % 8
  }

  /** `f"{padding:08b}" + encoded + '0' * padding` */
  function Framed(encoded: Bits): (framed: Bits)
    ensures |framed| % 8 == 0
  {
    var padding := Padding(|encoded|);
    assert |ByteBits(padding) + encoded + Zeros(padding)| == 8 + |encoded| + padding;
    ByteBits(padding) + encoded + Zeros(padding)
  }

  /** The packing loop of `compress`: eight bits at a time, each group read as one byte. */
  method Pack(bits: Bits) returns (out: seq<Byte>)
    requires |bits| % 8 == 0
    ensures out == Packed(bits)
  {
    out := [];
    var i := 0;
    while i < |bits|
      invariant 0 <= i <= |bits| && i % 8 == 0
      invariant out + Packed(bits[i..]) == Packed(bits)
    {
      assert Pow2(|bits[i..i + 8]|) == 256;
      assert bits[i..][..8] == bits[i..i + 8] && bits[i..][8..] == bits[i + 8..];
      out := out + [ValueOf(bits[i..i + 8])];
      i := i + 8;
    }
  }

  method Compress(data: seq<Byte>) returns (r: Result<Compressed, HuffmanError>)
    ensures r.Failure? <==> data == []
    ensures r.Failure? ==> r.error == EmptyAlphabet
    ensures r.Success? ==> ValidCodeTable(r.value.codes, data)
    ensures r.Success? ==> r.value.payload == Packed(Framed(EncodeBits(data, r.value.codes)))
  {
    var freq := BuildFrequencyTable(data);
    var root := BuildHuffmanTree(freq);
    EmptyTable(freq, data);
    if root.None? {
      return Failure(EmptyAlphabet);
    }
    var codes := BuildCodes(root.value, [], map[]);
    assert codes == CodeMap(root.value, []);
    TableCodes(root.value, freq, data);

    var encoded := EncodeBits(data, codes);
    var padding := Padding(|encoded|);
    var framed := ByteBits(padding) + encoded + Zeros(padding);
    var payload := Pack(framed);
    return Success(Compressed(payload, codes));
  }

  /** The table of an input is empty exactly when the input is. */
  lemma EmptyTable(freq: FrequencyTable, data: seq<Byte>)
    requires CountsOf(freq, data)
    ensures |freq| == 0 <==> data == []
  {
    if data != [] {
      assert data[0] in freq;
    } else {
      assert freq.Keys == {};
    }
  }

  /** The codes of a tree with one leaf per distinct byte value of the input form a valid table for it. */
  lemma TableCodes(root: Node, freq: FrequencyTable, data: seq<Byte>)
    requires CountsOf(freq, data)
    requires OneLeafPerKey(Leaves(root), freq, 256)
    ensures ValidCodeTable(CodeMap(root, []), data)
  {
    KeyLeavesUnique(root, freq);
    TreeCodeTable(root, data);
  }

  /**
   * `{v: k for k, v in codes.items()}`. Where two byte values share a code
   * the dictionary keeps the later one; here the greater byte value is kept.
   */
  function Reverse(codes: CodeTable): map<Bits, Byte> {
    map c | c in codes.Values :: LastKeyWith(codes, c, 255)
  }

  /** The inverted table maps exactly the codes of the table, each to a byte value with that code. */
  lemma ReverseInverts(codes: CodeTable)
    ensures forall c :: c in Reverse(codes) <==> c in codes.Values
    ensures forall c :: c in Reverse(codes) ==> Reverse(codes)[c] in codes && codes[Reverse(codes)[c]] == c
  {
  }

  function LastKeyWith(codes: CodeTable, c: Bits, k: int): (b: Byte)
    requires k <= 255
    requires exists b: Byte :: b <= k && b in codes && codes[b] == c
    ensures b <= k && b in codes && codes[b] == c
    decreases k
  {
    if k in codes && codes[k] == c then k else LastKeyWith(codes, c, k - 1)
  }

  /**
   * The decoding loop of `decompress` from a given accumulator `current`:
   * each bit extends the accumulator; when it equals a code, that code's
   * byte is emitted and the accumulator starts again empty. Bits left in
   * the accumulator at the end are dropped.
   */
  function Greedy(bits: Bits, reverse: map<Bits, Byte>, current: Bits): (out: seq<Byte>)
    ensures |out| <= |bits|
  {
    if bits == [] then []
    else
      var code := current + [bits[0]];
      if code in reverse then [reverse[code]] + Greedy(bits[1..], reverse, [])
      else Greedy(bits[1..], reverse, code)
  }

  /**
   * `bit_string[8:-padding] if padding > 0 else bit_string[8:]`, where a
   * slice whose end falls before its start is empty.
   */
  function Strip(bits: Bits, padding: nat): (stream: Bits)
    requires |bits| >= 8
    ensures stream <= bits[8..]
    ensures padding == 0 ==> stream == bits[8..]
    ensures |bits| - 8 - padding >= 0 ==> |stream| == |bits| - 8 - padding
    ensures |bits| - 8 - padding < 0 ==> stream == []
  {
    if padding == 0 then bits[8..]
    else if |bits| - padding > 8 then bits[8..|bits| - padding]
    else []
  }

  /** What `decompress` returns. */
  function Decompressed(payload: seq<Byte>, codes: CodeTable): (r: Result<seq<Byte>, HuffmanError>)
    ensures r.Failure? <==> payload == []
    ensures r.Success? ==> |r.value| <= 8 * |payload| - 8
  {
    var bits := Unpack(payload);
    if bits == [] then Failure(MissingHeader)
    else Success(Greedy(Strip(bits, ValueOf(bits[..8])), Reverse(codes), []))
  }

  method Decompress(payload: seq<Byte>, codes: CodeTable) returns (r: Result<seq<Byte>, HuffmanError>)
    ensures r == Decompressed(payload, codes)
  {
    var reverseCodes := Reverse(codes);
    var bitString := Unpack(payload);
    if bitString == [] {
      return Failure(MissingHeader);
    }
    var padding := ValueOf(bitString[..8]);
    var stream := Strip(bitString, padding);

    var currentCode: Bits := [];
    var output: seq<Byte> := [];
    for i := 0 to |stream|
      invariant output + Greedy(stream[i..], reverseCodes, currentCode) == Greedy(stream, reverseCodes, [])
    {
      assert stream[i..][1..] == stream[i + 1..];
      currentCode := currentCode + [stream[i]];
      if currentCode in reverseCodes {
        output := output + [reverseCodes[currentCode]];
        currentCode := [];
      }
    }
    assert Greedy(stream[|stream|..], reverseCodes, currentCode) == [];
    assert output + [] == output;
    return Success(output);
  }
}
