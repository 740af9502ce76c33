# Huffman codec and page-script logic of the secure image compressor

This project models, in Dafny, the two pieces of real logic in the secure
image compressor:

- the static Huffman codec of `compression/huffman.py`. It counts byte
  frequencies, builds a tree by merging the two lightest nodes, reads a
  code table off the tree paths (left `0`, right `1`), packs the encoded
  bits behind a one-byte padding header, most significant bit first, and
  decodes greedily against the inverted table;
- three pure pieces of `static/script.js`: the password-strength meter,
  the upload file-type check, and the notification icon and color tables.

The model follows the code as written:

- An input with a single distinct byte value gets the empty code. It
  compresses to the two bytes `[8, 0]` and decompresses to nothing.
- Bits left over at the end of decoding are dropped without an error.

`build_codes` has no special case for a tree that is a single leaf, and
the decoding loop raises no error when bits are left over; the model keeps
both behaviours.

Modules, one per concern of the source:

| file | module | models |
|---|---|---|
| `bitstrings.dfy` | `BitStrings` | `f"{n:08b}"`, `int(s, 2)`, and bytes to and from bit strings |
| `frequency.dfy` | `Frequency` | `build_frequency_table` |
| `tree.dfy` | `HuffmanTree` | `Node`, `Node.__lt__`, `heapq.heappop`, `build_huffman_tree` |
| `codes.dfy` | `Codes` | `build_codes` |
| `codec.dfy` | `Huffman` | `compress`, `decompress` |
| `codec_properties.dfy` | `HuffmanProperties` | the round trip and the other laws that link the two |
| `frontend.dfy` | `FrontEnd` | `calculatePasswordStrength`, the `allowedTypes.some(...)` check, `getNotificationIcon`, `getNotificationColor` |
| `wrappers.dfy` | `Wrappers` | `Option` and `Result` for the operations that raise |

Other modelling choices:

- Bytes are the integers 0..255 and bit strings are `seq<bool>`.
- `compress` on empty input fails with `EmptyAlphabet`, because `heap[0]`
  is read on an empty heap.
- `decompress` on an empty payload fails with `MissingHeader`, because
  `int("", 2)` is evaluated.

## Model

| member | source | states |
|---|---|---|
| `Frequency.Bump` | compression/huffman.py:15-17 | `freq[byte] += 1` on a `defaultdict(int)`: a missing key starts from 0; `Frequency.BumpCounts` proves one bump keeps the table counting the input extended by that byte |
| `Frequency.BuildFrequencyTable` | compression/huffman.py:14-18 | the table has exactly the distinct byte values of the input as keys, and each count is that value's number of occurrences |
| `Frequency.CountsSumToLength` | compression/huffman.py:14-18 | the counts of any table that counts the input sum to the input's length |
| `HuffmanTree.Less` | compression/huffman.py:11-12 | `__lt__` compares the counts only; `HuffmanTree.PopMin` states the pop in its terms |
| `HuffmanTree.PopMin` | compression/huffman.py:25-26 | `heappop` removes one node of the heap (the rest keep their order), and no remaining node is `__lt__` the one returned |
| `HuffmanTree.InitialHeap` | compression/huffman.py:21-22 | the seeded heap holds only leaves, one per table entry with that entry's count, and its counts sum to the table's total |
| `HuffmanTree.MergeStep` | compression/huffman.py:24-30 | popping two nodes and pushing a node that merges them, with the sum of their counts, keeps the heap a forest for the table: one leaf per distinct byte value, counts consistent with the table, and an unchanged total |
| `HuffmanTree.BuildHuffmanTree` | compression/huffman.py:20-32 | the build fails exactly for an empty table; otherwise the root's leaves are exactly the table's byte values, each once, every count is consistent, and the root's count is the table's total |
| `HuffmanTree.FinalHeap` | compression/huffman.py:24-32 | when the loop stops, the heap is empty exactly for an empty table, and otherwise its single node is the root |
| `HuffmanTree.MergedHasTwoSymbols` | compression/huffman.py:27-29 | a merged node with distinct leaves has at least two different byte values below it |
| `Codes.CodeMap` | compression/huffman.py:34-47 | the code table of a subtree has one key per leaf; every code extends the path to the subtree; below a merged node every code is longer than that path |
| `Codes.BuildCodes` | compression/huffman.py:34-47 | the traversal that writes into the shared map leaves it equal to the old map updated with the subtree's code table |
| `Codes.CodeMapPrefixFree` | compression/huffman.py:41-45 | for a tree with distinct leaves, no code is a prefix of another byte value's code |
| `Codes.TreeCodeTable` | compression/huffman.py:41-45 | the tree's table covers exactly the input's distinct byte values, is prefix-free, and gives the empty code exactly when there is a single distinct byte value |
| `Codes.PrefixFreeInjective` | compression/huffman.py:65 | distinct byte values of a prefix-free table have distinct codes, so inverting the table loses no entry |
| `Huffman.EncodeBits` | compression/huffman.py:54 | the codes of the input's bytes, concatenated in input order; `HuffmanProperties.DecodeEncoded` and `HuffmanProperties.UniqueParse` are its inverse laws |
| `Huffman.Padding` | compression/huffman.py:55 | the padding is between 1 and 8 and completes the encoded bits to a whole number of bytes |
| `Huffman.Framed` | compression/huffman.py:55-56 | the eight-bit padding header, the encoded bits and the padding's zero bits, which always make a whole number of bytes |
| `Huffman.Pack` | compression/huffman.py:58-60 | the packing loop turns each group of eight bits into the byte `int(bits, 2)` |
| `Huffman.Compress` | compression/huffman.py:49-62 | compression fails exactly on empty input; otherwise the table is valid for the input and the payload is the packed framing of the encoded input |
| `Huffman.Reverse` | compression/huffman.py:65 | the inverted table `{v: k for k, v in codes.items()}`; `Huffman.ReverseInverts` states what it holds |
| `Huffman.ReverseInverts` | compression/huffman.py:65 | the inverted table has exactly the table's codes as keys, and maps each code to a byte value that has that code |
| `Huffman.Strip` | compression/huffman.py:68-69 | the stream after the header is a prefix of the bits after the header: all of them for a padding of 0, otherwise `padding` fewer, and empty when the padding reaches into the header, as Python's slice clamps |
| `Huffman.Greedy` | compression/huffman.py:71-78 | greedy decoding emits at most one byte per bit read |
| `Huffman.Decompressed` | compression/huffman.py:64-80 | decompression fails only on an empty payload, and otherwise emits at most one byte per bit after the header |
| `Huffman.Decompress` | compression/huffman.py:64-80 | the bit-by-bit loop with its accumulator returns what greedy decoding of the stripped stream gives |
| `BitStrings.ValueOf` | compression/huffman.py:60 | `int(bits, 2)`: the number the bits spell, most significant bit first, below 2 to the power of their count |
| `BitStrings.ByteBits` | compression/huffman.py:56 | `f"{b:08b}"`: exactly eight bits, which read back as `b` by `BitStrings.ValueOfBinary` |
| `BitStrings.Unpack` | compression/huffman.py:66 | `''.join(f"{byte:08b}" for byte in data)`: eight bits per byte |
| `BitStrings.Packed` | compression/huffman.py:58-60 | one byte per group of eight bits, each group read as `int(group, 2)`; `BitStrings.UnpackPacked` and `BitStrings.PackedUnpack` make it the inverse of `BitStrings.Unpack` |
| `BitStrings.ValueOfBinary` | compression/huffman.py:56 | a value written as a fixed-width binary string reads back as the same value |
| `BitStrings.BinaryOfValue` | compression/huffman.py:60 | a bit string read as a number and written back at its width is unchanged |
| `BitStrings.UnpackPacked` | compression/huffman.py:58-66 | the bit string that `decompress` rebuilds from the packed bytes is the bit string that was packed |
| `BitStrings.PackedUnpack` | compression/huffman.py:58-66 | packing the bit string of a byte buffer gives back the buffer |
| `BitStrings.PackedMsbFirst` | compression/huffman.py:58-60 | each packed byte holds its first bit as its most significant one and its last bit as its least significant one |
| `HuffmanProperties.HeaderIsFirstByte` | compression/huffman.py:66-68 | the padding read from the first eight bits is the first byte of the payload |
| `HuffmanProperties.FrameLayout` | compression/huffman.py:54-62 | the payload has exactly `2 + L div 8` bytes; its first byte is the padding, in 1..8; after it come the encoded bits and then that many zero bits |
| `HuffmanProperties.PaddingBitsAreZero` | compression/huffman.py:56 | every bit after the encoded stream is zero |
| `HuffmanProperties.GreedyCompletesCode` | compression/huffman.py:71-78 | with a prefix-free table, the bits that complete a byte value's code emit exactly that byte value and reset the accumulator |
| `HuffmanProperties.CodeLooksUp` | compression/huffman.py:65-77 | with a prefix-free table, each byte value's code is in the inverted table and looks up that byte value |
| `HuffmanProperties.ProperPrefixIsNoCode` | compression/huffman.py:76 | with a prefix-free table, a proper prefix of a code is not in the inverted table, so decoding keeps accumulating |
| `HuffmanProperties.DecodeEncoded` | compression/huffman.py:71-78 | with a prefix-free table of non-empty codes, decoding an encoded input followed by any bits gives the input, then the decoding of those bits |
| `HuffmanProperties.GreedyUnmatched` | compression/huffman.py:71-80 | bits that never complete a code are dropped and emit nothing |
| `HuffmanProperties.TrailingBitsDropped` | compression/huffman.py:71-80 | trailing bits that form no code are discarded without an error, and the encoded input still decodes in full |
| `HuffmanProperties.UniqueParse` | compression/huffman.py:71-78 | with a prefix-free table of non-empty codes, two inputs with the same encoding are equal |
| `HuffmanProperties.RoundTrip` | compression/huffman.py:49-80 | for every input with two or more distinct byte values, decompressing the output of compression gives back exactly the input |
| `HuffmanProperties.SingleSymbolLost` | compression/huffman.py:41-69 | an input with one distinct byte value gets the empty code, compresses to `[8, 0]` whatever its length, and decompresses to empty bytes |
| `HuffmanProperties.EmptyStreamPayload` | compression/huffman.py:54-60 | an empty encoded stream is framed as a full byte of padding, giving the payload `[8, 0]` |
| `HuffmanProperties.ZeroHeaderStripsNothing` | compression/huffman.py:68-69 | a header of 0 strips nothing, and every bit after the header is decoded |
| `HuffmanProperties.OversizedHeaderEmpties` | compression/huffman.py:68-69 | a header at least as large as the number of bits after it leaves an empty stream, so the result is empty bytes |
| `FrontEnd.JsLength` | static/script.js:114-115 | a password's `length` in UTF-16 code units lies between its character count and twice that count |
| `FrontEnd.Score` | static/script.js:111-121 | two length points (8 and 12 code units) plus one point per character class present; `FrontEnd.StrengthBands` bounds it by 0..6 |
| `FrontEnd.PasswordStrength` | static/script.js:110-126 | `calculatePasswordStrength`: the band of the score, as `FrontEnd.StrengthBands` states both ways |
| `FrontEnd.StrengthBands` | static/script.js:110-126 | the score is in 0..6, and the result is weak for a score of at most 2, medium for 3 to 4 and strong for 5 to 6 |
| `FrontEnd.ShortPasswordNeverStrong` | static/script.js:114-125 | a password under 8 code units scores at most 4 and is never strong |
| `FrontEnd.EmptyPasswordIsWeak` | static/script.js:110-126 | the empty password scores 0 and is weak |
| `FrontEnd.LongVariedPasswordIsStrong` | static/script.js:114-125 | 12 or more code units with all four character classes scores 6 and is strong |
| `FrontEnd.RepeatedClassAddsNothing` | static/script.js:118-121 | another character of a class already present adds no class point, and raises the score by at most one (a length point) |
| `FrontEnd.ScoreMonotone` | static/script.js:113-121 | typing one more character never lowers the score |
| `FrontEnd.ToLowerCase` | static/script.js:36 | `toLowerCase` keeps the length; no character of the result is an upper-case letter; an upper-case letter moves 32 code points up to its lower-case partner, and every other character is kept |
| `FrontEnd.LowerCaseIdempotent` | static/script.js:36 | lower-casing twice is the same as lower-casing once |
| `FrontEnd.Accepts` | static/script.js:34-39 | the `some` callback: a type starting with `.` matches the lower-cased name's suffix, any other type the MIME type exactly |
| `FrontEnd.IsValidFile` | static/script.js:34-40 | a file is valid exactly when some allowed type accepts it |
| `FrontEnd.ImageInputChecksMime` | static/script.js:16-40 | the image input accepts a file exactly when its MIME type is one of the four image types, whatever its name |
| `FrontEnd.PackageInputChecksExtension` | static/script.js:22-40 | the package input accepts a file exactly when its lower-cased name ends in `.huffimg`, whatever its MIME type |
| `FrontEnd.UpperCasePackageNameAccepted` | static/script.js:34-36 | `X.HUFFIMG` is accepted for `.huffimg` |
| `FrontEnd.ExtensionIgnoresCaseAndMime` | static/script.js:35-36 | an extension type gives the same verdict for two names that lower-case alike, whatever the MIME types |
| `FrontEnd.UpperCaseExtensionMatchesNothing` | static/script.js:35-36 | an extension type containing an upper-case letter accepts no file, since the name is lower-cased first |
| `FrontEnd.EntryOrInfo` | static/script.js:254 | `table[type] \|\| table.info`: the entry of a known type unless it is empty, the `info` entry otherwise (also line 264) |
| `FrontEnd.NotificationIcon` | static/script.js:247-255 | the icon is always one of the table's icons: the mapped one for a known type, and the `info` one for any other type |
| `FrontEnd.NotificationColor` | static/script.js:257-265 | the color is always one of the table's colors: the mapped one for a known type, and the `info` one for any other type |
| `FrontEnd.FallbackTogether` | static/script.js:247-265 | icon and color both fall back to `info` for the same types: exactly the unknown ones and `info` itself |

## Left out

- HuffmanTree.BuildHuffmanTree: the exact tree shape when counts tie is not modelled. `Node.__lt__` compares counts only, so the shape on ties depends on the internal order of `heapq`. The model seeds the heap in ascending byte order and pops the first minimum in list order. It proves only properties that hold for every tie-break.
- Huffman.Compress: the code table is stated by the properties every tie-break shares, not as one particular table.
- Huffman.Reverse: when two byte values share a code, the Python dictionary keeps the one that comes later in dictionary order. The model keeps the greater byte value. This cannot happen for a table that `compress` built.
- Nodes are immutable values in the model. The source sets `left` and `right` once, right after creating a merged node, and never shares a node, so no aliasing is lost.
- The heap is a plain list with a minimum search. The heap-array layout that `heapq` maintains is not modelled, and neither is Huffman optimality, which the code does not promise.
- `app.py` is not part of this model: HTTP routes, uploads, templates, fixed output paths and the PIL image re-encoding are I/O and foreign libraries.
- The container around the payload is not modelled. It is serialized with `pickle`, a foreign and opaque serializer.
- The unpack route's order of checks is not modelled. Every step is a foreign call (decrypt, unpickle, SHA-256 compare, RSA-PSS verify).
- `compression/encryption.py` (SHA-256 key derivation and Fernet encryption) is foreign cryptography and is not part of this model.
- `compression/signature.py` (RSA-PSS signatures, section 8.1 of RFC 8017) is foreign, randomized cryptography and is not part of this model.
- `generate_keys.py` is key generation, file writes and interactive input, and is not part of this model.
- The DOM and timer wiring of `static/script.js` is UI and is not modelled: event listeners, `setTimeout`, `FileReader` and notification display. The same goes for `secure-image-compressor/script.js`.
- `formatFileSize` is not modelled, because it is floating-point arithmetic (`Math.log`, `Math.pow`, `toFixed`).
- FrontEnd.ToLowerCase: lower-cases the ASCII letters only. JavaScript's `toLowerCase` also lower-cases other Unicode letters.
- FrontEnd.NotificationIcon: a JavaScript object lookup also finds inherited properties such as `constructor`. The model treats such types as unknown and returns the `info` entry.
- FrontEnd.NotificationColor: the same inherited-property case as the icon table; the model returns the `info` color for such types.
