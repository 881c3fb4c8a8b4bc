# LoxCC decompressor, modelled in Dafny

Loxone Miniserver files can be stored in a compressed "LoxCC" container. The
container has a 16-byte header:

- a little-endian 32-bit signature `0xAABBCCEE`;
- the compressed size;
- a size hint (roughly the uncompressed length);
- a field of unknown purpose.

The header is followed by the compressed payload. The payload is a stream of
LZ4-style tokens. Each token has these parts:

- A control byte. Its high nibble is the literal count. A count of 15 is extended
  by exactly one more byte.
- The literal bytes, copied to the output unchanged.
- A stop, if the payload ends here.
- A two-byte little-endian back-reference distance.
- A back-reference length: 4 plus the low nibble. A nibble of 15 is extended by a
  chain of bytes that goes on while each byte is 0xFF.

The back-reference is copied one byte at a time. Each byte is read `distance`
bytes before the current end of the output, so a copy may read bytes it has just
written.

The project models the decompressor script `bin/libs/Loxone/unpack_loxcc.py`,
lines 20–69. It has three layers.

- **Specification functions.**
  - `LoxContainer.ParseContainer` reads the header and slices out the payload.
  - `TokenStream.ReadToken` reads one token.
  - `TokenStream.ApplyToken` and `TokenStream.CopyBack` extend the output.
  - `TokenStream.DecodeFrom` and `TokenStream.Decompress` decode token by token,
    as the script does.
  - `TokenStream.Tokenize` and `TokenStream.Run` are a second formulation, built
    from the same `ReadToken` and `ApplyToken`: first read all tokens, then apply
    them. `TokenLaws.DecodeFromIsRun` shows that interleaving reading with
    applying changes nothing.
- **Laws about them.**
  - Encoders for every field, and round-trip lemmas that read each encoding back.
  - The equivalence of the interleaved decoder with tokenize-then-apply.
  - The closed form of the overlapping copy: it repeats the last `distance`
    bytes with period `distance`.
  - The output length.
  - Worked examples.
- **The script's loops as methods** (module `Decoder`).
  - `Decode` is the main `while index < len(data)` loop.
  - `DecodeToken` is one pass of that loop: it reads one token as `ReadToken` does
    and applies it as `ApplyToken` does.
  - `ReadCount` reads the literal count, `ReadLength` the `while True` length chain,
    and `CopyBytesBack` the byte-by-byte `while bytesBackCopied > 0` copy.
  - Each method is proved to compute the corresponding specification function.
  - `Unpack` is the whole script from header to output.

Bytes are integers in `0..255`. Malformed input gets an explicit outcome, where the
script would raise a Python exception or use a clamped slice:

- `InvalidMagic`: wrong signature;
- `TruncatedInput`: input ends too early;
- `InvalidDistance`: back-reference distance 0, or reaching before the start of
  the output.

## Model

| member | source | states |
|---|---|---|
| Bytes.HighNibble | bin/libs/Loxone/unpack_loxcc.py:37 | `byte >> 4` is below 16 and is the byte's sixteens digit |
| Bytes.LowNibble | bin/libs/Loxone/unpack_loxcc.py:38 | `byte & 0xf` is below 16, and high nibble × 16 plus low nibble gives the byte back |
| Bytes.Nibbles | bin/libs/Loxone/unpack_loxcc.py:37-38 | joining two nibbles into a byte is undone by the nibble split |
| Bytes.LeU16 | bin/libs/Loxone/unpack_loxcc.py:49 | struct `<H` gives a value below 2^16 |
| Bytes.LeU32 | bin/libs/Loxone/unpack_loxcc.py:21 | struct `<L` gives a value below 2^32 |
| Bytes.U16RoundTrip | bin/libs/Loxone/unpack_loxcc.py:49 | the two little-endian bytes of any 16-bit value read back as that value, wherever they sit |
| Bytes.U32RoundTrip | bin/libs/Loxone/unpack_loxcc.py:21-23 | the four little-endian bytes of any 32-bit value read back as that value, wherever they sit |
| Bytes.U16Injective | bin/libs/Loxone/unpack_loxcc.py:49 | two byte pairs with the same `<H` value are equal |
| LoxContainer.ParseContainer | bin/libs/Loxone/unpack_loxcc.py:21-26 | `InvalidMagic` exactly when 4 bytes are there and they are not `0xAABBCCEE`, and every other failure (short signature, header or payload) is `TruncatedInput`; success exactly when the magic matches and the 16-byte header and `compressedSize` payload bytes are present; the header fields are the little-endian words at offsets 4, 8 and 12, and the payload is exactly the `compressedSize` bytes right after the header |
| LoxContainer.ParseEncoded | bin/libs/Loxone/unpack_loxcc.py:21-26 | parsing a built container, with any trailing bytes, returns its header fields and exactly its payload |
| LoxContainer.HintAndReservedIgnored | bin/libs/Loxone/unpack_loxcc.py:23-25 | header bytes 8..16 (`header3`, `header4`) never change whether parsing succeeds, its error or the payload |
| TokenStream.ReadLiteralCount | bin/libs/Loxone/unpack_loxcc.py:35-41 | the count is the high nibble, plus exactly one extension byte when the nibble is 15, so it is at most 270; fails exactly when the extension byte is missing |
| TokenStream.ReadChain | bin/libs/Loxone/unpack_loxcc.py:56-61 | a length chain either runs off the payload (truncated) or ends strictly after its start with a sum no smaller than the starting value |
| TokenStream.ReadCopyLength | bin/libs/Loxone/unpack_loxcc.py:53-61 | the length is 4 + low nibble with nothing consumed when the nibble is below 15, and the 0xFF chain otherwise; never below 4 + nibble |
| TokenStream.ReadToken | bin/libs/Loxone/unpack_loxcc.py:35-61 | a token read consumes its control byte and literals and stays within the payload; at most 270 literals; a token without a back-reference only at the end of the payload; distance below 2^16 and length at least 4 + low nibble |
| TokenStream.CopyBack | bin/libs/Loxone/unpack_loxcc.py:64-69 | a copy of length L appends exactly L bytes, leaves the old output unchanged, and each appended byte equals the byte `distance` before it |
| TokenStream.ApplyToken | bin/libs/Loxone/unpack_loxcc.py:42-69 | rejected exactly when the distance is 0 or reaches before the output start; otherwise the old output is kept, the literals follow unchanged, the length grows by literals plus copy length, and the result is the old output plus the literals, followed by the byte-by-byte `CopyBack` of that with the token's distance and length |
| TokenStream.DecodeFrom | bin/libs/Loxone/unpack_loxcc.py:29-69 | at the payload end the output is returned as it stands; decoding only appends to the output produced so far; the only errors are truncated input and a bad distance |
| TokenStream.Decompress | bin/libs/Loxone/unpack_loxcc.py:27-69 | an empty payload decodes to nothing; decoding never reports a signature error. Its main laws are `TokenLaws.DecompressByTokens`, `TokenLaws.DecompressEncoded` and `TokenLaws.RunLength` |
| CopyLaws.CopyBackAt | bin/libs/Loxone/unpack_loxcc.py:64-69 | the k-th copied byte is `out0[len(out0) - d + k mod d]` of the output before the copy |
| CopyLaws.CopyBackIsPeriodic | bin/libs/Loxone/unpack_loxcc.py:64-69 | the byte-by-byte copy equals the closed formula: the old output followed by the period-`d` repetition of its last `d` bytes |
| CopyLaws.RunLengthCopy | bin/libs/Loxone/unpack_loxcc.py:62-69 | distance 1 appends L copies of the last byte |
| CopyLaws.NonOverlappingCopy | bin/libs/Loxone/unpack_loxcc.py:62-69 | a copy no longer than its distance appends one slice of the old output |
| TokenLaws.LiteralCountRoundTrip | bin/libs/Loxone/unpack_loxcc.py:35-41 | every count 0..270 with any low nibble is encoded so that it reads back exactly, consuming one or two bytes |
| TokenLaws.ReadTokenLiterals | bin/libs/Loxone/unpack_loxcc.py:42-46 | a token's literals are exactly the payload bytes after its count, in order; it has no back-reference exactly when they reach the payload end |
| TokenLaws.LiteralCountExamples | bin/libs/Loxone/unpack_loxcc.py:39-41 | `F0 00` gives 15, `F0 05` gives 20, a lone `F0` is truncated, `3A` gives 3 |
| TokenLaws.ChainShape | bin/libs/Loxone/unpack_loxcc.py:56-61 | a chain fails exactly when every remaining byte is 0xFF; otherwise it ends at the first non-0xFF byte, which it includes, and its sum is 255 per 0xFF byte plus that byte |
| TokenLaws.ChainRoundTrip | bin/libs/Loxone/unpack_loxcc.py:56-61 | every extension amount is encoded as a chain that reads back exactly and is consumed exactly |
| TokenLaws.CopyLengthExamples | bin/libs/Loxone/unpack_loxcc.py:53-61 | nibble 15 with `FF FF 0A` gives 539, with `FF FF` is truncated; nibble 3 gives 7 and reads nothing |
| TokenLaws.CopyLengthRoundTrip | bin/libs/Loxone/unpack_loxcc.py:49-61 | every back-reference length of at least 4 is encoded so that it reads back exactly |
| TokenLaws.TokenRoundTrip | bin/libs/Loxone/unpack_loxcc.py:35-61 | every well-formed token is encoded so that it reads back as itself, ending right after its encoding |
| TokenLaws.TokenizeEncoded | bin/libs/Loxone/unpack_loxcc.py:29-61 | reading the tokens of an encoded well-formed token sequence gives back that sequence |
| TokenLaws.TokenizeWellFormed | bin/libs/Loxone/unpack_loxcc.py:29-61 | every token sequence read from a payload is well formed; only the last token may lack a back-reference |
| TokenLaws.DecodeFromIsRun | bin/libs/Loxone/unpack_loxcc.py:29-69 | decoding token by token equals reading all tokens and then applying them; if reading fails, decoding fails |
| TokenLaws.RunLength | bin/libs/Loxone/unpack_loxcc.py:42-69 | applying tokens grows the output by the sum of their literal counts and copy lengths |
| TokenLaws.DecompressByTokens | bin/libs/Loxone/unpack_loxcc.py:29-69 | a payload decodes exactly when its tokens read and apply, to the same bytes; the decoded length is the tokens' total length |
| TokenLaws.DecompressEncoded | bin/libs/Loxone/unpack_loxcc.py:29-69 | decompressing an encoded well-formed token sequence applies exactly those tokens |
| TokenLaws.LiteralOnlyPayload | bin/libs/Loxone/unpack_loxcc.py:45-46 | `10 41` decodes to `A` and stops without reading a distance |
| TokenLaws.RunLengthPayload | bin/libs/Loxone/unpack_loxcc.py:62-69 | `20 41 42 01 00` decodes to `ABBBBB` |
| TokenLaws.InvalidDistancePayloads | bin/libs/Loxone/unpack_loxcc.py:65-68 | after one literal, distance 0 and distance 2 are rejected |
| Decoder.SourceCopyStep | bin/libs/Loxone/unpack_loxcc.py:65-68 | the script's copy step `resultStr[-d:]` or `resultStr[-d:-d+1]` appends at most one byte |
| Decoder.PyClamp | bin/libs/Loxone/unpack_loxcc.py:66-68 | a Python slice bound lies in `0..n`; a bound inside the sequence is kept, a negative one counts from the end, and a bound past either end is clamped to 0 or `n` |
| Decoder.SourceCopyStepValid | bin/libs/Loxone/unpack_loxcc.py:65-68 | for 1 ≤ d ≤ len(out), both slice forms of the copy step append exactly the byte d before the end |
| Decoder.SourceCopyStepInvalid | bin/libs/Loxone/unpack_loxcc.py:65-68 | without a check, the slices append `out[0]` for d = 0 and nothing for d beyond the output start or for any d into an empty output |
| Decoder.ReadCount | bin/libs/Loxone/unpack_loxcc.py:35-41 | the imperative literal-count read computes `ReadLiteralCount` |
| Decoder.ReadLength | bin/libs/Loxone/unpack_loxcc.py:53-61 | the `while True` chain loop computes `ReadCopyLength`, including a truncated chain |
| Decoder.CopyBytesBack | bin/libs/Loxone/unpack_loxcc.py:64-69 | the `while bytesBackCopied > 0` loop with its two slice forms computes `CopyBack` |
| Decoder.DecodeToken | bin/libs/Loxone/unpack_loxcc.py:35-69 | one pass of the main loop reads the token at the cursor as `ReadToken` does and extends the output as `ApplyToken` does, moving the cursor to the end of that token, strictly forward and within the payload; a failure is the error of that read or of that apply, and is the error decoding ends with; after a successful pass the rest of decoding is unchanged |
| Decoder.Decode | bin/libs/Loxone/unpack_loxcc.py:27-69 | the main loop returns exactly `Decompress(data)` |
| Decoder.Unpacked | bin/libs/Loxone/unpack_loxcc.py:21-22 | nothing is decoded unless the input starts with the magic word; a wrong signature is `InvalidMagic` |
| Decoder.Unpack | bin/libs/Loxone/unpack_loxcc.py:21-29 | header check, payload slice and decoding compute `Unpacked(input)` |
| Decoder.UnpackEncoded | bin/libs/Loxone/unpack_loxcc.py:21-69 | a container around an encoded well-formed token sequence, with any size hint, reserved field and trailing bytes, unpacks to those tokens applied to an empty output |

## Left out

- Command-line handling (`sys.argv`, `print`, `sys.exit`, lines 12–18 and 72–74)
  is not modelled. A wrong signature is the `InvalidMagic` outcome instead of a
  message and exit status 1.
- File I/O is not modelled (lines 20 and 70–71). The input is a byte sequence and
  the output is returned. Python 2 text mode and the str type have no
  counterpart: bytes are integers 0..255.
- The unused `s4ltmp` path (line 11) is not modelled.
- The meaning of `header3` and `header4` is not modelled: the script reads but
  never uses them. `LoxContainer.HintAndReservedIgnored` shows they have no
  effect.
- ParseContainer: the script's `f.read(compressedSize)` silently returns fewer
  bytes when the file is short, and decodes them. The model reports
  `TruncatedInput` instead. A short header, where `struct.unpack` raises, is also
  `TruncatedInput`.
- ReadToken: a literal run longer than the rest of the payload is silently cut
  short by Python's slice at line 43, and the loop then stops at line 45. The
  model reports `TruncatedInput`.
- ReadToken: every other read past the end is `TruncatedInput`: a missing
  extension byte (line 40), a lone distance byte (line 49), a chain that runs off
  the payload (line 57). In the script these raise `IndexError` or
  `struct.error`.
- ApplyToken: the script never checks the distance. With distance 0 it appends
  the first output byte; with a distance reaching before the output start it
  appends nothing (`Decoder.SourceCopyStepInvalid`). The model rejects both with
  `InvalidDistance`. The check happens at the copy step, after the length chain is
  read, so a truncated chain is reported before a bad distance in the same token.
- Python exceptions are not modelled as such. Each one becomes one of the explicit
  error outcomes above.
