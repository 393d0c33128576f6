# Base64 codec of the gb_base64 MySQL UDFs, in Dafny

This project models the codec at the core of `udf_gbbase64.c`. The file
provides two MySQL user-defined functions, `gb_base64_encode` and
`gb_base64_decode`.

- `base64_encode` packs up to three input bytes into a 24-bit `chunk`. It
  writes four symbols of the alphabet `A-Z a-z 0-9 + /` for each chunk. A
  short last chunk ends in `=` or `==`.
- `base64_decode` is a lenient bit accumulator. Its state is `buf`, `nbits`
  and `offset`. It takes six bits from every alphabet symbol and skips every
  other byte, `=` and whitespace included. It emits one byte whenever eight
  or more bits are buffered, and drops fewer than eight leftover bits.
- The init functions reserve `4 * len / 3 + 3` bytes for encoding and
  `3 * len / 4` bytes for decoding.
- A NULL argument yields SQL NULL with length 0, and the codec is not run.

Layout, one module per file:

- `bytes.dfy` (`Bytes`): the 8-bit `byte` type and the bytes of a string
  literal.
- `arithmetic.dfy` (`Arithmetic`): uniqueness of quotient and remainder.
- `alphabet.dfy` (`Alphabet`): the 64-symbol table, the pad symbol `=` and
  the decoder's inverse mapping.
- `encoder.dfy` (`Encoder`): the specification `Encode` and the loop
  `Base64Encode`.
- `decoder.dfy` (`Decoder`): the specification `Decode`, a fold of `Step`
  over the input, and the loop `Base64Decode`.
- `roundtrip.dfy` (`RoundTrip`): the round trip, the seven encoding test
  vectors of section 10 of RFC 4648, and the leniency examples.
- `udf.dfy` (`Udf`): the buffer bounds and the two row functions with their
  NULL path.

Both codec loops are methods over an `array<byte>`. They follow the C
statements: the same branches, the same shifts and masks (`x << k` is
`x * 2^k`, `x >> k` is `x / 2^k`, `x & (2^k - 1)` is `x % 2^k`, and `|` of
disjoint bit fields is `+`), and the same stores. Each method is proved equal
to its specification function. The properties are then proved about those
functions.

## Model

| member | source | states |
|---|---|---|
| Alphabet.Value | udf_gbbase64.c:60-77 | the decoder's value of a byte is -1, or a value v in 0..63 whose table symbol is that byte |
| Alphabet.ValueOfSymbol | udf_gbbase64.c:13 | the table and the decoder's mapping are inverse: symbol v decodes to v, and no symbol is `=` |
| Alphabet.SymbolIffInTable | udf_gbbase64.c:60-77 | the decoder takes bits from a byte if and only if the byte is in the encoder's table |
| Alphabet.PadIsNotSymbol | udf_gbbase64.c:14 | the pad character `=` carries no bits for the decoder |
| Encoder.EncodedLength | udf_gbbase64.c:46 | 4 * ceil(n / 3), the count `out - result` that base64_encode returns for n bytes |
| Encoder.PadLength | udf_gbbase64.c:22-29 | the final `padlen`: 2 when n % 3 == 1, 1 when n % 3 == 2, 0 otherwise |
| Encoder.Chunk | udf_gbbase64.c:20-31 | the 24-bit `chunk` of a group of 1 to 3 bytes: byte 0 shifted by 16, byte 1 by 8, byte 2 by 0, absent bytes zero |
| Encoder.EncodeGroup | udf_gbbase64.c:20-43 | the four symbols one group writes: Quad of its chunk with padlen 3 - group length |
| Encoder.Encode | udf_gbbase64.c:11-47 | the output of base64_encode: the groups of three bytes from the front, each through EncodeGroup, the last possibly shorter |
| Encoder.EncodedLengthStep | udf_gbbase64.c:19-44 | one more group of 1 to 3 bytes after whole groups adds exactly 4 symbols |
| Encoder.ChunkLayout | udf_gbbase64.c:20-38 | byte 0 fills bits 23-16, byte 1 bits 15-8, byte 2 bits 7-0 (absent bytes are 0); the four 6-bit fields j, k, l, m are the RFC 4648 split of the bytes |
| Encoder.ByteFields | udf_gbbase64.c:21-31 | the three bytes read back from a 24-bit chunk by shift and mask, and the chunk stays below 2^24 |
| Encoder.SextetFields | udf_gbbase64.c:35-38 | the masks 0x00FC0000, 0x0003F000, 0x00000FC0 and 0x3F with their shifts give the four 6-bit fields |
| Encoder.Quad | udf_gbbase64.c:40-43 | each chunk produces exactly four output symbols |
| Encoder.EncodeLength | udf_gbbase64.c:19-46 | the encoding of n bytes is 4 * ceil(n / 3) symbols long, 0 for no bytes |
| Encoder.EncodePadding | udf_gbbase64.c:22-43 | `=` appears exactly in the last PadLength(n) positions (2 when n % 3 == 1, 1 when n % 3 == 2, none otherwise); every other position is an alphabet symbol |
| Encoder.QuadPadding | udf_gbbase64.c:42-43 | within one group the last padlen symbols are `=`, the rest are alphabet symbols |
| Encoder.EncodeAppendGroup | udf_gbbase64.c:19-44 | appending a group of 1 to 3 bytes after whole groups appends that group's four symbols |
| Encoder.GroupStep | udf_gbbase64.c:19-33 | one iteration of the while loop consumes one group: the chunk and padlen it builds give the next four symbols of the encoding, and they fit in the output |
| Encoder.EmitQuad | udf_gbbase64.c:35-43 | the four stores write the chunk's symbols, with `=` where padlen says, at out..out+3 and change nothing else |
| Encoder.Base64Encode | udf_gbbase64.c:11-47 | the loop writes Encode(s) at the front of result, leaves the rest of result as it was, and returns 4 * ceil(len / 3) |
| Decoder.Valid | udf_gbbase64.c:53-54 | the accumulator invariant between input bytes: nbits is 0, 2, 4 or 6 and buf < 2^nbits |
| Decoder.Decode | udf_gbbase64.c:49-92 | the output of base64_decode: `result[..offset]` after Step has run over every input byte from buf = nbits = offset = 0 |
| Decoder.EmitFits | udf_gbbase64.c:82-85 | with at least 8 buffered bits, `buf >> nbits` fits in one byte, the mask keeps buf below 2^nbits, and buf stays below 2^12 |
| Decoder.Step | udf_gbbase64.c:79-87 | one input byte keeps the accumulator invariant: nbits is 0, 2, 4 or 6 and buf < 2^nbits |
| Decoder.StepGrows | udf_gbbase64.c:79-87 | one input byte keeps the bytes already emitted; six bits enter per symbol and eight leave per emitted byte |
| Decoder.Run | udf_gbbase64.c:56-89 | the invariant holds after every prefix of the input |
| Decoder.RunGrows | udf_gbbase64.c:56-89 | the output only grows over the input, and 8 * out + nbits counts 6 bits per alphabet symbol |
| Decoder.RunAppend | udf_gbbase64.c:56-89 | decoding a concatenation is decoding the second part from the state the first part leaves |
| Decoder.RunSkips | udf_gbbase64.c:75-79 | the state after any input is the state after its alphabet symbols alone |
| Decoder.DecodeSkips | udf_gbbase64.c:75-79 | inserting any byte outside the alphabet anywhere never changes the output |
| Decoder.DecodeSymbolsOnly | udf_gbbase64.c:60-79 | the output depends on the input's alphabet symbols alone |
| Decoder.DecodeLength | udf_gbbase64.c:79-91 | the output has floor(6 v / 8) bytes for v alphabet symbols |
| Decoder.DecodePrefix | udf_gbbase64.c:84-86 | the bytes emitted after a prefix of the input are a prefix of the final output |
| Decoder.RunNext | udf_gbbase64.c:56 | the state after i + 1 bytes is one Step from the state after i |
| Decoder.RunNextFits | udf_gbbase64.c:84 | the store of the current iteration stays within the whole output |
| Decoder.StepEmits | udf_gbbase64.c:80-87 | bridging lemma: Step's emitting branch, written with the values the C computes for buf, nbits and result[offset] |
| Decoder.StepShifts | udf_gbbase64.c:80-81 | bridging lemma: Step's non-emitting branch, written with the C's `(buf << 6) \| d` and `nbits += 6` |
| Decoder.StepSkips | udf_gbbase64.c:79 | a byte outside the alphabet changes nothing |
| Decoder.Absorb | udf_gbbase64.c:57-88 | one loop iteration moves buf, nbits and offset to the next state and writes exactly the emitted byte |
| Decoder.Base64Decode | udf_gbbase64.c:49-92 | the loop writes Decode(s) at the front of result, leaves the rest as it was, and returns the number of bytes written |
| RoundTrip.GroupSymbols | udf_gbbase64.c:20-43 | the four symbols of a group written with its bytes, `=` replacing the fields of absent bytes |
| RoundTrip.FirstTwoSymbols | udf_gbbase64.c:80-86 | decoding the first two symbols of a group gives back byte 0 and keeps 4 bits of byte 1 |
| RoundTrip.ThirdSymbol | udf_gbbase64.c:80-86 | decoding the third symbol gives back byte 1 and keeps 2 bits of byte 2 |
| RoundTrip.FourthSymbol | udf_gbbase64.c:80-86 | decoding the fourth symbol gives back byte 2 and empties the accumulator |
| RoundTrip.OneByteDecodes | udf_gbbase64.c:22-24 | a one-byte group ("xx==") decodes to that byte, leaving 4 zero bits |
| RoundTrip.TwoBytesDecode | udf_gbbase64.c:27-29 | a two-byte group ("xxx=") decodes to those bytes, leaving 2 zero bits |
| RoundTrip.ThreeBytesDecode | udf_gbbase64.c:31 | a full group decodes to its three bytes and empties the accumulator |
| RoundTrip.GroupDecodes | udf_gbbase64.c:35-43 | from an empty accumulator, the symbols of any group decode to exactly its bytes |
| RoundTrip.RunEncode | udf_gbbase64.c:19-44 | decoding an encoding appends exactly the encoded bytes to the output |
| RoundTrip.DecodeEncode | udf_gbbase64.c:11-92 | base64_decode(base64_encode(B)) == B for every byte sequence B |
| RoundTrip.EncodeOneGroup | udf_gbbase64.c:19-33 | an input of 1 to 3 bytes is a single group |
| RoundTrip.EncodeF | udf_gbbase64.c:11-47 | "f" encodes to "Zg==" |
| RoundTrip.EncodeFo | udf_gbbase64.c:11-47 | "fo" encodes to "Zm8=" |
| RoundTrip.GroupFoo | udf_gbbase64.c:35-43 | the group "foo" gives the symbols "Zm9v" |
| RoundTrip.GroupBar | udf_gbbase64.c:35-43 | the group "bar" gives the symbols "YmFy" |
| RoundTrip.EncodeFoo | udf_gbbase64.c:11-47 | "foo" encodes to "Zm9v" |
| RoundTrip.EncodeFoobar | udf_gbbase64.c:11-47 | "foobar" encodes to "Zm9vYmFy" |
| RoundTrip.EncodeEmpty | udf_gbbase64.c:18-46 | "" encodes to "" (the loop does not run) |
| RoundTrip.GroupB | udf_gbbase64.c:20-43 | the one-byte group "b" gives the symbols "Yg==" |
| RoundTrip.GroupBa | udf_gbbase64.c:20-43 | the two-byte group "ba" gives the symbols "YmE=" |
| RoundTrip.EncodeFoob | udf_gbbase64.c:11-47 | "foob" encodes to "Zm9vYg==" |
| RoundTrip.EncodeFooba | udf_gbbase64.c:11-47 | "fooba" encodes to "Zm9vYmE=" |
| RoundTrip.DecodeQQ | udf_gbbase64.c:79-87 | "QQ" decodes to the single byte 0x41 |
| RoundTrip.DropSkipped | udf_gbbase64.c:75-79 | a trailing byte outside the alphabet adds nothing to the output |
| RoundTrip.DecodeQQPadded | udf_gbbase64.c:75-79 | "QQ==" decodes like "QQ" |
| RoundTrip.DecodeQQTrailing | udf_gbbase64.c:75-79 | "QQ== " decodes like "QQ" |
| RoundTrip.DecodeQQSpaced | udf_gbbase64.c:75-79 | "Q Q = =" decodes like "QQ" |
| RoundTrip.DecodeLenient | udf_gbbase64.c:56-89 | "QQ==", "QQ== " and "Q Q = =" all decode to the single byte 0x41 |
| Udf.EncodeBound | udf_gbbase64.c:110 | the max_length gb_base64_encode_init reserves: 4 * len / 3 + 3 |
| Udf.DecodeBound | udf_gbbase64.c:171 | the max_length gb_base64_decode_init reserves: 3 * len / 4 |
| Udf.EncodeBoundSafe | udf_gbbase64.c:110 | the reserved 4 * len / 3 + 3 bytes always hold the 4 * ceil(len / 3) bytes written |
| Udf.DecodeBoundSafe | udf_gbbase64.c:171 | the reserved 3 * len / 4 bytes always hold the decoded output, and are filled when every input byte is an alphabet symbol |
| Udf.ThreeQuarters | udf_gbbase64.c:171 | floor(6 v / 8) <= floor(3 n / 4) whenever v <= n, with equality when v == n |
| Udf.GbBase64Encode | udf_gbbase64.c:136-153 | NULL argument: result NULL, length 0, null flag set, buffer untouched. Otherwise the encoding is in the buffer, its length is returned, and the flag is unchanged |
| Udf.GbBase64Decode | udf_gbbase64.c:197-214 | NULL argument: result NULL, length 0, null flag set, buffer untouched. Otherwise the decoded bytes are in the buffer, their count is returned, and the flag is unchanged |

## Left out

- The MySQL UDF interface types (`UDF_INIT`, `UDF_ARGS`, `my_bool`, `DLLEXP`) are host structures. The row functions take the argument as an `Option` and the output buffer as an array instead.
- The argument-count and argument-type checks, and their `snprintf` messages, are not modelled (udf_gbbase64.c:100-108, 161-169). They are host-side validation.
- Memory lifecycle is not modelled: `malloc`, `free`, the deinit functions, the 255-byte threshold, and the switch from the host's buffer to `initid->ptr`. The row functions instead require an output array at least as long as the bound that init reserves.
- Signedness of C `char`: input bytes are modelled as 0..255. A byte of 128 or more lies outside every range tested at udf_gbbase64.c:60-77, so it is skipped whether `char` is signed or not.
- Udf.EncodeBound, Udf.DecodeBound: do not model wrap-around of `4 * len` (udf_gbbase64.c:110) and `3 * len` (udf_gbbase64.c:171) in `unsigned long`. That happens from 2^30 and from about 1.33 * 2^30 bytes where `unsigned long` has 32 bits (Windows, udf_gbbase64.c:5), and 2^62 bytes where it has 64; both are at or beyond MySQL's argument size limit. Lengths are unbounded integers in the model.
- Udf.GbBase64Encode: the C leaves `*null_value` alone on the non-NULL path; the model passes the caller's flag through unchanged.
- Udf.GbBase64Decode: the same as for GbBase64Encode.
- Alphabet.Symbols: the encoder's table is the string literal at udf_gbbase64.c:13; the model builds the same 64 bytes from the ranges A-Z, a-z and 0-9 followed by `+` and `/`.
