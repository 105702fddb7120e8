# Base45 codec, modelled and verified in Dafny

This project models the `Base45Encoding` static class of Base45CLI
(`Base45.cs`). The class is a binary-to-text codec for the Base45 scheme of
section 4 of RFC 9285. It has three parts:

- The 45-character alphabet `_Encoding`, and the `_Decoding` dictionary that
  the static constructor builds from it.
- `Encode(byte[])`: every 2-byte chunk becomes three base-45 digits, least
  significant first, and a trailing odd byte becomes two digits.
- `Decode(string, bool ignoreErrors)`: it reads the characters back as
  digits and regroups them into triples (two bytes each) and a final pair
  (one byte).

Modules:

- `Wrappers` (`wrappers.dfy`): the `Option` and `Result` datatypes.
- `Base45Alphabet` (`alphabet.dfy`): `_Encoding` as `Alphabet`, an
  independent character-class reference `DigitOf`, and `_Decoding` as the
  map `Decoding`. `BuildDecoding` is the static constructor's loop.
- `Base45Model` (`codec_model.dfy`): the meaning of `Encode` and `Decode` as
  pure functions on sequences. These are `Encoded` and `Decoded`, built from
  the digit-level functions `EncodeDigits`, `Spell`, `Scan` and
  `DigitsToBytes`.
- `Base45Encoding` (`base45_encoding.dfy`): `Encode` and `Decode` as the
  array-filling loops of the class. Each is proved to return exactly
  `Encoded` or `Decoded`.
- `Base45Properties` (`properties.dfy`): the codec's laws, proved about the
  functions of `Base45Model`:
  - the round trip;
  - exactly when strict decoding fails, and with which error;
  - the `ignoreErrors` behaviour;
  - the examples of section 4.3 of RFC 9285.

Decisions:

- A C# `byte` is `Byte`, an `int` in 0..255.
- The unchecked `(byte)` casts of `Decode` are written as `% 256`.
- The exceptions of `Decode` are the `DecodeError` values of a `Result`:
  - `IncorrectLength` and `InvalidChar(i)` for the two `FormatException`s;
  - `IndexOutOfRange` for the `result[-1]` access that a one-character
    input reaches when errors are ignored.
- The model follows the code rather than RFC 9285 in two places:
  - A digit triple above 65535 is not rejected: its two bytes wrap modulo
    65536 (`OverflowTripleWraps`).
  - With `ignoreErrors` and a length of 1 modulo 3, the byte of the last
    two digits overwrites the low byte of the last triple
    (`LenientOverwritesLastByte`).

## Model

| member | source | states |
|---|---|---|
| Base45Alphabet.AlphabetAt | Base45.cs:135-139 | position `d` of `_Encoding` holds the character of digit `d` (0-9, A-Z, then the nine symbols) |
| Base45Alphabet.AlphabetLiteral | Base45.cs:135-139 | the alphabet is exactly the 45 characters of the `_Encoding` initializer, in order |
| Base45Alphabet.DigitOfAlphabet | Base45.cs:135-139 | the character class of `_Encoding[d]` gives back `d`, so the table agrees with the independent reference |
| Base45Alphabet.AlphabetAtDigitOf | Base45.cs:135-139 | every character the reference recognises sits in the table at its digit |
| Base45Alphabet.AlphabetDistinct | Base45.cs:135-139 | the 45 characters are pairwise distinct |
| Base45Alphabet.DecodingOfAlphabet | Base45.cs:143-146 | `_Decoding` maps `_Encoding[i]` back to `i` for every i in 0..44 |
| Base45Alphabet.AlphabetOfDecoding | Base45.cs:143-146 | every key of `_Decoding` is the table character at its digit (digit→char and char→digit are inverse) |
| Base45Alphabet.DecodingKeys | Base45.cs:141-146 | a character is a key of `_Decoding` if and only if it is in `_Encoding` |
| Base45Alphabet.BuildDecoding | Base45.cs:143-146 | the constructor's loop never adds a key twice, so `Dictionary.Add` never throws, and it ends with exactly `Decoding` |
| Base45Model.ChunkDigits | Base45.cs:161-164 | a chunk gives three digits whose weighted sum `d0 + 45*d1 + 2025*d2` is `b0*256 + b1` |
| Base45Model.BaseFortyFiveDigits | Base45.cs:161-164 | a 16-bit value is the weighted sum of its digits `value%45`, `value/45%45`, `value/2025%45` |
| Base45Model.TailDigits | Base45.cs:170-171 | a trailing byte gives two digits: the second is `b/45` in both branches, and `d0 + 45*d1 == b` |
| Base45Model.WholeChunkDigits | Base45.cs:158-165 | the first `count` chunks give `3*count` digits |
| Base45Model.EncodeDigits | Base45.cs:152-153 | an n-byte buffer has `3*(n/2)` digits, plus 2 when n is odd |
| Base45Model.Spell | Base45.cs:162-164 | writing digits as characters keeps their number |
| Base45Model.Encoded | Base45.cs:148-174 | the encoding has length `3*(n/2)` (+2 for odd n), never 1 modulo 3, and is empty for empty input |
| Base45Model.Scan | Base45.cs:187-196 | the digit buffer has one slot per character |
| Base45Model.FirstInvalid | Base45.cs:188-196 | the position of the first character outside `_Decoding`; every earlier character is in it |
| Base45Model.TripleBytes | Base45.cs:203-205 | a triple gives two bytes, `val/256` then `val%256`, that are `val` modulo 65536 as a big-endian pair |
| Base45Model.PairByte | Base45.cs:211 | the final pair's byte is `d0 + 45*d1` when that fits in a byte, and in every case differs from it by a multiple of 256 (the unchecked cast wraps) |
| Base45Model.WholeChunkBytes | Base45.cs:198-206 | the first `count` triples give `2*count` bytes |
| Base45Model.DigitsToBytes | Base45.cs:198-212 | it succeeds unless there is exactly one digit, and then fails with the index error; the length is `2*(n/3)`, plus 1 when `n%3 == 2` |
| Base45Model.Decoded | Base45.cs:176-213 | empty input decodes to no bytes; any success has length `2*(n/3)`, plus 1 when `n%3 == 2` |
| Base45Encoding.EncodeStep | Base45.cs:160-165 | after one iteration the written prefix spells one more chunk |
| Base45Encoding.EncodeChunk | Base45.cs:161-164 | one iteration of the encode loop extends the written prefix by the chunk's three characters and leaves every later slot as it was |
| Base45Encoding.EncodeWholeChunks | Base45.cs:158-165 | the loop leaves the spelling of all whole chunks in the first `3*wholeChunkCount` slots and does not touch the slots after them |
| Base45Encoding.TailWrite | Base45.cs:170-171 | writing the last two slots appends the trailing byte's spelling |
| Base45Encoding.EncodeTail | Base45.cs:167-173 | after the last two slots are patched, the array holds the whole encoding |
| Base45Encoding.Encode | Base45.cs:148-174 | `Encode` returns exactly `Encoded(buffer)` |
| Base45Encoding.ScanDigits | Base45.cs:187-196 | the scan loop stops at the first invalid position (strict), or runs to the end and fills the buffer with `Scan(value)` |
| Base45Encoding.DecodeStep | Base45.cs:202-206 | after one iteration the written prefix holds the bytes of one more triple |
| Base45Encoding.DecodeChunk | Base45.cs:203-205 | one iteration of the triple loop extends the written prefix by the triple's two bytes and leaves every later slot as it was |
| Base45Encoding.DecodeWholeChunks | Base45.cs:200-206 | the loop leaves the bytes of all whole triples in the first `2*wholeChunkCount` slots and does not touch the slots after them |
| Base45Encoding.DecodeTail | Base45.cs:208-212 | patching the last slot with the pair byte gives `DigitsToBytes` |
| Base45Encoding.DecodeDigits | Base45.cs:198-212 | the part after the scan returns exactly `DigitsToBytes` of the digit buffer, including the index error |
| Base45Encoding.Decode | Base45.cs:176-213 | `Decode` returns exactly `Decoded(value, ignoreErrors)`, with each exception as a `Failure`; `ignoreErrors` defaults to false |
| Base45Properties.SpellDecodes | Base45.cs:162-164 | every written character is a key of `_Decoding` that maps back to its digit |
| Base45Properties.EncodedInAlphabet | Base45.cs:159-171 | every output character of `Encode` is in the alphabet |
| Base45Properties.TailPadding | Base45.cs:167-171 | in every odd-length buffer the trailing byte b is written as the last two characters `Alphabet[b%45]`, `Alphabet[b/45]`; the last is '0' exactly when b < 45 |
| Base45Properties.ScanSpell | Base45.cs:187-196 | scanning an encoding gives back its digits |
| Base45Properties.FirstInvalidSpell | Base45.cs:188-196 | an encoding contains no invalid character |
| Base45Properties.ChunkRoundTrip | Base45.cs:203-205 | the triple of a chunk decodes to the chunk's two bytes |
| Base45Properties.TailRoundTrip | Base45.cs:211 | the pair of a trailing byte decodes to the byte |
| Base45Properties.WholeChunkBytesPrefix | Base45.cs:202-206 | the triple bytes depend only on the digits of the whole triples |
| Base45Properties.ChunksRoundTrip | Base45.cs:202-206 | decoding the digits of the first `count` chunks gives back those `2*count` bytes |
| Base45Properties.OddDigitsRoundTrip | Base45.cs:208-212 | for an odd-length buffer, the trailing pair gives back the last byte |
| Base45Properties.DigitsRoundTrip | Base45.cs:198-212 | turning the digits of any buffer back into bytes gives the buffer |
| Base45Properties.RoundTrip | Base45.cs:148-213 | `Decode(Encode(B), false)` succeeds and returns exactly B, for every B |
| Base45Properties.RoundTripLenient | Base45.cs:176-213 | `Decode(Encode(B), true)` also returns B |
| Base45Properties.EncodedInjective | Base45.cs:148-174 | different buffers have different encodings |
| Base45Properties.DecodedSucceeds | Base45.cs:180-196 | strict decoding succeeds if and only if the length is not 1 modulo 3 and every character is in the alphabet |
| Base45Properties.DecodedIncorrectLength | Base45.cs:183-185 | a length of 1 modulo 3 is rejected with "Incorrect length" whatever the characters |
| Base45Properties.DecodedInvalidChar | Base45.cs:188-196 | otherwise, the first character outside the alphabet is reported at its position |
| Base45Properties.DecodedStrictErrors | Base45.cs:183-211 | strict decoding never reaches the `result[-1]` index error |
| Base45Properties.LenientAgrees | Base45.cs:176-213 | wherever strict decoding succeeds, lenient decoding gives the same bytes |
| Base45Properties.LenientReadsZero | Base45.cs:189-196 | with `ignoreErrors`, an unrecognised character decodes as the digit 0 |
| Base45Properties.LenientFails | Base45.cs:198-211 | lenient decoding fails only on one-character input, and then with the index error |
| Base45Properties.LenientOverwritesLastByte | Base45.cs:211 | "BB80" decodes leniently to [65, 8]: the pair byte overwrites the triple's low byte |
| Base45Properties.OverflowTripleWraps | Base45.cs:203-205 | ":::" (triple value 91124) is accepted and decodes to [99, 244], the value modulo 65536 |
| Base45Properties.EncodesAs | Base45.cs:148-213 | bytes whose digits spell s encode to s, and s decodes back to them |
| Base45Properties.ExampleAB | Base45.cs:148-174 | "AB" encodes to "BB8" and decodes back (section 4.3 of RFC 9285) |
| Base45Properties.ExampleHello | Base45.cs:148-174 | "Hello!!" encodes to "%69 VD92EX0" and decodes back |
| Base45Properties.ExampleBase45 | Base45.cs:148-174 | "base-45" encodes to "UJCLQE7W581" and decodes back |
| Base45Properties.ExampleIetf | Base45.cs:148-174 | "ietf!" encodes to "QED8WEX0" and decodes back |

## Left out

- The `Program` class (Base45.cs:23-112) is not part of this model. It holds the command-line handling, console output, file reading, ASCII conversion and exit codes, all of which are I/O or library calls.
- The `ArgumentNullException` checks (Base45.cs:149-150, 177-178) are left out, because Dafny sequences cannot be null.
- Base45Encoding.EncodeWholeChunks and Base45Encoding.DecodeWholeChunks: each loop body is a separate method (`EncodeChunk`, `DecodeChunk`). The loops step `i` by 2 or 3 rather than post-incrementing inside the body. The effect on the array is the same.
- Base45Encoding.Encode and Base45Encoding.EncodeWholeChunks take the input as a `seq` rather than an array. `Encode` only reads its buffer, so aliasing cannot arise.
- Base45Encoding.DecodeWholeChunks reads a snapshot `buffer[..]` of the digit array. Nothing writes that array while the loop runs.
- Base45Alphabet.BuildDecoding builds the dictionary as a `map`, and `Decoding` stands for the dictionary once the static constructor has run. The class initialisation order of the runtime is not modelled.
- Strings are modelled as Dafny strings, sequences of Unicode scalar values, while a C# string is a sequence of UTF-16 code units. For text outside the Basic Multilingual Plane the two differ: C# counts a surrogate pair as two characters in the length check (Base45.cs:183), in the reported position (Base45.cs:195) and in the digits read with `ignoreErrors`. For example, the one-character string U+1F600 fails with `InvalidChar(0)` in C# but with `IncorrectLength` in the model. For text made only of Basic Multilingual Plane characters, which includes every valid Base45 string, the two agree.
- Named constants (`BaseSize`, `BaseSizeSquared`, `ChunkSize`, `EncodedChunkSize`, `SmallEncodedChunkSize`, `ByteSize`) appear as their literal values in the arithmetic.
- `Decode`'s rejection of digit triples above 65535 is not modelled, because the code does not perform it, although section 4 of RFC 9285 requires it.
