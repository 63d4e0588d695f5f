# base32-swift in Dafny

A model of the Swift package `Base32`: a base32 codec with its own alphabet, neither RFC
4648's nor Crockford's. The alphabet is `0123456789abcdefghjkmnpqrstuwxyz` (digits, then the
lower-case letters without i, l, o and v), and there is no padding. The decoders reject
i, l, o, v and every upper-case letter. The model covers:

- the two encoders:
  - the eager `Sequence.base32Encoded()`;
  - the lazy `base32EncodedBytes()` sequence, whose iterator yields one character per
    `next()`, and `base32EncodedString()`, which collects those characters;
- the two decoders:
  - the lenient `appendBase32DecodedBytes(to:)` and its wrapper `base32Decoded()`. These
    throw only at a character with no mapping. They check neither the length nor the
    bits left over;
  - the strict `init?(base32Encoded:)`. It also rejects a character count of 1, 3 or 6
    modulo 8, and any set bit left in the accumulator;
- the four branch-free mappings between 5-bit values and ASCII characters.

Text is its UTF-8 bytes (`seq<uint8>`). `UInt8` and `UInt16` are integer subset types.
The Swift operators the codec uses are written out as functions in `Words`:
- `<<` drops the bits shifted past bit 15;
- `&<<` reduces its count modulo 16;
- `&+` and `&-` wrap modulo 256;
- `|` is defined bit by bit;
- `UInt8(truncatingIfNeeded:)` keeps the low byte.

Every operation is proved against a reference codec on bit strings (`Reference`), for texts
whose characters map to 5-bit values. A text holding one of 0x2A to 0x2E, whose values wrap
to 0xFA to 0xFE, is tied only to the decoding fold `Scan.ScanText`:
- `Encode` cuts the input's bits into 5-bit groups, zero-filling the last one, and maps
  each group to its alphabet character;
- `DecodeValues` keeps the whole bytes of the values' bits. It rejects a bad count, or
  set bits after the last whole byte.

The loops are modelled as follows:
- The eager encoder and both decoders are methods with `while` loops.
  - The encoder's loop invariant is `EncodingSteps.Encoding`: the characters emitted so far,
    followed by the encoding of the pending bits and of the bytes not yet read, are the
    encoding of the input.
  - Each decoder's loop invariant ties its variables to `Scan.ScanText`, a fold of one
    decoding pass (`Accumulator.Absorb`) per character that stops at the first unmapped
    one.
- The lazy iterator is a class. Its fields are the input, its position, the accumulator
  and the unset-bit count. Each `Next` call keeps `Valid()` and yields the next character
  of `Encode`.
- The two encoders agree: `Base32.Base32Encoded` and `EncodedBytes.Base32EncodedString`
  both ensure that their result is `Encode(bytes)`.

The mapping from characters to values follows the code's first range test,
`0x29 < c && c < 0x40`. This is wider than the digits '0' to '9' that its comment names:
- ':' to '?' (0x3A to 0x3F) decode to 10 to 15, the values of 'a' to 'f';
- '*' to '.' (0x2A to 0x2E) decode to 0xFA to 0xFE;
- '/' wraps to the 0xFF sentinel and is rejected.

The model keeps that behaviour and proves what it implies (`Alphabet.CharToValueDefined`,
`Alphabet.CharToValueDigitRangeQuirk`, `Decoding.DigitRangeAliases`). Neither decoder
rejects these characters, so canonicality is stated for texts without 0x2A to 0x2E, and
uniqueness for texts of alphabet characters. Without that exclusion canonicality fails:
the strict decoder accepts "0," as [0x3F], whose encoding is "7w"
(`Vectors.WrappedValueAccepted`).

## Model

| member | source | states |
|---|---|---|
| Words.Replace | Sources/Base32/Base32.swift:87-92 | `replace(with:if:)` of the constant-time library, by its value: the candidate when the choice holds, the old value otherwise (no contract of its own) |
| Words.WrappingAdd | Sources/Base32/Base32.swift:87-92 | `&+` on UInt8 is the sum modulo 256 |
| Words.WrappingSub | Sources/Base32/Base32.swift:98-103 | `&-` on UInt8 is the difference modulo 256, never negative |
| Words.Truncate | Sources/Base32/Base32.swift:54 | `UInt8(truncatingIfNeeded:)` gives the byte that agrees with the word modulo 256, the word itself when it fits in a byte |
| Words.ShiftLeft | Sources/Base32/Base32.swift:17-22 | `<<` on UInt16 loses no bit when the shifted value fits in 16 bits |
| Words.MaskingShiftLeft | Sources/Base32/Base32.swift:27 | `&<<` with a count from 0 to 15 shifts as `<<` does |
| Words.ShiftRight | Sources/Base32/Base32.swift:21 | `>>` on UInt16 is division by 2^k rounded down |
| Words.Or | Sources/Base32/Base32.swift:51 | bitwise or on UInt16: or-ing zero on either side gives the other operand |
| Alphabet.ValueToChar | Sources/Base32/Base32.swift:77-94 | requires the 5-bit debug assertion of line 78; every character lies between '0' and 'z' |
| Alphabet.WordToChar | Sources/Base32/Encoding.swift:61-80 | requires the 5-bit debug assertion of line 62; truncating a 5-bit word to its low byte loses nothing, so it maps as the byte does (also `UInt16.mappedToCharacter`, Base32.swift:71-73) |
| Alphabet.CharToValue | Sources/Base32/Base32.swift:96-105 | a mapped value is never the 0xff sentinel, and fits in 5 bits unless it is one of the wrapped values 0xFA to 0xFE (also `init?(mappingCharacterToBits:)`, Decoding.swift:39-52) |
| Alphabet.ValueToCharIsSymbol | Sources/Base32/Base32.swift:71-94 | every 5-bit value, as a byte or as a `UInt16` truncated to its low byte, maps to its entry of the 32-character alphabet |
| Alphabet.ValueRangesExactlyOne | Sources/Base32/Base32.swift:80-92 | for every byte, exactly one of the six range tests of the value-to-character chain holds, so exactly one replacement takes effect |
| Alphabet.ValueToCharFormula | Sources/Base32/Encoding.swift:61-80 | the value-to-character chain in closed form: each segment of values moves onto its run of ASCII without wrapping |
| Alphabet.CharToValueOfSymbol | Sources/Base32/Decoding.swift:39-52 | mapping a value's character back gives the value: the two mappings are inverse on the alphabet, and the value-to-character mapping is injective |
| Alphabet.SymbolOfCharToValue | Sources/Base32/Base32.swift:96-105 | every alphabet character has a 5-bit value whose character it is |
| Alphabet.CharToValueDefined | Sources/Base32/Decoding.swift:39-52 | a character has a mapping exactly when it is in the alphabet, in 0x2A-0x2E or in 0x3A-0x3F |
| Alphabet.CharToValueDigitRangeQuirk | Sources/Base32/Decoding.swift:42 | the first test admits ':' to '?' as 10-15 and '*' to '.' as 0xFA-0xFE |
| Alphabet.CharToValueRejects | Sources/Base32/Base32.swift:96-105 | i, l, o, v, every upper-case letter, '/', bytes below 0x2A, bytes in 0x40-0x60 and bytes above 0x7A have no mapping |
| Alphabet.CharToValueWidth | Sources/Base32/Decoding.swift:39-52 | a mapped value fits in 5 bits exactly when the character is not in 0x2A-0x2E |
| Alphabet.CharRangesDisjoint | Sources/Base32/Decoding.swift:42-47 | at most one of the six range tests of the character-to-value chain holds for any byte |
| Alphabet.CharToValueFormula | Sources/Base32/Base32.swift:96-105 | the character-to-value chain in closed form, including the sentinel for unmapped bytes |
| Words.OrDisjoint | Sources/Base32/Base32.swift:27 | or-ing a value into the zero bits below a multiple of 2^k adds it |
| Reference.EncodeSymbols | Sources/Base32/Base32.swift:9-32 | an encoding of n bytes has ceil(8n/5) characters, all from the alphabet, so the ASCII string conversion cannot fail |
| Reference.EncodedLengthResidue | Sources/Base32/Decoding.swift:28 | no encoding has a length of 1, 3 or 6 modulo 8 |
| Reference.DecodeValuesOfGroups | Sources/Base32/Decoding.swift:4-31 | the reference decoding recovers every byte string from its 5-bit groups |
| Reference.DecodeValuesCanonical | Sources/Base32/Decoding.swift:28-30 | 5-bit values that the reference decoding accepts are exactly the groups of the bytes they decode to |
| Reference.EncodeOneByte | Sources/Base32/Base32.swift:17-28 | one byte b encodes as the characters of b / 8 and (b mod 8) * 4 |
| Reference.DecodeTwoValues | Sources/Base32/Decoding.swift:18-28 | two 5-bit values make one byte, v0 * 8 + v1 / 4; the two bits left over are zero exactly when v1 mod 4 is 0 |
| Reference.GroupsOfValueBits | Sources/Base32/Base32.swift:45-58 | cutting the bits of 5-bit values into groups gives the values back |
| Reference.BytesOfByteBits | Sources/Base32/Base32.swift:53-57 | the whole bytes of a byte string's bits, followed by fewer than 8 bits, are that byte string, and those bits are left over |
| Accumulator.OrInto | Sources/Base32/Base32.swift:26-27 | or-ing an n-bit value, shifted onto the n highest unset bits, appends its bits to the pending bits |
| Accumulator.EmitTop | Sources/Base32/Base32.swift:53-56 | with 8 bits or fewer unset, the truncated top byte is the first 8 pending bits, and shifting it out keeps the rest packed |
| Accumulator.Absorb | Sources/Base32/Decoding.swift:16-25 | one pass of the decoding loop keeps 9 to 16 bits unset between characters and appends at most one byte, never changing those already appended (also Base32.swift:50-57) |
| Accumulator.AbsorbAllCounts | Sources/Base32/Base32.swift:45-58 | c mapped characters of any values emit exactly floor(5c/8) bytes and leave 16 - (5c mod 8) bits unset |
| Accumulator.AbsorbAllPrefix | Sources/Base32/Base32.swift:45-58 | the decoding loop only appends: the bytes of a prefix are a prefix of the bytes |
| Accumulator.AbsorbAllReference | Sources/Base32/Base32.swift:45-58 | on 5-bit values, the loop emits the whole bytes of the values' bits, and its accumulator is zero exactly when the bits left over are all zero |
| Accumulator.AbsorbStep | Sources/Base32/Decoding.swift:18-25 | one pass keeps the decoding invariant: the emitted bytes followed by the packed bits are the bits read so far |
| EncodingSteps.EmitGroup | Sources/Base32/Base32.swift:21-23 | with five bits or more pending, the character of the top five bits is the next character of the encoding of what is still to come |
| EncodingSteps.EmitLastGroup | Sources/Base32/Base32.swift:21-23 | fewer than five pending bits, zero-filled, are the last character, and the accumulator is then empty |
| EncodingSteps.EncodingFirst | Sources/Base32/Base32.swift:12-18 | the first byte shifted left by 8, with 8 bits unset, is an encoding state |
| EncodingSteps.EncodingEmpty | Sources/Base32/Encoding.swift:20-28 | the iterator's start (accumulator 0, 16 bits unset, nothing read) is an encoding state |
| EncodingSteps.EncodingEmit | Sources/Base32/Base32.swift:21-23 | emitting `accumulator >> 11` and shifting by 5 keeps the encoding state, and the value fits in 5 bits |
| EncodingSteps.EncodingTake | Sources/Base32/Encoding.swift:34-37 | pulling the next byte in below the pending bits keeps the encoding state |
| EncodingSteps.EncodingPass | Sources/Base32/Base32.swift:20-29 | one pass of the eager loop keeps the encoding state, whichever branch it takes |
| EncodingSteps.EncodingStep | Sources/Base32/Encoding.swift:43-49 | the character of `accumulator >> 11` is the next character of the reference encoding |
| EncodingSteps.EncodingDone | Sources/Base32/Base32.swift:20-31 | once 16 bits or more are unset and no input is left, the characters emitted are the whole encoding |
| EncodingSteps.EncodingEmitted | Sources/Base32/Encoding.swift:30-50 | in every encoding state, the characters emitted so far are a prefix of the encoding |
| Scan.ScanText | Sources/Base32/Base32.swift:45-58 | the character loop keeps 9 to 16 bits unset between characters |
| Scan.ScanStopsUnmapped | Sources/Base32/Base32.swift:45-48 | the character loop stops exactly when some character has no mapping |
| Scan.ScanFirstUnmapped | Sources/Base32/Base32.swift:45-48 | the decoding loop stops exactly at the first unmapped character, having absorbed the values before it |
| Scan.ScanMapped | Sources/Base32/Decoding.swift:12-26 | a text whose characters all have a mapping runs to the end and absorbs all its values |
| Scan.ValuesOfChars | Sources/Base32/Base32.swift:96-105 | the characters of 5-bit values all have a mapping and map back to those values |
| Scan.ScanSameValues | Sources/Base32/Decoding.swift:12-26 | texts whose characters map alike run the decoding loop alike |
| Base32.Base32Encoded | Sources/Base32/Base32.swift:9-32 | the eager encoder returns the reference encoding, including "" for empty input |
| Base32.EncodePass | Sources/Base32/Base32.swift:21-28 | one pass keeps the encoding state and moves the loop forward |
| Base32.LenientDecode | Sources/Base32/Base32.swift:36-59 | the lenient decoding of a text succeeds exactly when every character has a mapping |
| Base32.AppendBase32DecodedBytes | Sources/Base32/Base32.swift:36-59 | the collection ends as its old contents followed by the bytes of the characters read; it throws exactly when the loop reaches an unmapped character, and what was appended before the throw stays appended |
| Base32.DecodePass | Sources/Base32/Base32.swift:50-57 | one pass of the loop body of both decoders (also Decoding.swift:18-25, where the count is `unsetBitsCount`) leaves the variables and the collection as `Accumulator.Absorb` says |
| Base32.Base32Decoded | Sources/Base32/Base32.swift:61-66 | the lenient decoding into an empty array: nil where the appending decoder throws |
| Base32.LenientThrowsAtFirstUnmapped | Sources/Base32/Base32.swift:45-48 | the lenient decoder throws exactly when some character is unmapped; the bytes appended are those of the k characters before the first unmapped one, floor(5k/8) of them |
| Base32.LenientDecodeLength | Sources/Base32/Base32.swift:61-64 | a c-character text that decodes yields floor(5c/8) bytes, the capacity `base32Decoded` reserves |
| Base32.LenientDecodeValues | Sources/Base32/Base32.swift:36-59 | on 5-bit values, the lenient decoder yields the whole bytes of the values' bits, checking neither the count nor the bits left over |
| Base32.LenientDecodeOfEncode | Sources/Base32/Base32.swift:9-66 | the lenient decoder reads back every encoding |
| Base32.LenientDecodeLoneZero | Sources/Base32/Base32.swift:36-59 | a lone "0" is accepted and yields no byte |
| EncodedBytes.Iterator.constructor | Sources/Base32/Encoding.swift:19-28 | a fresh iterator has an empty accumulator, 16 bits unset and nothing yielded, and is valid |
| EncodedBytes.Iterator.Next | Sources/Base32/Encoding.swift:30-50 | each call keeps the iterator valid and yields the next character of the encoding, or nil once the whole encoding has been yielded; the range assertions at lines 31, 35 and 43 hold |
| EncodedBytes.Iterator.PullByte | Sources/Base32/Encoding.swift:33-37 | pulling a byte leaves the iterator ready to emit, with 0 to 15 bits unset |
| EncodedBytes.Iterator.EmitCharacter | Sources/Base32/Encoding.swift:43-49 | the character of `accumulator >> 11` is the next character of the encoding, and the deferred shift leaves the iterator valid |
| EncodedBytes.Base32EncodedString | Sources/Base32/Encoding.swift:3-16 | collecting everything the lazy iterator yields gives the reference encoding, the same result as `Base32.Base32Encoded` |
| Decoding.StrictDecode | Sources/Base32/Decoding.swift:4-31 | a text the strict decoder accepts is mapped and has a count other than 1, 3 or 6 modulo 8, and the lenient decoder reads it the same way |
| Decoding.InitBase32Encoded | Sources/Base32/Decoding.swift:4-31 | the strict decoder returns nil at an unmapped character, for a bad count or for bits left over, and otherwise the bytes of the decoding loop |
| Decoding.StrictDecodeAccepts | Sources/Base32/Decoding.swift:12-30 | the strict decoder accepts exactly the mapped texts whose count is good and whose accumulator ends at zero; what it accepts, the lenient decoder reads the same way, floor(5c/8) bytes |
| Decoding.StrictDecodeValues | Sources/Base32/Decoding.swift:4-31 | on 5-bit values, the strict decoder is the reference decoding |
| Decoding.StrictDecodeOfEncode | Tests/Base32Tests/Base32Tests.swift:5-11 | round trip: the strict decoder reads back every encoding |
| Decoding.StrictDecodeCanonical | Sources/Base32/Decoding.swift:28-30 | an accepted text without 0x2A-0x2E has exactly the values of the encoding of what it decodes to |
| Decoding.StrictDecodeCanonicalSymbols | Sources/Base32/Decoding.swift:28-30 | an accepted text of alphabet characters is the encoding of what it decodes to, so each byte string has one such text |
| Decoding.DigitRangeAliases | Sources/Base32/Decoding.swift:42 | replacing ':' to '?' with 'a' to 'f' changes neither decoder's result |
| Vectors.OneByteVectors | Sources/Base32/Base32.swift:17-28 | [0x00] encodes to "00" and [0xFF] to "zw" |
| Vectors.LoneZero | Sources/Base32/Decoding.swift:28 | "0" is rejected by the strict decoder for its count and yields [] from the lenient one |
| Vectors.DoubleZero | Sources/Base32/Decoding.swift:4-31 | "00" decodes to [0x00] in both decoders |
| Vectors.LetterOutsideAlphabet | Sources/Base32/Decoding.swift:42-50 | "0i" is rejected by both decoders, since 'i' has no mapping |
| Vectors.DecodeTwo | Sources/Base32/Decoding.swift:18-30 | a two-character text yields one byte; the strict decoder accepts it exactly when the second value's two low bits are zero |
| Vectors.NonzeroLeftover | Sources/Base32/Decoding.swift:28 | "01" is rejected by the strict decoder for its leftover bits and yields [0x00] from the lenient one |
| Vectors.WrappedValueAccepted | Sources/Base32/Decoding.swift:42 | "0," is accepted by both decoders as [0x3F], whose encoding is "7w": through the wrapped value 0xFC of ',' the strict decoder accepts a text that is not the encoding of what it decodes to |
| Vectors.DigitRangeAlias | Sources/Base32/Decoding.swift:42 | "<0" decodes like "c0", to [0x60] |

## Left out

- Constant-time selection (`Choice`, `replace(with:if:)`) is modelled by its value, as an `if`. The timing guarantee is not modelled.
- The `String` and `utf8` conversions around the codec are identities on byte sequences. The `String(bytes:encoding: .ascii)!` unwrap cannot fail, because every character is ASCII (`Reference.EncodeSymbols`).
- `init?(base32Encoded:)` on a `StringProtocol` (Decoding.swift:33-35) is the same method applied to the text's bytes.
- A generic `Sequence`'s iterator is modelled as the input `seq` with the position of the next byte. A single-pass or infinite base sequence is not modelled.
- A `RangeReplaceableCollection` is a `seq`, and `append` is concatenation. `reserveCapacity` only affects performance, and is not modelled.
- Swift's debug `assert` calls become requirements or `assert` statements. The 5-bit checks (Base32.swift:78, Encoding.swift:62) are preconditions of `ValueToChar`. The range checks in `next()` are proved in `EncodedBytes.Iterator.Next`.
- The eager encoder's loop body is the helper method `Base32.EncodePass`. The iterator's two branches are `EncodedBytes.Iterator.PullByte` and `EncodedBytes.Iterator.EmitCharacter`. The loop body the two decoders share is `Base32.DecodePass`; the strict decoder counts the character before calling it. These are the same statements, in the same order.
- `DecodingError.dataCorrupted` is the `thrown` flag of `Base32.AppendBase32DecodedBytes` and the `None` of `Base32.Base32Decoded`.
- The package manifest and the `ConstantTime` and `Subtle` dependencies are not part of this model.
