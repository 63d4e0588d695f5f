/** The strict decoder `init?(base32Encoded:)`: the decoding loop of the lenient decoder,
    followed by a check that the character count is one an encoding can have and that no
    bit is left in the accumulator. */
module Decoding {
  import opened Words
  import opened BitString
  import opened Alphabet
  import opened Reference
  import opened Accumulator
  import opened Scan
  import opened Base32

  /** What the strict decoder makes of a text: nil at an unmapped character, for a count of
      1, 3 or 6 modulo 8, and for bits left in the accumulator; otherwise the bytes the
      decoding loop emits. */
  function StrictDecode(text: seq<uint8>): (r: Option<seq<uint8>>)
    ensures r.Some? ==> Mapped(text) && !BadResidue(|text|)
    ensures r.Some? ==> LenientDecode(text) == r
  {
    ScanStopsUnmapped(text);
    var scanned := ScanText(text);
    if scanned.stopped || BadResidue(|text|) || scanned.state.accumulator != 0 then None
    else Some(scanned.state.bytes)
  }

  /** `RangeReplaceableCollection.init?(base32Encoded:)` on a byte sequence: the decoding
      loop, counting characters, then the check of the count and of the accumulator. */
  method InitBase32Encoded(text: seq<uint8>) returns (r: Option<seq<uint8>>)
    ensures r == StrictDecode(text)
  {
    var bytes: seq<uint8> := [];
    var characterCount := 0;
    var accumulator: uint16 := 0;
    var unsetBitsCount := 16;
    var i := 0;
    ghost var state := Start;
    assert text[..0] == [];
    while i < |text|
      invariant 0 <= i <= |text| && characterCount == i
      invariant ScanText(text[..i]) == Scanned(state, false)
      invariant accumulator == state.accumulator && unsetBitsCount == state.unsetBits
      invariant bytes == state.bytes
    {
      var bits := CharToValue(text[i]);
      if bits.None? {
        ScanSnoc(text, i);
        ScanStopped(text, i + 1);
        return None;
      }
      characterCount := characterCount + 1;
      accumulator, unsetBitsCount, bytes := DecodePass(accumulator, unsetBitsCount, bits.value, bytes);
      ScanSnoc(text, i);
      state := Absorb(state, bits.value);
      i := i + 1;
    }
    assert text[..i] == text;
    if BadResidue(characterCount) || accumulator != 0 {
      return None;
    }
    return Some(bytes);
  }

  // ---------------------------------------------------------------------------
  // What the strict decoder promises
  // ---------------------------------------------------------------------------

  /** The strict decoder accepts exactly the texts whose characters all have a mapping, whose
      count is not 1, 3 or 6 modulo 8, and whose values leave no bit in the accumulator; what
      it accepts, the lenient decoder reads the same way, floor(5c / 8) bytes for c
      characters. */
  lemma StrictDecodeAccepts(text: seq<uint8>)
    ensures StrictDecode(text).Some? <==>
              Mapped(text) && !BadResidue(|text|) && AbsorbAll(ValuesOf(text)).accumulator == 0
    ensures StrictDecode(text).Some? ==>
              LenientDecode(text) == StrictDecode(text) && |StrictDecode(text).value| == 5 * |text| / 8
  {
    LenientThrowsAtFirstUnmapped(text);
    if Mapped(text) {
      ScanMapped(text);
    }
    if StrictDecode(text).Some? {
      LenientDecodeLength(text);
    }
  }

  /** On characters mapped to 5-bit values the strict decoder is the reference decoding. */
  lemma StrictDecodeValues(text: seq<uint8>)
    requires Mapped(text) && AllFiveBit(ValuesOf(text))
    ensures StrictDecode(text) == DecodeValues(ValuesOf(text))
  {
    ScanMapped(text);
    AbsorbAllReference(ValuesOf(text));
  }

  /** Round trip: the strict decoder reads back every encoding. */
  lemma StrictDecodeOfEncode(bytes: seq<uint8>)
    ensures StrictDecode(Encode(bytes)) == Some(bytes)
  {
    ValuesOfChars(Groups(ByteBits(bytes)));
    StrictDecodeValues(Encode(bytes));
    DecodeValuesOfGroups(bytes);
  }

  /** Canonicality: a text the strict decoder accepts, with none of the five characters
      0x2A-0x2E, has the values of the encoding of what it decodes to; so it is that
      encoding up to the aliases ':' to '?' of 'a' to 'f'. */
  lemma StrictDecodeCanonical(text: seq<uint8>, bytes: seq<uint8>)
    requires StrictDecode(text) == Some(bytes)
    requires forall i :: 0 <= i < |text| ==> !(0x2a <= text[i] <= 0x2e)
    ensures Mapped(text) && ValuesOf(text) == Groups(ByteBits(bytes))
  {
    StrictDecodeAccepts(text);
    var values := ValuesOf(text);
    forall i | 0 <= i < |values|
      ensures values[i] < 32
    {
      CharToValueWidth(text[i]);
    }
    StrictDecodeValues(text);
    DecodeValuesCanonical(values, bytes);
  }

  /** A text of alphabet characters that the strict decoder accepts is the encoding of what
      it decodes to: each byte string has exactly one such text. */
  lemma StrictDecodeCanonicalSymbols(text: seq<uint8>, bytes: seq<uint8>)
    requires StrictDecode(text) == Some(bytes)
    requires forall i :: 0 <= i < |text| ==> IsSymbol(text[i])
    ensures text == Encode(bytes)
  {
    forall i | 0 <= i < |text|
      ensures !(0x2a <= text[i] <= 0x2e)
    {
      SymbolOfCharToValue(text[i]);
      CharToValueWidth(text[i]);
    }
    StrictDecodeCanonical(text, bytes);
    var values := Groups(ByteBits(bytes));
    forall i | 0 <= i < |text|
      ensures text[i] == Encode(bytes)[i]
    {
      SymbolOfCharToValue(text[i]);
      CharsAt(values, i);
    }
  }

  /** The digit-range test reads ':' to '?' as 'a' to 'f': putting the letter in place of
      such a character changes neither decoder's result. */
  lemma DigitRangeAliases(text: seq<uint8>, i: nat)
    requires i < |text| && 0x3a <= text[i] <= 0x3f
    ensures StrictDecode(text[i := text[i] + 0x27]) == StrictDecode(text)
    ensures LenientDecode(text[i := text[i] + 0x27]) == LenientDecode(text)
  {
    var c := text[i];
    CharToValueDigitRangeQuirk(c);
    CharToValueOfSymbol(c - 0x30);
    SymbolSegments(c - 0x30);
    ScanSameValues(text[i := c + 0x27], text);
  }
}
