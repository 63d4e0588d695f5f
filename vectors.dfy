/** Worked inputs of the codec: the encodings of one zero byte and one all-ones byte, a
    text both decoders accept, one both reject, the two texts the strict decoder rejects
    where the lenient one does not, and two texts the digit-range test lets through. */
module Vectors {
  import opened Words
  import opened BitString
  import opened Alphabet
  import opened Reference
  import opened Accumulator
  import opened Scan
  import opened Base32
  import opened Decoding

  /** [0x00] encodes to "00" and [0xFF] to "zw". */
  lemma OneByteVectors()
    ensures Encode([0x00]) == [0x30, 0x30]
    ensures Encode([0xff]) == [0x7a, 0x77]
  {
    EncodeOneByte(0x00);
    EncodeOneByte(0xff);
  }

  /** A lone "0" leaves one character, 1 modulo 8: the strict decoder rejects it, the
      lenient decoder yields nothing. */
  lemma LoneZero()
    ensures StrictDecode([0x30]) == None
    ensures LenientDecode([0x30]) == Some([])
  {
    assert StrictDecode([0x30]) == None by {
      assert BadResidue(|[0x30]|);
    }
    LenientDecodeLoneZero();
  }

  /** "00" is the encoding of [0x00], and both decoders read it back. */
  lemma DoubleZero()
    ensures StrictDecode([0x30, 0x30]) == Some([0x00])
    ensures LenientDecode([0x30, 0x30]) == Some([0x00])
  {
    CharToValueOfSymbol(0);
    DecodeTwo([0x30, 0x30], 0, 0);
  }

  /** "0i" holds 'i', which is not in the alphabet: both decoders reject it. */
  lemma LetterOutsideAlphabet()
    ensures StrictDecode([0x30, 0x69]) == None
    ensures LenientDecode([0x30, 0x69]) == None
  {
    CharToValueRejects(0x69);
    assert !Mapped([0x30, 0x69]) by {
      assert CharToValue([0x30, 0x69][1]).None?;
    }
  }

  /** A two-character text of values v0 and v1 holds one byte, the five bits of v0 and the
      top three of v1, and leaves the two low bits of v1 over: the strict decoder accepts
      it exactly when those are zero, the lenient decoder always. */
  lemma DecodeTwo(text: seq<uint8>, v0: uint8, v1: uint8)
    requires v0 < 32 && v1 < 32
    requires |text| == 2 && CharToValue(text[0]) == Some(v0) && CharToValue(text[1]) == Some(v1)
    ensures v0 * 8 + v1 / 4 < 0x100
    ensures StrictDecode(text) == if v1 % 4 == 0 then Some([v0 * 8 + v1 / 4]) else None
    ensures LenientDecode(text) == Some([v0 * 8 + v1 / 4])
  {
    assert Mapped(text) && ValuesOf(text) == [v0, v1];
    DecodeTwoValues(v0, v1);
    StrictDecodeValues(text);
    LenientDecodeValues(text);
  }

  /** "01" leaves the bits 01 after its one byte: the strict decoder rejects it, the lenient
      decoder yields the byte 0x00. */
  lemma NonzeroLeftover()
    ensures StrictDecode([0x30, 0x31]) == None
    ensures LenientDecode([0x30, 0x31]) == Some([0x00])
  {
    CharToValueOfSymbol(0);
    CharToValueOfSymbol(1);
    DecodeTwo([0x30, 0x31], 0, 1);
  }

  /** "<0" decodes as "c0" does, to [0x60]: '<' passes the digit-range test and is read as
      the value of 'c', 12, whose bits 01100 and the zero bits of '0' make 0110_0000. */
  lemma DigitRangeAlias(alias: seq<uint8>, text: seq<uint8>)
    requires |alias| == 2 && alias[0] == 0x3c && alias[1] == 0x30
    requires |text| == 2 && text[0] == 0x63 && text[1] == 0x30
    ensures StrictDecode(alias) == StrictDecode(text) == Some([0x60])
  {
    assert alias[0 := alias[0] + 0x27] == text;
    assert StrictDecode(alias) == StrictDecode(text) by {
      DigitRangeAliases(alias, 0);
    }
    LetterZero(text);
  }

  /** "c0" holds the values 12 and 0, which make the byte 0110_0000. */
  lemma LetterZero(text: seq<uint8>)
    requires |text| == 2 && text[0] == 0x63 && text[1] == 0x30
    ensures StrictDecode(text) == Some([0x60])
  {
    CharToValueOfSymbol(0);
    CharToValueOfSymbol(12);
    DecodeTwo(text, 12, 0);
  }

  /** ",", 0x2C, passes the digit-range test with the wrapped value 0xFC, whose top three
      bits land on the bits of the character before it: the strict decoder accepts "0,"
      as [0x3F], whose encoding is "7w". A text outside the alphabet can thus be accepted
      without being the encoding of what it decodes to. */
  lemma WrappedValueAccepted(text: seq<uint8>)
    requires |text| == 2 && text[0] == 0x30 && text[1] == 0x2c
    ensures StrictDecode(text) == Some([0x3f])
    ensures LenientDecode(text) == Some([0x3f])
    ensures Encode([0x3f]) == [0x37, 0x77] != text
  {
    assert StrictDecode(text) == Some([0x3f]) by {
      ScanZeroThenWrapped(text);
      assert !BadResidue(|text|);
    }
    assert Encode([0x3f]) == [0x37, 0x77] by {
      EncodeOneByte(0x3f);
    }
  }

  /** "0," is mapped, to the values 0 and 0xFC, and the loop over it emits 0x3F. */
  lemma ScanZeroThenWrapped(text: seq<uint8>)
    requires |text| == 2 && text[0] == 0x30 && text[1] == 0x2c
    ensures ScanText(text) == Scanned(DecoderState(0, 14, [0x3f]), false)
  {
    assert Mapped(text) && ValuesOf(text) == [0x00, 0xfc] by {
      CharToValueOfSymbol(0);
      CharToValueLow(0x2c);
    }
    ScanMapped(text);
    AbsorbZeroThenWrapped();
  }

  /** The decoding loop on the values 0 and 0xFC: the first pass only or-s in zero, the
      second or-s 0xFC in at bit 6 and emits 0x3F, leaving the accumulator empty. */
  lemma AbsorbZeroThenWrapped()
    ensures AbsorbAll([0x00, 0xfc]) == DecoderState(0, 14, [0x3f])
  {
    Pow2Values();
    var first := DecoderState(0, 11, []);
    assert AbsorbAll([0x00]) == first by {
      assert [0x00][..0] == [];
      AbsorbMerges(Start, 0x00);
    }
    assert Absorb(first, 0xfc) == DecoderState(0, 14, [0x3f]) by {
      AbsorbEmits(first, 0xfc);
      assert MaskingShiftLeft(0xfc, 6) == 0x3f00;
      assert ShiftRight(0x3f00, 8) == 0x3f;
    }
    assert [0x00, 0xfc][..1] == [0x00];
  }
}
