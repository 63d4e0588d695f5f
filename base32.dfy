/** The eager encoder `base32Encoded()` and the lenient decoder `appendBase32DecodedBytes(to:)`
    with its wrapper `base32Decoded()`. Text is its UTF-8 bytes; the String conversions
    around them are identities here. */
module Base32 {
  import opened Words
  import opened BitString
  import opened Alphabet
  import opened Reference
  import opened Accumulator
  import opened EncodingSteps
  import opened Scan

  // ---------------------------------------------------------------------------
  // Eager encoding
  // ---------------------------------------------------------------------------

  /** `Sequence.base32Encoded()`: the first byte primes the accumulator, then each pass
      emits the character of the top five bits and, once 8 bits or more are unset, pulls
      the next byte in below the pending bits. The characters are the reference encoding. */
  method Base32Encoded(bytes: seq<uint8>) returns (characters: seq<uint8>)
    ensures characters == Encode(bytes)
  {
    if |bytes| == 0 {
      return [];
    }
    characters := [];
    var index := 1;
    var accumulator: uint16 := ShiftLeft(bytes[0], 8);
    var unsetBits := 8;
    ghost var pending := BitsOf(bytes[0], 8);
    EncodingFirst(bytes);
    while unsetBits < 16
      invariant Encoding(bytes, index, characters, accumulator, unsetBits, pending)
      invariant index < |bytes| ==> unsetBits <= 11
      decreases |bytes| - index, 20 - unsetBits
    {
      index, characters, accumulator, unsetBits, pending :=
        EncodePass(bytes, index, characters, accumulator, unsetBits, pending);
    }
    EncodingDone(bytes, index, characters, accumulator, unsetBits, pending);
  }

  /** One pass of the loop of `base32Encoded()`: emit the character of the top five bits,
      then, with 8 bits or more unset and input left, pull the next byte in below the
      pending bits. The state is kept, and the pass moves the loop forward. */
  method EncodePass(bytes: seq<uint8>, index: nat, characters: seq<uint8>, accumulator: uint16,
                    unsetBits: int, ghost pending: seq<bool>)
    returns (index': nat, characters': seq<uint8>, accumulator': uint16, unsetBits': int,
             ghost pending': seq<bool>)
    requires Encoding(bytes, index, characters, accumulator, unsetBits, pending)
    requires unsetBits < 16 && (index < |bytes| ==> unsetBits <= 11)
    ensures Encoding(bytes, index', characters', accumulator', unsetBits', pending')
    ensures index' < |bytes| ==> unsetBits' <= 11
    ensures index < index' || (index == index' && unsetBits < unsetBits')
  {
    EncodingPass(bytes, index, characters, accumulator, unsetBits, pending);
    characters' := characters + [WordToChar(ShiftRight(accumulator, 11))];
    accumulator' := ShiftLeft(accumulator, 5);
    unsetBits' := unsetBits + 5;
    pending' := Drop5(pending);
    index' := index;
    if unsetBits' >= 8 && index' < |bytes| {
      var byte := bytes[index'];
      index' := index' + 1;
      unsetBits' := unsetBits' - 8;
      accumulator' := Or(accumulator', MaskingShiftLeft(byte, unsetBits'));
      pending' := pending' + BitsOf(byte, 8);
    }
  }

  // ---------------------------------------------------------------------------
  // Lenient decoding
  // ---------------------------------------------------------------------------

  /** What the lenient decoder does to a text: it throws at the first unmapped character,
      and otherwise yields the bytes the decoding loop emits, checking neither the length
      nor the bits left in the accumulator. */
  function LenientDecode(text: seq<uint8>): (r: Option<seq<uint8>>)
    ensures r.Some? <==> Mapped(text)
  {
    ScanStopsUnmapped(text);
    var scanned := ScanText(text);
    if scanned.stopped then None else Some(scanned.state.bytes)
  }

  /** `StringProtocol.appendBase32DecodedBytes(to:)`: one pass of the decoding loop per
      character, appending to `bytes`. On an unmapped character it throws, and since the
      collection is `inout`, what was appended before stays appended. */
  method AppendBase32DecodedBytes(text: seq<uint8>, bytes: seq<uint8>)
    returns (result: seq<uint8>, thrown: bool)
    ensures thrown == ScanText(text).stopped
    ensures result == bytes + ScanText(text).state.bytes
  {
    result := bytes;
    thrown := false;
    if |text| == 0 {
      return;
    }
    var accumulator: uint16 := 0;
    var unsetBits := 16;
    var i := 0;
    ghost var state := Start;
    assert text[..0] == [];
    while i < |text|
      invariant 0 <= i <= |text|
      invariant ScanText(text[..i]) == Scanned(state, false)
      invariant accumulator == state.accumulator && unsetBits == state.unsetBits
      invariant result == bytes + state.bytes
    {
      var bits := CharToValue(text[i]);
      if bits.None? {
        ScanSnoc(text, i);
        ScanStopped(text, i + 1);
        thrown := true;
        return;
      }
      AbsorbAfter(bytes, state, bits.value);
      accumulator, unsetBits, result := DecodePass(accumulator, unsetBits, bits.value, result);
      ScanSnoc(text, i);
      state := Absorb(state, bits.value);
      i := i + 1;
    }
    assert text[..i] == text;
  }

  /** One pass of the decoding loop on the mapped value of a character, the loop body of
      both decoders: five bits fewer are unset, the value is or-ed in at the new count, and
      once 8 bits or fewer are unset the top byte is appended and shifted out. */
  method DecodePass(accumulator: uint16, unsetBits: int, bits: uint8, bytes: seq<uint8>)
    returns (accumulator': uint16, unsetBits': int, bytes': seq<uint8>)
    requires 9 <= unsetBits <= 16
    ensures DecoderState(accumulator', unsetBits', bytes')
            == Absorb(DecoderState(accumulator, unsetBits, bytes), bits)
  {
    accumulator', unsetBits', bytes' := accumulator, unsetBits, bytes;
    unsetBits' := unsetBits' - 5;
    accumulator' := Or(accumulator', MaskingShiftLeft(bits, unsetBits'));
    if unsetBits' <= 8 {
      bytes' := bytes' + [Truncate(ShiftRight(accumulator', 8))];
      accumulator' := ShiftLeft(accumulator', 8);
      unsetBits' := unsetBits' + 8;
    }
  }

  /** A pass over a collection that already held `bytes` before the decoded ones appends
      what the pass over the decoded bytes alone appends. */
  lemma AbsorbAfter(bytes: seq<uint8>, state: DecoderState, bits: uint8)
    requires 9 <= state.unsetBits <= 16
    ensures var next := Absorb(state, bits);
            Absorb(DecoderState(state.accumulator, state.unsetBits, bytes + state.bytes), bits)
            == DecoderState(next.accumulator, next.unsetBits, bytes + next.bytes)
  {
    var next := Absorb(state, bits);
    if state.unsetBits - 5 <= 8 {
      assert bytes + state.bytes + [next.bytes[|state.bytes|]] == bytes + next.bytes;
    }
  }

  /** `StringProtocol.base32Decoded()`: the bytes the lenient decoder appends to an empty
      array, or None where it throws. */
  method Base32Decoded(text: seq<uint8>) returns (r: Option<seq<uint8>>)
    ensures r == LenientDecode(text)
  {
    var bytes, thrown := AppendBase32DecodedBytes(text, []);
    ghost var scanned := ScanText(text);
    if thrown {
      return None;
    }
    assert bytes == scanned.state.bytes by {
      assert [] + scanned.state.bytes == scanned.state.bytes;
    }
    return Some(bytes);
  }

  // ---------------------------------------------------------------------------
  // What the lenient decoder promises
  // ---------------------------------------------------------------------------

  /** The lenient decoder throws exactly when some character has no mapping, and it throws
      at the first one: the bytes appended before the throw are those of the characters
      before it, floor(5k / 8) of them for k characters. */
  lemma LenientThrowsAtFirstUnmapped(text: seq<uint8>)
    ensures var k := FirstUnmapped(text);
            var scanned := ScanText(text);
            (scanned.stopped <==> !Mapped(text))
            && scanned.state.bytes == AbsorbAll(ValuesOf(text[..k])).bytes
            && |scanned.state.bytes| == 5 * k / 8
  {
    var k := FirstUnmapped(text);
    ScanFirstUnmapped(text);
    AbsorbAllCounts(ValuesOf(text[..k]));
    if k == |text| {
      assert text[..k] == text;
    }
  }

  /** Every c-character text that decodes yields floor(5c / 8) bytes: a trailing partial
      byte is dropped whatever its bits. */
  lemma LenientDecodeLength(text: seq<uint8>)
    requires LenientDecode(text).Some?
    ensures |LenientDecode(text).value| == 5 * |text| / 8
  {
    LenientThrowsAtFirstUnmapped(text);
    assert text[..|text|] == text;
    FirstUnmappedAt(text, |text|);
  }

  /** On characters mapped to 5-bit values, the lenient decoder yields the whole bytes of
      the values' bits, with neither the length nor the bits after the last byte checked. */
  lemma LenientDecodeValues(text: seq<uint8>)
    requires Mapped(text) && AllFiveBit(ValuesOf(text))
    ensures LenientDecode(text) == Some(Bytes(ValueBits(ValuesOf(text))))
  {
    ScanMapped(text);
    AbsorbAllReference(ValuesOf(text));
  }

  /** Round trip: the lenient decoder reads back every encoding. */
  lemma LenientDecodeOfEncode(bytes: seq<uint8>)
    ensures LenientDecode(Encode(bytes)) == Some(bytes)
  {
    var values := Groups(ByteBits(bytes));
    ValuesOfChars(values);
    LenientDecodeValues(Encode(bytes));
    DecodeValuesOfGroups(bytes);
  }

  /** A lone "0" is accepted and yields no byte, where the strict decoder rejects it. */
  lemma LenientDecodeLoneZero()
    ensures LenientDecode(['0' as uint8]) == Some([])
  {
    var text := ['0' as uint8];
    CharToValueOfSymbol(0);
    assert Mapped(text);
    ScanMapped(text);
    LenientDecodeLength(text);
  }
}
