/** The lazy encoder `base32EncodedBytes()`: a sequence whose iterator pulls input bytes on
    demand and yields one character per call to `next()`, and `base32EncodedString()`, which
    collects everything the iterator yields. */
module EncodedBytes {
  import opened Words
  import opened BitString
  import opened Alphabet
  import opened Reference
  import opened EncodingSteps

  /** `Base32EncodedBytesSequence.Iterator`. The base sequence's iterator is the input
      `base` with the position `index` of the next byte it hands out. */
  class Iterator {
    const base: seq<uint8>
    var index: nat
    var accumulator: uint16
    var unsetBitsCount: int
    /** The bits pulled in and not yet emitted. */
    ghost var pending: seq<bool>
    /** The characters yielded so far. */
    ghost var yielded: seq<uint8>

    /** Between calls to `next()` the state is an encoding state, and while input is left
        no more than 16 bits are unset. */
    ghost predicate Valid()
      reads this
    {
      Encoding(base, index, yielded, accumulator, unsetBitsCount, pending)
      && (index < |base| ==> unsetBitsCount <= 16)
    }

    /** `makeIterator()`: an empty accumulator with all 16 bits unset. */
    constructor (base: seq<uint8>)
      ensures Valid() && this.base == base && yielded == []
      ensures index == 0 && accumulator == 0 && unsetBitsCount == 16
    {
      this.base := base;
      index := 0;
      accumulator := 0;
      unsetBitsCount := 16;
      pending := [];
      yielded := [];
      EncodingEmpty(base);
    }

    /** Ready for the character of the top five bits: 0 to 15 bits unset, and at most 11
        while input is left. */
    ghost predicate ReadyToEmit()
      reads this
    {
      Encoding(base, index, yielded, accumulator, unsetBitsCount, pending)
      && 0 <= unsetBitsCount <= 15 && (index < |base| ==> unsetBitsCount <= 11)
    }

    /** `next()`: pull a byte when 8 bits or more are unset and input is left, finish when
        none is left and all 16 bits are unset, and otherwise yield the character of the top
        five bits and shift them out. Each character yielded is the next character of the
        encoding, and nil comes exactly once the whole encoding has been yielded. */
    method Next() returns (r: Option<uint8>)
      requires Valid()
      modifies this
      ensures Valid()
      ensures r.Some? ==> |old(yielded)| < |Encode(base)| && r.value == Encode(base)[|old(yielded)|]
                          && yielded == old(yielded) + [r.value]
      ensures r.None? ==> yielded == old(yielded) == Encode(base)
    {
      assert 0 <= unsetBitsCount <= 20;
      if unsetBitsCount >= 8 {
        if index < |base| {
          assert 8 <= unsetBitsCount <= 16;
          PullByte();
        } else if unsetBitsCount >= 16 {
          EncodingDone(base, index, yielded, accumulator, unsetBitsCount, pending);
          return None;
        }
      }
      assert 0 <= unsetBitsCount <= 15;
      var character := EmitCharacter();
      return Some(character);
    }

    /** The `if let byte = iterator.next()` branch: the byte goes in below the pending bits. */
    method PullByte()
      requires Valid() && 8 <= unsetBitsCount && index < |base|
      modifies this
      ensures ReadyToEmit() && yielded == old(yielded)
    {
      EncodingTake(base, index, yielded, accumulator, unsetBitsCount, pending);
      var byte := base[index];
      var unset := unsetBitsCount - 8;
      index, unsetBitsCount, accumulator, pending :=
        index + 1, unset, Or(accumulator, MaskingShiftLeft(byte, unset)), pending + BitsOf(byte, 8);
    }

    /** The character of `accumulator >> 11`, with the deferred `accumulator <<= 5` and
        `unsetBitsCount += 5`: it is the next character of the encoding. */
    method EmitCharacter() returns (character: uint8)
      requires ReadyToEmit()
      modifies this
      ensures Valid()
      ensures |old(yielded)| < |Encode(base)| && character == Encode(base)[|old(yielded)|]
      ensures yielded == old(yielded) + [character]
    {
      EncodingStep(base, index, yielded, accumulator, unsetBitsCount, pending);
      character := WordToChar(ShiftRight(accumulator, 11));
      accumulator, unsetBitsCount, pending, yielded :=
        ShiftLeft(accumulator, 5), unsetBitsCount + 5, Drop5(pending), yielded + [character];
    }
  }

  /** `base32EncodedString()`: every character the iterator yields, in order, which is the
      reference encoding, and so the characters the eager `base32Encoded()` returns. */
  method Base32EncodedString(bytes: seq<uint8>) returns (characters: seq<uint8>)
    ensures characters == Encode(bytes)
  {
    var encoded := new Iterator(bytes);
    characters := [];
    while true
      invariant encoded.Valid() && encoded.base == bytes && characters == encoded.yielded
      invariant |characters| <= |Encode(bytes)|
      decreases |Encode(bytes)| - |characters|
    {
      var character := encoded.Next();
      if character.None? {
        return;
      }
      characters := characters + [character.value];
    }
  }
}
