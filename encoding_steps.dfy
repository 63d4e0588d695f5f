/** The steps of the two encoding loops, stated against the reference encoding: each
    emitted character is the next character of the encoding, and each pulled byte moves
    its bits from the input into the accumulator. */
module EncodingSteps {
  import opened Words
  import opened BitString
  import opened Alphabet
  import opened Reference
  import opened Accumulator

  /** Emitting a character with five pending bits or more: `accumulator >> 11` fits in five
      bits, its character is the first character of the encoding of what is still to come,
      and shifting left by five drops exactly those five bits. */
  lemma EmitGroup(accumulator: uint16, unsetBits: int, pending: seq<bool>, rest: seq<bool>)
    requires Packs(accumulator, unsetBits, pending) && 5 <= |pending|
    ensures ShiftRight(accumulator, 11) < 32
    ensures Chars(Groups(pending + rest))
            == [WordToChar(ShiftRight(accumulator, 11))] + Chars(Groups(pending[5..] + rest))
    ensures Packs(ShiftLeft(accumulator, 5), unsetBits + 5, pending[5..])
  {
    TakeTop(accumulator, unsetBits, pending, 5);
    NextGroup(pending, rest);
    ValueToCharIsSymbol(Val(pending[..5]));
  }

  /** The first character of the encoding of bits with five or more of them is the symbol
      of their first five. */
  lemma NextGroup(pending: seq<bool>, rest: seq<bool>)
    requires 5 <= |pending|
    ensures Val(pending[..5]) < 32
    ensures Chars(Groups(pending + rest))
            == [Symbol(Val(pending[..5]))] + Chars(Groups(pending[5..] + rest))
  {
    var v := Val(pending[..5]);
    assert v < 32 by {
      Pow2Values();
    }
    var g := Groups(pending[5..] + rest);
    assert Groups(pending + rest) == [v] + g by {
      var bits := pending + rest;
      assert bits[..5] == pending[..5] && bits[5..] == pending[5..] + rest;
    }
    assert ([v] + g)[1..] == g;
  }

  /** Emitting the last character, with fewer than five pending bits and no input left:
      it is the whole remaining encoding, and the accumulator is left empty. */
  lemma EmitLastGroup(accumulator: uint16, unsetBits: int, pending: seq<bool>)
    requires Packs(accumulator, unsetBits, pending) && 0 < |pending| < 5
    ensures ShiftRight(accumulator, 11) < 32
    ensures Chars(Groups(pending)) == [WordToChar(ShiftRight(accumulator, 11))]
    ensures ShiftLeft(accumulator, 5) == 0
  {
    TakeLastGroup(accumulator, unsetBits, pending);
    var v := Val(pending + Zeros(5 - |pending|));
    assert v < 32 by {
      Pow2Values();
    }
    ValueToCharIsSymbol(v);
  }

  /** The pending bits after a character is emitted: five fewer, or none once fewer than
      five were left. */
  function Drop5(pending: seq<bool>): (rest: seq<bool>)
    ensures |rest| == if 5 <= |pending| then |pending| - 5 else 0
  {
    if 5 <= |pending| then pending[5..] else []
  }

  /** Emitting a character with some bits pending, and five or more of them unless no input
      is left: the character is the first character of the encoding of what is still to
      come, and after `accumulator <<= 5` the accumulator packs the rest whenever 16 bits
      or fewer are unset. */
  lemma EmitNext(accumulator: uint16, unsetBits: int, pending: seq<bool>, rest: seq<bool>)
    requires Packs(accumulator, unsetBits, pending) && pending != []
    requires |pending| < 5 ==> rest == []
    ensures ShiftRight(accumulator, 11) < 32
    ensures Chars(Groups(pending + rest))
            == [WordToChar(ShiftRight(accumulator, 11))] + Chars(Groups(Drop5(pending) + rest))
    ensures unsetBits + 5 <= 16 ==> Packs(ShiftLeft(accumulator, 5), unsetBits + 5, Drop5(pending))
    ensures 16 < unsetBits + 5 ==> Drop5(pending) == []
  {
    if 5 <= |pending| {
      EmitGroup(accumulator, unsetBits, pending, rest);
    } else {
      EmitLastGroup(accumulator, unsetBits, pending);
      assert pending + rest == pending && Drop5(pending) + rest == [];
    }
  }

  /** Pulling input byte `index` moves its bits from the input to the pending bits. */
  lemma TakeNext(accumulator: uint16, unsetBits: int, pending: seq<bool>, bytes: seq<uint8>, index: nat)
    requires Packs(accumulator, unsetBits, pending) && 8 <= unsetBits && index < |bytes|
    ensures Packs(Or(accumulator, MaskingShiftLeft(bytes[index], unsetBits - 8)), unsetBits - 8,
                  pending + BitsOf(bytes[index], 8))
    ensures pending + ByteBits(bytes[index..])
            == (pending + BitsOf(bytes[index], 8)) + ByteBits(bytes[index + 1..])
  {
    TakeByte(accumulator, unsetBits, pending, bytes[index]);
    PullBits(pending, bytes, index);
  }

  /** The bits of byte `index` move from the bytes not yet pulled to the pending bits. */
  lemma PullBits(pending: seq<bool>, bytes: seq<uint8>, index: nat)
    requires index < |bytes|
    ensures pending + ByteBits(bytes[index..])
            == (pending + BitsOf(bytes[index], 8)) + ByteBits(bytes[index + 1..])
  {
    var b := bytes[index];
    assert ByteBits(bytes[index..]) == BitsOf(b, 8) + ByteBits(bytes[index + 1..]) by {
      var s := bytes[index..];
      assert s != [] && s[0] == b && s[1..] == bytes[index + 1..];
    }
    assert pending + (BitsOf(b, 8) + ByteBits(bytes[index + 1..]))
           == (pending + BitsOf(b, 8)) + ByteBits(bytes[index + 1..]);
  }

  /** The state of an encoding loop part-way through `bytes`: `index` bytes have been
      pulled, `emitted` characters produced, the accumulator packs the pending bits while
      16 bits or fewer are unset, and the emitted characters followed by the encoding of
      the pending bits and the bytes not yet pulled are the encoding of `bytes`. */
  ghost predicate Encoding(bytes: seq<uint8>, index: nat, emitted: seq<uint8>,
                           accumulator: uint16, unsetBits: int, pending: seq<bool>) {
    index <= |bytes| && 0 <= unsetBits <= 20
    && (unsetBits <= 16 ==> Packs(accumulator, unsetBits, pending))
    && (16 < unsetBits ==> pending == [] && index == |bytes|)
    && emitted + Chars(Groups(pending + ByteBits(bytes[index..]))) == Encode(bytes)
  }

  /** Nothing emitted and nothing pulled: the state `accumulator = 0`, `unsetBitsCount = 16`
      the iterator starts from. */
  lemma EncodingEmpty(bytes: seq<uint8>)
    ensures Encoding(bytes, 0, [], 0, 16, [])
  {
    EmptyAccumulator();
    assert [] + ByteBits(bytes[0..]) == ByteBits(bytes);
  }

  /** The first byte pulled into `UInt16(first) << 8`, the state the eager encoder starts
      from. */
  lemma EncodingFirst(bytes: seq<uint8>)
    requires bytes != []
    ensures Encoding(bytes, 1, [], ShiftLeft(bytes[0], 8), 8, BitsOf(bytes[0], 8))
  {
    FirstByte(bytes[0]);
    assert BitsOf(bytes[0], 8) + ByteBits(bytes[1..]) == ByteBits(bytes);
  }

  /** Emitting a character with fewer than 16 bits unset, and at most 11 unless no input is
      left: `accumulator >> 11` fits in five bits, its character is the next character of
      the encoding, and `accumulator <<= 5; unsetBits += 5` keeps the state. */
  lemma EncodingEmit(bytes: seq<uint8>, index: nat, emitted: seq<uint8>,
                     accumulator: uint16, unsetBits: int, pending: seq<bool>)
    requires Encoding(bytes, index, emitted, accumulator, unsetBits, pending)
    requires unsetBits < 16 && (index < |bytes| ==> unsetBits <= 11)
    ensures ShiftRight(accumulator, 11) < 32
    ensures Encoding(bytes, index, emitted + [WordToChar(ShiftRight(accumulator, 11))],
                     ShiftLeft(accumulator, 5), unsetBits + 5, Drop5(pending))
  {
    var rest := ByteBits(bytes[index..]);
    EmitNext(accumulator, unsetBits, pending, rest);
    Reassociate(emitted, WordToChar(ShiftRight(accumulator, 11)), Chars(Groups(Drop5(pending) + rest)));
  }

  lemma Reassociate(emitted: seq<uint8>, c: uint8, tail: seq<uint8>)
    ensures (emitted + [c]) + tail == emitted + ([c] + tail)
  {
  }

  /** Pulling input byte `index` with 8 to 16 bits unset keeps the state. */
  lemma EncodingTake(bytes: seq<uint8>, index: nat, emitted: seq<uint8>,
                     accumulator: uint16, unsetBits: int, pending: seq<bool>)
    requires Encoding(bytes, index, emitted, accumulator, unsetBits, pending)
    requires 8 <= unsetBits <= 16 && index < |bytes|
    ensures Encoding(bytes, index + 1, emitted,
                     Or(accumulator, MaskingShiftLeft(bytes[index], unsetBits - 8)), unsetBits - 8,
                     pending + BitsOf(bytes[index], 8))
  {
    TakeNext(accumulator, unsetBits, pending, bytes, index);
  }

  /** One pass of the eager encoder's loop keeps the state: the character of the top five
      bits is emitted, and then, with 8 bits or more unset and input left, the next byte is
      pulled. */
  lemma EncodingPass(bytes: seq<uint8>, index: nat, emitted: seq<uint8>,
                     accumulator: uint16, unsetBits: int, pending: seq<bool>)
    requires Encoding(bytes, index, emitted, accumulator, unsetBits, pending)
    requires unsetBits < 16 && (index < |bytes| ==> unsetBits <= 11)
    ensures ShiftRight(accumulator, 11) < 32
    ensures var characters := emitted + [WordToChar(ShiftRight(accumulator, 11))];
            if 8 <= unsetBits + 5 && index < |bytes| then
              Encoding(bytes, index + 1, characters,
                       Or(ShiftLeft(accumulator, 5), MaskingShiftLeft(bytes[index], unsetBits + 5 - 8)),
                       unsetBits + 5 - 8, Drop5(pending) + BitsOf(bytes[index], 8))
            else
              Encoding(bytes, index, characters, ShiftLeft(accumulator, 5), unsetBits + 5, Drop5(pending))
  {
    EncodingEmit(bytes, index, emitted, accumulator, unsetBits, pending);
    if 8 <= unsetBits + 5 && index < |bytes| {
      EncodingTake(bytes, index, emitted + [WordToChar(ShiftRight(accumulator, 11))],
                   ShiftLeft(accumulator, 5), unsetBits + 5, Drop5(pending));
    }
  }

  /** Emitting a character with 0 to 15 bits unset, 11 at most while input is left: the
      character is the next character of the encoding. */
  lemma EncodingStep(bytes: seq<uint8>, index: nat, emitted: seq<uint8>,
                     accumulator: uint16, unsetBits: int, pending: seq<bool>)
    requires Encoding(bytes, index, emitted, accumulator, unsetBits, pending)
    requires unsetBits < 16 && (index < |bytes| ==> unsetBits <= 11)
    ensures ShiftRight(accumulator, 11) < 32
    ensures var character := WordToChar(ShiftRight(accumulator, 11));
            |emitted| < |Encode(bytes)| && Encode(bytes)[|emitted|] == character
            && Encoding(bytes, index, emitted + [character], ShiftLeft(accumulator, 5), unsetBits + 5,
                        Drop5(pending))
  {
    EncodingEmit(bytes, index, emitted, accumulator, unsetBits, pending);
    var character := WordToChar(ShiftRight(accumulator, 11));
    EncodingEmitted(bytes, index, emitted + [character], ShiftLeft(accumulator, 5), unsetBits + 5,
                    Drop5(pending));
    assert Encode(bytes)[..|emitted| + 1][|emitted|] == character;
  }

  /** With 16 bits or more unset and no input left, everything has been emitted. */
  lemma EncodingDone(bytes: seq<uint8>, index: nat, emitted: seq<uint8>,
                     accumulator: uint16, unsetBits: int, pending: seq<bool>)
    requires Encoding(bytes, index, emitted, accumulator, unsetBits, pending)
    requires 16 <= unsetBits && index == |bytes|
    ensures emitted == Encode(bytes)
  {
    assert pending + ByteBits(bytes[index..]) == [];
  }

  /** The characters emitted so far are the start of the encoding. */
  lemma EncodingEmitted(bytes: seq<uint8>, index: nat, emitted: seq<uint8>,
                        accumulator: uint16, unsetBits: int, pending: seq<bool>)
    requires Encoding(bytes, index, emitted, accumulator, unsetBits, pending)
    ensures |emitted| <= |Encode(bytes)| && emitted == Encode(bytes)[..|emitted|]
  {
  }

  /** Pulling the next input byte with 8 unset bits or more: `UInt16(byte) &<< (unsetBits - 8)`
      loses no bit, and the byte's bits move from the input to the pending bits. */
  lemma TakeByte(accumulator: uint16, unsetBits: int, pending: seq<bool>, byte: uint8)
    requires Packs(accumulator, unsetBits, pending) && 8 <= unsetBits
    ensures Packs(Or(accumulator, MaskingShiftLeft(byte, unsetBits - 8)), unsetBits - 8,
                  pending + BitsOf(byte, 8))
  {
    assert byte < Pow2(8) by {
      Pow2Values();
    }
    OrInto(accumulator, unsetBits, pending, byte, 8);
  }

  /** `UInt16(first) << 8` packs the first byte's bits, with 8 bits unset. */
  lemma FirstByte(first: uint8)
    ensures Packs(ShiftLeft(first, 8), 8, BitsOf(first, 8))
  {
    assert first < Pow2(8) by {
      Pow2Values();
    }
    ShiftedFits(first, 8, 8);
    ValBitsOf(first, 8);
    ValConcat(BitsOf(first, 8), Zeros(8));
    ValZeros(8);
  }

  /** The empty accumulator packs no bits. */
  lemma EmptyAccumulator()
    ensures Packs(0, 16, [])
  {
    ValZeros(16);
    assert [] + Zeros(16) == Zeros(16);
  }
}
