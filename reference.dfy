/** The reference codec, stated over bit strings: encoding reads the bytes' bits five at a
    time, zero-filling the last group, and decoding reads the characters' bits eight at a
    time, accepting only what some byte string encodes to. */
module Reference {
  import opened Words
  import opened BitString
  import opened Alphabet

  /** The bits of a byte string, eight per byte, most significant first. */
  function ByteBits(bytes: seq<uint8>): (s: seq<bool>)
    ensures |s| == 8 * |bytes|
  {
    if bytes == [] then [] else BitsOf(bytes[0], 8) + ByteBits(bytes[1..])
  }

  /** The bits of a sequence of 5-bit values, five per value. */
  function ValueBits(values: seq<uint8>): (s: seq<bool>)
    ensures |s| == 5 * |values|
  {
    if values == [] then [] else BitsOf(values[0], 5) + ValueBits(values[1..])
  }

  predicate AllFiveBit(values: seq<uint8>) {
    forall i :: 0 <= i < |values| ==> values[i] < 32
  }

  /** A bit string cut into 5-bit groups, the last group filled up with zero bits. */
  function Groups(bits: seq<bool>): (g: seq<uint8>)
    ensures |g| == (|bits| + 4) / 5
    ensures AllFiveBit(g)
    decreases |bits|
  {
    if |bits| == 0 then []
    else if |bits| < 5 then [Val(bits + Zeros(5 - |bits|))]
    else [Val(bits[..5])] + Groups(bits[5..])
  }

  /** The whole bytes of a bit string; a trailing partial byte is dropped. */
  function Bytes(bits: seq<bool>): (b: seq<uint8>)
    ensures |b| == |bits| / 8
    decreases |bits|
  {
    if |bits| < 8 then [] else [Val(bits[..8])] + Bytes(bits[8..])
  }

  /** The bits after the last whole byte. */
  function Leftover(bits: seq<bool>): seq<bool> {
    bits[8 * (|bits| / 8)..]
  }

  /** The alphabet characters of a sequence of 5-bit values. */
  function Chars(values: seq<uint8>): (s: seq<uint8>)
    requires AllFiveBit(values)
    ensures |s| == |values|
  {
    if values == [] then [] else [Symbol(values[0])] + Chars(values[1..])
  }

  /** The reference encoding: one alphabet character per 5-bit group of the input's bits. */
  function Encode(bytes: seq<uint8>): (s: seq<uint8>)
    ensures |s| == (8 * |bytes| + 4) / 5
  {
    Chars(Groups(ByteBits(bytes)))
  }

  /** Lengths modulo 8 that no byte string encodes to: one, three or six characters
      beyond a multiple of eight. */
  predicate BadResidue(count: nat) {
    count % 8 in {1, 3, 6}
  }

  /** The reference decoding of 5-bit values: the whole bytes of their bits, provided the
      count is not a bad residue and the bits after the last whole byte are all zero. */
  function DecodeValues(values: seq<uint8>): Option<seq<uint8>> {
    var bits := ValueBits(values);
    if BadResidue(|values|) || !AllZero(Leftover(bits)) then None else Some(Bytes(bits))
  }

  // ---------------------------------------------------------------------------
  // Structure lemmas
  // ---------------------------------------------------------------------------

  lemma {:induction false} ByteBitsConcat(a: seq<uint8>, b: seq<uint8>)
    ensures ByteBits(a + b) == ByteBits(a) + ByteBits(b)
    decreases |a|
  {
    if a != [] {
      assert (a + b)[1..] == a[1..] + b;
      ByteBitsConcat(a[1..], b);
    } else {
      assert a + b == b;
    }
  }

  lemma {:induction false} ValueBitsConcat(a: seq<uint8>, b: seq<uint8>)
    ensures ValueBits(a + b) == ValueBits(a) + ValueBits(b)
    decreases |a|
  {
    if a != [] {
      assert (a + b)[1..] == a[1..] + b;
      ValueBitsConcat(a[1..], b);
    } else {
      assert a + b == b;
    }
  }

  /** The symbols of a sequence of values are read back as those values. */
  lemma {:induction false} CharsConcat(a: seq<uint8>, b: seq<uint8>)
    requires AllFiveBit(a) && AllFiveBit(b)
    ensures AllFiveBit(a + b) && Chars(a + b) == Chars(a) + Chars(b)
    decreases |a|
  {
    if a != [] {
      assert (a + b)[1..] == a[1..] + b;
      CharsConcat(a[1..], b);
    } else {
      assert a + b == b;
    }
  }

  /** Bytes read back from the bits of bytes, followed by fewer than eight more bits. */
  lemma {:induction false} BytesOfByteBits(b: seq<uint8>, tail: seq<bool>)
    requires |tail| < 8
    ensures Bytes(ByteBits(b) + tail) == b
    ensures Leftover(ByteBits(b) + tail) == tail
    decreases |b|
  {
    var bits := ByteBits(b) + tail;
    if b == [] {
      assert bits == tail;
    } else {
      var rest := ByteBits(b[1..]) + tail;
      assert bits == BitsOf(b[0], 8) + rest;
      assert bits[..8] == BitsOf(b[0], 8);
      assert bits[8..] == rest;
      Pow2Values();
      ValBitsOf(b[0], 8);
      BytesOfByteBits(b[1..], tail);
      assert b == [b[0]] + b[1..];
      assert |bits| / 8 == 1 + |rest| / 8;
    }
  }

  /** A bit string is the bits of its whole bytes followed by its leftover bits. */
  lemma {:induction false} ByteBitsOfBytes(bits: seq<bool>)
    ensures bits == ByteBits(Bytes(bits)) + Leftover(bits)
    decreases |bits|
  {
    if |bits| >= 8 {
      ByteBitsOfBytes(bits[8..]);
      BitsOfVal(bits[..8]);
      var b := Bytes(bits);
      assert b[1..] == Bytes(bits[8..]);
      assert |bits| / 8 == 1 + |bits[8..]| / 8;
      assert Leftover(bits) == Leftover(bits[8..]);
      assert bits == bits[..8] + bits[8..];
    }
  }

  /** Zero bits appended to make the length a multiple of five change no group. */
  lemma {:induction false} GroupsZeroFill(bits: seq<bool>, k: nat)
    requires k < 5 && (|bits| + k) % 5 == 0
    ensures Groups(bits + Zeros(k)) == Groups(bits)
    decreases |bits|
  {
    var padded := bits + Zeros(k);
    if |bits| >= 5 {
      assert padded[..5] == bits[..5];
      assert padded[5..] == bits[5..] + Zeros(k);
      GroupsZeroFill(bits[5..], k);
    } else if |bits| > 0 {
      assert |padded| == 5 && padded[5..] == [];
      assert padded[..5] == padded;
    } else {
      assert k == 0 && padded == [];
    }
  }

  /** Cutting the bits of 5-bit values into groups gives the values back. */
  lemma {:induction false} GroupsOfValueBits(values: seq<uint8>)
    requires AllFiveBit(values)
    ensures Groups(ValueBits(values)) == values
    decreases |values|
  {
    if values != [] {
      var bits := ValueBits(values);
      assert bits[..5] == BitsOf(values[0], 5);
      assert bits[5..] == ValueBits(values[1..]);
      Pow2Values();
      ValBitsOf(values[0], 5);
      GroupsOfValueBits(values[1..]);
      assert values == [values[0]] + values[1..];
    }
  }

  /** Reading the groups of a whole number of 5-bit groups back as bits gives the bits. */
  lemma {:induction false} ValueBitsOfGroups(bits: seq<bool>)
    requires |bits| % 5 == 0
    ensures ValueBits(Groups(bits)) == bits
    decreases |bits|
  {
    if bits != [] {
      var g := Groups(bits);
      assert g[1..] == Groups(bits[5..]);
      ValueBitsOfGroups(bits[5..]);
      BitsOfVal(bits[..5]);
      assert ValueBits(g) == bits[..5] + bits[5..];
    }
  }

  /** The number of characters encoding n bytes is never a bad residue. */
  lemma EncodedLengthResidue(n: nat)
    ensures !BadResidue((8 * n + 4) / 5)
  {
    var q, r := n / 5, n % 5;
    assert 8 * n + 4 == 40 * q + (8 * r + 4);
    assert (8 * n + 4) / 5 == 8 * q + (8 * r + 4) / 5;
  }

  /** A count that is not a bad residue leaves fewer than five bits after the last byte. */
  lemma GoodResidueLeftover(count: nat)
    requires !BadResidue(count)
    ensures (5 * count) % 8 < 5
  {
    var q, r := count / 8, count % 8;
    assert 5 * count == 40 * q + 5 * r;
    assert (5 * count) % 8 == (5 * r) % 8;
  }

  // ---------------------------------------------------------------------------
  // The reference codec's properties
  // ---------------------------------------------------------------------------

  /** Every encoded character is in the alphabet, and the encoding of bytes b is as long
      as the number of 5-bit groups in 8 * |b| bits. */
  lemma EncodeSymbols(bytes: seq<uint8>)
    ensures |Encode(bytes)| == (8 * |bytes| + 4) / 5
    ensures forall i :: 0 <= i < |Encode(bytes)| ==> IsSymbol(Encode(bytes)[i])
  {
    var g := Groups(ByteBits(bytes));
    forall i | 0 <= i < |g|
      ensures IsSymbol(Encode(bytes)[i])
    {
      CharsAt(g, i);
    }
  }

  lemma {:induction false} CharsAt(values: seq<uint8>, i: nat)
    requires AllFiveBit(values) && i < |values|
    ensures Chars(values)[i] == Symbol(values[i])
    decreases i
  {
    if i > 0 {
      CharsAt(values[1..], i - 1);
    }
  }

  /** The reference decoding undoes the reference grouping: every byte string is recovered
      from its 5-bit groups. */
  lemma DecodeValuesOfGroups(bytes: seq<uint8>)
    ensures DecodeValues(Groups(ByteBits(bytes))) == Some(bytes)
  {
    var bits := ByteBits(bytes);
    var pad := (5 - |bits| % 5) % 5;
    var padded := bits + Zeros(pad);
    assert pad < 5 && |padded| % 5 == 0 by {
      PadToFive(|bits|);
    }
    assert Groups(bits) == Groups(padded) by {
      GroupsZeroFill(bits, pad);
    }
    var values := Groups(bits);
    assert ValueBits(values) == padded by {
      ValueBitsOfGroups(padded);
    }
    assert !BadResidue(|values|) by {
      EncodedLengthResidue(|bytes|);
    }
    assert Bytes(padded) == bytes && AllZero(Leftover(padded)) by {
      BytesOfByteBits(bytes, Zeros(pad));
    }
  }

  /** Canonicality: 5-bit values that the reference decoding accepts are exactly the groups
      of the bytes they decode to. */
  lemma DecodeValuesCanonical(values: seq<uint8>, bytes: seq<uint8>)
    requires AllFiveBit(values)
    requires DecodeValues(values) == Some(bytes)
    ensures Groups(ByteBits(bytes)) == values
  {
    var bits := ValueBits(values);
    var tail := Leftover(bits);
    assert bytes == Bytes(bits) && AllZero(tail) && !BadResidue(|values|) by {
      assert DecodeValues(values) == Some(bytes);
    }
    var k := |tail|;
    assert k < 5 by {
      assert k == (5 * |values|) % 8;
      GoodResidueLeftover(|values|);
    }
    assert bits == ByteBits(bytes) + Zeros(k) by {
      ByteBitsOfBytes(bits);
      AllZeroIsZeros(tail);
      calc {
        bits;
        ByteBits(Bytes(bits)) + Leftover(bits);
        ByteBits(bytes) + Zeros(k);
      }
    }
    assert Groups(ByteBits(bytes)) == Groups(bits) by {
      assert |ByteBits(bytes)| + k == 5 * |values| by {
        assert |ByteBits(bytes) + Zeros(k)| == |bits|;
      }
      MultipleOfFive(|ByteBits(bytes)| + k, |values|);
      GroupsZeroFill(ByteBits(bytes), k);
    }
    GroupsOfValueBits(values);
  }

  lemma PadToFive(n: nat)
    ensures (5 - n % 5) % 5 < 5 && (n + (5 - n % 5) % 5) % 5 == 0
  {
  }

  lemma MultipleOfFive(a: nat, n: nat)
    requires a == 5 * n
    ensures a % 5 == 0
  {
  }

  // ---------------------------------------------------------------------------
  // Short inputs
  // ---------------------------------------------------------------------------

  /** The 8 bits of one byte are two groups: its top five bits, then its low three bits
      followed by two zero bits. */
  lemma OneByteGroups(b: uint8)
    ensures Groups(BitsOf(b, 8)) == [b / 8, (b % 8) * 4]
  {
    var s := BitsOf(b, 8);
    var high, low := s[..5], s[5..];
    assert Val(high) == b / 8 && Val(low + Zeros(2)) == (b % 8) * 4 by {
      assert Val(s) == Val(high) * 8 + Val(low) && Val(low) < 8 by {
        Pow2Values();
        ValSplit(s, 5);
      }
      assert Val(s) == b by {
        Pow2Values();
        ValBitsOf(b, 8);
      }
      assert Val(low + Zeros(2)) == Val(low) * 4 by {
        Pow2Values();
        ValConcat(low, Zeros(2));
        ValZeros(2);
      }
    }
    assert Groups(low) == [Val(low + Zeros(2))];
    assert Groups(s) == [Val(high)] + Groups(low);
  }

  /** One byte is two characters, those of its two groups. */
  lemma EncodeOneByte(b: uint8)
    ensures b / 8 < 32 && (b % 8) * 4 < 32
    ensures Encode([b]) == [Symbol(b / 8), Symbol((b % 8) * 4)]
  {
    var s := BitsOf(b, 8);
    var g := Groups(s);
    OneByteGroups(b);
    assert ByteBits([b]) == s by {
      assert ByteBits([b]) == s + ByteBits([]);
      assert s + [] == s;
    }
    assert Chars(g) == [Symbol(g[0])] + ([Symbol(g[1])] + Chars([])) by {
      assert g[1..] == [g[1]];
    }
  }

  /** Two 5-bit values are ten bits: one byte, and two bits left over that must be zero. */
  lemma DecodeTwoValues(v0: uint8, v1: uint8)
    requires v0 < 32 && v1 < 32
    ensures v0 * 8 + v1 / 4 < 0x100
    ensures Bytes(ValueBits([v0, v1])) == [v0 * 8 + v1 / 4]
    ensures AllZero(Leftover(ValueBits([v0, v1]))) <==> v1 % 4 == 0
  {
    var bits := ValueBits([v0, v1]);
    assert bits == BitsOf(v0, 5) + BitsOf(v1, 5) by {
      assert ValueBits([v1]) == BitsOf(v1, 5) + ValueBits([]);
      assert [v0, v1][1..] == [v1];
    }
    var high, low := bits[..8], bits[8..];
    assert Val(high) == v0 * 8 + v1 / 4 && Val(low) == v1 % 4 by {
      assert Val(bits) == v0 * 32 + v1 by {
        Pow2Values();
        ValBitsOf(v0, 5);
        ValBitsOf(v1, 5);
        ValConcat(BitsOf(v0, 5), BitsOf(v1, 5));
      }
      assert Val(bits) == Val(high) * 4 + Val(low) && Val(low) < 4 by {
        Pow2Values();
        ValSplit(bits, 8);
      }
      SplitFour(v0 * 8, v1, Val(high), Val(low));
    }
    ValZero(low);
    assert Bytes(bits) == [Val(high)] + Bytes(low);
    assert Leftover(bits) == bits[8..];
  }

  lemma SplitFour(a: int, v: nat, q: int, r: nat)
    requires a * 4 + v == q * 4 + r && r < 4
    ensures q == a + v / 4 && r == v % 4
  {
  }
}
