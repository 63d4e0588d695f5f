/** The 16-bit accumulator both engines keep, related to the bit strings of the reference:
    a register packing the bits P reads, as 16 bits, P followed by zeros, and its count of
    unset bits is 16 - |P|. Also the decoder's loop body as a function on its state. */
module Accumulator {
  import opened Words
  import opened BitString
  import opened Reference

  /** The accumulator holds exactly the pending bits, left-aligned, and zeros below them. */
  predicate Packs(accumulator: uint16, unsetBits: int, pending: seq<bool>) {
    0 <= unsetBits <= 16 && |pending| == 16 - unsetBits
    && accumulator == Val(pending + Zeros(unsetBits))
  }

  /** The register's 16 bits split after the first n: shifting right by 16 - n yields the
      first n, shifting left by n yields the rest followed by n zeros. */
  lemma ShiftRegister(accumulator: uint16, register: seq<bool>, n: nat)
    requires |register| == 16 && accumulator == Val(register) && (n == 5 || n == 8)
    ensures ShiftRight(accumulator, 16 - n) == Val(register[..n])
    ensures ShiftLeft(accumulator, n) == Val(register[n..] + Zeros(n))
  {
    ValSplit(register, n);
    ValConcat(register[n..], Zeros(n));
    ValZeros(n);
    if n == 5 {
      ShiftFive(accumulator, Val(register[..5]), Val(register[5..]));
    } else {
      ShiftEight(accumulator, Val(register[..8]), Val(register[8..]));
    }
  }

  lemma ShiftFive(accumulator: uint16, x: nat, y: nat)
    requires accumulator == x * Pow2(11) + y && y < Pow2(11)
    ensures ShiftRight(accumulator, 11) == x
    ensures ShiftLeft(accumulator, 5) == y * Pow2(5)
  {
    Pow2Values();
    assert accumulator * 32 == x * 65536 + y * 32;
  }

  lemma ShiftEight(accumulator: uint16, x: nat, y: nat)
    requires accumulator == x * Pow2(8) + y && y < Pow2(8)
    ensures ShiftRight(accumulator, 8) == x
    ensures ShiftLeft(accumulator, 8) == y * Pow2(8)
  {
    Pow2Values();
    assert accumulator * 256 == x * 65536 + y * 256;
  }

  /** Taking the top n bits of the accumulator, with n pending bits or more: the pending
      bits lose their first n, and n more bits are unset. */
  lemma TakeTop(accumulator: uint16, unsetBits: int, pending: seq<bool>, n: nat)
    requires Packs(accumulator, unsetBits, pending) && (n == 5 || n == 8) && n <= |pending|
    ensures ShiftRight(accumulator, 16 - n) == Val(pending[..n])
    ensures Packs(ShiftLeft(accumulator, n), unsetBits + n, pending[n..])
  {
    var register := pending + Zeros(unsetBits);
    ShiftRegister(accumulator, register, n);
    SplitRegister(pending, unsetBits, n);
  }

  /** The register's first n bits are pending ones, and the rest, followed by n zeros, are
      the remaining pending bits followed by n more zeros. */
  lemma SplitRegister(pending: seq<bool>, unsetBits: nat, n: nat)
    requires n <= |pending|
    ensures (pending + Zeros(unsetBits))[..n] == pending[..n]
    ensures (pending + Zeros(unsetBits))[n..] + Zeros(n) == pending[n..] + Zeros(unsetBits + n)
  {
  }

  /** Taking the top five bits of the accumulator with fewer than five pending bits: the
      group is the pending bits filled up with zeros, and the accumulator becomes zero. */
  lemma TakeLastGroup(accumulator: uint16, unsetBits: int, pending: seq<bool>)
    requires Packs(accumulator, unsetBits, pending) && |pending| < 5
    ensures ShiftRight(accumulator, 11) == Val(pending + Zeros(5 - |pending|))
    ensures ShiftLeft(accumulator, 5) == 0
  {
    var register := pending + Zeros(unsetBits);
    ShiftRegister(accumulator, register, 5);
    assert register[..5] == pending + Zeros(5 - |pending|);
    assert register[5..] + Zeros(5) == Zeros(16);
    ValZeros(16);
  }

  lemma MulAssoc(a: int, b: int, c: int)
    ensures a * b * c == a * (b * c)
  {
  }

  lemma MulDistrib(a: int, b: int, c: int)
    ensures (a + b) * c == a * c + b * c
  {
  }

  lemma MulStrict(x: nat, b: nat, p: nat)
    requires x < b && 0 < p
    ensures x * p < b * p
  {
  }

  /** x of n bits shifted left by k is the number x * 2^k of n + k bits. */
  lemma ShiftedFits(x: uint16, n: nat, k: nat)
    requires x < Pow2(n) && n + k <= 16
    ensures ShiftLeft(x, k) == x * Pow2(k) < Pow2(n + k)
  {
    Pow2Add(n, k);
    MulStrict(x, Pow2(n), Pow2(k));
    Pow2Monotone(n + k, 16);
    Pow2Monotone(n, 16);
    Pow2Values();
  }

  /** Appending x's n bits and k zeros to the pending bits q shifts q by u = n + k. */
  lemma AppendValue(pending: seq<bool>, x: nat, n: nat, k: nat)
    requires x < Pow2(n)
    ensures Val(pending + BitsOf(x, n) + Zeros(k)) == Val(pending) * Pow2(n + k) + x * Pow2(k)
  {
    var q := Val(pending);
    var s := pending + BitsOf(x, n);
    assert Val(s) == q * Pow2(n) + x by {
      ValBitsOf(x, n);
      ValConcat(pending, BitsOf(x, n));
    }
    assert Val(s + Zeros(k)) == Val(s) * Pow2(k) by {
      ValConcat(s, Zeros(k));
      ValZeros(k);
    }
    calc {
      Val(s + Zeros(k));
      (q * Pow2(n) + x) * Pow2(k);
      { MulDistrib(q * Pow2(n), x, Pow2(k)); }
      q * Pow2(n) * Pow2(k) + x * Pow2(k);
      { MulAssoc(q, Pow2(n), Pow2(k)); Pow2Add(n, k); }
      q * Pow2(n + k) + x * Pow2(k);
    }
  }

  /** Or-ing x, of n bits, into the accumulator shifted onto its n highest unset bits
      appends x's bits to the pending ones. */
  lemma OrInto(accumulator: uint16, unsetBits: int, pending: seq<bool>, x: uint16, n: nat)
    requires Packs(accumulator, unsetBits, pending) && 0 < n <= unsetBits && x < Pow2(n)
    ensures Packs(Or(accumulator, MaskingShiftLeft(x, unsetBits - n)), unsetBits - n,
                  pending + BitsOf(x, n))
  {
    var k := unsetBits - n;
    assert MaskingShiftLeft(x, k) == ShiftLeft(x, k) by {
      MaskingSmall(x, k);
    }
    assert Packs(accumulator, n + k, pending);
    OrShifted(accumulator, pending, x, n, k);
  }

  /** A count below 16 is not reduced by `&<<`. */
  lemma MaskingSmall(x: uint16, k: int)
    requires 0 <= k < 16
    ensures MaskingShiftLeft(x, k) == ShiftLeft(x, k)
  {
    assert k % 16 == k;
  }

  /** The arithmetic of OrInto: x shifted left by k lands on the n bits below the pending
      ones, and or-ing it in adds it. */
  lemma OrShifted(accumulator: uint16, pending: seq<bool>, x: uint16, n: nat, k: nat)
    requires Packs(accumulator, n + k, pending) && x < Pow2(n)
    ensures Or(accumulator, ShiftLeft(x, k)) == Val(pending + BitsOf(x, n) + Zeros(k))
  {
    var q := Val(pending);
    var y := x * Pow2(k);
    assert ShiftLeft(x, k) == y < Pow2(n + k) by {
      ShiftedFits(x, n, k);
    }
    assert accumulator == q * Pow2(n + k) by {
      PackedValue(accumulator, n + k, pending);
    }
    assert Or(accumulator, y) == q * Pow2(n + k) + y by {
      Pow2Monotone(n + k, 16);
      Pow2Sixteen();
      OrDisjoint(q, y, 16, n + k);
    }
    assert Val(pending + BitsOf(x, n) + Zeros(k)) == q * Pow2(n + k) + y by {
      AppendValue(pending, x, n, k);
    }
  }

  /** The accumulator's value is that of the pending bits shifted over the unset ones. */
  lemma PackedValue(accumulator: uint16, unsetBits: int, pending: seq<bool>)
    requires Packs(accumulator, unsetBits, pending)
    ensures accumulator == Val(pending) * Pow2(unsetBits)
  {
    ValConcat(pending, Zeros(unsetBits));
    ValZeros(unsetBits);
  }

  // ---------------------------------------------------------------------------
  // The decoding loop body
  // ---------------------------------------------------------------------------

  /** What the decoding loop carries from one character to the next. */
  datatype DecoderState = DecoderState(accumulator: uint16, unsetBits: int, bytes: seq<uint8>)

  const Start := DecoderState(0, 16, [])

  /** One pass of the decoding loop on the mapped value `bits` of a character: five bits
      fewer are unset, `bits` is or-ed in at the new count, and once 8 bits or fewer are
      unset the top byte is emitted and shifted out. */
  function Absorb(state: DecoderState, bits: uint8): (next: DecoderState)
    requires 9 <= state.unsetBits <= 16
    ensures 9 <= next.unsetBits <= 16
    ensures state.bytes <= next.bytes && |next.bytes| <= |state.bytes| + 1
  {
    var unsetBits := state.unsetBits - 5;
    var accumulator := Or(state.accumulator, MaskingShiftLeft(bits, unsetBits));
    if unsetBits <= 8 then
      DecoderState(ShiftLeft(accumulator, 8), unsetBits + 8,
                   state.bytes + [Truncate(ShiftRight(accumulator, 8))])
    else
      DecoderState(accumulator, unsetBits, state.bytes)
  }

  /** A pass that leaves more than 8 bits unset only or-s the value in. */
  lemma AbsorbMerges(state: DecoderState, bits: uint8)
    requires 13 < state.unsetBits <= 16
    ensures Absorb(state, bits) == DecoderState(
      Or(state.accumulator, MaskingShiftLeft(bits, state.unsetBits - 5)), state.unsetBits - 5, state.bytes)
  {
  }

  /** A pass that leaves 8 bits or fewer unset emits the top byte of the merged register. */
  lemma AbsorbEmits(state: DecoderState, bits: uint8)
    requires 9 <= state.unsetBits <= 13
    ensures var merged := Or(state.accumulator, MaskingShiftLeft(bits, state.unsetBits - 5));
      Absorb(state, bits) == DecoderState(
        ShiftLeft(merged, 8), state.unsetBits + 3, state.bytes + [Truncate(ShiftRight(merged, 8))])
  {
  }

  /** The decoding loop run over a sequence of mapped values. */
  function AbsorbAll(values: seq<uint8>): (state: DecoderState)
    ensures 9 <= state.unsetBits <= 16
  {
    if values == [] then Start
    else Absorb(AbsorbAll(values[..|values| - 1]), values[|values| - 1])
  }

  /** Whatever the values, c of them yield exactly floor(5c / 8) bytes, and the 5c mod 8
      bits left over stay in the accumulator. */
  lemma {:induction false} AbsorbAllCounts(values: seq<uint8>)
    ensures |AbsorbAll(values).bytes| == 5 * |values| / 8
    ensures AbsorbAll(values).unsetBits == 16 - 5 * |values| % 8
    decreases |values|
  {
    if values != [] {
      var n := |values| - 1;
      var init := values[..n];
      AbsorbAllCounts(init);
      var q, r := 5 * n / 8, 5 * n % 8;
      assert 5 * |values| == 8 * q + r + 5;
      var state := AbsorbAll(init);
      if r >= 3 {
        AbsorbEmits(state, values[n]);
        assert 5 * |values| / 8 == q + 1 && 5 * |values| % 8 == r - 3;
      } else {
        AbsorbMerges(state, values[n]);
        assert 5 * |values| / 8 == q && 5 * |values| % 8 == r + 5;
      }
    }
  }

  /** The loop run over one more value is one more pass. */
  lemma AbsorbAllSnoc(values: seq<uint8>, v: uint8)
    ensures AbsorbAll(values + [v]) == Absorb(AbsorbAll(values), v)
  {
    assert (values + [v])[..|values|] == values;
  }

  /** Absorbing extends the bytes emitted so far. */
  lemma AbsorbAllPrefix(values: seq<uint8>, k: nat)
    requires k <= |values|
    ensures AbsorbAll(values[..k]).bytes <= AbsorbAll(values).bytes
    decreases |values| - k
  {
    if k < |values| {
      var init := values[..|values| - 1];
      assert values[..k] == init[..k];
      AbsorbAllPrefix(init, k);
      assert AbsorbAll(values) == Absorb(AbsorbAll(init), values[|values| - 1]);
    } else {
      assert values[..k] == values;
    }
  }

  /** The state has emitted `bits` up to `pending`, and its accumulator packs `pending`. */
  predicate Decodes(state: DecoderState, bits: seq<bool>, pending: seq<bool>) {
    bits == ByteBits(state.bytes) + pending
    && Packs(state.accumulator, state.unsetBits, pending)
  }

  /** One pass of the loop on a 5-bit value extends the decoded bits by the value's bits. */
  lemma AbsorbStep(state: DecoderState, bits: seq<bool>, left: seq<bool>, v: uint8)
    requires Decodes(state, bits, left) && 9 <= state.unsetBits <= 16 && v < 32
    ensures var next := Absorb(state, v);
            var bits' := bits + BitsOf(v, 5);
            Decodes(next, bits', bits'[8 * |next.bytes|..])
  {
    var pending := left + BitsOf(v, 5);
    var unsetBits := state.unsetBits - 5;
    var accumulator := Or(state.accumulator, MaskingShiftLeft(v, unsetBits));
    AppendPending(state.bytes, left, BitsOf(v, 5));
    OrValue(state.accumulator, state.unsetBits, left, v);
    if unsetBits <= 8 {
      EmitStep(state.bytes, accumulator, unsetBits, pending);
    }
  }

  /** Bits appended after the emitted bytes are appended to the pending bits. */
  lemma AppendPending(bytes: seq<uint8>, pending: seq<bool>, extra: seq<bool>)
    ensures (ByteBits(bytes) + pending) + extra == ByteBits(bytes) + (pending + extra)
    ensures (ByteBits(bytes) + (pending + extra))[8 * |bytes|..] == pending + extra
  {
  }

  /** Or-ing a 5-bit value in below the pending bits appends its bits. */
  lemma OrValue(accumulator: uint16, unsetBits: int, pending: seq<bool>, v: uint8)
    requires Packs(accumulator, unsetBits, pending) && 5 <= unsetBits && v < 32
    ensures Packs(Or(accumulator, MaskingShiftLeft(v, unsetBits - 5)), unsetBits - 5,
                  pending + BitsOf(v, 5))
  {
    assert v < Pow2(5) by {
      Pow2Values();
    }
    OrInto(accumulator, unsetBits, pending, v, 5);
  }

  /** Emitting the top byte of an accumulator holding 8 pending bits or more. */
  lemma EmitStep(bytes: seq<uint8>, accumulator: uint16, unsetBits: int, pending: seq<bool>)
    requires Packs(accumulator, unsetBits, pending) && 0 < unsetBits <= 8
    ensures var bytes' := bytes + [Truncate(ShiftRight(accumulator, 8))];
            var bits := ByteBits(bytes) + pending;
            Decodes(DecoderState(ShiftLeft(accumulator, 8), unsetBits + 8, bytes'), bits, bits[8 * |bytes'|..])
  {
    EmitTop(accumulator, unsetBits, pending);
    EmitByte(bytes, pending);
  }

  /** The emitted byte is the first 8 pending bits, and the rest stay packed. */
  lemma EmitTop(accumulator: uint16, unsetBits: int, pending: seq<bool>)
    requires Packs(accumulator, unsetBits, pending) && 0 < unsetBits <= 8
    ensures Truncate(ShiftRight(accumulator, 8)) == Val(pending[..8])
    ensures Packs(ShiftLeft(accumulator, 8), unsetBits + 8, pending[8..])
  {
    TakeTop(accumulator, unsetBits, pending, 8);
    assert ShiftRight(accumulator, 8) < 0x100;
  }

  /** Moving the first 8 pending bits into the emitted bytes leaves the bit string unchanged. */
  lemma EmitByte(bytes: seq<uint8>, pending: seq<bool>)
    requires 8 <= |pending|
    ensures Val(pending[..8]) < 0x100
    ensures var bytes' := bytes + [Val(pending[..8])];
            var bits := ByteBits(bytes) + pending;
            bits == ByteBits(bytes') + pending[8..] && bits[8 * |bytes'|..] == pending[8..]
  {
    var head, rest := pending[..8], pending[8..];
    assert Val(head) < 0x100 by {
      Pow2Values();
    }
    var byte: uint8 := Val(head);
    var bytes' := bytes + [byte];
    assert ByteBits(bytes) + pending == ByteBits(bytes') + rest by {
      assert ByteBits([byte]) == head by {
        BitsOfVal(head);
        assert ByteBits([byte]) == BitsOf(byte, 8) + ByteBits([]);
      }
      ByteBitsConcat(bytes, [byte]);
      assert pending == head + rest;
      assert ByteBits(bytes) + pending == (ByteBits(bytes) + head) + rest;
    }
    assert |ByteBits(bytes')| == 8 * |bytes'|;
  }

  /** On 5-bit values the decoding loop computes the reference: the bytes emitted are the
      whole bytes of the values' bits, and the accumulator packs the bits after them. */
  lemma {:induction false} AbsorbAllBits(values: seq<uint8>)
    requires AllFiveBit(values)
    ensures var state := AbsorbAll(values);
            var bits := ValueBits(values);
            8 * |state.bytes| <= |bits| && Decodes(state, bits, bits[8 * |state.bytes|..])
    decreases |values|
  {
    if values == [] {
      ValZeros(16);
      assert [] + Zeros(16) == Zeros(16);
    } else {
      var init, v := values[..|values| - 1], values[|values| - 1];
      assert values == init + [v];
      AbsorbAllBits(init);
      ValueBitsConcat(init, [v]);
      assert ValueBits([v]) == BitsOf(v, 5);
      var state := AbsorbAll(init);
      var bits := ValueBits(init);
      AbsorbStep(state, bits, bits[8 * |state.bytes|..], v);
    }
  }

  /** On 5-bit values the decoding loop emits the reference's whole bytes, and its final
      accumulator is zero exactly when the bits after them are all zero. */
  lemma AbsorbAllReference(values: seq<uint8>)
    requires AllFiveBit(values)
    ensures AbsorbAll(values).bytes == Bytes(ValueBits(values))
    ensures AbsorbAll(values).accumulator == 0 <==> AllZero(Leftover(ValueBits(values)))
  {
    var state := AbsorbAll(values);
    var bits := ValueBits(values);
    AbsorbAllBits(values);
    var pending := bits[8 * |state.bytes|..];
    BytesOfByteBits(state.bytes, pending);
    var register := pending + Zeros(state.unsetBits);
    ValZero(register);
    AllZeroPadded(pending, state.unsetBits);
  }
}
