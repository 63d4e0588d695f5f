/** The 32-symbol alphabet and the two branch-free mappings between 5-bit values and
    ASCII characters, each a fixed chain of conditional replacements. */
module Alphabet {
  import opened Words

  /** The alphabet in value order: the digits, then the lower-case letters without i, l, o, v. */
  const Symbols: string := "0123456789abcdefghjkmnpqrstuwxyz"

  /** The character of value v, as an ASCII byte. */
  function Symbol(v: nat): (c: uint8)
    requires v < 32
  {
    assert |Symbols| == 32;
    Symbols[v] as int
  }

  predicate IsSymbol(c: uint8) {
    exists v :: 0 <= v < 32 && Symbol(v) == c
  }

  /** The table read segment by segment. */
  lemma SymbolSegments(v: nat)
    requires v < 32
    ensures v < 10 ==> Symbol(v) == 0x30 + v
    ensures 10 <= v < 18 ==> Symbol(v) == 0x61 + (v - 10)
    ensures 18 <= v < 20 ==> Symbol(v) == 0x6a + (v - 18)
    ensures 20 <= v < 22 ==> Symbol(v) == 0x6d + (v - 20)
    ensures 22 <= v < 28 ==> Symbol(v) == 0x70 + (v - 22)
    ensures 28 <= v ==> Symbol(v) == 0x77 + (v - 28)
  {
    if v < 10 {
    } else if v < 18 {
    } else if v < 20 {
    } else if v < 22 {
    } else if v < 28 {
    } else {
    }
  }

  /** Exactly one of the six tests of a chain holds. */
  predicate ExactlyOne(tests: seq<bool>) {
    exists i :: 0 <= i < |tests| && tests[i] && forall j :: 0 <= j < |tests| && j != i ==> !tests[j]
  }

  // ---------------------------------------------------------------------------
  // Value to character
  // ---------------------------------------------------------------------------

  /** The character of a 5-bit value: starting from 0, each range test that holds replaces
      the character with the value moved onto its segment of ASCII. The requirement is the
      debug assertion that the value fits in 5 bits. Every character lies between '0'
      and 'z'. */
  function ValueToChar(v: uint8): (c: uint8)
    requires v < 32
    ensures 0x30 <= c <= 0x7a
  {
    var isLessThan10 := v < 10;
    var isLessThan18 := v < 18;
    var isLessThan20 := v < 20;
    var isLessThan22 := v < 22;
    var isLessThan28 := v < 28;
    var c: uint8 := 0;
    var c := Replace(c, WrappingAdd(WrappingSub(v, 0), 0x30), isLessThan10);
    var c := Replace(c, WrappingAdd(WrappingSub(v, 10), 0x61), !isLessThan10 && isLessThan18);
    var c := Replace(c, WrappingAdd(WrappingSub(v, 18), 0x6a), !isLessThan18 && isLessThan20);
    var c := Replace(c, WrappingAdd(WrappingSub(v, 20), 0x6d), !isLessThan20 && isLessThan22);
    var c := Replace(c, WrappingAdd(WrappingSub(v, 22), 0x70), !isLessThan22 && isLessThan28);
    var c := Replace(c, WrappingAdd(WrappingSub(v, 28), 0x77), !isLessThan28);
    c
  }

  /** The chain applied to a UInt16 truncated to its low byte: `UInt16.mappedToCharacter`
      and `UInt8(mappingBitsToCharacter:)`. On a 5-bit value the truncation loses nothing. */
  function WordToChar(bits: uint16): (c: uint8)
    requires bits < 32
    ensures c == ValueToChar(bits)
  {
    ValueToChar(Truncate(bits))
  }

  /** The six range tests of the value-to-character chain partition the bytes: whatever
      the value, exactly one replacement takes effect. */
  lemma ValueRangesExactlyOne(v: uint8)
    ensures ExactlyOne([v < 10, !(v < 10) && v < 18, !(v < 18) && v < 20,
                        !(v < 20) && v < 22, !(v < 22) && v < 28, !(v < 28)])
  {
    var r := [v < 10, !(v < 10) && v < 18, !(v < 18) && v < 20,
              !(v < 20) && v < 22, !(v < 22) && v < 28, !(v < 28)];
    var i := if v < 10 then 0 else if v < 18 then 1 else if v < 20 then 2
             else if v < 22 then 3 else if v < 28 then 4 else 5;
    assert r[i] && forall j :: 0 <= j < 6 && j != i ==> !r[j];
  }

  // The closed forms are proved in two halves, ValueToCharLow and ValueToCharHigh (and
  // CharToValueLow and CharToValueHigh below), so that each proof case-splits over three
  // segments only; ValueToCharFormula and CharToValueFormula join the halves and are the
  // statements the rest of the model uses.

  /** The chain in closed form on the first three segments. */
  lemma ValueToCharLow(v: uint8)
    requires v < 20
    ensures ValueToChar(v) ==
      if v < 10 then 0x30 + v
      else if v < 18 then 0x61 + (v - 10)
      else 0x6a + (v - 18)
  {
    if v < 10 {
      MovedOnto(v, 0, 0x30);
    } else if v < 18 {
      MovedOnto(v, 10, 0x61);
    } else {
      MovedOnto(v, 18, 0x6a);
    }
  }

  /** The chain in closed form on the last three segments. */
  lemma ValueToCharHigh(v: uint8)
    requires 20 <= v < 32
    ensures ValueToChar(v) ==
      if v < 22 then 0x6d + (v - 20)
      else if v < 28 then 0x70 + (v - 22)
      else 0x77 + (v - 28)
  {
    if v < 22 {
      MovedOnto(v, 20, 0x6d);
    } else if v < 28 {
      MovedOnto(v, 22, 0x70);
    } else {
      MovedOnto(v, 28, 0x77);
    }
  }

  /** A value at or above the start of its segment moves onto ASCII without wrapping. */
  lemma MovedOnto(v: uint8, start: uint8, base: uint8)
    requires start <= v && base + (v - start) < 0x100
    ensures WrappingAdd(WrappingSub(v, start), base) == base + (v - start)
  {
  }

  /** The chain in closed form, one segment after another. */
  lemma ValueToCharFormula(v: uint8)
    requires v < 32
    ensures ValueToChar(v) ==
      if v < 10 then 0x30 + v
      else if v < 18 then 0x61 + (v - 10)
      else if v < 20 then 0x6a + (v - 18)
      else if v < 22 then 0x6d + (v - 20)
      else if v < 28 then 0x70 + (v - 22)
      else 0x77 + (v - 28)
  {
    if v < 20 {
      ValueToCharLow(v);
    } else {
      ValueToCharHigh(v);
    }
  }

  /** Every 5-bit value maps to its entry of the alphabet table. */
  lemma ValueToCharIsSymbol(v: uint8)
    requires v < 32
    ensures ValueToChar(v) == Symbol(v)
    ensures WordToChar(v) == Symbol(v)
  {
    TruncateFits(v);
    SymbolSegments(v);
    ValueToCharFormula(v);
  }

  // ---------------------------------------------------------------------------
  // Character to value
  // ---------------------------------------------------------------------------

  /** The value of a character: starting from the sentinel 0xff, each range test that
      holds replaces the value with the character moved down from its segment of ASCII;
      a value still equal to the sentinel means the character has no mapping. The first
      test is written `0x29 < c && c < 0x40`, so it holds for 0x2A through 0x3F, not only
      for the digits. A mapped value is never the sentinel, and it fits in 5 bits unless
      the character is one of 0x2A to 0x2E, whose values wrap to 0xFA to 0xFE. */
  function CharToValue(c: uint8): (r: Option<uint8>)
    ensures r != Some(0xff)
    ensures r.Some? ==> r.value < 32 || 0xfa <= r.value <= 0xfe
  {
    var bits: uint8 := 0xff;
    var bits := Replace(bits, WrappingAdd(WrappingSub(c, 0x30), 0), 0x29 < c && c < 0x40);
    var bits := Replace(bits, WrappingAdd(WrappingSub(c, 0x61), 10), 0x60 < c && c < 0x69);
    var bits := Replace(bits, WrappingAdd(WrappingSub(c, 0x6a), 18), 0x69 < c && c < 0x6c);
    var bits := Replace(bits, WrappingAdd(WrappingSub(c, 0x6d), 20), 0x6c < c && c < 0x6f);
    var bits := Replace(bits, WrappingAdd(WrappingSub(c, 0x70), 22), 0x6f < c && c < 0x76);
    var bits := Replace(bits, WrappingAdd(WrappingSub(c, 0x77), 28), 0x76 < c && c < 0x7b);
    if bits != 0xff then Some(bits) else None
  }

  /** The chain in closed form below the lower-case letters. */
  lemma CharToValueLow(c: uint8)
    requires c < 0x60
    ensures CharToValue(c) == if 0x29 < c < 0x40 && c != 0x2f then Some((c - 0x30) % 0x100) else None
  {
    if 0x29 < c < 0x40 {
      assert WrappingAdd(WrappingSub(c, 0x30), 0) == (c - 0x30) % 0x100;
    }
  }

  /** The chain in closed form from the lower-case letters up. */
  lemma CharToValueHigh(c: uint8)
    requires 0x60 <= c
    ensures CharToValue(c) ==
      if 0x60 < c < 0x69 then Some(c - 0x61 + 10)
      else if 0x69 < c < 0x6c then Some(c - 0x6a + 18)
      else if 0x6c < c < 0x6f then Some(c - 0x6d + 20)
      else if 0x6f < c < 0x76 then Some(c - 0x70 + 22)
      else if 0x76 < c < 0x7b then Some(c - 0x77 + 28)
      else None
  {
    if 0x60 < c < 0x69 {
      MovedOnto(c, 0x61, 10);
    } else if 0x69 < c < 0x6c {
      MovedOnto(c, 0x6a, 18);
    } else if 0x6c < c < 0x6f {
      MovedOnto(c, 0x6d, 20);
    } else if 0x6f < c < 0x76 {
      MovedOnto(c, 0x70, 22);
    } else if 0x76 < c < 0x7b {
      MovedOnto(c, 0x77, 28);
    }
  }

  /** The character-to-value chain in closed form, both halves joined. */
  lemma CharToValueFormula(c: uint8)
    ensures c < 0x60 ==> CharToValue(c) == if 0x29 < c < 0x40 && c != 0x2f then Some((c - 0x30) % 0x100) else None
    ensures 0x60 <= c ==>
              CharToValue(c) ==
                if 0x60 < c < 0x69 then Some(c - 0x61 + 10)
                else if 0x69 < c < 0x6c then Some(c - 0x6a + 18)
                else if 0x6c < c < 0x6f then Some(c - 0x6d + 20)
                else if 0x6f < c < 0x76 then Some(c - 0x70 + 22)
                else if 0x76 < c < 0x7b then Some(c - 0x77 + 28)
                else None
  {
    if c < 0x60 {
      CharToValueLow(c);
    } else {
      CharToValueHigh(c);
    }
  }

  /** At most one of the six range tests of the character-to-value chain holds. */
  lemma CharRangesDisjoint(c: uint8)
    ensures var tests := [0x29 < c && c < 0x40, 0x60 < c && c < 0x69, 0x69 < c && c < 0x6c,
                          0x6c < c && c < 0x6f, 0x6f < c && c < 0x76, 0x76 < c && c < 0x7b];
            forall i, j :: 0 <= i < j < 6 ==> !(tests[i] && tests[j])
  {
  }

  lemma CharToValueOfSegment(v: uint8, c: uint8)
    requires v < 32
    requires c ==
      if v < 10 then 0x30 + v
      else if v < 18 then 0x61 + (v - 10)
      else if v < 20 then 0x6a + (v - 18)
      else if v < 22 then 0x6d + (v - 20)
      else if v < 28 then 0x70 + (v - 22)
      else 0x77 + (v - 28)
    ensures CharToValue(c) == Some(v)
  {
    if v < 10 {
      CharToValueLow(c);
    } else {
      CharToValueHigh(c);
    }
  }

  lemma CharToValueOfValueToChar(v: uint8)
    requires v < 32
    ensures CharToValue(ValueToChar(v)) == Some(v)
  {
    ValueToCharFormula(v);
    CharToValueOfSegment(v, ValueToChar(v));
  }

  /** Decoding undoes encoding on every 5-bit value, so the value-to-character mapping is
      injective and no alphabet character meets the sentinel. */
  lemma CharToValueOfSymbol(v: uint8)
    requires v < 32
    ensures CharToValue(Symbol(v)) == Some(v)
    ensures CharToValue(ValueToChar(v)) == Some(v)
  {
    ValueToCharIsSymbol(v);
    CharToValueOfValueToChar(v);
  }

  /** An alphabet character is the symbol of its value. */
  lemma SymbolOfCharToValue(c: uint8)
    requires IsSymbol(c)
    ensures CharToValue(c).Some? && CharToValue(c).value < 32 && Symbol(CharToValue(c).value) == c
  {
    var v :| 0 <= v < 32 && Symbol(v) == c;
    CharToValueOfSymbol(v);
  }

  /** The characters with a mapping: the alphabet, and, through the wide first test, the
      bytes 0x2A-0x2E and 0x3A-0x3F. `/` (0x2F) wraps to the sentinel and has none. */
  lemma CharToValueDefined(c: uint8)
    ensures CharToValue(c).Some? <==> IsSymbol(c) || 0x2a <= c <= 0x2e || 0x3a <= c <= 0x3f
  {
    CharToValueFormula(c);
    if CharToValue(c).Some? && !(0x2a <= c <= 0x2e || 0x3a <= c <= 0x3f) {
      var v := if c < 0x40 then c - 0x30
               else if c < 0x69 then c - 0x61 + 10
               else if c < 0x6c then c - 0x6a + 18
               else if c < 0x6f then c - 0x6d + 20
               else if c < 0x76 then c - 0x70 + 22
               else c - 0x77 + 28;
      SymbolSegments(v);
      assert Symbol(v) == c;
    }
    if IsSymbol(c) {
      var v :| 0 <= v < 32 && Symbol(v) == c;
      CharToValueOfSymbol(v);
    }
  }

  /** The digit-range test lets through six punctuation bytes that decode to 10-15 (the
      values of 'a' to 'f') and five that decode to 0xFA-0xFE, which do not fit in 5 bits. */
  lemma CharToValueDigitRangeQuirk(c: uint8)
    requires 0x2a <= c <= 0x3f && c != 0x2f
    ensures CharToValue(c) == Some((c - 0x30) % 0x100)
    ensures 0x3a <= c ==> CharToValue(c) == Some(c - 0x30) && 10 <= c - 0x30 <= 15
    ensures c <= 0x2e ==> CharToValue(c) == Some(c + 0xd0) && 0xfa <= c + 0xd0 <= 0xfe
  {
    CharToValueLow(c);
  }

  /** Characters with no mapping: the excluded letters i, l, o, v, every upper-case letter,
      `/`, and every byte below 0x2A, in 0x40-0x60 or above 0x7A. */
  lemma CharToValueRejects(c: uint8)
    requires c == 'i' as int || c == 'l' as int || c == 'o' as int || c == 'v' as int
          || ('A' as int <= c <= 'Z' as int) || c == '/' as int
          || c < 0x2a || 0x40 <= c <= 0x60 || c > 0x7a
    ensures CharToValue(c) == None
  {
    CharToValueFormula(c);
  }

  /** A mapped value fits in 5 bits except for the five bytes 0x2A-0x2E. */
  lemma CharToValueWidth(c: uint8)
    requires CharToValue(c).Some?
    ensures CharToValue(c).value < 32 <==> !(0x2a <= c <= 0x2e)
  {
    if c < 0x60 {
      CharToValueLow(c);
    } else {
      CharToValueHigh(c);
    }
  }

  // ---------------------------------------------------------------------------
  // Texts
  // ---------------------------------------------------------------------------

  /** Every character of the text has a mapping. */
  predicate Mapped(text: seq<uint8>) {
    forall i :: 0 <= i < |text| ==> CharToValue(text[i]).Some?
  }

  /** The mapped values of a text's characters, in order. */
  function ValuesOf(text: seq<uint8>): (values: seq<uint8>)
    requires Mapped(text)
    ensures |values| == |text|
    ensures forall i :: 0 <= i < |text| ==> CharToValue(text[i]) == Some(values[i])
  {
    seq(|text|, i requires 0 <= i < |text| => CharToValue(text[i]).value)
  }
}
