/** The character loop both decoders share, as a fold over the text: each mapped character
    is one pass of the decoding loop, and the first unmapped character stops the loop. */
module Scan {
  import opened Words
  import opened Alphabet
  import opened Reference
  import opened Accumulator

  /** Where the loop stands after a text: its register and bytes, and whether it stopped
      at an unmapped character. */
  datatype Scanned = Scanned(state: DecoderState, stopped: bool)

  /** The loop over a text, one character at a time from the left. */
  function ScanText(text: seq<uint8>): (r: Scanned)
    ensures 9 <= r.state.unsetBits <= 16
  {
    if text == [] then Scanned(Start, false)
    else
      var s := ScanText(text[..|text| - 1]);
      if s.stopped then s
      else match CharToValue(text[|text| - 1])
        case None => Scanned(s.state, true)
        case Some(bits) => Scanned(Absorb(s.state, bits), false)
  }

  /** A text is mapped exactly when all but its last character are, and the last one is. */
  lemma MappedSnoc(text: seq<uint8>)
    requires text != []
    ensures Mapped(text) <==> Mapped(text[..|text| - 1]) && CharToValue(text[|text| - 1]).Some?
  {
    var n := |text| - 1;
    assert forall i :: 0 <= i < n ==> text[..n][i] == text[i];
  }

  /** The loop stops exactly when some character of the text has no mapping. */
  lemma {:induction false} ScanStopsUnmapped(text: seq<uint8>)
    ensures ScanText(text).stopped <==> !Mapped(text)
    decreases |text|
  {
    if text != [] {
      ScanStopsUnmapped(text[..|text| - 1]);
      MappedSnoc(text);
    }
  }

  /** The loop over one more character. */
  lemma ScanSnoc(text: seq<uint8>, i: nat)
    requires i < |text|
    ensures var s := ScanText(text[..i]);
            ScanText(text[..i + 1])
            == if s.stopped then s
               else match CharToValue(text[i])
                 case None => Scanned(s.state, true)
                 case Some(bits) => Scanned(Absorb(s.state, bits), false)
  {
    assert text[..i + 1][..i] == text[..i];
  }

  /** Once stopped, the loop reads no further character. */
  lemma {:induction false} ScanStopped(text: seq<uint8>, i: nat)
    requires i <= |text| && ScanText(text[..i]).stopped
    ensures ScanText(text) == ScanText(text[..i])
    decreases |text| - i
  {
    if i < |text| {
      ScanSnoc(text, i);
      ScanStopped(text, i + 1);
    } else {
      assert text[..i] == text;
    }
  }

  // ---------------------------------------------------------------------------
  // The first unmapped character
  // ---------------------------------------------------------------------------

  /** The position of the first character without a mapping, or the text's length. */
  function FirstUnmapped(text: seq<uint8>): (k: nat)
    ensures k <= |text| && Mapped(text[..k])
    ensures k < |text| ==> CharToValue(text[k]).None?
  {
    if text == [] then 0
    else if CharToValue(text[0]).None? then 0
    else
      var k := 1 + FirstUnmapped(text[1..]);
      assert text[..k] == [text[0]] + text[1..][..k - 1];
      k
  }

  /** The first unmapped position is the one before which every character has a mapping
      and at which there is none. */
  lemma FirstUnmappedAt(text: seq<uint8>, i: nat)
    requires i <= |text| && Mapped(text[..i])
    requires i < |text| ==> CharToValue(text[i]).None?
    ensures FirstUnmapped(text) == i
  {
    var k := FirstUnmapped(text);
    assert forall j :: 0 <= j < i ==> text[..i][j] == text[j];
    assert forall j :: 0 <= j < k ==> text[..k][j] == text[j];
  }

  /** A mapped prefix one character longer: its values gain that character's value. */
  lemma ValuesOfSnoc(text: seq<uint8>, i: nat)
    requires i < |text| && Mapped(text[..i]) && CharToValue(text[i]).Some?
    ensures Mapped(text[..i + 1])
    ensures ValuesOf(text[..i + 1]) == ValuesOf(text[..i]) + [CharToValue(text[i]).value]
  {
    assert text[..i + 1] == text[..i] + [text[i]];
  }

  /** The loop over a mapped prefix has not stopped and has absorbed the prefix's values. */
  lemma {:induction false} ScanMappedPrefix(text: seq<uint8>, i: nat)
    requires i <= |text| && Mapped(text[..i])
    ensures ScanText(text[..i]) == Scanned(AbsorbAll(ValuesOf(text[..i])), false)
    decreases i
  {
    if i == 0 {
      assert text[..0] == [];
    } else {
      assert Mapped(text[..i - 1]) by {
        assert forall j :: 0 <= j < i - 1 ==> text[..i - 1][j] == text[..i][j];
      }
      ScanMappedPrefix(text, i - 1);
      ScanSnoc(text, i - 1);
      assert CharToValue(text[i - 1]) == CharToValue(text[..i][i - 1]);
      ValuesOfSnoc(text, i - 1);
      AbsorbAllSnoc(ValuesOf(text[..i - 1]), CharToValue(text[i - 1]).value);
    }
  }

  /** The loop stops exactly at the first unmapped character, having absorbed the values of
      the characters before it; it runs to the end exactly when every character is mapped. */
  lemma ScanFirstUnmapped(text: seq<uint8>)
    ensures var k := FirstUnmapped(text);
            ScanText(text) == Scanned(AbsorbAll(ValuesOf(text[..k])), k < |text|)
  {
    var k := FirstUnmapped(text);
    ScanMappedPrefix(text, k);
    if k < |text| {
      ScanSnoc(text, k);
      ScanStopped(text, k + 1);
    } else {
      assert text[..k] == text;
    }
  }

  /** A text whose characters all have a mapping runs to the end, absorbing all its values. */
  lemma ScanMapped(text: seq<uint8>)
    requires Mapped(text)
    ensures ScanText(text) == Scanned(AbsorbAll(ValuesOf(text)), false)
  {
    ScanMappedPrefix(text, |text|);
    assert text[..|text|] == text;
  }

  /** The characters of 5-bit values all have a mapping, and map back to those values. */
  lemma {:induction false} ValuesOfChars(values: seq<uint8>)
    requires AllFiveBit(values)
    ensures Mapped(Chars(values)) && ValuesOf(Chars(values)) == values
  {
    var text := Chars(values);
    forall i | 0 <= i < |text|
      ensures CharToValue(text[i]) == Some(values[i])
    {
      CharsAt(values, i);
      CharToValueOfSymbol(values[i]);
    }
  }

  /** Texts whose characters map alike run the loop alike. */
  lemma {:induction false} ScanSameValues(a: seq<uint8>, b: seq<uint8>)
    requires |a| == |b| && forall i :: 0 <= i < |a| ==> CharToValue(a[i]) == CharToValue(b[i])
    ensures ScanText(a) == ScanText(b)
    decreases |a|
  {
    if a != [] {
      var n := |a| - 1;
      ScanSameValues(a[..n], b[..n]);
    }
  }
}
