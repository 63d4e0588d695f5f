/** Bit strings read most significant bit first, and the integer facts about them that
    the accumulator proofs rest on. */
module BitString {

  function Pow2(n: nat): (r: nat)
    ensures r >= 1
  {
    if n == 0 then 1 else 2 * Pow2(n - 1)
  }

  lemma {:induction false} Pow2Add(a: nat, b: nat)
    ensures Pow2(a + b) == Pow2(a) * Pow2(b)
    decreases a
  {
    if a > 0 {
      Pow2Add(a - 1, b);
    }
  }

  /** The powers the codec's shift counts reach. */
  lemma Pow2Sixteen()
    ensures Pow2(16) == 0x1_0000
  {
    Pow2Values();
  }

  lemma Pow2Values()
    ensures Pow2(1) == 2 && Pow2(2) == 4 && Pow2(3) == 8 && Pow2(4) == 16
    ensures Pow2(5) == 32 && Pow2(6) == 64 && Pow2(7) == 128 && Pow2(8) == 256
    ensures Pow2(9) == 512 && Pow2(10) == 1024 && Pow2(11) == 2048 && Pow2(12) == 4096
    ensures Pow2(13) == 8192 && Pow2(14) == 16384 && Pow2(15) == 32768 && Pow2(16) == 65536
  {
    assert Pow2(1) == 2;
    assert Pow2(2) == 4;
    assert Pow2(3) == 8;
    assert Pow2(4) == 16;
    assert Pow2(5) == 32;
    assert Pow2(6) == 64;
    assert Pow2(7) == 128;
    assert Pow2(8) == 256;
    assert Pow2(9) == 512;
    assert Pow2(10) == 1024;
    assert Pow2(11) == 2048;
    assert Pow2(12) == 4096;
    assert Pow2(13) == 8192;
    assert Pow2(14) == 16384;
    assert Pow2(15) == 32768;
  }

  lemma {:induction false} Pow2Monotone(a: nat, b: nat)
    requires a <= b
    ensures Pow2(a) <= Pow2(b)
    decreases b
  {
    if a < b {
      Pow2Monotone(a, b - 1);
    }
  }

  /** The number a bit string denotes, most significant bit first. */
  function Val(s: seq<bool>): (r: nat)
    ensures r < Pow2(|s|)
  {
    if s == [] then 0 else 2 * Val(s[..|s| - 1]) + (if s[|s| - 1] then 1 else 0)
  }

  lemma {:induction false} ValConcat(a: seq<bool>, b: seq<bool>)
    ensures Val(a + b) == Val(a) * Pow2(|b|) + Val(b)
    decreases |b|
  {
    if b == [] {
      assert a + b == a;
    } else {
      var b' := b[..|b| - 1];
      var bit := if b[|b| - 1] then 1 else 0;
      assert (a + b)[..|a + b| - 1] == a + b';
      ValConcat(a, b');
      assert Val(a + b) == 2 * Val(a + b') + bit;
      assert Val(b) == 2 * Val(b') + bit by {
        assert b[..|b| - 1] == b';
      }
      assert Pow2(|b|) == 2 * Pow2(|b'|);
      Regroup(Val(a), Pow2(|b'|), Val(b'), bit);
    }
  }

  lemma Regroup(v: int, p: int, w: int, bit: int)
    ensures 2 * (v * p + w) + bit == v * (2 * p) + (2 * w + bit)
  {
  }

  /** Splitting a bit string after its first k bits. */
  lemma ValSplit(s: seq<bool>, k: nat)
    requires k <= |s|
    ensures Val(s) == Val(s[..k]) * Pow2(|s| - k) + Val(s[k..])
    ensures Val(s[k..]) < Pow2(|s| - k)
  {
    assert s == s[..k] + s[k..];
    ValConcat(s[..k], s[k..]);
  }

  /** The w low bits of x, most significant first. */
  function BitsOf(x: nat, w: nat): (s: seq<bool>)
    ensures |s| == w
  {
    if w == 0 then [] else BitsOf(x / 2, w - 1) + [x % 2 == 1]
  }

  lemma {:induction false} ValBitsOf(x: nat, w: nat)
    requires x < Pow2(w)
    ensures Val(BitsOf(x, w)) == x
    decreases w
  {
    if w > 0 {
      ValBitsOf(x / 2, w - 1);
      var s := BitsOf(x, w);
      assert s[..|s| - 1] == BitsOf(x / 2, w - 1);
    }
  }

  lemma {:induction false} BitsOfVal(s: seq<bool>)
    ensures BitsOf(Val(s), |s|) == s
    decreases |s|
  {
    if s != [] {
      var s' := s[..|s| - 1];
      BitsOfVal(s');
      assert Val(s) / 2 == Val(s');
      assert s == s' + [s[|s| - 1]];
    }
  }

  function Zeros(n: nat): (s: seq<bool>)
    ensures |s| == n
  {
    seq(n, _ => false)
  }

  predicate AllZero(s: seq<bool>) {
    forall i :: 0 <= i < |s| ==> !s[i]
  }

  /** A bit string denotes zero exactly when none of its bits is set. */
  lemma {:induction false} ValZero(s: seq<bool>)
    ensures Val(s) == 0 <==> AllZero(s)
    decreases |s|
  {
    if s != [] {
      var s' := s[..|s| - 1];
      ValZero(s');
      assert AllZero(s) <==> AllZero(s') && !s[|s| - 1];
    }
  }

  lemma ValZeros(n: nat)
    ensures Val(Zeros(n)) == 0
  {
    ValZero(Zeros(n));
  }

  /** Zero bits appended to a bit string set no bit. */
  lemma AllZeroPadded(s: seq<bool>, n: nat)
    ensures AllZero(s + Zeros(n)) <==> AllZero(s)
  {
    var t := s + Zeros(n);
    assert forall i :: 0 <= i < |s| ==> t[i] == s[i];
    assert forall i :: |s| <= i < |t| ==> !t[i];
  }

  /** A bit string with no bit set is the zero string of its length. */
  lemma AllZeroIsZeros(s: seq<bool>)
    requires AllZero(s)
    ensures s == Zeros(|s|)
  {
  }
}
