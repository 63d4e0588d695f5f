/** Fixed-width unsigned integers and the Swift operators the codec applies to them,
    written out over unbounded integers: `<<` and `<<=` drop the bits shifted past
    bit 15, `&<<` first reduces its shift count modulo 16, `&+` and `&-` wrap modulo
    256, and `|` is bitwise or. */
module Words {
  import opened BitString

  type uint8 = x: int | 0 <= x < 0x100
  type uint16 = x: int | 0 <= x < 0x1_0000

  datatype Option<T> = None | Some(value: T)

  /** `x.replace(with: candidate, if: choice)` of the constant-time selection library,
      by its value: the timing guarantee is not modelled. */
  function Replace(x: uint8, candidate: uint8, choice: bool): uint8 {
    if choice then candidate else x
  }

  /** `a &+ b` on UInt8. */
  function WrappingAdd(a: uint8, b: uint8): (r: uint8)
    ensures r == (a + b) % 0x100
  {
    if a + b < 0x100 then a + b else a + b - 0x100
  }

  /** `a &- b` on UInt8. */
  function WrappingSub(a: uint8, b: uint8): (r: uint8)
    ensures r == (a - b) % 0x100
  {
    if b <= a then a - b else a - b + 0x100
  }

  /** `UInt8(truncatingIfNeeded: x)` of a UInt16: the byte that agrees with x modulo 256. */
  function Truncate(x: uint16): (r: uint8)
    ensures (x - r) % 0x100 == 0
    ensures x < 0x100 ==> r == x
  {
    x % 0x100
  }

  lemma TruncateFits(x: uint16)
    requires x < 0x100
    ensures Truncate(x) == x
  {
  }

  /** `x << k` and `x <<= k` on UInt16 for a non-negative count: when the product fits in
      16 bits no bit is lost. */
  function ShiftLeft(x: uint16, k: nat): (r: uint16)
    ensures x * Pow2(k) < 0x1_0000 ==> r == x * Pow2(k)
  {
    (x * Pow2(k)) % 0x1_0000
  }

  /** `x &<< k` on UInt16: the count is taken modulo the bit width, so a count from 0 to 15
      shifts as `<<` does. */
  function MaskingShiftLeft(x: uint16, k: int): (r: uint16)
    ensures 0 <= k < 16 ==> r == ShiftLeft(x, k)
  {
    assert 0 <= k < 16 ==> k % 16 == k;
    ShiftLeft(x, k % 16)
  }

  /** `x >> k` on UInt16 for a non-negative count: x divided by 2^k, rounded down. */
  function ShiftRight(x: uint16, k: nat): (r: uint16)
    ensures Pow2(k) * r <= x < Pow2(k) * (r + 1)
  {
    DivAtMost(x, Pow2(k));
    DivBounds(x, Pow2(k));
    x / Pow2(k)
  }

  lemma DivBounds(x: nat, d: nat)
    requires 1 <= d
    ensures d * (x / d) <= x < d * (x / d + 1)
  {
    assert x == d * (x / d) + x % d;
  }

  lemma DivAtMost(x: nat, d: nat)
    requires 1 <= d
    ensures 0 <= x / d <= x
  {
    assert x == d * (x / d) + x % d;
  }

  /** Bitwise or of the w low bits of x and y, built from the least significant bit up. */
  function OrBits(x: nat, y: nat, w: nat): nat {
    if w == 0 then 0
    else 2 * OrBits(x / 2, y / 2, w - 1) + (if x % 2 == 1 || y % 2 == 1 then 1 else 0)
  }

  /** The or of w bits fits in w bits. */
  lemma {:induction false} OrBitsBound(x: nat, y: nat, w: nat)
    ensures OrBits(x, y, w) < Pow2(w)
  {
    if w > 0 {
      OrBitsBound(x / 2, y / 2, w - 1);
    }
  }

  /** `x | y` on UInt16: or-ing zero on either side gives the other operand. */
  function Or(x: uint16, y: uint16): (r: uint16)
    ensures y == 0 ==> r == x
    ensures x == 0 ==> r == y
  {
    OrBitsBound(x, y, 16);
    Pow2Sixteen();
    OrZero(x, 16);
    OrDisjoint(0, y, 16, 16);
    OrBits(x, y, 16)
  }

  lemma {:induction false} OrZero(x: nat, w: nat)
    requires x < Pow2(w)
    ensures OrBits(x, 0, w) == x
    decreases w
  {
    if w > 0 {
      OrZero(x / 2, w - 1);
    }
  }

  /** When the set bits of x and y are disjoint (x is a multiple of 2^k, y fits in k
      bits) or-ing them is adding them. */
  lemma {:induction false} OrDisjoint(q: nat, y: nat, w: nat, k: nat)
    requires q * Pow2(k) < Pow2(w) && y < Pow2(k) && y < Pow2(w) && k <= w
    ensures OrBits(q * Pow2(k), y, w) == q * Pow2(k) + y
    decreases w
  {
    if k == 0 {
      OrZero(q, w);
    } else {
      Pow2Monotone(k, w);
      var x := q * Pow2(k);
      var p := Pow2(k - 1);
      Double(q, p);
      assert x / 2 == q * p && x % 2 == 0;
      OrDisjoint(q, y / 2, w - 1, k - 1);
    }
  }

  lemma Double(q: int, p: int)
    ensures q * (2 * p) == 2 * (q * p)
  {
  }
}
