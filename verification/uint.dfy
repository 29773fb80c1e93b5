/** Fixed-width unsigned arithmetic of the node firmware, written out over unbounded integers. */
module Uint {
  const TWO_TO_THE_32: int := 0x1_0000_0000
  const TWO_TO_THE_31: int := 0x8000_0000

  /** A C `uint32_t`. */
  type U32 = x: int | 0 <= x < TWO_TO_THE_32

  /** `UINT32_MAX`, also the firmware's MAX_COUNTER_VALUE. */
  const U32_MAX: U32 := 0xFFFF_FFFF

  /** `a + b` evaluated in `uint32_t`: the sum, wrapping past `UINT32_MAX`. */
  function AddWrap(a: U32, b: U32): (r: U32)
    ensures a + b < TWO_TO_THE_32 ==> r == a + b
    ensures a + b >= TWO_TO_THE_32 ==> r == a + b - TWO_TO_THE_32
  {
    (a + b) % TWO_TO_THE_32
  }

  /** The C conversion `(int)x` of a `uint32_t` into a 32-bit two's-complement `int`. */
  function ToInt32(x: U32): (r: int)
    ensures -TWO_TO_THE_31 <= r < TWO_TO_THE_31
    ensures r >= 0 <==> x < TWO_TO_THE_31
    ensures r == x || r == x - TWO_TO_THE_32
  {
    if x < TWO_TO_THE_31 then x else x - TWO_TO_THE_32
  }

  function Pow2(n: nat): (r: nat)
    ensures r >= 1
  {
    if n == 0 then 1 else 2 * Pow2(n - 1)
  }

  lemma Pow2Of32()
    ensures Pow2(32) == TWO_TO_THE_32
  {
    assert Pow2(8) == 0x100;
    assert Pow2(16) == 0x1_0000;
    assert Pow2(24) == 0x100_0000;
  }

  /** Bitwise exclusive-or of the low `width` bits of `a` and `b`, one bit per step
      from the least significant up. */
  function XorBits(a: nat, b: nat, width: nat): (r: nat)
    ensures r < Pow2(width)
  {
    if width == 0 then 0 else (a % 2 + b % 2) % 2 + 2 * XorBits(a / 2, b / 2, width - 1)
  }

  /** `a ^ b` on two `uint32_t` values. */
  function Xor(a: U32, b: U32): (r: U32)
  {
    Pow2Of32();
    XorBits(a, b, 32)
  }

  /** Applying the same mask twice gives back any value of `width` bits. */
  lemma {:induction false} XorBitsTwice(a: nat, b: nat, width: nat)
    requires a < Pow2(width)
    ensures XorBits(XorBits(a, b, width), b, width) == a
  {
    if width > 0 {
      var c := (a % 2 + b % 2) % 2;
      var y := XorBits(a / 2, b / 2, width - 1);
      var x := XorBits(a, b, width);
      assert x == c + 2 * y;
      BitAndRest(c, y);
      BitAndRest(a % 2, a / 2);
      assert a / 2 < Pow2(width - 1);
      XorBitsTwice(a / 2, b / 2, width - 1);
      BitTwice(a % 2, b % 2);
    }
  }

  /** A number whose low bit is `c` and whose other bits are `y`. */
  lemma BitAndRest(c: int, y: int)
    requires 0 <= c < 2
    ensures (c + 2 * y) % 2 == c && (c + 2 * y) / 2 == y
  {
  }

  lemma BitTwice(a: int, b: int)
    requires 0 <= a < 2 && 0 <= b < 2
    ensures ((a + b) % 2 + b) % 2 == a
  {
  }

  /** `(a ^ b) ^ b == a` on `uint32_t`. */
  lemma XorTwice(a: U32, b: U32)
    ensures Xor(Xor(a, b), b) == a
  {
    Pow2Of32();
    XorBitsTwice(a, b, 32);
  }
}
