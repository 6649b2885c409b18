/** Machine words and bytes shared by the other modules. */
module Words {

  type byte = bv8

  const TWO_63: int := 0x8000_0000_0000_0000
  const TWO_64: int := 0x1_0000_0000_0000_0000

  /** The values of `uint64_t` and `size_t`. */
  type uint64 = x: int | 0 <= x < TWO_64

  /** The values of `int64_t` and `long`. */
  type int64 = x: int | -TWO_63 <= x < TWO_63

  /** The byte strings a span or a vector can hold. */
  type Bytes = s: seq<byte> | |s| < TWO_63

  /** The value of an unsigned 64-bit expression whose mathematical value is `x`. */
  function Wrap64(x: int): (r: uint64)
    ensures 0 <= x < TWO_64 ==> r == x
  {
    x % TWO_64
  }

  /** Every value of `uint64_t` is that of some word. */
  lemma {:induction false} WordOf(x: nat) returns (v: bv64)
    requires x < TWO_64
    ensures v as int == x
    decreases x
  {
    if x == 0 {
      return 0;
    }
    var half := WordOf(x / 2);
    DoubleWord(half);
    v := if x % 2 == 0 then half << 1 else (half << 1) | 1;
  }

  lemma DoubleWord(v: bv64)
    requires v as int < TWO_63
    ensures (v << 1) as int == 2 * (v as int) && ((v << 1) | 1) as int == 2 * (v as int) + 1
  {
    TopBitClear(v);
    DoubleRaw(v);
  }

  lemma TopBitClear(v: bv64)
    requires v as int < TWO_63
    ensures v < 0x8000_0000_0000_0000
  {}

  lemma DoubleRaw(v: bv64)
    requires v < 0x8000_0000_0000_0000
    ensures (v << 1) as int == 2 * (v as int) && ((v << 1) | 1) as int == 2 * (v as int) + 1
  {}

  /** An unsigned word read back as a signed one. */
  function AsInt64(x: uint64): (r: int64)
    ensures r % TWO_64 == x
  {
    if x < TWO_63 then x else x - TWO_64
  }
}
