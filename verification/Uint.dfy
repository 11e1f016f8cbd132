/** Fixed-width unsigned integers of the source and the checked and wrapping operations it uses on them. */
module Uint {

  const TWO_64: int := 0x1_0000_0000_0000_0000
  const MAX_U64: int := 0xFFFF_FFFF_FFFF_FFFF

  /** Go's uint64.  Assigning to a U64 carries the obligation that nothing overflowed. */
  type U64 = x: int | 0 <= x < 0x1_0000_0000_0000_0000

  /** uint256.Int */
  type Word = x: int |
    0 <= x < 0x1_0000_0000_0000_0000_0000_0000_0000_0000_0000_0000_0000_0000_0000_0000_0000_0000

  type Byte = x: int | 0 <= x < 256

  /** A Go byte slice: its length is an int. */
  type Bytes = s: seq<Byte> | |s| < 0x8000_0000_0000_0000

  datatype Option<+T> = None | Some(value: T)

  /** Go's `a - b` on uint64. */
  function WrapSub(a: U64, b: U64): (r: U64)
    ensures (r + b) % TWO_64 == a
  {
    if b <= a then a - b else a - b + TWO_64
  }

  /** Go's `a + b` on uint64. */
  function WrapAdd(a: U64, b: U64): (r: U64)
    ensures r == (a + b) % TWO_64
  {
    if a + b < TWO_64 then a + b else a + b - TWO_64
  }

  /** math.SafeAdd of go-ethereum: None is the overflow flag. */
  function SafeAdd(a: U64, b: U64): (r: Option<U64>) {
    if a + b < TWO_64 then Some(a + b) else None
  }

  /** math.SafeMul of go-ethereum: None is the overflow flag. */
  function SafeMul(a: U64, b: U64): (r: Option<U64>) {
    var p: int := a * b;
    if 0 <= p < TWO_64 then Some(p) else None
  }

  lemma ProductAtMost(a: nat, b: nat, x: nat, y: nat)
    requires a <= x && b <= y
    ensures a * b <= x * y
  {
    assert a * b <= x * b <= x * y;
  }
}
