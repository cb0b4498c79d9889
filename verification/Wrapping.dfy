/** Unsigned words of 32 and 64 bits: what a number becomes in one. */
module Wrapping {
  import opened Arithmetic

  const WORD_RANGE := 0x1_0000_0000
  const TIME_RANGE := 0x1_0000_0000_0000_0000

  function U32(x: int): (r: int)
    ensures 0 <= r < WORD_RANGE
  {
    x % WORD_RANGE
  }

  function U64(x: int): int { x % TIME_RANGE }

  lemma U32Add(x: int, y: int)
    ensures U32(U32(x) + y) == U32(x + y)
  {
  }

  lemma U32Is(x: int, c: int, r: int)
    requires x == WORD_RANGE * c + r && 0 <= r < WORD_RANGE
    ensures U32(x) == r
  {
    ModUnique(x, WORD_RANGE, c, r);
  }

  lemma U64Add(x: int, y: int)
    ensures U64(U64(x) + y) == U64(x + y)
  {
  }

  lemma U64Subtract(x: int, y: int)
    ensures U64(x - U64(y)) == U64(x - y)
  {
  }
}
