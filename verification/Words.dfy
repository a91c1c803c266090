/** Machine words of 32 bits: the highest bit, doubling, and exclusive or. */
module Words {
  predicate WordTop(x: bv32) {
    x >= 0x8000_0000
  }

  function WordDouble(x: bv32): bv32 {
    x + x
  }

  function WordPlus(x: bv32, y: bv32): bv32 {
    x ^ y
  }

  lemma WordTopPlus(x: bv32, y: bv32)
    ensures WordTop(WordPlus(x, y)) == (WordTop(x) != WordTop(y))
  {
  }

  lemma WordDoublePlus(x: bv32, y: bv32)
    ensures WordDouble(WordPlus(x, y)) == WordPlus(WordDouble(x), WordDouble(y))
  {
  }
}
