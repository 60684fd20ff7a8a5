/** Memory of 32-bit words that holds two 16-bit elements a word, the first in the low half.

    The packing kernels move pairs of elements as words and take words apart with masks and
    shifts; the lemmas say what those bit operations do to the two halves. */
module HalfWords {

  function Low(word: bv32): bv32 {
    word & 0xFFFF
  }

  function High(word: bv32): bv32 {
    word >> 16
  }

  /** Element `i` of a memory of words. */
  function Half(words: seq<bv32>, i: nat): bv32
    requires i / 2 < |words|
  {
    if i % 2 == 0 then Low(words[i / 2]) else High(words[i / 2])
  }

  /** A word is its high half above the sixteen bits of its low half. */
  lemma HalvesMakeWord(word: bv32)
    ensures word == Low(word) | (High(word) << 16)
  {
  }

  /** No other two halves make it up. */
  lemma HalvesAreOnly(word: bv32, low: bv32, high: bv32)
    requires low <= 0xFFFF && high <= 0xFFFF && word == low | (high << 16)
    ensures low == Low(word) && high == High(word)
  {
    hide Low, High;
    PairsHalves(low, high);
  }

  /** The words that hold the low, and the high, halves of two others. */
  function PackEven(first: bv32, second: bv32): bv32 {
    (first & 0xFFFF) | (second << 16)
  }

  function PackOdd(first: bv32, second: bv32): bv32 {
    (first >> 16) | (second & 0xFFFF_0000)
  }

  /** A word put together from its two halves. */
  function Pair(low: bv32, high: bv32): bv32 {
    low | (high << 16)
  }

  lemma PacksEven(first: bv32, second: bv32)
    ensures Low(PackEven(first, second)) == Low(first) && High(PackEven(first, second)) == Low(second)
  {
  }

  lemma PacksOdd(first: bv32, second: bv32)
    ensures Low(PackOdd(first, second)) == High(first) && High(PackOdd(first, second)) == High(second)
  {
  }

  lemma HalvesAreShort(word: bv32)
    ensures Low(word) <= 0xFFFF && High(word) <= 0xFFFF
  {
  }

  lemma PairsHalves(low: bv32, high: bv32)
    requires low <= 0xFFFF && high <= 0xFFFF
    ensures Low(Pair(low, high)) == low && High(Pair(low, high)) == high
  {
  }

  lemma ZeroHalves()
    ensures Low(0) == 0 && High(0) == 0
  {
  }

  /** Two elements, each taken from either half of a word, make up the halves of their pair. */
  lemma PairOfHalves(words: seq<bv32>, i: nat, others: seq<bv32>, j: nat)
    requires i / 2 < |words| && j / 2 < |others|
    ensures Low(Pair(Half(words, i), Half(others, j))) == Half(words, i)
    ensures High(Pair(Half(words, i), Half(others, j))) == Half(others, j)
  {
    hide Low, High, Pair;
    HalvesAreShort(words[i / 2]);
    HalvesAreShort(others[j / 2]);
    PairsHalves(Half(words, i), Half(others, j));
  }

  /** Storing a word changes its two elements and no other. */
  lemma StoredHalf(words: seq<bv32>, at: nat, word: bv32, i: nat)
    requires at < |words| && i / 2 < |words|
    ensures Half(words[at := word], i) ==
            if i == 2 * at then Low(word) else if i == 2 * at + 1 then High(word) else Half(words, i)
  {
    hide Low, High;
  }
}
