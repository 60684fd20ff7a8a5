/** The masks and shifts with which the linker merges a field into a 32-bit word
    (crates/ipu-elf/src/lib.rs). Each is a form by quotients in which no sum or product leaves the
    word, and the number that the merged word stands for is the one that
    `LinkerRelocation.Insert` computes from those of word and field. */
module BitFields {
  import opened DivMod
  import LinkerRelocation

  /** A field in the low bits of a word. */
  function MergeLow(word: bv32, mask: bv32, field: bv32): bv32 {
    (word & !mask) | field
  }

  /** A run instruction keeps bits 12 to 15 and 20 to 31. */
  function MergeRun(word: bv32, field: bv32): bv32 {
    (word & 0xFFF0_F000) | (((field & 0xF000) << 4) | (field & 0xFFF))
  }

  lemma MergesLow18(word: bv32, field: bv32)
    requires field < 0x4_0000
    ensures MergeLow(word, 0x3_FFFF, field) == word / 0x4_0000 * 0x4_0000 + field
  {
  }

  lemma MergesLow19(word: bv32, field: bv32)
    requires field < 0x8_0000
    ensures MergeLow(word, 0x7_FFFF, field) == word / 0x8_0000 * 0x8_0000 + field
  {
  }

  lemma MergesLow20(word: bv32, field: bv32)
    requires field < 0x10_0000
    ensures MergeLow(word, 0xF_FFFF, field) == word / 0x10_0000 * 0x10_0000 + field
  {
  }

  lemma MergesLow21(word: bv32, field: bv32)
    requires field < 0x20_0000
    ensures MergeLow(word, 0x1F_FFFF, field) == word / 0x20_0000 * 0x20_0000 + field
  {
  }

  lemma MergesRun(word: bv32, field: bv32)
    requires field < 0x1_0000
    ensures MergeRun(word, field) ==
            word / 0x10_0000 * 0x10_0000 + field / 0x1000 * 0x1_0000 + word % 0x1_0000 / 0x1000 * 0x1000 + field % 0x1000
  {
  }

  // ---------------------------------------------------------------------------
  // The number of a word
  // ---------------------------------------------------------------------------

  function Half(word: bv32): bv32 {
    word >> 1
  }

  predicate Odd(word: bv32) {
    word & 1 == 1
  }

  /** The bits of a word inside a mask, and those outside. */
  function Inside(word: bv32, mask: bv32): bv32 {
    word & mask
  }

  function Outside(word: bv32, mask: bv32): bv32 {
    word & !mask
  }

  lemma HalfOfParts(word: bv32, mask: bv32)
    ensures Inside(Half(word), Half(mask)) == Half(Inside(word, mask))
    ensures Outside(Half(word), Half(mask)) == Half(Outside(word, mask))
  {
  }

  lemma OddInside(word: bv32, mask: bv32)
    requires Odd(mask)
    ensures Odd(Inside(word, mask)) == Odd(word)
  {
  }

  lemma NothingInside(word: bv32)
    ensures Outside(word, 0) == word
  {
  }

  /** What the low `n` bits of a word stand for. */
  function Number(word: bv32, n: nat): nat {
    if n == 0 then 0 else (if Odd(word) then 1 else 0) + 2 * Number(Half(word), n - 1)
  }

  /** What the others of the low `n` bits stand for once `k` are shifted out. */
  function Upper(word: bv32, n: nat, k: nat): nat
    requires k <= n
  {
    if k == 0 then Number(word, n) else Upper(Half(word), n - 1, k - 1)
  }

  function Power(k: nat): (r: nat)
    ensures r > 0
  {
    if k == 0 then 1 else 2 * Power(k - 1)
  }

  /** The mask has its low `k` bits set. */
  predicate Ones(mask: bv32, k: nat) {
    if k == 0 then mask == 0 else Odd(mask) && Ones(Half(mask), k - 1)
  }

  lemma {:induction false} NumberSplits(word: bv32, n: nat, k: nat)
    requires k <= n
    ensures Number(word, n) == Number(word, k) + Upper(word, n, k) * Power(k)
    ensures Number(word, k) < Power(k)
    decreases k
  {
    hide Odd, Half;
    if k > 0 {
      NumberSplits(Half(word), n - 1, k - 1);
      TwiceProduct(Upper(Half(word), n - 1, k - 1), Power(k - 1));
    }
  }

  lemma TwiceProduct(a: nat, b: nat)
    ensures a * (2 * b) == 2 * (a * b)
  {
  }

  /** A word with its low bits from one word and the others from another. */
  lemma {:induction false} MergedNumber(merged: bv32, word: bv32, field: bv32, mask: bv32, n: nat, k: nat)
    requires k <= n && Ones(mask, k)
    requires Inside(merged, mask) == Inside(field, mask) && Outside(merged, mask) == Outside(word, mask)
    ensures Number(merged, k) == Number(field, k) && Upper(merged, n, k) == Upper(word, n, k)
    decreases k
  {
    hide Odd, Half, Inside, Outside;
    if k > 0 {
      HalfOfParts(merged, mask);
      HalfOfParts(word, mask);
      HalfOfParts(field, mask);
      OddInside(merged, mask);
      OddInside(field, mask);
      MergedNumber(Half(merged), Half(word), Half(field), Half(mask), n - 1, k - 1);
    } else {
      NothingInside(merged);
      NothingInside(word);
    }
  }

  lemma Zeros()
    ensures !Odd(0) && Half(0) == 0 && forall mask :: Outside(0, mask) == 0
  {
  }

  lemma {:induction false} ZeroNumber(n: nat)
    ensures Number(0, n) == 0
  {
    hide Odd, Half;
    Zeros();
    if n > 0 {
      ZeroNumber(n - 1);
    }
  }

  lemma {:induction false} ZeroUpper(n: nat, k: nat)
    requires k <= n
    ensures Upper(0, n, k) == 0
  {
    hide Odd, Half;
    Zeros();
    ZeroNumber(n);
    if k > 0 {
      ZeroUpper(n - 1, k - 1);
    }
  }

  lemma SameQuotient(merged: nat, word: nat, field: nat, upper: nat, low: nat, power: nat)
    requires merged == field + upper * power && word == low + upper * power && low < power
    ensures merged == word / power * power + field
  {
    QuotientIs(word, power, upper, low);
  }

  /** Replacing the low bits of a word replaces the remainder of its number. */
  lemma LowBitsReplaced(merged: bv32, word: bv32, field: bv32, mask: bv32, k: nat)
    requires k <= 32 && Ones(mask, k) && Outside(field, mask) == 0
    requires Inside(merged, mask) == Inside(field, mask) && Outside(merged, mask) == Outside(word, mask)
    ensures Number(merged, 32) == Number(word, 32) / Power(k) * Power(k) + Number(field, 32)
    ensures Number(field, 32) < Power(k)
  {
    hide Number, Upper, Ones, Power, Inside, Outside, Half, Odd;
    Zeros();
    MergedNumber(merged, word, field, mask, 32, k);
    MergedNumber(field, 0, field, mask, 32, k);
    ZeroUpper(32, k);
    NumberSplits(merged, 32, k);
    NumberSplits(word, 32, k);
    NumberSplits(field, 32, k);
    SameQuotient(Number(merged, 32), Number(word, 32), Number(field, 32), Upper(word, 32, k), Number(word, k), Power(k));
  }

  /** Merging a field into the low bits replaces the remainder of the word's number. */
  lemma MergesNumber(word: bv32, mask: bv32, field: bv32, k: nat)
    requires k <= 32 && Ones(mask, k) && field <= mask && (mask & (mask + 1)) == 0
    ensures Number(MergeLow(word, mask, field), 32) == Number(word, 32) / Power(k) * Power(k) + Number(field, 32)
    ensures Number(field, 32) < Power(k)
  {
    hide Number, Ones, Power, MergeLow, Inside, Outside;
    SmallIsInside(field, mask);
    MergedInside(word, mask, field);
    MergedOutside(word, mask, field);
    LowBitsReplaced(MergeLow(word, mask, field), word, field, mask, k);
  }

  lemma SmallIsInside(field: bv32, mask: bv32)
    requires field <= mask && (mask & (mask + 1)) == 0
    ensures Outside(field, mask) == 0 && Inside(field, mask) == field
  {
  }

  lemma MergedInside(word: bv32, mask: bv32, field: bv32)
    ensures Inside(MergeLow(word, mask, Inside(field, mask)), mask) == Inside(field, mask)
  {
  }

  lemma MergedOutside(word: bv32, mask: bv32, field: bv32)
    ensures Outside(MergeLow(word, mask, Inside(field, mask)), mask) == Outside(word, mask)
  {
  }

  lemma Masks()
    ensures Ones(0x3_FFFF, 18) && Ones(0x7_FFFF, 19) && Ones(0xF_FFFF, 20) && Ones(0x1F_FFFF, 21)
    ensures Power(18) == 0x4_0000 && Power(19) == 0x8_0000 && Power(20) == 0x10_0000 && Power(21) == 0x20_0000
  {
    assert Ones(0x3, 2) && Ones(0xF, 4) && Ones(0x3F, 6) && Ones(0xFF, 8) && Ones(0x3FF, 10);
    assert Ones(0xFFF, 12) && Ones(0x3FFF, 14) && Ones(0xFFFF, 16);
    assert Power(8) == 0x100 && Power(16) == 0x1_0000;
  }

  // ---------------------------------------------------------------------------
  // The run instruction
  // ---------------------------------------------------------------------------

  /** A word without its lowest hexadecimal digit. */
  function Tail(word: bv32): bv32 {
    word >> 4
  }

  /** A word without its `i` lowest hexadecimal digits. */
  function Place(word: bv32, i: nat): bv32 {
    if i == 0 then word else Tail(Place(word, i - 1))
  }

  lemma FourHalves(word: bv32)
    ensures Half(Half(Half(Half(word)))) == Tail(word)
  {
  }

  lemma {:induction false} OneBit(word: bv32, n: nat)
    requires n > 0
    ensures Number(word, n) == (if Odd(word) then 1 else 0) + 2 * Number(Half(word), n - 1)
  {
  }

  lemma Digit(word: bv32, n: nat)
    requires n >= 4
    ensures Number(word, n) == Number(word, 4) + 16 * Number(Tail(word), n - 4) && Number(word, 4) < 16
  {
    hide Odd, Half, Number, Tail;
    FourHalves(word);
    var a, b := Half(word), Half(Half(word));
    OneBit(word, n);
    OneBit(a, n - 1);
    OneBit(b, n - 2);
    OneBit(Half(b), n - 3);
    OneBit(word, 4);
    OneBit(a, 3);
    OneBit(b, 2);
    OneBit(Half(b), 1);
    NoBits(Tail(word));
  }

  lemma NoBits(word: bv32)
    ensures Number(word, 0) == 0
  {
  }

  /** The hexadecimal digit at place `i`. */
  function DigitAt(word: bv32, i: nat): nat {
    Number(Place(word, i), 4)
  }

  /** The five lowest digits of a word, and the rest. */
  lemma Digits(word: bv32)
    ensures Number(word, 32) == DigitAt(word, 0) + 0x10 * DigitAt(word, 1) + 0x100 * DigitAt(word, 2)
                                + 0x1000 * DigitAt(word, 3) + 0x1_0000 * DigitAt(word, 4) + 0x10_0000 * Number(Place(word, 5), 12)
    ensures DigitAt(word, 0) < 16 && DigitAt(word, 1) < 16 && DigitAt(word, 2) < 16
    ensures DigitAt(word, 3) < 16 && DigitAt(word, 4) < 16
  {
    hide Number, Tail;
    Digit(word, 32);
    Digit(Place(word, 1), 28);
    Digit(Place(word, 2), 24);
    Digit(Place(word, 3), 20);
    Digit(Place(word, 4), 16);
  }

  lemma Tails(word: bv32)
    ensures Tail(word) == word >> 4 && Tail(word >> 4) == word >> 8 && Tail(word >> 8) == word >> 12
  {
  }

  lemma HighTails(word: bv32)
    ensures Tail(word >> 12) == word >> 16 && Tail(word >> 16) == word >> 20
  {
  }

  lemma Places(word: bv32)
    ensures Place(word, 1) == word >> 4 && Place(word, 2) == word >> 8 && Place(word, 3) == word >> 12
    ensures Place(word, 4) == word >> 16 && Place(word, 5) == word >> 20
  {
    hide Tail;
    Tails(word);
    HighTails(word);
    assert Place(word, 2) == Tail(Place(word, 1));
    assert Place(word, 4) == Tail(Place(word, 3));
  }

  /** The bits of the hexadecimal digit at place `i`. */
  function Window(word: bv32, i: nat): bv32 {
    match i
    case 0 => word & 15
    case 1 => (word >> 4) & 15
    case 2 => (word >> 8) & 15
    case 3 => (word >> 12) & 15
    case _ => (word >> 16) & 15
  }

  /** The digits of a merged run instruction. */
  lemma RunLow(word: bv32, field: bv32)
    ensures Window(MergeRun(word, field), 0) == Window(field, 0)
    ensures Window(MergeRun(word, field), 1) == Window(field, 1)
    ensures Window(MergeRun(word, field), 2) == Window(field, 2)
  {
  }

  lemma RunHigh(word: bv32, field: bv32)
    ensures Window(MergeRun(word, field), 3) == Window(word, 3)
    ensures Window(MergeRun(word, field), 4) == Window(field, 3)
  {
  }

  lemma RunTop(word: bv32, field: bv32)
    ensures MergeRun(word, field) >> 20 == word >> 20
  {
  }

  lemma RunRest(word: bv32, field: bv32)
    ensures Place(MergeRun(word, field), 5) == Place(word, 5)
  {
    hide MergeRun, Place;
    Places(word);
    Places(MergeRun(word, field));
    RunTop(word, field);
  }

  lemma WindowIs(word: bv32, i: nat)
    requires i <= 4
    ensures Window(word, i) == Inside(Place(word, i), 15)
  {
    hide Place;
    Places(word);
    NoPlace(word);
  }

  lemma SameDigit(a: bv32, b: bv32)
    requires Inside(a, 15) == Inside(b, 15)
    ensures Number(a, 4) == Number(b, 4)
  {
    hide Number, Inside;
    assert Ones(15, 4) by {
      assert Ones(3, 2);
    }
    MergedNumber(a, a, b, 15, 4, 4);
  }

  lemma SamePlace(a: bv32, i: nat, b: bv32, j: nat)
    requires i <= 4 && j <= 4 && Window(a, i) == Window(b, j)
    ensures DigitAt(a, i) == DigitAt(b, j)
  {
    hide Number, Inside, Place, Window;
    WindowIs(a, i);
    WindowIs(b, j);
    SameDigit(Place(a, i), Place(b, j));
  }

  lemma RunDigits(word: bv32, field: bv32)
    ensures var merged := MergeRun(word, field);
      && DigitAt(merged, 0) == DigitAt(field, 0) && DigitAt(merged, 1) == DigitAt(field, 1)
      && DigitAt(merged, 2) == DigitAt(field, 2) && DigitAt(merged, 3) == DigitAt(word, 3)
      && DigitAt(merged, 4) == DigitAt(field, 3) && Place(merged, 5) == Place(word, 5)
  {
    hide Window, MergeRun, Place, DigitAt;
    var merged := MergeRun(word, field);
    RunLow(word, field);
    RunHigh(word, field);
    RunRest(word, field);
    SamePlace(merged, 0, field, 0);
    SamePlace(merged, 1, field, 1);
    SamePlace(merged, 2, field, 2);
    SamePlace(merged, 3, word, 3);
    SamePlace(merged, 4, field, 3);
  }

  lemma NoPlace(word: bv32)
    ensures Place(word, 0) == word
  {
  }

  /** A 16-bit field has four digits. */
  lemma FieldDigits(field: bv32)
    requires field < 0x1_0000
    ensures DigitAt(field, 4) == 0 && Number(Place(field, 5), 12) == 0
  {
    hide Number, Place;
    Places(field);
    NothingAbove(field);
    ZeroNumber(4);
    ZeroNumber(12);
  }

  lemma NothingAbove(field: bv32)
    requires field < 0x1_0000
    ensures field >> 16 == 0 && field >> 20 == 0
  {
  }

  lemma RunNumber(word: bv32, field: bv32)
    requires field < 0x1_0000
    ensures Number(field, 32) < 0x1_0000
    ensures Number(MergeRun(word, field), 32) == LinkerRelocation.Insert(LinkerRelocation.Run, Number(word, 32), Number(field, 32))
  {
    hide Number, Place, DigitAt, MergeRun;
    Digits(word);
    Digits(field);
    Digits(MergeRun(word, field));
    RunDigits(word, field);
    FieldDigits(field);
    RunSum(Number(word, 32), DigitAt(word, 0) + 0x10 * DigitAt(word, 1) + 0x100 * DigitAt(word, 2), DigitAt(word, 3),
           DigitAt(word, 4), Number(Place(word, 5), 12), Number(field, 32),
           DigitAt(field, 0) + 0x10 * DigitAt(field, 1) + 0x100 * DigitAt(field, 2), DigitAt(field, 3));
  }

  lemma RunSum(word: nat, low: nat, kept: nat, replaced: nat, high: nat, field: nat, fieldLow: nat, fieldHigh: nat)
    requires word == low + 0x1000 * kept + 0x1_0000 * replaced + 0x10_0000 * high && low < 0x1000 && kept < 16 && replaced < 16
    requires field == fieldLow + 0x1000 * fieldHigh && fieldLow < 0x1000 && fieldHigh < 16
    ensures word / 0x10_0000 * 0x10_0000 + field / 0x1000 * 0x1_0000 + word % 0x1_0000 / 0x1000 * 0x1000 + field % 0x1000 ==
            fieldLow + 0x1000 * kept + 0x1_0000 * fieldHigh + 0x10_0000 * high
  {
    QuotientIs(word, 0x10_0000, high, low + 0x1000 * kept + 0x1_0000 * replaced);
    QuotientIs(word, 0x1_0000, replaced + 0x10 * high, low + 0x1000 * kept);
    QuotientIs(low + 0x1000 * kept, 0x1000, kept, low);
    QuotientIs(field, 0x1000, fieldHigh, fieldLow);
  }

  // ---------------------------------------------------------------------------
  // Every field of a word
  // ---------------------------------------------------------------------------

  /** The fields that share a word with other bits. */
  predicate Shares(kind: LinkerRelocation.Kind) {
    kind.Field18? || kind.Field19? || kind.Field20? || kind.Field21? || kind.Run?
  }

  /** The largest field. */
  function Largest(kind: LinkerRelocation.Kind): bv32
    requires Shares(kind)
  {
    match kind
    case Field18 => 0x3_FFFF
    case Field19 => 0x7_FFFF
    case Field20 => 0xF_FFFF
    case Field21 => 0x1F_FFFF
    case Run => 0xFFFF
  }

  /** What the linker writes back. */
  function InsertWord(kind: LinkerRelocation.Kind, word: bv32, field: bv32): bv32
    requires Shares(kind)
  {
    if kind.Run? then MergeRun(word, field) else MergeLow(word, Largest(kind), field)
  }

  /** The same by quotients, as `LinkerRelocation.Insert` has it. */
  function InsertQuotients(kind: LinkerRelocation.Kind, word: bv32, field: bv32): bv32
    requires Shares(kind)
  {
    match kind
    case Field18 => word / 0x4_0000 * 0x4_0000 + field
    case Field19 => word / 0x8_0000 * 0x8_0000 + field
    case Field20 => word / 0x10_0000 * 0x10_0000 + field
    case Field21 => word / 0x20_0000 * 0x20_0000 + field
    case Run => word / 0x10_0000 * 0x10_0000 + field / 0x1000 * 0x1_0000 + word % 0x1_0000 / 0x1000 * 0x1000 + field % 0x1000
  }

  /** On 32-bit words the masks are the quotients, and none of their sums or products leaves the word. */
  lemma InsertsQuotients(kind: LinkerRelocation.Kind, word: bv32, field: bv32)
    requires Shares(kind) && field <= Largest(kind)
    ensures InsertWord(kind, word, field) == InsertQuotients(kind, word, field)
  {
    match kind
    case Field18 => MergesLow18(word, field);
    case Field19 => MergesLow19(word, field);
    case Field20 => MergesLow20(word, field);
    case Field21 => MergesLow21(word, field);
    case Run => MergesRun(word, field);
  }

  /** The number of the word that is written back is the one that `LinkerRelocation.Insert` gives. */
  lemma InsertsNumber(kind: LinkerRelocation.Kind, word: bv32, field: bv32)
    requires Shares(kind) && field <= Largest(kind)
    ensures Number(field, 32) < LinkerRelocation.Capacity(kind)
    ensures Number(InsertWord(kind, word, field), 32) == LinkerRelocation.Insert(kind, Number(word, 32), Number(field, 32))
  {
    hide Number, Ones, Power, MergeLow, MergeRun;
    Masks();
    match kind
    case Field18 => MergesNumber(word, 0x3_FFFF, field, 18);
    case Field19 => MergesNumber(word, 0x7_FFFF, field, 19);
    case Field20 => MergesNumber(word, 0xF_FFFF, field, 20);
    case Field21 => MergesNumber(word, 0x1F_FFFF, field, 21);
    case Run => RunNumber(word, field);
  }
}