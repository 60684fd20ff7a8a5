/** Relocations (crates/ipu-elf/src/lib.rs).

    A relocation writes a value into a bit field of the code or data at an offset of its
    section. The module proves that it succeeds exactly for the values its field can hold,
    that reading the field back gives the value, that every other bit stays as it was, and
    that in the linked image only the bytes of its own section can change. */
module LinkerRelocation {
  import opened DivMod

  newtype byte = x: int | 0 <= x < 256

  datatype Kind =
    | Nothing | Byte | Half | Half3 | Half4 | Half5 | RelativeHalf2
    | Word | Long | Field18 | Field19 | Field20 | Field21 | Run | Unknown

  // ---------------------------------------------------------------------------
  // Little-endian numbers
  // ---------------------------------------------------------------------------

  /** The bytes of a number, lowest first. */
  function Bytes(value: nat, n: nat): (r: seq<byte>)
    ensures |r| == n
  {
    if n == 0 then [] else [(value % 256) as byte] + Bytes(value / 256, n - 1)
  }

  function Number(bytes: seq<byte>): nat {
    if bytes == [] then 0 else bytes[0] as nat + 256 * Number(bytes[1..])
  }

  /** Numbers below 256 to the power n. */
  function Limit(n: nat): (r: nat)
    ensures r > 0
  {
    if n == 0 then 1 else 256 * Limit(n - 1)
  }

  lemma {:induction false} NumberOfBytes(value: nat, n: nat)
    ensures Number(Bytes(value, n)) == value % Limit(n)
    ensures value < Limit(n) ==> Number(Bytes(value, n)) == value
  {
    if n > 0 {
      NumberOfBytes(value / 256, n - 1);
      assert Bytes(value, n)[1..] == Bytes(value / 256, n - 1);
      RemainderStep(value, Limit(n - 1));
    }
  }

  lemma RemainderStep(value: nat, limit: nat)
    requires limit > 0
    ensures value % (256 * limit) == value % 256 + 256 * (value / 256 % limit)
  {
    var q, r := value / 256 / limit, value / 256 % limit;
    assert value / 256 == q * limit + r;
    assert value == q * (256 * limit) + (256 * r + value % 256);
    QuotientIs(value, 256 * limit, q, 256 * r + value % 256);
  }

  lemma {:induction false} BytesOfNumber(bytes: seq<byte>)
    ensures Number(bytes) < Limit(|bytes|) && Bytes(Number(bytes), |bytes|) == bytes
  {
    if bytes != [] {
      var first, rest := bytes[0] as nat, Number(bytes[1..]);
      BytesOfNumber(bytes[1..]);
      QuotientIs(Number(bytes), 256, rest, first);
      assert bytes == [bytes[0]] + bytes[1..];
    }
  }

  // ---------------------------------------------------------------------------
  // Fields
  // ---------------------------------------------------------------------------

  /** The number of bytes that a relocation of the kind writes. */
  function Width(kind: Kind): nat {
    match kind
    case Nothing | Unknown => 0
    case Byte => 1
    case Half | Half3 | Half4 | Half5 | RelativeHalf2 => 2
    case Word | Field18 | Field19 | Field20 | Field21 | Run => 4
    case Long => 8
  }

  /** The unit in which the field counts. */
  function Unit(kind: Kind): (r: nat)
    ensures r > 0
  {
    match kind
    case Half3 => 8
    case Half4 => 16
    case Half5 => 32
    case RelativeHalf2 | Field18 | Field19 | Run => 4
    case _ => 1
  }

  /** One more than the largest number that the field holds. */
  function Capacity(kind: Kind): nat {
    match kind
    case Nothing | Unknown => 1
    case Byte => 0x100
    case Half | Half3 | Half4 | Half5 | RelativeHalf2 | Run => 0x1_0000
    case Word => 0x1_0000_0000
    case Long => 0x1_0000_0000_0000_0000
    case Field18 => 0x4_0000
    case Field19 => 0x8_0000
    case Field20 => 0x10_0000
    case Field21 => 0x20_0000
  }

  function Base(kind: Kind, imageBase: nat): nat {
    if kind.RelativeHalf2? || kind.Run? then imageBase else 0
  }

  /** The number in the field of a word of `Width` bytes. */
  function Read(kind: Kind, word: nat): nat {
    match kind
    case Nothing | Unknown => 0
    case Byte | Half | Half3 | Half4 | Half5 | RelativeHalf2 | Word | Long => word
    case Field18 | Field19 | Field20 | Field21 => word % Capacity(kind)
    case Run => word / 0x1_0000 % 0x10 * 0x1000 + word % 0x1000
  }

  /** The bits outside the field. */
  function Rest(kind: Kind, word: nat): nat {
    match kind
    case Nothing | Unknown => word
    case Byte | Half | Half3 | Half4 | Half5 | RelativeHalf2 | Word | Long => 0
    case Field18 | Field19 | Field20 | Field21 => word / Capacity(kind) * Capacity(kind)
    case Run => word / 0x10_0000 * 0x10_0000 + word % 0x1_0000 / 0x1000 * 0x1000
  }

  /** The word with a number in its field; `BitFields` has the masks and shifts that do it. */
  function Insert(kind: Kind, word: nat, field: nat): nat {
    match kind
    case Nothing | Unknown => word
    case Byte | Half | Half3 | Half4 | Half5 | RelativeHalf2 | Word | Long => field
    case Field18 | Field19 | Field20 | Field21 => word / Capacity(kind) * Capacity(kind) + field
    case Run =>
      // Bits 16 to 19 and 0 to 11; the bits between belong to the opcode.
      word / 0x10_0000 * 0x10_0000 + field / 0x1000 * 0x1_0000 + word % 0x1_0000 / 0x1000 * 0x1000 + field % 0x1000
  }

  /** Inserting writes the field and nothing else. */
  lemma InsertReads(kind: Kind, word: nat, field: nat)
    requires !kind.Nothing? && !kind.Unknown? && field < Capacity(kind) && word < Limit(Width(kind))
    ensures Read(kind, Insert(kind, word, field)) == field
    ensures Rest(kind, Insert(kind, word, field)) == Rest(kind, word)
    ensures Insert(kind, word, field) < Limit(Width(kind))
  {
    hide Limit;
    Limits();
    match kind {
      case Field18 => InsertLow(word, 0x4_0000, field, 0x4000);
      case Field19 => InsertLow(word, 0x8_0000, field, 0x2000);
      case Field20 => InsertLow(word, 0x10_0000, field, 0x1000);
      case Field21 => InsertLow(word, 0x20_0000, field, 0x800);
      case Run => InsertRun(word, field);
      case _ =>
    }
  }

  lemma InsertLow(word: nat, capacity: nat, field: nat, rest: nat)
    requires field < capacity && word < rest * capacity
    ensures var next := word / capacity * capacity + field;
      next % capacity == field && next / capacity * capacity == word / capacity * capacity && next < rest * capacity
  {
    var q := word / capacity;
    QuotientIs(q * capacity + field, capacity, q, field);
    QuotientFits(word, capacity, rest);
    JoinFits(q, capacity, field, rest);
  }

  lemma QuotientFits(word: nat, capacity: nat, rest: nat)
    requires capacity > 0 && word < rest * capacity
    ensures word / capacity < rest
  {
    var q := word / capacity;
    assert q * capacity <= word;
    if rest <= q {
      MulMonotone(rest, q, capacity);
    }
  }

  lemma JoinFits(q: nat, capacity: nat, field: nat, rest: nat)
    requires q < rest && field < capacity
    ensures q * capacity + field < rest * capacity
  {
    MulMonotone(q + 1, rest, capacity);
    MulNext(q, capacity);
  }

  /** A run instruction: bits 20 to 31, 16 to 19, 12 to 15 and 0 to 11. */
  function RunWord(a: nat, b: nat, c: nat, d: nat): nat {
    a * 0x10_0000 + b * 0x1_0000 + c * 0x1000 + d
  }

  lemma InsertRun(word: nat, field: nat)
    requires field < 0x1_0000 && word < 0x1_0000_0000
    ensures Read(Run, Insert(Run, word, field)) == field && Rest(Run, Insert(Run, word, field)) == Rest(Run, word)
    ensures Insert(Run, word, field) < 0x1_0000_0000
  {
    hide Read, Rest, Insert, RunWord;
    var a, b, c, d := RunParts(word);
    var high, low := RunField(field);
    RunReads(word, a, b, c, d);
    RunInserts(word, a, b, c, d, field, high, low);
    RunReads(RunWord(a, high, c, low), a, high, c, low);
  }

  lemma RunParts(word: nat) returns (a: nat, b: nat, c: nat, d: nat)
    requires word < 0x1_0000_0000
    ensures a < 0x1000 && b < 0x10 && c < 0x10 && d < 0x1000 && word == RunWord(a, b, c, d)
  {
    var upper := word / 0x1000;
    a, b, c, d := upper / 0x10 / 0x10, upper / 0x10 % 0x10, upper % 0x10, word % 0x1000;
  }

  lemma RunField(field: nat) returns (high: nat, low: nat)
    requires field < 0x1_0000
    ensures high == field / 0x1000 < 0x10 && low == field % 0x1000 && field == high * 0x1000 + low
  {
    high, low := field / 0x1000, field % 0x1000;
  }

  lemma RunReads(word: nat, a: nat, b: nat, c: nat, d: nat)
    requires a < 0x1000 && b < 0x10 && c < 0x10 && d < 0x1000 && word == RunWord(a, b, c, d)
    ensures Read(Run, word) == b * 0x1000 + d && Rest(Run, word) == a * 0x10_0000 + c * 0x1000 && word < 0x1_0000_0000
  {
    Nibbles(word, a, b, c, d);
  }

  lemma RunInserts(word: nat, a: nat, b: nat, c: nat, d: nat, field: nat, high: nat, low: nat)
    requires b < 0x10 && c < 0x10 && d < 0x1000 && word == RunWord(a, b, c, d)
    requires high == field / 0x1000 && low == field % 0x1000
    ensures Insert(Run, word, field) == RunWord(a, high, c, low)
  {
    Nibbles(word, a, b, c, d);
  }

  lemma Nibbles(word: nat, a: nat, b: nat, c: nat, d: nat)
    requires b < 0x10 && c < 0x10 && d < 0x1000 && word == a * 0x10_0000 + b * 0x1_0000 + c * 0x1000 + d
    ensures word / 0x10_0000 == a && word / 0x1_0000 % 0x10 == b && word % 0x1_0000 / 0x1000 == c && word % 0x1000 == d
  {
    QuotientIs(word, 0x10_0000, a, b * 0x1_0000 + c * 0x1000 + d);
    QuotientIs(word, 0x1_0000, a * 0x10 + b, c * 0x1000 + d);
    QuotientIs(a * 0x10 + b, 0x10, a, b);
    QuotientIs(c * 0x1000 + d, 0x1000, c, d);
    QuotientIs(word, 0x1000, a * 0x100 + b * 0x10 + c, d);
  }

  /** A word is its field and the rest: the two determine it. */
  lemma FieldAndRest(kind: Kind, a: nat, b: nat)
    requires Read(kind, a) == Read(kind, b) && Rest(kind, a) == Rest(kind, b)
    ensures a == b
  {
    match kind {
      case Run =>
        SplitRun(a);
        SplitRun(b);
      case Field18 | Field19 | Field20 | Field21 =>
        assert a == Rest(kind, a) + Read(kind, a) && b == Rest(kind, b) + Read(kind, b);
      case _ =>
    }
  }

  /** The parts of a run instruction by field and rest. */
  lemma SplitRun(word: nat)
    ensures word == Rest(Run, word) + Read(Run, word) / 0x1000 * 0x1_0000 + Read(Run, word) % 0x1000
  {
    var upper, d := word / 0x1000, word % 0x1000;
    var a, b, c := upper / 0x10 / 0x10, upper / 0x10 % 0x10, upper % 0x10;
    Nibbles(word, a, b, c, d);
    QuotientIs(b * 0x1000 + d, 0x1000, b, d);
  }

  lemma Limits()
    ensures Limit(0) == 1 && Limit(1) == 0x100 && Limit(2) == 0x1_0000
    ensures Limit(4) == 0x1_0000_0000 && Limit(8) == 0x1_0000_0000_0000_0000
  {
    assert Limit(3) == 0x100_0000 && Limit(4) == 0x1_0000_0000;
    assert Limit(5) == 256 * Limit(4) && Limit(6) == 256 * Limit(5) && Limit(7) == 256 * Limit(6) && Limit(8) == 256 * Limit(7);
  }

  // ---------------------------------------------------------------------------
  // Applying a relocation
  // ---------------------------------------------------------------------------

  datatype Outcome = Done | Unrepresentable | Outside | UnknownKind

  /** A value that the kind can express: at or above its base, a multiple of its unit and
      small enough for its field. A run target must itself be a multiple of its unit, whatever
      the base. */
  ghost predicate Representable(kind: Kind, value: nat, imageBase: nat) {
    && Base(kind, imageBase) <= value
    && (if kind.Run? then value % 4 == 0 else (value - Base(kind, imageBase)) % Unit(kind) == 0)
    && (value - Base(kind, imageBase)) / Unit(kind) < Capacity(kind)
  }

  function FieldFor(kind: Kind, value: nat, imageBase: nat): nat
    requires Base(kind, imageBase) <= value
  {
    (value - Base(kind, imageBase)) / Unit(kind)
  }

  // ---------------------------------------------------------------------------
  // What a relocated section says
  // ---------------------------------------------------------------------------

  /** The number in two, four or eight bytes at an offset, lowest byte first. */
  function Two(s: seq<byte>, at: nat): nat
    requires at + 2 <= |s|
  {
    s[at] as nat + 0x100 * s[at + 1] as nat
  }

  function Four(s: seq<byte>, at: nat): nat
    requires at + 4 <= |s|
  {
    Two(s, at) + 0x1_0000 * Two(s, at + 2)
  }

  function Eight(s: seq<byte>, at: nat): nat
    requires at + 8 <= |s|
  {
    Four(s, at) + 0x1_0000_0000 * Four(s, at + 4)
  }

  /** Whether a relocation of the kind with `room` bytes from its offset on can express the value. */
  ghost predicate Expresses(kind: Kind, value: nat, imageBase: nat, room: int) {
    match kind
    case Nothing => true
    case Unknown => false
    case Byte => value <= 0xFF && 1 <= room
    case Half => value <= 0xFFFF && 2 <= room
    case Half3 => value % 8 == 0 && value <= 8 * 0xFFFF && 2 <= room
    case Half4 => value % 16 == 0 && value <= 16 * 0xFFFF && 2 <= room
    case Half5 => value % 32 == 0 && value <= 32 * 0xFFFF && 2 <= room
    case RelativeHalf2 => imageBase <= value && (value - imageBase) % 4 == 0 && value - imageBase <= 4 * 0xFFFF && 2 <= room
    case Word => value <= 0xFFFF_FFFF && 4 <= room
    case Long => value <= 0xFFFF_FFFF_FFFF_FFFF && 8 <= room
    case Field18 => value % 4 == 0 && value < 4 * 0x4_0000 && 4 <= room
    case Field19 => value % 4 == 0 && value < 4 * 0x8_0000 && 4 <= room
    case Field20 => value < 0x10_0000 && 4 <= room
    case Field21 => value < 0x20_0000 && 4 <= room
    case Run => imageBase <= value && value % 4 == 0 && value - imageBase < 4 * 0x1_0000 && 4 <= room
  }

  /** Bits 16 to 19 and 0 to 11 of a run instruction. */
  function RunTarget(word: nat): nat {
    word / 0x1_0000 % 0x10 * 0x1000 + word % 0x1000
  }

  /** The section refers to the value: the field times its unit, plus the image base for relative
      kinds, and short of the value by less than a unit where the base of a run is not aligned. */
  ghost predicate RefersTo(s: seq<byte>, at: nat, kind: Kind, value: nat, imageBase: nat) {
    match kind
    case Nothing => true
    case Unknown => false
    case Byte => at + 1 <= |s| && s[at] as nat == value
    case Half => at + 2 <= |s| && Two(s, at) == value
    case Half3 => at + 2 <= |s| && 8 * Two(s, at) == value
    case Half4 => at + 2 <= |s| && 16 * Two(s, at) == value
    case Half5 => at + 2 <= |s| && 32 * Two(s, at) == value
    case RelativeHalf2 => at + 2 <= |s| && 4 * Two(s, at) + imageBase == value
    case Word => at + 4 <= |s| && Four(s, at) == value
    case Long => at + 8 <= |s| && Eight(s, at) == value
    case Field18 => at + 4 <= |s| && 4 * (Four(s, at) % 0x4_0000) == value
    case Field19 => at + 4 <= |s| && 4 * (Four(s, at) % 0x8_0000) == value
    case Field20 => at + 4 <= |s| && Four(s, at) % 0x10_0000 == value
    case Field21 => at + 4 <= |s| && Four(s, at) % 0x20_0000 == value
    case Run => at + 4 <= |s| && 4 * RunTarget(Four(s, at)) + imageBase <= value < 4 * RunTarget(Four(s, at)) + imageBase + 4
  }

  /** The bytes around the relocation, and the opcode bits beside its field, are as before. */
  ghost predicate Keeps(before: seq<byte>, after: seq<byte>, at: nat, kind: Kind) {
    && |after| == |before|
    && match kind
       case Nothing | Unknown => after == before
       case Byte => KeepsAround(before, after, at, 1)
       case Half | Half3 | Half4 | Half5 | RelativeHalf2 => KeepsAround(before, after, at, 2)
       case Word => KeepsAround(before, after, at, 4)
       case Long => KeepsAround(before, after, at, 8)
       case Field18 => KeepsAround(before, after, at, 4) && Four(after, at) / 0x4_0000 == Four(before, at) / 0x4_0000
       case Field19 => KeepsAround(before, after, at, 4) && Four(after, at) / 0x8_0000 == Four(before, at) / 0x8_0000
       case Field20 => KeepsAround(before, after, at, 4) && Four(after, at) / 0x10_0000 == Four(before, at) / 0x10_0000
       case Field21 => KeepsAround(before, after, at, 4) && Four(after, at) / 0x20_0000 == Four(before, at) / 0x20_0000
       case Run =>
         && KeepsAround(before, after, at, 4)
         && Four(after, at) / 0x10_0000 == Four(before, at) / 0x10_0000
         && Four(after, at) % 0x1_0000 / 0x1000 == Four(before, at) % 0x1_0000 / 0x1000
  }

  ghost predicate KeepsAround(before: seq<byte>, after: seq<byte>, at: nat, n: nat) {
    && |after| == |before| && at + n <= |before|
    && after[..at] == before[..at] && after[at + n..] == before[at + n..]
  }

  lemma NumberFirst(s: seq<byte>, at: nat, end: nat)
    requires at < end <= |s|
    ensures Number(s[at..end]) == s[at] as nat + 0x100 * Number(s[at + 1..end])
  {
    assert s[at..end][1..] == s[at + 1..end];
  }

  lemma NumberOfTwo(s: seq<byte>, at: nat)
    requires at + 2 <= |s|
    ensures Number(s[at..at + 2]) == Two(s, at)
  {
    NumberFirst(s, at, at + 2);
    NumberFirst(s, at + 1, at + 2);
    assert s[at + 2..at + 2] == [];
  }

  lemma NumberOfFour(s: seq<byte>, at: nat)
    requires at + 4 <= |s|
    ensures Number(s[at..at + 4]) == Four(s, at)
  {
    NumberFirst(s, at, at + 4);
    NumberFirst(s, at + 1, at + 4);
    NumberOfTwo(s, at + 2);
  }

  lemma NumberOfEight(s: seq<byte>, at: nat)
    requires at + 8 <= |s|
    ensures Number(s[at..at + 8]) == Eight(s, at)
  {
    NumberFirst(s, at, at + 8);
    NumberFirst(s, at + 1, at + 8);
    NumberFirst(s, at + 2, at + 8);
    NumberFirst(s, at + 3, at + 8);
    NumberOfFour(s, at + 4);
  }

  function WordOf(s: seq<byte>, at: nat, kind: Kind): nat
    requires at + Width(kind) <= |s|
  {
    match Width(kind)
    case 0 => 0
    case 1 => s[at] as nat
    case 2 => Two(s, at)
    case 4 => Four(s, at)
    case _ => Eight(s, at)
  }

  /** The word at an offset, by its bytes. */
  lemma WordAtIs(s: seq<byte>, at: nat, kind: Kind)
    requires at + Width(kind) <= |s|
    ensures WordAt(s, at, kind) == WordOf(s, at, kind)
  {
    hide Two, Four, Eight;
    match Width(kind)
    case 0 =>
    case 1 => NumberFirst(s, at, at + 1);
    case 2 => NumberOfTwo(s, at);
    case 4 => NumberOfFour(s, at);
    case _ => NumberOfEight(s, at);
  }

  /** The values that a field can hold, by kind. */
  lemma RepresentableIs(kind: Kind, value: nat, imageBase: nat, offset: nat, size: nat)
    requires value <= 0xFFFF_FFFF_FFFF_FFFF
    ensures kind.Nothing? || (!kind.Unknown? && Representable(kind, value, imageBase) && offset + Width(kind) <= size) <==>
            Expresses(kind, value, imageBase, size - offset)
  {
  }

  /** The word refers to the value. */
  ghost predicate Says(kind: Kind, value: nat, imageBase: nat, word: nat) {
    match kind
    case Byte | Half | Word | Long => word == value
    case Half3 => 8 * word == value
    case Half4 => 16 * word == value
    case Half5 => 32 * word == value
    case RelativeHalf2 => 4 * word + imageBase == value
    case Field18 => 4 * (word % 0x4_0000) == value
    case Field19 => 4 * (word % 0x8_0000) == value
    case Field20 => word % 0x10_0000 == value
    case Field21 => word % 0x20_0000 == value
    case Run => 4 * RunTarget(word) + imageBase <= value < 4 * RunTarget(word) + imageBase + 4
    case _ => true
  }

  /** The words agree beside the field. */
  ghost predicate SameOpcode(kind: Kind, a: nat, b: nat) {
    match kind
    case Field18 => a / 0x4_0000 == b / 0x4_0000
    case Field19 => a / 0x8_0000 == b / 0x8_0000
    case Field20 => a / 0x10_0000 == b / 0x10_0000
    case Field21 => a / 0x20_0000 == b / 0x20_0000
    case Run => a / 0x10_0000 == b / 0x10_0000 && a % 0x1_0000 / 0x1000 == b % 0x1_0000 / 0x1000
    case _ => true
  }

  /** The word with a kind's field refers to the value. */
  lemma FieldRefers(kind: Kind, value: nat, imageBase: nat, word: nat)
    requires Representable(kind, value, imageBase) && Read(kind, word) == FieldFor(kind, value, imageBase)
    ensures Says(kind, value, imageBase, word)
  {
  }

  /** The rest of a word is the part of it beside the field. */
  lemma RestKeeps(kind: Kind, a: nat, b: nat)
    requires Rest(kind, a) == Rest(kind, b)
    ensures SameOpcode(kind, b, a)
  {
  }

  lemma WordRefers(s: seq<byte>, at: nat, kind: Kind, value: nat, imageBase: nat)
    requires !kind.Unknown? && at + Width(kind) <= |s| && Says(kind, value, imageBase, WordOf(s, at, kind))
    ensures RefersTo(s, at, kind, value, imageBase)
  {
    hide Two, Four, Eight, RunTarget;
  }

  lemma WordKeeps(before: seq<byte>, after: seq<byte>, at: nat, kind: Kind)
    requires !kind.Nothing? && !kind.Unknown? && KeepsAround(before, after, at, Width(kind))
    requires SameOpcode(kind, WordOf(after, at, kind), WordOf(before, at, kind))
    ensures Keeps(before, after, at, kind)
  {
    hide Two, Four, Eight;
  }

  /** What a stored field says of the value, and what it leaves. */
  lemma StoredRefers(kind: Kind, value: nat, imageBase: nat, offset: nat, before: seq<byte>, after: seq<byte>)
    requires !kind.Nothing? && !kind.Unknown? && Representable(kind, value, imageBase)
    requires Stored(kind, FieldFor(kind, value, imageBase), offset, before, after)
    ensures RefersTo(after, offset, kind, value, imageBase) && Keeps(before, after, offset, kind)
  {
    hide WordOf, WordAt, Read, Rest, Representable, FieldFor, Width, Says, SameOpcode, RefersTo, Keeps;
    WordAtIs(before, offset, kind);
    WordAtIs(after, offset, kind);
    FieldRefers(kind, value, imageBase, WordAt(after, offset, kind));
    RestKeeps(kind, WordAt(before, offset, kind), WordAt(after, offset, kind));
    WordRefers(after, offset, kind, value, imageBase);
    WordKeeps(before, after, offset, kind);
  }

  /** Writes bytes at an offset of the section, if they fit. */
  method Write(image: array<byte>, start: nat, size: nat, offset: nat, bytes: seq<byte>) returns (ok: bool)
    requires start + size <= image.Length
    modifies image
    ensures ok <==> offset + |bytes| <= size
    ensures !ok ==> image[..] == old(image[..])
    ensures ok ==> image[..] == old(image[..start + offset]) + bytes + old(image[start + offset + |bytes|..])
  {
    if offset + |bytes| > size {
      return false;
    }
    for i := 0 to |bytes|
      invariant image[..start + offset] == old(image[..start + offset])
      invariant image[start + offset..start + offset + i] == bytes[..i]
      invariant image[start + offset + i..] == old(image[start + offset + i..])
    {
      ghost var before := image[..];
      image[start + offset + i] := bytes[i];
      assert image[start + offset..start + offset + i] == before[start + offset..start + offset + i];
      assert image[start + offset + i + 1..] == before[start + offset + i..][1..];
    }
    assert bytes[..|bytes|] == bytes;
    ok := true;
  }

  /** The word of a relocation's width at an offset. */
  function WordAt(section: seq<byte>, offset: nat, kind: Kind): nat
    requires offset + Width(kind) <= |section|
  {
    Number(section[offset..offset + Width(kind)])
  }

  /** The field at the offset holds the number; no other bit of the section has changed. */
  ghost predicate Stored(kind: Kind, field: nat, offset: nat, before: seq<byte>, after: seq<byte>) {
    && |after| == |before| && offset + Width(kind) <= |before|
    && Read(kind, WordAt(after, offset, kind)) == field
    && Rest(kind, WordAt(after, offset, kind)) == Rest(kind, WordAt(before, offset, kind))
    && after[0..offset] == before[0..offset]
    && after[offset + Width(kind)..|after|] == before[offset + Width(kind)..|before|]
  }

  /** The field of the section at [start, start + size) of the image takes the value; on an
      error nothing is written. */
  method ApplyRelocation(image: array<byte>, start: nat, size: nat, offset: nat, kind: Kind, value: nat, imageBase: nat)
    returns (r: Outcome)
    requires start + size <= image.Length && value < Limit(8)
    modifies image
    ensures r == UnknownKind <==> kind.Unknown?
    ensures r == Done <==>
            kind.Nothing? || (!kind.Unknown? && Representable(kind, value, imageBase) && offset + Width(kind) <= size)
    ensures r != Done || kind.Nothing? ==> image[..] == old(image[..])
    ensures r == Done && !kind.Nothing? ==>
      Stored(kind, FieldFor(kind, value, imageBase), offset, old(image[start..start + size]), image[start..start + size])
    ensures image[..start] == old(image[..start]) && image[start + size..] == old(image[start + size..])
    // By kind: what can be expressed, what the section then says and keeps, and which error is found first.
    ensures r == Done <==> Expresses(kind, value, imageBase, size - offset)
    ensures r == Done ==>
      && RefersTo(image[start..start + size], offset, kind, value, imageBase)
      && Keeps(old(image[start..start + size]), image[start..start + size], offset, kind)
    ensures r == Unrepresentable <==>
            !kind.Nothing? && !kind.Unknown? && (!Expresses(kind, value, imageBase, 8) || (kind.Byte? && offset >= size))
  {
    hide Stored, Limit, Capacity, Base, Width, Expresses, RefersTo, Keeps, FieldFor;
    LongLimit(value);
    RepresentableIs(kind, value, imageBase, offset, size);
    RepresentableIs(kind, value, imageBase, 0, 8);
    Widths(kind);
    NothingSaid(image[start..start + size], offset, value, imageBase);
    if kind.Nothing? {
      return Done;
    }
    if kind.Unknown? {
      return UnknownKind;
    }
    if value < Base(kind, imageBase) {
      return Unrepresentable;
    }
    var relative := value - Base(kind, imageBase);
    if (if kind.Run? then value else relative) % Unit(kind) != 0 {
      return Unrepresentable;
    }
    var field := relative / Unit(kind);
    if field >= Capacity(kind) || (kind.Byte? && offset >= size) {
      return Unrepresentable;
    }
    if offset + Width(kind) > size {
      return Outside;
    }
    ghost var before := image[start..start + size];
    assert field == FieldFor(kind, value, imageBase) by {
      FieldIs(kind, value, imageBase);
    }
    StoreField(image, start, size, offset, kind, field);
    StoredRefers(kind, value, imageBase, offset, before, image[start..start + size]);
    r := Done;
  }

  lemma FieldIs(kind: Kind, value: nat, imageBase: nat)
    requires Base(kind, imageBase) <= value
    ensures FieldFor(kind, value, imageBase) == (value - Base(kind, imageBase)) / Unit(kind)
  {
  }

  lemma LongLimit(value: nat)
    ensures value < Limit(8) <==> value <= 0xFFFF_FFFF_FFFF_FFFF
  {
    Limits();
  }

  lemma Widths(kind: Kind)
    ensures Width(kind) <= 8
    ensures kind.Byte? ==> Width(kind) == 1
  {
  }

  lemma NothingSaid(s: seq<byte>, at: nat, value: nat, imageBase: nat)
    ensures RefersTo(s, at, Nothing, value, imageBase) && Keeps(s, s, at, Nothing)
  {
  }

  /** Reads the word, merges the field into it and writes it back. */
  method StoreField(image: array<byte>, start: nat, size: nat, offset: nat, kind: Kind, field: nat)
    requires start + size <= image.Length && offset + Width(kind) <= size
    requires !kind.Nothing? && !kind.Unknown? && field < Capacity(kind)
    modifies image
    ensures Stored(kind, field, offset, old(image[start..start + size]), image[start..start + size])
    ensures image[..start] == old(image[..start]) && image[start + size..] == old(image[start + size..])
  {
    hide Read, Rest, Insert, Limit, Bytes, Number, Width;
    ghost var whole := image[..];
    ghost var before := whole[start..start + size];
    var word := image[start + offset..start + offset + Width(kind)];
    SliceOfSlice(whole, start, start + size, offset, offset + Width(kind));
    InsertsField(kind, word, field);
    var bytes := Bytes(Insert(kind, Number(word), field), Width(kind));
    var ok := Write(image, start, size, offset, bytes);
    WrittenWithin(whole, image[..], start, size, offset, bytes);
    assert image[start..start + size] == image[..][start..start + size] && before == old(image[start..start + size]);
    assert image[..start] == image[..][..start] && image[start + size..] == image[..][start + size..];
  }

  /** The bytes of the merged word read back as the field and the old rest. */
  lemma InsertsField(kind: Kind, before: seq<byte>, field: nat)
    requires !kind.Nothing? && !kind.Unknown? && field < Capacity(kind) && |before| == Width(kind)
    ensures var after := Number(Bytes(Insert(kind, Number(before), field), Width(kind)));
      Read(kind, after) == field && Rest(kind, after) == Rest(kind, Number(before))
  {
    hide Read, Rest, Insert, Limit;
    BytesOfNumber(before);
    InsertReads(kind, Number(before), field);
    NumberOfBytes(Insert(kind, Number(before), field), Width(kind));
  }

  lemma SliceOfSlice(s: seq<byte>, a: nat, b: nat, c: nat, d: nat)
    requires a <= b <= |s| && c <= d <= b - a
    ensures s[a..b][c..d] == s[a + c..a + d]
  {
    var x, y := s[a..b][c..d], s[a + c..a + d];
    assert forall i :: 0 <= i < d - c ==> x[i] == y[i];
  }

  lemma Spliced(before: seq<byte>, after: seq<byte>, at: nat, bytes: seq<byte>)
    requires at + |bytes| <= |before| && after == before[..at] + bytes + before[at + |bytes|..]
    ensures |after| == |before| && after[..at] == before[..at] && after[at..at + |bytes|] == bytes
    ensures after[at + |bytes|..] == before[at + |bytes|..]
  {
  }

  /** What is the same up to `a` and from `b` on is so up to less and from more on. */
  lemma SameEnds(before: seq<byte>, after: seq<byte>, low: nat, a: nat, b: nat, high: nat)
    requires low <= a <= b <= high <= |before| == |after|
    requires after[..a] == before[..a] && after[b..] == before[b..]
    ensures after[..low] == before[..low] && after[high..] == before[high..]
  {
    assert after[..low] == after[..a][..low] && before[..low] == before[..a][..low];
    assert after[high..] == after[b..][high - b..] && before[high..] == before[b..][high - b..];
  }

  /** A write inside a section leaves the rest of the section, and of the image, alone. */
  lemma WrittenWithin(before: seq<byte>, after: seq<byte>, start: nat, size: nat, offset: nat, bytes: seq<byte>)
    requires start + size <= |before| && offset + |bytes| <= size
    requires after == before[..start + offset] + bytes + before[start + offset + |bytes|..]
    ensures |after| == |before|
    ensures after[..start] == before[..start] && after[start + size..] == before[start + size..]
    ensures after[start..start + size][offset..offset + |bytes|] == bytes
    ensures after[start..start + size][0..offset] == before[start..start + size][0..offset]
    ensures after[start..start + size][offset + |bytes|..size] == before[start..start + size][offset + |bytes|..size]
  {
    var at, n := start + offset, |bytes|;
    Spliced(before, after, at, bytes);
    SameEnds(before, after, start, at, at + n, start + size);
    SliceOfSlice(after, start, start + size, offset, offset + n);
    SameSlice(before, after, start, start + size, 0, offset);
    SameSlice(before, after, start, start + size, offset + n, size);
  }

  lemma SameSlice(s: seq<byte>, t: seq<byte>, a: nat, b: nat, c: nat, d: nat)
    requires a <= b <= |s| == |t| && c <= d <= b - a && s[a + c..a + d] == t[a + c..a + d]
    ensures s[a..b][c..d] == t[a..b][c..d]
  {
    SliceOfSlice(s, a, b, c, d);
    SliceOfSlice(t, a, b, c, d);
  }
}
