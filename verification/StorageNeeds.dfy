/** What a storage root needs on a tile, in terms of the program, the shards and literal sizes
    (crates/ipu-codegen/src/estimate/mid.rs, crates/ipu-target/src/ipu21/memory.rs).

    A root that a matrix product reads first or writes is padded to memory elements of 0x4000
    bytes, or 0x8000 in interleaved memory, after a tail for the product that reads it last; all
    others take just their bytes. The module proves that both forms of the analysis in
    `StorageScreen` measure this, and spread scratch in proportion to the shards. */
module StorageNeeds {
  import opened Saturating
  import opened StorageAccounting
  import opened StorageLiveness
  import opened StoragePlan
  import opened StorageSizes
  import opened StorageScreen
  import DivMod

  // ---------------------------------------------------------------------------
  // Products
  // ---------------------------------------------------------------------------

  /** Step `i` is a matrix product whose first operand has root `r`. */
  ghost predicate ReadsFirst(m: Subject, roots: seq<nat>, i: nat, r: nat) {
    && i < |m.kernels| && i < |m.Steps()| && m.kernels[i].multiply.Some?
    && |m.Steps()[i].inputs| > 0 && m.Steps()[i].inputs[0] < |roots| && roots[m.Steps()[i].inputs[0]] == r
  }

  ghost predicate WritesFirst(m: Subject, roots: seq<nat>, i: nat, r: nat) {
    && i < |m.kernels| && i < |m.Steps()| && m.kernels[i].multiply.Some?
    && |m.Steps()[i].results| > 0 && m.Steps()[i].results[0] < |roots| && roots[m.Steps()[i].results[0]] == r
  }

  ghost predicate InProduct(m: Subject, roots: seq<nat>, r: nat) {
    exists i: nat :: i < |m.kernels| && (ReadsFirst(m, roots, i, r) || WritesFirst(m, roots, i, r))
  }

  /** The tail of a root: eight times the operand bytes of the last product that reads it first. */
  ghost predicate HasTail(m: Subject, roots: seq<nat>, r: nat, tail: nat) {
    if exists i: nat :: ReadsFirst(m, roots, i, r) then
      exists i: nat :: LastReader(m, roots, i, r) && tail == 8 * m.kernels[i].multiply.value
    else tail == 0
  }

  ghost predicate LastReader(m: Subject, roots: seq<nat>, i: nat, r: nat) {
    ReadsFirst(m, roots, i, r) && forall j: nat :: i < j ==> !ReadsFirst(m, roots, j, r)
  }

  /** A value stands for one tensor, or for as many as the last entry for it says. */
  ghost predicate HasCount(copies: seq<(nat, nat)>, v: nat, count: nat) {
    if exists c :: 0 <= c < |copies| && copies[c].0 == v then
      exists c :: 0 <= c < |copies| && copies[c] == (v, count) && forall d :: c < d < |copies| ==> copies[d].0 != v
    else count == 1
  }

  // ---------------------------------------------------------------------------
  // Shards
  // ---------------------------------------------------------------------------

  /** The least multiple of the memory element that holds `size` bytes; none for other roots. */
  ghost predicate PadsTo(m: Subject, roots: seq<nat>, v: nat, size: nat, padded: nat)
    requires v < |roots| && v < |m.program.classes|
  {
    if !InProduct(m, roots, roots[v]) then padded == size
    else if m.program.classes[v].Interleaved? then padded % 0x8000 == 0 && size <= padded < size + 0x8000
    else padded % 0x4000 == 0 && size <= padded < size + 0x4000
  }

  /** A shard of value `v` with that many elements takes `bytes`; every number is below 2^64. */
  ghost predicate Takes(m: Subject, roots: seq<nat>, v: nat, elements: nat, bytes: nat)
    requires v < |roots| && v < |m.program.classes| && v < |m.shards| && m.shards[v].Some?
  {
    var size := elements * m.shards[v].value.precision;
    && size <= 0xFFFF_FFFF_FFFF_FFFF
    && if size == 0 then bytes == 0 else TakesPadded(m, roots, v, size, bytes)
  }

  ghost predicate TakesPadded(m: Subject, roots: seq<nat>, v: nat, size: nat, bytes: nat)
    requires v < |roots| && v < |m.program.classes|
  {
    exists tail: nat, padded: nat, count: nat :: TakesWith(m, roots, v, size, bytes, tail, padded, count)
  }

  ghost predicate TakesWith(m: Subject, roots: seq<nat>, v: nat, size: nat, bytes: nat, tail: nat, padded: nat, count: nat)
    requires v < |roots| && v < |m.program.classes|
  {
    && HasTail(m, roots, roots[v], tail) && HasCount(m.program.copies, v, count)
    && PadsTo(m, roots, v, size + tail, padded) && padded <= 0xFFFF_FFFF_FFFF_FFFF
    && bytes == padded * count <= 0xFFFF_FFFF_FFFF_FFFF
  }

  ghost predicate InProductOf(m: Subject, roots: seq<nat>, k: nat, r: nat) {
    exists i: nat :: i < k && (ReadsFirst(m, roots, i, r) || WritesFirst(m, roots, i, r))
  }

  lemma {:induction false} ElementsMarked(m: Subject, roots: seq<nat>, k: nat, r: nat)
    requires m.Ready() && AreRoots(roots) && |roots| == |m.shards| && k <= |m.kernels| && r < |roots|
    ensures ElementRoots(m.Steps(), m.kernels, roots, k)[r] <==> InProductOf(m, roots, k, r)
  {
    hide Validated, ReadsFirst, WritesFirst;
    if k > 0 {
      ElementsMarked(m, roots, k - 1, r);
      ElementStep(m, roots, k - 1, r);
    }
  }

  lemma ElementStep(m: Subject, roots: seq<nat>, k: nat, r: nat)
    requires m.Ready() && AreRoots(roots) && |roots| == |m.shards| && k < |m.kernels| && r < |roots|
    ensures ElementRoots(m.Steps(), m.kernels, roots, k + 1)[r] <==>
            ElementRoots(m.Steps(), m.kernels, roots, k)[r] || ReadsFirst(m, roots, k, r) || WritesFirst(m, roots, k, r)
  {
    hide Validated;
    ProductHolds(m, k);
  }

  lemma ProductHolds(m: Subject, i: nat)
    requires m.Ready() && i < |m.kernels|
    ensures m.kernels[i].multiply.Some? ==>
              && |m.Steps()[i].inputs| > 0 && m.Steps()[i].inputs[0] < |m.shards|
              && |m.Steps()[i].results| > 0 && m.Steps()[i].results[0] < |m.shards|
  {
    hide Validated;
    assert KernelReady(m.Steps()[i], m.kernels[i], |m.shards|);
  }

  /** Of the first `k` steps, `i` is the last product that reads the root first. */
  ghost predicate LastReaderOf(m: Subject, roots: seq<nat>, k: nat, i: nat, r: nat) {
    i < k && ReadsFirst(m, roots, i, r) && forall j: nat :: i < j < k ==> !ReadsFirst(m, roots, j, r)
  }

  ghost predicate TailFrom(m: Subject, roots: seq<nat>, k: nat, i: nat, r: nat, tail: nat) {
    LastReaderOf(m, roots, k, i, r) && tail == 8 * m.kernels[i].multiply.value
  }

  lemma {:induction false} TailIsLast(m: Subject, roots: seq<nat>, k: nat, r: nat)
    requires m.Ready() && AreRoots(roots) && |roots| == |m.shards| && k <= |m.kernels| && r < |roots|
    ensures (exists i: nat :: TailFrom(m, roots, k, i, r, Tails(m.Steps(), m.kernels, roots, k)[r]))
            || (Tails(m.Steps(), m.kernels, roots, k)[r] == 0 && forall i: nat :: i < k ==> !ReadsFirst(m, roots, i, r))
  {
    hide Validated, ReadsFirst;
    if k > 0 {
      var n := k - 1;
      var before, tail := Tails(m.Steps(), m.kernels, roots, n)[r], Tails(m.Steps(), m.kernels, roots, k)[r];
      TailIsLast(m, roots, n, r);
      TailStep(m, roots, n, r);
      if ReadsFirst(m, roots, n, r) {
        assert TailFrom(m, roots, k, n, r, tail);
      } else if i: nat :| TailFrom(m, roots, n, i, r, before) {
        assert TailFrom(m, roots, k, i, r, tail);
      }
    }
  }

  lemma TailStep(m: Subject, roots: seq<nat>, k: nat, r: nat)
    requires m.Ready() && AreRoots(roots) && |roots| == |m.shards| && k < |m.kernels| && r < |roots|
    ensures ReadsFirst(m, roots, k, r) ==>
              m.kernels[k].multiply.Some? && Tails(m.Steps(), m.kernels, roots, k + 1)[r] == 8 * m.kernels[k].multiply.value
    ensures !ReadsFirst(m, roots, k, r) ==>
              Tails(m.Steps(), m.kernels, roots, k + 1)[r] == Tails(m.Steps(), m.kernels, roots, k)[r]
  {
    hide Validated;
    ProductHolds(m, k);
  }

  ghost predicate LastEntry(copies: seq<(nat, nat)>, c: nat, v: nat) {
    c < |copies| && copies[c].0 == v && forall d :: c < d < |copies| ==> copies[d].0 != v
  }

  lemma {:induction false} CopiesAre(copies: seq<(nat, nat)>, v: nat)
    ensures if exists c :: 0 <= c < |copies| && copies[c].0 == v then
              exists c: nat :: LastEntry(copies, c, v) && copies[c].1 == CopiesOf(copies, v)
            else CopiesOf(copies, v) == 1
  {
    if copies != [] {
      var last := |copies| - 1;
      if copies[last].0 == v {
        assert LastEntry(copies, last, v);
      } else {
        var before := copies[..last];
        CopiesAre(before, v);
        forall c | 0 <= c < |copies| && copies[c].0 == v
          ensures before[c].0 == v
        {
        }
        forall c: nat | LastEntry(before, c, v)
          ensures LastEntry(copies, c, v) && copies[c] == before[c]
        {
        }
      }
    }
  }

  lemma CountIs(copies: seq<(nat, nat)>, v: nat, count: nat)
    ensures HasCount(copies, v, count) <==> count == CopiesOf(copies, v)
  {
    hide CopiesOf;
    CopiesAre(copies, v);
    if c: nat :| LastEntry(copies, c, v) {
      forall d | 0 <= d < |copies| && copies[d] == (v, count) && forall e :: d < e < |copies| ==> copies[e].0 != v
        ensures d == c
      {
      }
      if count == CopiesOf(copies, v) {
        assert copies[c] == (v, count);
      }
    }
  }

  lemma TailOnce(m: Subject, roots: seq<nat>, r: nat, a: nat, b: nat)
    requires HasTail(m, roots, r, a) && HasTail(m, roots, r, b)
    ensures a == b
  {
    hide ReadsFirst;
  }

  /** At most one multiple of a unit lies less than the unit above a number. */
  lemma MultipleOnce(unit: nat, size: nat, a: nat, b: nat)
    requires unit > 0 && a % unit == 0 && b % unit == 0 && size <= a < size + unit && size <= b < size + unit
    ensures a == b
  {
    var k, l := a / unit, b / unit;
    assert a == k * unit && b == l * unit;
    if k < l {
      DivMod.MulMonotone(k + 1, l, unit);
    } else if l < k {
      DivMod.MulMonotone(l + 1, k, unit);
    }
  }

  ghost function Unit(m: Subject, v: nat): nat
    requires m.Ready() && v < |m.shards|
  {
    if !InProduct(m, RootsOf(m.program), RootsOf(m.program)[v]) then 1
    else if m.program.classes[v].Interleaved? then 0x8000 else 0x4000
  }

  lemma PadsIff(m: Subject, v: nat, size: nat, padded: nat)
    requires m.Ready() && v < |m.shards|
    ensures PadsTo(m, RootsOf(m.program), v, size, padded) <==> padded % Unit(m, v) == 0 && size <= padded < size + Unit(m, v)
  {
    hide Validated, RootsOf, InProduct;
  }

  lemma PaddedIs(m: Subject, v: nat, value: Value, size: nat, padded: nat)
    requires m.Ready() && v < |m.shards| && Resolves(m.shards[v], m.tiles) && value == ValueAt(m, v)
    ensures value.alignment > 0
    ensures PadsTo(m, RootsOf(m.program), v, size, padded) <==> padded == PadTo(size, value.alignment)
  {
    hide Validated, RootsOf, PadTo, PadsTo, ValueAt, Unit, Resolves, HasTail, CopiesOf;
    ValueIs(m, v, value);
    var held := PadTo(size, value.alignment);
    PadIsTight(size, value.alignment);
    PadsIff(m, v, size, held);
    PadsIff(m, v, size, padded);
    if PadsTo(m, RootsOf(m.program), v, size, padded) {
      MultipleOnce(value.alignment, size, held, padded);
    }
  }

  lemma TakesWithIs(m: Subject, v: nat, value: Value, size: nat, bytes: nat, tail: nat, padded: nat, count: nat)
    requires m.Ready() && v < |m.shards| && Resolves(m.shards[v], m.tiles) && value == ValueAt(m, v)
    ensures value.alignment > 0
    ensures TakesWith(m, RootsOf(m.program), v, size, bytes, tail, padded, count) <==>
            && tail == value.tail && count == value.count && padded == PadTo(size + tail, value.alignment)
            && padded <= 0xFFFF_FFFF_FFFF_FFFF && bytes == padded * count <= 0xFFFF_FFFF_FFFF_FFFF
  {
    hide Validated, RootsOf, PadTo, PadsTo, ValueAt, Unit, Resolves, HasTail, HasCount, CopiesOf;
    ValueIs(m, v, value);
    CountIs(m.program.copies, v, count);
    PaddedIs(m, v, value, size + tail, padded);
    if HasTail(m, RootsOf(m.program), RootsOf(m.program)[v], tail) {
      TailOnce(m, RootsOf(m.program), RootsOf(m.program)[v], tail, value.tail);
    }
  }

  lemma TakesIs(m: Subject, v: nat, value: Value, size: nat, bytes: nat)
    requires m.Ready() && v < |m.shards| && Resolves(m.shards[v], m.tiles) && value == ValueAt(m, v)
    ensures value.alignment > 0
    ensures TakesPadded(m, RootsOf(m.program), v, size, bytes) <==>
            && PadTo(size + value.tail, value.alignment) <= 0xFFFF_FFFF_FFFF_FFFF
            && bytes == PadTo(size + value.tail, value.alignment) * value.count <= 0xFFFF_FFFF_FFFF_FFFF
  {
    hide Validated, RootsOf, PadTo, TakesWith, ValueAt, Resolves;
    var roots := RootsOf(m.program);
    ValueIs(m, v, value);
    var held := PadTo(size + value.tail, value.alignment);
    TakesWithIs(m, v, value, size, bytes, value.tail, held, value.count);
    if tail: nat, padded: nat, count: nat :| TakesWith(m, roots, v, size, bytes, tail, padded, count) {
      TakesWithIs(m, v, value, size, bytes, tail, padded, count);
    }
  }

  /** The bytes of a shard are those that the program asks for, if 64 bits hold them. */
  lemma ShardTakes(m: Subject, v: nat, elements: nat, bytes: nat)
    requires m.Ready() && v < |m.shards| && Resolves(m.shards[v], m.tiles)
    ensures ValueAt(m, v).alignment > 0
    ensures Takes(m, RootsOf(m.program), v, elements, bytes) <==> ShardBytes(ValueAt(m, v), elements) == Some(bytes)
  {
    hide Subject.Ready, RootsOf, PadTo, TakesPadded, ValueAt;
    var value := ValueAt(m, v);
    var size := elements * value.precision;
    ValueIs(m, v, value);
    TakesIs(m, v, value, size, bytes);
    if size != 0 {
      PadIsTight(size + value.tail, value.alignment);
    }
  }

  lemma ValueIs(m: Subject, v: nat, value: Value)
    requires m.Ready() && v < |m.shards| && Resolves(m.shards[v], m.tiles) && value == ValueAt(m, v)
    ensures v < |m.program.classes| == |RootsOf(m.program)|
    ensures value.alignment == Unit(m, v)
    ensures HasTail(m, RootsOf(m.program), RootsOf(m.program)[v], value.tail)
    ensures value.count == CopiesOf(m.program.copies, v)
    ensures value.precision == m.shards[v].value.precision
  {
    hide Validated, RootsOf, ElementRoots, Tails, KernelReady, CopiesOf;
    var roots := RootsOf(m.program);
    ElementsMarked(m, roots, |m.kernels|, roots[v]);
    TailIsLast(m, roots, |m.kernels|, roots[v]);
    forall i: nat | LastReaderOf(m, roots, |m.kernels|, i, roots[v])
      ensures LastReader(m, roots, i, roots[v])
    {
    }
  }

  // ---------------------------------------------------------------------------
  // Roots
  // ---------------------------------------------------------------------------

  /** Shard `o` of value `v` lies on tile `t`; in the column, the largest shard on its one tile. */
  ghost predicate Lies(m: Subject, perTile: bool, v: nat, o: nat, t: nat) {
    && v < |m.shards| && m.shards[v].Some?
    && if perTile then
         var s := m.shards[v].value;
         o < |s.elements| && o < |s.owners| && s.owners[o] == Some(t)
       else o == 0 && t == 0
  }

  ghost function ElementsOf(m: Subject, perTile: bool, v: nat, o: nat): nat
    requires v < |m.shards| && m.shards[v].Some? && (perTile ==> o < |m.shards[v].value.elements|)
  {
    if perTile then m.shards[v].value.elements[o] else m.shards[v].value.largest
  }

  /** Shard `o` of `v`, a value with root `r`, lies on the tile and takes `bytes`. */
  ghost predicate Holds(m: Subject, perTile: bool, roots: seq<nat>, r: nat, t: nat, v: nat, o: nat, bytes: nat)
    requires |m.program.classes| == |m.shards| == |roots|
  {
    Lies(m, perTile, v, o, t) && roots[v] == r && Takes(m, roots, v, ElementsOf(m, perTile, v, o), bytes)
  }

  /** A tile needs for a root the most bytes that a shard of one of its values takes there. */
  ghost predicate RowIs(m: Subject, perTile: bool, roots: seq<nat>, r: nat, t: nat, bytes: nat)
    requires |m.program.classes| == |m.shards| == |roots|
  {
    && (forall v: nat, o: nat, b: nat :: Holds(m, perTile, roots, r, t, v, o, b) ==> b <= bytes)
    && (bytes > 0 ==> exists v: nat, o: nat :: Holds(m, perTile, roots, r, t, v, o, bytes))
  }

  lemma FormValueIs(m: Subject, perTile: bool, v: nat)
    requires m.Ready() && AllResolve(m) && v < |m.shards|
    ensures m.shards[v].Some? && v < |RootsOf(m.program)|
    ensures var value := FormValues(m, perTile)[v];
      && value.alignment > 0 && value.root == RootsOf(m.program)[v]
      && |value.owners| == |value.elements| == (if perTile then |m.shards[v].value.elements| else 1)
      && (forall o :: 0 <= o < |value.elements| ==> value.elements[o] == ElementsOf(m, perTile, v, o))
      && (forall o: nat, t: nat :: Lies(m, perTile, v, o, t) <==> o < |value.elements| && value.owners[o] == Some(t))
  {
    hide Validated, RootsOf, ElementRoots, Tails;
    assert Resolves(m.shards[v], m.tiles);
    assert ValuesOf(m)[v] == ValueAt(m, v);
  }

  lemma FormValueTakes(m: Subject, perTile: bool, v: nat, elements: nat, bytes: nat)
    requires m.Ready() && AllResolve(m) && v < |m.shards|
    ensures m.shards[v].Some? && v < |RootsOf(m.program)| && FormValues(m, perTile)[v].alignment > 0
    ensures Takes(m, RootsOf(m.program), v, elements, bytes) <==> ShardBytes(FormValues(m, perTile)[v], elements) == Some(bytes)
  {
    hide Validated, RootsOf, ElementRoots, Tails, Takes;
    assert Resolves(m.shards[v], m.tiles);
    assert ValuesOf(m)[v] == ValueAt(m, v);
    ShardTakes(m, v, elements, bytes);
    assert ShardBytes(ValueAt(m, v).Column(), elements) == ShardBytes(ValueAt(m, v), elements);
  }

  lemma {:induction false} NeedsOfShard(v: Value, t: nat, o: nat) returns (p: nat)
    requires v.alignment > 0 && o <= |v.elements| == |v.owners| && ValueNeeds(v, t, o) > 0
    ensures p < o && Measurable(v, p) && v.owners[p] == Some(t) && ShardBytes(v, v.elements[p]).value == ValueNeeds(v, t, o)
  {
    hide ShardBytes;
    if Measurable(v, o - 1) && v.owners[o - 1] == Some(t) && ValueNeeds(v, t, o - 1) <= ShardBytes(v, v.elements[o - 1]).value {
      p := o - 1;
    } else {
      p := NeedsOfShard(v, t, o - 1);
    }
  }

  /** What either form measures for a root is what the program needs of it. */
  lemma RowsAre(m: Subject, perTile: bool, r: nat, t: nat)
    requires m.Ready() && Known(m, perTile) && r < |m.shards| && t < FormTiles(m, perTile)
    ensures |m.program.classes| == |m.shards| == |RootsOf(m.program)|
    ensures RowIs(m, perTile, RootsOf(m.program), r, t, StorageOf(m, perTile).bytes[r][t])
  {
    hide Validated, RootsOf, PlanFor, ScratchKnown, FormScratch, FormValues, Needs, StorageOf, ShardBytes, ValueNeeds, Takes;
    var roots, values, tiles := RootsOf(m.program), FormValues(m, perTile), FormTiles(m, perTile);
    var bytes := StorageOf(m, perTile).bytes[r][t];
    MeasuredForm(m, perTile);
    forall v: nat, o: nat, b: nat | Holds(m, perTile, roots, r, t, v, o, b)
      ensures b <= bytes
    {
      FormValueIs(m, perTile, v);
      FormValueTakes(m, perTile, v, ElementsOf(m, perTile, v, o), b);
      assert Measurable(values[v], o);
      ShardIsNeeded(values[v], t, o, |values[v].elements|);
      ValueIsNeeded(values, |m.shards|, tiles, t, v, |values|);
    }
    if bytes > 0 {
      var v := NeedsOfOne(values, |m.shards|, tiles, r, t, |values|);
      FormValueIs(m, perTile, v);
      var o := NeedsOfShard(values[v], t, |values[v].elements|);
      FormValueTakes(m, perTile, v, ElementsOf(m, perTile, v, o), bytes);
      assert Holds(m, perTile, roots, r, t, v, o, bytes);
    }
  }

  // ---------------------------------------------------------------------------
  // Scratch
  // ---------------------------------------------------------------------------

  /** `part` is the least that is at least `elements / largest` of the whole. */
  ghost predicate IsShare(whole: nat, elements: nat, largest: nat, part: nat) {
    && whole * elements <= part * largest
    && (part > 0 ==> (part - 1) * largest < whole * elements)
  }

  /** The last owner of a value on a tile, if any. */
  ghost predicate LastOwner(s: Shards, o: nat, t: nat) {
    && o < |s.elements| && o < |s.owners| && s.owners[o] == Some(t)
    && forall p :: o < p < |s.owners| ==> s.owners[p] != Some(t)
  }

  /** The scratch of a step on a tile: all of it in the column; on a tile, as large a share as its
      part of the step's first result is of the largest part. */
  ghost predicate ScratchIs(m: Subject, perTile: bool, i: nat, t: nat, used: Usage)
    requires m.Ready() && AllResolve(m) && AllPriced(m) && i < |m.kernels|
  {
    var whole := m.kernels[i].scratch.value;
    if !perTile then used == whole
    else if whole.standard + whole.interleaved == 0 then used == Usage(0, 0)
    else SharesAt(ResultShards(m, i), whole, t, used)
  }

  ghost predicate SharesAt(s: Shards, whole: Usage, t: nat, used: Usage) {
    if exists o: nat :: LastOwner(s, o, t) then
      exists o: nat :: LastOwner(s, o, t)
        && IsShare(whole.standard, s.elements[o], s.largest, used.standard)
        && IsShare(whole.interleaved, s.elements[o], s.largest, used.interleaved)
    else used == Usage(0, 0)
  }

  lemma ShareIs(whole: nat, elements: nat, largest: nat)
    requires largest > 0 && TileScratch(whole, elements, largest).Some?
    ensures IsShare(whole, elements, largest, TileScratch(whole, elements, largest).value)
  {
    var x := whole * elements;
    var part := (x + largest - 1) / largest;
    assert part * largest <= x + largest - 1 < part * largest + largest;
    if part > 0 {
      assert (part - 1) * largest == part * largest - largest;
    }
  }

  lemma {:induction false} LastOwnerScratch(s: Shards, whole: Usage, tiles: nat, t: nat, k: nat) returns (o: nat)
    requires s.Valid(tiles) && k <= |s.owners| && forall p :: 0 <= p < k ==> PartKnown(s, whole, p)
    ensures (o < k && s.owners[o] == Some(t) && (forall p :: o < p < k ==> s.owners[p] != Some(t))
             && ScratchAt(s, whole, t, k) == PartOf(s, whole, o))
            || ((forall p :: 0 <= p < k ==> s.owners[p] != Some(t)) && ScratchAt(s, whole, t, k) == Usage(0, 0))
  {
    hide TileScratch;
    o := 0;
    if k > 0 {
      if s.owners[k - 1] == Some(t) {
        o := k - 1;
      } else {
        o := LastOwnerScratch(s, whole, tiles, t, k - 1);
      }
    }
  }

  /** The scratch that the analysis accounts for. */
  lemma ScratchesAre(m: Subject, perTile: bool, i: nat, t: nat)
    requires m.Ready() && Known(m, perTile) && i < |m.kernels| && t < FormTiles(m, perTile)
    ensures ScratchIs(m, perTile, i, t, StorageOf(m, perTile).scratch[i][t])
  {
    hide Validated, PlanFor, AllMeasurable, FormValues, TileScratch, IsShare;
    var whole := m.kernels[i].scratch.value;
    if perTile && whole.Total() > 0 {
      assert ScratchKnown(m, i);
      HasResult(m, i);
      SharesAre(ResultShards(m, i), whole, m.tiles, t);
    }
  }

  lemma SharesAre(s: Shards, whole: Usage, tiles: nat, t: nat)
    requires s.Valid(tiles) && forall p :: 0 <= p < |s.owners| ==> PartKnown(s, whole, p)
    ensures SharesAt(s, whole, t, ScratchAt(s, whole, t, |s.owners|))
  {
    hide TileScratch, IsShare, ScratchAt;
    var o := LastOwnerScratch(s, whole, tiles, t, |s.owners|);
    if o < |s.owners| && s.owners[o] == Some(t) && forall p :: o < p < |s.owners| ==> s.owners[p] != Some(t) {
      assert LastOwner(s, o, t) && PartKnown(s, whole, o);
      ShareIs(whole.standard, s.elements[o], s.largest);
      ShareIs(whole.interleaved, s.elements[o], s.largest);
    }
  }

  // ---------------------------------------------------------------------------
  // When the analysis gets that far
  // ---------------------------------------------------------------------------

  ghost predicate ShardKnown(m: Subject, perTile: bool, roots: seq<nat>, v: nat, o: nat)
    requires |m.program.classes| == |m.shards| == |roots| && v < |m.shards| && m.shards[v].Some?
    requires if perTile then o < |m.shards[v].value.elements| else o == 0
  {
    && (exists b: nat :: Takes(m, roots, v, ElementsOf(m, perTile, v, o), b))
    && (ElementsOf(m, perTile, v, o) > 0 ==> exists t: nat :: Lies(m, perTile, v, o, t))
  }

  /** A share of the scratch has a tile, and 64 bits hold what it is computed from. */
  ghost predicate ShareKnown(s: Shards, whole: Usage, o: nat) {
    && o < |s.owners| && o < |s.elements| && s.owners[o].Some?
    && whole.standard * s.elements[o] <= 0xFFFF_FFFF_FFFF_FFFF
    && whole.interleaved * s.elements[o] <= 0xFFFF_FFFF_FFFF_FFFF
  }

  ghost predicate ShardsKnown(m: Subject, perTile: bool, roots: seq<nat>)
    requires |m.program.classes| == |m.shards| == |roots| && forall v :: 0 <= v < |m.shards| ==> m.shards[v].Some?
  {
    forall v: nat, o: nat :: v < |m.shards| && (if perTile then o < |m.shards[v].value.elements| else o == 0) ==>
      ShardKnown(m, perTile, roots, v, o)
  }

  /** Every layout resolves to at most as many shards as there are tiles, every step has a price,
      every shard with data has a tile and a size, and every share of scratch can be computed. */
  ghost predicate CanMeasure(m: Subject, perTile: bool, roots: seq<nat>)
    requires m.Ready() && |roots| == |m.shards|
  {
    && (forall v :: 0 <= v < |m.shards| ==> m.shards[v].Some? && |m.shards[v].value.elements| <= m.tiles)
    && (|m.shards| > 0 ==> m.tiles > 0)
    && (forall i :: 0 <= i < |m.kernels| ==> m.kernels[i].scratch.Some?)
    && ShardsKnown(m, perTile, roots)
    && (perTile ==> forall i :: 0 <= i < |m.kernels| ==> SharesKnown(m, i))
  }

  ghost predicate SharesKnown(m: Subject, i: nat)
    requires m.Ready()
  {
    forall o: nat :: NeedsShare(m, i, o) ==> ShareKnown(m.shards[m.Steps()[i].results[0]].value, m.kernels[i].scratch.value, o)
  }

  /** Shard `o` of the first result of step `i` takes a share of its scratch. */
  ghost predicate NeedsShare(m: Subject, i: nat, o: nat)
    requires m.Ready()
  {
    && i < |m.kernels| && m.kernels[i].scratch.Some? && m.kernels[i].scratch.value.standard + m.kernels[i].scratch.value.interleaved > 0
    && |m.Steps()[i].results| > 0 && m.Steps()[i].results[0] < |m.shards|
    && m.shards[m.Steps()[i].results[0]].Some? && o < |m.shards[m.Steps()[i].results[0]].value.owners|
  }

  lemma ShardKnownIff(m: Subject, perTile: bool, v: nat, o: nat)
    requires m.Ready() && AllResolve(m) && v < |m.shards| && o < |FormValues(m, perTile)[v].elements|
    ensures m.shards[v].Some? && |m.program.classes| == |m.shards| == |RootsOf(m.program)|
    ensures if perTile then o < |m.shards[v].value.elements| else o == 0
    ensures FormValues(m, perTile)[v].alignment > 0 && |FormValues(m, perTile)[v].elements| == |FormValues(m, perTile)[v].owners|
    ensures ShardKnown(m, perTile, RootsOf(m.program), v, o) <==> Measurable(FormValues(m, perTile)[v], o)
  {
    hide Validated, RootsOf, FormValues, ShardBytes, Takes;
    FormValueIs(m, perTile, v);
    var value, elements := FormValues(m, perTile)[v], ElementsOf(m, perTile, v, o);
    FormPrecision(m, perTile, v);
    ProductIsZero(elements, value.precision);
    if ShardBytes(value, elements).Some? {
      FormValueTakes(m, perTile, v, elements, ShardBytes(value, elements).value);
    }
    if b: nat :| Takes(m, RootsOf(m.program), v, elements, b) {
      FormValueTakes(m, perTile, v, elements, b);
    }
    if value.owners[o].Some? {
      assert Lies(m, perTile, v, o, value.owners[o].value);
    }
  }

  lemma FormPrecision(m: Subject, perTile: bool, v: nat)
    requires m.Ready() && AllResolve(m) && v < |m.shards|
    ensures FormValues(m, perTile)[v].precision > 0
  {
    hide Validated, RootsOf, ElementRoots, Tails;
    assert Resolves(m.shards[v], m.tiles);
    assert ValuesOf(m)[v] == ValueAt(m, v);
  }

  lemma ShareKnownIff(m: Subject, i: nat)
    requires m.Ready() && AllResolve(m) && AllPriced(m) && i < |m.kernels|
    ensures ScratchKnown(m, i) <==> SharesKnown(m, i)
  {
    hide Validated;
    var whole := m.kernels[i].scratch.value;
    if whole.Total() > 0 {
      HasResult(m, i);
      var s := ResultShards(m, i);
      assert Resolves(m.shards[m.Steps()[i].results[0]], m.tiles);
      forall o: nat | o < |s.owners|
        ensures NeedsShare(m, i, o)
        ensures PartKnown(s, whole, o) <==> ShareKnown(s, whole, o)
      {
      }
    }
  }

  lemma ShardsKnownIff(m: Subject, perTile: bool)
    requires m.Ready() && AllResolve(m)
    ensures |m.program.classes| == |m.shards| == |RootsOf(m.program)| && forall v :: 0 <= v < |m.shards| ==> m.shards[v].Some?
    ensures ShardsKnown(m, perTile, RootsOf(m.program)) <==>
            AllMeasurable(FormValues(m, perTile), |m.shards|, FormTiles(m, perTile))
  {
    hide Validated, RootsOf, FormValues, ShardKnown, Measurable, KernelReady;
    forall v: nat | v < |m.shards|
      ensures m.shards[v].Some?
      ensures |FormValues(m, perTile)[v].elements| == if perTile then |m.shards[v].value.elements| else 1
    {
      FormValueIs(m, perTile, v);
    }
    forall v: nat, o: nat | v < |m.shards| && o < |FormValues(m, perTile)[v].elements|
      ensures ShardKnown(m, perTile, RootsOf(m.program), v, o) <==> Measurable(FormValues(m, perTile)[v], o)
    {
      ShardKnownIff(m, perTile, v, o);
    }
  }

  /** Exactly then either form of the analysis gets as far as adding up memory. */
  lemma KnownIff(m: Subject, perTile: bool)
    requires m.Ready()
    ensures |RootsOf(m.program)| == |m.shards| && (Known(m, perTile) <==> CanMeasure(m, perTile, RootsOf(m.program)))
  {
    hide Validated, RootsOf, FormValues, ScratchKnown, SharesKnown, ShardsKnown, AllMeasurable, KernelReady;
    if AllResolve(m) && AllPriced(m) {
      assert |m.shards| > 0 ==> Resolves(m.shards[0], m.tiles);
      ShardsKnownIff(m, perTile);
      forall i: nat | i < |m.kernels|
        ensures ScratchKnown(m, i) <==> SharesKnown(m, i)
      {
        ShareKnownIff(m, i);
      }
    }
  }
}
