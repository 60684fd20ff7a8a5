/** Sizes of storage roots (crates/ipu-codegen/src/estimate/mid.rs).

    A root needs on each tile the largest padded shard of the values that share it. The
    one-column bound measures every value once, by its largest shard. The module proves that
    the bound's sizes are at least every tile's, which is what `StorageAnalysis` asks of them. */
module StorageSizes {
  import opened Saturating
  import opened StorageAccounting
  import opened StorageAnalysis
  import opened DivMod

  /** A value: the elements of each shard and the tile that owns it, if the owner map has one. */
  datatype Value = Value(root: nat, precision: nat, alignment: nat, tail: nat, count: nat, largest: nat,
                         elements: seq<nat>, owners: seq<Option<nat>>) {
    ghost predicate Valid(roots: nat, tiles: nat) {
      && root < roots && alignment > 0 && |elements| == |owners|
      && (forall o :: 0 <= o < |elements| ==> elements[o] <= largest)
      && (forall o :: 0 <= o < |owners| && owners[o].Some? ==> owners[o].value < tiles)
    }

    /** The same value measured by its largest shard alone. */
    function Column(): Value {
      this.(elements := [largest], owners := [Some(0)])
    }
  }

  function Checked(x: nat): Option<nat> {
    if x <= U64_MAX then Some(x) else None
  }

  /** The smallest multiple of `alignment` that holds `x`. */
  function PadTo(x: nat, alignment: nat): nat
    requires alignment > 0
  {
    (x + alignment - 1) / alignment * alignment
  }

  /** The bytes that `count` copies of a shard take, in checked arithmetic. */
  function ShardBytes(v: Value, elements: nat): Option<nat>
    requires v.alignment > 0
  {
    var shard := elements * v.precision;
    if shard > U64_MAX then None
    else if shard == 0 then Some(0)
    else if shard + v.tail > U64_MAX then None
    else
      var size := PadTo(shard + v.tail, v.alignment);
      if size > U64_MAX then None else Checked(size * v.count)
  }

  /** The owner of a shard is only looked up when it is not empty. */
  predicate Measurable(v: Value, o: nat)
    requires v.alignment > 0 && o < |v.elements| == |v.owners|
  {
    ShardBytes(v, v.elements[o]).Some? && (v.elements[o] * v.precision == 0 || v.owners[o].Some?)
  }

  lemma PadGrows(x: nat, y: nat, alignment: nat)
    requires x <= y && alignment > 0
    ensures PadTo(x, alignment) <= PadTo(y, alignment)
  {
    DivMonotone(x + alignment - 1, y + alignment - 1, alignment);
    MulMonotone((x + alignment - 1) / alignment, (y + alignment - 1) / alignment, alignment);
  }

  /** Padding is tight: the padded size is a multiple less than one unit above the shard. */
  lemma PadIsTight(x: nat, alignment: nat)
    requires alignment > 0
    ensures PadTo(x, alignment) % alignment == 0 && x <= PadTo(x, alignment) < x + alignment
  {
    var q := (x + alignment - 1) / alignment;
    assert q * alignment <= x + alignment - 1 < q * alignment + alignment;
    assert (q * alignment) % alignment == 0 by {
      QuotientIs(q * alignment, alignment, q, 0);
    }
  }

  /** A smaller shard needs less memory, and can be measured when a larger one can. */
  lemma ShardGrows(v: Value, a: nat, b: nat)
    requires v.alignment > 0 && a <= b && ShardBytes(v, b).Some?
    ensures ShardBytes(v, a).Some? && ShardBytes(v, a).value <= ShardBytes(v, b).value
  {
    hide PadTo;
    MulMonotone(a, b, v.precision);
    var small, large := a * v.precision + v.tail, b * v.precision + v.tail;
    PadGrows(small, large, v.alignment);
    MulMonotone(PadTo(small, v.alignment), PadTo(large, v.alignment), v.count);
  }

  // ---------------------------------------------------------------------------
  // What a root needs on a tile
  // ---------------------------------------------------------------------------

  ghost function ValueNeeds(v: Value, t: nat, o: nat): nat
    requires v.alignment > 0 && o <= |v.elements| == |v.owners|
  {
    if o == 0 then 0
    else
      var before := ValueNeeds(v, t, o - 1);
      if Measurable(v, o - 1) && v.owners[o - 1] == Some(t) then
        Max2(before, ShardBytes(v, v.elements[o - 1]).value)
      else before
  }

  ghost predicate AllValid(values: seq<Value>, roots: nat, tiles: nat) {
    forall k :: 0 <= k < |values| ==> values[k].Valid(roots, tiles)
  }

  /** What root `id` needs on tile `t` for the first `k` values. */
  ghost function Needs(values: seq<Value>, roots: nat, tiles: nat, id: nat, t: nat, k: nat): nat
    requires AllValid(values, roots, tiles) && k <= |values|
  {
    if k == 0 then 0
    else
      var before := Needs(values, roots, tiles, id, t, k - 1);
      if values[k - 1].root == id then Max2(before, ValueNeeds(values[k - 1], t, |values[k - 1].elements|)) else before
  }

  ghost predicate AllMeasurable(values: seq<Value>, roots: nat, tiles: nat)
    requires AllValid(values, roots, tiles)
  {
    forall k, o :: 0 <= k < |values| && 0 <= o < |values[k].elements| ==> Measurable(values[k], o)
  }

  lemma {:induction false} ValueBelow(v: Value, roots: nat, tiles: nat, t: nat, o: nat)
    requires v.Valid(roots, tiles) && o <= |v.elements| && Measurable(v.Column(), 0)
    ensures ValueNeeds(v, t, o) <= ValueNeeds(v.Column(), 0, 1)
  {
    var column := v.Column();
    assert ValueNeeds(column, 0, 0) == 0;
    assert column.elements[0] == v.largest && ShardBytes(column, v.largest) == ShardBytes(v, v.largest);
    if o > 0 {
      ValueBelow(v, roots, tiles, t, o - 1);
      ShardGrows(v, v.elements[o - 1], v.largest);
    }
  }

  function Columns(values: seq<Value>): (r: seq<Value>)
    ensures |r| == |values|
  {
    seq(|values|, k requires 0 <= k < |values| => values[k].Column())
  }

  lemma ColumnsValid(values: seq<Value>, roots: nat, tiles: nat)
    requires AllValid(values, roots, tiles)
    ensures AllValid(Columns(values), roots, 1)
  {
    forall k | 0 <= k < |values|
      ensures Columns(values)[k].Valid(roots, 1)
    {
      assert values[k].Valid(roots, tiles);
    }
  }

  /** No tile needs more for a root than the bound's column says. */
  lemma {:induction false} NeedsBelow(values: seq<Value>, roots: nat, tiles: nat, id: nat, t: nat, k: nat)
    requires AllValid(values, roots, tiles) && AllValid(Columns(values), roots, 1) && k <= |values|
    requires AllMeasurable(Columns(values), roots, 1)
    ensures Needs(values, roots, tiles, id, t, k) <= Needs(Columns(values), roots, 1, id, 0, k)
  {
    if k > 0 {
      NeedsBelow(values, roots, tiles, id, t, k - 1);
      var v, column := values[k - 1], Columns(values)[k - 1];
      assert v.Valid(roots, tiles) && column == v.Column() && |column.elements| == 1;
      assert Measurable(column, 0);
      ValueBelow(v, roots, tiles, t, |v.elements|);
    }
  }

  ghost predicate OwnerKnown(v: Value, o: nat)
    requires o < |v.elements| == |v.owners|
  {
    v.elements[o] * v.precision != 0 ==> v.owners[o].Some?
  }

  /** Every tile can be measured when the bound can and every shard that holds data has an owner. */
  lemma MeasurableBelow(values: seq<Value>, roots: nat, tiles: nat)
    requires AllValid(values, roots, tiles) && AllValid(Columns(values), roots, 1)
    requires AllMeasurable(Columns(values), roots, 1)
    ensures AllMeasurable(values, roots, tiles) <==>
            forall k, o :: 0 <= k < |values| && 0 <= o < |values[k].elements| ==> OwnerKnown(values[k], o)
  {
    forall k, o | 0 <= k < |values| && 0 <= o < |values[k].elements|
      ensures Measurable(values[k], o) <==> OwnerKnown(values[k], o)
    {
      var v, column := values[k], Columns(values)[k];
      assert v.Valid(roots, tiles) && column == v.Column() && |column.elements| == 1;
      assert Measurable(column, 0);
      assert ShardBytes(column, v.largest) == ShardBytes(v, v.largest);
      ShardGrows(v, v.elements[o], v.largest);
    }
  }

  // ---------------------------------------------------------------------------
  // Every size of the column is needed on a tile
  // ---------------------------------------------------------------------------

  /** The largest shard of each value is one of its shards. */
  ghost predicate AllTight(values: seq<Value>) {
    forall k :: 0 <= k < |values| ==> values[k].largest in values[k].elements
  }

  /** The column can be measured when the tiles can. */
  lemma ColumnsMeasurable(values: seq<Value>, roots: nat, tiles: nat)
    requires AllValid(values, roots, tiles) && AllValid(Columns(values), roots, 1) && AllTight(values)
    requires AllMeasurable(values, roots, tiles)
    ensures AllMeasurable(Columns(values), roots, 1)
  {
    forall k, o | 0 <= k < |values| && 0 <= o < |Columns(values)[k].elements|
      ensures Measurable(Columns(values)[k], o)
    {
      var v := values[k];
      assert v.Valid(roots, tiles);
      var p :| 0 <= p < |v.elements| && v.elements[p] == v.largest;
      assert Measurable(v, p);
      assert ShardBytes(v.Column(), v.largest) == ShardBytes(v, v.largest);
    }
  }

  /** A tile needs at least what any shard on it takes. */
  lemma {:induction false} ShardIsNeeded(v: Value, t: nat, p: nat, o: nat)
    requires v.alignment > 0 && p < o <= |v.elements| == |v.owners| && Measurable(v, p) && v.owners[p] == Some(t)
    ensures ShardBytes(v, v.elements[p]).value <= ValueNeeds(v, t, o)
  {
    hide ShardBytes;
    if p < o - 1 {
      ShardIsNeeded(v, t, p, o - 1);
    }
  }

  lemma {:induction false} ValueIsNeeded(values: seq<Value>, roots: nat, tiles: nat, t: nat, j: nat, k: nat)
    requires AllValid(values, roots, tiles) && j < k <= |values|
    ensures ValueNeeds(values[j], t, |values[j].elements|) <= Needs(values, roots, tiles, values[j].root, t, k)
  {
    hide ValueNeeds;
    if j < k - 1 {
      ValueIsNeeded(values, roots, tiles, t, j, k - 1);
    }
  }

  /** What a root needs is what some value of it needs. */
  lemma {:induction false} NeedsOfOne(values: seq<Value>, roots: nat, tiles: nat, id: nat, t: nat, k: nat) returns (j: nat)
    requires AllValid(values, roots, tiles) && k <= |values| && Needs(values, roots, tiles, id, t, k) > 0
    ensures j < k && values[j].root == id
    ensures Needs(values, roots, tiles, id, t, k) == ValueNeeds(values[j], t, |values[j].elements|)
  {
    hide ValueNeeds;
    if values[k - 1].root == id
       && Needs(values, roots, tiles, id, t, k - 1) <= ValueNeeds(values[k - 1], t, |values[k - 1].elements|) {
      j := k - 1;
    } else {
      j := NeedsOfOne(values, roots, tiles, id, t, k - 1);
    }
  }

  /** The largest shard of a value with data lies on some tile, which needs as much as the column. */
  lemma LargestIsNeeded(v: Value, roots: nat, tiles: nat) returns (t: nat)
    requires v.Valid(roots, tiles) && v.largest in v.elements && ValueNeeds(v.Column(), 0, 1) > 0
    requires forall o :: 0 <= o < |v.elements| ==> Measurable(v, o)
    ensures t < tiles && ValueNeeds(v.Column(), 0, 1) <= ValueNeeds(v, t, |v.elements|)
  {
    var column := v.Column();
    assert ValueNeeds(column, 0, 0) == 0;
    assert column.elements[0] == v.largest && ShardBytes(column, v.largest) == ShardBytes(v, v.largest);
    var p :| 0 <= p < |v.elements| && v.elements[p] == v.largest;
    assert Measurable(v, p);
    t := v.owners[p].value;
    ShardIsNeeded(v, t, p, |v.elements|);
  }

  /** Each size of the column is what some tile needs. */
  lemma ColumnIsAttained(values: seq<Value>, roots: nat, tiles: nat, id: nat) returns (t: nat)
    requires AllValid(values, roots, tiles) && AllValid(Columns(values), roots, 1) && AllTight(values)
    requires AllMeasurable(values, roots, tiles) && Needs(Columns(values), roots, 1, id, 0, |values|) > 0
    ensures t < tiles && Needs(values, roots, tiles, id, t, |values|) == Needs(Columns(values), roots, 1, id, 0, |values|)
  {
    hide ValueNeeds, Measurable;
    ColumnsMeasurable(values, roots, tiles);
    var k := NeedsOfOne(Columns(values), roots, 1, id, 0, |values|);
    var v := values[k];
    assert v.Valid(roots, tiles) && Columns(values)[k] == v.Column() && |v.Column().elements| == 1;
    t := LargestIsNeeded(v, roots, tiles);
    ValueIsNeeded(values, roots, tiles, t, k, |values|);
    NeedsBelow(values, roots, tiles, id, t, |values|);
  }

  // ---------------------------------------------------------------------------
  // The measuring loop
  // ---------------------------------------------------------------------------

  method MeasureValue(v: Value, bytes: array2<nat>) returns (ok: bool)
    requires v.Valid(bytes.Length0, bytes.Length1)
    modifies bytes
    ensures ok <==> forall o :: 0 <= o < |v.elements| ==> Measurable(v, o)
    ensures ok ==> forall id, t :: 0 <= id < bytes.Length0 && 0 <= t < bytes.Length1 ==>
      bytes[id, t] == if id == v.root then Max2(old(bytes[id, t]), ValueNeeds(v, t, |v.elements|)) else old(bytes[id, t])
  {
    for o := 0 to |v.elements|
      invariant forall p :: 0 <= p < o ==> Measurable(v, p)
      invariant forall id, t :: 0 <= id < bytes.Length0 && 0 <= t < bytes.Length1 ==>
        bytes[id, t] == if id == v.root then Max2(old(bytes[id, t]), ValueNeeds(v, t, o)) else old(bytes[id, t])
    {
      var size := ShardBytes(v, v.elements[o]);
      if size.None? {
        assert !Measurable(v, o);
        return false;
      }
      if v.elements[o] * v.precision != 0 {
        if v.owners[o].None? {
          assert !Measurable(v, o);
          return false;
        }
        var tile := v.owners[o].value;
        bytes[v.root, tile] := Max2(bytes[v.root, tile], size.value);
      } else {
        assert size.value == 0;
      }
    }
    ok := true;
  }

  /** Measuring succeeds exactly when every value can be measured, and then finds what each
      root needs on each tile. */
  method Measure(values: seq<Value>, roots: nat, tiles: nat) returns (ok: bool, bytes: array2<nat>)
    requires AllValid(values, roots, tiles)
    ensures fresh(bytes) && bytes.Length0 == roots && bytes.Length1 == tiles
    ensures ok <==> AllMeasurable(values, roots, tiles)
    ensures ok ==> forall id, t :: 0 <= id < roots && 0 <= t < tiles ==>
      bytes[id, t] == Needs(values, roots, tiles, id, t, |values|)
  {
    bytes := new nat[roots, tiles]((_, _) => 0);
    for k := 0 to |values|
      invariant forall j, o :: 0 <= j < k && 0 <= o < |values[j].elements| ==> Measurable(values[j], o)
      invariant forall id, t :: 0 <= id < roots && 0 <= t < tiles ==> bytes[id, t] == Needs(values, roots, tiles, id, t, k)
    {
      ok := MeasureValue(values[k], bytes);
      if !ok {
        return;
      }
    }
    ok := true;
  }

  /** Both forms of the analysis: where the column can be measured, the tiles can exactly when
      every shard that holds data has an owner, and none needs more than the column. */
  method MeasureForms(values: seq<Value>, roots: nat, tiles: nat)
    returns (columnOk: bool, column: array2<nat>, ok: bool, bytes: array2<nat>)
    requires AllValid(values, roots, tiles)
    ensures fresh(column) && column.Length0 == roots && column.Length1 == 1
    ensures fresh(bytes) && bytes.Length0 == roots && bytes.Length1 == tiles
    ensures columnOk ==>
              (ok <==> forall k, o :: 0 <= k < |values| && 0 <= o < |values[k].elements| ==> OwnerKnown(values[k], o))
    ensures columnOk && ok ==> forall id, t :: 0 <= id < roots && 0 <= t < tiles ==> bytes[id, t] <= column[id, 0]
  {
    hide AllMeasurable, OwnerKnown, AllValid, Needs, Columns;
    ColumnsValid(values, roots, tiles);
    columnOk, column := Measure(Columns(values), roots, 1);
    ok, bytes := Measure(values, roots, tiles);
    if columnOk {
      MeasurableBelow(values, roots, tiles);
      forall id, t | 0 <= id < roots && 0 <= t < tiles
        ensures Needs(values, roots, tiles, id, t, |values|) <= Needs(Columns(values), roots, 1, id, 0, |values|)
      {
        NeedsBelow(values, roots, tiles, id, t, |values|);
      }
    }
  }

  // ---------------------------------------------------------------------------
  // Scratch
  // ---------------------------------------------------------------------------

  /** A tile's part of the kernel scratch, in proportion to the elements it owns. */
  function TileScratch(scratch: nat, elements: nat, largest: nat): Option<nat>
    requires largest > 0
  {
    if scratch * elements > U64_MAX then None else Some((scratch * elements + largest - 1) / largest)
  }

  lemma ScratchBelow(scratch: nat, elements: nat, largest: nat)
    requires 0 < largest && elements <= largest && TileScratch(scratch, elements, largest).Some?
    ensures TileScratch(scratch, elements, largest).value <= scratch
    ensures elements == largest ==> TileScratch(scratch, elements, largest).value == scratch
  {
    MulMonotone(elements, largest, scratch);
    QuotientIs(scratch * largest + largest - 1, largest, scratch, largest - 1);
    DivMonotone(scratch * elements + largest - 1, scratch * largest + largest - 1, largest);
  }

  // ---------------------------------------------------------------------------
  // The two analyses of one program
  // ---------------------------------------------------------------------------

  /** The storage that measuring `values` gives. */
  ghost predicate MeasuredBy(s: Storage, values: seq<Value>, tiles: nat) {
    && s.Valid() && s.tiles == tiles && AllValid(values, |s.bytes|, tiles)
    && forall id, t :: 0 <= id < |s.bytes| && 0 <= t < tiles ==>
        s.bytes[id][t] == Needs(values, |s.bytes|, tiles, id, t, |values|)
  }

  /** Each tile's scratch is its part of the kernel's. */
  ghost predicate ScratchParts(bound: Usage, tile: Usage) {
    exists elements: nat, largest: nat :: 0 < largest && elements <= largest
      && TileScratch(bound.standard, elements, largest) == Some(tile.standard)
      && TileScratch(bound.interleaved, elements, largest) == Some(tile.interleaved)
  }

  /** Measuring a program by its largest shards bounds measuring it tile by tile, so the
      capacity screen of `StorageAnalysis` applies to it. */
  lemma MeasuredBounds(bound: Storage, refined: Storage, values: seq<Value>)
    requires MeasuredBy(refined, values, refined.tiles) && MeasuredBy(bound, Columns(values), 1)
    requires AllMeasurable(Columns(values), |bound.bytes|, 1)
    requires bound.plan == refined.plan && bound.kernel == refined.kernel
    requires forall i, t :: 0 <= i < |refined.scratch| && 0 <= t < refined.tiles ==>
      refined.scratch[i][t] == Usage(0, 0) || ScratchParts(bound.scratch[i][0], refined.scratch[i][t])
    ensures Bounds(bound, refined)
  {
    var roots := |bound.bytes|;
    forall id, t | 0 <= id < roots && 0 <= t < refined.tiles
      ensures refined.bytes[id][t] <= bound.bytes[id][0]
    {
      NeedsBelow(values, roots, refined.tiles, id, t, |values|);
    }
    forall i, t | 0 <= i < |refined.scratch| && 0 <= t < refined.tiles
      ensures refined.scratch[i][t].Within(bound.scratch[i][0])
    {
      PartIsWithin(bound.scratch[i][0], refined.scratch[i][t]);
    }
  }

  lemma PartIsWithin(bound: Usage, tile: Usage)
    requires tile == Usage(0, 0) || ScratchParts(bound, tile)
    ensures tile.Within(bound)
  {
    if tile != Usage(0, 0) {
      var elements: nat, largest: nat :| 0 < largest && elements <= largest
        && TileScratch(bound.standard, elements, largest) == Some(tile.standard)
        && TileScratch(bound.interleaved, elements, largest) == Some(tile.interleaved);
      ScratchBelow(bound.standard, elements, largest);
      ScratchBelow(bound.interleaved, elements, largest);
    }
  }
}
