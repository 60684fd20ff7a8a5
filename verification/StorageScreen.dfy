/** The whole memory analysis with its capacity screen (crates/ipu-codegen/src/estimate/mid.rs).

    From a validated program, the shards of its values and the scratch of its kernels, both forms
    of the analysis are computed: the column of largest shards, and every tile. The planner takes
    the column's peaks if they fit and analyses every tile otherwise. The module proves that this
    accepts exactly the programs that the analysis of every tile accepts, as long as every shard
    that is looked up has an owner. */
module StorageScreen {
  import opened Saturating
  import opened StorageAccounting
  import opened StorageAnalysis
  import opened StorageLiveness
  import opened StoragePlan
  import opened StorageSizes
  import StorageSweep
  import AliasRoots
  import DivMod

  const STANDARD_ELEMENT: nat := 0x4000
  const INTERLEAVED_ELEMENT: nat := 0x8000

  /** The resolved shards of a value: the elements of each owner and the tile it lies on. */
  datatype Shards = Shards(precision: nat, largest: nat, elements: seq<nat>, owners: seq<Option<nat>>) {
    ghost predicate Valid(tiles: nat) {
      && precision > 0 && largest > 0 && |elements| == |owners| && largest in elements
      && (forall o :: 0 <= o < |elements| ==> elements[o] <= largest)
      && (forall o :: 0 <= o < |owners| && owners[o].Some? ==> owners[o].value < tiles)
    }
  }

  /** The scratch of a step's kernel, none if it has no price, and the bytes per operand of a
      matrix product. */
  datatype Kernel = Kernel(scratch: Option<Usage>, multiply: Option<nat>)

  /** What the analysis is given. `program.classes` holds the memory class of every value, and
      `shards` its shards, none if its layout does not resolve. */
  datatype Subject = Subject(program: Program, shards: seq<Option<Shards>>, kernels: seq<Kernel>, tiles: nat) {
    function Steps(): seq<Operation> {
      Flatten(program.operations)
    }

    ghost predicate Ready() {
      && Validated(program)
      && |shards| == |program.classes| && |kernels| == |Steps()|
      && (forall v :: 0 <= v < |shards| && shards[v].Some? ==> shards[v].value.Valid(tiles))
      && (forall c :: 0 <= c < |program.copies| ==> program.copies[c].1 > 0)
      && (forall i :: 0 <= i < |kernels| ==> KernelReady(Steps()[i], kernels[i], |shards|))
    }
  }

  /** A product has operands and a result; only steps with a result have scratch. */
  ghost predicate KernelReady(o: Operation, k: Kernel, n: nat) {
    && OperationInRange(o, n)
    && (k.multiply.Some? ==> |o.inputs| > 0 && |o.results| > 0)
    && (k.scratch.Some? && k.scratch.value.Total() > 0 ==> |o.results| > 0)
  }

  // ---------------------------------------------------------------------------
  // Roots
  // ---------------------------------------------------------------------------

  ghost function RootsOf(p: Program): (r: seq<nat>)
    requires Validated(p)
    ensures |r| == |p.classes| && forall v :: 0 <= v < |r| ==> r[v] < |r|
  {
    LabelsAreRoots(p);
    AliasRoots.LabelsAreLeast(AllPairs(Flatten(p.operations)), |p.classes|);
    AliasRoots.Labels(AllPairs(Flatten(p.operations)), |p.classes|)
  }

  ghost predicate AreRoots(roots: seq<nat>) {
    forall v :: 0 <= v < |roots| ==> roots[v] < |roots|
  }

  /** Each root has the class of the last of its values. */
  ghost function RootClasses(classes: seq<MemoryClass>, roots: seq<nat>, k: nat): (r: seq<MemoryClass>)
    requires k <= |classes| == |roots| && AreRoots(roots)
    ensures |r| == |roots|
  {
    if k == 0 then seq(|roots|, _ => Standard) else RootClasses(classes, roots, k - 1)[roots[k - 1] := classes[k - 1]]
  }

  /** The program with the roots of its values and the classes of its roots. */
  ghost function Rooted(p: Program): (r: Program)
    requires Validated(p)
    ensures Numbered(r) && |r.roots| == |p.classes|
  {
    LabelsAreRoots(p);
    p.(roots := RootsOf(p), classes := RootClasses(p.classes, RootsOf(p), |p.classes|))
  }

  method ClassesOf(classes: seq<MemoryClass>, roots: seq<nat>) returns (r: array<MemoryClass>)
    requires |classes| == |roots| && AreRoots(roots)
    ensures fresh(r) && r[..] == RootClasses(classes, roots, |roots|)
  {
    r := new MemoryClass[|roots|](_ => Standard);
    assert r[..] == RootClasses(classes, roots, 0);
    for v := 0 to |roots|
      invariant r[..] == RootClasses(classes, roots, v)
    {
      r[roots[v]] := classes[v];
    }
  }

  // ---------------------------------------------------------------------------
  // Operands of matrix products
  // ---------------------------------------------------------------------------

  /** The roots that the products among the first `k` steps read first or write. */
  ghost function ElementRoots(steps: seq<Operation>, kernels: seq<Kernel>, roots: seq<nat>, k: nat): (r: seq<bool>)
    requires k <= |steps| == |kernels| && AreRoots(roots)
    requires forall i :: 0 <= i < |steps| ==> KernelReady(steps[i], kernels[i], |roots|)
    ensures |r| == |roots|
  {
    if k == 0 then seq(|roots|, _ => false)
    else
      var before := ElementRoots(steps, kernels, roots, k - 1);
      if kernels[k - 1].multiply.None? then before
      else before[roots[steps[k - 1].inputs[0]] := true][roots[steps[k - 1].results[0]] := true]
  }

  /** The bytes beyond a first operand that its last product reads. */
  ghost function Tails(steps: seq<Operation>, kernels: seq<Kernel>, roots: seq<nat>, k: nat): (r: seq<nat>)
    requires k <= |steps| == |kernels| && AreRoots(roots)
    requires forall i :: 0 <= i < |steps| ==> KernelReady(steps[i], kernels[i], |roots|)
    ensures |r| == |roots|
  {
    if k == 0 then seq(|roots|, _ => 0)
    else
      var before := Tails(steps, kernels, roots, k - 1);
      if kernels[k - 1].multiply.None? then before
      else before[roots[steps[k - 1].inputs[0]] := 8 * kernels[k - 1].multiply.value]
  }

  method MarkProducts(steps: seq<Operation>, kernels: seq<Kernel>, roots: seq<nat>)
    returns (element: array<bool>, tail: array<nat>)
    requires |steps| == |kernels| && AreRoots(roots)
    requires forall i :: 0 <= i < |steps| ==> KernelReady(steps[i], kernels[i], |roots|)
    ensures fresh(element) && element[..] == ElementRoots(steps, kernels, roots, |steps|)
    ensures fresh(tail) && tail[..] == Tails(steps, kernels, roots, |steps|)
  {
    element := new bool[|roots|](_ => false);
    tail := new nat[|roots|](_ => 0);
    assert element[..] == ElementRoots(steps, kernels, roots, 0);
    assert tail[..] == Tails(steps, kernels, roots, 0);
    for i := 0 to |steps|
      invariant element[..] == ElementRoots(steps, kernels, roots, i)
      invariant tail[..] == Tails(steps, kernels, roots, i)
    {
      if kernels[i].multiply.Some? {
        element[roots[steps[i].inputs[0]]] := true;
        element[roots[steps[i].results[0]]] := true;
        tail[roots[steps[i].inputs[0]]] := 8 * kernels[i].multiply.value;
      }
    }
  }

  // ---------------------------------------------------------------------------
  // Values
  // ---------------------------------------------------------------------------

  /** The members of the resident sequence that a value stands for. */
  function CopiesOf(copies: seq<(nat, nat)>, v: nat): (r: nat)
    ensures (forall c :: 0 <= c < |copies| ==> copies[c].1 > 0) ==> r > 0
  {
    if copies == [] then 1
    else if copies[|copies| - 1].0 == v then copies[|copies| - 1].1
    else CopiesOf(copies[..|copies| - 1], v)
  }

  function ValueOf(root: nat, class_: MemoryClass, element: bool, tail: nat, count: nat, s: Shards): Value {
    Value(root, s.precision, if !element then 1 else if class_.Interleaved? then INTERLEAVED_ELEMENT else STANDARD_ELEMENT,
          tail, count, s.largest, s.elements, s.owners)
  }

  /** Every layout resolves and has at most as many owners as there are tiles. */
  predicate Resolves(shards: Option<Shards>, tiles: nat) {
    shards.Some? && |shards.value.elements| <= tiles && tiles > 0
  }

  ghost predicate AllResolve(m: Subject) {
    forall v :: 0 <= v < |m.shards| ==> Resolves(m.shards[v], m.tiles)
  }

  /** Value `v` with its root, alignment and tail. */
  ghost function ValueAt(m: Subject, v: nat): (r: Value)
    requires m.Ready() && v < |m.shards| && Resolves(m.shards[v], m.tiles)
    ensures r.Valid(|m.shards|, m.tiles) && r.root == RootsOf(m.program)[v]
    ensures r.count == CopiesOf(m.program.copies, v)
    ensures var s := m.shards[v].value;
      r.precision == s.precision && r.largest == s.largest && r.elements == s.elements && r.owners == s.owners
  {
    hide Validated, RootsOf, ElementRoots, Tails, KernelReady;
    var roots := RootsOf(m.program);
    var element := ElementRoots(m.Steps(), m.kernels, roots, |m.kernels|);
    var tail := Tails(m.Steps(), m.kernels, roots, |m.kernels|);
    ValueOf(roots[v], m.program.classes[v], element[roots[v]], tail[roots[v]], CopiesOf(m.program.copies, v), m.shards[v].value)
  }

  ghost function ValuesOf(m: Subject): (r: seq<Value>)
    requires m.Ready() && AllResolve(m)
    ensures |r| == |m.shards| && AllValid(r, |r|, m.tiles)
    ensures forall v :: 0 <= v < |r| ==> r[v] == ValueAt(m, v)
  {
    hide Subject.Ready, Resolves;
    seq(|m.shards|, v requires 0 <= v < |m.shards| => ValueAt(m, v))
  }

  // ---------------------------------------------------------------------------
  // Scratch
  // ---------------------------------------------------------------------------

  /** Owner `o` has a tile, and its part of the scratch can be computed. */
  predicate PartKnown(s: Shards, scratch: Usage, o: nat)
    requires s.largest > 0 && o < |s.elements| == |s.owners|
  {
    && s.owners[o].Some?
    && TileScratch(scratch.standard, s.elements[o], s.largest).Some?
    && TileScratch(scratch.interleaved, s.elements[o], s.largest).Some?
  }

  function PartOf(s: Shards, scratch: Usage, o: nat): Usage
    requires s.largest > 0 && o < |s.elements| == |s.owners| && PartKnown(s, scratch, o)
  {
    Usage(TileScratch(scratch.standard, s.elements[o], s.largest).value,
          TileScratch(scratch.interleaved, s.elements[o], s.largest).value)
  }

  /** What the first `o` owners leave on tile `t`: the part of the last that lies there. */
  ghost function ScratchAt(s: Shards, scratch: Usage, t: nat, o: nat): Usage
    requires s.largest > 0 && o <= |s.elements| == |s.owners|
  {
    if o == 0 then Usage(0, 0)
    else if PartKnown(s, scratch, o - 1) && s.owners[o - 1] == Some(t) then PartOf(s, scratch, o - 1)
    else ScratchAt(s, scratch, t, o - 1)
  }

  method SpreadScratch(s: Shards, scratch: Usage, tiles: nat) returns (ok: bool, r: array<Usage>)
    requires s.Valid(tiles)
    ensures fresh(r) && r.Length == tiles
    ensures ok <==> forall o :: 0 <= o < |s.owners| ==> PartKnown(s, scratch, o)
    ensures ok ==> forall t :: 0 <= t < tiles ==> r[t] == ScratchAt(s, scratch, t, |s.owners|)
  {
    hide TileScratch;
    r := new Usage[tiles](_ => Usage(0, 0));
    for o := 0 to |s.owners|
      invariant forall p :: 0 <= p < o ==> PartKnown(s, scratch, p)
      invariant forall t :: 0 <= t < tiles ==> r[t] == ScratchAt(s, scratch, t, o)
    {
      var standard := TileScratch(scratch.standard, s.elements[o], s.largest);
      var interleaved := TileScratch(scratch.interleaved, s.elements[o], s.largest);
      if s.owners[o].None? || standard.None? || interleaved.None? {
        assert !PartKnown(s, scratch, o);
        return false, r;
      }
      r[s.owners[o].value] := Usage(standard.value, interleaved.value);
    }
    ok := true;
  }

  lemma {:induction false} ScratchIsPart(s: Shards, scratch: Usage, tiles: nat, t: nat, o: nat)
    requires s.Valid(tiles) && o <= |s.elements|
    ensures ScratchAt(s, scratch, t, o) == Usage(0, 0) || ScratchParts(scratch, ScratchAt(s, scratch, t, o))
  {
    hide TileScratch;
    if o > 0 {
      ScratchIsPart(s, scratch, tiles, t, o - 1);
      if PartKnown(s, scratch, o - 1) {
        assert s.elements[o - 1] <= s.largest;
      }
    }
  }

  // ---------------------------------------------------------------------------
  // The two forms
  // ---------------------------------------------------------------------------

  ghost predicate AllPriced(m: Subject) {
    forall i :: 0 <= i < |m.kernels| ==> m.kernels[i].scratch.Some?
  }

  /** The shards of a step's first result. */
  function ResultShards(m: Subject, i: nat): (r: Shards)
    requires m.Ready() && AllResolve(m) && i < |m.kernels| && |m.Steps()[i].results| > 0
    ensures r.Valid(m.tiles)
  {
    m.shards[m.Steps()[i].results[0]].value
  }

  /** The scratch of a step can be spread over the tiles. */
  ghost predicate ScratchKnown(m: Subject, i: nat)
    requires m.Ready() && AllResolve(m) && AllPriced(m) && i < |m.kernels|
  {
    var scratch := m.kernels[i].scratch.value;
    scratch.Total() > 0 ==>
      forall o :: 0 <= o < |ResultShards(m, i).owners| ==> PartKnown(ResultShards(m, i), scratch, o)
  }

  ghost function FormTiles(m: Subject, perTile: bool): nat {
    if perTile then m.tiles else 1
  }

  ghost function FormValues(m: Subject, perTile: bool): (r: seq<Value>)
    requires m.Ready() && AllResolve(m)
    ensures |r| == |m.shards| && AllValid(r, |r|, FormTiles(m, perTile))
  {
    if perTile then ValuesOf(m)
    else
      ColumnsValid(ValuesOf(m), |m.shards|, m.tiles);
      Columns(ValuesOf(m))
  }

  ghost function FormScratch(m: Subject, perTile: bool, i: nat): (r: seq<Usage>)
    requires m.Ready() && AllResolve(m) && AllPriced(m) && i < |m.kernels|
    ensures |r| == FormTiles(m, perTile)
  {
    var scratch := m.kernels[i].scratch.value;
    if !perTile then [scratch]
    else
      seq(m.tiles, t requires 0 <= t < m.tiles =>
        if scratch.Total() == 0 then Usage(0, 0)
        else ScratchAt(ResultShards(m, i), scratch, t, |ResultShards(m, i).owners|))
  }

  /** The analysis in one form gets as far as adding up memory. */
  ghost predicate Known(m: Subject, perTile: bool)
    requires m.Ready()
  {
    && AllResolve(m) && AllPriced(m)
    && AllMeasurable(FormValues(m, perTile), |m.shards|, FormTiles(m, perTile))
    && (perTile ==> forall i :: 0 <= i < |m.kernels| ==> ScratchKnown(m, i))
  }

  ghost function RowOf(values: seq<Value>, tiles: nat, id: nat): (r: seq<nat>)
    requires AllValid(values, |values|, tiles)
    ensures |r| == tiles && forall t :: 0 <= t < tiles ==> r[t] == Needs(values, |values|, tiles, id, t, |values|)
  {
    seq(tiles, t requires 0 <= t < tiles => Needs(values, |values|, tiles, id, t, |values|))
  }

  ghost function RowsOf(values: seq<Value>, tiles: nat): (r: seq<seq<nat>>)
    requires AllValid(values, |values|, tiles)
    ensures |r| == |values| && forall id :: 0 <= id < |r| ==> r[id] == RowOf(values, tiles, id)
  {
    seq(|values|, id requires 0 <= id < |values| => RowOf(values, tiles, id))
  }

  ghost function AllScratch(m: Subject, perTile: bool): (r: seq<seq<Usage>>)
    requires m.Ready() && AllResolve(m) && AllPriced(m)
    ensures |r| == |m.kernels| && forall i :: 0 <= i < |r| ==> r[i] == FormScratch(m, perTile, i)
  {
    seq(|m.kernels|, i requires 0 <= i < |m.kernels| => FormScratch(m, perTile, i))
  }

  ghost function StandardScratch(m: Subject): (r: seq<nat>)
    requires AllPriced(m)
    ensures |r| == |m.kernels| && forall i :: 0 <= i < |r| ==> r[i] == m.kernels[i].scratch.value.standard
  {
    seq(|m.kernels|, i requires 0 <= i < |m.kernels| => m.kernels[i].scratch.value.standard)
  }

  ghost function PlanFor(m: Subject): (plan: Plan)
    requires m.Ready()
    ensures plan.Valid() && |plan.touched| == |m.kernels| && |plan.classes| == |m.shards|
  {
    PlanOf(Rooted(m.program))
  }

  ghost function StorageOf(m: Subject, perTile: bool): (s: Storage)
    requires m.Ready() && Known(m, perTile)
    ensures s.Valid() && s.plan == PlanFor(m) && s.tiles == FormTiles(m, perTile) && |s.bytes| == |m.shards|
  {
    hide Subject.Ready, PlanFor, ScratchKnown, AllMeasurable;
    Storage(PlanFor(m), FormTiles(m, perTile), RowsOf(FormValues(m, perTile), FormTiles(m, perTile)),
            AllScratch(m, perTile), StandardScratch(m))
  }

  /** The peaks that the analysis in one form reports, if any. */
  ghost function PeaksOf(m: Subject, perTile: bool): Option<Peaks>
    requires m.Ready()
  {
    if Known(m, perTile) then PeaksAfter(StorageOf(m, perTile), |m.kernels| + 1) else None
  }

  // ---------------------------------------------------------------------------
  // One form bounds the other
  // ---------------------------------------------------------------------------

  lemma MeasuredForm(m: Subject, perTile: bool)
    requires m.Ready() && Known(m, perTile)
    ensures MeasuredBy(StorageOf(m, perTile), FormValues(m, perTile), FormTiles(m, perTile))
  {
    hide Subject.Ready, PlanFor, AllMeasurable, ScratchKnown, FormScratch, ValuesOf, AllResolve;
    var s, values, tiles := StorageOf(m, perTile), FormValues(m, perTile), FormTiles(m, perTile);
    forall id, t | 0 <= id < |s.bytes| && 0 <= t < tiles
      ensures s.bytes[id][t] == Needs(values, |s.bytes|, tiles, id, t, |values|)
    {
      assert s.bytes[id] == RowOf(values, tiles, id);
    }
  }

  lemma ScratchForms(m: Subject, i: nat, t: nat)
    requires m.Ready() && AllResolve(m) && AllPriced(m) && i < |m.kernels| && t < m.tiles
    ensures var tile := FormScratch(m, true, i)[t];
      tile == Usage(0, 0) || ScratchParts(FormScratch(m, false, i)[0], tile)
  {
    hide ScratchAt, ScratchParts, Validated;
    var scratch := m.kernels[i].scratch.value;
    if scratch.Total() != 0 {
      ScratchIsPart(ResultShards(m, i), scratch, m.tiles, t, |ResultShards(m, i).owners|);
    }
  }

  /** The column bounds the tiles, and each of its sizes is needed on some tile. */
  lemma FormsBound(m: Subject)
    requires m.Ready() && Known(m, true) && Known(m, false)
    ensures Bounds(StorageOf(m, false), StorageOf(m, true))
  {
    hide Subject.Ready, PlanFor, AllMeasurable, ScratchKnown, FormScratch, AllResolve, ScratchParts, Needs, Bounds;
    var bound, refined := StorageOf(m, false), StorageOf(m, true);
    MeasuredForm(m, false);
    MeasuredForm(m, true);
    forall i, t | 0 <= i < |refined.scratch| && 0 <= t < refined.tiles
      ensures refined.scratch[i][t] == Usage(0, 0) || ScratchParts(bound.scratch[i][0], refined.scratch[i][t])
    {
      ScratchForms(m, i, t);
    }
    MeasuredBounds(bound, refined, ValuesOf(m));
  }

  lemma ValuesTight(m: Subject)
    requires m.Ready() && AllResolve(m)
    ensures AllTight(ValuesOf(m))
  {
  }

  /** What is known of the tiles makes the column known. */
  lemma KnownColumn(m: Subject)
    requires m.Ready() && Known(m, true)
    ensures Known(m, false)
  {
    hide Subject.Ready, AllMeasurable, ScratchKnown, AllResolve, Measurable, AllTight;
    ValuesTight(m);
    ColumnsValid(ValuesOf(m), |m.shards|, m.tiles);
    ColumnsMeasurable(ValuesOf(m), |m.shards|, m.tiles);
  }

  lemma FormsAttained(m: Subject)
    requires m.Ready() && Known(m, true) && Known(m, false)
    ensures Bounds(StorageOf(m, false), StorageOf(m, true)) && Attained(StorageOf(m, false), StorageOf(m, true))
  {
    hide Subject.Ready, PlanFor, AllMeasurable, ScratchKnown, FormScratch, AllResolve, Needs, Bounds, AllTight, StorageOf;
    FormsBound(m);
    var bound, refined, values, n := StorageOf(m, false), StorageOf(m, true), ValuesOf(m), |m.shards|;
    MeasuredForm(m, false);
    MeasuredForm(m, true);
    ValuesTight(m);
    forall id | 0 <= id < n && bound.bytes[id][0] > 0
      ensures exists t :: 0 <= t < refined.tiles && refined.bytes[id][t] == bound.bytes[id][0]
    {
      var t := ColumnIsAttained(values, n, m.tiles, id);
      assert refined.bytes[id][t] == bound.bytes[id][0];
    }
  }

  // ---------------------------------------------------------------------------
  // A column that fits makes the tiles known
  // ---------------------------------------------------------------------------

  /** Every shard that the analysis of the tiles looks up has an owner: those that hold data, and
      all of a result whose kernel has scratch. */
  ghost predicate OwnersKnown(m: Subject)
    requires m.Ready()
  {
    && (forall v :: 0 <= v < |m.shards| && m.shards[v].Some? ==> DataOwnersKnown(m.shards[v].value))
    && (forall i :: 0 <= i < |m.kernels| ==> ResultOwnersKnown(m, i))
  }

  ghost predicate DataOwnersKnown(s: Shards) {
    forall o :: 0 <= o < |s.elements| && o < |s.owners| && s.elements[o] > 0 ==> s.owners[o].Some?
  }

  ghost predicate ResultOwnersKnown(m: Subject, i: nat)
    requires m.Ready() && i < |m.kernels|
  {
    var k, o := m.kernels[i], m.Steps()[i];
    k.scratch.Some? && k.scratch.value.Total() > 0 && m.shards[o.results[0]].Some? ==>
      forall p :: 0 <= p < |m.shards[o.results[0]].value.owners| ==> m.shards[o.results[0]].value.owners[p].Some?
  }

  /** The first result of a step is live in it. */
  lemma ResultIsLive(m: Subject, i: nat)
    requires m.Ready() && i < |m.kernels| && |m.Steps()[i].results| > 0
    ensures m.Steps()[i].results[0] < |m.shards|
    ensures LiveAt(PlanFor(m), i + 1)[RootsOf(m.program)[m.Steps()[i].results[0]]]
  {
    hide RootsOf, Flatten, RootClasses, LastIndex, Validated, AllPairs;
    var p, o := Rooted(m.program), m.Steps()[i];
    var v := o.results[0];
    assert KernelReady(o, m.kernels[i], |m.shards|);
    assert v in Values(o.inputs) + Values(o.results);
    assert p.roots[v] in RootSet(p.roots, Values(o.inputs) + Values(o.results));
    assert Touches(PlanOf(p).touched[i], p.roots[v]);
  }

  /** A shard has no more elements than its value has bytes. */
  lemma ElementsAreBytes(v: Value)
    requires v.alignment > 0 && v.precision > 0 && v.count > 0 && ShardBytes(v, v.largest).Some?
    ensures v.largest <= ShardBytes(v, v.largest).value
  {
    hide PadTo;
    var shard := v.largest * v.precision;
    TimesGrows(v.largest, v.precision);
    PadIsTight(shard + v.tail, v.alignment);
    TimesGrows(PadTo(shard + v.tail, v.alignment), v.count);
  }

  lemma TimesGrows(a: nat, b: nat)
    requires b > 0
    ensures a <= a * b
  {
    DivMod.MulMonotone(1, b, a);
  }

  /** The column's size of a value's root. */
  lemma ColumnHolds(m: Subject, v: nat)
    requires m.Ready() && Known(m, false) && v < |m.shards|
    ensures m.shards[v].Some? && RootsOf(m.program)[v] < |m.shards|
    ensures m.shards[v].value.largest <= StorageOf(m, false).bytes[RootsOf(m.program)[v]][0]
  {
    hide Subject.Ready, PlanFor, RootsOf, ScratchKnown, FormScratch, AllResolve, Needs, ShardBytes, StorageOf;
    MeasuredForm(m, false);
    ColumnPositive(m, v);
    var columns := FormValues(m, false);
    var column := columns[v];
    assert Measurable(column, 0);
    ElementsAreBytes(column);
    ShardIsNeeded(column, 0, 0, 1);
    ValueIsNeeded(columns, |m.shards|, 1, 0, v, |columns|);
  }

  lemma ColumnPositive(m: Subject, v: nat)
    requires m.Ready() && AllResolve(m) && v < |m.shards|
    ensures m.shards[v].Some? && RootsOf(m.program)[v] < |m.shards|
    ensures var column := FormValues(m, false)[v];
      && column.alignment > 0 && column.precision > 0 && column.count > 0 && column.root == RootsOf(m.program)[v]
      && |column.elements| == |column.owners| == 1 && column.owners[0] == Some(0)
      && column.elements[0] == column.largest == m.shards[v].value.largest
  {
    assert Resolves(m.shards[v], m.tiles);
    assert ValuesOf(m)[v].Valid(|m.shards|, m.tiles);
  }

  lemma HasResult(m: Subject, i: nat)
    requires m.Ready() && AllResolve(m) && i < |m.kernels| && m.kernels[i].scratch.Some? && m.kernels[i].scratch.value.Total() > 0
    ensures |m.Steps()[i].results| > 0 && m.Steps()[i].results[0] < |m.shards|
    ensures ResultShards(m, i) == m.shards[m.Steps()[i].results[0]].value
  {
    assert KernelReady(m.Steps()[i], m.kernels[i], |m.shards|);
  }

  /** The column's peaks cover the scratch of every step. */
  lemma ScratchBelowPeak(m: Subject, i: nat)
    requires m.Ready() && Known(m, false) && i < |m.kernels| && PeaksOf(m, false).Some?
    requires PeaksOf(m, false).value.total < U64_MAX
    ensures m.kernels[i].scratch.value.standard <= PeaksOf(m, false).value.total
    ensures m.kernels[i].scratch.value.interleaved <= PeaksOf(m, false).value.total
  {
    hide Subject.Ready, PlanFor, ScratchKnown, AllMeasurable, AllResolve, PeaksAfter, UsageAt;
    var s := StorageOf(m, false);
    assert s.Scratch(i + 1, 0) == m.kernels[i].scratch.value;
    UsageIsBelowPeak(s, i + 1, 0, |m.kernels| + 1);
  }

  /** The column, as the one tile of an analysis, attains its own sizes. */
  lemma BoundsItself(s: Storage)
    requires s.Valid() && s.tiles == 1
    ensures Bounds(s, s) && Attained(s, s)
  {
  }

  lemma SmallProduct(a: nat, b: nat, limit: nat)
    requires a <= limit && b <= limit && limit < 0x1_0000_0000
    ensures a * b <= U64_MAX
  {
    DivMod.MulMonotone(a, 0xFFFF_FFFF, b);
    DivMod.MulMonotone(b, 0xFFFF_FFFF, 0xFFFF_FFFF);
  }

  /** Where the column fits, scratch is spread without overflow. */
  lemma PartsKnown(m: Subject, limits: Limits, i: nat, o: nat)
    requires m.Ready() && Known(m, false) && i < |m.kernels| && limits.planned < 0x1_0000_0000
    requires Accepted(PeaksOf(m, false), limits) && m.kernels[i].scratch.value.Total() > 0
    requires o < |ResultShards(m, i).owners| && ResultShards(m, i).owners[o].Some?
    ensures PartKnown(ResultShards(m, i), m.kernels[i].scratch.value, o)
  {
    hide Validated, PlanFor, RootsOf, ScratchKnown, AllMeasurable, AllResolve, PeaksAfter, UsageAt, LiveAt, StorageOf;
    var s, scratch, n := StorageOf(m, false), m.kernels[i].scratch.value, |m.kernels|;
    var peak := PeaksAfter(s, n + 1).value.total;
    ScratchBelowPeak(m, i);
    HasResult(m, i);
    var v := m.Steps()[i].results[0];
    ResultIsLive(m, i);
    ColumnHolds(m, v);
    BoundsItself(s);
    LiveRootIsSmall(s, s, i + 1, n, RootsOf(m.program)[v]);
    SmallProduct(scratch.standard, ResultShards(m, i).elements[o], limits.planned);
    SmallProduct(scratch.interleaved, ResultShards(m, i).elements[o], limits.planned);
  }

  /** A fitting column lets every tile be analysed, if owners are known. */
  lemma KnownTiles(m: Subject, limits: Limits)
    requires m.Ready() && Accepted(PeaksOf(m, false), limits) && limits.planned < 0x1_0000_0000
    ensures Known(m, false) && (OwnersKnown(m) <==> Known(m, true))
  {
    hide Validated, PlanFor, RootsOf, PeaksAfter, ValuesOf, PartKnown, Needs, StorageOf;
    ColumnsValid(ValuesOf(m), |m.shards|, m.tiles);
    MeasurableBelow(ValuesOf(m), |m.shards|, m.tiles);
    DataOwners(m);
    forall i | 0 <= i < |m.kernels|
      ensures ResultOwnersKnown(m, i) <==> ScratchKnown(m, i)
    {
      ScratchOwners(m, limits, i);
    }
  }

  lemma DataOwners(m: Subject)
    requires m.Ready() && AllResolve(m)
    ensures (forall v :: 0 <= v < |m.shards| && m.shards[v].Some? ==> DataOwnersKnown(m.shards[v].value)) <==>
            (forall k, o :: 0 <= k < |ValuesOf(m)| && 0 <= o < |ValuesOf(m)[k].elements| ==> OwnerKnown(ValuesOf(m)[k], o))
  {
    hide Validated, RootsOf, KernelReady;
    var values := ValuesOf(m);
    forall v | 0 <= v < |m.shards|
      ensures m.shards[v].Some? && |values[v].elements| == |values[v].owners|
      ensures DataOwnersKnown(m.shards[v].value) <==> forall o :: 0 <= o < |values[v].elements| ==> OwnerKnown(values[v], o)
    {
      assert Resolves(m.shards[v], m.tiles);
      DataOwnersOf(m.shards[v].value, values[v]);
    }
  }

  lemma DataOwnersOf(s: Shards, v: Value)
    requires s.precision == v.precision > 0 && s.elements == v.elements && s.owners == v.owners && |s.elements| == |s.owners|
    ensures DataOwnersKnown(s) <==> forall o :: 0 <= o < |v.elements| ==> OwnerKnown(v, o)
  {
    forall o | 0 <= o < |v.elements|
      ensures OwnerKnown(v, o) <==> s.elements[o] > 0 ==> s.owners[o].Some?
    {
      ProductIsZero(v.elements[o], v.precision);
    }
  }

  lemma ProductIsZero(a: nat, b: nat)
    requires b > 0
    ensures a * b == 0 <==> a == 0
  {
    if a > 0 {
      DivMod.MulMonotone(1, a, b);
    }
  }

  lemma ScratchOwners(m: Subject, limits: Limits, i: nat)
    requires m.Ready() && Accepted(PeaksOf(m, false), limits) && limits.planned < 0x1_0000_0000 && i < |m.kernels|
    ensures Known(m, false) && (ResultOwnersKnown(m, i) <==> ScratchKnown(m, i))
  {
    hide Validated, PlanFor, RootsOf, PeaksAfter, ValuesOf, TileScratch, StorageOf, AllMeasurable;
    if m.kernels[i].scratch.value.Total() > 0 {
      HasResult(m, i);
      var s := ResultShards(m, i);
      forall o | 0 <= o < |s.owners|
        ensures s.owners[o].Some? <==> PartKnown(s, m.kernels[i].scratch.value, o)
      {
        if s.owners[o].Some? {
          PartsKnown(m, limits, i, o);
        }
      }
    }
  }

  /** What is known of the tiles includes their owners. */
  lemma KnownOwners(m: Subject)
    requires m.Ready() && Known(m, true)
    ensures OwnersKnown(m)
  {
    hide Validated, RootsOf, TileScratch, ScratchKnown, ResultOwnersKnown, DataOwnersKnown, OwnerKnown, ValuesOf;
    KnownColumn(m);
    ColumnsValid(ValuesOf(m), |m.shards|, m.tiles);
    MeasurableBelow(ValuesOf(m), |m.shards|, m.tiles);
    DataOwners(m);
    forall i | 0 <= i < |m.kernels|
      ensures ResultOwnersKnown(m, i)
    {
      assert ScratchKnown(m, i);
      ScratchHasOwners(m, i);
    }
  }

  lemma ScratchHasOwners(m: Subject, i: nat)
    requires m.Ready() && AllResolve(m) && AllPriced(m) && i < |m.kernels| && ScratchKnown(m, i)
    ensures ResultOwnersKnown(m, i)
  {
    hide Validated, TileScratch;
    if m.kernels[i].scratch.value.Total() > 0 {
      HasResult(m, i);
      var s := ResultShards(m, i);
      forall o | 0 <= o < |s.owners|
        ensures s.owners[o].Some?
      {
        assert PartKnown(s, m.kernels[i].scratch.value, o);
      }
    }
  }

  // ---------------------------------------------------------------------------
  // The screen
  // ---------------------------------------------------------------------------

  /** What the planner reports: the column's peaks if they fit, else those of every tile. */
  ghost function Screened(m: Subject, limits: Limits): Option<Peaks>
    requires m.Ready()
  {
    if Accepted(PeaksOf(m, false), limits) then PeaksOf(m, false)
    else if PeaksOf(m, false).None? then None
    else PeaksOf(m, true)
  }

  /** Values have 32-bit numbers, and memory limits are 32-bit sizes. The analysis of every tile
      accepts exactly the programs that the screen accepts and whose shards have owners. */
  lemma ScreenAccepts(m: Subject, limits: Limits)
    requires m.Ready() && |m.shards| <= 0x1_0000_0000 && limits.planned < 0x1_0000_0000
    ensures Accepted(PeaksOf(m, true), limits) <==> Accepted(Screened(m, limits), limits) && OwnersKnown(m)
  {
    hide Subject.Ready, Known, OwnersKnown, StorageOf, PeaksAfter, Accepted;
    if Accepted(PeaksOf(m, false), limits) {
      KnownTiles(m, limits);
    }
    if Known(m, true) {
      KnownOwners(m);
      ScreenOfForms(m, limits);
    }
    NothingAccepted(limits);
  }

  lemma NothingAccepted(limits: Limits)
    ensures !Accepted(None, limits)
  {
  }

  lemma ScreenOfForms(m: Subject, limits: Limits)
    requires m.Ready() && Known(m, true) && |m.shards| <= 0x1_0000_0000 && limits.planned < 0x1_0000_0000
    ensures Accepted(Screened(m, limits), limits) <==> Accepted(PeaksOf(m, true), limits)
  {
    hide Subject.Ready, Known, StorageOf, PeaksAfter, Fits, Bounds, Attained;
    KnownColumn(m);
    FormsAttained(m);
    RootsFit(|m.shards|, limits.planned);
    ScreenIsExact(StorageOf(m, false), StorageOf(m, true), limits);
  }

  lemma RootsFit(roots: nat, planned: nat)
    requires roots <= 0x1_0000_0000 && planned < 0x1_0000_0000
    ensures roots * planned <= U64_MAX
  {
    DivMod.MulMonotone(roots, 0x1_0000_0000, planned);
  }

  // ---------------------------------------------------------------------------
  // The analysis
  // ---------------------------------------------------------------------------

  method MarkInputs(p: Program, roots: seq<nat>) returns (live: array<bool>)
    requires AreRoots(roots) && forall i :: 0 <= i < |p.inputs| ==> p.inputs[i].value < |roots|
    ensures fresh(live) && live.Length == |roots|
    ensures forall id :: 0 <= id < |roots| ==> (live[id] <==> id in RootSet(roots, InputValues(p)))
  {
    live := new bool[|roots|](_ => false);
    for i := 0 to |p.inputs|
      invariant forall id :: 0 <= id < |roots| ==> (live[id] <==> exists j :: 0 <= j < i && roots[p.inputs[j].value] == id)
    {
      live[roots[p.inputs[i].value]] := true;
    }
    forall id | 0 <= id < |roots|
      ensures live[id] <==> id in RootSet(roots, InputValues(p))
    {
      InputRoots(p, roots, id);
    }
  }

  lemma InputRoots(p: Program, roots: seq<nat>, id: nat)
    requires forall i :: 0 <= i < |p.inputs| ==> p.inputs[i].value < |roots|
    ensures id in RootSet(roots, InputValues(p)) <==> exists j :: 0 <= j < |p.inputs| && roots[p.inputs[j].value] == id
  {
    if j :| 0 <= j < |p.inputs| && roots[p.inputs[j].value] == id {
      assert p.inputs[j].value in InputValues(p);
    }
    if id in RootSet(roots, InputValues(p)) {
      var v :| v in InputValues(p) && v < |roots| && roots[v] == id;
      var j :| 0 <= j < |p.inputs| && p.inputs[j].value == v;
    }
  }

  function AllTouched(roots: seq<nat>, steps: seq<Operation>): (r: seq<seq<nat>>)
    requires forall i :: 0 <= i < |steps| ==> OperationInRange(steps[i], |roots|)
  {
    seq(|steps|, i requires 0 <= i < |steps| => TouchedRoots(roots, steps[i]))
  }

  /** Aliases, classes, live inputs and last uses of a validated program. */
  method BuildPlan(p: Program) returns (roots: seq<nat>, plan: Plan)
    requires Validated(p)
    ensures roots == RootsOf(p) && plan == PlanOf(Rooted(p))
  {
    hide Flatten, AllPairs, ValidRegion, Needed, LastIndex, LiveAt, Run, RootSet;
    var rooted, last := Analyze(p);
    roots := rooted.roots;
    var classes := ClassesOf(p.classes, roots);
    var live := MarkInputs(p, roots);
    plan := Plan(classes[..], live[..], AllTouched(roots, Flatten(p.operations)), last[..]);
    LastKeeps(p);
    RootedPlan(p);
    assert plan.initial == PlanOf(Rooted(p)).initial;
  }

  lemma RootedPlan(p: Program)
    requires Validated(p)
    ensures var plan, roots := PlanOf(Rooted(p)), RootsOf(p);
      && plan.classes == RootClasses(p.classes, roots, |p.classes|)
      && plan.touched == AllTouched(roots, Flatten(p.operations))
      && |plan.initial| == |roots|
      && forall id :: 0 <= id < |roots| ==> (plan.initial[id] <==> id in RootSet(roots, InputValues(p)))
  {
    hide Flatten, AllPairs, ValidRegion, RootSet, LastIndex, TouchedRoots, RootsOf;
    assert InputValues(Rooted(p)) == InputValues(p);
    assert PlanOf(Rooted(p)).touched == AllTouched(RootsOf(p), Flatten(p.operations));
  }

  /** The classes have no part in the last uses. */
  lemma LastKeeps(p: Program)
    requires Validated(p)
    ensures Numbered(p.(roots := RootsOf(p))) && PlanOf(Rooted(p)).last == PlanOf(p.(roots := RootsOf(p))).last
  {
    hide Flatten, AllPairs, ValidRegion, RootSet, LastUse;
    LabelsAreRoots(p);
    var a, b := Rooted(p), p.(roots := RootsOf(p));
    forall id | 0 <= id < |a.roots|
      ensures PlanOf(a).last[id] == PlanOf(b).last[id]
    {
      assert KeptValues(a) == KeptValues(b);
    }
    assert PlanOf(a).last == PlanOf(b).last;
  }

  ghost predicate RowHolds(row: seq<nat>, bytes: array2<nat>, id: nat)
    requires id < bytes.Length0
    reads bytes
  {
    |row| == bytes.Length1 && forall t :: 0 <= t < bytes.Length1 ==> row[t] == bytes[id, t]
  }

  method RowsFrom(bytes: array2<nat>) returns (rows: seq<seq<nat>>)
    ensures |rows| == bytes.Length0 && forall id :: 0 <= id < |rows| ==> RowHolds(rows[id], bytes, id)
  {
    rows := [];
    for id := 0 to bytes.Length0
      invariant |rows| == id && forall k :: 0 <= k < id ==> RowHolds(rows[k], bytes, k)
    {
      var row := [];
      for t := 0 to bytes.Length1
        invariant |row| == t && forall u :: 0 <= u < t ==> row[u] == bytes[id, u]
      {
        row := row + [bytes[id, t]];
      }
      rows := rows + [row];
    }
  }

  method ListValues(m: Subject, roots: seq<nat>) returns (values: seq<Value>)
    requires m.Ready() && AllResolve(m) && roots == RootsOf(m.program)
    ensures values == ValuesOf(m)
  {
    hide Validated, RootsOf, ElementRoots, Tails, Shards.Valid;
    var element, tail := MarkProducts(m.Steps(), m.kernels, roots);
    values := [];
    for v := 0 to |m.shards|
      invariant values == ValuesOf(m)[..v]
    {
      var value := ValueOf(roots[v], m.program.classes[v], element[roots[v]], tail[roots[v]],
                           CopiesOf(m.program.copies, v), m.shards[v].value);
      assert value == ValuesOf(m)[v];
      values := values + [value];
    }
  }

  /** What every root needs, or nothing if some value cannot be measured. */
  method MeasureForm(m: Subject, perTile: bool, roots: seq<nat>) returns (ok: bool, rows: seq<seq<nat>>)
    requires m.Ready() && AllResolve(m) && roots == RootsOf(m.program)
    ensures ok <==> AllMeasurable(FormValues(m, perTile), |m.shards|, FormTiles(m, perTile))
    ensures ok ==> rows == RowsOf(FormValues(m, perTile), FormTiles(m, perTile))
  {
    hide Subject.Ready, RootsOf, Needs, AllMeasurable, ValuesOf, AllResolve;
    var values := ListValues(m, roots);
    var form, tiles := if perTile then values else Columns(values), if perTile then m.tiles else 1;
    assert form == FormValues(m, perTile);
    var bytes;
    ok, bytes := Measure(form, |m.shards|, tiles);
    rows := RowsFrom(bytes);
    if ok {
      forall id | 0 <= id < |rows|
        ensures rows[id] == RowOf(form, tiles, id)
      {
        assert RowHolds(rows[id], bytes, id);
      }
    }
  }

  method SpreadAll(m: Subject) returns (ok: bool, scratch: seq<seq<Usage>>)
    requires m.Ready() && AllResolve(m) && AllPriced(m)
    ensures ok <==> forall i :: 0 <= i < |m.kernels| ==> ScratchKnown(m, i)
    ensures ok ==> scratch == AllScratch(m, true)
  {
    hide Validated, PartKnown;
    scratch := [];
    for i := 0 to |m.kernels|
      invariant |scratch| == i
      invariant forall j :: 0 <= j < i ==> ScratchKnown(m, j) && scratch[j] == FormScratch(m, true, j)
    {
      var whole := m.kernels[i].scratch.value;
      var parts := seq(m.tiles, _ => Usage(0, 0));
      if whole.Total() > 0 {
        HasResult(m, i);
        var spread;
        ok, spread := SpreadScratch(ResultShards(m, i), whole, m.tiles);
        if !ok {
          assert !ScratchKnown(m, i);
          return;
        }
        parts := spread[..];
      }
      assert parts == FormScratch(m, true, i);
      scratch := scratch + [parts];
    }
    ok := true;
  }

  method CanStart(m: Subject) returns (ok: bool)
    requires m.Ready()
    ensures ok <==> AllResolve(m) && AllPriced(m)
  {
    for v := 0 to |m.shards|
      invariant forall u :: 0 <= u < v ==> Resolves(m.shards[u], m.tiles)
    {
      if !Resolves(m.shards[v], m.tiles) {
        return false;
      }
    }
    for i := 0 to |m.kernels|
      invariant forall j :: 0 <= j < i ==> m.kernels[j].scratch.Some?
    {
      if m.kernels[i].scratch.None? {
        return false;
      }
    }
    ok := true;
  }

  /** One form of the analysis, from the program to its peaks. */
  method AnalyzeStorage(m: Subject, perTile: bool) returns (r: Option<Peaks>)
    requires m.Ready()
    ensures r == PeaksOf(m, perTile)
  {
    hide Validated, RootsOf, PlanOf, AllMeasurable, ScratchKnown, PeaksAfter, FormValues, RowsOf;
    var ok := CanStart(m);
    if !ok {
      return None;
    }
    var roots, plan := BuildPlan(m.program);
    var rows;
    ok, rows := MeasureForm(m, perTile, roots);
    if !ok {
      return None;
    }
    var scratch := seq(|m.kernels|, i requires 0 <= i < |m.kernels| && m.kernels[i].scratch.Some? => [m.kernels[i].scratch.value]);
    if perTile {
      ok, scratch := SpreadAll(m);
      if !ok {
        return None;
      }
    }
    var kernel := seq(|m.kernels|, i requires 0 <= i < |m.kernels| && m.kernels[i].scratch.Some? => m.kernels[i].scratch.value.standard);
    assert scratch == AllScratch(m, perTile);
    assert kernel == StandardScratch(m);
    var s := Storage(plan, if perTile then m.tiles else 1, rows, scratch, kernel);
    assert s == StorageOf(m, perTile);
    r := StorageSweep.Sweep(s);
  }

  /** The planner's capacity screen. Every tile's own analysis accepts exactly the programs that
      the screen accepts and whose shards have owners. */
  method AnalyzeWithBudget(m: Subject, limits: Limits) returns (r: Option<Peaks>)
    requires m.Ready() && |m.shards| <= 0x1_0000_0000 && limits.planned < 0x1_0000_0000
    ensures r == Screened(m, limits)
    ensures Accepted(PeaksOf(m, true), limits) <==> Accepted(r, limits) && OwnersKnown(m)
  {
    hide Subject.Ready, PeaksOf, OwnersKnown, Fits;
    ScreenAccepts(m, limits);
    r := AnalyzeStorage(m, false);
    if r.None? || Fits(r.value, limits) {
      return;
    }
    r := AnalyzeStorage(m, true);
  }
}
