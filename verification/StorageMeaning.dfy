/** What the memory analysis reports and accepts, in terms of the program, its shards and its limits
    (crates/ipu-codegen/src/estimate/mid.rs).

    A `Picture` of a program says which values share storage, which storage is live in which step,
    what it needs on each tile and how much scratch a step takes there, each by a law of its own on
    the program alone. The module proves that the reported peaks are the largest sums of the picture,
    and that a program is accepted exactly when every tile has room in every step. */
module StorageMeaning {
  import opened Saturating
  import opened StorageAccounting
  import opened StorageAnalysis
  import opened StorageLiveness
  import opened StoragePlan
  import opened StorageSizes
  import opened StorageScreen
  import opened StorageNeeds
  import AliasRoots

  // ---------------------------------------------------------------------------
  // Shared storage
  // ---------------------------------------------------------------------------

  /** The labels join a result with the input that it aliases, and what a repeat passes into its
      body: its inputs, which are also its results, and the first of each iterated list. */
  ghost predicate Shares(f: seq<nat>, o: Operation) {
    && (forall k :: 0 <= k < |o.aliases| ==>
          o.aliases[k].0 < |o.results| && o.aliases[k].1 < |o.inputs| && SameRoot(f, o.results[o.aliases[k].0], o.inputs[o.aliases[k].1]))
    && (o.Repeat? ==>
          && (forall k :: 0 <= k < |o.inputs| && k < |o.arguments| ==> SameRoot(f, o.arguments[k], o.inputs[k]))
          && (forall k :: 0 <= k < |o.inputs| && k < |o.results| ==> SameRoot(f, o.results[k], o.inputs[k]))
          && (forall k :: 0 <= k < |o.iterated| && |o.inputs| + k < |o.arguments| ==>
                o.iterated[k] != [] && SameRoot(f, o.arguments[|o.inputs| + k], o.iterated[k][0])))
  }

  ghost predicate AllShare(f: seq<nat>, steps: seq<Operation>) {
    forall i :: 0 <= i < |steps| ==> Shares(f, steps[i])
  }

  /** The roots join what the steps make share storage and nothing else, and each is the first value
      of its class. */
  ghost predicate AreRootsOf(roots: seq<nat>, steps: seq<Operation>, n: nat) {
    && |roots| == n && AllShare(roots, steps)
    && (forall v :: 0 <= v < n ==> roots[v] <= v && roots[roots[v]] == roots[v])
    && forall f: seq<nat>, v: nat :: |f| == n && AllShare(f, steps) && v < n ==> SameRoot(f, roots[v], v)
  }

  lemma ZipJoins(f: seq<nat>, a: seq<nat>, b: seq<nat>)
    ensures Joins(f, Zip(a, b)) <==> forall k :: 0 <= k < |a| && k < |b| ==> SameRoot(f, a[k], b[k])
  {
    var pairs := Zip(a, b);
    if Joins(f, pairs) {
      forall k | 0 <= k < |a| && k < |b|
        ensures SameRoot(f, a[k], b[k])
      {
        assert SameRoot(f, pairs[k].0, pairs[k].1);
      }
    }
  }

  lemma OwnJoins(f: seq<nat>, o: Operation, own: seq<(nat, nat)>)
    requires Paired(o) && |own| == |o.aliases|
    requires forall k :: 0 <= k < |own| ==> own[k] == (o.results[o.aliases[k].0], o.inputs[o.aliases[k].1])
    ensures Joins(f, own) <==>
            forall k :: 0 <= k < |o.aliases| ==> SameRoot(f, o.results[o.aliases[k].0], o.inputs[o.aliases[k].1])
  {
  }

  /** A step's alias pairs join just that. */
  lemma PairsShare(f: seq<nat>, o: Operation)
    requires Paired(o)
    ensures Joins(f, PairsOf(o)) <==> Shares(f, o)
  {
    hide Joins, Zip, Firsts, SameRoot;
    var own := seq(|o.aliases|, k requires 0 <= k < |o.aliases| => (o.results[o.aliases[k].0], o.inputs[o.aliases[k].1]));
    OwnJoins(f, o, own);
    if o.Repeat? {
      var rest, firsts := o.arguments[|o.inputs|..], Firsts(o.iterated);
      var arguments, results, iterated := Zip(o.arguments, o.inputs), Zip(o.results, o.inputs), Zip(rest, firsts);
      assert PairsOf(o) == own + ((arguments + results) + iterated);
      JoinsParts(f, own, (arguments + results) + iterated);
      JoinsParts(f, arguments + results, iterated);
      JoinsParts(f, arguments, results);
      ZipJoins(f, o.arguments, o.inputs);
      ZipJoins(f, o.results, o.inputs);
      ZipJoins(f, rest, firsts);
      RestShares(f, o, rest, firsts);
    } else {
      assert PairsOf(o) == own;
    }
  }

  lemma RestShares(f: seq<nat>, o: Operation, rest: seq<nat>, firsts: seq<nat>)
    requires o.Repeat? && Paired(o) && rest == o.arguments[|o.inputs|..] && firsts == Firsts(o.iterated)
    ensures (forall k :: 0 <= k < |rest| && k < |firsts| ==> SameRoot(f, rest[k], firsts[k])) <==>
            forall k :: 0 <= k < |o.iterated| && |o.inputs| + k < |o.arguments| ==>
              o.iterated[k] != [] && SameRoot(f, o.arguments[|o.inputs| + k], o.iterated[k][0])
  {
    forall k | 0 <= k < |o.iterated| && |o.inputs| + k < |o.arguments|
      ensures o.iterated[k] != [] && rest[k] == o.arguments[|o.inputs| + k] && firsts[k] == o.iterated[k][0]
    {
    }
  }

  lemma {:induction false} AllPairsShare(f: seq<nat>, steps: seq<Operation>)
    requires AllPaired(steps)
    ensures Joins(f, AllPairs(steps)) <==> AllShare(f, steps)
  {
    hide Joins, Shares, PairsOf, Paired;
    if steps == [] {
      NoPairs(f);
    } else {
      var n := |steps| - 1;
      AllPairsShare(f, steps[..n]);
      PairsShare(f, steps[n]);
      JoinsParts(f, AllPairs(steps[..n]), PairsOf(steps[n]));
      assert steps == steps[..n] + [steps[n]];
    }
  }

  lemma NoPairs(f: seq<nat>)
    ensures Joins(f, [])
  {
  }

  /** The roots that the analysis finds. */
  lemma RootsAre(p: Program)
    requires Validated(p)
    ensures AreRootsOf(RootsOf(p), Flatten(p.operations), |p.classes|)
  {
    hide Flatten, Shares, Paired, PairsOf, AllPairs, ValidRegion, Numbered;
    LabelsAreRoots(p);
    var steps, n := Flatten(p.operations), |p.classes|;
    var pairs := AllPairs(steps);
    AliasRoots.LabelsAreLeast(pairs, n);
    AllPairsShare(RootsOf(p), steps);
    forall k | 0 <= k < |pairs|
      ensures SameRoot(RootsOf(p), pairs[k].0, pairs[k].1)
    {
      AliasRoots.LabelsJoin(pairs, n, k);
    }
    forall f: seq<nat>, v: nat | |f| == n && AllShare(f, steps) && v < n
      ensures SameRoot(f, RootsOf(p)[v], v)
    {
      AllPairsShare(f, steps);
      JoinedColours(f, pairs);
      AliasRoots.LabelsAreFinest(pairs, n, f, v);
    }
  }

  lemma JoinedColours(f: seq<nat>, pairs: seq<(nat, nat)>)
    requires Joins(f, pairs) && AliasRoots.InRange(pairs, |f|)
    ensures forall k :: 0 <= k < |pairs| ==> f[pairs[k].0] == f[pairs[k].1]
  {
    forall k | 0 <= k < |pairs|
      ensures f[pairs[k].0] == f[pairs[k].1]
    {
      assert SameRoot(f, pairs[k].0, pairs[k].1);
    }
  }

  // ---------------------------------------------------------------------------
  // Live storage
  // ---------------------------------------------------------------------------

  /** One of the values has root `r`. */
  ghost predicate Lists(roots: seq<nat>, values: seq<nat>, r: nat) {
    exists k :: 0 <= k < |values| && values[k] < |roots| && roots[values[k]] == r
  }

  ghost predicate TouchedIn(roots: seq<nat>, o: Operation, r: nat) {
    Lists(roots, o.inputs, r) || Lists(roots, o.results, r)
  }

  /** A repeat also uses its iterated values, and the yields that its rounds hand on. */
  ghost predicate UsedIn(roots: seq<nat>, o: Operation, r: nat) {
    || TouchedIn(roots, o, r)
    || (o.Repeat? && (Lists(roots, o.yielded, r) || exists k :: 0 <= k < |o.iterated| && Lists(roots, o.iterated[k], r)))
  }

  ghost predicate IsInput(p: Program, roots: seq<nat>, r: nat) {
    exists k :: 0 <= k < |p.inputs| && p.inputs[k].value < |roots| && roots[p.inputs[k].value] == r
  }

  /** Outputs, parameters and resident sequences of several members are kept to the end. */
  ghost predicate IsKept(p: Program, roots: seq<nat>, r: nat) {
    || Lists(roots, p.outputs, r)
    || (exists k :: 0 <= k < |p.inputs| && p.inputs[k].parameter && p.inputs[k].value < |roots| && roots[p.inputs[k].value] == r)
    || (exists k :: 0 <= k < |p.copies| && p.copies[k].1 > 1 && p.copies[k].0 < |roots| && roots[p.copies[k].0] == r)
  }

  /** Storage is live in step `i` when it is an input or has been touched, and is still used, or
      kept; unused inputs stay for the first step. */
  ghost predicate IsLive(p: Program, roots: seq<nat>, steps: seq<Operation>, i: nat, r: nat) {
    && (IsInput(p, roots, r) || exists j :: 0 <= j <= i && j < |steps| && TouchedIn(roots, steps[j], r))
    && (IsKept(p, roots, r) || i == 0 || exists j :: i <= j < |steps| && UsedIn(roots, steps[j], r))
  }

  /** Entry 0 is the start of the program, entry `i` its step `i - 1`. */
  ghost predicate LiveIn(p: Program, roots: seq<nat>, steps: seq<Operation>, i: nat, r: nat) {
    if i == 0 then IsInput(p, roots, r) else IsLive(p, roots, steps, i - 1, r)
  }

  lemma ListsAre(roots: seq<nat>, values: seq<nat>, r: nat)
    ensures r in RootSet(roots, Values(values)) <==> Lists(roots, values, r)
  {
    if Lists(roots, values, r) {
      var k :| 0 <= k < |values| && values[k] < |roots| && roots[values[k]] == r;
      assert values[k] in Values(values);
    }
  }

  lemma InputsAre(p: Program, roots: seq<nat>, r: nat)
    ensures r in RootSet(roots, InputValues(p)) <==> IsInput(p, roots, r)
  {
    if IsInput(p, roots, r) {
      var k :| 0 <= k < |p.inputs| && p.inputs[k].value < |roots| && roots[p.inputs[k].value] == r;
      assert p.inputs[k].value in InputValues(p);
    }
    if r in RootSet(roots, InputValues(p)) {
      var v :| v in InputValues(p) && v < |roots| && roots[v] == r;
      var input :| input in p.inputs && input.value == v;
    }
  }

  ghost predicate IsParameter(inputs: seq<Input>, k: int, v: nat) {
    0 <= k < |inputs| && inputs[k].parameter && inputs[k].value == v
  }

  ghost predicate IsResident(copies: seq<(nat, nat)>, k: int, v: nat) {
    0 <= k < |copies| && copies[k].1 > 1 && copies[k].0 == v
  }

  lemma {:induction false} ParametersAre(inputs: seq<Input>, v: nat)
    ensures v in Parameters(inputs) <==> exists k :: IsParameter(inputs, k, v)
  {
    if inputs != [] {
      var last := |inputs| - 1;
      ParametersAre(inputs[..last], v);
      forall k
        ensures IsParameter(inputs, k, v) <==> IsParameter(inputs[..last], k, v) || (k == last && inputs[last].parameter && inputs[last].value == v)
      {
      }
      assert inputs[last].parameter && inputs[last].value == v ==> IsParameter(inputs, last, v);
    }
  }

  lemma {:induction false} SequencesAre(copies: seq<(nat, nat)>, v: nat)
    ensures v in Sequences(copies) <==> exists k :: IsResident(copies, k, v)
  {
    if copies != [] {
      var last := |copies| - 1;
      SequencesAre(copies[..last], v);
      forall k
        ensures IsResident(copies, k, v) <==> IsResident(copies[..last], k, v) || (k == last && copies[last].1 > 1 && copies[last].0 == v)
      {
      }
      assert copies[last].1 > 1 && copies[last].0 == v ==> IsResident(copies, last, v);
    }
  }

  lemma KeptAre(p: Program, r: nat)
    ensures r in RootSet(p.roots, KeptValues(p)) <==> IsKept(p, p.roots, r)
  {
    hide Parameters, Sequences;
    var parameters, sequences := Parameters(p.inputs), Sequences(p.copies);
    RootSetJoin(p.roots, Values(p.outputs) + Values(parameters), Values(sequences), r);
    RootSetJoin(p.roots, Values(p.outputs), Values(parameters), r);
    ListsAre(p.roots, p.outputs, r);
    ListsAre(p.roots, parameters, r);
    ListsAre(p.roots, sequences, r);
    ListedParameters(p, r);
    ListedSequences(p, r);
  }

  lemma ListedParameters(p: Program, r: nat)
    ensures Lists(p.roots, Parameters(p.inputs), r) <==>
            exists k :: 0 <= k < |p.inputs| && p.inputs[k].parameter && p.inputs[k].value < |p.roots| && p.roots[p.inputs[k].value] == r
  {
    hide Parameters;
    var list := Parameters(p.inputs);
    if k :| 0 <= k < |list| && list[k] < |p.roots| && p.roots[list[k]] == r {
      ParametersAre(p.inputs, list[k]);
      var j :| IsParameter(p.inputs, j, list[k]);
    }
    if k :| 0 <= k < |p.inputs| && p.inputs[k].parameter && p.inputs[k].value < |p.roots| && p.roots[p.inputs[k].value] == r {
      ParametersAre(p.inputs, p.inputs[k].value);
      assert IsParameter(p.inputs, k, p.inputs[k].value);
    }
  }

  lemma ListedSequences(p: Program, r: nat)
    ensures Lists(p.roots, Sequences(p.copies), r) <==>
            exists k :: 0 <= k < |p.copies| && p.copies[k].1 > 1 && p.copies[k].0 < |p.roots| && p.roots[p.copies[k].0] == r
  {
    hide Sequences;
    var list := Sequences(p.copies);
    if k :| 0 <= k < |list| && list[k] < |p.roots| && p.roots[list[k]] == r {
      SequencesAre(p.copies, list[k]);
      var j :| IsResident(p.copies, j, list[k]);
    }
    if k :| 0 <= k < |p.copies| && p.copies[k].1 > 1 && p.copies[k].0 < |p.roots| && p.roots[p.copies[k].0] == r {
      SequencesAre(p.copies, p.copies[k].0);
      assert IsResident(p.copies, k, p.copies[k].0);
    }
  }

  lemma IteratedAre(roots: seq<nat>, iterated: seq<seq<nat>>, r: nat)
    ensures r in RootSet(roots, AllValues(iterated)) <==> exists k :: 0 <= k < |iterated| && Lists(roots, iterated[k], r)
  {
    if r in RootSet(roots, AllValues(iterated)) {
      var v :| v in AllValues(iterated) && v < |roots| && roots[v] == r;
      var part :| part in iterated && v in part;
      var k :| 0 <= k < |iterated| && iterated[k] == part;
      assert Lists(roots, iterated[k], r);
    }
    if k :| 0 <= k < |iterated| && Lists(roots, iterated[k], r) {
      var j :| 0 <= j < |iterated[k]| && iterated[k][j] < |roots| && roots[iterated[k][j]] == r;
      var part := iterated[k];
      assert part in iterated && part[j] in part;
    }
  }

  lemma UsesAre(c: Context, j: nat, r: nat)
    requires j < |c.steps|
    ensures c.Touches(j, r) <==> TouchedIn(c.roots, c.steps[j], r)
    ensures c.Uses(j, r) <==> UsedIn(c.roots, c.steps[j], r)
  {
    hide RootSet, Values, AllValues, Lists;
    var o := c.steps[j];
    RootSetJoin(c.roots, Values(o.inputs), Values(o.results), r);
    ListsAre(c.roots, o.inputs, r);
    ListsAre(c.roots, o.results, r);
    UsesByPart(c.roots, o, r);
    if o.Repeat? {
      IteratedAre(c.roots, o.iterated, r);
      ListsAre(c.roots, o.yielded, r);
    }
  }

  /** What the analysis takes to be live, in its entries before and after each step. */
  lemma LiveAre(p: Program, i: nat, r: nat)
    requires Numbered(p) && i <= |Flatten(p.operations)| && r < |p.roots|
    ensures LiveAt(PlanOf(p), i)[r] <==> LiveIn(p, p.roots, Flatten(p.operations), i, r)
  {
    hide RootSet, Flatten, KeptValues, Values, ReadValues, IsInput, IsKept, Lists, TouchedIn, UsedIn, Context.Uses, Context.Touches;
    var c := Context(p.roots, Flatten(p.operations));
    InputsAre(p, p.roots, r);
    if i > 0 {
      StorageLiveness.LiveIff(p, i - 1, r);
      KeptAre(p, r);
      forall j: nat | j < |c.steps|
        ensures c.Touches(j, r) <==> TouchedIn(c.roots, c.steps[j], r)
        ensures c.Uses(j, r) <==> UsedIn(c.roots, c.steps[j], r)
      {
        UsesAre(c, j, r);
      }
    }
  }

  // ---------------------------------------------------------------------------
  // The picture of a program
  // ---------------------------------------------------------------------------

  /** The root of every value; of every root its memory class, its bytes on each tile and whether it
      is live, at the start and in each step; and the scratch of each step on each tile. */
  datatype Picture = Picture(roots: seq<nat>, classes: seq<MemoryClass>, live: seq<seq<bool>>,
                             bytes: seq<seq<nat>>, scratch: seq<seq<Usage>>, tiles: nat) {
    /** What the first `k` live roots of a class take on tile `t`. */
    ghost function Held(i: nat, t: nat, class_: MemoryClass, k: nat): nat
      requires i < |live| && k <= |live[i]| == |classes| == |bytes|
      requires t < tiles && forall r :: 0 <= r < |bytes| ==> |bytes[r]| == tiles
    {
      if k == 0 then 0
      else Held(i, t, class_, k - 1) + if live[i][k - 1] && classes[k - 1] == class_ then bytes[k - 1][t] else 0
    }

    ghost predicate Sized() {
      && |classes| == |bytes| == |roots| && |live| == |scratch| + 1
      && (forall i :: 0 <= i < |live| ==> |live[i]| == |classes|)
      && (forall r :: 0 <= r < |bytes| ==> |bytes[r]| == tiles)
      && (forall i :: 0 <= i < |scratch| ==> |scratch[i]| == tiles)
    }

    /** What tile `t` uses in entry `i`: its live roots, and the scratch of the step. */
    ghost function Used(i: nat, t: nat): (r: Usage)
      requires Sized() && i < |live| && t < tiles
    {
      var scratch := if i == 0 then Usage(0, 0) else scratch[i - 1][t];
      Usage(Held(i, t, Standard, |classes|) + scratch.standard, Held(i, t, Interleaved, |classes|) + scratch.interleaved)
    }

    /** Root `r` is live in standard memory. */
    ghost predicate InStandard(i: int, r: int) {
      0 <= i < |live| && 0 <= r < |live[i]| && r < |classes| && live[i][r] && classes[r].Standard?
    }
  }

  /** A root has the class of the last of its values. */
  ghost predicate HasClass(p: Program, roots: seq<nat>, r: nat, class_: MemoryClass)
    requires |roots| == |p.classes|
  {
    exists v :: 0 <= v < |roots| && roots[v] == r && class_ == p.classes[v] && forall u :: v < u < |roots| ==> roots[u] != r
  }

  /** Every part of the picture obeys its law. */
  ghost predicate Draws(m: Subject, perTile: bool, w: Picture)
    requires m.Ready() && AllResolve(m) && AllPriced(m)
  {
    && w.Sized() && |w.roots| == |m.shards| && |w.scratch| == |m.kernels| && w.tiles == (if perTile then m.tiles else 1)
    && AreRootsOf(w.roots, m.Steps(), |m.shards|)
    && DrawsClasses(m.program, w) && DrawsLives(m.program, w, m.Steps())
    && DrawsBytes(m, perTile, w) && DrawsScratch(m, perTile, w)
  }

  ghost predicate DrawsClasses(p: Program, w: Picture)
    requires w.Sized() && |w.roots| == |p.classes|
  {
    forall r :: 0 <= r < |w.roots| && r in w.roots ==> HasClass(p, w.roots, r, w.classes[r])
  }

  ghost predicate DrawsLives(p: Program, w: Picture, steps: seq<Operation>)
    requires w.Sized() && |w.scratch| == |steps|
  {
    forall i, r :: 0 <= i <= |steps| && 0 <= r < |w.roots| ==> (w.live[i][r] <==> LiveIn(p, w.roots, steps, i, r))
  }

  ghost predicate DrawsBytes(m: Subject, perTile: bool, w: Picture)
    requires w.Sized() && |w.roots| == |m.shards| == |m.program.classes|
  {
    forall r, t :: 0 <= r < |w.roots| && 0 <= t < w.tiles ==> RowIs(m, perTile, w.roots, r, t, w.bytes[r][t])
  }

  ghost predicate DrawsScratch(m: Subject, perTile: bool, w: Picture)
    requires m.Ready() && AllResolve(m) && AllPriced(m) && w.Sized() && |w.scratch| == |m.kernels|
  {
    forall i, t :: 0 <= i < |w.scratch| && 0 <= t < w.tiles ==> ScratchIs(m, perTile, i, t, w.scratch[i][t])
  }

  lemma {:induction false} ClassIsLast(classes: seq<MemoryClass>, roots: seq<nat>, k: nat, r: nat)
    requires k <= |classes| == |roots| && AreRoots(roots) && r < |roots| && exists v :: 0 <= v < k && roots[v] == r
    ensures exists v :: 0 <= v < k && roots[v] == r && RootClasses(classes, roots, k)[r] == classes[v] && forall u :: v < u < k ==> roots[u] != r
  {
    if roots[k - 1] != r {
      ClassIsLast(classes, roots, k - 1, r);
    }
  }

  ghost function PictureOf(s: Storage, roots: seq<nat>): Picture
    requires s.Valid()
  {
    Picture(roots, s.plan.classes, seq(|s.plan.touched| + 1, i requires 0 <= i <= |s.plan.touched| => LiveAt(s.plan, i)),
            s.bytes, s.scratch, s.tiles)
  }

  lemma PictureIsSized(s: Storage, roots: seq<nat>)
    requires s.Valid() && |roots| == |s.plan.classes|
    ensures PictureOf(s, roots).Sized()
  {
    hide LiveAt;
  }

  /** The analysis works on the picture of its program. */
  lemma PictureIsDrawn(m: Subject, perTile: bool)
    requires m.Ready() && Known(m, perTile)
    ensures Draws(m, perTile, PictureOf(StorageOf(m, perTile), RootsOf(m.program)))
  {
    hide Validated, PlanFor, RootsOf, StorageOf, ScratchKnown, AllMeasurable, AreRootsOf, Flatten;
    hide DrawsClasses, DrawsLives, DrawsBytes, DrawsScratch, PictureOf;
    PictureHolds(m, perTile);
    RootsAre(m.program);
    ClassesAreDrawn(m, perTile);
    LivesAreDrawn(m, perTile);
    BytesAreDrawn(m, perTile);
    ScratchIsDrawn(m, perTile);
  }

  lemma PictureHolds(m: Subject, perTile: bool)
    requires m.Ready() && Known(m, perTile)
    ensures var s, roots := StorageOf(m, perTile), RootsOf(m.program); var w := PictureOf(s, roots);
      && w.Sized() && w.roots == roots && |roots| == |m.shards| == |m.program.classes|
      && |w.scratch| == |m.kernels| && w.tiles == FormTiles(m, perTile) && w.classes == PlanFor(m).classes
      && w.bytes == s.bytes && w.scratch == s.scratch
      && forall i :: 0 <= i < |w.live| ==> w.live[i] == LiveAt(PlanFor(m), i)
  {
    hide Validated, PlanFor, RootsOf, ScratchKnown, AllMeasurable, LiveAt;
    PictureIsSized(StorageOf(m, perTile), RootsOf(m.program));
  }

  lemma ClassesAreDrawn(m: Subject, perTile: bool)
    requires m.Ready() && Known(m, perTile)
    ensures var w := PictureOf(StorageOf(m, perTile), RootsOf(m.program));
      w.Sized() && |w.roots| == |m.program.classes| && DrawsClasses(m.program, w)
  {
    hide Validated, RootsOf, PlanFor, StorageOf, PictureOf, RootClasses, HasClass;
    PictureHolds(m, perTile);
    var roots := RootsOf(m.program);
    forall r | 0 <= r < |roots| && r in roots
      ensures HasClass(m.program, roots, r, PlanFor(m).classes[r])
    {
      RootHasClass(m, r);
    }
  }

  lemma RootHasClass(m: Subject, r: nat)
    requires m.Ready() && r in RootsOf(m.program)
    ensures |RootsOf(m.program)| == |m.program.classes| == |PlanFor(m).classes| && r < |m.shards|
    ensures HasClass(m.program, RootsOf(m.program), r, PlanFor(m).classes[r])
  {
    hide Validated, RootsOf;
    var roots := RootsOf(m.program);
    ClassIsLast(m.program.classes, roots, |roots|, r);
  }

  lemma LivesAreDrawn(m: Subject, perTile: bool)
    requires m.Ready() && Known(m, perTile)
    ensures var w := PictureOf(StorageOf(m, perTile), RootsOf(m.program));
      w.Sized() && |w.scratch| == |m.Steps()| && DrawsLives(m.program, w, m.Steps())
  {
    hide Validated, RootsOf, PlanFor, StorageOf, PictureOf, LiveAt, LiveIn, Flatten;
    PictureHolds(m, perTile);
    var w, roots := PictureOf(StorageOf(m, perTile), RootsOf(m.program)), RootsOf(m.program);
    forall i, r | 0 <= i <= |m.Steps()| && 0 <= r < |m.shards|
      ensures w.live[i][r] <==> LiveIn(m.program, roots, m.Steps(), i, r)
    {
      PlanLives(m, i, r);
    }
  }

  lemma BytesAreDrawn(m: Subject, perTile: bool)
    requires m.Ready() && Known(m, perTile)
    ensures var w := PictureOf(StorageOf(m, perTile), RootsOf(m.program));
      w.Sized() && |w.roots| == |m.shards| == |m.program.classes| && DrawsBytes(m, perTile, w)
  {
    hide Validated, RootsOf, PlanFor, StorageOf, PictureOf, RowIs;
    PictureHolds(m, perTile);
    var w := PictureOf(StorageOf(m, perTile), RootsOf(m.program));
    forall r, t | 0 <= r < |m.shards| && 0 <= t < w.tiles
      ensures RowIs(m, perTile, w.roots, r, t, w.bytes[r][t])
    {
      StorageNeeds.RowsAre(m, perTile, r, t);
    }
  }

  lemma ScratchIsDrawn(m: Subject, perTile: bool)
    requires m.Ready() && Known(m, perTile)
    ensures var w := PictureOf(StorageOf(m, perTile), RootsOf(m.program));
      w.Sized() && |w.scratch| == |m.kernels| && DrawsScratch(m, perTile, w)
  {
    hide Validated, RootsOf, PlanFor, StorageOf, PictureOf, ScratchIs;
    PictureHolds(m, perTile);
    var w := PictureOf(StorageOf(m, perTile), RootsOf(m.program));
    forall i, t | 0 <= i < |w.scratch| && 0 <= t < w.tiles
      ensures ScratchIs(m, perTile, i, t, w.scratch[i][t])
    {
      ScratchesAre(m, perTile, i, t);
    }
  }

  lemma PlanLives(m: Subject, i: nat, r: nat)
    requires m.Ready() && i <= |m.Steps()| && r < |m.shards|
    ensures LiveAt(PlanFor(m), i)[r] <==> LiveIn(m.program, RootsOf(m.program), m.Steps(), i, r)
  {
    hide Validated, RootsOf, PlanOf, LiveAt, RootClasses, Lists, TouchedIn, UsedIn;
    LiveAre(Rooted(m.program), i, r);
  }

  // ---------------------------------------------------------------------------
  // What is reported
  // ---------------------------------------------------------------------------

  datatype Measure = InStandardMemory | InInterleavedMemory | Altogether

  function UseOf(used: Usage, measure: Measure): nat {
    match measure
    case InStandardMemory => used.standard
    case InInterleavedMemory => used.interleaved
    case Altogether => used.standard + used.interleaved
  }

  /** `peak` is the most that any tile uses in any entry. */
  ghost predicate IsPeak(w: Picture, measure: Measure, peak: nat)
    requires w.Sized()
  {
    && (forall i, t :: 0 <= i < |w.live| && 0 <= t < w.tiles ==> UseOf(w.Used(i, t), measure) <= peak)
    && (peak > 0 ==> exists i, t :: 0 <= i < |w.live| && 0 <= t < w.tiles && UseOf(w.Used(i, t), measure) == peak)
  }

  /** `peak` is the largest root ever live in standard memory, or the largest scratch there. */
  ghost predicate IsLargest(w: Picture, scratch: seq<nat>, peak: nat)
    requires w.Sized()
  {
    && (forall i, r, t :: w.InStandard(i, r) && 0 <= t < w.tiles ==> w.bytes[r][t] <= peak)
    && (forall i :: 0 <= i < |scratch| && w.tiles > 0 ==> scratch[i] <= peak)
    && (peak > 0 ==>
          || (exists i, r, t :: w.InStandard(i, r) && 0 <= t < w.tiles && w.bytes[r][t] == peak)
          || (exists i :: 0 <= i < |scratch| && scratch[i] == peak))
  }

  ghost predicate ArePeaks(w: Picture, scratch: seq<nat>, peaks: Peaks)
    requires w.Sized()
  {
    && IsPeak(w, InStandardMemory, peaks.standard) && IsPeak(w, InInterleavedMemory, peaks.interleaved)
    && IsPeak(w, Altogether, peaks.total) && IsLargest(w, scratch, peaks.maximumStandard)
  }

  /** What the analysis observes on tile `t` in entry `i`. */
  ghost function Seen(s: Storage, i: nat, t: nat): Peaks
    requires s.Valid() && i <= |s.plan.touched| && t < s.tiles
  {
    if UsageAt(s, i, t).None? then Peaks(0, 0, 0, 0)
    else Peaks(0, 0, 0, 0).Observe(UsageAt(s, i, t).value.Plus(s.Scratch(i, t)), MaximumAt(s, i))
  }

  ghost predicate Sees(s: Storage, n: nat, i: nat, t: nat)
    requires s.Valid() && n <= |s.plan.touched| + 1
  {
    i < n && t < s.tiles
  }

  lemma {:induction false} TilesSeen(s: Storage, peaks: Peaks, i: nat, t: nat)
    requires s.Valid() && i <= |s.plan.touched| && t <= s.tiles && ObserveTiles(s, peaks, i, t).Some?
    ensures var after := ObserveTiles(s, peaks, i, t).value;
      && after.Dominates(peaks)
      && (forall u: nat :: u < t ==> UsageAt(s, i, u).Some? && after.Dominates(Seen(s, i, u)))
      && (after.standard == peaks.standard || exists u: nat :: u < t && Seen(s, i, u).standard == after.standard)
      && (after.interleaved == peaks.interleaved || exists u: nat :: u < t && Seen(s, i, u).interleaved == after.interleaved)
      && (after.total == peaks.total || exists u: nat :: u < t && Seen(s, i, u).total == after.total)
      && (after.maximumStandard == peaks.maximumStandard || exists u: nat :: u < t && Seen(s, i, u).maximumStandard == after.maximumStandard)
  {
    hide UsageAt, MaximumAt, Usage.Plus, Usage.Total;
    if t > 0 {
      TilesSeen(s, peaks, i, t - 1);
    }
  }

  /** Peaks dominate everything seen, and each was seen. */
  lemma {:induction false} PeaksSeen(s: Storage, n: nat)
    requires s.Valid() && n <= |s.plan.touched| + 1 && PeaksAfter(s, n).Some?
    ensures var peaks := PeaksAfter(s, n).value;
      && (forall i: nat, t: nat :: Sees(s, n, i, t) ==> UsageAt(s, i, t).Some? && peaks.Dominates(Seen(s, i, t)))
      && (peaks.standard > 0 ==> exists i: nat, t: nat :: Sees(s, n, i, t) && Seen(s, i, t).standard == peaks.standard)
      && (peaks.interleaved > 0 ==> exists i: nat, t: nat :: Sees(s, n, i, t) && Seen(s, i, t).interleaved == peaks.interleaved)
      && (peaks.total > 0 ==> exists i: nat, t: nat :: Sees(s, n, i, t) && Seen(s, i, t).total == peaks.total)
      && (peaks.maximumStandard > 0 ==> exists i: nat, t: nat :: Sees(s, n, i, t) && Seen(s, i, t).maximumStandard == peaks.maximumStandard)
  {
    hide ObserveTiles, Seen, UsageAt;
    if n > 0 {
      PeaksSeen(s, n - 1);
      TilesSeen(s, PeaksAfter(s, n - 1).value, n - 1, s.tiles);
      forall i: nat, t: nat
        ensures Sees(s, n, i, t) <==> Sees(s, n - 1, i, t) || (i == n - 1 && t < s.tiles)
      {
      }
    }
  }

  lemma {:induction false} HeldIsSum(s: Storage, roots: seq<nat>, i: nat, t: nat, class_: MemoryClass, k: nat)
    requires s.Valid() && i <= |s.plan.touched| && t < s.tiles && k <= |s.plan.classes|
    ensures PictureOf(s, roots).Held(i, t, class_, k) == Sum(LiveAt(s.plan, i), s.Sizes(t, class_), k)
  {
    hide LiveAt;
    if k > 0 {
      HeldIsSum(s, roots, i, t, class_, k - 1);
    }
  }

  /** Where the sums are exact, the analysis sees what the picture uses. */
  lemma SeenIsUsed(s: Storage, roots: seq<nat>, i: nat, t: nat)
    requires s.Valid() && |roots| == |s.plan.classes| && i <= |s.plan.touched| && t < s.tiles
    requires RunNeverOverflows(s.plan, s.Sizes(t, Standard), i) && RunNeverOverflows(s.plan, s.Sizes(t, Interleaved), i)
    ensures PictureOf(s, roots).Sized() && UsageAt(s, i, t).Some?
    ensures var used := PictureOf(s, roots).Used(i, t);
      Seen(s, i, t) == Peaks(Clamp(used.standard), Clamp(used.interleaved), Clamp(used.standard + used.interleaved), MaximumAt(s, i))
  {
    hide LiveAt, UsedAt, RunNeverOverflows, MaximumAt;
    PictureIsSized(s, roots);
    UsedIsTotalIff(s.plan, s.Sizes(t, Standard), i);
    UsedIsTotalIff(s.plan, s.Sizes(t, Interleaved), i);
    HeldIsSum(s, roots, i, t, Standard, |s.plan.classes|);
    HeldIsSum(s, roots, i, t, Interleaved, |s.plan.classes|);
  }

  lemma {:induction false} LargestIs(s: Storage, live: seq<bool>, k: nat)
    requires s.Valid() && k <= |live| == |s.plan.classes|
    ensures forall r, t :: 0 <= r < k && 0 <= t < s.tiles && live[r] && s.plan.classes[r].Standard? ==>
              s.bytes[r][t] <= LargestStandard(s, live, k)
    ensures LargestStandard(s, live, k) > 0 ==>
              exists r, t :: 0 <= r < k && 0 <= t < s.tiles && live[r] && s.plan.classes[r].Standard?
                && s.bytes[r][t] == LargestStandard(s, live, k)
  {
    if k > 0 {
      LargestIs(s, live, k - 1);
      MaximumBounds(s.bytes[k - 1]);
      if s.bytes[k - 1] != [] {
        var t :| 0 <= t < s.tiles && s.bytes[k - 1][t] == Maximum(s.bytes[k - 1]);
      }
    }
  }

  lemma LargestArePeaks(s: Storage, roots: seq<nat>, n: nat, peak: nat)
    requires s.Valid() && |roots| == |s.plan.classes| && n == |s.plan.touched| + 1
    requires forall i: nat, t: nat :: Sees(s, n, i, t) ==> MaximumAt(s, i) <= peak
    requires peak > 0 ==> exists i: nat, t: nat :: Sees(s, n, i, t) && MaximumAt(s, i) == peak
    ensures PictureOf(s, roots).Sized() && IsLargest(PictureOf(s, roots), s.kernel, peak)
  {
    hide LiveAt, LargestStandard;
    PictureIsSized(s, roots);
    var w := PictureOf(s, roots);
    forall i, r, t | w.InStandard(i, r) && 0 <= t < w.tiles
      ensures w.bytes[r][t] <= peak
    {
      assert Sees(s, n, i, t);
      LargestIs(s, LiveAt(s.plan, i), |s.plan.classes|);
    }
    forall i | 0 <= i < |s.kernel| && w.tiles > 0
      ensures s.kernel[i] <= peak
    {
      assert Sees(s, n, i + 1, 0);
      assert s.Kernel(i + 1) == s.kernel[i];
    }
    if peak > 0 {
      var i: nat, t: nat :| Sees(s, n, i, t) && MaximumAt(s, i) == peak;
      LargestIs(s, LiveAt(s.plan, i), |s.plan.classes|);
      if s.Kernel(i) == peak {
        assert s.kernel[i - 1] == peak;
      } else {
        var r, u :| 0 <= r < |s.plan.classes| && 0 <= u < s.tiles && LiveAt(s.plan, i)[r] && s.plan.classes[r].Standard?
          && s.bytes[r][u] == peak;
        assert w.InStandard(i, r);
      }
    }
  }

  /** What is seen on a tile whose peaks stay below half the word range. */
  lemma SmallIsSeen(s: Storage, roots: seq<nat>, n: nat, i: nat, t: nat)
    requires s.Valid() && |roots| == |s.plan.classes| && n == |s.plan.touched| + 1 && Sees(s, n, i, t)
    requires PeaksAfter(s, n).Some? && 2 * PeaksAfter(s, n).value.total < U64_MAX
    requires PeaksAfter(s, n).value.Dominates(Seen(s, i, t))
    ensures PictureOf(s, roots).Sized() && |PictureOf(s, roots).live| == n && PictureOf(s, roots).tiles == s.tiles
    ensures var used := PictureOf(s, roots).Used(i, t);
      Seen(s, i, t) == Peaks(used.standard, used.interleaved, used.standard + used.interleaved, MaximumAt(s, i))
  {
    hide PeaksAfter, Seen, MaximumAt, UsedAt, RunNeverOverflows, PictureOf, Picture.Used, Picture.Sized;
    PictureIsSized(s, roots);
    PictureKeeps(s, roots);
    SmallTileIsExact(s, t, n - 1);
    ExactBefore(s.plan, s.Sizes(t, Standard), i, n - 1);
    ExactBefore(s.plan, s.Sizes(t, Interleaved), i, n - 1);
    SeenIsUsed(s, roots, i, t);
  }

  function PeakOf(peaks: Peaks, measure: Measure): nat {
    match measure
    case InStandardMemory => peaks.standard
    case InInterleavedMemory => peaks.interleaved
    case Altogether => peaks.total
  }

  lemma SeenIsBelow(s: Storage, n: nat, i: nat, t: nat)
    requires s.Valid() && n <= |s.plan.touched| + 1 && PeaksAfter(s, n).Some? && Sees(s, n, i, t)
    ensures PeaksAfter(s, n).value.Dominates(Seen(s, i, t))
  {
    hide PeaksAfter, Seen;
    PeaksSeen(s, n);
  }

  lemma PeakIsSeen(s: Storage, n: nat, measure: Measure) returns (i: nat, t: nat)
    requires s.Valid() && n <= |s.plan.touched| + 1 && PeaksAfter(s, n).Some? && PeakOf(PeaksAfter(s, n).value, measure) > 0
    ensures Sees(s, n, i, t) && PeakOf(Seen(s, i, t), measure) == PeakOf(PeaksAfter(s, n).value, measure)
  {
    hide PeaksAfter, Seen;
    PeaksSeen(s, n);
    match measure
    case InStandardMemory =>
      i, t :| Sees(s, n, i, t) && Seen(s, i, t).standard == PeaksAfter(s, n).value.standard;
    case InInterleavedMemory =>
      i, t :| Sees(s, n, i, t) && Seen(s, i, t).interleaved == PeaksAfter(s, n).value.interleaved;
    case Altogether =>
      i, t :| Sees(s, n, i, t) && Seen(s, i, t).total == PeaksAfter(s, n).value.total;
  }

  lemma PeakIsUsed(s: Storage, roots: seq<nat>, n: nat, measure: Measure)
    requires s.Valid() && |roots| == |s.plan.classes| && n == |s.plan.touched| + 1
    requires PeaksAfter(s, n).Some? && 2 * PeaksAfter(s, n).value.total < U64_MAX
    ensures PictureOf(s, roots).Sized() && IsPeak(PictureOf(s, roots), measure, PeakOf(PeaksAfter(s, n).value, measure))
  {
    hide PeaksAfter, Seen, MaximumAt, PictureOf, Picture.Used, Picture.Sized;
    var w, peak := PictureOf(s, roots), PeakOf(PeaksAfter(s, n).value, measure);
    PictureIsSized(s, roots);
    PictureKeeps(s, roots);
    forall i, t | 0 <= i < |w.live| && 0 <= t < w.tiles
      ensures UseOf(w.Used(i, t), measure) <= peak
    {
      SeenIsBelow(s, n, i, t);
      SmallIsSeen(s, roots, n, i, t);
    }
    if peak > 0 {
      var i, t := PeakIsSeen(s, n, measure);
      SeenIsBelow(s, n, i, t);
      SmallIsSeen(s, roots, n, i, t);
      assert UseOf(w.Used(i, t), measure) == peak;
    }
  }

  /** Peaks below half the word range are the largest uses of the picture. */
  lemma PeaksAreOf(s: Storage, roots: seq<nat>, n: nat)
    requires s.Valid() && |roots| == |s.plan.classes| && n == |s.plan.touched| + 1
    requires PeaksAfter(s, n).Some? && 2 * PeaksAfter(s, n).value.total < U64_MAX
    ensures PictureOf(s, roots).Sized() && ArePeaks(PictureOf(s, roots), s.kernel, PeaksAfter(s, n).value)
  {
    hide PeaksAfter, Seen, MaximumAt, PictureOf, IsLargest, IsPeak, Picture.Sized;
    PeakIsUsed(s, roots, n, InStandardMemory);
    PeakIsUsed(s, roots, n, InInterleavedMemory);
    PeakIsUsed(s, roots, n, Altogether);
    forall i: nat, t: nat | Sees(s, n, i, t)
      ensures Seen(s, i, t).maximumStandard == MaximumAt(s, i)
    {
      SeenIsBelow(s, n, i, t);
      SmallIsSeen(s, roots, n, i, t);
    }
    PeaksSeen(s, n);
    LargestArePeaks(s, roots, n, PeaksAfter(s, n).value.maximumStandard);
  }

  lemma PictureKeeps(s: Storage, roots: seq<nat>)
    requires s.Valid()
    ensures |PictureOf(s, roots).live| == |s.plan.touched| + 1 && PictureOf(s, roots).tiles == s.tiles
  {
    hide LiveAt;
  }

  // ---------------------------------------------------------------------------
  // What is accepted
  // ---------------------------------------------------------------------------

  /** In entry `i` tile `t` has room for what it uses and for the reserved bytes, and its largest
      standard root and the step's standard scratch are small enough. */
  ghost predicate HasRoom(w: Picture, scratch: seq<nat>, limits: Limits, i: nat, t: nat)
    requires w.Sized() && i < |w.live| && t < w.tiles && |scratch| + 1 == |w.live|
  {
    var used := w.Used(i, t);
    && used.interleaved <= limits.interleaved
    && used.standard + used.interleaved + limits.reserved <= limits.budget
    && used.standard + used.interleaved + limits.reserved <= limits.planned
    && (forall r :: w.InStandard(i, r) ==> w.bytes[r][t] <= limits.largestStandard)
    && (i > 0 ==> scratch[i - 1] <= limits.largestStandard)
  }

  ghost predicate AllHaveRoom(w: Picture, scratch: seq<nat>, limits: Limits)
    requires w.Sized() && |scratch| + 1 == |w.live|
  {
    && limits.reserved <= limits.budget && limits.reserved <= limits.planned
    && forall i, t :: 0 <= i < |w.live| && 0 <= t < w.tiles ==> HasRoom(w, scratch, limits, i, t)
  }

  lemma FittingHasRoom(s: Storage, roots: seq<nat>, limits: Limits, n: nat, i: nat, t: nat)
    requires s.Valid() && |roots| == |s.plan.classes| && n == |s.plan.touched| + 1 && 2 * limits.planned < U64_MAX
    requires Accepted(PeaksAfter(s, n), limits) && Sees(s, n, i, t)
    ensures PictureOf(s, roots).Sized() && |PictureOf(s, roots).live| == n && PictureOf(s, roots).tiles == s.tiles
    ensures HasRoom(PictureOf(s, roots), s.kernel, limits, i, t)
  {
    hide PeaksAfter, PictureOf, Picture.Used, Picture.Sized, Picture.InStandard;
    PictureIsSized(s, roots);
    PictureKeeps(s, roots);
    PeaksAreOf(s, roots, n);
    var w, used := PictureOf(s, roots), PictureOf(s, roots).Used(i, t);
    assert UseOf(used, InInterleavedMemory) <= PeaksAfter(s, n).value.interleaved;
    assert UseOf(used, Altogether) <= PeaksAfter(s, n).value.total;
  }

  lemma LiveIsHeld(s: Storage, roots: seq<nat>, i: nat, t: nat, class_: MemoryClass, cap: nat)
    requires s.Valid() && |roots| == |s.plan.classes| && i <= |s.plan.touched| && t < s.tiles
    requires PictureOf(s, roots).Sized() && UseOf(PictureOf(s, roots).Used(i, t), Altogether) <= cap
    ensures LiveWithin(LiveAt(s.plan, i), s.Sizes(t, class_), cap)
  {
    hide LiveAt;
    var sizes := s.Sizes(t, class_);
    HeldIsSum(s, roots, i, t, class_, |sizes|);
    forall r | 0 <= r < |sizes| && LiveAt(s.plan, i)[r]
      ensures sizes[r] <= cap
    {
      MemberIsBelowSum(LiveAt(s.plan, i), sizes, r, |sizes|);
    }
  }

  lemma RoomIsExact(s: Storage, roots: seq<nat>, limits: Limits, t: nat, n: nat)
    requires s.Valid() && |roots| == |s.plan.classes| && t < s.tiles && n <= |s.plan.touched|
    requires PictureOf(s, roots).Sized() && PictureOf(s, roots).tiles == s.tiles && |PictureOf(s, roots).live| == |s.kernel| + 1
    requires AllHaveRoom(PictureOf(s, roots), s.kernel, limits) && |s.plan.classes| * limits.planned <= U64_MAX
    ensures RunNeverOverflows(s.plan, s.Sizes(t, Standard), n) && RunNeverOverflows(s.plan, s.Sizes(t, Interleaved), n)
  {
    hide LiveAt, LiveWithin, PictureOf, Picture.Used, Picture.Sized, RunNeverOverflows;
    var w := PictureOf(s, roots);
    forall i | 0 <= i <= n
      ensures LiveWithin(LiveAt(s.plan, i), s.Sizes(t, Standard), limits.planned)
      ensures LiveWithin(LiveAt(s.plan, i), s.Sizes(t, Interleaved), limits.planned)
    {
      assert HasRoom(w, s.kernel, limits, i, t);
      LiveIsHeld(s, roots, i, t, Standard, limits.planned);
      LiveIsHeld(s, roots, i, t, Interleaved, limits.planned);
    }
    SmallLiveNeverOverflows(s.plan, s.Sizes(t, Standard), limits.planned, n);
    SmallLiveNeverOverflows(s.plan, s.Sizes(t, Interleaved), limits.planned, n);
  }

  function Smaller(a: nat, b: nat): nat {
    if a <= b then a else b
  }

  /** The highest peaks that fit. */
  function Highest(limits: Limits): Peaks
    requires limits.reserved <= limits.budget && limits.reserved <= limits.planned
  {
    Peaks(limits.planned, limits.interleaved, Smaller(limits.budget, limits.planned) - limits.reserved, limits.largestStandard)
  }

  lemma LargestHasRoom(s: Storage, roots: seq<nat>, limits: Limits, i: nat, t: nat)
    requires s.Valid() && |roots| == |s.plan.classes| && i <= |s.plan.touched| && t < s.tiles
    requires PictureOf(s, roots).Sized() && AllHaveRoom(PictureOf(s, roots), s.kernel, limits)
    ensures MaximumAt(s, i) <= limits.largestStandard
  {
    hide LiveAt, LargestStandard, Picture.Used;
    var w := PictureOf(s, roots);
    assert HasRoom(w, s.kernel, limits, i, t);
    LargestIs(s, LiveAt(s.plan, i), |s.plan.classes|);
    if LargestStandard(s, LiveAt(s.plan, i), |s.plan.classes|) > 0 {
      var r, u :| 0 <= r < |s.plan.classes| && 0 <= u < s.tiles && LiveAt(s.plan, i)[r] && s.plan.classes[r].Standard?
        && s.bytes[r][u] == LargestStandard(s, LiveAt(s.plan, i), |s.plan.classes|);
      assert HasRoom(w, s.kernel, limits, i, u) && w.InStandard(i, r);
    }
  }

  lemma RoomIsWithin(s: Storage, roots: seq<nat>, limits: Limits, i: nat, t: nat)
    requires s.Valid() && |roots| == |s.plan.classes| && i <= |s.plan.touched| && t < s.tiles
    requires PictureOf(s, roots).Sized() && PictureOf(s, roots).tiles == s.tiles && |PictureOf(s, roots).live| == |s.kernel| + 1
    requires AllHaveRoom(PictureOf(s, roots), s.kernel, limits) && |s.plan.classes| * limits.planned <= U64_MAX
    requires 2 * limits.planned < U64_MAX
    ensures NeedWithin(s, i, t, Highest(limits))
  {
    hide LiveAt, PictureOf, Picture.Used, Picture.Sized, RunNeverOverflows, MaximumAt, UsageAt, Picture.InStandard;
    RoomIsExact(s, roots, limits, t, i);
    SeenIsUsed(s, roots, i, t);
    LargestHasRoom(s, roots, limits, i, t);
    assert HasRoom(PictureOf(s, roots), s.kernel, limits, i, t);
  }

  /** Peaks exist and fit exactly when every tile has room in every entry. */
  lemma FitsIff(s: Storage, roots: seq<nat>, limits: Limits, n: nat)
    requires s.Valid() && |roots| == |s.plan.classes| && n == |s.plan.touched| + 1
    requires 2 * limits.planned < U64_MAX && |s.plan.classes| * limits.planned <= U64_MAX
    ensures PictureOf(s, roots).Sized() && |PictureOf(s, roots).live| == |s.kernel| + 1
    ensures Accepted(PeaksAfter(s, n), limits) <==> AllHaveRoom(PictureOf(s, roots), s.kernel, limits)
  {
    hide PeaksAfter, PictureOf, Picture.Sized, HasRoom, NeedWithin;
    PictureIsSized(s, roots);
    PictureKeeps(s, roots);
    if Accepted(PeaksAfter(s, n), limits) {
      forall i, t | 0 <= i < n && 0 <= t < s.tiles
        ensures HasRoom(PictureOf(s, roots), s.kernel, limits, i, t)
      {
        FittingHasRoom(s, roots, limits, n, i, t);
      }
    }
    if AllHaveRoom(PictureOf(s, roots), s.kernel, limits) {
      forall i, t | 0 <= i < n && 0 <= t < s.tiles
        ensures NeedWithin(s, i, t, Highest(limits))
      {
        RoomIsWithin(s, roots, limits, i, t);
      }
      PeaksWithin(s, Highest(limits), n);
    }
  }

  /** Either form of the analysis reports the peaks of its picture, as long as they stay below half
      the word range. */
  lemma ReportIs(m: Subject, perTile: bool) returns (w: Picture)
    requires m.Ready() && PeaksOf(m, perTile).Some? && 2 * PeaksOf(m, perTile).value.total < U64_MAX
    ensures AllResolve(m) && AllPriced(m) && Draws(m, perTile, w) && ArePeaks(w, StandardScratch(m), PeaksOf(m, perTile).value)
  {
    hide Validated, RootsOf, PlanFor, StorageOf, PeaksAfter, PictureOf, AllMeasurable, ScratchKnown, ArePeaks;
    w := PictureOf(StorageOf(m, perTile), RootsOf(m.program));
    PictureIsDrawn(m, perTile);
    StorageIs(m, perTile);
    PeaksAreOf(StorageOf(m, perTile), RootsOf(m.program), |m.kernels| + 1);
  }

  lemma StorageIs(m: Subject, perTile: bool)
    requires m.Ready() && Known(m, perTile)
    ensures var s := StorageOf(m, perTile);
      s.kernel == StandardScratch(m) && |s.plan.touched| == |m.kernels| && |s.plan.classes| == |m.shards| == |RootsOf(m.program)|
  {
    hide Validated, RootsOf, PlanFor, AllMeasurable, ScratchKnown;
  }

  /** A program whose memory can be measured is accepted exactly when every tile has room in every
      step for the live storage and the scratch that the program asks for. */
  lemma AcceptsIff(m: Subject, limits: Limits) returns (w: Picture)
    requires m.Ready() && |m.shards| <= 0x1_0000_0000 && limits.planned < 0x1_0000_0000
    ensures |RootsOf(m.program)| == |m.shards| && AreRootsOf(RootsOf(m.program), m.Steps(), |m.shards|)
    ensures Accepted(PeaksOf(m, true), limits) ==> CanMeasure(m, true, RootsOf(m.program))
    ensures CanMeasure(m, true, RootsOf(m.program)) ==>
              && AllResolve(m) && AllPriced(m) && Draws(m, true, w) && w.roots == RootsOf(m.program)
              && (Accepted(PeaksOf(m, true), limits) <==> AllHaveRoom(w, StandardScratch(m), limits))
  {
    hide Validated, RootsOf, PlanFor, StorageOf, PeaksAfter, PictureOf, AllMeasurable, ScratchKnown, AllHaveRoom, CanMeasure, Fits, AreRootsOf;
    KnownIff(m, true);
    RootsAre(m.program);
    w := Picture([], [], [], [], [], 0);
    if Known(m, true) {
      w := PictureOf(StorageOf(m, true), RootsOf(m.program));
      PictureIsDrawn(m, true);
      PictureHolds(m, true);
      StorageIs(m, true);
      RootsFit(|m.shards|, limits.planned);
      FitsIff(StorageOf(m, true), RootsOf(m.program), limits, |m.kernels| + 1);
    }
  }
}
