/** Which storage roots a program still needs (crates/ipu-codegen/src/estimate/mid.rs,
    crates/ipu-codegen/src/mid/validate.rs).

    Nested repeats are flattened into steps, each body before its repeat, and every root gets
    the index of its last use. The module proves that liveness by last use says exactly which
    roots are used at or after a step, or kept to the end, and that it is safe for the program
    as it runs: whatever storage an unrolled run still reads is live in the analysis. */
module StorageLiveness {
  import opened StorageAccounting

  // ---------------------------------------------------------------------------
  // Programs
  // ---------------------------------------------------------------------------

  /** Values are numbers. Output aliases pair the positions of a result and of an input. A repeat
      passes its inputs, and one value of each iterated list per round, to the arguments of its
      body, which hands its yields to the next round. */
  datatype Operation =
    | Plain(inputs: seq<nat>, results: seq<nat>, aliases: seq<(nat, nat)>)
    | Repeat(inputs: seq<nat>, results: seq<nat>, aliases: seq<(nat, nat)>, count: nat, iterated: seq<seq<nat>>,
             arguments: seq<nat>, yielded: seq<nat>, body: seq<Operation>)

  datatype Input = Input(value: nat, parameter: bool)

  datatype Program = Program(inputs: seq<Input>, operations: seq<Operation>, outputs: seq<nat>,
                             copies: seq<(nat, nat)>, roots: seq<nat>, classes: seq<MemoryClass>)

  function Values(s: seq<nat>): set<nat> {
    set v | v in s
  }

  function AllValues(s: seq<seq<nat>>): set<nat> {
    set part, v | part in s && v in part :: v
  }

  /** What an operation reads: a repeat its iterated values and, after each round, the yields. */
  function ReadValues(o: Operation): set<nat> {
    Values(o.inputs) + if o.Repeat? then AllValues(o.iterated) + Values(o.yielded) else {}
  }

  function Results(ops: seq<Operation>): set<nat> {
    if ops == [] then {} else Results(ops[..|ops| - 1]) + Values(ops[|ops| - 1].results)
  }

  /** A region reads only its arguments and earlier results; a repeat runs at least once. */
  ghost predicate ValidRegion(ops: seq<Operation>, available: set<nat>)
    decreases ops
  {
    ops == [] ||
    var last := |ops| - 1;
    ValidRegion(ops[..last], available) && ValidOperation(ops[last], available + Results(ops[..last]))
  }

  ghost predicate ValidOperation(o: Operation, available: set<nat>)
    decreases o
  {
    && Values(o.inputs) <= available
    && (forall k :: 0 <= k < |o.aliases| ==> o.aliases[k].0 < |o.results| && o.aliases[k].1 < |o.inputs|)
    && (o.Repeat? ==>
          && |o.results| <= |o.inputs|
          && o.count > 0 && AllValues(o.iterated) <= available
          && |o.arguments| == |o.inputs| + |o.iterated|
          && (forall k :: 0 <= k < |o.iterated| ==> |o.iterated[k]| == o.count)
          && ValidRegion(o.body, Values(o.arguments))
          && Values(o.yielded) <= Values(o.arguments) + Results(o.body))
  }

  /** The values of a set of roots. */
  function RootSet(roots: seq<nat>, values: set<nat>): set<nat> {
    set v | v in values && v < |roots| :: roots[v]
  }

  ghost predicate SameRoot(roots: seq<nat>, a: nat, b: nat) {
    a < |roots| && b < |roots| && roots[a] == roots[b]
  }

  /** Every body argument shares its root with the input passed to it, or with the first of the
      iterated values. */
  ghost predicate Aliased(roots: seq<nat>, ops: seq<Operation>)
    decreases ops
  {
    ops == [] || (Aliased(roots, ops[..|ops| - 1]) && OperationAliased(roots, ops[|ops| - 1]))
  }

  ghost predicate OperationAliased(roots: seq<nat>, o: Operation)
    decreases o
  {
    o.Repeat? ==>
      && |o.arguments| == |o.inputs| + |o.iterated|
      && (forall k :: 0 <= k < |o.inputs| ==> SameRoot(roots, o.arguments[k], o.inputs[k]))
      && (forall k :: 0 <= k < |o.iterated| ==>
            o.iterated[k] != [] && SameRoot(roots, o.arguments[|o.inputs| + k], o.iterated[k][0]))
      && Aliased(roots, o.body)
  }

  // ---------------------------------------------------------------------------
  // Steps and runs
  // ---------------------------------------------------------------------------

  /** The operations of all bodies in order, each repeat after its body. */
  function Flatten(ops: seq<Operation>): seq<Operation>
    decreases ops
  {
    if ops == [] then [] else Flatten(ops[..|ops| - 1]) + FlattenOne(ops[|ops| - 1])
  }

  function FlattenOne(o: Operation): (r: seq<Operation>)
    ensures |r| > 0 && r[|r| - 1] == o
    decreases o
  {
    (if o.Repeat? then Flatten(o.body) else []) + [o]
  }

  function Times(run: seq<nat>, n: nat): seq<nat> {
    if n == 0 then [] else Times(run, n - 1) + run
  }

  /** The steps that a run of the operations takes, by their index in the flattened program;
      a repeat takes its own step after every round of its body. */
  function Run(ops: seq<Operation>, base: nat): seq<nat>
    decreases ops
  {
    if ops == [] then []
    else
      var before := ops[..|ops| - 1];
      Run(before, base) + RunOne(ops[|ops| - 1], base + |Flatten(before)|)
  }

  function RunOne(o: Operation, base: nat): seq<nat>
    decreases o
  {
    if o.Plain? then [base] else Times(Round(o, base), o.count)
  }

  function Round(o: Operation, base: nat): seq<nat>
    requires o.Repeat?
    decreases o, 0
  {
    Run(o.body, base) + [base + |Flatten(o.body)|]
  }

  // ---------------------------------------------------------------------------
  // What a run needs
  // ---------------------------------------------------------------------------

  /** The roots of all values, and the flattened program. */
  datatype Context = Context(roots: seq<nat>, steps: seq<Operation>) {
    ghost predicate Reads(step: nat, id: nat) {
      step < |steps| && id in RootSet(roots, ReadValues(steps[step]))
    }

    ghost predicate Writes(step: nat, id: nat) {
      step < |steps| && id in RootSet(roots, Values(steps[step].results))
    }

    ghost predicate Uses(step: nat, id: nat) {
      Reads(step, id) || Writes(step, id)
    }

    /** The analysis makes a root live in the steps that have it as input or result. */
    ghost predicate Touches(step: nat, id: nat) {
      step < |steps| && id in RootSet(roots, Values(steps[step].inputs) + Values(steps[step].results))
    }

    /** The steps from `base` on are those of the operations. */
    ghost predicate Holds(ops: seq<Operation>, base: nat) {
      base + |Flatten(ops)| <= |steps| && steps[base..base + |Flatten(ops)|] == Flatten(ops)
    }

    ghost predicate HoldsOne(o: Operation, base: nat) {
      base + |FlattenOne(o)| <= |steps| && steps[base..base + |FlattenOne(o)|] == FlattenOne(o)
    }

    ghost predicate Written(run: seq<nat>, id: nat) {
      exists q :: 0 <= q < |run| && Writes(run[q], id)
    }

    /** The run reads what `id` holds when it starts. */
    ghost predicate Exposed(run: seq<nat>, id: nat) {
      exists q :: 0 <= q < |run| && Reads(run[q], id) && !Written(run[..q], id)
    }

    lemma WrittenJoin(a: seq<nat>, b: seq<nat>, id: nat)
      ensures Written(a + b, id) <==> Written(a, id) || Written(b, id)
    {
      hide RootSet, Reads, Writes;
      if Written(a, id) {
        var q :| 0 <= q < |a| && Writes(a[q], id);
        assert (a + b)[q] == a[q];
      }
      if Written(b, id) {
        var q :| 0 <= q < |b| && Writes(b[q], id);
        assert (a + b)[|a| + q] == b[q];
      }
    }

    /** A run in two parts exposes what the first exposes, and what the second exposes unless
        the first writes it. */
    lemma ExposedJoin(a: seq<nat>, b: seq<nat>, id: nat)
      ensures Exposed(a + b, id) <==> Exposed(a, id) || (!Written(a, id) && Exposed(b, id))
    {
      hide RootSet, Uses, Reads, Writes;
      if Exposed(a, id) {
        var q :| 0 <= q < |a| && Reads(a[q], id) && !Written(a[..q], id);
        assert (a + b)[q] == a[q] && (a + b)[..q] == a[..q];
      }
      if !Written(a, id) && Exposed(b, id) {
        var q :| 0 <= q < |b| && Reads(b[q], id) && !Written(b[..q], id);
        assert (a + b)[|a| + q] == b[q] && (a + b)[..|a| + q] == a + b[..q];
        WrittenJoin(a, b[..q], id);
      }
      if Exposed(a + b, id) {
        var q :| 0 <= q < |a + b| && Reads((a + b)[q], id) && !Written((a + b)[..q], id);
        if q < |a| {
          assert (a + b)[..q] == a[..q];
        } else {
          assert (a + b)[..q] == a + b[..q - |a|];
          WrittenJoin(a, b[..q - |a|], id);
        }
      }
    }
  }

  lemma HoldsSplit(c: Context, ops: seq<Operation>, base: nat)
    requires ops != [] && c.Holds(ops, base)
    ensures var before := ops[..|ops| - 1];
      && c.Holds(before, base) && c.HoldsOne(ops[|ops| - 1], base + |Flatten(before)|)
      && |Flatten(ops)| == |Flatten(before)| + |FlattenOne(ops[|ops| - 1])|
  {
    hide RootSet, FlattenOne;
    var before, one := Flatten(ops[..|ops| - 1]), FlattenOne(ops[|ops| - 1]);
    var part := c.steps[base..base + |before| + |one|];
    assert part == before + one;
    assert part[..|before|] == before && part[|before|..] == one;
    assert c.steps[base..base + |before|] == part[..|before|];
    assert c.steps[base + |before|..base + |before| + |one|] == part[|before|..];
  }

  lemma HoldsBody(c: Context, o: Operation, base: nat)
    requires c.HoldsOne(o, base)
    ensures c.steps[base + |FlattenOne(o)| - 1] == o
    ensures o.Repeat? ==> c.Holds(o.body, base) && |FlattenOne(o)| == |Flatten(o.body)| + 1
  {
    hide Flatten, RootSet;
    var part := c.steps[base..base + |FlattenOne(o)|];
    assert part[|part| - 1] == c.steps[base + |FlattenOne(o)| - 1];
    if o.Repeat? {
      var body := Flatten(o.body);
      assert part == body + [o];
      assert (body + [o])[..|body|] == body;
      assert c.steps[base..base + |body|] == part[..|body|];
    }
  }

  /** A step of repeated rounds is a step of one round, and what follows it in that round
      follows it in the whole. */
  lemma {:induction false} TimesAt(c: Context, round: seq<nat>, n: nat, k: nat, id: nat) returns (j: nat)
    requires k < |Times(round, n)|
    ensures j < |round| && Times(round, n)[k] == round[j]
    ensures !c.Written(Times(round, n)[k + 1..], id) ==> !c.Written(round[j + 1..], id)
    ensures c.Exposed(Times(round, n)[k + 1..], id) ==>
              c.Exposed(round[j + 1..], id) || (!c.Written(round[j + 1..], id) && c.Exposed(round, id))
  {
    hide RootSet, Context.Written, Context.Exposed, Flatten, Run;
    var before := Times(round, n - 1);
    if k >= |before| {
      j := k - |before|;
      assert Times(round, n)[k + 1..] == round[j + 1..];
    } else {
      j := TimesAt(c, round, n - 1, k, id);
      assert Times(round, n)[k + 1..] == before[k + 1..] + round;
      c.WrittenJoin(before[k + 1..], round, id);
      c.ExposedJoin(before[k + 1..], round, id);
    }
  }

  lemma {:induction false} TimesExposes(c: Context, round: seq<nat>, n: nat, id: nat)
    requires c.Exposed(Times(round, n), id)
    ensures c.Exposed(round, id)
  {
    if n > 0 {
      c.ExposedJoin(Times(round, n - 1), round, id);
      if c.Exposed(Times(round, n - 1), id) {
        TimesExposes(c, round, n - 1, id);
      }
    }
  }

  lemma {:induction false} RunInside(ops: seq<Operation>, base: nat, k: nat)
    requires k < |Run(ops, base)|
    ensures base <= Run(ops, base)[k] < base + |Flatten(ops)|
    decreases ops
  {
    var before := ops[..|ops| - 1];
    if k < |Run(before, base)| {
      RunInside(before, base, k);
    } else {
      RunOneInside(ops[|ops| - 1], base + |Flatten(before)|, k - |Run(before, base)|);
    }
  }

  lemma {:induction false} RunOneInside(o: Operation, base: nat, k: nat)
    requires k < |RunOne(o, base)|
    ensures base <= RunOne(o, base)[k] < base + |FlattenOne(o)|
    decreases o
  {
    if o.Repeat? {
      var j := TimesAt(Context([], []), Round(o, base), o.count, k, 0);
      if j < |Run(o.body, base)| {
        RunInside(o.body, base, j);
      }
    }
  }

  /** A run of an operation ends with the operation's own step. */
  lemma EndsWithOwnStep(c: Context, o: Operation, base: nat)
    requires c.HoldsOne(o, base) && (o.Repeat? ==> o.count > 0)
    ensures var run := RunOne(o, base); |run| > 0 && run[|run| - 1] == base + |FlattenOne(o)| - 1
    ensures c.steps[base + |FlattenOne(o)| - 1] == o
  {
    HoldsBody(c, o, base);
    if o.Repeat? {
      assert Times(Round(o, base), o.count) == Times(Round(o, base), o.count - 1) + Round(o, base);
    }
  }

  lemma OneWritten(c: Context, o: Operation, base: nat, id: nat)
    requires c.HoldsOne(o, base) && (o.Repeat? ==> o.count > 0)
    requires id in RootSet(c.roots, Values(o.results))
    ensures c.Written(RunOne(o, base), id)
  {
    EndsWithOwnStep(c, o, base);
    var run := RunOne(o, base);
    assert c.Writes(run[|run| - 1], id);
  }

  lemma RootSetJoin(roots: seq<nat>, a: set<nat>, b: set<nat>, id: nat)
    ensures id in RootSet(roots, a + b) <==> id in RootSet(roots, a) || id in RootSet(roots, b)
    ensures a <= b && id in RootSet(roots, a) ==> id in RootSet(roots, b)
  {
    if id in RootSet(roots, a + b) {
      var v :| v in a + b && v < |roots| && roots[v] == id;
    }
  }

  /** A region's last operation, apart from those before it. */
  lemma Peel(c: Context, ops: seq<Operation>, available: set<nat>, base: nat)
    requires ops != [] && c.Holds(ops, base) && ValidRegion(ops, available) && Aliased(c.roots, ops)
    ensures var before, o := ops[..|ops| - 1], ops[|ops| - 1];
      var next := base + |Flatten(before)|;
      && c.Holds(before, base) && ValidRegion(before, available) && Aliased(c.roots, before)
      && c.HoldsOne(o, next) && ValidOperation(o, available + Results(before)) && OperationAliased(c.roots, o)
      && (o.Repeat? ==> o.count > 0)
      && Run(ops, base) == Run(before, base) + RunOne(o, next) && Results(ops) == Results(before) + Values(o.results)
      && base + |Flatten(ops)| == next + |FlattenOne(o)|
  {
    hide RootSet, FlattenOne, RunOne, Context.Holds, Context.HoldsOne;
    HoldsSplit(c, ops, base);
  }

  lemma NoRun(base: nat)
    ensures Run([], base) == [] && Results([]) == {}
  {
  }

  /** A repeat's body. */
  lemma PeelRepeat(c: Context, o: Operation, available: set<nat>, base: nat)
    requires o.Repeat? && c.HoldsOne(o, base) && ValidOperation(o, available) && OperationAliased(c.roots, o)
    ensures o.count > 0 && Values(o.inputs) <= available && AllValues(o.iterated) <= available
    ensures c.Holds(o.body, base) && ValidRegion(o.body, Values(o.arguments)) && Aliased(c.roots, o.body)
    ensures Values(o.yielded) <= Values(o.arguments) + Results(o.body)
    ensures |FlattenOne(o)| == |Flatten(o.body)| + 1 && c.steps[base + |Flatten(o.body)|] == o
    ensures base + |FlattenOne(o)| <= |c.steps|
    ensures RunOne(o, base) == Times(Round(o, base), o.count)
  {
    hide RootSet, Flatten, Run;
    HoldsBody(c, o, base);
  }

  lemma OwnTouches(c: Context, o: Operation, base: nat, id: nat)
    requires c.HoldsOne(o, base) && id in RootSet(c.roots, Values(o.results))
    ensures c.Touches(base + |FlattenOne(o)| - 1, id) && |FlattenOne(o)| > 0
  {
    hide Flatten, RootSet;
    HoldsBody(c, o, base);
    RootSetJoin(c.roots, Values(o.inputs), Values(o.results), id);
  }

  /** Every result of a region is written by each of its runs, and touched by one of its steps. */
  lemma {:induction false} ResultsWritten(c: Context, ops: seq<Operation>, available: set<nat>, base: nat, id: nat) returns (j: nat)
    requires c.Holds(ops, base) && ValidRegion(ops, available) && Aliased(c.roots, ops) && id in RootSet(c.roots, Results(ops))
    ensures c.Written(Run(ops, base), id) && base <= j < base + |Flatten(ops)| && c.Touches(j, id)
    decreases |ops|
  {
    hide Flatten, FlattenOne, Run, RunOne, ValidRegion, ValidOperation, Aliased, OperationAliased, Results, RootSet, Values, ReadValues, AllValues;
    hide Context.Exposed, Context.Written, Context.Uses, Context.Touches, Context.Reads, Context.Writes, Context.Holds, Context.HoldsOne;
    if ops == [] {
      NoRun(base);
      NoRoots(c.roots, id);
    } else {
      Peel(c, ops, available, base);
      var before, o := ops[..|ops| - 1], ops[|ops| - 1];
      var next := base + |Flatten(before)|;
      RootSetJoin(c.roots, Results(before), Values(o.results), id);
      c.WrittenJoin(Run(before, base), RunOne(o, next), id);
      if id in RootSet(c.roots, Values(o.results)) {
        OneWritten(c, o, next, id);
        OwnTouches(c, o, next, id);
        j := next + |FlattenOne(o)| - 1;
      } else {
        j := ResultsWritten(c, before, available, base, id);
      }
    }
  }

  lemma NoRoots(roots: seq<nat>, id: nat)
    ensures id !in RootSet(roots, {})
  {
  }

  // ---------------------------------------------------------------------------
  // Exposed reads come from outside
  // ---------------------------------------------------------------------------

  lemma ArgumentsAreInputs(roots: seq<nat>, o: Operation, id: nat)
    requires OperationAliased(roots, o) && o.Repeat? && id in RootSet(roots, Values(o.arguments))
    ensures id in RootSet(roots, Values(o.inputs) + AllValues(o.iterated))
  {
    var v :| v in Values(o.arguments) && v < |roots| && roots[v] == id;
    var k :| 0 <= k < |o.arguments| && o.arguments[k] == v;
    if k < |o.inputs| {
      assert SameRoot(roots, o.arguments[k], o.inputs[k]);
      assert o.inputs[k] in Values(o.inputs);
    } else {
      var list := o.iterated[k - |o.inputs|];
      assert SameRoot(roots, o.arguments[|o.inputs| + (k - |o.inputs|)], list[0]);
      assert list in o.iterated && list[0] in list;
    }
  }

  lemma NothingExposed(c: Context, id: nat)
    ensures !c.Exposed([], id)
  {
  }

  /** What a region's run reads before writing it comes from the region's arguments. */
  lemma {:induction false} ExposedIsAvailable(c: Context, ops: seq<Operation>, available: set<nat>, base: nat, id: nat)
    requires c.Holds(ops, base) && ValidRegion(ops, available) && Aliased(c.roots, ops)
    requires c.Exposed(Run(ops, base), id)
    ensures id in RootSet(c.roots, available)
    decreases ops
  {
    hide Flatten, FlattenOne, Run, RunOne, ValidRegion, ValidOperation, Aliased, OperationAliased, Results, RootSet, Values, ReadValues, AllValues;
    hide Context.Exposed, Context.Written, Context.Uses, Context.Touches, Context.Reads, Context.Writes, Context.Holds, Context.HoldsOne;
    if ops == [] {
      NoRun(base);
      NothingExposed(c, id);
    } else {
      Peel(c, ops, available, base);
      var before, o := ops[..|ops| - 1], ops[|ops| - 1];
      var next := base + |Flatten(before)|;
      c.ExposedJoin(Run(before, base), RunOne(o, next), id);
      if c.Exposed(Run(before, base), id) {
        ExposedIsAvailable(c, before, available, base, id);
      } else {
        OneExposedIsAvailable(c, o, available + Results(before), next, id);
        RootSetJoin(c.roots, available, Results(before), id);
        if id in RootSet(c.roots, Results(before)) {
          var j := ResultsWritten(c, before, available, base, id);
        }
      }
    }
  }

  lemma PlainReads(c: Context, o: Operation, available: set<nat>, base: nat, id: nat)
    requires o.Plain? && c.HoldsOne(o, base) && ValidOperation(o, available) && c.Exposed(RunOne(o, base), id)
    ensures id in RootSet(c.roots, available)
  {
    hide RootSet;
    HoldsBody(c, o, base);
    assert ReadValues(o) == Values(o.inputs);
    RootSetJoin(c.roots, Values(o.inputs), available, id);
  }

  lemma {:induction false} OneExposedIsAvailable(c: Context, o: Operation, available: set<nat>, base: nat, id: nat)
    requires c.HoldsOne(o, base) && ValidOperation(o, available) && OperationAliased(c.roots, o)
    requires c.Exposed(RunOne(o, base), id)
    ensures id in RootSet(c.roots, available)
    decreases o
  {
    hide Flatten, FlattenOne, Run, RunOne, ValidRegion, ValidOperation, Aliased, OperationAliased, Results, RootSet, Values, ReadValues, AllValues;
    hide Context.Exposed, Context.Written, Context.Uses, Context.Touches, Context.Reads, Context.Writes, Context.Holds, Context.HoldsOne;
    if o.Repeat? {
      PeelRepeat(c, o, available, base);
      TimesExposes(c, Round(o, base), o.count, id);
      RoundExposed(c, o, available, base, id);
      RootSetJoin(c.roots, Values(o.inputs) + AllValues(o.iterated), available, id);
    } else {
      PlainReads(c, o, available, base, id);
    }
  }

  lemma RoundIs(o: Operation, base: nat)
    requires o.Repeat?
    ensures Round(o, base) == Run(o.body, base) + [base + |Flatten(o.body)|]
  {
  }

  lemma {:induction false} RoundExposed(c: Context, o: Operation, available: set<nat>, base: nat, id: nat)
    requires c.HoldsOne(o, base) && o.Repeat? && ValidOperation(o, available) && OperationAliased(c.roots, o)
    requires c.Exposed(Round(o, base), id)
    ensures id in RootSet(c.roots, Values(o.inputs) + AllValues(o.iterated))
    decreases o, 0
  {
    hide Flatten, FlattenOne, Run, RunOne, ValidRegion, ValidOperation, Aliased, OperationAliased, Results, RootSet, Values, ReadValues, AllValues;
    hide Context.Exposed, Context.Written, Context.Uses, Context.Touches, Context.Reads, Context.Writes, Context.Holds, Context.HoldsOne;
    hide Round;
    PeelRepeat(c, o, available, base);
    RoundIs(o, base);
    var own := base + |Flatten(o.body)|;
    c.ExposedJoin(Run(o.body, base), [own], id);
    if c.Exposed(Run(o.body, base), id) {
      ExposedIsAvailable(c, o.body, Values(o.arguments), base, id);
      ArgumentsAreInputs(c.roots, o, id);
    } else {
      OwnReads(c, o, base, id);
      if id in RootSet(c.roots, Results(o.body)) {
        var j := ResultsWritten(c, o.body, Values(o.arguments), base, id);
      }
    }
  }

  /** What a repeat's own step reads: its inputs, the iterated values, or results of its body. */
  lemma OwnReads(c: Context, o: Operation, base: nat, id: nat)
    requires c.HoldsOne(o, base) && o.Repeat? && OperationAliased(c.roots, o)
    requires Values(o.yielded) <= Values(o.arguments) + Results(o.body)
    requires c.Exposed([base + |Flatten(o.body)|], id)
    ensures id in RootSet(c.roots, Values(o.inputs) + AllValues(o.iterated)) || id in RootSet(c.roots, Results(o.body))
    ensures c.Uses(base + |Flatten(o.body)|, id)
  {
    hide Flatten, FlattenOne, RootSet, Values, AllValues, ReadValues, Results, Context.Holds, Context.HoldsOne;
    HoldsBody(c, o, base);
    OwnStep(o);
    var own := base + |Flatten(o.body)|;
    ReadsOne(c, own, id);
    ReadsByPart(c.roots, o, id);
    RootSetJoin(c.roots, Values(o.yielded), Values(o.arguments) + Results(o.body), id);
    RootSetJoin(c.roots, Values(o.arguments), Results(o.body), id);
    if id in RootSet(c.roots, Values(o.arguments)) {
      ArgumentsAreInputs(c.roots, o, id);
    }
  }

  lemma OwnStep(o: Operation)
    requires o.Repeat?
    ensures |FlattenOne(o)| == |Flatten(o.body)| + 1
  {
  }

  lemma ReadsOne(c: Context, step: nat, id: nat)
    requires c.Exposed([step], id)
    ensures step < |c.steps| && id in RootSet(c.roots, ReadValues(c.steps[step])) && c.Uses(step, id)
  {
  }

  lemma ReadsByPart(roots: seq<nat>, o: Operation, id: nat)
    requires o.Repeat? && id in RootSet(roots, ReadValues(o))
    ensures id in RootSet(roots, Values(o.inputs) + AllValues(o.iterated)) || id in RootSet(roots, Values(o.yielded))
  {
    hide RootSet, Values, AllValues;
    assert ReadValues(o) == (Values(o.inputs) + AllValues(o.iterated)) + Values(o.yielded);
    RootSetJoin(roots, Values(o.inputs) + AllValues(o.iterated), Values(o.yielded), id);
  }

  // ---------------------------------------------------------------------------
  // What is still needed is used later and was touched before
  // ---------------------------------------------------------------------------

  /** A result that the rest of the run does not write was touched at or before this step. */
  lemma {:induction false} KeptWasTouched(c: Context, ops: seq<Operation>, available: set<nat>, base: nat, k: nat, id: nat) returns (j: nat)
    requires c.Holds(ops, base) && ValidRegion(ops, available) && Aliased(c.roots, ops) && k < |Run(ops, base)|
    requires id in RootSet(c.roots, Results(ops)) && !c.Written(Run(ops, base)[k + 1..], id)
    ensures base <= j <= Run(ops, base)[k] && c.Touches(j, id)
    decreases ops
  {
    hide Flatten, FlattenOne, Run, RunOne, ValidRegion, ValidOperation, Aliased, OperationAliased, Results, RootSet, Values, ReadValues, AllValues;
    hide Context.Exposed, Context.Written, Context.Uses, Context.Touches, Context.Reads, Context.Writes, Context.Holds, Context.HoldsOne;
    if ops == [] {
      NoRun(base);
    } else {
      Peel(c, ops, available, base);
      var before, o := ops[..|ops| - 1], ops[|ops| - 1];
      var next := base + |Flatten(before)|;
      var a, b := Run(before, base), RunOne(o, next);
      RootSetJoin(c.roots, Results(before), Values(o.results), id);
      if k < |a| {
        assert (a + b)[k + 1..] == a[k + 1..] + b;
        c.WrittenJoin(a[k + 1..], b, id);
        if id in RootSet(c.roots, Values(o.results)) {
          OneWritten(c, o, next, id);
        }
        j := KeptWasTouched(c, before, available, base, k, id);
      } else {
        RunOneInside(o, next, k - |a|);
        assert (a + b)[k + 1..] == b[k + 1 - |a|..];
        if id in RootSet(c.roots, Values(o.results)) {
          j := OwnWasLast(c, o, next, k - |a|, id);
        } else {
          j := ResultsWritten(c, before, available, base, id);
        }
      }
    }
  }

  lemma OwnWasLast(c: Context, o: Operation, base: nat, k: nat, id: nat) returns (j: nat)
    requires c.HoldsOne(o, base) && (o.Repeat? ==> o.count > 0) && k < |RunOne(o, base)|
    requires id in RootSet(c.roots, Values(o.results)) && !c.Written(RunOne(o, base)[k + 1..], id)
    ensures base <= j == RunOne(o, base)[k] && c.Touches(j, id)
  {
    EndsWithOwnStep(c, o, base);
    var run := RunOne(o, base);
    j := run[k];
    RootSetJoin(c.roots, Values(o.inputs), Values(o.results), id);
  }

  /** Used at or after `step` by the operations, and touched before by them or from outside. */
  ghost predicate Covered(c: Context, available: set<nat>, base: nat, end: nat, step: nat, id: nat) {
    && (exists j :: step <= j < end && c.Uses(j, id))
    && (id in RootSet(c.roots, available) || exists j :: base <= j <= step && c.Touches(j, id))
  }

  /** What the rest of a region's run still reads is covered at every step. */
  lemma {:induction false} NeededIsCovered(c: Context, ops: seq<Operation>, available: set<nat>, base: nat, k: nat, id: nat)
    requires c.Holds(ops, base) && ValidRegion(ops, available) && Aliased(c.roots, ops)
    requires k < |Run(ops, base)| && c.Exposed(Run(ops, base)[k + 1..], id)
    ensures Covered(c, available, base, base + |Flatten(ops)|, Run(ops, base)[k], id)
    decreases ops
  {
    hide Flatten, FlattenOne, Run, RunOne, ValidRegion, ValidOperation, Aliased, OperationAliased, Results, RootSet, Values, ReadValues, AllValues;
    hide Context.Exposed, Context.Written, Context.Uses, Context.Touches, Context.Reads, Context.Writes, Context.Holds, Context.HoldsOne;
    if ops == [] {
      NoRun(base);
    } else {
      Peel(c, ops, available, base);
      var before, o := ops[..|ops| - 1], ops[|ops| - 1];
      var next := base + |Flatten(before)|;
      var a, b := Run(before, base), RunOne(o, next);
      if k < |a| {
        assert (a + b)[k + 1..] == a[k + 1..] + b;
        c.ExposedJoin(a[k + 1..], b, id);
        RunInside(before, base, k);
        if c.Exposed(a[k + 1..], id) {
          NeededIsCovered(c, before, available, base, k, id);
        } else {
          OneExposedIsAvailable(c, o, available + Results(before), next, id);
          RootSetJoin(c.roots, available, Results(before), id);
          ExposedIsUsed(c, o, next, id);
          if id in RootSet(c.roots, Results(before)) {
            var j := KeptWasTouched(c, before, available, base, k, id);
          }
        }
      } else {
        assert (a + b)[k + 1..] == b[k + 1 - |a|..];
        RunOneInside(o, next, k - |a|);
        OneNeededIsCovered(c, o, available + Results(before), next, k - |a|, id);
        RootSetJoin(c.roots, available, Results(before), id);
        if id in RootSet(c.roots, Results(before)) {
          var j := ResultsWritten(c, before, available, base, id);
        }
      }
    }
  }

  lemma ExposedIsUsed(c: Context, o: Operation, base: nat, id: nat)
    requires c.Exposed(RunOne(o, base), id)
    ensures exists j :: base <= j < base + |FlattenOne(o)| && c.Uses(j, id)
  {
    var run := RunOne(o, base);
    var q :| 0 <= q < |run| && c.Reads(run[q], id) && !c.Written(run[..q], id);
    RunOneInside(o, base, q);
    assert c.Uses(run[q], id);
  }

  lemma PlainEnds(o: Operation, base: nat)
    requires o.Plain?
    ensures |RunOne(o, base)| == 1
  {
  }

  lemma {:induction false} OneNeededIsCovered(c: Context, o: Operation, available: set<nat>, base: nat, k: nat, id: nat)
    requires c.HoldsOne(o, base) && ValidOperation(o, available) && OperationAliased(c.roots, o)
    requires k < |RunOne(o, base)| && c.Exposed(RunOne(o, base)[k + 1..], id)
    ensures Covered(c, available, base, base + |FlattenOne(o)|, RunOne(o, base)[k], id)
    decreases o
  {
    hide Flatten, FlattenOne, Run, RunOne, ValidRegion, ValidOperation, Aliased, OperationAliased, Results, RootSet, Values, ReadValues, AllValues;
    hide Context.Exposed, Context.Written, Context.Uses, Context.Touches, Context.Reads, Context.Writes, Context.Holds, Context.HoldsOne;
    hide Covered;
    if o.Repeat? {
      PeelRepeat(c, o, available, base);
      var round := Round(o, base);
      var j := TimesAt(c, round, o.count, k, id);
      RunOneInside(o, base, k);
      if c.Exposed(round[j + 1..], id) {
        RoundNeeded(c, o, available, base, j, id);
      } else {
        RoundExposed(c, o, available, base, id);
        FromOutside(c, o, available, base, round[j], id);
      }
    } else {
      PlainEnds(o, base);
      assert RunOne(o, base)[k + 1..] == [];
      NothingExposed(c, id);
    }
  }

  /** A repeat uses what its rounds read from outside to its own step. */
  lemma FromOutside(c: Context, o: Operation, available: set<nat>, base: nat, step: nat, id: nat)
    requires c.HoldsOne(o, base) && ValidOperation(o, available) && o.Repeat?
    requires base <= step < base + |FlattenOne(o)| && id in RootSet(c.roots, Values(o.inputs) + AllValues(o.iterated))
    ensures Covered(c, available, base, base + |FlattenOne(o)|, step, id)
  {
    HoldsBody(c, o, base);
    RootSetJoin(c.roots, Values(o.inputs) + AllValues(o.iterated), available, id);
    RootSetJoin(c.roots, Values(o.inputs) + AllValues(o.iterated), ReadValues(o), id);
    assert c.Uses(base + |FlattenOne(o)| - 1, id);
  }

  lemma {:induction false} RoundNeeded(c: Context, o: Operation, available: set<nat>, base: nat, j: nat, id: nat)
    requires c.HoldsOne(o, base) && o.Repeat? && ValidOperation(o, available) && OperationAliased(c.roots, o)
    requires j < |Round(o, base)| && c.Exposed(Round(o, base)[j + 1..], id)
    ensures Covered(c, available, base, base + |FlattenOne(o)|, Round(o, base)[j], id)
    decreases o, 0
  {
    hide Flatten, FlattenOne, Run, RunOne, ValidRegion, ValidOperation, Aliased, OperationAliased, Results, RootSet, Values, ReadValues, AllValues;
    hide Context.Exposed, Context.Written, Context.Uses, Context.Touches, Context.Reads, Context.Writes, Context.Holds, Context.HoldsOne;
    hide Round;
    PeelRepeat(c, o, available, base);
    RoundIs(o, base);
    var body := Run(o.body, base);
    var own := base + |Flatten(o.body)|;
    if j == |body| {
      assert Round(o, base)[j + 1..] == [];
      NothingExposed(c, id);
    } else {
      RunInside(o.body, base, j);
      assert Round(o, base)[j + 1..] == body[j + 1..] + [own];
      c.ExposedJoin(body[j + 1..], [own], id);
      if c.Exposed(body[j + 1..], id) {
        NeededIsCovered(c, o.body, Values(o.arguments), base, j, id);
        if id in RootSet(c.roots, Values(o.arguments)) {
          ArgumentsAreInputs(c.roots, o, id);
          FromOutside(c, o, available, base, body[j], id);
        }
      } else {
        OwnReads(c, o, base, id);
        if id in RootSet(c.roots, Values(o.inputs) + AllValues(o.iterated)) {
          FromOutside(c, o, available, base, body[j], id);
        } else {
          var i := KeptWasTouched(c, o.body, Values(o.arguments), base, j, id);
        }
      }
    }
  }

  /** What a step of a region's run reads is covered at that step. */
  lemma {:induction false} ReadIsCovered(c: Context, ops: seq<Operation>, available: set<nat>, base: nat, k: nat, id: nat)
    requires c.Holds(ops, base) && ValidRegion(ops, available) && Aliased(c.roots, ops)
    requires k < |Run(ops, base)| && c.Reads(Run(ops, base)[k], id)
    ensures Covered(c, available, base, base + |Flatten(ops)|, Run(ops, base)[k], id)
    decreases ops
  {
    hide Flatten, FlattenOne, Run, RunOne, ValidRegion, ValidOperation, Aliased, OperationAliased, Results, RootSet, Values, ReadValues, AllValues;
    hide Context.Exposed, Context.Written, Context.Uses, Context.Touches, Context.Reads, Context.Writes, Context.Holds, Context.HoldsOne;
    if ops == [] {
      NoRun(base);
    } else {
      Peel(c, ops, available, base);
      var before, o := ops[..|ops| - 1], ops[|ops| - 1];
      var next := base + |Flatten(before)|;
      var a, b := Run(before, base), RunOne(o, next);
      if k < |a| {
        ReadIsCovered(c, before, available, base, k, id);
      } else {
        RunOneInside(o, next, k - |a|);
        OneReadIsCovered(c, o, available + Results(before), next, k - |a|, id);
        RootSetJoin(c.roots, available, Results(before), id);
        if id in RootSet(c.roots, Results(before)) {
          var j := ResultsWritten(c, before, available, base, id);
        }
      }
    }
  }

  lemma {:induction false} OneReadIsCovered(c: Context, o: Operation, available: set<nat>, base: nat, k: nat, id: nat)
    requires c.HoldsOne(o, base) && ValidOperation(o, available) && OperationAliased(c.roots, o)
    requires k < |RunOne(o, base)| && c.Reads(RunOne(o, base)[k], id)
    ensures Covered(c, available, base, base + |FlattenOne(o)|, RunOne(o, base)[k], id)
    decreases o
  {
    hide Flatten, FlattenOne, Run, RunOne, ValidRegion, ValidOperation, Aliased, OperationAliased, Results, RootSet, Values, ReadValues, AllValues;
    hide Context.Exposed, Context.Written, Context.Uses, Context.Touches, Context.Reads, Context.Writes, Context.Holds, Context.HoldsOne;
    hide Round;
    if o.Repeat? {
      PeelRepeat(c, o, available, base);
      RoundIs(o, base);
      var body := Run(o.body, base);
      var own := base + |Flatten(o.body)|;
      var j := TimesAt(c, Round(o, base), o.count, k, id);
      if j < |body| {
        RunInside(o.body, base, j);
        ReadIsCovered(c, o.body, Values(o.arguments), base, j, id);
        if id in RootSet(c.roots, Values(o.arguments)) {
          ArgumentsAreInputs(c.roots, o, id);
          FromOutside(c, o, available, base, body[j], id);
        }
      } else {
        OwnExposes(c, own, id);
        OwnReads(c, o, base, id);
        if id in RootSet(c.roots, Values(o.inputs) + AllValues(o.iterated)) {
          FromOutside(c, o, available, base, own, id);
        } else {
          var i := ResultsWritten(c, o.body, Values(o.arguments), base, id);
        }
      }
    } else {
      PlainTouches(c, o, base, k, id);
    }
  }

  lemma OwnExposes(c: Context, step: nat, id: nat)
    requires c.Reads(step, id)
    ensures c.Exposed([step], id)
  {
    assert [step][0] == step && !c.Written([step][..0], id);
  }

  lemma PlainTouches(c: Context, o: Operation, base: nat, k: nat, id: nat)
    requires o.Plain? && c.HoldsOne(o, base) && k < |RunOne(o, base)| && c.Reads(RunOne(o, base)[k], id)
    ensures RunOne(o, base) == [base] && |FlattenOne(o)| == 1 && c.Uses(base, id) && c.Touches(base, id)
  {
    hide RootSet;
    HoldsBody(c, o, base);
    assert ReadValues(o) == Values(o.inputs);
    RootSetJoin(c.roots, Values(o.inputs), Values(o.results), id);
  }

  // ---------------------------------------------------------------------------
  // Last uses
  // ---------------------------------------------------------------------------

  ghost predicate UsesRoot(roots: seq<nat>, o: Operation, id: nat) {
    id in RootSet(roots, ReadValues(o)) || id in RootSet(roots, Values(o.results))
  }

  /** The last of the first `n` steps that uses a root, or zero. */
  ghost function LastUse(roots: seq<nat>, steps: seq<Operation>, n: nat, id: nat): nat
    requires n <= |steps|
  {
    if n == 0 then 0 else if UsesRoot(roots, steps[n - 1], id) then n - 1 else LastUse(roots, steps, n - 1, id)
  }

  /** The values whose storage is kept to the end: outputs, parameters, and resident sequences
      of more than one member. */
  function KeptValues(p: Program): set<nat> {
    Values(p.outputs) + Values(Parameters(p.inputs)) + Values(Sequences(p.copies))
  }

  function Parameters(inputs: seq<Input>): (r: seq<nat>)
    ensures forall k :: 0 <= k < |r| ==> exists i :: 0 <= i < |inputs| && inputs[i].value == r[k]
  {
    if inputs == [] then []
    else
      var last := inputs[|inputs| - 1];
      Parameters(inputs[..|inputs| - 1]) + if last.parameter then [last.value] else []
  }

  function Sequences(copies: seq<(nat, nat)>): (r: seq<nat>)
    ensures forall k :: 0 <= k < |r| ==> exists i :: 0 <= i < |copies| && copies[i].0 == r[k]
  {
    if copies == [] then []
    else
      var last := copies[|copies| - 1];
      Sequences(copies[..|copies| - 1]) + if last.1 > 1 then [last.0] else []
  }

  /** All values of a program have roots, and roots are values. */
  ghost predicate Numbered(p: Program) {
    && |p.classes| == |p.roots| && (forall v :: 0 <= v < |p.roots| ==> p.roots[v] < |p.roots|)
    && (forall i :: 0 <= i < |p.inputs| ==> p.inputs[i].value < |p.roots|)
    && InRange(p.outputs, |p.roots|)
    && (forall i :: 0 <= i < |p.copies| ==> p.copies[i].0 < |p.roots|)
    && forall i :: 0 <= i < |Flatten(p.operations)| ==> OperationInRange(Flatten(p.operations)[i], |p.roots|)
  }

  ghost predicate InRange(values: seq<nat>, n: nat) {
    forall i :: 0 <= i < |values| ==> values[i] < n
  }

  ghost predicate OperationInRange(o: Operation, n: nat) {
    && InRange(o.inputs, n) && InRange(o.results, n)
    && (o.Repeat? ==>
          && InRange(o.yielded, n) && InRange(o.arguments, n)
          && forall k :: 0 <= k < |o.iterated| ==> InRange(o.iterated[k], n))
  }

  /** Every root of the values gets the index. */
  method Mark(last: array<nat>, roots: seq<nat>, values: seq<nat>, index: nat)
    requires last.Length == |roots| && InRange(values, |roots|) && forall v :: 0 <= v < |roots| ==> roots[v] < |roots|
    modifies last
    ensures forall id :: 0 <= id < last.Length ==>
              last[id] == if id in RootSet(roots, Values(values)) then index else old(last[id])
  {
    for k := 0 to |values|
      invariant forall id :: 0 <= id < last.Length ==>
                  last[id] == if id in RootSet(roots, Values(values[..k])) then index else old(last[id])
    {
      var v := values[k];
      assert values[..k + 1] == values[..k] + [v];
      assert Values(values[..k + 1]) == Values(values[..k]) + {v};
      last[roots[v]] := index;
    }
    assert values[..|values|] == values;
  }

  /** Every root that a step uses gets the step's index. */
  method MarkStep(last: array<nat>, roots: seq<nat>, o: Operation, index: nat)
    requires last.Length == |roots| && OperationInRange(o, |roots|) && forall v :: 0 <= v < |roots| ==> roots[v] < |roots|
    modifies last
    ensures forall id :: 0 <= id < last.Length ==> last[id] == if UsesRoot(roots, o, id) then index else old(last[id])
  {
    hide RootSet, Values, AllValues, ReadValues;
    Mark(last, roots, o.inputs, index);
    Mark(last, roots, o.results, index);
    if o.Repeat? {
      ghost var before := last[..];
      NothingIterated(roots, o.iterated);
      for k := 0 to |o.iterated|
        invariant forall id :: 0 <= id < last.Length ==>
                    last[id] == if id in RootSet(roots, AllValues(o.iterated[..k])) then index else before[id]
      {
        Mark(last, roots, o.iterated[k], index);
        AllValuesJoin(o.iterated, k);
        forall id: nat
          ensures id in RootSet(roots, AllValues(o.iterated[..k + 1])) <==>
                  id in RootSet(roots, AllValues(o.iterated[..k])) || id in RootSet(roots, Values(o.iterated[k]))
        {
          RootSetJoin(roots, AllValues(o.iterated[..k]), Values(o.iterated[k]), id);
        }
      }
      assert o.iterated[..|o.iterated|] == o.iterated;
      Mark(last, roots, o.yielded, index);
    }
    forall id: nat
      ensures UsesRoot(roots, o, id) <==>
              || id in RootSet(roots, Values(o.inputs)) || id in RootSet(roots, Values(o.results))
              || (o.Repeat? && (id in RootSet(roots, AllValues(o.iterated)) || id in RootSet(roots, Values(o.yielded))))
    {
      UsesByPart(roots, o, id);
    }
  }

  lemma AllValuesJoin(s: seq<seq<nat>>, k: nat)
    requires k < |s|
    ensures AllValues(s[..k + 1]) == AllValues(s[..k]) + Values(s[k])
  {
    assert s[..k + 1] == s[..k] + [s[k]];
  }

  lemma NothingIterated(roots: seq<nat>, s: seq<seq<nat>>)
    ensures forall id: nat :: id !in RootSet(roots, AllValues(s[..0]))
  {
  }

  lemma UsesByPart(roots: seq<nat>, o: Operation, id: nat)
    ensures UsesRoot(roots, o, id) <==>
            || id in RootSet(roots, Values(o.inputs)) || id in RootSet(roots, Values(o.results))
            || (o.Repeat? && (id in RootSet(roots, AllValues(o.iterated)) || id in RootSet(roots, Values(o.yielded))))
  {
    hide RootSet, Values, AllValues;
    if o.Repeat? {
      RootSetJoin(roots, Values(o.inputs), AllValues(o.iterated) + Values(o.yielded), id);
      RootSetJoin(roots, AllValues(o.iterated), Values(o.yielded), id);
    } else {
      assert ReadValues(o) == Values(o.inputs);
    }
  }

  /** What the analysis takes for a root's last use. */
  ghost function LastIndex(p: Program, steps: seq<Operation>, id: nat): nat {
    if id in RootSet(p.roots, KeptValues(p)) then |steps| else LastUse(p.roots, steps, |steps|, id)
  }

  method ComputeLast(p: Program, steps: seq<Operation>) returns (last: array<nat>)
    requires Numbered(p) && steps == Flatten(p.operations)
    ensures fresh(last) && last.Length == |p.roots|
    ensures forall id :: 0 <= id < last.Length ==> last[id] == LastIndex(p, steps, id)
  {
    hide RootSet, Flatten, UsesRoot, Values, KeptValues;
    last := new nat[|p.roots|](_ => 0);
    for index := 0 to |steps|
      invariant forall id :: 0 <= id < last.Length ==> last[id] == LastUse(p.roots, steps, index, id)
    {
      MarkStep(last, p.roots, steps[index], index);
    }
    Mark(last, p.roots, p.outputs + Parameters(p.inputs), |steps|);
    Mark(last, p.roots, Sequences(p.copies), |steps|);
    forall id: nat
      ensures id in RootSet(p.roots, KeptValues(p)) <==>
              || id in RootSet(p.roots, Values(p.outputs + Parameters(p.inputs)))
              || id in RootSet(p.roots, Values(Sequences(p.copies)))
    {
      KeptByPart(p, id);
    }
  }

  lemma KeptByPart(p: Program, id: nat)
    ensures id in RootSet(p.roots, KeptValues(p)) <==>
            || id in RootSet(p.roots, Values(p.outputs + Parameters(p.inputs)))
            || id in RootSet(p.roots, Values(Sequences(p.copies)))
  {
    hide RootSet;
    assert Values(p.outputs + Parameters(p.inputs)) == Values(p.outputs) + Values(Parameters(p.inputs));
    RootSetJoin(p.roots, Values(p.outputs + Parameters(p.inputs)), Values(Sequences(p.copies)), id);
  }

  // ---------------------------------------------------------------------------
  // The plan
  // ---------------------------------------------------------------------------

  function InputValues(p: Program): set<nat> {
    set input | input in p.inputs :: input.value
  }

  function TouchedRoots(roots: seq<nat>, o: Operation): (r: seq<nat>)
    requires OperationInRange(o, |roots|)
    ensures forall id: nat :: Touches(r, id) <==> id in RootSet(roots, Values(o.inputs) + Values(o.results))
    ensures forall k :: 0 <= k < |r| ==> r[k] in roots
  {
    var values := o.inputs + o.results;
    var r := seq(|values|, k requires 0 <= k < |values| => roots[values[k]]);
    TouchedAre(roots, values, r);
    assert Values(values) == Values(o.inputs) + Values(o.results);
    r
  }

  lemma TouchedAre(roots: seq<nat>, values: seq<nat>, r: seq<nat>)
    requires |r| == |values| && InRange(values, |roots|) && forall k :: 0 <= k < |r| ==> r[k] == roots[values[k]]
    ensures forall id: nat :: Touches(r, id) <==> id in RootSet(roots, Values(values))
  {
    forall id: nat
      ensures Touches(r, id) <==> id in RootSet(roots, Values(values))
    {
      if Touches(r, id) {
        var k :| 0 <= k < |r| && r[k] == id;
        assert values[k] in Values(values);
      }
      if id in RootSet(roots, Values(values)) {
        var v :| v in Values(values) && v < |roots| && roots[v] == id;
        var k :| 0 <= k < |values| && values[k] == v;
        assert r[k] == id;
      }
    }
  }

  /** What the memory analysis takes from the program: its inputs are live from the start, a step
      touches its inputs and results, and roots die after their last index. */
  ghost function PlanOf(p: Program): (plan: Plan)
    requires Numbered(p)
    ensures plan.Valid() && |plan.classes| == |p.roots| && |plan.touched| == |Flatten(p.operations)|
  {
    var steps := Flatten(p.operations);
    Plan(p.classes,
         seq(|p.roots|, id requires 0 <= id < |p.roots| => id in RootSet(p.roots, InputValues(p))),
         seq(|steps|, i requires 0 <= i < |steps| => TouchedRoots(p.roots, steps[i])),
         seq(|p.roots|, id requires 0 <= id < |p.roots| => LastIndex(p, steps, id)))
  }

  lemma {:induction false} LastUseIs(roots: seq<nat>, steps: seq<Operation>, n: nat, i: nat, id: nat)
    requires n <= |steps|
    ensures LastUse(roots, steps, n, id) >= i <==> i == 0 || exists j :: i <= j < n && UsesRoot(roots, steps[j], id)
  {
    hide UsesRoot;
    if n > 0 {
      LastUseIs(roots, steps, n - 1, i, id);
    }
  }

  /** A root is live in a step exactly when it is an input or has been touched, and is used at
      or after the step or kept to the end; unused inputs stay for the first step. */
  lemma LiveIff(p: Program, i: nat, id: nat)
    requires Numbered(p) && i < |Flatten(p.operations)| && id < |p.roots|
    ensures var c := Context(p.roots, Flatten(p.operations));
      LiveAt(PlanOf(p), i + 1)[id] <==>
      && (id in RootSet(p.roots, InputValues(p)) || exists j :: 0 <= j <= i && c.Touches(j, id))
      && (id in RootSet(p.roots, KeptValues(p)) || i == 0 || exists j :: i <= j < |c.steps| && c.Uses(j, id))
  {
    hide RootSet, Flatten, KeptValues, InputValues, LiveAt, Values, ReadValues;
    var plan, steps := PlanOf(p), Flatten(p.operations);
    var c := Context(p.roots, steps);
    forall j | 0 <= j < |plan.touched|
      ensures Touches(plan.touched[j], id) <==> c.Touches(j, id)
      ensures c.Uses(j, id) <==> UsesRoot(p.roots, steps[j], id)
      ensures Touches(plan.touched[j], id) ==> j <= plan.last[id]
    {
      LastUseIs(p.roots, steps, |steps|, j, id);
      TouchedIsUsed(p.roots, steps[j], id);
    }
    StorageAccounting.LiveIff(plan, i, id);
    LastUseIs(p.roots, steps, |steps|, i, id);
  }

  lemma TouchedIsUsed(roots: seq<nat>, o: Operation, id: nat)
    ensures id in RootSet(roots, Values(o.inputs) + Values(o.results)) ==> UsesRoot(roots, o, id)
  {
    hide RootSet;
    RootSetJoin(roots, Values(o.inputs), Values(o.results), id);
    RootSetJoin(roots, Values(o.inputs), ReadValues(o), id);
  }

  // ---------------------------------------------------------------------------
  // The running program
  // ---------------------------------------------------------------------------

  /** What the program validator and the alias roots give. */
  ghost predicate WellFormed(p: Program) {
    && Numbered(p)
    && ValidRegion(p.operations, InputValues(p)) && Aliased(p.roots, p.operations)
    && Values(p.outputs) <= InputValues(p) + Results(p.operations)
  }

  /** After step `k` of the run, or in it, what the root holds is still to be read. */
  ghost predicate Needed(p: Program, k: nat, id: nat)
    requires k < |Run(p.operations, 0)|
  {
    var c, run := Context(p.roots, Flatten(p.operations)), Run(p.operations, 0);
    || c.Reads(run[k], id) || c.Exposed(run[k + 1..], id)
    || (id in RootSet(p.roots, Values(p.outputs)) && !c.Written(run[k + 1..], id))
  }

  /** Whatever storage the unrolled program still reads, after any step of its run, is live in
      the analysis of that step. */
  lemma NeededIsLive(p: Program, k: nat, id: nat)
    requires WellFormed(p) && id < |p.roots| && k < |Run(p.operations, 0)| && Needed(p, k, id)
    ensures Run(p.operations, 0)[k] < |Flatten(p.operations)|
    ensures LiveAt(PlanOf(p), Run(p.operations, 0)[k] + 1)[id]
  {
    hide Flatten, FlattenOne, Run, RunOne, ValidRegion, ValidOperation, Aliased, OperationAliased, Results, RootSet, Values, ReadValues, AllValues;
    hide Context.Exposed, Context.Written, Context.Uses, Context.Touches, Context.Reads, Context.Writes, Context.Holds, Context.HoldsOne;
    hide PlanOf, LiveAt, Numbered, InputValues, KeptValues;
    var c, run := Context(p.roots, Flatten(p.operations)), Run(p.operations, 0);
    RunInside(p.operations, 0, k);
    WholeHolds(c, p.operations);
    LiveIff(p, run[k], id);
    if c.Reads(run[k], id) {
      ReadIsCovered(c, p.operations, InputValues(p), 0, k, id);
    } else if c.Exposed(run[k + 1..], id) {
      NeededIsCovered(c, p.operations, InputValues(p), 0, k, id);
    } else {
      OutputsKept(p, id);
      RootSetJoin(p.roots, InputValues(p), Results(p.operations), id);
      RootSetJoin(p.roots, Values(p.outputs), InputValues(p) + Results(p.operations), id);
      if id in RootSet(p.roots, Results(p.operations)) {
        var j := KeptWasTouched(c, p.operations, InputValues(p), 0, k, id);
      }
    }
  }

  lemma WholeHolds(c: Context, ops: seq<Operation>)
    requires c.steps == Flatten(ops)
    ensures c.Holds(ops, 0)
  {
    assert c.steps[0..|c.steps|] == c.steps;
  }

  lemma OutputsKept(p: Program, id: nat)
    ensures id in RootSet(p.roots, Values(p.outputs)) ==> id in RootSet(p.roots, KeptValues(p))
  {
    RootSetJoin(p.roots, Values(p.outputs), KeptValues(p), id);
  }
}
