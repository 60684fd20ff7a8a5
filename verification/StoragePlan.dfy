/** What the memory analysis works out about a program before it adds up any memory
    (crates/ipu-codegen/src/estimate/mid.rs): the flattened steps, the alias roots of all
    values, and the last use of every root. For every program that the validator accepts the
    result is well formed, so the liveness theorem of `StorageLiveness` holds of it. */
module StoragePlan {
  import opened StorageAccounting
  import opened StorageLiveness
  import AliasRoots

  /** Pairs of the elements at the same positions, up to the shorter list. */
  function Zip(a: seq<nat>, b: seq<nat>): (r: seq<(nat, nat)>)
    ensures |r| == if |a| < |b| then |a| else |b|
    ensures forall k :: 0 <= k < |r| ==> r[k] == (a[k], b[k])
  {
    seq(if |a| < |b| then |a| else |b|, k requires 0 <= k < |a| && k < |b| => (a[k], b[k]))
  }

  function Firsts(lists: seq<seq<nat>>): (r: seq<nat>)
    requires forall k :: 0 <= k < |lists| ==> lists[k] != []
    ensures |r| == |lists| && forall k :: 0 <= k < |lists| ==> r[k] == lists[k][0]
  {
    seq(|lists|, k requires 0 <= k < |lists| => lists[k][0])
  }

  /** An operation whose pairs can be formed. */
  ghost predicate Paired(o: Operation) {
    && (forall k :: 0 <= k < |o.aliases| ==> o.aliases[k].0 < |o.results| && o.aliases[k].1 < |o.inputs|)
    && (o.Repeat? ==> |o.inputs| <= |o.arguments| && forall k :: 0 <= k < |o.iterated| ==> o.iterated[k] != [])
  }

  ghost predicate AllPaired(steps: seq<Operation>) {
    forall i :: 0 <= i < |steps| ==> Paired(steps[i])
  }

  /** The pairs of values that an operation makes share their storage. */
  function PairsOf(o: Operation): seq<(nat, nat)>
    requires Paired(o)
  {
    seq(|o.aliases|, k requires 0 <= k < |o.aliases| => (o.results[o.aliases[k].0], o.inputs[o.aliases[k].1]))
    + if o.Repeat? then
        Zip(o.arguments, o.inputs) + Zip(o.results, o.inputs) + Zip(o.arguments[|o.inputs|..], Firsts(o.iterated))
      else []
  }

  function AllPairs(steps: seq<Operation>): seq<(nat, nat)>
    requires AllPaired(steps)
  {
    if steps == [] then [] else AllPairs(steps[..|steps| - 1]) + PairsOf(steps[|steps| - 1])
  }

  lemma {:induction false} AllPairsJoin(a: seq<Operation>, b: seq<Operation>)
    requires AllPaired(a) && AllPaired(b)
    ensures AllPaired(a + b) && AllPairs(a + b) == AllPairs(a) + AllPairs(b)
  {
    hide Paired, PairsOf;
    PairedJoin(a, b);
    if b == [] {
      assert a + b == a;
    } else {
      var last := |b| - 1;
      AllPairsJoin(a, b[..last]);
      assert (a + b)[..|a + b| - 1] == a + b[..last] && (a + b)[|a + b| - 1] == b[last];
      assert AllPairs(a + b) == AllPairs(a + b[..last]) + PairsOf(b[last]);
    }
  }

  lemma PairedJoin(a: seq<Operation>, b: seq<Operation>)
    requires AllPaired(a) && AllPaired(b)
    ensures AllPaired(a + b)
  {
    hide Paired;
  }

  /** The roots agree on every pair. */
  ghost predicate Joins(roots: seq<nat>, pairs: seq<(nat, nat)>) {
    forall k :: 0 <= k < |pairs| ==> SameRoot(roots, pairs[k].0, pairs[k].1)
  }

  lemma JoinsParts(roots: seq<nat>, a: seq<(nat, nat)>, b: seq<(nat, nat)>)
    ensures Joins(roots, a + b) <==> Joins(roots, a) && Joins(roots, b)
  {
    if Joins(roots, a + b) {
      forall k | 0 <= k < |b|
        ensures SameRoot(roots, b[k].0, b[k].1)
      {
        assert (a + b)[|a| + k] == b[k];
      }
      forall k | 0 <= k < |a|
        ensures SameRoot(roots, a[k].0, a[k].1)
      {
        assert (a + b)[k] == a[k];
      }
    }
  }

  /** Roots that agree on the pairs of all steps alias every body's arguments. */
  lemma {:induction false} PairsAlias(roots: seq<nat>, ops: seq<Operation>, available: set<nat>)
    requires ValidRegion(ops, available)
    ensures AllPaired(Flatten(ops))
    ensures Joins(roots, AllPairs(Flatten(ops))) ==> Aliased(roots, ops)
    decreases ops
  {
    hide Paired, PairsOf, Joins, ValidOperation, OperationAliased, FlattenOne;
    if ops != [] {
      var before, o := ops[..|ops| - 1], ops[|ops| - 1];
      PairsAlias(roots, before, available);
      OnePairsAlias(roots, o, available + Results(before));
      AllPairsJoin(Flatten(before), FlattenOne(o));
      JoinsParts(roots, AllPairs(Flatten(before)), AllPairs(FlattenOne(o)));
    }
  }

  lemma {:induction false} OnePairsAlias(roots: seq<nat>, o: Operation, available: set<nat>)
    requires ValidOperation(o, available)
    ensures AllPaired(FlattenOne(o))
    ensures Joins(roots, AllPairs(FlattenOne(o))) ==> OperationAliased(roots, o)
    decreases o
  {
    hide Joins, PairsOf, Flatten, AllPairs;
    ValidIsPaired(o, available);
    OwnPairs(o);
    if o.Repeat? {
      PairsAlias(roots, o.body, Values(o.arguments));
      AllPairsJoin(Flatten(o.body), [o]);
      JoinsParts(roots, AllPairs(Flatten(o.body)), PairsOf(o));
      if Joins(roots, PairsOf(o)) {
        RepeatAliases(roots, o, available);
      }
    }
  }

  lemma ValidIsPaired(o: Operation, available: set<nat>)
    requires ValidOperation(o, available)
    ensures Paired(o)
  {
  }

  lemma OwnPairs(o: Operation)
    requires Paired(o)
    ensures AllPaired([o]) && AllPairs([o]) == PairsOf(o)
  {
    assert [o][..0] == [];
  }

  lemma RepeatAliases(roots: seq<nat>, o: Operation, available: set<nat>)
    requires o.Repeat? && ValidOperation(o, available) && Paired(o) && Joins(roots, PairsOf(o))
    ensures forall k :: 0 <= k < |o.inputs| ==> SameRoot(roots, o.arguments[k], o.inputs[k])
    ensures forall k :: 0 <= k < |o.iterated| ==> o.iterated[k] != [] && SameRoot(roots, o.arguments[|o.inputs| + k], o.iterated[k][0])
  {
    hide SameRoot, ValidRegion, Joins, Zip, Firsts, AllValues;
    PartsJoin(roots, o);
    JoinedPairs(roots, o.arguments, o.inputs);
    JoinedPairs(roots, o.arguments[|o.inputs|..], Firsts(o.iterated));
  }

  /** The roots agree on the pairs of a repeat's arguments. */
  lemma PartsJoin(roots: seq<nat>, o: Operation)
    requires o.Repeat? && Paired(o) && Joins(roots, PairsOf(o))
    ensures Joins(roots, Zip(o.arguments, o.inputs)) && Joins(roots, Zip(o.arguments[|o.inputs|..], Firsts(o.iterated)))
  {
    hide SameRoot, Joins, Zip, Firsts;
    var own := seq(|o.aliases|, k requires 0 <= k < |o.aliases| => (o.results[o.aliases[k].0], o.inputs[o.aliases[k].1]));
    var arguments, results := Zip(o.arguments, o.inputs), Zip(o.results, o.inputs);
    var iterated := Zip(o.arguments[|o.inputs|..], Firsts(o.iterated));
    assert PairsOf(o) == own + ((arguments + results) + iterated);
    JoinsParts(roots, own, (arguments + results) + iterated);
    JoinsParts(roots, arguments + results, iterated);
    JoinsParts(roots, arguments, results);
  }

  lemma JoinedPairs(roots: seq<nat>, a: seq<nat>, b: seq<nat>)
    requires Joins(roots, Zip(a, b))
    ensures forall k :: 0 <= k < |a| && k < |b| ==> SameRoot(roots, a[k], b[k])
  {
    hide SameRoot;
    var pairs := Zip(a, b);
    forall k | 0 <= k < |a| && k < |b|
      ensures SameRoot(roots, a[k], b[k])
    {
      assert pairs[k] == (a[k], b[k]);
    }
  }

  // ---------------------------------------------------------------------------
  // The analysis
  // ---------------------------------------------------------------------------

  /** The alias pairs of all steps, in order; none if an iterated list is empty. */
  method CollectAliases(steps: seq<Operation>) returns (r: Option<seq<(nat, nat)>>)
    requires forall i :: 0 <= i < |steps| ==> CanPair(steps[i])
    ensures r.Some? <==> AllPaired(steps)
    ensures r.Some? ==> r.value == AllPairs(steps)
  {
    hide PairsOf, CanPair;
    var pairs := [];
    for i := 0 to |steps|
      invariant AllPaired(steps[..i]) && pairs == AllPairs(steps[..i])
    {
      var ok := Listed(steps[i]);
      if !ok {
        assert !Paired(steps[i]);
        return None;
      }
      assert steps[..i + 1][..i] == steps[..i];
      pairs := pairs + PairsOf(steps[i]);
    }
    assert steps[..|steps|] == steps;
    r := Some(pairs);
  }

  ghost predicate CanPair(o: Operation) {
    && (forall k :: 0 <= k < |o.aliases| ==> o.aliases[k].0 < |o.results| && o.aliases[k].1 < |o.inputs|)
    && (o.Repeat? ==> |o.inputs| <= |o.arguments|)
  }

  /** No iterated list of the operation is empty. */
  method Listed(o: Operation) returns (ok: bool)
    requires CanPair(o)
    ensures ok <==> Paired(o)
  {
    if o.Repeat? {
      for k := 0 to |o.iterated|
        invariant forall j :: 0 <= j < k ==> o.iterated[j] != []
      {
        if o.iterated[k] == [] {
          return false;
        }
      }
    }
    ok := true;
  }

  /** A program over `|classes|` values, before anything is known of its roots, that the
      validator accepts. */
  ghost predicate Validated(p: Program) {
    && Numbered(p.(roots := AliasRoots.Identity(|p.classes|)))
    && ValidRegion(p.operations, InputValues(p))
    && Values(p.outputs) <= InputValues(p) + Results(p.operations)
  }

  lemma {:induction false} ValidCanPair(ops: seq<Operation>, available: set<nat>)
    requires ValidRegion(ops, available)
    ensures forall i :: 0 <= i < |Flatten(ops)| ==> CanPair(Flatten(ops)[i])
    decreases ops
  {
    hide CanPair, ValidOperation;
    if ops != [] {
      var before, o := ops[..|ops| - 1], ops[|ops| - 1];
      ValidCanPair(before, available);
      OneCanPair(o, available + Results(before));
    }
  }

  lemma {:induction false} OneCanPair(o: Operation, available: set<nat>)
    requires ValidOperation(o, available)
    ensures forall i :: 0 <= i < |FlattenOne(o)| ==> CanPair(FlattenOne(o)[i])
    decreases o
  {
    if o.Repeat? {
      ValidCanPair(o.body, Values(o.arguments));
    }
  }

  lemma {:induction false} PairsInRange(steps: seq<Operation>, n: nat)
    requires AllPaired(steps) && forall i :: 0 <= i < |steps| ==> OperationInRange(steps[i], n)
    ensures AliasRoots.InRange(AllPairs(steps), n)
  {
    hide Paired, PairsOf, OperationInRange;
    if steps != [] {
      PairsInRange(steps[..|steps| - 1], n);
      OwnInRange(steps[|steps| - 1], n);
    }
  }

  lemma OwnInRange(o: Operation, n: nat)
    requires Paired(o) && OperationInRange(o, n)
    ensures AliasRoots.InRange(PairsOf(o), n)
  {
    hide Zip, Firsts, InRange;
    var own := seq(|o.aliases|, k requires 0 <= k < |o.aliases| => (o.results[o.aliases[k].0], o.inputs[o.aliases[k].1]));
    OwnAliasesInRange(o, own, n);
    if o.Repeat? {
      ZipInRange(o.arguments, o.inputs, n);
      ZipInRange(o.results, o.inputs, n);
      FirstsInRange(o.iterated, n);
      RestInRange(o.arguments, |o.inputs|, n);
      ZipInRange(o.arguments[|o.inputs|..], Firsts(o.iterated), n);
    }
  }

  lemma OwnAliasesInRange(o: Operation, own: seq<(nat, nat)>, n: nat)
    requires Paired(o) && OperationInRange(o, n) && |own| == |o.aliases|
    requires forall k :: 0 <= k < |own| ==> own[k] == (o.results[o.aliases[k].0], o.inputs[o.aliases[k].1])
    ensures AliasRoots.InRange(own, n)
  {
  }

  lemma ZipInRange(a: seq<nat>, b: seq<nat>, n: nat)
    requires InRange(a, n) && InRange(b, n)
    ensures AliasRoots.InRange(Zip(a, b), n)
  {
  }

  lemma FirstsInRange(lists: seq<seq<nat>>, n: nat)
    requires forall k :: 0 <= k < |lists| ==> lists[k] != [] && InRange(lists[k], n)
    ensures InRange(Firsts(lists), n)
  {
  }

  lemma RestInRange(a: seq<nat>, from: nat, n: nat)
    requires InRange(a, n) && from <= |a|
    ensures InRange(a[from..], n)
  {
  }

  /** The labels that join the pairs of a validated program make it well formed. */
  lemma LabelsAreRoots(p: Program)
    requires Validated(p)
    ensures AllPaired(Flatten(p.operations)) && AliasRoots.InRange(AllPairs(Flatten(p.operations)), |p.classes|)
    ensures WellFormed(p.(roots := AliasRoots.Labels(AllPairs(Flatten(p.operations)), |p.classes|)))
  {
    hide Paired, PairsOf, AllPairs, Flatten, SameRoot, ValidRegion, Results, Aliased;
    var n, steps := |p.classes|, Flatten(p.operations);
    PairsAlias([], p.operations, InputValues(p));
    PairsInRange(steps, n);
    var pairs := AllPairs(steps);
    var roots := AliasRoots.Labels(pairs, n);
    AliasRoots.LabelsAreLeast(pairs, n);
    PairsAlias(roots, p.operations, InputValues(p));
    forall k | 0 <= k < |pairs|
      ensures SameRoot(roots, pairs[k].0, pairs[k].1)
    {
      LabelAgrees(pairs, n, k);
    }
  }

  lemma LabelAgrees(pairs: seq<(nat, nat)>, n: nat, k: nat)
    requires AliasRoots.InRange(pairs, n) && k < |pairs|
    ensures SameRoot(AliasRoots.Labels(pairs, n), pairs[k].0, pairs[k].1)
  {
    AliasRoots.LabelsJoin(pairs, n, k);
  }

  /** Steps, roots and last uses of a validated program. Whatever storage its unrolled run reads
      in a step, or still reads later, is live in the analysis of that step. */
  method Analyze(p: Program) returns (rooted: Program, last: array<nat>)
    requires Validated(p)
    ensures rooted == p.(roots := rooted.roots) && WellFormed(rooted)
    ensures AllPaired(Flatten(p.operations)) && AliasRoots.InRange(AllPairs(Flatten(p.operations)), |p.classes|)
    ensures rooted.roots == AliasRoots.Labels(AllPairs(Flatten(p.operations)), |p.classes|)
    ensures fresh(last) && last[..] == PlanOf(rooted).last
    ensures forall k: nat, id: nat ::
              k < |Run(p.operations, 0)| && id < |rooted.roots| && Needed(rooted, k, id) ==>
              Run(p.operations, 0)[k] < |Flatten(p.operations)| && LiveAt(PlanOf(rooted), Run(p.operations, 0)[k] + 1)[id]
  {
    hide Flatten, Run, Needed, LiveAt, ValidRegion, AllPairs, Aliased, Numbered, LastIndex, Results;
    LabelsAreRoots(p);
    ValidCanPair(p.operations, InputValues(p));
    var steps := Flatten(p.operations);
    var pairs := CollectAliases(steps);
    var roots := AliasRoots.AliasRoots(pairs.value, |p.classes|);
    rooted := p.(roots := roots);
    last := ComputeLast(rooted, steps);
    forall k: nat, id: nat | k < |Run(p.operations, 0)| && id < |rooted.roots| && Needed(rooted, k, id)
      ensures Run(p.operations, 0)[k] < |Flatten(p.operations)| && LiveAt(PlanOf(rooted), Run(p.operations, 0)[k] + 1)[id]
    {
      NeededIsLive(rooted, k, id);
    }
  }
}
