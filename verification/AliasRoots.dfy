/** Storage aliases in the planner (crates/ipu-codegen/src/estimate/mid.rs).

    Values that share storage are merged by a union-find forest in which every parent has
    a smaller index. The module proves that the forest, whatever its shape, answers like
    the plainest reference: a label per value, where merging two values relabels all
    values of one of them. The labels are the finest merging that joins every alias pair. */
module AliasRoots {

  type Alias = (nat, nat)

  ghost predicate InRange(aliases: seq<Alias>, n: nat) {
    forall k :: 0 <= k < |aliases| ==> aliases[k].0 < n && aliases[k].1 < n
  }

  /** Relabel every value that carries label `from`. */
  ghost function Relabel(labels: seq<nat>, from: nat, to: nat): (r: seq<nat>)
    ensures |r| == |labels|
    ensures forall i :: 0 <= i < |labels| ==> r[i] == if labels[i] == from then to else labels[i]
  {
    seq(|labels|, i requires 0 <= i < |labels| => if labels[i] == from then to else labels[i])
  }

  function Min2(a: nat, b: nat): nat {
    if a < b then a else b
  }

  function Max2(a: nat, b: nat): nat {
    if a < b then b else a
  }

  function Identity(n: nat): (r: seq<nat>)
    ensures |r| == n && forall i :: 0 <= i < n ==> r[i] == i
  {
    seq(n, (i: nat) => i)
  }

  /** The reference: one label per value, starting with its own index. */
  ghost function Labels(aliases: seq<Alias>, n: nat): (r: seq<nat>)
    requires InRange(aliases, n)
    ensures |r| == n
  {
    if aliases == [] then Identity(n)
    else
      var before := Labels(aliases[..|aliases| - 1], n);
      var (a, b) := aliases[|aliases| - 1];
      Relabel(before, Max2(before[a], before[b]), Min2(before[a], before[b]))
  }

  /** Every label is the smallest index of its class. */
  lemma {:induction false} LabelsAreLeast(aliases: seq<Alias>, n: nat)
    requires InRange(aliases, n)
    ensures forall i :: 0 <= i < n ==>
              Labels(aliases, n)[i] <= i && Labels(aliases, n)[Labels(aliases, n)[i]] == Labels(aliases, n)[i]
  {
    if aliases != [] {
      LabelsAreLeast(aliases[..|aliases| - 1], n);
    }
  }

  /** Labels join every alias pair. */
  lemma {:induction false} LabelsJoin(aliases: seq<Alias>, n: nat, k: nat)
    requires InRange(aliases, n) && k < |aliases|
    ensures Labels(aliases, n)[aliases[k].0] == Labels(aliases, n)[aliases[k].1]
  {
    if k < |aliases| - 1 {
      LabelsJoin(aliases[..|aliases| - 1], n, k);
    }
  }

  /** Labels join nothing else: any colouring that agrees on every alias pair agrees on
      every value and its label. */
  lemma {:induction false} LabelsAreFinest<T>(aliases: seq<Alias>, n: nat, colour: seq<T>, i: nat)
    requires InRange(aliases, n) && |colour| == n && i < n
    requires forall k :: 0 <= k < |aliases| ==> colour[aliases[k].0] == colour[aliases[k].1]
    ensures Labels(aliases, n)[i] < n && colour[Labels(aliases, n)[i]] == colour[i]
  {
    LabelsAreLeast(aliases, n);
    if aliases != [] {
      var last := |aliases| - 1;
      var (a, b) := aliases[last];
      LabelsAreLeast(aliases[..last], n);
      LabelsAreFinest(aliases[..last], n, colour, i);
      LabelsAreFinest(aliases[..last], n, colour, a);
      LabelsAreFinest(aliases[..last], n, colour, b);
    }
  }

  // ---------------------------------------------------------------------------
  // The forest
  // ---------------------------------------------------------------------------

  ghost predicate IsForest(parent: seq<nat>) {
    forall i :: 0 <= i < |parent| ==> parent[i] <= i
  }

  ghost function RootOf(parent: seq<nat>, id: nat): (r: nat)
    requires IsForest(parent) && id < |parent|
    ensures r <= id && parent[r] == r
  {
    if parent[id] == id then id else RootOf(parent, parent[id])
  }

  method Root(parent: seq<nat>, id: nat) returns (r: nat)
    requires IsForest(parent) && id < |parent|
    ensures r == RootOf(parent, id)
  {
    r := id;
    while parent[r] != r
      invariant r <= id && RootOf(parent, r) == RootOf(parent, id)
      decreases r
    {
      r := parent[r];
    }
  }

  /** Hanging one root under another relabels exactly the values below it. */
  lemma {:induction false} UnionRelabels(parent: seq<nat>, from: nat, to: nat, id: nat)
    requires IsForest(parent) && id < |parent| && to <= from < |parent|
    requires parent[from] == from && parent[to] == to
    ensures IsForest(parent[from := to])
    ensures RootOf(parent[from := to], id) == if RootOf(parent, id) == from then to else RootOf(parent, id)
  {
    var next := parent[from := to];
    if id == from {
      assert RootOf(next, to) == to;
    } else if parent[id] != id {
      UnionRelabels(parent, from, to, parent[id]);
    }
  }

  ghost predicate Answers(parent: seq<nat>, aliases: seq<Alias>, n: nat)
    requires InRange(aliases, n)
  {
    && |parent| == n && IsForest(parent)
    && forall i :: 0 <= i < n ==> RootOf(parent, i) == Labels(aliases, n)[i]
  }

  method Union(parent: seq<nat>, alias: Alias, ghost done: seq<Alias>) returns (next: seq<nat>)
    requires InRange(done + [alias], |parent|) && InRange(done, |parent|)
    requires Answers(parent, done, |parent|)
    ensures |next| == |parent| && Answers(next, done + [alias], |next|)
  {
    assert (done + [alias])[|done|] == alias;
    var a := Root(parent, alias.0);
    var b := Root(parent, alias.1);
    next := parent[Max2(a, b) := Min2(a, b)];
    assert (done + [alias])[..|done|] == done;
    forall i | 0 <= i < |parent|
      ensures IsForest(next) && RootOf(next, i) == Labels(done + [alias], |parent|)[i]
    {
      UnionRelabels(parent, Max2(a, b), Min2(a, b), i);
    }
  }

  /** Merge all alias pairs, then point every value at its root. */
  method AliasRoots(aliases: seq<Alias>, n: nat) returns (roots: seq<nat>)
    requires InRange(aliases, n)
    ensures roots == Labels(aliases, n)
  {
    var parent: seq<nat> := Identity(n);
    for k := 0 to |aliases|
      invariant |parent| == n && InRange(aliases[..k], n) && Answers(parent, aliases[..k], n)
    {
      assert aliases[..k + 1] == aliases[..k] + [aliases[k]];
      parent := Union(parent, aliases[k], aliases[..k]);
    }
    assert aliases[..|aliases|] == aliases;
    roots := PointAtRoots(parent);
    assert roots == Labels(aliases, n);
  }

  /** Point every value at its root, in place. */
  method PointAtRoots(parent: seq<nat>) returns (roots: seq<nat>)
    requires IsForest(parent)
    ensures |roots| == |parent| && forall i :: 0 <= i < |parent| ==> roots[i] == RootOf(parent, i)
  {
    roots := parent;
    for id := 0 to |parent|
      invariant |roots| == |parent| && IsForest(roots)
      invariant forall i :: 0 <= i < |parent| ==> RootOf(roots, i) == RootOf(parent, i)
      invariant forall i :: 0 <= i < id ==> roots[i] == RootOf(parent, i)
    {
      var r := Root(roots, id);
      forall i | 0 <= i < |parent|
        ensures IsForest(roots[id := r]) && RootOf(roots[id := r], i) == RootOf(roots, i)
      {
        ShortcutKeepsRoots(roots, id, i);
      }
      roots := roots[id := r];
    }
  }

  lemma {:induction false} ShortcutKeepsRoots(parent: seq<nat>, id: nat, i: nat)
    requires IsForest(parent) && id < |parent| && i < |parent|
    ensures IsForest(parent[id := RootOf(parent, id)])
    ensures RootOf(parent[id := RootOf(parent, id)], i) == RootOf(parent, i)
    decreases i
  {
    var next := parent[id := RootOf(parent, id)];
    if i == id {
      var r := RootOf(parent, id);
      assert r != id ==> next[r] == r && RootOf(next, r) == r;
    } else if parent[i] != i {
      ShortcutKeepsRoots(parent, id, parent[i]);
    }
  }
}
