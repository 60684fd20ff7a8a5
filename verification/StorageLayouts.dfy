/** The capacity screen for programs that the validator accepts
    (crates/ipu-codegen/src/estimate/mid.rs, crates/ipu-codegen/src/mid/validate.rs).

    A value's shards follow from its layout and its owner map. `TileShards` proves that the largest
    of them lies on some tile, `TileOwners` that every owner has a tile. So the screen of
    `StorageScreen` accepts exactly what the analysis of every tile accepts. */
module StorageLayouts {
  import opened Saturating
  import opened StorageAccounting
  import opened StorageAnalysis
  import opened StorageLiveness
  import opened StoragePlan
  import opened StorageScreen
  import opened StorageNeeds
  import opened StorageMeaning
  import opened TileShards
  import opened TileOwners

  /** A value's precision in bytes, its layout, none if that does not resolve, and its owners. */
  datatype Tensor = Tensor(precision: nat, layout: Option<Layout>, owners: OwnerMap) {
    /** The tensor is not empty, and its shards are counted in 64 bits. */
    ghost predicate Valid() {
      precision > 0 && (layout.Some? ==> layout.value.Valid() && 0 < layout.value.MaximumTileElements() < U64_MAX)
    }

    ghost predicate Owned(tiles: nat) {
      layout.Some? ==> owners.Accepts(layout.value.TileCount(), tiles)
    }

    function Resolved(tiles: nat): Option<Shards>
      requires Valid()
    {
      if layout.None? then None
      else
        var l := layout.value;
        Some(Shards(precision, l.MaximumTileElements(),
                    seq(l.TileCount(), o requires 0 <= o < l.TileCount() => l.TileElements(o)),
                    seq(l.TileCount(), o requires 0 <= o < l.TileCount() => owners.Tile(o, tiles))))
    }

    lemma ResolvedIsValid(tiles: nat)
      requires Valid() && layout.Some?
      ensures Resolved(tiles).value.Valid(tiles)
    {
      hide Layout.Valid, Layout.TileElements, Layout.MaximumTileElements, Layout.TileCount;
      var l, s := layout.value, Resolved(tiles).value;
      var tile := LargestIsHeld(l);
      assert s.elements[tile] == l.TileElements(tile);
      forall o | 0 <= o < |s.elements|
        ensures s.elements[o] <= s.largest
      {
        assert Clamp(l.TileElements(o)) <= l.MaximumTileElements();
      }
    }

    /** An accepted owner map knows the tile of every shard. */
    lemma ResolvedIsOwned(tiles: nat, o: nat)
      requires Valid() && Owned(tiles) && layout.Some? && o < layout.value.TileCount()
      ensures Resolved(tiles).value.owners[o].Some?
    {
      hide Layout.Valid, Layout.TileElements, Layout.MaximumTileElements;
      OwnersAreApart(owners, layout.value.TileCount(), tiles, o, o);
    }
  }

  ghost predicate AllTensors(p: Program, tensors: seq<Tensor>, tiles: nat) {
    |tensors| == |p.classes| && forall v :: 0 <= v < |tensors| ==> tensors[v].Valid() && tensors[v].Owned(tiles)
  }

  function SubjectOf(p: Program, tensors: seq<Tensor>, kernels: seq<Kernel>, tiles: nat): Subject
    requires AllTensors(p, tensors, tiles)
  {
    Subject(p, seq(|tensors|, v requires 0 <= v < |tensors| => tensors[v].Resolved(tiles)), kernels, tiles)
  }

  /** What the validator and the cost tables give. */
  ghost predicate Analyzable(p: Program, tensors: seq<Tensor>, kernels: seq<Kernel>, tiles: nat) {
    && Validated(p) && AllTensors(p, tensors, tiles)
    && (forall c :: 0 <= c < |p.copies| ==> p.copies[c].1 > 0)
    && |kernels| == |Flatten(p.operations)|
    && forall i :: 0 <= i < |kernels| ==> KernelReady(Flatten(p.operations)[i], kernels[i], |tensors|)
  }

  lemma SubjectIsReady(p: Program, tensors: seq<Tensor>, kernels: seq<Kernel>, tiles: nat)
    requires Analyzable(p, tensors, kernels, tiles)
    ensures SubjectOf(p, tensors, kernels, tiles).Ready() && OwnersKnown(SubjectOf(p, tensors, kernels, tiles))
  {
    hide Validated, Tensor.Resolved, KernelReady, Tensor.Valid, Tensor.Owned;
    var m := SubjectOf(p, tensors, kernels, tiles);
    forall v | 0 <= v < |m.shards| && m.shards[v].Some?
      ensures m.shards[v].value.Valid(tiles) && forall o :: 0 <= o < |m.shards[v].value.owners| ==> m.shards[v].value.owners[o].Some?
    {
      ResolvedIsOwnedAll(tensors[v], tiles);
    }
    ResultsOwned(m);
  }

  lemma ResolvedIsOwnedAll(t: Tensor, tiles: nat)
    requires t.Valid() && t.Owned(tiles) && t.Resolved(tiles).Some?
    ensures t.Resolved(tiles).value.Valid(tiles)
    ensures forall o :: 0 <= o < |t.Resolved(tiles).value.owners| ==> t.Resolved(tiles).value.owners[o].Some?
  {
    hide Layout.Valid, Layout.TileElements, Layout.MaximumTileElements, Layout.TileCount, Shards.Valid;
    t.ResolvedIsValid(tiles);
    forall o | 0 <= o < |t.Resolved(tiles).value.owners|
      ensures t.Resolved(tiles).value.owners[o].Some?
    {
      t.ResolvedIsOwned(tiles, o);
    }
  }

  lemma ResultsOwned(m: Subject)
    requires m.Ready()
    requires forall v :: 0 <= v < |m.shards| && m.shards[v].Some? ==>
               forall o :: 0 <= o < |m.shards[v].value.owners| ==> m.shards[v].value.owners[o].Some?
    ensures OwnersKnown(m)
  {
    hide Validated;
  }

  /** For every validated program the planner's capacity screen accepts exactly when the analysis of
      every tile finds peaks and they fit, which is when every tile has room in every step for what
      is live there. Values have 32-bit numbers, and limits are 32-bit sizes. */
  method AnalyzeValidated(p: Program, tensors: seq<Tensor>, kernels: seq<Kernel>, tiles: nat, limits: Limits)
    returns (r: Option<Peaks>, ghost roots: seq<nat>, ghost w: Picture)
    requires Analyzable(p, tensors, kernels, tiles)
    requires |tensors| <= 0x1_0000_0000 && limits.planned < 0x1_0000_0000
    ensures SubjectOf(p, tensors, kernels, tiles).Ready()
    ensures Accepted(r, limits) <==>
            Accepted(PeaksOf(SubjectOf(p, tensors, kernels, tiles), true), limits)
    ensures |roots| == |tensors| && AreRootsOf(roots, Flatten(p.operations), |tensors|)
    ensures var m := SubjectOf(p, tensors, kernels, tiles);
      if !CanMeasure(m, true, roots) then !Accepted(r, limits)
      else
        && AllResolve(m) && AllPriced(m) && Draws(m, true, w) && w.roots == roots
        && (Accepted(r, limits) <==> AllHaveRoom(w, StandardScratch(m), limits))
  {
    hide Subject.Ready, OwnersKnown, PeaksOf, CanMeasure, Draws, AllHaveRoom, Accepted, AreRootsOf;
    SubjectIsReady(p, tensors, kernels, tiles);
    var m := SubjectOf(p, tensors, kernels, tiles);
    r := AnalyzeWithBudget(m, limits);
    w := AcceptsIff(m, limits);
    roots := RootsOf(p);
  }
}
