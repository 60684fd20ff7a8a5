/** Planning of host transfers (crates/ipu-codegen/src/host.rs).

    Bindings place slices of a host file on tiles. `Collect` cuts the slices into
    pages, `Batch` deals the pages round-robin into batches with at most one page per
    tile, and every tile reuses one page slot for all of its pages. What a plan must
    achieve is stated on the bindings alone: `LastWrite` names the file byte that a
    tile address receives, `IsSource` the tile bytes that a file position may come
    from. The module proves that cutting and dealing change neither. */
module HostPlan {

  const PAGE: nat := 4096
  const U16_LIMIT: nat := 0x1_0000
  const U32_LIMIT: nat := 0x1_0000_0000
  const U64_LIMIT: nat := 0x1_0000_0000_0000_0000

  datatype Result<T> = Ok(value: T) | Failed

  datatype RegionSlice = RegionSlice(tile: nat, tileAddress: nat, fileOffset: nat, size: nat)

  datatype Binding = Binding(slices: seq<RegionSlice>)

  /** A contiguous copy between one tile and the host file, at its final file offset. */
  datatype Move = Move(tile: nat, tileAddress: nat, fileOffset: nat, size: nat) {
    predicate CoversTile(t: nat, a: nat) {
      tile == t && tileAddress <= a < tileAddress + size
    }

    predicate CoversFile(p: nat) {
      fileOffset <= p < fileOffset + size
    }

    function FileOf(a: nat): nat
      requires tileAddress <= a
    {
      fileOffset + (a - tileAddress)
    }

    function AddressOf(p: nat): nat
      requires fileOffset <= p
    {
      tileAddress + (p - fileOffset)
    }
  }

  // ---------------------------------------------------------------------------
  // What the bindings ask for
  // ---------------------------------------------------------------------------

  /** The file position whose byte address `a` of tile `t` holds after all moves. */
  ghost function LastWrite(moves: seq<Move>, t: nat, a: nat): Option<nat>
  {
    if moves == [] then None
    else if moves[|moves| - 1].CoversTile(t, a) then Some(moves[|moves| - 1].FileOf(a))
    else LastWrite(moves[..|moves| - 1], t, a)
  }

  datatype Option<T> = None | Some(value: T)

  /** Some move takes file position `p` from address `a` of tile `t`. */
  ghost predicate IsSource(moves: seq<Move>, p: nat, t: nat, a: nat)
  {
    exists m :: m in moves && m.CoversFile(p) && m.tile == t && m.AddressOf(p) == a
  }

  function OnTile(moves: seq<Move>, t: int): (r: seq<Move>)
    ensures |r| <= |moves|
  {
    if moves == [] then []
    else
      var last := moves[|moves| - 1];
      OnTile(moves[..|moves| - 1], t) + if last.tile == t then [last] else []
  }

  lemma {:induction false} LastWriteAppend(a: seq<Move>, b: seq<Move>, t: nat, address: nat)
    ensures LastWrite(a + b, t, address)
         == if LastWrite(b, t, address).Some? then LastWrite(b, t, address) else LastWrite(a, t, address)
  {
    if b == [] {
      assert a + b == a;
    } else {
      assert (a + b)[..|a + b| - 1] == a + b[..|b| - 1];
      LastWriteAppend(a, b[..|b| - 1], t, address);
    }
  }

  lemma {:induction false} OnTileAppend(a: seq<Move>, b: seq<Move>, t: int)
    ensures OnTile(a + b, t) == OnTile(a, t) + OnTile(b, t)
  {
    if b == [] {
      assert a + b == a;
    } else {
      assert (a + b)[..|a + b| - 1] == a + b[..|b| - 1];
      OnTileAppend(a, b[..|b| - 1], t);
    }
  }

  /** Only the moves on its own tile decide what an address receives. */
  lemma {:induction false} LastWriteOnTile(moves: seq<Move>, t: nat, a: nat)
    ensures LastWrite(moves, t, a) == LastWrite(OnTile(moves, t), t, a)
  {
    if moves != [] {
      var before, last := moves[..|moves| - 1], moves[|moves| - 1];
      LastWriteOnTile(before, t, a);
      if last.tile == t {
        assert OnTile(moves, t)[..|OnTile(moves, t)| - 1] == OnTile(before, t);
      } else {
        assert OnTile(moves, t) == OnTile(before, t);
      }
    }
  }

  lemma {:induction false} OnTileMembers(moves: seq<Move>, t: int, m: Move)
    ensures m in OnTile(moves, t) <==> m in moves && m.tile == t
  {
    if moves != [] {
      OnTileMembers(moves[..|moves| - 1], t, m);
      assert moves == moves[..|moves| - 1] + [moves[|moves| - 1]];
    }
  }

  /** Moves with the same pages on every tile, in the same order per tile, deliver alike. */
  lemma SameOnTiles(a: seq<Move>, b: seq<Move>)
    requires forall t: int :: OnTile(a, t) == OnTile(b, t)
    ensures forall t, address :: LastWrite(a, t, address) == LastWrite(b, t, address)
    ensures forall m :: m in a <==> m in b
    ensures forall p, t, address :: IsSource(a, p, t, address) <==> IsSource(b, p, t, address)
  {
    forall t, address
      ensures LastWrite(a, t, address) == LastWrite(b, t, address)
    {
      LastWriteOnTile(a, t, address);
      LastWriteOnTile(b, t, address);
    }
    forall m: Move
      ensures m in a <==> m in b
    {
      OnTileMembers(a, m.tile, m);
      OnTileMembers(b, m.tile, m);
    }
  }

  // ---------------------------------------------------------------------------
  // Collecting: bindings to pages
  // ---------------------------------------------------------------------------

  function Max2(a: nat, b: nat): nat {
    if a < b then b else a
  }

  /** The length of the host file region of some slices, gaps and replicas included. */
  function ByteLen(slices: seq<RegionSlice>): nat
  {
    if slices == [] then 0
    else
      var last := slices[|slices| - 1];
      Max2(ByteLen(slices[..|slices| - 1]), last.fileOffset + last.size)
  }

  function Cursor(bindings: seq<Binding>): nat
  {
    if bindings == [] then 0
    else Cursor(bindings[..|bindings| - 1]) + ByteLen(bindings[|bindings| - 1].slices)
  }

  function MoveOf(slice: RegionSlice, base: nat): Move {
    Move(slice.tile, slice.tileAddress, base + slice.fileOffset, slice.size)
  }

  function MovesOfSlices(slices: seq<RegionSlice>, base: nat): seq<Move>
  {
    if slices == [] then []
    else MovesOfSlices(slices[..|slices| - 1], base) + [MoveOf(slices[|slices| - 1], base)]
  }

  /** What the bindings ask for: their slices in order, one binding's file after the other. */
  function MovesOf(bindings: seq<Binding>): seq<Move>
  {
    if bindings == [] then []
    else
      var before := bindings[..|bindings| - 1];
      MovesOf(before) + MovesOfSlices(bindings[|bindings| - 1].slices, Cursor(before))
  }

  /** The pages of one move. */
  function PagesOf(m: Move): (r: seq<Move>)
    decreases m.size
  {
    if m.size == 0 then []
    else
      var bytes := if m.size < PAGE then m.size else PAGE;
      [m.(size := bytes)]
      + PagesOf(Move(m.tile, m.tileAddress + bytes, m.fileOffset + bytes, m.size - bytes))
  }

  function Pages(moves: seq<Move>): seq<Move>
  {
    if moves == [] then [] else Pages(moves[..|moves| - 1]) + PagesOf(moves[|moves| - 1])
  }

  lemma {:induction false} PagesOfWrite(m: Move, t: nat, a: nat)
    ensures LastWrite(PagesOf(m), t, a) == if m.CoversTile(t, a) then Some(m.FileOf(a)) else None
    decreases m.size
  {
    if m.size > 0 {
      var bytes := if m.size < PAGE then m.size else PAGE;
      var first, rest := m.(size := bytes), Move(m.tile, m.tileAddress + bytes, m.fileOffset + bytes, m.size - bytes);
      PagesOfWrite(rest, t, a);
      assert [first][..0] == [];
      LastWriteAppend([first], PagesOf(rest), t, a);
    }
  }

  /** Every page is non-empty, fits a page slot and lies inside its move. */
  ghost predicate IsPageOf(page: Move, m: Move) {
    && 0 < page.size <= PAGE
    && page.tile == m.tile
    && m.fileOffset <= page.fileOffset && page.fileOffset + page.size <= m.fileOffset + m.size
    && page.tileAddress - m.tileAddress == page.fileOffset - m.fileOffset
  }

  lemma {:induction false} PagesOfLieInside(m: Move, page: Move)
    requires page in PagesOf(m)
    ensures IsPageOf(page, m)
    decreases m.size
  {
    var bytes := if m.size < PAGE then m.size else PAGE;
    var rest := Move(m.tile, m.tileAddress + bytes, m.fileOffset + bytes, m.size - bytes);
    if page != m.(size := bytes) {
      PagesOfLieInside(rest, page);
    }
  }

  lemma {:induction false} PagesOfCover(m: Move, p: nat) returns (page: Move)
    requires m.CoversFile(p)
    ensures page in PagesOf(m) && page.CoversFile(p)
    decreases m.size
  {
    var bytes := if m.size < PAGE then m.size else PAGE;
    var rest := Move(m.tile, m.tileAddress + bytes, m.fileOffset + bytes, m.size - bytes);
    if p < m.fileOffset + bytes {
      page := m.(size := bytes);
    } else {
      page := PagesOfCover(rest, p);
    }
  }

  /** Cutting moves into pages changes nothing that any tile address receives. */
  lemma {:induction false} PagesKeepWrites(moves: seq<Move>, t: nat, a: nat)
    ensures LastWrite(Pages(moves), t, a) == LastWrite(moves, t, a)
  {
    if moves != [] {
      var before, last := moves[..|moves| - 1], moves[|moves| - 1];
      PagesKeepWrites(before, t, a);
      PagesOfWrite(last, t, a);
      LastWriteAppend(Pages(before), PagesOf(last), t, a);
    }
  }

  lemma {:induction false} PageComesFromMove(moves: seq<Move>, page: Move) returns (m: Move)
    requires page in Pages(moves)
    ensures m in moves && page in PagesOf(m)
  {
    var before, last := moves[..|moves| - 1], moves[|moves| - 1];
    if page in PagesOf(last) {
      m := last;
    } else {
      m := PageComesFromMove(before, page);
    }
  }

  lemma {:induction false} PagesOfMember(moves: seq<Move>, m: Move, page: Move)
    requires m in moves && page in PagesOf(m)
    ensures page in Pages(moves)
  {
    if m != moves[|moves| - 1] {
      assert m in moves[..|moves| - 1];
      PagesOfMember(moves[..|moves| - 1], m, page);
    }
  }

  /** Cutting moves into pages changes no source of any file position. */
  lemma PagesKeepSources(moves: seq<Move>, p: nat, t: nat, a: nat)
    ensures IsSource(Pages(moves), p, t, a) <==> IsSource(moves, p, t, a)
  {
    if IsSource(Pages(moves), p, t, a) {
      var page :| page in Pages(moves) && page.CoversFile(p) && page.tile == t && page.AddressOf(p) == a;
      var m := PageComesFromMove(moves, page);
      PagesOfLieInside(m, page);
      assert m.CoversFile(p) && m.AddressOf(p) == a;
    }
    if IsSource(moves, p, t, a) {
      var m :| m in moves && m.CoversFile(p) && m.tile == t && m.AddressOf(p) == a;
      var page := PagesOfCover(m, p);
      PagesOfMember(moves, m, page);
      PagesOfLieInside(m, page);
      assert page.AddressOf(p) == a;
    }
  }

  /** The checked conversions and additions that one slice must pass. */
  predicate SliceFits(slice: RegionSlice, base: nat) {
    && base + slice.fileOffset < U64_LIMIT
    && slice.size < U32_LIMIT
    && (slice.size > 0 ==>
          && slice.tile < U16_LIMIT
          && slice.tileAddress + slice.size < U32_LIMIT
          && base + slice.fileOffset + slice.size < U64_LIMIT)
  }

  method AppendSlice(pending: seq<Move>, slice: RegionSlice, base: nat) returns (r: Result<seq<Move>>)
    requires slice.tileAddress < U32_LIMIT
    ensures r == if SliceFits(slice, base) then Ok(pending + PagesOf(MoveOf(slice, base))) else Failed
  {
    if base + slice.fileOffset >= U64_LIMIT || slice.size >= U32_LIMIT {
      return Failed;
    }
    var result := pending;
    var tileAddress: nat, fileOffset: nat, remaining: nat := slice.tileAddress, base + slice.fileOffset, slice.size;
    while remaining != 0
      invariant remaining <= slice.size
      invariant tileAddress == slice.tileAddress + (slice.size - remaining)
      invariant fileOffset == base + slice.fileOffset + (slice.size - remaining)
      invariant remaining < slice.size ==> slice.tile < U16_LIMIT && tileAddress < U32_LIMIT && fileOffset < U64_LIMIT
      invariant result + PagesOf(Move(slice.tile, tileAddress, fileOffset, remaining))
             == pending + PagesOf(MoveOf(slice, base))
    {
      var bytes := if remaining < PAGE then remaining else PAGE;
      if slice.tile >= U16_LIMIT || tileAddress + bytes >= U32_LIMIT || fileOffset + bytes >= U64_LIMIT {
        return Failed;
      }
      result := result + [Move(slice.tile, tileAddress, fileOffset, bytes)];
      tileAddress, fileOffset, remaining := tileAddress + bytes, fileOffset + bytes, remaining - bytes;
    }
    assert result + [] == result;
    r := Ok(result);
  }

  predicate SlicesFit(slices: seq<RegionSlice>, base: nat) {
    forall s :: s in slices ==> SliceFits(s, base) && s.fileOffset + s.size < U64_LIMIT
  }

  predicate BindingsFit(bindings: seq<Binding>)
  {
    bindings != [] ==>
      var before := bindings[..|bindings| - 1];
      && BindingsFit(before)
      && SlicesFit(bindings[|bindings| - 1].slices, Cursor(before))
      && Cursor(bindings) < U64_LIMIT
  }

  lemma {:induction false} PagesAppend(a: seq<Move>, m: Move)
    ensures Pages(a + [m]) == Pages(a) + PagesOf(m)
  {
    assert (a + [m])[..|a|] == a;
  }

  method CollectSlices(pending: seq<Move>, ghost moves: seq<Move>, slices: seq<RegionSlice>, base: nat)
    returns (r: Result<seq<Move>>)
    requires pending == Pages(moves)
    requires forall s :: s in slices ==> s.tileAddress < U32_LIMIT
    ensures r == if forall s :: s in slices ==> SliceFits(s, base)
                 then Ok(Pages(moves + MovesOfSlices(slices, base))) else Failed
  {
    hide SliceFits, MoveOf, Pages, MovesOfSlices;
    var result := pending;
    NoSlices(moves, slices, base);
    for k := 0 to |slices|
      invariant FirstFit(slices, k, base)
      invariant result == Pages(moves + MovesOfSlices(slices[..k], base))
    {
      var added := AppendSlice(result, slices[k], base);
      if added.Failed? {
        assert slices[k] in slices;
        return Failed;
      }
      NextSlice(moves, slices, k, base);
      result := added.value;
    }
    assert slices[..|slices|] == slices;
    r := Ok(result);
  }

  ghost predicate FirstFit(slices: seq<RegionSlice>, k: nat, base: nat)
    requires k <= |slices|
  {
    forall i :: 0 <= i < k ==> SliceFits(slices[i], base)
  }

  lemma NoSlices(moves: seq<Move>, slices: seq<RegionSlice>, base: nat)
    ensures Pages(moves + MovesOfSlices(slices[..0], base)) == Pages(moves)
  {
    assert moves + MovesOfSlices(slices[..0], base) == moves;
  }

  lemma NextSlice(moves: seq<Move>, slices: seq<RegionSlice>, k: nat, base: nat)
    requires k < |slices|
    ensures Pages(moves + MovesOfSlices(slices[..k + 1], base)) ==
            Pages(moves + MovesOfSlices(slices[..k], base)) + PagesOf(MoveOf(slices[k], base))
  {
    hide MoveOf, Pages, PagesOf;
    assert slices[..k + 1][..k] == slices[..k];
    PagesAppend(moves + MovesOfSlices(slices[..k], base), MoveOf(slices[k], base));
    assert moves + MovesOfSlices(slices[..k + 1], base)
        == moves + MovesOfSlices(slices[..k], base) + [MoveOf(slices[k], base)];
  }

  lemma {:induction false} BindingsFitPrefix(bindings: seq<Binding>, k: nat)
    requires k <= |bindings|
    ensures BindingsFit(bindings) ==> BindingsFit(bindings[..k])
    decreases |bindings|
  {
    if k < |bindings| {
      BindingsFitPrefix(bindings[..|bindings| - 1], k);
      assert bindings[..|bindings| - 1][..k] == bindings[..k];
    } else {
      assert bindings[..k] == bindings;
    }
  }

  /** One more binding fits when its slices and its end do. */
  lemma OneMoreBinding(bindings: seq<Binding>, k: nat)
    requires k < |bindings|
    ensures var slices, cursor := bindings[k].slices, Cursor(bindings[..k]);
      && Cursor(bindings[..k + 1]) == cursor + ByteLen(slices)
      && MovesOf(bindings[..k + 1]) == MovesOf(bindings[..k]) + MovesOfSlices(slices, cursor)
      && (BindingsFit(bindings[..k + 1]) <==>
          BindingsFit(bindings[..k]) && SlicesFit(slices, cursor) && cursor + ByteLen(slices) < U64_LIMIT)
  {
    assert bindings[..k + 1][..k] == bindings[..k];
  }

  /** The pages of all bindings in order, or a failure exactly when some checked
      conversion or addition overflows. */
  method Collect(bindings: seq<Binding>) returns (r: Result<seq<Move>>)
    requires forall b, s :: b in bindings && s in b.slices ==> s.tileAddress < U32_LIMIT
    ensures r == if BindingsFit(bindings) then Ok(Pages(MovesOf(bindings))) else Failed
  {
    hide BindingsFit, MovesOf, Cursor, ByteLen, MovesOfSlices, SliceFits;
    var cursor, pending := 0, [];
    StartsEmpty(bindings);
    for k := 0 to |bindings|
      invariant BindingsFit(bindings[..k]) && cursor == Cursor(bindings[..k])
      invariant pending == Pages(MovesOf(bindings[..k]))
    {
      var slices := bindings[k].slices;
      OneMoreBinding(bindings, k);
      BindingsFitPrefix(bindings, k + 1);
      var added := CollectSlices(pending, MovesOf(bindings[..k]), slices, cursor);
      if added.Failed? || (exists s :: s in slices && s.fileOffset + s.size >= U64_LIMIT) {
        return Failed;
      }
      if cursor + ByteLen(slices) >= U64_LIMIT {
        return Failed;
      }
      pending := added.value;
      cursor := cursor + ByteLen(slices);
    }
    assert bindings[..|bindings|] == bindings;
    r := Ok(pending);
  }

  lemma StartsEmpty(bindings: seq<Binding>)
    ensures BindingsFit(bindings[..0]) && Cursor(bindings[..0]) == 0 && Pages(MovesOf(bindings[..0])) == []
  {
  }
}
