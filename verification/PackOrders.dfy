/** The packing orders as the order in which a destination enumerates its elements
    (device/rearrange_f16.cpp, device/unpack_amp_f16.cpp).

    `PackLayout` takes an element's coordinates apart with quotients and remainders. Here every
    order is given by counting: the outermost counter first, each later one running through all
    its values for every value of those before it. */
module PackOrders {
  import opened DivMod
  import opened MixedRadix
  import opened PackLayout
  import opened HalfWords

  /** The element with that number; 0 behind the last word. */
  function Element(words: seq<bv32>, i: nat): bv32 {
    if i / 2 >= |words| then 0 else if i % 2 == 0 then words[i / 2] & 0xFFFF else words[i / 2] >> 16
  }

  lemma HalfIsElement(words: seq<bv32>, i: nat)
    requires i / 2 < |words|
    ensures Half(words, i) == Element(words, i)
  {
  }

  /** The number of a place, counted with the given counters and their ranges. */
  function Count3(a: nat, bs: nat, b: nat, cs: nat, c: nat): nat {
    (a * bs + b) * cs + c
  }

  /** Panels of `inner` columns, in each panel all matrices, in each matrix all rows. */
  lemma LeftCounts(s: Shape, panel: nat, matrix: nat, row: nat, lane: nat)
    requires s.Fits(Left) && lane < s.inner
    ensures Place(s, Left, Cell(matrix, row, panel * s.inner + lane)) ==
            ((panel * s.matrices + matrix) * s.rows + row) * s.inner + lane
  {
    hide Quo, Rem;
    JoinSplits(panel, s.inner, lane);
  }

  /** In each matrix groups of `columnBlock` rows, in each group panels of `inner` columns, in
      each panel the group's rows. */
  lemma RightCounts(s: Shape, panels: nat, matrix: nat, group: nat, panel: nat, row: nat, lane: nat)
    requires s.Fits(Right) && s.columns == panels * s.inner && row < s.columnBlock && lane < s.inner
    ensures Place(s, Right, Cell(matrix, group * s.columnBlock + row, panel * s.inner + lane)) ==
            matrix * (s.rows * s.columns) + (Count3(group, panels, panel, s.columnBlock, row) * s.inner + lane)
  {
    hide Quo, Rem;
    JoinSplits(panels, s.inner, 0);
    JoinSplits(group, s.columnBlock, row);
    JoinSplits(panel, s.inner, lane);
  }

  lemma JoinIs(q: nat, d: nat, r: nat)
    ensures Join(q, d, r) == q * d + r
  {
  }

  /** The parts of a row within its block. */
  lemma RowParts(s: Shape, depth: nat, block: nat, part: nat, lane: nat)
    requires s.Fits(Blocks) && s.rowBlock == depth * s.inner && part < depth && lane < s.inner
    ensures var row := block * s.rowBlock + part * s.inner + lane;
      && Quo(row, s.rowBlock) == block && Quo(Rem(row, s.rowBlock), s.inner) == part && Rem(row, s.inner) == lane
      && Quo(s.rowBlock, s.inner) == depth
  {
    hide Quo, Rem, Times, Join;
    var inside := Join(part, s.inner, lane);
    JoinBelow(part, depth, s.inner, lane);
    TimesIs(depth, s.inner);
    JoinIs(part, s.inner, lane);
    JoinIs(block, s.rowBlock, inside);
    JoinSplits(block, s.rowBlock, inside);
    JoinSplits(part, s.inner, lane);
    Regroups(block, depth, s.inner, part, lane);
    JoinSplits(Join(block, depth, part), s.inner, lane);
    JoinIs(depth, s.inner, 0);
    JoinSplits(depth, s.inner, 0);
  }

  lemma TimesIs(a: nat, b: nat)
    ensures Times(a, b) == a * b
  {
  }

  /** In each matrix blocks of rows, in each of them blocks of columns, in each block its parts of
      `inner` rows, in each part the block's columns, and for each column the part's rows. */
  lemma BlocksCount(s: Shape, across: nat, depth: nat, matrix: nat, block: nat, columns: nat, part: nat, column: nat, lane: nat)
    requires s.Fits(Blocks) && s.columns == across * s.columnBlock && s.rowBlock == depth * s.inner
    requires part < depth && column < s.columnBlock && lane < s.inner
    ensures Place(s, Blocks, Cell(matrix, block * s.rowBlock + part * s.inner + lane, columns * s.columnBlock + column)) ==
            matrix * (s.rows * s.columns)
            + ((Count3(block, across, columns, depth, part) * s.columnBlock + column) * s.inner + lane)
  {
    hide Quo, Rem;
    RowParts(s, depth, block, part, lane);
    JoinSplits(across, s.columnBlock, 0);
    JoinSplits(columns, s.columnBlock, column);
  }

  /** The element of a cell in matrices of that many rows and columns, stored row after row. */
  function RowPlace(rows: nat, columns: nat, x: Cell): nat {
    x.matrix * (rows * columns) + (x.row * columns + x.column)
  }

  /** Row after row. */
  lemma RowsCount(s: Shape, x: Cell)
    requires s.Fits(RowMajor)
    ensures Place(s, RowMajor, x) == RowPlace(s.rows, s.columns, x)
  {
  }
}
