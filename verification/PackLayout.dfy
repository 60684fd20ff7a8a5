/** Where the packing kernels put each matrix element (device/rearrange_f16.cpp,
    device/unpack_amp_f16.cpp).

    Every packing order is a mixed-radix number made of quotients and remainders of the
    element's matrix, row and column. The module proves each order one-to-one onto the
    destination and that the two elements of a word belong to one worker. */
module PackLayout {
  import opened DivMod
  import opened MixedRadix

  datatype Order = Left | Right | Blocks | RowMajor

  datatype Cell = Cell(matrix: nat, row: nat, column: nat)

  datatype Shape = Shape(matrices: nat, logicalRows: nat, logicalColumns: nat, rows: nat, columns: nat,
                         inner: nat, rowBlock: nat, columnBlock: nat) {
    /** What the kernels' compile-time constants satisfy for an order. */
    ghost predicate Fits(order: Order) {
      && inner > 0 && inner % 2 == 0 && rowBlock > 0 && columnBlock > 0 && columnBlock % 2 == 0
      && columns % 2 == 0
      && match order
         case Left => Rem(columns, inner) == 0
         case Right => Rem(rows, columnBlock) == 0 && Rem(columns, inner) == 0
         case Blocks => Rem(rows, rowBlock) == 0 && Rem(columns, columnBlock) == 0 && Rem(rowBlock, inner) == 0
         case RowMajor => true
    }

    predicate Has(cell: Cell) {
      cell.matrix < matrices && cell.row < rows && cell.column < columns
    }

    function Size(): nat {
      Times(matrices, Times(rows, columns))
    }
  }

  // ---------------------------------------------------------------------------
  // Places
  // ---------------------------------------------------------------------------

  function LeftPlace(s: Shape, x: Cell): nat
    requires s.inner > 0
  {
    Join(Join(Join(Quo(x.column, s.inner), s.matrices, x.matrix), s.rows, x.row), s.inner, Rem(x.column, s.inner))
  }

  /** The place of an element within its matrix. */
  function RightPlace(s: Shape, row: nat, column: nat): nat
    requires s.inner > 0 && s.columnBlock > 0
  {
    Join(Join(Join(Quo(row, s.columnBlock), Quo(s.columns, s.inner), Quo(column, s.inner)), s.columnBlock, Rem(row, s.columnBlock)),
         s.inner, Rem(column, s.inner))
  }

  /** The panel of `inner` rows and `columnBlock` columns that holds an element. */
  function Panel(s: Shape, row: nat, column: nat): nat
    requires s.inner > 0 && s.rowBlock > 0 && s.columnBlock > 0
  {
    Join(Join(Quo(row, s.rowBlock), Quo(s.columns, s.columnBlock), Quo(column, s.columnBlock)),
         Quo(s.rowBlock, s.inner), Quo(Rem(row, s.rowBlock), s.inner))
  }

  /** The number of panels of a matrix. */
  function Panels(s: Shape): nat
    requires s.inner > 0 && s.rowBlock > 0 && s.columnBlock > 0
  {
    Times(Times(Quo(s.rows, s.rowBlock), Quo(s.columns, s.columnBlock)), Quo(s.rowBlock, s.inner))
  }

  function BlockPlace(s: Shape, row: nat, column: nat): nat
    requires s.inner > 0 && s.rowBlock > 0 && s.columnBlock > 0
  {
    Join(Join(Panel(s, row, column), s.columnBlock, Rem(column, s.columnBlock)), s.inner, Rem(row, s.inner))
  }

  /** The element of the destination that holds a cell. */
  ghost function Place(s: Shape, order: Order, x: Cell): nat
    requires s.Fits(order)
  {
    match order
    case Left => LeftPlace(s, x)
    case Right => Join(x.matrix, Times(s.rows, s.columns), RightPlace(s, x.row, x.column))
    case Blocks => Join(x.matrix, Times(s.rows, s.columns), BlockPlace(s, x.row, x.column))
    case RowMajor => Join(x.matrix, Times(s.rows, s.columns), Join(x.row, s.columns, x.column))
  }

  lemma RightInside(s: Shape, row: nat, column: nat)
    requires s.Fits(Right) && row < s.rows && column < s.columns
    ensures RightPlace(s, row, column) < Times(s.rows, s.columns)
  {
    hide Quo, Rem, Times, Join;
    var a, b := Quo(s.rows, s.columnBlock), Quo(s.columns, s.inner);
    Multiple(s.rows, s.columnBlock);
    Multiple(s.columns, s.inner);
    QuotientBelow(row, a, s.columnBlock);
    QuotientBelow(column, b, s.inner);
    JoinBelow(Quo(row, s.columnBlock), a, b, Quo(column, s.inner));
    JoinBelow(Join(Quo(row, s.columnBlock), b, Quo(column, s.inner)), Times(a, b), s.columnBlock, Rem(row, s.columnBlock));
    JoinBelow(Join(Join(Quo(row, s.columnBlock), b, Quo(column, s.inner)), s.columnBlock, Rem(row, s.columnBlock)),
              Times(Times(a, b), s.columnBlock), s.inner, Rem(column, s.inner));
    FactorsSwap(a, b, s.columnBlock, s.inner);
  }

  lemma FactorsSwap(a: nat, b: nat, c: nat, d: nat)
    ensures Times(Times(Times(a, b), c), d) == Times(Times(a, c), Times(b, d))
  {
    assert a * b * c == a * c * b;
    assert a * c * b * d == (a * c) * (b * d);
  }

  lemma PanelInside(s: Shape, row: nat, column: nat)
    requires s.Fits(Blocks) && row < s.rows && column < s.columns
    ensures Panel(s, row, column) < Panels(s)
  {
    hide Quo, Rem, Times, Join;
    var a, b, k := Quo(s.rows, s.rowBlock), Quo(s.columns, s.columnBlock), Quo(s.rowBlock, s.inner);
    Multiple(s.rows, s.rowBlock);
    Multiple(s.columns, s.columnBlock);
    QuotientBelow(row, a, s.rowBlock);
    QuotientBelow(column, b, s.columnBlock);
    RemainderOfBlock(row, s.rowBlock, s.inner);
    JoinBelow(Quo(row, s.rowBlock), a, b, Quo(column, s.columnBlock));
    JoinBelow(Join(Quo(row, s.rowBlock), b, Quo(column, s.columnBlock)), Times(a, b), k, Quo(Rem(row, s.rowBlock), s.inner));
  }

  lemma BlockSize(s: Shape)
    requires s.Fits(Blocks)
    ensures Times(Times(Panels(s), s.columnBlock), s.inner) == Times(s.rows, s.columns)
  {
    hide Quo, Rem, Times, Join;
    var a, b, k := Quo(s.rows, s.rowBlock), Quo(s.columns, s.columnBlock), Quo(s.rowBlock, s.inner);
    Multiple(s.rows, s.rowBlock);
    Multiple(s.columns, s.columnBlock);
    Multiple(s.rowBlock, s.inner);
    calc {
      Times(Times(Times(Times(a, b), k), s.columnBlock), s.inner);
      { FactorsSwap(Times(a, b), k, s.columnBlock, s.inner); }
      Times(Times(Times(a, b), s.columnBlock), s.rowBlock);
      { LastSwap(Times(a, b), s.columnBlock, s.rowBlock); }
      Times(Times(Times(a, b), s.rowBlock), s.columnBlock);
      { FactorsSwap(a, b, s.rowBlock, s.columnBlock); }
      Times(Times(a, s.rowBlock), Times(b, s.columnBlock));
    }
  }

  lemma LastSwap(a: nat, b: nat, c: nat)
    ensures Times(Times(a, b), c) == Times(Times(a, c), b)
  {
    assert a * b * c == a * (b * c) == a * (c * b);
  }

  lemma BlockInside(s: Shape, row: nat, column: nat)
    requires s.Fits(Blocks) && row < s.rows && column < s.columns
    ensures BlockPlace(s, row, column) < Times(s.rows, s.columns)
  {
    hide Quo, Rem, Times, Join, Panel, Panels;
    var panels := Panels(s);
    PanelInside(s, row, column);
    JoinBelow(Panel(s, row, column), panels, s.columnBlock, Rem(column, s.columnBlock));
    JoinBelow(Join(Panel(s, row, column), s.columnBlock, Rem(column, s.columnBlock)), Times(panels, s.columnBlock),
              s.inner, Rem(row, s.inner));
    BlockSize(s);
  }

  lemma LeftInside(s: Shape, x: Cell)
    requires s.Fits(Left) && s.Has(x)
    ensures LeftPlace(s, x) < s.Size()
  {
    hide Quo, Rem, Times, Join;
    var b := Quo(s.columns, s.inner);
    Multiple(s.columns, s.inner);
    QuotientBelow(x.column, b, s.inner);
    JoinBelow(Quo(x.column, s.inner), b, s.matrices, x.matrix);
    JoinBelow(Join(Quo(x.column, s.inner), s.matrices, x.matrix), Times(b, s.matrices), s.rows, x.row);
    JoinBelow(Join(Join(Quo(x.column, s.inner), s.matrices, x.matrix), s.rows, x.row), Times(Times(b, s.matrices), s.rows),
              s.inner, Rem(x.column, s.inner));
    LeftSize(b, s.matrices, s.rows, s.inner);
  }

  lemma LeftSize(b: nat, m: nat, r: nat, i: nat)
    ensures Times(Times(Times(b, m), r), i) == Times(m, Times(r, Times(b, i)))
  {
    assert b * m * r * i == (m * r) * (b * i) by {
      FactorsSwap(m, b, r, i);
    }
    assert m * r * (b * i) == m * (r * (b * i));
  }

  /** Every element has a place in the destination. */
  lemma PlaceInside(s: Shape, order: Order, x: Cell)
    requires s.Fits(order) && s.Has(x)
    ensures Place(s, order, x) < s.Size()
  {
    hide Quo, Rem, Times, Join, LeftPlace, RightPlace, BlockPlace;
    var size := Times(s.rows, s.columns);
    match order
    case Left => LeftInside(s, x);
    case Right =>
      RightInside(s, x.row, x.column);
      JoinBelow(x.matrix, s.matrices, size, RightPlace(s, x.row, x.column));
    case Blocks =>
      BlockInside(s, x.row, x.column);
      JoinBelow(x.matrix, s.matrices, size, BlockPlace(s, x.row, x.column));
    case RowMajor =>
      JoinBelow(x.row, s.rows, s.columns, x.column);
      JoinBelow(x.matrix, s.matrices, size, Join(x.row, s.columns, x.column));
  }

  // ---------------------------------------------------------------------------
  // Inverses
  // ---------------------------------------------------------------------------

  function LeftCell(s: Shape, p: nat): Cell
    requires s.inner > 0 && s.rows > 0 && s.matrices > 0
  {
    var upper := Quo(p, s.inner);
    Cell(Rem(Quo(upper, s.rows), s.matrices), Rem(upper, s.rows),
         Join(Quo(Quo(upper, s.rows), s.matrices), s.inner, Rem(p, s.inner)))
  }

  function RightCell(s: Shape, matrix: nat, p: nat): Cell
    requires s.inner > 0 && s.columnBlock > 0 && s.columns >= s.inner
  {
    QuotientPositive(s.columns, s.inner);
    var upper := Quo(p, s.inner);
    var panel := Quo(upper, s.columnBlock);
    var across := Quo(s.columns, s.inner);
    Cell(matrix, Join(Quo(panel, across), s.columnBlock, Rem(upper, s.columnBlock)),
         Join(Rem(panel, across), s.inner, Rem(p, s.inner)))
  }

  function BlockCell(s: Shape, matrix: nat, p: nat): Cell
    requires 0 < s.inner <= s.rowBlock && 0 < s.columnBlock <= s.columns
  {
    QuotientPositive(s.rowBlock, s.inner);
    QuotientPositive(s.columns, s.columnBlock);
    var upper := Quo(p, s.inner);
    var panel := Quo(upper, s.columnBlock);
    var groups, across := Quo(s.rowBlock, s.inner), Quo(s.columns, s.columnBlock);
    var block := Quo(panel, groups);
    Cell(matrix, Join(Quo(block, across), s.rowBlock, Join(Rem(panel, groups), s.inner, Rem(p, s.inner))),
         Join(Rem(block, across), s.columnBlock, Rem(upper, s.columnBlock)))
  }

  /** The cell that an element of the destination holds. */
  ghost function CellAt(s: Shape, order: Order, p: nat): Cell
    requires s.Fits(order) && p < s.Size()
  {
    NotEmpty(s, order, p);
    var size := Times(s.rows, s.columns);
    match order
    case Left => LeftCell(s, p)
    case Right => RightCell(s, Quo(p, size), Rem(p, size))
    case Blocks => BlockCell(s, Quo(p, size), Rem(p, size))
    case RowMajor => Cell(Quo(p, size), Quo(Rem(p, size), s.columns), Rem(Rem(p, size), s.columns))
  }

  lemma NotEmpty(s: Shape, order: Order, p: nat)
    requires s.Fits(order) && p < s.Size()
    ensures s.matrices > 0 && s.rows > 0 && s.columns > 0 && Times(s.rows, s.columns) > 0
    ensures order.Left? || order.Right? ==> s.columns >= s.inner
    ensures order.Blocks? ==> s.inner <= s.rowBlock && s.columnBlock <= s.columns
  {
    hide Rem, Quo, Times;
    ZeroTimes(s.matrices, Times(s.rows, s.columns));
    ZeroTimes(s.rows, s.columns);
    match order
    case Left => NotBelowUnit(s.columns, s.inner);
    case Right => NotBelowUnit(s.columns, s.inner);
    case Blocks =>
      NotBelowUnit(s.rowBlock, s.inner);
      NotBelowUnit(s.columns, s.columnBlock);
    case RowMajor =>
  }

  lemma ZeroTimes(a: nat, b: nat)
    ensures Times(a, b) > 0 <==> a > 0 && b > 0
  {
    if a > 0 && b > 0 {
      MulMonotone(1, a, b);
    }
  }

  lemma NotBelowUnit(x: nat, d: nat)
    requires d > 0 && Rem(x, d) == 0 && x > 0
    ensures d <= x
  {
    if x < d {
      QuotientIs(x, d, 0, x);
    }
  }

  lemma LeftReturns(s: Shape, x: Cell)
    requires s.Fits(Left) && s.Has(x)
    ensures LeftCell(s, LeftPlace(s, x)) == x
  {
    hide Quo, Rem, Times, Join;
    var a := Join(Quo(x.column, s.inner), s.matrices, x.matrix);
    var b := Join(a, s.rows, x.row);
    JoinSplits(Quo(x.column, s.inner), s.matrices, x.matrix);
    JoinSplits(a, s.rows, x.row);
    JoinSplits(b, s.inner, Rem(x.column, s.inner));
    SplitJoins(x.column, s.inner);
  }

  lemma RightReturns(s: Shape, matrix: nat, row: nat, column: nat)
    requires s.Fits(Right) && row < s.rows && column < s.columns && s.columns >= s.inner
    ensures RightCell(s, matrix, RightPlace(s, row, column)) == Cell(matrix, row, column)
  {
    hide Quo, Rem, Times, Join;
    var across := Quo(s.columns, s.inner);
    Multiple(s.columns, s.inner);
    QuotientBelow(column, across, s.inner);
    var panel := Join(Quo(row, s.columnBlock), across, Quo(column, s.inner));
    var upper := Join(panel, s.columnBlock, Rem(row, s.columnBlock));
    JoinSplits(Quo(row, s.columnBlock), across, Quo(column, s.inner));
    JoinSplits(panel, s.columnBlock, Rem(row, s.columnBlock));
    JoinSplits(upper, s.inner, Rem(column, s.inner));
    SplitJoins(row, s.columnBlock);
    SplitJoins(column, s.inner);
  }

  lemma BlockReturns(s: Shape, matrix: nat, row: nat, column: nat)
    requires s.Fits(Blocks) && row < s.rows && column < s.columns && s.inner <= s.rowBlock && s.columnBlock <= s.columns
    ensures BlockCell(s, matrix, BlockPlace(s, row, column)) == Cell(matrix, row, column)
  {
    hide Quo, Rem, Times, Join;
    var groups, across := Quo(s.rowBlock, s.inner), Quo(s.columns, s.columnBlock);
    Multiple(s.columns, s.columnBlock);
    QuotientBelow(column, across, s.columnBlock);
    RemainderOfBlock(row, s.rowBlock, s.inner);
    var block := Join(Quo(row, s.rowBlock), across, Quo(column, s.columnBlock));
    var panel := Join(block, groups, Quo(Rem(row, s.rowBlock), s.inner));
    var upper := Join(panel, s.columnBlock, Rem(column, s.columnBlock));
    JoinSplits(Quo(row, s.rowBlock), across, Quo(column, s.columnBlock));
    JoinSplits(block, groups, Quo(Rem(row, s.rowBlock), s.inner));
    JoinSplits(panel, s.columnBlock, Rem(column, s.columnBlock));
    JoinSplits(upper, s.inner, Rem(row, s.inner));
    SplitJoins(row, s.rowBlock);
    SplitJoins(Rem(row, s.rowBlock), s.inner);
    SplitJoins(column, s.columnBlock);
  }

  /** The destination element of a cell holds that cell, so no two cells share a place. */
  lemma PlaceReturns(s: Shape, order: Order, x: Cell)
    requires s.Fits(order) && s.Has(x)
    ensures Place(s, order, x) < s.Size() && CellAt(s, order, Place(s, order, x)) == x
  {
    hide Quo, Rem, Times, Join, LeftPlace, RightPlace, BlockPlace, LeftCell, RightCell, BlockCell;
    PlaceInside(s, order, x);
    NotEmpty(s, order, Place(s, order, x));
    var size := Times(s.rows, s.columns);
    match order
    case Left => LeftReturns(s, x);
    case Right =>
      RightInside(s, x.row, x.column);
      JoinSplits(x.matrix, size, RightPlace(s, x.row, x.column));
      RightReturns(s, x.matrix, x.row, x.column);
    case Blocks =>
      BlockInside(s, x.row, x.column);
      JoinSplits(x.matrix, size, BlockPlace(s, x.row, x.column));
      BlockReturns(s, x.matrix, x.row, x.column);
    case RowMajor =>
      JoinBelow(x.row, s.rows, s.columns, x.column);
      JoinSplits(x.matrix, size, Join(x.row, s.columns, x.column));
      JoinSplits(x.row, s.columns, x.column);
  }

  lemma LeftFills(s: Shape, p: nat)
    requires s.Fits(Left) && p < s.Size() && s.matrices > 0 && s.rows > 0
    ensures s.Has(LeftCell(s, p)) && LeftPlace(s, LeftCell(s, p)) == p
  {
    hide Quo, Rem, Times, Join;
    var b, upper := Quo(s.columns, s.inner), Quo(p, s.inner);
    Multiple(s.columns, s.inner);
    LeftSize(b, s.matrices, s.rows, s.inner);
    QuotientBelow(p, Times(Times(b, s.matrices), s.rows), s.inner);
    QuotientBelow(upper, Times(b, s.matrices), s.rows);
    QuotientBelow(Quo(upper, s.rows), b, s.matrices);
    JoinBelow(Quo(Quo(upper, s.rows), s.matrices), b, s.inner, Rem(p, s.inner));
    JoinSplits(Quo(Quo(upper, s.rows), s.matrices), s.inner, Rem(p, s.inner));
    SplitJoins(Quo(upper, s.rows), s.matrices);
    SplitJoins(upper, s.rows);
    SplitJoins(p, s.inner);
  }

  lemma RightFills(s: Shape, matrix: nat, p: nat)
    requires s.Fits(Right) && p < Times(s.rows, s.columns) && s.columns >= s.inner
    ensures RightCell(s, matrix, p).row < s.rows && RightCell(s, matrix, p).column < s.columns
    ensures RightPlace(s, RightCell(s, matrix, p).row, RightCell(s, matrix, p).column) == p
  {
    hide Quo, Rem, Times, Join;
    var a, across, upper := Quo(s.rows, s.columnBlock), Quo(s.columns, s.inner), Quo(p, s.inner);
    var panel := Quo(upper, s.columnBlock);
    QuotientPositive(s.columns, s.inner);
    Multiple(s.rows, s.columnBlock);
    Multiple(s.columns, s.inner);
    FactorsSwap(a, across, s.columnBlock, s.inner);
    QuotientBelow(p, Times(Times(a, across), s.columnBlock), s.inner);
    QuotientBelow(upper, Times(a, across), s.columnBlock);
    QuotientBelow(panel, a, across);
    JoinBelow(Quo(panel, across), a, s.columnBlock, Rem(upper, s.columnBlock));
    JoinBelow(Rem(panel, across), across, s.inner, Rem(p, s.inner));
    JoinSplits(Quo(panel, across), s.columnBlock, Rem(upper, s.columnBlock));
    JoinSplits(Rem(panel, across), s.inner, Rem(p, s.inner));
    SplitJoins(panel, across);
    SplitJoins(upper, s.columnBlock);
    SplitJoins(p, s.inner);
  }

  lemma BlockFills(s: Shape, matrix: nat, p: nat)
    requires s.Fits(Blocks) && p < Times(s.rows, s.columns) && s.inner <= s.rowBlock && s.columnBlock <= s.columns
    ensures BlockCell(s, matrix, p).row < s.rows && BlockCell(s, matrix, p).column < s.columns
    ensures BlockPlace(s, BlockCell(s, matrix, p).row, BlockCell(s, matrix, p).column) == p
  {
    hide Quo, Rem, Times, Join;
    var a, across, groups := Quo(s.rows, s.rowBlock), Quo(s.columns, s.columnBlock), Quo(s.rowBlock, s.inner);
    var upper := Quo(p, s.inner);
    QuotientPositive(s.rowBlock, s.inner);
    QuotientPositive(s.columns, s.columnBlock);
    var panel := Quo(upper, s.columnBlock);
    var block := Quo(panel, groups);
    var within := Join(Rem(panel, groups), s.inner, Rem(p, s.inner));
    var x := BlockCell(s, matrix, p);
    Multiple(s.rows, s.rowBlock);
    Multiple(s.columns, s.columnBlock);
    Multiple(s.rowBlock, s.inner);
    BlockSize(s);
    QuotientBelow(p, Times(Times(Times(a, across), groups), s.columnBlock), s.inner);
    QuotientBelow(upper, Times(Times(a, across), groups), s.columnBlock);
    QuotientBelow(panel, Times(a, across), groups);
    QuotientBelow(block, a, across);
    JoinBelow(Rem(panel, groups), groups, s.inner, Rem(p, s.inner));
    JoinBelow(Quo(block, across), a, s.rowBlock, within);
    JoinBelow(Rem(block, across), across, s.columnBlock, Rem(upper, s.columnBlock));
    JoinSplits(Quo(block, across), s.rowBlock, within);
    JoinSplits(Rem(block, across), s.columnBlock, Rem(upper, s.columnBlock));
    JoinSplits(Rem(panel, groups), s.inner, Rem(p, s.inner));
    RemainderOfBlock(x.row, s.rowBlock, s.inner);
    SplitJoins(block, across);
    SplitJoins(panel, groups);
    SplitJoins(upper, s.columnBlock);
    SplitJoins(p, s.inner);
  }

  /** Every element of the destination is the place of a cell: with `PlaceReturns`, each
      order is a bijection. */
  lemma PlaceFills(s: Shape, order: Order, p: nat)
    requires s.Fits(order) && p < s.Size()
    ensures s.Has(CellAt(s, order, p)) && Place(s, order, CellAt(s, order, p)) == p
  {
    hide Quo, Rem, Times, Join, LeftPlace, RightPlace, BlockPlace, LeftCell, RightCell, BlockCell;
    NotEmpty(s, order, p);
    var size := Times(s.rows, s.columns);
    QuotientBelow(p, s.matrices, size);
    SplitJoins(p, size);
    match order
    case Left => LeftFills(s, p);
    case Right =>
      RightFills(s, Quo(p, size), Rem(p, size));
      RightKeepsMatrix(s, Quo(p, size), Rem(p, size));
    case Blocks =>
      BlockFills(s, Quo(p, size), Rem(p, size));
      BlockKeepsMatrix(s, Quo(p, size), Rem(p, size));
    case RowMajor =>
      QuotientBelow(Rem(p, size), s.rows, s.columns);
      SplitJoins(Rem(p, size), s.columns);
  }

  lemma RightKeepsMatrix(s: Shape, matrix: nat, p: nat)
    requires s.inner > 0 && s.columnBlock > 0 && s.columns >= s.inner
    ensures RightCell(s, matrix, p).matrix == matrix
  {
    hide Quo, Rem, Times, Join;
  }

  lemma BlockKeepsMatrix(s: Shape, matrix: nat, p: nat)
    requires 0 < s.inner <= s.rowBlock && 0 < s.columnBlock <= s.columns
    ensures BlockCell(s, matrix, p).matrix == matrix
  {
    hide Quo, Rem, Times, Join;
  }

  // ---------------------------------------------------------------------------
  // Words and workers
  // ---------------------------------------------------------------------------

  /** The cell that shares a word with an aligned cell. */
  function Next(order: Order, x: Cell): Cell {
    if order.Blocks? then x.(row := x.row + 1) else x.(column := x.column + 1)
  }

  predicate Aligned(order: Order, x: Cell) {
    if order.Blocks? then x.row % 2 == 0 else x.column % 2 == 0
  }

  /** The aligned cell of a cell's word. */
  function Align(order: Order, x: Cell): Cell {
    if order.Blocks? then x.(row := x.row - x.row % 2) else x.(column := x.column - x.column % 2)
  }

  lemma JoinParity(q: nat, d: nat, r: nat)
    requires d % 2 == 0
    ensures Join(q, d, r) % 2 == r % 2 && Join(q, d, r + 1) == Join(q, d, r) + 1
  {
    assert q * d == 2 * (q * (d / 2));
  }

  lemma PairInUnit(x: nat, d: nat)
    requires x % 2 == 0 && d % 2 == 0 && d > 0
    ensures Quo(x + 1, d) == Quo(x, d) && Rem(x + 1, d) == Rem(x, d) + 1 && Rem(x, d) % 2 == 0
  {
    hide Quo, Rem, Join;
    SplitJoins(x, d);
    JoinParity(Quo(x, d), d, Rem(x, d));
    JoinSplits(Quo(x, d), d, Rem(x, d) + 1);
  }

  lemma TimesEven(a: nat, b: nat)
    requires b % 2 == 0
    ensures Times(a, b) % 2 == 0 && Times(b, a) % 2 == 0
  {
    assert a * b == 2 * (a * (b / 2));
  }

  /** An even multiple of a part is even. */
  lemma MultipleEven(x: nat, d: nat)
    requires d > 0 && d % 2 == 0 && Rem(x, d) == 0
    ensures x % 2 == 0
  {
    hide Quo, Rem, Times;
    Multiple(x, d);
    TimesEven(Quo(x, d), d);
  }

  lemma BlockPairs(s: Shape, row: nat, column: nat)
    requires s.Fits(Blocks) && row % 2 == 0
    ensures BlockPlace(s, row, column) % 2 == 0 && BlockPlace(s, row + 1, column) == BlockPlace(s, row, column) + 1
  {
    hide Quo, Rem, Times, Join;
    MultipleEven(s.rowBlock, s.inner);
    PairInUnit(row, s.rowBlock);
    PairInUnit(Rem(row, s.rowBlock), s.inner);
    PairInUnit(row, s.inner);
    assert Panel(s, row + 1, column) == Panel(s, row, column);
    JoinParity(Join(Panel(s, row, column), s.columnBlock, Rem(column, s.columnBlock)), s.inner, Rem(row, s.inner));
  }

  lemma SizeEven(s: Shape, order: Order)
    requires s.Fits(order)
    ensures Times(s.rows, s.columns) % 2 == 0
    ensures order.Blocks? ==> s.rows % 2 == 0
  {
    hide Quo, Rem, Times;
    TimesEven(s.rows, s.columns);
    if order.Blocks? {
      MultipleEven(s.rowBlock, s.inner);
      MultipleEven(s.rows, s.rowBlock);
    }
  }

  /** An aligned cell has an even place, and the next place holds its neighbour. */
  lemma PairPlaces(s: Shape, order: Order, x: Cell)
    requires s.Fits(order) && s.Has(x) && Aligned(order, x)
    ensures s.Has(Next(order, x))
    ensures Place(s, order, x) % 2 == 0 && Place(s, order, Next(order, x)) == Place(s, order, x) + 1
  {
    hide Quo, Rem, Times, Join, BlockPlace;
    SizeEven(s, order);
    var size := Times(s.rows, s.columns);
    match order
    case Left =>
      PairInUnit(x.column, s.inner);
      JoinParity(Join(Join(Quo(x.column, s.inner), s.matrices, x.matrix), s.rows, x.row), s.inner, Rem(x.column, s.inner));
    case Right =>
      PairInUnit(x.column, s.inner);
      var panel := Join(Quo(x.row, s.columnBlock), Quo(s.columns, s.inner), Quo(x.column, s.inner));
      JoinParity(Join(panel, s.columnBlock, Rem(x.row, s.columnBlock)), s.inner, Rem(x.column, s.inner));
      JoinParity(x.matrix, size, RightPlace(s, x.row, x.column));
    case Blocks =>
      BlockPairs(s, x.row, x.column);
      JoinParity(x.matrix, size, BlockPlace(s, x.row, x.column));
    case RowMajor =>
      JoinParity(x.row, s.columns, x.column);
      JoinParity(x.matrix, size, Join(x.row, s.columns, x.column));
  }

  /** The unit of work that a cell belongs to; worker w of six takes every sixth from w on. */
  function Item(s: Shape, order: Order, x: Cell): nat {
    match order
    case Left => x.row
    case Right => x.row
    case Blocks => x.row / 2
    case RowMajor => Join(x.matrix, s.rows, x.row)
  }

  /** Cells that share a word belong to the same unit of work, so no word is written by two workers. */
  lemma WordHasOneWorker(s: Shape, order: Order, x: Cell, y: Cell)
    requires s.Fits(order) && s.Has(x) && s.Has(y) && Place(s, order, x) / 2 == Place(s, order, y) / 2
    ensures Item(s, order, x) == Item(s, order, y)
  {
    hide Quo, Rem, Times, Join, Place, Shape.Fits;
    var a, b := Align(order, x), Align(order, y);
    PairPlaces(s, order, a);
    PairPlaces(s, order, b);
    assert x == a || x == Next(order, a);
    assert y == b || y == Next(order, b);
    PlaceReturns(s, order, a);
    PlaceReturns(s, order, b);
  }
}
