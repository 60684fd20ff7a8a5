/** The packing and unpacking kernels (device/rearrange_f16.cpp, device/unpack_amp_f16.cpp).

    Six workers store words of a destination, each its own rows or row pairs. The module
    proves that together, in any order, they put every logical element at its place and zero
    in all padding, and that unpacking what was packed gives the matrices back. */
module PackKernels {
  import opened DivMod
  import opened HalfWords
  import opened MixedRadix
  import opened PackLayout
  import opened PackOrders

  // ---------------------------------------------------------------------------
  // What the destination should hold
  // ---------------------------------------------------------------------------

  ghost predicate Ready(s: Shape, order: Order, source: seq<bv32>, words: nat) {
    && s.Fits(order) && s.Size() <= 2 * words
    && if order.RowMajor? then s.Fits(Blocks) && s.Size() <= 2 * |source|
       else s.logicalColumns % 2 == 0 && Times(s.matrices, Times(s.logicalRows, s.logicalColumns)) <= 2 * |source|
  }

  ghost predicate IsLogical(s: Shape, x: Cell) {
    x.row < s.logicalRows && x.column < s.logicalColumns
  }

  /** The source element of a cell before packing, row by row. */
  ghost function LogicalPlace(s: Shape, x: Cell): nat {
    Join(x.matrix, Times(s.logicalRows, s.logicalColumns), Join(x.row, s.logicalColumns, x.column))
  }

  lemma LogicalInside(s: Shape, x: Cell)
    requires x.matrix < s.matrices && IsLogical(s, x)
    ensures LogicalPlace(s, x) < Times(s.matrices, Times(s.logicalRows, s.logicalColumns))
  {
    hide Quo, Rem, Times, Join;
    JoinBelow(x.row, s.logicalRows, s.logicalColumns, x.column);
    JoinBelow(x.matrix, s.matrices, Times(s.logicalRows, s.logicalColumns), Join(x.row, s.logicalColumns, x.column));
  }

  /** The element of a cell: zero outside the logical matrix. Packing reads row-major
      matrices, unpacking reads packed ones. */
  ghost function Value(s: Shape, order: Order, source: seq<bv32>, words: nat, x: Cell): bv32
    requires Ready(s, order, source, words) && s.Has(x)
  {
    if !IsLogical(s, x) then 0
    else if order.RowMajor? then
      PlaceInside(s, Blocks, x);
      Half(source, Place(s, Blocks, x))
    else
      LogicalInside(s, x);
      Half(source, LogicalPlace(s, x))
  }

  ghost function Held(s: Shape, order: Order, words: seq<bv32>, x: Cell): bv32
    requires s.Fits(order) && s.Has(x) && s.Size() <= 2 * |words|
  {
    PlaceInside(s, order, x);
    Half(words, Place(s, order, x))
  }

  // ---------------------------------------------------------------------------
  // Progress of one worker
  // ---------------------------------------------------------------------------

  /** Unpacking runs through the rows of all matrices in one loop. */
  ghost function Stage(order: Order, x: Cell): nat {
    if order.RowMajor? then 0 else x.matrix
  }

  /** Whether the worker has stored the cell when it is about to store column `column` of
      item `item` in matrix `matrix`. */
  ghost predicate Reached(s: Shape, order: Order, x: Cell, worker: nat, matrix: nat, item: nat, column: nat) {
    && Item(s, order, x) % 6 == worker
    && (Stage(order, x) < matrix
        || (Stage(order, x) == matrix
            && (Item(s, order, x) < item || (Item(s, order, x) == item && x.column < column))))
  }

  /** The words past the layout's last element are left alone. */
  ghost predicate RestKept(s: Shape, before: seq<bv32>, after: seq<bv32>) {
    |after| == |before| && forall i: nat :: s.Size() <= 2 * i && i < |before| ==> after[i] == before[i]
  }

  lemma RestTwice(s: Shape, a: seq<bv32>, b: seq<bv32>, c: seq<bv32>)
    requires RestKept(s, a, b) && RestKept(s, b, c)
    ensures RestKept(s, a, c)
  {
  }

  lemma RestStored(s: Shape, words: seq<bv32>, at: nat, word: bv32)
    requires at < |words| && 2 * at < s.Size()
    ensures RestKept(s, words, words[at := word])
  {
  }

  ghost predicate Progress(s: Shape, order: Order, source: seq<bv32>, before: seq<bv32>, after: seq<bv32>,
                           worker: nat, matrix: nat, item: nat, column: nat) {
    && RestKept(s, before, after) && Ready(s, order, source, |before|)
    && forall x: Cell {:trigger Held(s, order, after, x)} :: s.Has(x) ==>
         Held(s, order, after, x) ==
         if Reached(s, order, x, worker, matrix, item, column) then Value(s, order, source, |before|, x)
         else Held(s, order, before, x)
  }

  /** One store gives the cells of two or more columns of an item their values. */
  ghost predicate Stores(s: Shape, order: Order, source: seq<bv32>, before: seq<bv32>, after: seq<bv32>,
                         matrix: nat, item: nat, column: nat) {
    && RestKept(s, before, after) && Ready(s, order, source, |before|)
    && forall x: Cell {:trigger Held(s, order, after, x)} :: s.Has(x) ==>
         Held(s, order, after, x) ==
         if Stage(order, x) == matrix && Item(s, order, x) == item && column <= x.column < column + 2
         then Value(s, order, source, |before|, x)
         else Held(s, order, before, x)
  }

  lemma ProgressStarts(s: Shape, order: Order, source: seq<bv32>, words: seq<bv32>, worker: nat)
    requires Ready(s, order, source, |words|) && worker < 6
    ensures Progress(s, order, source, words, words, worker, 0, worker, 0)
  {
    hide Held, Value, Ready, Item, Shape.Fits;
  }

  lemma ProgressStores(s: Shape, order: Order, source: seq<bv32>, start: seq<bv32>, before: seq<bv32>, after: seq<bv32>,
                       worker: nat, matrix: nat, item: nat, column: nat)
    requires item % 6 == worker && column % 2 == 0
    requires Progress(s, order, source, start, before, worker, matrix, item, column)
    requires Stores(s, order, source, before, after, matrix, item, column)
    ensures Progress(s, order, source, start, after, worker, matrix, item, column + 2)
  {
    hide Held, Value, Ready, Item, Shape.Fits, Shape.Size;
    RestTwice(s, start, before, after);
  }

  lemma ProgressNextItem(s: Shape, order: Order, source: seq<bv32>, before: seq<bv32>, after: seq<bv32>,
                         worker: nat, matrix: nat, item: nat, column: nat)
    requires item % 6 == worker && s.columns <= column
    requires Progress(s, order, source, before, after, worker, matrix, item, column)
    ensures Progress(s, order, source, before, after, worker, matrix, item + 6, 0)
  {
    hide Held, Value, Ready, Item, Shape.Fits;
  }

  lemma ProgressNextMatrix(s: Shape, order: Order, source: seq<bv32>, before: seq<bv32>, after: seq<bv32>,
                           worker: nat, matrix: nat, item: nat)
    requires worker < 6 && Progress(s, order, source, before, after, worker, matrix, item, 0)
    requires forall x: Cell {:trigger Item(s, order, x)} :: s.Has(x) ==> Item(s, order, x) < item
    ensures Progress(s, order, source, before, after, worker, matrix + 1, worker, 0)
  {
    hide Held, Value, Ready, Item, Shape.Fits;
  }

  /** Worker `worker` has stored all its cells and changed no other. */
  ghost predicate WorkerDone(s: Shape, order: Order, source: seq<bv32>, before: seq<bv32>, after: seq<bv32>, worker: nat) {
    && RestKept(s, before, after) && Ready(s, order, source, |before|)
    && forall x: Cell {:trigger Held(s, order, after, x)} :: s.Has(x) ==>
         Held(s, order, after, x) ==
         if Item(s, order, x) % 6 == worker then Value(s, order, source, |before|, x) else Held(s, order, before, x)
  }

  lemma ProgressEnds(s: Shape, order: Order, source: seq<bv32>, before: seq<bv32>, after: seq<bv32>,
                     worker: nat, matrix: nat)
    requires Progress(s, order, source, before, after, worker, matrix, worker, 0)
    requires forall x: Cell {:trigger s.Has(x)} :: s.Has(x) ==> Stage(order, x) < matrix
    ensures WorkerDone(s, order, source, before, after, worker)
  {
    hide Held, Value, Ready, Item, Shape.Fits;
  }

  // ---------------------------------------------------------------------------
  // Stores
  // ---------------------------------------------------------------------------

  /** Storing a word at the place of an aligned cell changes that cell and its neighbour only. */
  lemma StoreHolds(s: Shape, order: Order, words: seq<bv32>, at: nat, word: bv32, x: Cell, y: Cell)
    requires s.Fits(order) && s.Size() <= 2 * |words| && s.Has(x) && s.Has(y) && Aligned(order, x)
    requires at < |words| && 2 * at == Place(s, order, x)
    ensures Held(s, order, words[at := word], y) ==
            if y == x then Low(word) else if y == Next(order, x) then High(word) else Held(s, order, words, y)
  {
    hide Place, Half, Low, High, Shape.Fits, Shape.Size, Times;
    PairPlaces(s, order, x);
    PlaceReturns(s, order, x);
    PlaceReturns(s, order, y);
    PlaceReturns(s, order, Next(order, x));
    StoredHalf(words, at, word, Place(s, order, y));
  }

  /** A word of two neighbouring columns. */
  lemma StoresPair(s: Shape, order: Order, source: seq<bv32>, words: seq<bv32>, at: nat, word: bv32, x: Cell)
    requires !order.Blocks? && Ready(s, order, source, |words|) && s.Has(x) && Aligned(order, x)
    requires at < |words| && 2 * at == Place(s, order, x) && s.Has(Next(order, x))
    requires Low(word) == Value(s, order, source, |words|, x) && High(word) == Value(s, order, source, |words|, Next(order, x))
    ensures Stores(s, order, source, words, words[at := word], Stage(order, x), Item(s, order, x), x.column)
  {
    hide Place, Held, Value, Low, High, Shape.Fits, Shape.Size, Times, Join, RestKept;
    PlaceInside(s, order, x);
    RestStored(s, words, at, word);
    forall y: Cell | s.Has(y)
      ensures Held(s, order, words[at := word], y) ==
              if Stage(order, y) == Stage(order, x) && Item(s, order, y) == Item(s, order, x) && x.column <= y.column < x.column + 2
              then Value(s, order, source, |words|, y)
              else Held(s, order, words, y)
    {
      StoreHolds(s, order, words, at, word, x, y);
      SameItem(s, order, x, y);
    }
  }

  lemma SameItem(s: Shape, order: Order, x: Cell, y: Cell)
    requires !order.Blocks? && s.Has(x) && s.Has(y)
    ensures Stage(order, y) == Stage(order, x) && Item(s, order, y) == Item(s, order, x) <==>
            y.matrix == x.matrix && y.row == x.row
  {
    hide Join;
    if order.RowMajor? {
      JoinSplits(x.matrix, s.rows, x.row);
      JoinSplits(y.matrix, s.rows, y.row);
    }
  }

  /** Two words, of two neighbouring rows each, in neighbouring columns. */
  lemma StoresBlock(s: Shape, source: seq<bv32>, words: seq<bv32>, at: nat, even: bv32, next: nat, odd: bv32, x: Cell)
    requires Ready(s, Blocks, source, |words|) && s.Has(x) && x.row % 2 == 0
    requires s.Has(x.(row := x.row + 1)) && s.Has(x.(column := x.column + 1))
    requires at < |words| && 2 * at == Place(s, Blocks, x)
    requires next < |words| && 2 * next == Place(s, Blocks, x.(column := x.column + 1))
    requires Low(even) == Value(s, Blocks, source, |words|, x)
    requires High(even) == Value(s, Blocks, source, |words|, x.(row := x.row + 1))
    requires Low(odd) == Value(s, Blocks, source, |words|, x.(column := x.column + 1))
    requires High(odd) == Value(s, Blocks, source, |words|, Cell(x.matrix, x.row + 1, x.column + 1))
    ensures Stores(s, Blocks, source, words, words[at := even][next := odd], x.matrix, x.row / 2, x.column)
  {
    hide Place, Held, Value, Low, High, Shape.Fits, Shape.Size, Times, RestKept;
    var right := x.(column := x.column + 1);
    PlaceInside(s, Blocks, x);
    PlaceInside(s, Blocks, right);
    RestStored(s, words, at, even);
    RestStored(s, words[at := even], next, odd);
    RestTwice(s, words, words[at := even], words[at := even][next := odd]);
    forall y: Cell | s.Has(y)
      ensures Held(s, Blocks, words[at := even][next := odd], y) ==
              if y.matrix == x.matrix && y.row / 2 == x.row / 2 && x.column <= y.column < x.column + 2
              then Value(s, Blocks, source, |words|, y)
              else Held(s, Blocks, words, y)
    {
      StoreHolds(s, Blocks, words, at, even, x, y);
      StoreHolds(s, Blocks, words[at := even], next, odd, right, y);
    }
  }

  // ---------------------------------------------------------------------------
  // Addresses
  // ---------------------------------------------------------------------------

  /** The source word at an even column of a logical row holds two neighbouring elements. */
  lemma SourceWord(s: Shape, source: seq<bv32>, base: nat, x: Cell)
    requires s.logicalColumns % 2 == 0 && x.column % 2 == 0 && x.matrix < s.matrices && IsLogical(s, x)
    requires 2 * base == Times(x.matrix, Times(s.logicalRows, s.logicalColumns))
    requires Times(s.matrices, Times(s.logicalRows, s.logicalColumns)) <= 2 * |source|
    ensures 2 * (base + (Times(x.row, s.logicalColumns) + x.column) / 2) == LogicalPlace(s, x)
    ensures LogicalPlace(s, x.(column := x.column + 1)) == LogicalPlace(s, x) + 1
    ensures base + (Times(x.row, s.logicalColumns) + x.column) / 2 < |source|
  {
    hide Times, Join;
    LogicalInside(s, x);
    JoinParity(x.row, s.logicalColumns, x.column);
    JoinIs(x.row, s.logicalColumns, x.column);
    JoinIs(x.matrix, Times(s.logicalRows, s.logicalColumns), Join(x.row, s.logicalColumns, x.column));
    JoinIs(x.matrix, Times(s.logicalRows, s.logicalColumns), Join(x.row, s.logicalColumns, x.column + 1));
  }

  lemma JoinIs(q: nat, d: nat, r: nat)
    ensures Join(q, d, r) == Times(q, d) + r
  {
  }

  lemma LeftAddress(s: Shape, base: nat, x: Cell)
    requires s.Fits(Left) && s.Has(x) && x.column % 2 == 0 && 2 * base == Times(x.matrix, Times(s.rows, s.inner))
    ensures 2 * (base + (Times(Times(Times(Quo(x.column, s.inner), s.rows), s.inner), s.matrices)
                         + Times(x.row, s.inner) + Rem(x.column, s.inner)) / 2)
            == Place(s, Left, x)
  {
    hide Quo, Rem, Times, Join;
    var q, r := Quo(x.column, s.inner), Rem(x.column, s.inner);
    PairPlaces(s, Left, x);
    LeftRegroups(q, s.matrices, x.matrix, s.rows, x.row, s.inner, r);
  }

  lemma LeftRegroups(q: nat, n: nat, m: nat, rows: nat, row: nat, inner: nat, r: nat)
    ensures Join(Join(Join(q, n, m), rows, row), inner, r) ==
            Times(m, Times(rows, inner)) + (Times(Times(Times(q, rows), inner), n) + Times(row, inner) + r)
  {
    calc {
      ((q * n + m) * rows + row) * inner + r;
      { assert (q * n + m) * rows == q * n * rows + m * rows; }
      (q * n * rows + m * rows + row) * inner + r;
      { Spread(q * n * rows, m * rows, row, inner); }
      q * n * rows * inner + m * rows * inner + row * inner + r;
      { assert q * n * rows * inner == q * rows * inner * n by { Reorder(q, n, rows, inner); } }
      q * rows * inner * n + m * rows * inner + row * inner + r;
      { assert m * rows * inner == m * (rows * inner); }
      m * (rows * inner) + (q * rows * inner * n + row * inner + r);
    }
  }

  lemma Spread(a: nat, b: nat, c: nat, d: nat)
    ensures (a + b + c) * d == a * d + b * d + c * d
  {
  }

  lemma Reorder(a: nat, b: nat, c: nat, d: nat)
    ensures a * b * c * d == a * c * d * b
  {
    assert a * b * c == a * c * b;
    assert (a * c * b) * d == (a * c) * (b * d) == (a * c) * (d * b) == (a * c) * d * b;
  }

  lemma RightAddress(s: Shape, base: nat, x: Cell, word: nat, panel: nat, start: nat)
    requires s.Fits(Right) && s.Has(x) && Rem(x.column, s.inner) == 0 && 2 * word < s.inner
    requires s.Has(x.(column := x.column + 2 * word))
    requires 2 * base == Times(x.matrix, Times(s.rows, s.columns))
    requires panel == Join(Quo(x.row, s.columnBlock), Quo(s.columns, s.inner), Quo(x.column, s.inner))
    requires start == Times(Join(panel, s.columnBlock, Rem(x.row, s.columnBlock)), s.inner)
    ensures x.column % 2 == 0
    ensures 2 * (base + start / 2 + word) == Place(s, Right, x.(column := x.column + 2 * word))
  {
    hide Quo, Rem, Times, Join;
    var y := x.(column := x.column + 2 * word);
    MultipleEven(x.column, s.inner);
    InUnit(x.column, s.inner, 2 * word);
    PairPlaces(s, Right, y);
    JoinIs(Join(panel, s.columnBlock, Rem(x.row, s.columnBlock)), s.inner, 2 * word);
    JoinIs(x.matrix, Times(s.rows, s.columns), RightPlace(s, y.row, y.column));
    TimesEven(Join(panel, s.columnBlock, Rem(x.row, s.columnBlock)), s.inner);
  }

  lemma InUnit(x: nat, d: nat, r: nat)
    requires r < d && Rem(x, d) == 0
    ensures Quo(x + r, d) == Quo(x, d) && Rem(x + r, d) == r
  {
    QuotientIs(x + r, d, x / d, r);
  }

  lemma PanelRegroups(panel: nat, block: nat, b: nat, inner: nat, r: nat)
    ensures Join(Join(panel, block, b), inner, r) == Times(Times(panel, inner), block) + Times(b, inner) + r
    ensures Times(Join(panel, block, b), inner) == Times(Times(panel, inner), block) + Times(b, inner)
  {
    assert (panel * block + b) * inner == panel * block * inner + b * inner;
    assert panel * block * inner == panel * (block * inner) == panel * (inner * block) == panel * inner * block;
  }

  lemma BlockAddress(s: Shape, base: nat, x: Cell)
    requires s.Fits(Blocks) && s.Has(x) && x.row % 2 == 0 && 2 * base == Times(x.matrix, Times(s.rows, s.columns))
    ensures 2 * (base + (Times(Times(Panel(s, x.row, x.column), s.inner), s.columnBlock) + Rem(x.row, s.inner)
                         + Times(Rem(x.column, s.columnBlock), s.inner)) / 2)
            == Place(s, Blocks, x)
  {
    hide Quo, Rem, Panel, Times, Join;
    PairPlaces(s, Blocks, x);
    JoinIs(x.matrix, Times(s.rows, s.columns), BlockPlace(s, x.row, x.column));
    PanelRegroups(Panel(s, x.row, x.column), s.columnBlock, Rem(x.column, s.columnBlock), s.inner, Rem(x.row, s.inner));
  }

  lemma PanelIs(s: Shape, row: nat, column: nat)
    requires s.inner > 0 && s.rowBlock > 0 && s.columnBlock > 0
    ensures Panel(s, row, column) ==
            Times(Times(Quo(row, s.rowBlock), Quo(s.columns, s.columnBlock)), Quo(s.rowBlock, s.inner))
            + Times(Quo(column, s.columnBlock), Quo(s.rowBlock, s.inner)) + Quo(Rem(row, s.rowBlock), s.inner)
  {
    hide Quo, Rem;
    var a, b, k := Quo(row, s.rowBlock) * Quo(s.columns, s.columnBlock), Quo(column, s.columnBlock), Quo(s.rowBlock, s.inner);
    assert (a + b) * k == a * k + b * k;
  }

  /** What the kernel reads at an even column: a word of the row, or zero outside the logical matrix. */
  function SourceAt(s: Shape, source: seq<bv32>, base: nat, row: nat, column: nat): bv32
    requires base + (Times(row, s.logicalColumns) + column) / 2 < |source| || row >= s.logicalRows || column >= s.logicalColumns
  {
    if row < s.logicalRows && column < s.logicalColumns then source[base + (Times(row, s.logicalColumns) + column) / 2] else 0
  }

  /** The two halves of that word are the elements of the cell and its right neighbour. */
  lemma SourceValues(s: Shape, order: Order, source: seq<bv32>, words: nat, base: nat, x: Cell)
    requires !order.RowMajor? && Ready(s, order, source, words) && s.Has(x) && x.column % 2 == 0
    requires s.Has(x.(column := x.column + 1))
    requires 2 * base == Times(x.matrix, Times(s.logicalRows, s.logicalColumns))
    ensures IsLogical(s, x) ==> base + (Times(x.row, s.logicalColumns) + x.column) / 2 < |source|
    ensures Low(SourceAt(s, source, base, x.row, x.column)) == Value(s, order, source, words, x)
    ensures High(SourceAt(s, source, base, x.row, x.column)) == Value(s, order, source, words, x.(column := x.column + 1))
  {
    hide Low, High, Times, Join, LogicalPlace, Shape.Fits;
    ZeroHalves();
    if IsLogical(s, x) {
      SourceWord(s, source, base, x);
    }
  }

  // ---------------------------------------------------------------------------
  // Packing rows of panels (order 0)
  // ---------------------------------------------------------------------------

  method StoreLeft(s: Shape, source: seq<bv32>, destination: array<bv32>, sourceBase: nat, base: nat, x: Cell)
    requires Ready(s, Left, source, destination.Length) && s.Has(x) && x.column % 2 == 0
    requires 2 * sourceBase == Times(x.matrix, Times(s.logicalRows, s.logicalColumns))
    requires 2 * base == Times(x.matrix, Times(s.rows, s.inner))
    modifies destination
    ensures Stores(s, Left, source, old(destination[..]), destination[..], x.matrix, x.row, x.column)
  {
    hide Low, High, Pair, Times, Join, Place, Value, Stores, Quo, Rem;
    PairPlaces(s, Left, x);
    PlaceInside(s, Left, x);
    SourceValues(s, Left, source, destination.Length, sourceBase, x);
    LeftAddress(s, base, x);
    var low, high: bv32 := 0, 0;
    ZeroHalves();
    if x.row < s.logicalRows && x.column < s.logicalColumns {
      var sourceElement := Times(x.row, s.logicalColumns) + x.column;
      low := Low(source[sourceBase + sourceElement / 2]);
      high := High(source[sourceBase + sourceElement / 2]);
      HalvesAreShort(source[sourceBase + sourceElement / 2]);
    }
    PairsHalves(low, high);
    var physical := Times(Times(Times(Quo(x.column, s.inner), s.rows), s.inner), s.matrices)
      + Times(x.row, s.inner) + Rem(x.column, s.inner);
    StoresPair(s, Left, source, destination[..], base + physical / 2, Pair(low, high), x);
    ghost var before := destination[..];
    destination[base + physical / 2] := Pair(low, high);
    assert destination[..] == before[base + physical / 2 := Pair(low, high)];
  }

  method PackLeft(s: Shape, source: seq<bv32>, destination: array<bv32>, worker: nat)
    requires Ready(s, Left, source, destination.Length) && worker < 6
    modifies destination
    ensures WorkerDone(s, Left, source, old(destination[..]), destination[..], worker)
  {
    hide Progress, WorkerDone, Ready, Stores, Times;
    Dimensions(s, Left, source, destination.Length);
    var sourceBase, base: nat := 0, 0;
    ProgressStarts(s, Left, source, destination[..], worker);
    Advances(0, Times(s.logicalRows, s.logicalColumns));
    Advances(0, Times(s.rows, s.inner));
    for matrix := 0 to s.matrices
      invariant 2 * sourceBase == Times(matrix, Times(s.logicalRows, s.logicalColumns))
      invariant 2 * base == Times(matrix, Times(s.rows, s.inner))
      invariant Progress(s, Left, source, old(destination[..]), destination[..], worker, matrix, worker, 0)
    {
      var row := worker;
      while row < s.rows
        invariant row % 6 == worker
        invariant Progress(s, Left, source, old(destination[..]), destination[..], worker, matrix, row, 0)
        decreases s.rows - row
      {
        var column := 0;
        while column < s.columns
          invariant column % 2 == 0
          invariant Progress(s, Left, source, old(destination[..]), destination[..], worker, matrix, row, column)
          decreases s.columns - column
        {
          ghost var before := destination[..];
          StoreLeft(s, source, destination, sourceBase, base, Cell(matrix, row, column));
          ProgressStores(s, Left, source, old(destination[..]), before, destination[..], worker, matrix, row, column);
          column := column + 2;
        }
        ProgressNextItem(s, Left, source, old(destination[..]), destination[..], worker, matrix, row, column);
        row := row + 6;
      }
      ProgressNextMatrix(s, Left, source, old(destination[..]), destination[..], worker, matrix, row);
      Advances(matrix, Times(s.logicalRows, s.logicalColumns));
      Advances(matrix, Times(s.rows, s.inner));
      sourceBase := sourceBase + Times(s.logicalRows, s.logicalColumns) / 2;
      base := base + Times(s.rows, s.inner) / 2;
    }
    ProgressEnds(s, Left, source, old(destination[..]), destination[..], worker, s.matrices);
  }

  lemma Advances(m: nat, size: nat)
    ensures Times(m + 1, size) == Times(m, size) + size && Times(0, size) == 0
  {
    MulNext(m, size);
  }

  /** The sizes that the kernels halve are even. */
  lemma Dimensions(s: Shape, order: Order, source: seq<bv32>, words: nat)
    requires Ready(s, order, source, words)
    ensures s.columns % 2 == 0 && s.inner > 0 && s.inner % 2 == 0
    ensures Times(s.rows, s.inner) % 2 == 0 && Times(s.rows, s.columns) % 2 == 0
    ensures !order.RowMajor? ==> Times(s.logicalRows, s.logicalColumns) % 2 == 0
    ensures order.Blocks? ==> s.rows % 2 == 0
  {
    hide Times, Rem, Quo;
    SizeEven(s, order);
    TimesEven(s.rows, s.inner);
    if !order.RowMajor? {
      TimesEven(s.logicalRows, s.logicalColumns);
    }
  }

  // ---------------------------------------------------------------------------
  // Packing columns of panels (order 1)
  // ---------------------------------------------------------------------------

  method StoreRight(s: Shape, source: seq<bv32>, destination: array<bv32>, sourceWord: nat, at: nat, word: nat, x: Cell,
                    ghost sourceBase: nat)
    requires Ready(s, Right, source, destination.Length) && s.Has(x) && x.column % 2 == 0
    requires x.column == 2 * word + (x.column - 2 * word) && 2 * word <= x.column
    requires 2 * sourceBase == Times(x.matrix, Times(s.logicalRows, s.logicalColumns))
    requires sourceWord + word == sourceBase + (Times(x.row, s.logicalColumns) + x.column) / 2
    requires 2 * (at + word) == Place(s, Right, x)
    modifies destination
    ensures Stores(s, Right, source, old(destination[..]), destination[..], x.matrix, x.row, x.column)
  {
    hide Low, High, Times, Join, Place, Value, Stores, Quo, Rem;
    PairPlaces(s, Right, x);
    PlaceInside(s, Right, x);
    SourceValues(s, Right, source, destination.Length, sourceBase, x);
    var value := if x.row < s.logicalRows && x.column < s.logicalColumns then source[sourceWord + word] else 0;
    StoresPair(s, Right, source, destination[..], at + word, value, x);
    ghost var before := destination[..];
    destination[at + word] := value;
    assert destination[..] == before[at + word := value];
  }

  /** One row of one panel. */
  method PackRightPanel(s: Shape, source: seq<bv32>, destination: array<bv32>, sourceBase: nat, base: nat, x: Cell,
                        ghost start: seq<bv32>, ghost worker: nat)
    requires Ready(s, Right, source, destination.Length) && s.Has(x) && Rem(x.column, s.inner) == 0 && x.row % 6 == worker
    requires 2 * sourceBase == Times(x.matrix, Times(s.logicalRows, s.logicalColumns))
    requires 2 * base == Times(x.matrix, Times(s.rows, s.columns))
    requires Progress(s, Right, source, start, destination[..], worker, x.matrix, x.row, x.column)
    modifies destination
    ensures Progress(s, Right, source, start, destination[..], worker, x.matrix, x.row, x.column + s.inner)
  {
    hide Progress, Stores, Times, Place, Quo, Rem, Join;
    var panel := Join(Quo(x.row, s.columnBlock), Quo(s.columns, s.inner), Quo(x.column, s.inner));
    var first := Times(Join(panel, s.columnBlock, Rem(x.row, s.columnBlock)), s.inner);
    var sourceWord := sourceBase + (Times(x.row, s.logicalColumns) + x.column) / 2;
    ColumnEven(s, x);
    for word := 0 to s.inner / 2
      invariant Progress(s, Right, source, start, destination[..], worker, x.matrix, x.row, x.column + 2 * word)
    {
      var y := x.(column := x.column + 2 * word);
      PanelInsideColumns(s, x, word);
      RightAddress(s, base, x, word, panel, first);
      HalfSum(Times(x.row, s.logicalColumns) + x.column, word);
      ghost var before := destination[..];
      StoreRight(s, source, destination, sourceWord, base + first / 2, word, y, sourceBase);
      ProgressStores(s, Right, source, start, before, destination[..], worker, x.matrix, x.row, y.column);
    }
  }

  lemma HalfSum(a: nat, word: nat)
    ensures a / 2 + word == (a + 2 * word) / 2
  {
  }

  lemma ColumnEven(s: Shape, x: Cell)
    requires s.Fits(Right) && Rem(x.column, s.inner) == 0
    ensures x.column % 2 == 0
  {
    hide Rem, Quo, Times;
    MultipleEven(x.column, s.inner);
  }

  /** A panel that starts inside the matrix ends inside it. */
  lemma PanelInsideColumns(s: Shape, x: Cell, word: nat)
    requires s.Fits(Right) && s.Has(x) && Rem(x.column, s.inner) == 0 && 2 * word < s.inner
    ensures s.Has(x.(column := x.column + 2 * word))
  {
    hide Quo, Rem, Times, Join;
    Multiple(s.columns, s.inner);
    SplitJoins(x.column, s.inner);
    QuotientBelow(x.column, Quo(s.columns, s.inner), s.inner);
    JoinIs(Quo(x.column, s.inner), s.inner, 0);
    JoinIs(Quo(x.column, s.inner), s.inner, 2 * word);
    JoinBelow(Quo(x.column, s.inner), Quo(s.columns, s.inner), s.inner, 2 * word);
  }

  method PackRight(s: Shape, source: seq<bv32>, destination: array<bv32>, worker: nat)
    requires Ready(s, Right, source, destination.Length) && worker < 6
    modifies destination
    ensures WorkerDone(s, Right, source, old(destination[..]), destination[..], worker)
  {
    hide Progress, WorkerDone, Ready, Stores, Times, Rem;
    Dimensions(s, Right, source, destination.Length);
    var sourceBase, base: nat := 0, 0;
    ProgressStarts(s, Right, source, destination[..], worker);
    Advances(0, Times(s.logicalRows, s.logicalColumns));
    Advances(0, Times(s.rows, s.columns));
    for matrix := 0 to s.matrices
      invariant 2 * sourceBase == Times(matrix, Times(s.logicalRows, s.logicalColumns))
      invariant 2 * base == Times(matrix, Times(s.rows, s.columns))
      invariant Progress(s, Right, source, old(destination[..]), destination[..], worker, matrix, worker, 0)
    {
      var row := worker;
      while row < s.rows
        invariant row % 6 == worker
        invariant Progress(s, Right, source, old(destination[..]), destination[..], worker, matrix, row, 0)
        decreases s.rows - row
      {
        var column := 0;
        NextMultiple(0, s.inner);
        while column < s.columns
          invariant Rem(column, s.inner) == 0
          invariant Progress(s, Right, source, old(destination[..]), destination[..], worker, matrix, row, column)
          decreases s.columns - column
        {
          PackRightPanel(s, source, destination, sourceBase, base, Cell(matrix, row, column), old(destination[..]), worker);
          NextMultiple(column, s.inner);
          column := column + s.inner;
        }
        ProgressNextItem(s, Right, source, old(destination[..]), destination[..], worker, matrix, row, column);
        row := row + 6;
      }
      ProgressNextMatrix(s, Right, source, old(destination[..]), destination[..], worker, matrix, row);
      Advances(matrix, Times(s.logicalRows, s.logicalColumns));
      Advances(matrix, Times(s.rows, s.columns));
      sourceBase := sourceBase + Times(s.logicalRows, s.logicalColumns) / 2;
      base := base + Times(s.rows, s.columns) / 2;
    }
    ProgressEnds(s, Right, source, old(destination[..]), destination[..], worker, s.matrices);
  }

  lemma NextMultiple(x: nat, d: nat)
    requires d > 0
    ensures Rem(0, d) == 0 && (Rem(x, d) == 0 ==> Rem(x + d, d) == 0)
  {
    OneDivisorLess(x + d, d);
  }

  // ---------------------------------------------------------------------------
  // Packing blocks of panels (order 2)
  // ---------------------------------------------------------------------------

  /** Rows `x.row` and `x.row + 1` of two columns. */
  method StoreBlock(s: Shape, source: seq<bv32>, destination: array<bv32>, sourceBase: nat, base: nat, x: Cell)
    requires Ready(s, Blocks, source, destination.Length) && s.Has(x) && x.row % 2 == 0 && x.column % 2 == 0
    requires 2 * sourceBase == Times(x.matrix, Times(s.logicalRows, s.logicalColumns))
    requires 2 * base == Times(x.matrix, Times(s.rows, s.columns))
    modifies destination
    ensures Stores(s, Blocks, source, old(destination[..]), destination[..], x.matrix, x.row / 2, x.column)
  {
    hide Low, High, PackEven, PackOdd, Times, Join, Place, Value, Stores, Quo, Rem, Panel;
    Dimensions(s, Blocks, source, destination.Length);
    var below, right := x.(row := x.row + 1), x.(column := x.column + 1);
    SourceValues(s, Blocks, source, destination.Length, sourceBase, x);
    SourceValues(s, Blocks, source, destination.Length, sourceBase, below);
    var sourceRow, sourceNextRow: bv32 := 0, 0;
    if x.row < s.logicalRows && x.column < s.logicalColumns {
      var sourceWord := sourceBase + (Times(x.row, s.logicalColumns) + x.column) / 2;
      sourceRow := source[sourceWord];
      if x.row + 1 < s.logicalRows {
        NextRow(x.row, s.logicalColumns, x.column);
        sourceNextRow := source[sourceWord + s.logicalColumns / 2];
      }
    }
    var packedEven := PackEven(sourceRow, sourceNextRow);
    var packedOdd := PackOdd(sourceRow, sourceNextRow);
    PacksEven(sourceRow, sourceNextRow);
    PacksOdd(sourceRow, sourceNextRow);
    PanelIs(s, x.row, x.column);
    var panel := Times(Times(Quo(x.row, s.rowBlock), Quo(s.columns, s.columnBlock)), Quo(s.rowBlock, s.inner))
      + Times(Quo(x.column, s.columnBlock), Quo(s.rowBlock, s.inner)) + Quo(Rem(x.row, s.rowBlock), s.inner);
    var physicalBase := Times(Times(panel, s.inner), s.columnBlock) + Rem(x.row, s.inner);
    var even := base + (physicalBase + Times(Rem(x.column, s.columnBlock), s.inner)) / 2;
    var odd := base + (physicalBase + Times(Rem(x.column, s.columnBlock) + 1, s.inner)) / 2;
    PairInUnit(x.column, s.columnBlock);
    BlockAddress(s, base, x);
    SamePanel(s, x.row, x.column);
    BlockAddress(s, base, right);
    PlaceInside(s, Blocks, x);
    PlaceInside(s, Blocks, right);
    StoresBlock(s, source, destination[..], even, packedEven, odd, packedOdd, x);
    ghost var before := destination[..];
    destination[even] := packedEven;
    destination[odd] := packedOdd;
    assert destination[..] == before[even := packedEven][odd := packedOdd];
  }

  lemma NextRow(row: nat, columns: nat, column: nat)
    requires columns % 2 == 0
    ensures (Times(row + 1, columns) + column) / 2 == (Times(row, columns) + column) / 2 + columns / 2
  {
    MulNext(row, columns);
  }

  lemma SamePanel(s: Shape, row: nat, column: nat)
    requires s.Fits(Blocks) && column % 2 == 0
    ensures Panel(s, row, column + 1) == Panel(s, row, column)
  {
    hide Quo, Rem, Times, Join;
    PairInUnit(column, s.columnBlock);
  }

  /** A worker of order 2 packs one pair of rows. */
  method PackRowPair(s: Shape, source: seq<bv32>, destination: array<bv32>, ghost start: seq<bv32>, worker: nat, matrix: nat,
                     sourceBase: nat, base: nat, rowPair: nat)
    requires Ready(s, Blocks, source, destination.Length) && worker < 6 && matrix < s.matrices
    requires 2 * sourceBase == Times(matrix, Times(s.logicalRows, s.logicalColumns))
    requires 2 * base == Times(matrix, Times(s.rows, s.columns))
    requires rowPair % 6 == worker && rowPair < (s.rows + 1) / 2
    requires Progress(s, Blocks, source, start, destination[..], worker, matrix, rowPair, 0)
    modifies destination
    ensures Progress(s, Blocks, source, start, destination[..], worker, matrix, rowPair + 6, 0)
  {
    hide Progress, Ready, Stores, Times;
    Dimensions(s, Blocks, source, destination.Length);
    var column := 0;
    while column < s.columns
      invariant column % 2 == 0
      invariant Progress(s, Blocks, source, start, destination[..], worker, matrix, rowPair, column)
      decreases s.columns - column
    {
      ghost var before := destination[..];
      StoreBlock(s, source, destination, sourceBase, base, Cell(matrix, rowPair * 2, column));
      ProgressStores(s, Blocks, source, start, before, destination[..], worker, matrix, rowPair, column);
      column := column + 2;
    }
    ProgressNextItem(s, Blocks, source, start, destination[..], worker, matrix, rowPair, column);
  }

  method PackBlocks(s: Shape, source: seq<bv32>, destination: array<bv32>, worker: nat)
    requires Ready(s, Blocks, source, destination.Length) && worker < 6
    modifies destination
    ensures WorkerDone(s, Blocks, source, old(destination[..]), destination[..], worker)
  {
    hide Progress, WorkerDone, Ready, Stores, Times;
    Dimensions(s, Blocks, source, destination.Length);
    var sourceBase, base: nat := 0, 0;
    ProgressStarts(s, Blocks, source, destination[..], worker);
    Advances(0, Times(s.logicalRows, s.logicalColumns));
    Advances(0, Times(s.rows, s.columns));
    var rowPairs := (s.rows + 1) / 2;
    for matrix := 0 to s.matrices
      invariant 2 * sourceBase == Times(matrix, Times(s.logicalRows, s.logicalColumns))
      invariant 2 * base == Times(matrix, Times(s.rows, s.columns))
      invariant Progress(s, Blocks, source, old(destination[..]), destination[..], worker, matrix, worker, 0)
    {
      var rowPair := worker;
      while rowPair < rowPairs
        invariant rowPair % 6 == worker
        invariant Progress(s, Blocks, source, old(destination[..]), destination[..], worker, matrix, rowPair, 0)
        decreases rowPairs - rowPair
      {
        PackRowPair(s, source, destination, old(destination[..]), worker, matrix, sourceBase, base, rowPair);
        rowPair := rowPair + 6;
      }
      ProgressNextMatrix(s, Blocks, source, old(destination[..]), destination[..], worker, matrix, rowPair);
      Advances(matrix, Times(s.logicalRows, s.logicalColumns));
      Advances(matrix, Times(s.rows, s.columns));
      sourceBase := sourceBase + Times(s.logicalRows, s.logicalColumns) / 2;
      base := base + Times(s.rows, s.columns) / 2;
    }
    ProgressEnds(s, Blocks, source, old(destination[..]), destination[..], worker, s.matrices);
  }

  // ---------------------------------------------------------------------------
  // Unpacking
  // ---------------------------------------------------------------------------

  /** The element of a cell in packed blocks. */
  method ReadPacked(s: Shape, source: seq<bv32>, words: nat, x: Cell) returns (value: bv32)
    requires Ready(s, RowMajor, source, words) && s.Has(x) && IsLogical(s, x)
    ensures value == Value(s, RowMajor, source, words, x)
  {
    hide Low, High, Times, Join, Quo, Rem;
    var matrixBase := Times(x.matrix, Times(s.rows, s.columns));
    var physical := BlockPlace(s, x.row, x.column);
    JoinIs(x.matrix, Times(s.rows, s.columns), physical);
    TimesNest(x.matrix, s.rows, s.columns);
    PlaceInside(s, Blocks, x);
    value := Half(source, matrixBase + physical);
  }

  lemma TimesNest(a: nat, b: nat, c: nat)
    ensures Times(a, Times(b, c)) == a * (b * c)
  {
  }

  method StoreUnpacked(s: Shape, source: seq<bv32>, destination: array<bv32>, x: Cell)
    requires Ready(s, RowMajor, source, destination.Length) && s.Has(x) && x.column % 2 == 0
    modifies destination
    ensures Stores(s, RowMajor, source, old(destination[..]), destination[..], 0, Item(s, RowMajor, x), x.column)
  {
    hide Low, High, Pair, Times, Join, Place, Value, Stores, Quo, Rem, Half;
    PairPlaces(s, RowMajor, x);
    PlaceInside(s, RowMajor, x);
    ZeroHalves();
    var low, high: bv32 := 0, 0;
    PaddingIsZero(s, source, destination.Length, x);
    PaddingIsZero(s, source, destination.Length, x.(column := x.column + 1));
    if x.row < s.logicalRows && x.column < s.logicalColumns {
      low := ReadPacked(s, source, destination.Length, x);
      if x.column + 1 < s.logicalColumns {
        high := ReadPacked(s, source, destination.Length, x.(column := x.column + 1));
      }
    }
    PairsHalves(low, high);
    var at := (Times(x.matrix, Times(s.rows, s.columns)) + (Times(x.row, s.columns) + x.column)) / 2;
    JoinIs(x.matrix, Times(s.rows, s.columns), Join(x.row, s.columns, x.column));
    JoinIs(x.row, s.columns, x.column);
    RowMajorPlace(s, x);
    StoresPair(s, RowMajor, source, destination[..], at, Pair(low, high), x);
    ghost var before := destination[..];
    destination[at] := Pair(low, high);
    assert destination[..] == before[at := Pair(low, high)];
  }

  lemma RowMajorPlace(s: Shape, x: Cell)
    requires s.Fits(RowMajor)
    ensures Place(s, RowMajor, x) == Join(x.matrix, Times(s.rows, s.columns), Join(x.row, s.columns, x.column))
  {
  }

  lemma PaddingIsZero(s: Shape, source: seq<bv32>, words: nat, x: Cell)
    requires Ready(s, RowMajor, source, words) && s.Has(x)
    ensures Value(s, RowMajor, source, words, x) <= 0xFFFF
    ensures !IsLogical(s, x) ==> Value(s, RowMajor, source, words, x) == 0
  {
    hide Low, High, Place, Times;
    if IsLogical(s, x) {
      PlaceInside(s, Blocks, x);
      HalvesAreShort(source[Place(s, Blocks, x) / 2]);
    }
  }

  method Unpack(s: Shape, source: seq<bv32>, destination: array<bv32>, worker: nat)
    requires Ready(s, RowMajor, source, destination.Length) && worker < 6
    modifies destination
    ensures WorkerDone(s, RowMajor, source, old(destination[..]), destination[..], worker)
  {
    hide Progress, WorkerDone, Ready, Stores, Times, Join, Quo, Rem;
    Dimensions(s, RowMajor, source, destination.Length);
    ProgressStarts(s, RowMajor, source, destination[..], worker);
    var matrixRow := worker;
    while matrixRow < Times(s.matrices, s.rows)
      invariant matrixRow % 6 == worker
      invariant Progress(s, RowMajor, source, old(destination[..]), destination[..], worker, 0, matrixRow, 0)
      decreases Times(s.matrices, s.rows) - matrixRow
    {
      RowsPositive(s.matrices, s.rows, matrixRow);
      var matrix, row := Quo(matrixRow, s.rows), Rem(matrixRow, s.rows);
      QuotientBelow(matrixRow, s.matrices, s.rows);
      SplitJoins(matrixRow, s.rows);
      var column := 0;
      while column < s.columns
        invariant column % 2 == 0
        invariant Progress(s, RowMajor, source, old(destination[..]), destination[..], worker, 0, matrixRow, column)
        decreases s.columns - column
      {
        ghost var before := destination[..];
        StoreUnpacked(s, source, destination, Cell(matrix, row, column));
        ProgressStores(s, RowMajor, source, old(destination[..]), before, destination[..], worker, 0, matrixRow, column);
        column := column + 2;
      }
      ProgressNextItem(s, RowMajor, source, old(destination[..]), destination[..], worker, 0, matrixRow, column);
      matrixRow := matrixRow + 6;
    }
    forall x: Cell | s.Has(x)
      ensures Item(s, RowMajor, x) < matrixRow
    {
      JoinBelow(x.matrix, s.matrices, s.rows, x.row);
    }
    ProgressNextMatrix(s, RowMajor, source, old(destination[..]), destination[..], worker, 0, matrixRow);
    ProgressEnds(s, RowMajor, source, old(destination[..]), destination[..], worker, 1);
  }

  lemma RowsPositive(matrices: nat, rows: nat, x: nat)
    requires x < Times(matrices, rows)
    ensures rows > 0
  {
    ZeroTimes(matrices, rows);
  }

  // ---------------------------------------------------------------------------
  // All workers
  // ---------------------------------------------------------------------------

  /** Every cell holds its element. */
  ghost predicate AllStored(s: Shape, order: Order, source: seq<bv32>, words: seq<bv32>) {
    && Ready(s, order, source, |words|)
    && forall x: Cell {:trigger Held(s, order, words, x)} :: s.Has(x) ==>
         Held(s, order, words, x) == Value(s, order, source, |words|, x)
  }

  /** The cells of the workers in `ran` hold their elements. */
  ghost predicate StoredBy(s: Shape, order: Order, source: seq<bv32>, words: seq<bv32>, ran: seq<nat>) {
    && Ready(s, order, source, |words|)
    && forall x: Cell {:trigger Held(s, order, words, x)} :: s.Has(x) && Item(s, order, x) % 6 in ran ==>
         Held(s, order, words, x) == Value(s, order, source, |words|, x)
  }

  lemma StoredByNext(s: Shape, order: Order, source: seq<bv32>, before: seq<bv32>, after: seq<bv32>, ran: seq<nat>, worker: nat)
    requires StoredBy(s, order, source, before, ran) && WorkerDone(s, order, source, before, after, worker)
    ensures StoredBy(s, order, source, after, ran + [worker]) && RestKept(s, before, after)
  {
    hide Held, Value, Ready, Item, Shape.Fits;
  }

  /** In whatever order the workers run, all cells end up stored. */
  method Launch(s: Shape, order: Order, source: seq<bv32>, destination: array<bv32>, workers: seq<nat>)
    requires Ready(s, order, source, destination.Length)
    requires (forall i :: 0 <= i < |workers| ==> workers[i] < 6) && (forall w: nat :: w < 6 ==> w in workers)
    modifies destination
    ensures AllStored(s, order, source, destination[..]) && RestKept(s, old(destination[..]), destination[..])
  {
    hide Ready, WorkerDone, StoredBy, RestKept;
    NoneStored(s, order, source, destination[..]);
    for i := 0 to |workers|
      invariant StoredBy(s, order, source, destination[..], workers[..i])
      invariant RestKept(s, old(destination[..]), destination[..])
    {
      ghost var before := destination[..];
      match order {
        case Left => PackLeft(s, source, destination, workers[i]);
        case Right => PackRight(s, source, destination, workers[i]);
        case Blocks => PackBlocks(s, source, destination, workers[i]);
        case RowMajor => Unpack(s, source, destination, workers[i]);
      }
      StoredByNext(s, order, source, before, destination[..], workers[..i], workers[i]);
      RestTwice(s, old(destination[..]), before, destination[..]);
      assert workers[..i + 1] == workers[..i] + [workers[i]];
    }
    assert workers[..|workers|] == workers;
    SixStored(s, order, source, destination[..], workers);
  }

  lemma NoneStored(s: Shape, order: Order, source: seq<bv32>, words: seq<bv32>)
    requires Ready(s, order, source, |words|)
    ensures StoredBy(s, order, source, words, []) && RestKept(s, words, words)
  {
  }

  lemma SixStored(s: Shape, order: Order, source: seq<bv32>, words: seq<bv32>, workers: seq<nat>)
    requires StoredBy(s, order, source, words, workers) && (forall w: nat :: w < 6 ==> w in workers)
    ensures AllStored(s, order, source, words)
  {
    hide Held, Value, Ready, Item, Shape.Fits;
  }

  // ---------------------------------------------------------------------------
  // Round trip
  // ---------------------------------------------------------------------------

  /** Unpacking what was packed gives every logical element back, and zero in the padding. */
  lemma UnpackInvertsPack(s: Shape, source: seq<bv32>, packed: seq<bv32>, unpacked: seq<bv32>, x: Cell)
    requires AllStored(s, Blocks, source, packed) && AllStored(s, RowMajor, packed, unpacked) && s.Has(x)
    ensures Held(s, RowMajor, unpacked, x) ==
            if IsLogical(s, x) then LogicalInside(s, x); Half(source, LogicalPlace(s, x)) else 0
  {
    hide Half, Place, Shape.Fits, LogicalPlace;
    assert Held(s, RowMajor, unpacked, x) == Value(s, RowMajor, packed, |unpacked|, x);
    assert Held(s, Blocks, packed, x) == Value(s, Blocks, source, |packed|, x);
  }

  /** What packing leaves at a cell's place: the source's element in its row and column, and 0
      beyond the source's rows and columns. */
  lemma PackedCells(s: Shape, order: Order, source: seq<bv32>, words: seq<bv32>, x: Cell)
    requires !order.RowMajor? && AllStored(s, order, source, words) && s.Has(x)
    ensures Element(words, Place(s, order, x)) ==
            if x.row < s.logicalRows && x.column < s.logicalColumns
            then Element(source, RowPlace(s.logicalRows, s.logicalColumns, x)) else 0
  {
    hide Half, Element, Place;
    PlaceInside(s, order, x);
    HalfIsElement(words, Place(s, order, x));
    assert Held(s, order, words, x) == Value(s, order, source, |words|, x);
    if IsLogical(s, x) {
      LogicalInside(s, x);
      HalfIsElement(source, LogicalPlace(s, x));
    }
  }

  /** Every element of the source is where it was, in rows and matrices of the padded size, and
      whatever lies beyond the source's rows and columns is 0. */
  ghost predicate Restores(s: Shape, source: seq<bv32>, words: seq<bv32>) {
    forall x: Cell {:trigger RowPlace(s.rows, s.columns, x)} :: x.matrix < s.matrices && x.row < s.rows && x.column < s.columns ==>
      Element(words, RowPlace(s.rows, s.columns, x)) ==
      if x.row < s.logicalRows && x.column < s.logicalColumns
      then Element(source, RowPlace(s.logicalRows, s.logicalColumns, x)) else 0
  }

  lemma RestoresCells(s: Shape, source: seq<bv32>, words: seq<bv32>, x: Cell)
    requires Ready(s, Blocks, source, |words|) && s.Fits(RowMajor) && s.Has(x)
    requires Held(s, RowMajor, words, x) == if IsLogical(s, x) then LogicalInside(s, x); Half(source, LogicalPlace(s, x)) else 0
    ensures Element(words, RowPlace(s.rows, s.columns, x)) ==
            if x.row < s.logicalRows && x.column < s.logicalColumns
            then Element(source, RowPlace(s.logicalRows, s.logicalColumns, x)) else 0
  {
    hide Half, Element;
    RowsCount(s, x);
    PlaceInside(s, RowMajor, x);
    HalfIsElement(words, RowPlace(s.rows, s.columns, x));
    if IsLogical(s, x) {
      LogicalInside(s, x);
      HalfIsElement(source, LogicalPlace(s, x));
    }
  }

  method RoundTrip(s: Shape, source: seq<bv32>, words: nat, packers: seq<nat>, unpackers: seq<nat>) returns (result: array<bv32>)
    requires Ready(s, Blocks, source, words) && s.Fits(RowMajor)
    requires (forall i :: 0 <= i < |packers| ==> packers[i] < 6) && (forall w: nat :: w < 6 ==> w in packers)
    requires (forall i :: 0 <= i < |unpackers| ==> unpackers[i] < 6) && (forall w: nat :: w < 6 ==> w in unpackers)
    ensures fresh(result) && result.Length == words
    ensures forall x: Cell {:trigger Held(s, RowMajor, result[..], x)} :: s.Has(x) ==>
      Held(s, RowMajor, result[..], x) == if IsLogical(s, x) then LogicalInside(s, x); Half(source, LogicalPlace(s, x)) else 0
    ensures Restores(s, source, result[..])
  {
    hide Shape.Fits, AllStored, Half, LogicalPlace, Held, RowPlace, Element;
    var packed := new bv32[words];
    Launch(s, Blocks, source, packed, packers);
    result := new bv32[words];
    Launch(s, RowMajor, packed[..], result, unpackers);
    forall x: Cell | s.Has(x)
      ensures Held(s, RowMajor, result[..], x) == if IsLogical(s, x) then LogicalInside(s, x); Half(source, LogicalPlace(s, x)) else 0
    {
      UnpackInvertsPack(s, source, packed[..], result[..], x);
    }
    forall x: Cell {:trigger RowPlace(s.rows, s.columns, x)} | x.matrix < s.matrices && x.row < s.rows && x.column < s.columns
      ensures Element(result[..], RowPlace(s.rows, s.columns, x)) ==
              if x.row < s.logicalRows && x.column < s.logicalColumns
              then Element(source, RowPlace(s.logicalRows, s.logicalColumns, x)) else 0
    {
      RestoresCells(s, source, result[..], x);
    }
  }
}
