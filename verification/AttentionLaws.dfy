/** What attention computes, on matrices of rows (device/flash_attention_online_f16.cpp).

    The kernel reads its inputs as one vector each. Seen as matrices, every output row is the mean of
    its matrix's value rows, weighted by the exponential of the scale times the inner product of the
    query row with the key row. The module proves this of the `Attention` that `OnlineSoftmax` shows
    the kernel to compute, and what it implies: without a scale the mean is plain, scaling the
    queries is scaling the scores, and a single key returns its value. */
module AttentionLaws {
  import opened DivMod
  import opened OnlineSoftmax

  // ---------------------------------------------------------------------------
  // Matrices
  // ---------------------------------------------------------------------------

  /** Matrices, each a sequence of rows. */
  type Matrices = seq<seq<seq<real>>>

  function Concat<T>(parts: seq<seq<T>>): seq<T> {
    if parts == [] then [] else Concat(parts[..|parts| - 1]) + parts[|parts| - 1]
  }

  ghost predicate AllWide<T>(parts: seq<seq<T>>, width: nat) {
    forall i :: 0 <= i < |parts| ==> |parts[i]| == width
  }

  ghost predicate Shaped(a: Matrices, matrices: nat, rows: nat, width: nat) {
    |a| == matrices && AllWide(a, rows) && forall m :: 0 <= m < matrices ==> AllWide(a[m], width)
  }

  /** The inputs hold the rows of the matrices one after the other. */
  ghost predicate Holds(p: Problem, query: Matrices, key: Matrices, value: Matrices) {
    && Shaped(query, p.matrices, p.queryRows, p.queryDimension) && p.query == Concat(Concat(query))
    && Shaped(key, p.matrices, p.keyRows, p.queryDimension) && p.key == Concat(Concat(key))
    && Shaped(value, p.matrices, p.keyRows, p.valueDimension) && p.value == Concat(Concat(value))
  }

  lemma {:induction false} ConcatLength<T>(parts: seq<seq<T>>, width: nat)
    requires AllWide(parts, width)
    ensures |Concat(parts)| == |parts| * width
  {
    if parts != [] {
      var n := |parts| - 1;
      ConcatLength(parts[..n], width);
      MulNext(n, width);
    }
  }

  lemma {:induction false} ConcatAt<T>(parts: seq<seq<T>>, width: nat, i: nat, j: nat)
    requires AllWide(parts, width) && i < |parts| && j < width
    ensures i * width + j < |parts| * width == |Concat(parts)|
    ensures Concat(parts)[i * width + j] == parts[i][j]
  {
    var n := |parts| - 1;
    ConcatLength(parts, width);
    ConcatLength(parts[..n], width);
    MulMonotone(i + 1, |parts|, width);
    MulNext(i, width);
    if i < n {
      ConcatAt(parts[..n], width, i, j);
    }
  }

  lemma RowAndColumn(x: nat, rows: nat, width: nat) returns (row: nat, column: nat)
    requires width > 0 && x < rows * width
    ensures row < rows && column < width && x == row * width + column
  {
    row, column := x / width, x % width;
    MatrixInside(x, rows, width);
  }

  lemma RowsOfMatrices(a: Matrices, matrices: nat, rows: nat, width: nat)
    requires Shaped(a, matrices, rows, width)
    ensures |Concat(a)| == matrices * rows && AllWide(Concat(a), width)
  {
    ConcatLength(a, rows);
    forall x | 0 <= x < |Concat(a)|
      ensures |Concat(a)[x]| == width
    {
      var m, r := RowAndColumn(x, matrices, rows);
      ConcatAt(a, rows, m, r);
      assert AllWide(a[m], width);
    }
  }

  /** Element `j` of row `r` of matrix `m`, in the vector. */
  lemma ElementOfMatrices(a: Matrices, matrices: nat, rows: nat, width: nat, m: nat, r: nat, j: nat)
    requires Shaped(a, matrices, rows, width) && m < matrices && r < rows && j < width
    ensures m * rows + r < matrices * rows
    ensures |a[m]| == rows && |a[m][r]| == width
    ensures (m * rows + r) * width + j < |Concat(Concat(a))| == matrices * rows * width
    ensures Concat(Concat(a))[(m * rows + r) * width + j] == a[m][r][j]
  {
    RowsOfMatrices(a, matrices, rows, width);
    ConcatAt(a, rows, m, r);
    ConcatAt(Concat(a), width, m * rows + r, j);
    assert AllWide(a[m], width);
  }

  // ---------------------------------------------------------------------------
  // Weighted means
  // ---------------------------------------------------------------------------

  /** The inner product of two rows, up to their first `n` elements. */
  ghost function Inner(x: seq<real>, y: seq<real>, n: nat): real
    requires n <= |x| && n <= |y|
  {
    if n == 0 then 0.0 else Inner(x, y, n - 1) + x[n - 1] * y[n - 1]
  }

  ghost function Scaled(scale: real, inner: real): real {
    scale * inner
  }

  /** What key `j` of a matrix weighs for a query. */
  ghost function Weight(exp: real -> real, scale: real, query: seq<real>, keys: seq<seq<real>>, j: nat): real
    requires j < |keys| && |query| == |keys[j]|
  {
    exp(Scaled(scale, Inner(query, keys[j], |query|)))
  }

  /** The weights of the first `n` keys. */
  ghost function Weights(exp: real -> real, scale: real, query: seq<real>, keys: seq<seq<real>>, n: nat): real
    requires n <= |keys| && AllWide(keys, |query|)
  {
    if n == 0 then 0.0 else Weights(exp, scale, query, keys, n - 1) + Weight(exp, scale, query, keys, n - 1)
  }

  /** The first `n` elements of column `c` of the values, each times its weight. */
  ghost function Weighed(exp: real -> real, scale: real, query: seq<real>, keys: seq<seq<real>>, values: seq<seq<real>>,
                         width: nat, c: nat, n: nat): real
    requires n <= |keys| == |values| && AllWide(keys, |query|) && AllWide(values, width) && c < width
  {
    if n == 0 then 0.0
    else Weighed(exp, scale, query, keys, values, width, c, n - 1) + Weight(exp, scale, query, keys, n - 1) * values[n - 1][c]
  }

  lemma {:induction false} DotIsInner(left: seq<real>, a: nat, right: seq<real>, b: nat, x: seq<real>, y: seq<real>, n: nat)
    requires a + n <= |left| && b + n <= |right| && n <= |x| && n <= |y|
    requires forall j :: 0 <= j < n ==> left[a + j] == x[j] && right[b + j] == y[j]
    ensures Dot(left, a, right, b, n) == Inner(x, y, n)
  {
    if n > 0 {
      DotIsInner(left, a, right, b, x, y, n - 1);
    }
  }

  /** Query row `i` of matrix `m` is row `m * queryRows + i` of all. */
  lemma FlatRow(p: Problem, m: nat, i: nat)
    requires p.Valid() && m < p.matrices && i < p.queryRows
    ensures m * p.queryRows + i < p.Queries() && (m * p.queryRows + i) / p.queryRows == m
  {
    hide IsExponential;
    RowInside(m, p.matrices, p.queryRows);
    QuotientIs(m * p.queryRows + i, p.queryRows, m, i);
  }

  lemma ElementsAre(p: Problem, query: Matrices, key: Matrices, value: Matrices, m: nat, i: nat, j: nat, d: nat)
    requires p.Valid() && Holds(p, query, key, value)
    requires m < p.matrices && i < p.queryRows && j < p.keyRows && d < p.queryDimension
    ensures m * p.queryRows + i < p.Queries() && (m * p.queryRows + i) / p.queryRows == m
    ensures |query[m][i]| == |key[m][j]| == p.queryDimension
    ensures p.QueryBase(m * p.queryRows + i) + d < |p.query| && p.query[p.QueryBase(m * p.queryRows + i) + d] == query[m][i][d]
    ensures p.KeyBase(m * p.queryRows + i, j) + d < |p.key| && p.key[p.KeyBase(m * p.queryRows + i, j) + d] == key[m][j][d]
  {
    hide IsExponential, Problem.Queries, Shaped, Concat;
    FlatRow(p, m, i);
    ElementOfMatrices(query, p.matrices, p.queryRows, p.queryDimension, m, i, d);
    ElementOfMatrices(key, p.matrices, p.keyRows, p.queryDimension, m, j, d);
  }

  lemma ScoreIs(p: Problem, query: Matrices, key: Matrices, value: Matrices, m: nat, i: nat, j: nat)
    requires p.Valid() && Holds(p, query, key, value) && m < p.matrices && i < p.queryRows && j < p.keyRows
    ensures m * p.queryRows + i < p.Queries()
    ensures |query[m][i]| == |key[m][j]| == p.queryDimension
    ensures Score(p, m * p.queryRows + i, j) == Scaled(p.scale, Inner(query[m][i], key[m][j], p.queryDimension))
  {
    hide Problem.Queries, IsExponential, Problem.QueryBase, Problem.KeyBase, Concat;
    FlatRow(p, m, i);
    Widths(p, query, key, value, m, i);
    RowsInside(p, m * p.queryRows + i, j);
    forall d: nat | d < p.queryDimension
      ensures p.query[p.QueryBase(m * p.queryRows + i) + d] == query[m][i][d]
      ensures p.key[p.KeyBase(m * p.queryRows + i, j) + d] == key[m][j][d]
    {
      ElementsAre(p, query, key, value, m, i, j, d);
    }
    var flat := m * p.queryRows + i;
    DotIsInner(p.query, p.QueryBase(flat), p.key, p.KeyBase(flat, j), query[m][i], key[m][j], p.queryDimension);
  }

  lemma ValueIs(p: Problem, query: Matrices, key: Matrices, value: Matrices, m: nat, i: nat, j: nat, c: nat)
    requires p.Valid() && Holds(p, query, key, value) && m < p.matrices && i < p.queryRows && j < p.keyRows && c < p.valueDimension
    ensures m * p.queryRows + i < p.Queries() && |value[m][j]| == p.valueDimension
    ensures ValueAt(p, m * p.queryRows + i, j, c) == value[m][j][c]
  {
    hide IsExponential, Problem.Queries;
    FlatRow(p, m, i);
    ElementOfMatrices(value, p.matrices, p.keyRows, p.valueDimension, m, j, c);
    RowsInside(p, m * p.queryRows + i, j);
  }

  lemma Widths(p: Problem, query: Matrices, key: Matrices, value: Matrices, m: nat, i: nat)
    requires Holds(p, query, key, value) && m < p.matrices && i < p.queryRows
    ensures |query[m][i]| == p.queryDimension && |key[m]| == |value[m]| == p.keyRows
    ensures AllWide(key[m], p.queryDimension) && AllWide(value[m], p.valueDimension)
  {
    assert AllWide(query[m], p.queryDimension);
  }

  /** The sums behind the softmax average, once its scores and values are known. */
  lemma {:induction false} SumsAre(p: Problem, flat: nat, x: seq<real>, keys: seq<seq<real>>, values: seq<seq<real>>, c: nat, n: nat)
    requires p.Valid() && flat < p.Queries() && c < p.valueDimension && n <= |keys| == |values| == p.keyRows
    requires AllWide(keys, |x|) && AllWide(values, p.valueDimension)
    requires forall j :: 0 <= j < p.keyRows ==>
               Score(p, flat, j) == Scaled(p.scale, Inner(x, keys[j], |x|)) && ValueAt(p, flat, j, c) == values[j][c]
    ensures Plain(p.exp, Scores(p, flat), Ones(p.keyRows), n) == Weights(p.exp, p.scale, x, keys, n)
    ensures Plain(p.exp, Scores(p, flat), Values(p, flat, c), n) == Weighed(p.exp, p.scale, x, keys, values, p.valueDimension, c, n)
  {
    hide IsExponential, Problem.Queries, Score, ValueAt, Problem.Valid, Scaled;
    if n > 0 {
      SumsAre(p, flat, x, keys, values, c, n - 1);
      assert Scores(p, flat)[n - 1] == Score(p, flat, n - 1) && Values(p, flat, c)[n - 1] == ValueAt(p, flat, n - 1, c);
      assert p.exp(Scores(p, flat)[n - 1]) == Weight(p.exp, p.scale, x, keys, n - 1);
      assert Weight(p.exp, p.scale, x, keys, n - 1) * Ones(p.keyRows)[n - 1] == Weight(p.exp, p.scale, x, keys, n - 1);
    }
  }

  /** Every output element is a mean of its column of the values, each weighing the exponential of the
      scale times the inner product of query and key. */
  lemma AttentionIs(p: Problem, query: Matrices, key: Matrices, value: Matrices, m: nat, i: nat, c: nat)
    requires p.Valid() && Holds(p, query, key, value) && m < p.matrices && i < p.queryRows && c < p.valueDimension
    ensures m * p.queryRows + i < p.Queries() && |query[m][i]| == p.queryDimension && |key[m]| == |value[m]| == p.keyRows
    ensures AllWide(key[m], p.queryDimension) && AllWide(value[m], p.valueDimension)
    ensures Weights(p.exp, p.scale, query[m][i], key[m], p.keyRows) > 0.0
    ensures Attention(p, m * p.queryRows + i, c) ==
            Weighed(p.exp, p.scale, query[m][i], key[m], value[m], p.valueDimension, c, p.keyRows)
            / Weights(p.exp, p.scale, query[m][i], key[m], p.keyRows)
  {
    hide Problem.Queries, Scores, Values, Weights, Weighed, Concat, Plain, Score, ValueAt;
    FlatRow(p, m, i);
    Widths(p, query, key, value, m, i);
    forall j | 0 <= j < p.keyRows
      ensures Score(p, m * p.queryRows + i, j) == Scaled(p.scale, Inner(query[m][i], key[m][j], p.queryDimension))
      ensures ValueAt(p, m * p.queryRows + i, j, c) == value[m][j][c]
    {
      ScoreIs(p, query, key, value, m, i, j);
      ValueIs(p, query, key, value, m, i, j, c);
    }
    SumsAre(p, m * p.queryRows + i, query[m][i], key[m], value[m], c, p.keyRows);
    PlainIsPositive(p.exp, Scores(p, m * p.queryRows + i), p.keyRows);
  }

  /** The mean of column `c` of a matrix's values for one query. */
  ghost predicate IsMean(p: Problem, query: seq<real>, keys: seq<seq<real>>, values: seq<seq<real>>, c: nat, mean: real) {
    && p.keyRows == |keys| == |values| && AllWide(keys, |query|) && AllWide(values, p.valueDimension) && c < p.valueDimension
    && Weights(p.exp, p.scale, query, keys, p.keyRows) > 0.0
    && mean == Weighed(p.exp, p.scale, query, keys, values, p.valueDimension, c, p.keyRows)
               / Weights(p.exp, p.scale, query, keys, p.keyRows)
  }

  ghost predicate AreMeans(p: Problem, query: Matrices, key: Matrices, value: Matrices, means: Matrices) {
    && Shaped(query, p.matrices, p.queryRows, p.queryDimension) && Shaped(means, p.matrices, p.queryRows, p.valueDimension)
    && |key| == |value| == p.matrices
    && forall m: nat, i: nat, c: nat :: m < p.matrices && i < |means[m]| && c < |means[m][i]| ==>
         i < |query[m]| && IsMean(p, query[m][i], key[m], value[m], c, means[m][i][c])
  }

  /** Where an output element lies. */
  lemma Position(p: Problem, x: nat) returns (m: nat, i: nat, c: nat)
    requires p.Valid() && x < p.Queries() * p.valueDimension
    ensures m < p.matrices && i < p.queryRows && c < p.valueDimension && x == (m * p.queryRows + i) * p.valueDimension + c
  {
    hide IsExponential;
    var flat;
    flat, c := RowAndColumn(x, p.Queries(), p.valueDimension);
    m, i := RowAndColumn(flat, p.matrices, p.queryRows);
  }

  /** When every row is done, as `Launch` leaves it, the output holds the means, row by row. */
  lemma OutputIs(p: Problem, query: Matrices, key: Matrices, value: Matrices, output: seq<real>, means: Matrices)
    requires p.Valid() && Holds(p, query, key, value) && |output| == p.Queries() * p.valueDimension
    requires forall flat: nat :: flat < p.Queries() ==> RowDone(p, output, flat)
    requires AreMeans(p, query, key, value, means)
    ensures output == Concat(Concat(means))
  {
    hide Problem.Valid, Problem.Queries, Concat, IsMean, RowDone, Holds;
    OutputLength(p, means);
    forall x | 0 <= x < |output|
      ensures output[x] == Concat(Concat(means))[x]
    {
      var m, i, c := Position(p, x);
      ElementOfMatrices(means, p.matrices, p.queryRows, p.valueDimension, m, i, c);
      FlatRow(p, m, i);
      ElementIsMean(p, query, key, value, output, m, i, c, means[m][i][c]);
    }
  }

  lemma OutputLength(p: Problem, means: Matrices)
    requires Shaped(means, p.matrices, p.queryRows, p.valueDimension)
    ensures |Concat(Concat(means))| == p.Queries() * p.valueDimension
  {
    RowsOfMatrices(means, p.matrices, p.queryRows, p.valueDimension);
    ConcatLength(Concat(means), p.valueDimension);
  }

  lemma ElementIsMean(p: Problem, query: Matrices, key: Matrices, value: Matrices, output: seq<real>, m: nat, i: nat, c: nat, mean: real)
    requires p.Valid() && Holds(p, query, key, value) && |output| == p.Queries() * p.valueDimension
    requires m < p.matrices && i < p.queryRows && c < p.valueDimension
    requires m * p.queryRows + i < p.Queries() && RowDone(p, output, m * p.queryRows + i)
    requires |query[m]| == p.queryRows && IsMean(p, query[m][i], key[m], value[m], c, mean)
    ensures (m * p.queryRows + i) * p.valueDimension + c < |output|
    ensures output[(m * p.queryRows + i) * p.valueDimension + c] == mean
  {
    hide Problem.Queries, Attention, Weights, Weighed, Concat, Problem.Valid;
    AttentionIs(p, query, key, value, m, i, c);
    RowInside(m * p.queryRows + i, p.Queries(), p.valueDimension);
    var base := (m * p.queryRows + i) * p.valueDimension;
    assert output[base..][c] == output[base + c];
  }

  // ---------------------------------------------------------------------------
  // What the scale does
  // ---------------------------------------------------------------------------

  lemma ExpOfZero(exp: real -> real)
    requires IsExponential(exp)
    ensures exp(0.0) == 1.0
  {
    ExpAdds(exp, 0.0, 0.0);
  }

  ghost function SumOf(values: seq<seq<real>>, width: nat, c: nat, n: nat): real
    requires n <= |values| && AllWide(values, width) && c < width
  {
    if n == 0 then 0.0 else SumOf(values, width, c, n - 1) + values[n - 1][c]
  }

  lemma {:induction false} EqualWeights(exp: real -> real, query: seq<real>, keys: seq<seq<real>>, values: seq<seq<real>>,
                                        width: nat, c: nat, n: nat)
    requires IsExponential(exp) && n <= |keys| == |values| && AllWide(keys, |query|) && AllWide(values, width) && c < width
    ensures Weights(exp, 0.0, query, keys, n) == n as real
    ensures Weighed(exp, 0.0, query, keys, values, width, c, n) == SumOf(values, width, c, n)
  {
    hide Inner;
    if n > 0 {
      EqualWeights(exp, query, keys, values, width, c, n - 1);
      ExpOfZero(exp);
      assert 0.0 * Inner(query, keys[n - 1], |query|) == 0.0;
      assert Weight(exp, 0.0, query, keys, n - 1) == 1.0;
    }
  }

  /** Without a scale every output element is the plain mean of its column. */
  lemma NoScaleIsMean(p: Problem, query: Matrices, key: Matrices, value: Matrices, m: nat, i: nat, c: nat)
    requires p.Valid() && Holds(p, query, key, value) && m < p.matrices && i < p.queryRows && c < p.valueDimension
    requires p.scale == 0.0
    ensures m * p.queryRows + i < p.Queries() && |value[m]| == p.keyRows && AllWide(value[m], p.valueDimension)
    ensures Attention(p, m * p.queryRows + i, c) * p.keyRows as real == SumOf(value[m], p.valueDimension, c, p.keyRows)
  {
    hide Problem.Queries, Attention, Weights, Weighed, Concat, SumOf;
    AttentionIs(p, query, key, value, m, i, c);
    EqualWeights(p.exp, query[m][i], key[m], value[m], p.valueDimension, c, p.keyRows);
  }

  /** A single key returns its value, whatever it weighs. */
  lemma OneKeyReturns(p: Problem, query: Matrices, key: Matrices, value: Matrices, m: nat, i: nat, c: nat)
    requires p.Valid() && Holds(p, query, key, value) && m < p.matrices && i < p.queryRows && c < p.valueDimension
    requires p.keyRows == 1
    ensures m * p.queryRows + i < p.Queries() && |value[m]| == 1 && |value[m][0]| == p.valueDimension
    ensures Attention(p, m * p.queryRows + i, c) == value[m][0][c]
  {
    hide Problem.Queries, Attention, Weight, Concat;
    AttentionIs(p, query, key, value, m, i, c);
    var weight := Weight(p.exp, p.scale, query[m][i], key[m], 0);
    assert Weights(p.exp, p.scale, query[m][i], key[m], 0) == 0.0;
    assert Weighed(p.exp, p.scale, query[m][i], key[m], value[m], p.valueDimension, c, 0) == 0.0;
    assert weight * value[m][0][c] / weight == value[m][0][c];
  }

  ghost function Times(x: seq<real>, factor: real): (r: seq<real>)
    ensures |r| == |x| && forall i :: 0 <= i < |x| ==> r[i] == factor * x[i]
  {
    seq(|x|, i requires 0 <= i < |x| => factor * x[i])
  }

  lemma {:induction false} DotScales(left: seq<real>, scaled: seq<real>, a: nat, right: seq<real>, b: nat, n: nat, factor: real)
    requires scaled == Times(left, factor) && a + n <= |left| && b + n <= |right|
    ensures Dot(scaled, a, right, b, n) == factor * Dot(left, a, right, b, n)
  {
    if n > 0 {
      DotScales(left, scaled, a, right, b, n - 1, factor);
    }
  }

  lemma ProblemsAreAlike(p: Problem, factor: real)
    requires p.Valid()
    ensures p.(query := Times(p.query, factor)).Valid() && p.(query := Times(p.query, factor)).Queries() == p.Queries()
    ensures p.(scale := factor * p.scale).Valid() && p.(scale := factor * p.scale).Queries() == p.Queries()
  {
    hide IsExponential;
  }

  lemma KeyScales(p: Problem, a: Problem, b: Problem, factor: real, flat: nat, column: nat, k: nat)
    requires p.Valid() && flat < p.Queries() && column < p.valueDimension && k < p.keyRows
    requires a == p.(query := Times(p.query, factor)) && b == p.(scale := factor * p.scale)
    ensures a.Valid() && b.Valid() && flat < a.Queries() && flat < b.Queries()
    ensures Score(a, flat, k) == Score(b, flat, k) && ValueAt(a, flat, k, column) == ValueAt(b, flat, k, column)
  {
    hide Problem.Queries, IsExponential, Dot;
    ProblemsAreAlike(p, factor);
    RowsInside(p, flat, k);
    DotScales(p.query, a.query, p.QueryBase(flat), p.key, p.KeyBase(flat, k), p.queryDimension, factor);
  }

  /** Multiplying every query element is multiplying the scale. */
  lemma ScaledQueries(p: Problem, factor: real, flat: nat, column: nat)
    requires p.Valid() && flat < p.Queries() && column < p.valueDimension
    ensures var a, b := p.(query := Times(p.query, factor)), p.(scale := factor * p.scale);
      a.Valid() && b.Valid() && flat < a.Queries() && flat < b.Queries() && Attention(a, flat, column) == Attention(b, flat, column)
  {
    hide Problem.Queries, IsExponential, Softmax, Score, ValueAt, Problem.Valid;
    var a, b := p.(query := Times(p.query, factor)), p.(scale := factor * p.scale);
    ProblemsAreAlike(p, factor);
    forall k: nat | k < p.keyRows
      ensures Score(a, flat, k) == Score(b, flat, k) && ValueAt(a, flat, k, column) == ValueAt(b, flat, k, column)
    {
      KeyScales(p, a, b, factor, flat, column, k);
    }
    assert Scores(a, flat) == Scores(b, flat);
    assert Values(a, flat, column) == Values(b, flat, column);
  }
}
