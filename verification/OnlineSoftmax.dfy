/** Online softmax attention (device/flash_attention_online_f16.cpp), over the reals.

    The kernel visits the keys in blocks. It keeps the running maximum of the scores and a
    denominator and output row scaled to it, and rescales both when the maximum grows. Of the
    exponential only positivity and exp(a + b) == exp(a) * exp(b) are assumed. The module
    proves that every output row ends as the plain softmax average of the value rows, for
    every block size and every order of the six workers. */
module OnlineSoftmax {
  import opened DivMod

  datatype Option<T> = None | Some(value: T)

  ghost predicate Exponent(exp: real -> real, x: real, y: real) {
    exp(x) > 0.0 && exp(x + y) == exp(x) * exp(y)
  }

  ghost predicate IsExponential(exp: real -> real) {
    forall x: real, y: real :: Exponent(exp, x, y)
  }

  lemma ExpAdds(exp: real -> real, x: real, y: real)
    requires IsExponential(exp)
    ensures exp(x + y) == exp(x) * exp(y) && exp(x) > 0.0
  {
    assert Exponent(exp, x, y);
  }

  // ---------------------------------------------------------------------------
  // Sums
  // ---------------------------------------------------------------------------

  /** The sum of exp(s) * v over the first `n` scores and values. */
  ghost function Plain(exp: real -> real, scores: seq<real>, values: seq<real>, n: nat): real
    requires n <= |scores| == |values|
  {
    if n == 0 then 0.0 else Plain(exp, scores, values, n - 1) + exp(scores[n - 1]) * values[n - 1]
  }

  /** The same sum with every score lowered by `shift`. */
  ghost function Shifted(exp: real -> real, scores: seq<real>, values: seq<real>, n: nat, shift: real): real
    requires n <= |scores| == |values|
  {
    if n == 0 then 0.0 else Shifted(exp, scores, values, n - 1, shift) + exp(scores[n - 1] - shift) * values[n - 1]
  }

  ghost function Ones(n: nat): (r: seq<real>)
    ensures |r| == n
  {
    seq(n, _ => 1.0)
  }

  /** The softmax average of the values. */
  ghost function Softmax(exp: real -> real, scores: seq<real>, values: seq<real>): real
    requires |scores| == |values| > 0 && IsExponential(exp)
  {
    PlainIsPositive(exp, scores, |scores|);
    Plain(exp, scores, values, |scores|) / Plain(exp, scores, Ones(|scores|), |scores|)
  }

  lemma {:induction false} PlainIsPositive(exp: real -> real, scores: seq<real>, n: nat)
    requires n <= |scores| && IsExponential(exp)
    ensures n > 0 ==> Plain(exp, scores, Ones(|scores|), n) > 0.0
  {
    if n > 1 {
      PlainIsPositive(exp, scores, n - 1);
    }
    if n > 0 {
      ExpAdds(exp, scores[n - 1], 0.0);
      assert Plain(exp, scores, Ones(|scores|), 0) == 0.0;
    }
  }

  /** Lowering the scores further by `by` multiplies the sum by exp(-by). */
  lemma {:induction false} Rescale(exp: real -> real, scores: seq<real>, values: seq<real>, n: nat, shift: real, next: real)
    requires n <= |scores| == |values| && IsExponential(exp)
    ensures Shifted(exp, scores, values, n, next) == Shifted(exp, scores, values, n, shift) * exp(shift - next)
  {
    hide IsExponential;
    if n > 0 {
      Rescale(exp, scores, values, n - 1, shift, next);
      var s, v, factor := scores[n - 1], values[n - 1], exp(shift - next);
      ExpAdds(exp, s - shift, shift - next);
      assert s - next == (s - shift) + (shift - next);
      Distributes(Shifted(exp, scores, values, n - 1, shift), exp(s - shift), v, factor);
    }
  }

  lemma Distributes(sum: real, weight: real, v: real, factor: real)
    ensures (sum + weight * v) * factor == sum * factor + (weight * factor) * v
  {
  }

  lemma {:induction false} Unshift(exp: real -> real, scores: seq<real>, values: seq<real>, n: nat, shift: real)
    requires n <= |scores| == |values| && IsExponential(exp)
    ensures Shifted(exp, scores, values, n, shift) == Plain(exp, scores, values, n) * exp(-shift)
  {
    hide IsExponential;
    if n > 0 {
      Unshift(exp, scores, values, n - 1, shift);
      ExpAdds(exp, scores[n - 1], -shift);
      assert scores[n - 1] - shift == scores[n - 1] + -shift;
      Distributes(Plain(exp, scores, values, n - 1), exp(scores[n - 1]), values[n - 1], exp(-shift));
    }
  }

  lemma QuotientCancels(a: real, b: real, factor: real)
    requires b > 0.0 && factor > 0.0
    ensures b * factor > 0.0 && a * factor * (1.0 / (b * factor)) == a / b
  {
    var r := 1.0 / (b * factor);
    assert r * (b * factor) == 1.0;
    assert (a * factor * r) * b == a * (r * (b * factor));
  }

  /** Dividing the shifted sums gives the softmax average, whatever the shift. */
  lemma ShiftCancels(exp: real -> real, scores: seq<real>, values: seq<real>, shift: real)
    requires |scores| == |values| > 0 && IsExponential(exp)
    ensures Shifted(exp, scores, Ones(|scores|), |scores|, shift) > 0.0
    ensures Shifted(exp, scores, values, |scores|, shift) * (1.0 / Shifted(exp, scores, Ones(|scores|), |scores|, shift))
            == Softmax(exp, scores, values)
  {
    hide IsExponential;
    var n := |scores|;
    Unshift(exp, scores, values, n, shift);
    Unshift(exp, scores, Ones(n), n, shift);
    PlainIsPositive(exp, scores, n);
    ExpAdds(exp, -shift, 0.0);
    QuotientCancels(Plain(exp, scores, values, n), Plain(exp, scores, Ones(n), n), exp(-shift));
  }

  function MaxOf(a: Option<real>, b: Option<real>): Option<real> {
    if a.None? then b
    else if b.None? then a
    else if a.value < b.value then b
    else a
  }

  /** The largest of the scores from `start` up to `end`; none stands for minus infinity. */
  ghost function Largest(scores: seq<real>, start: nat, end: nat): Option<real>
    requires start <= end <= |scores|
    decreases end
  {
    if start == end then None else MaxOf(Largest(scores, start, end - 1), Some(scores[end - 1]))
  }

  lemma {:induction false} LargestJoins(scores: seq<real>, middle: nat, end: nat)
    requires middle <= end <= |scores|
    ensures MaxOf(Largest(scores, 0, middle), Largest(scores, middle, end)) == Largest(scores, 0, end)
    decreases end
  {
    if middle < end {
      LargestJoins(scores, middle, end - 1);
    }
  }

  /** No score lies above the running maximum, so no weight is exp of a positive number. */
  lemma {:induction false} LargestBounds(scores: seq<real>, start: nat, end: nat, k: nat)
    requires start <= k < end <= |scores|
    ensures Largest(scores, start, end).Some? && scores[k] <= Largest(scores, start, end).value
    ensures Largest(scores, start, end).value in scores
    decreases end
  {
    if k < end - 1 {
      LargestBounds(scores, start, end - 1, k);
    } else if start < k {
      LargestBounds(scores, start, end - 1, start);
    } else {
      assert Largest(scores, start, start) == None;
    }
  }

  // ---------------------------------------------------------------------------
  // Attention
  // ---------------------------------------------------------------------------

  /** The sum of products of `n` elements of two vectors. */
  ghost function Dot(left: seq<real>, a: nat, right: seq<real>, b: nat, n: nat): real
    requires a + n <= |left| && b + n <= |right|
  {
    if n == 0 then 0.0 else Dot(left, a, right, b, n - 1) + left[a + n - 1] * right[b + n - 1]
  }

  datatype Problem = Problem(matrices: nat, queryRows: nat, keyRows: nat, queryDimension: nat, valueDimension: nat,
                             keyBlockRows: nat, scale: real, exp: real -> real,
                             query: seq<real>, key: seq<real>, value: seq<real>) {
    ghost predicate Valid() {
      && matrices > 0 && queryRows > 0 && keyRows > 0 && queryDimension > 0 && valueDimension > 0 && keyBlockRows > 0
      && IsExponential(exp)
      && |query| == Queries() * queryDimension
      && |key| == matrices * keyRows * queryDimension
      && |value| == matrices * keyRows * valueDimension
    }

    function Queries(): nat {
      matrices * queryRows
    }

    /** The row of the key and value matrices that query `flat` pairs with key `k`. */
    function KeyRow(flat: nat, k: nat): nat
      requires queryRows > 0
    {
      flat / queryRows * keyRows + k
    }

    /** Where a row of the queries, keys and values begins. */
    function QueryBase(flat: nat): nat {
      flat * queryDimension
    }

    function KeyBase(flat: nat, k: nat): nat
      requires queryRows > 0
    {
      KeyRow(flat, k) * queryDimension
    }

    function ValueBase(flat: nat, k: nat): nat
      requires queryRows > 0
    {
      KeyRow(flat, k) * valueDimension
    }
  }

  lemma RowInside(row: nat, rows: nat, width: nat)
    requires row < rows
    ensures row * width + width <= rows * width
  {
    MulMonotone(row + 1, rows, width);
    MulNext(row, width);
  }

  lemma RowsInside(p: Problem, flat: nat, k: nat)
    requires p.Valid() && flat < p.Queries() && k < p.keyRows
    ensures p.QueryBase(flat) + p.queryDimension <= |p.query|
    ensures p.KeyBase(flat, k) + p.queryDimension <= |p.key|
    ensures p.ValueBase(flat, k) + p.valueDimension <= |p.value|
  {
    hide IsExponential;
    RowInside(flat, p.Queries(), p.queryDimension);
    MatrixInside(flat, p.matrices, p.queryRows);
    RowInside(flat / p.queryRows, p.matrices, p.keyRows);
    RowInside(p.KeyRow(flat, k), p.matrices * p.keyRows, p.queryDimension);
    RowInside(p.KeyRow(flat, k), p.matrices * p.keyRows, p.valueDimension);
  }

  lemma MatrixInside(flat: nat, matrices: nat, rows: nat)
    requires rows > 0 && flat < matrices * rows
    ensures flat / rows < matrices
  {
    var q := flat / rows;
    assert q * rows <= flat;
    if matrices <= q {
      MulMonotone(matrices, q, rows);
    }
  }

  ghost function Score(p: Problem, flat: nat, k: nat): real
    requires p.Valid() && flat < p.Queries() && k < p.keyRows
  {
    hide IsExponential, Problem.Queries, Problem.QueryBase, Problem.KeyBase, Problem.ValueBase;
    RowsInside(p, flat, k);
    Dot(p.query, p.QueryBase(flat), p.key, p.KeyBase(flat, k), p.queryDimension) * p.scale
  }

  ghost function Scores(p: Problem, flat: nat): (r: seq<real>)
    requires p.Valid() && flat < p.Queries()
    ensures |r| == p.keyRows
  {
    seq(p.keyRows, k requires 0 <= k < p.keyRows => Score(p, flat, k))
  }

  ghost function ValueAt(p: Problem, flat: nat, k: nat, column: nat): real
    requires p.Valid() && flat < p.Queries() && k < p.keyRows && column < p.valueDimension
  {
    hide IsExponential, Problem.Queries, Problem.QueryBase, Problem.KeyBase, Problem.ValueBase;
    RowsInside(p, flat, k);
    p.value[p.ValueBase(flat, k) + column]
  }

  ghost function Values(p: Problem, flat: nat, column: nat): (r: seq<real>)
    requires p.Valid() && flat < p.Queries() && column < p.valueDimension
    ensures |r| == p.keyRows
  {
    seq(p.keyRows, k requires 0 <= k < p.keyRows => ValueAt(p, flat, k, column))
  }

  /** The softmax average of column `column` of the values, for query `flat`. */
  ghost function Attention(p: Problem, flat: nat, column: nat): real
    requires p.Valid() && flat < p.Queries() && column < p.valueDimension
  {
    Softmax(p.exp, Scores(p, flat), Values(p, flat, column))
  }

  // ---------------------------------------------------------------------------
  // Loops over one row
  // ---------------------------------------------------------------------------

  /** Even dimensions are read in pairs, odd ones element by element. */
  method AttentionDot(query: seq<real>, a: nat, key: seq<real>, b: nat, dimension: nat) returns (score: real)
    requires a + dimension <= |query| && b + dimension <= |key|
    ensures score == Dot(query, a, key, b, dimension)
  {
    score := 0.0;
    var column := 0;
    if dimension % 2 == 0 {
      while column < dimension
        invariant column <= dimension && column % 2 == 0
        invariant score == Dot(query, a, key, b, column)
      {
        assert Dot(query, a, key, b, column + 2) ==
               Dot(query, a, key, b, column + 1) + query[a + column + 1] * key[b + column + 1];
        score := score + (query[a + column] * key[b + column] + query[a + column + 1] * key[b + column + 1]);
        column := column + 2;
      }
    } else {
      while column < dimension
        invariant column <= dimension
        invariant score == Dot(query, a, key, b, column)
      {
        score := score + query[a + column] * key[b + column];
        column := column + 1;
      }
    }
  }

  method ClearRow(output: array<real>, base: nat, width: nat)
    requires base + width <= output.Length
    modifies output
    ensures forall i :: base <= i < base + width ==> output[i] == 0.0
    ensures RestUnchanged(old(output[..]), output[..], base, width)
  {
    for column := 0 to width
      invariant forall i :: base <= i < base + column ==> output[i] == 0.0
      invariant RestUnchanged(old(output[..]), output[..], base, width)
    {
      output[base + column] := 0.0;
    }
  }

  /** Multiplies one row of the output. */
  method ScaleRow(output: array<real>, base: nat, width: nat, factor: real)
    requires base + width <= output.Length
    modifies output
    ensures forall i :: base <= i < base + width ==> output[i] == old(output[i]) * factor
    ensures forall i :: 0 <= i < output.Length && !(base <= i < base + width) ==> output[i] == old(output[i])
  {
    for column := 0 to width
      invariant forall i :: base <= i < base + column ==> output[i] == old(output[i]) * factor
      invariant forall i :: 0 <= i < output.Length && !(base <= i < base + column) ==> output[i] == old(output[i])
    {
      output[base + column] := output[base + column] * factor;
    }
  }

  function Product(a: real, b: real): real {
    a * b
  }

  method Multiply(value: real, weight: real) returns (r: real)
    ensures r == Product(weight, value)
  {
    r := value * weight;
  }

  /** Adds a weighted value row to one row of the output, in pairs if the width is even. */
  method AddWeighted(output: array<real>, base: nat, width: nat, value: seq<real>, from: nat, weight: real)
    requires base + width <= output.Length && from + width <= |value|
    modifies output
    ensures forall i :: base <= i < base + width ==> output[i] == old(output[i]) + Product(weight, value[from + (i - base)])
    ensures forall i :: 0 <= i < output.Length && !(base <= i < base + width) ==> output[i] == old(output[i])
  {
    hide Product;
    var column := 0;
    if width % 2 == 0 {
      while column < width
        invariant column <= width && column % 2 == 0
        invariant forall i :: base <= i < base + column ==> output[i] == old(output[i]) + Product(weight, value[from + (i - base)])
        invariant forall i :: 0 <= i < output.Length && !(base <= i < base + column) ==> output[i] == old(output[i])
      {
        var first := Multiply(value[from + column], weight);
        var second := Multiply(value[from + column + 1], weight);
        output[base + column], output[base + column + 1] := output[base + column] + first, output[base + column + 1] + second;
        column := column + 2;
      }
    } else {
      while column < width
        invariant column <= width
        invariant forall i :: base <= i < base + column ==> output[i] == old(output[i]) + Product(weight, value[from + (i - base)])
        invariant forall i :: 0 <= i < output.Length && !(base <= i < base + column) ==> output[i] == old(output[i])
      {
        var product := Multiply(value[from + column], weight);
        output[base + column] := output[base + column] + product;
        column := column + 1;
      }
    }
  }

  /** The row and denominator are the sums over the first `n` keys, scaled to `shift`. */
  ghost predicate Accumulated(p: Problem, flat: nat, row: seq<real>, denominator: real, n: nat, shift: real) {
    && p.Valid() && flat < p.Queries() && n <= p.keyRows && |row| == p.valueDimension
    && denominator == Shifted(p.exp, Scores(p, flat), Ones(p.keyRows), n, shift)
    && forall column :: 0 <= column < |row| ==>
         row[column] == Shifted(p.exp, Scores(p, flat), Values(p, flat, column), n, shift)
  }

  lemma AccumulateRescales(p: Problem, flat: nat, row: seq<real>, denominator: real, n: nat, shift: real,
                           scaled: seq<real>, next: real)
    requires Accumulated(p, flat, row, denominator, n, shift) && |scaled| == |row|
    requires forall column :: 0 <= column < |row| ==> scaled[column] == row[column] * p.exp(shift - next)
    ensures Accumulated(p, flat, scaled, denominator * p.exp(shift - next), n, next)
  {
    hide IsExponential, Shifted, Scores, Values, Ones;
    Rescale(p.exp, Scores(p, flat), Ones(p.keyRows), n, shift, next);
    forall column | 0 <= column < |row|
      ensures scaled[column] == Shifted(p.exp, Scores(p, flat), Values(p, flat, column), n, next)
    {
      Rescale(p.exp, Scores(p, flat), Values(p, flat, column), n, shift, next);
    }
  }

  /** Before the first key any maximum will do. */
  lemma EmptyAccumulates(p: Problem, flat: nat, row: seq<real>, shift: real)
    requires p.Valid() && flat < p.Queries() && |row| == p.valueDimension
    requires forall column :: 0 <= column < |row| ==> row[column] == 0.0
    ensures Accumulated(p, flat, row, 0.0, 0, shift)
  {
  }

  lemma AccumulateAdds(p: Problem, flat: nat, row: seq<real>, denominator: real, n: nat, shift: real, next: seq<real>)
    requires Accumulated(p, flat, row, denominator, n, shift) && n < p.keyRows && |next| == |row|
    requires forall column :: 0 <= column < |row| ==>
      next[column] == row[column] + p.exp(Score(p, flat, n) - shift) * ValueAt(p, flat, n, column)
    ensures Accumulated(p, flat, next, denominator + p.exp(Score(p, flat, n) - shift), n + 1, shift)
  {
    hide IsExponential, Score, ValueAt;
    var weight := p.exp(Score(p, flat, n) - shift);
    assert Scores(p, flat)[n] == Score(p, flat, n) && weight * Ones(p.keyRows)[n] == weight;
    forall column | 0 <= column < |row|
      ensures next[column] == Shifted(p.exp, Scores(p, flat), Values(p, flat, column), n + 1, shift)
    {
      assert Values(p, flat, column)[n] == ValueAt(p, flat, n, column);
    }
  }

  lemma AccumulateEnds(p: Problem, flat: nat, row: seq<real>, denominator: real, shift: real)
    requires Accumulated(p, flat, row, denominator, p.keyRows, shift)
    ensures denominator > 0.0
    ensures forall column :: 0 <= column < |row| ==> row[column] * (1.0 / denominator) == Attention(p, flat, column)
  {
    hide IsExponential, Shifted, Scores, Values, Ones, Softmax;
    forall column: nat | column < |row|
      ensures denominator > 0.0 && row[column] * (1.0 / denominator) == Attention(p, flat, column)
    {
      ShiftCancels(p.exp, Scores(p, flat), Values(p, flat, column), shift);
    }
    assert |row| > 0;
    ShiftCancels(p.exp, Scores(p, flat), Values(p, flat, 0), shift);
  }

  /** Offsets of a key or value row within its matrix and within the whole input. */
  lemma KeyOffset(p: Problem, flat: nat, k: nat)
    requires p.queryRows > 0
    ensures flat * p.queryDimension == p.QueryBase(flat)
    ensures flat / p.queryRows * p.keyRows * p.queryDimension + k * p.queryDimension == p.KeyBase(flat, k)
    ensures flat / p.queryRows * p.keyRows * p.valueDimension + k * p.valueDimension == p.ValueBase(flat, k)
  {
  }

  // ---------------------------------------------------------------------------
  // One query row
  // ---------------------------------------------------------------------------

  method ScoreKey(p: Problem, flat: nat, keyRow: nat) returns (score: real)
    requires p.Valid() && flat < p.Queries() && keyRow < p.keyRows
    ensures score == Score(p, flat, keyRow)
  {
    hide IsExponential, Dot, Problem.Queries, Problem.QueryBase, Problem.KeyBase, Problem.ValueBase;
    RowsInside(p, flat, keyRow);
    KeyOffset(p, flat, keyRow);
    var keys := flat / p.queryRows * p.keyRows * p.queryDimension;
    var dot := AttentionDot(p.query, flat * p.queryDimension, p.key, keys + keyRow * p.queryDimension, p.queryDimension);
    score := dot * p.scale;
  }

  /** The scores of one block and their maximum. */
  method ScoreBlock(p: Problem, flat: nat, keyStart: nat, blockRows: nat)
    returns (scores: array<real>, blockMaximum: Option<real>)
    requires p.Valid() && flat < p.Queries() && blockRows <= p.keyBlockRows && keyStart + blockRows <= p.keyRows
    ensures fresh(scores) && scores.Length == p.keyBlockRows
    ensures forall r :: 0 <= r < blockRows ==> scores[r] == Score(p, flat, keyStart + r)
    ensures blockMaximum == Largest(Scores(p, flat), keyStart, keyStart + blockRows)
  {
    hide IsExponential, Problem.Valid, Score;
    scores := new real[p.keyBlockRows];
    blockMaximum := None;
    for blockRow := 0 to blockRows
      invariant forall r :: 0 <= r < blockRow ==> scores[r] == Score(p, flat, keyStart + r)
      invariant blockMaximum == Largest(Scores(p, flat), keyStart, keyStart + blockRow)
    {
      var score := ScoreKey(p, flat, keyStart + blockRow);
      scores[blockRow] := score;
      blockMaximum := MaxOf(blockMaximum, Some(score));
    }
  }

  method AccumulateBlock(p: Problem, flat: nat, output: array<real>, keyStart: nat, blockRows: nat,
                         scores: array<real>, nextMaximum: real, scaled: real)
    returns (denominator: real)
    requires p.Valid() && flat < p.Queries() && keyStart + blockRows <= p.keyRows
    requires flat * p.valueDimension + p.valueDimension <= output.Length
    requires scores != output && blockRows <= scores.Length
    requires forall r :: 0 <= r < blockRows ==> scores[r] == Score(p, flat, keyStart + r)
    requires Accumulated(p, flat, output[flat * p.valueDimension..][..p.valueDimension], scaled, keyStart, nextMaximum)
    modifies output
    ensures Accumulated(p, flat, output[flat * p.valueDimension..][..p.valueDimension], denominator,
                        keyStart + blockRows, nextMaximum)
    ensures RestUnchanged(old(output[..]), output[..], flat * p.valueDimension, p.valueDimension)
  {
    hide IsExponential, Score, Accumulated, RestUnchanged, Problem.KeyRow, Problem.Queries;
    ghost var base, width := flat * p.valueDimension, p.valueDimension;
    denominator := scaled;
    NothingChanged(output[..], base, width);
    for blockRow := 0 to blockRows
      invariant Accumulated(p, flat, output[base..][..width], denominator, keyStart + blockRow, nextMaximum)
      invariant forall r :: 0 <= r < blockRows ==> scores[r] == Score(p, flat, keyStart + r)
      invariant RestUnchanged(old(output[..]), output[..], base, width)
    {
      ghost var before := output[..];
      var weight := p.exp(scores[blockRow] - nextMaximum);
      AccumulateKey(p, flat, output, keyStart + blockRow, denominator, nextMaximum, weight);
      denominator := denominator + weight;
      RestTwice(old(output[..]), before, output[..], base, width);
    }
  }

  /** Adds the weighted value row of one key. */
  method AccumulateKey(p: Problem, flat: nat, output: array<real>, keyRow: nat, ghost denominator: real,
                       ghost shift: real, weight: real)
    requires p.Valid() && flat < p.Queries() && keyRow < p.keyRows
    requires flat * p.valueDimension + p.valueDimension <= output.Length && weight == p.exp(Score(p, flat, keyRow) - shift)
    requires Accumulated(p, flat, output[flat * p.valueDimension..][..p.valueDimension], denominator, keyRow, shift)
    modifies output
    ensures Accumulated(p, flat, output[flat * p.valueDimension..][..p.valueDimension], denominator + weight, keyRow + 1, shift)
    ensures RestUnchanged(old(output[..]), output[..], flat * p.valueDimension, p.valueDimension)
  {
    hide IsExponential, Score, ValueAt, Accumulated, Problem.Valid, Problem.Queries;
    hide Problem.QueryBase, Problem.KeyBase, Problem.ValueBase;
    var base, width := flat * p.valueDimension, p.valueDimension;
    ghost var before := output[..];
    AccumulatedWidth(p, flat, output[base..][..width], denominator, keyRow, shift);
    RowsInside(p, flat, keyRow);
    KeyOffset(p, flat, keyRow);
    var values := flat / p.queryRows * p.keyRows * width + keyRow * width;
    AddWeighted(output, base, width, p.value, values, weight);
    ValuesAdded(p, flat, before, output[..], base, keyRow, weight);
    AccumulateAdds(p, flat, before[base..][..width], denominator, keyRow, shift, output[base..][..width]);
  }

  lemma AccumulatedWidth(p: Problem, flat: nat, row: seq<real>, denominator: real, n: nat, shift: real)
    requires Accumulated(p, flat, row, denominator, n, shift)
    ensures |row| == p.valueDimension && p.queryRows > 0
  {
  }

  lemma ValuesAdded(p: Problem, flat: nat, before: seq<real>, after: seq<real>, base: nat, keyRow: nat, weight: real)
    requires p.Valid() && flat < p.Queries() && keyRow < p.keyRows
    requires |before| == |after| && base + p.valueDimension <= |before|
    requires p.ValueBase(flat, keyRow) + p.valueDimension <= |p.value|
    requires forall i :: base <= i < base + p.valueDimension ==>
      after[i] == before[i] + Product(weight, p.value[p.ValueBase(flat, keyRow) + (i - base)])
    ensures forall column :: 0 <= column < p.valueDimension ==>
      after[base..][..p.valueDimension][column] ==
      before[base..][..p.valueDimension][column] + weight * ValueAt(p, flat, keyRow, column)
  {
    hide Problem.Valid, Problem.KeyRow, Problem.Queries, Problem.ValueBase;
    forall column | 0 <= column < p.valueDimension
      ensures after[base..][..p.valueDimension][column] ==
              before[base..][..p.valueDimension][column] + weight * ValueAt(p, flat, keyRow, column)
    {
      assert after[base..][..p.valueDimension][column] == after[base + column];
    }
  }

  lemma NothingChanged(output: seq<real>, base: nat, width: nat)
    ensures RestUnchanged(output, output, base, width)
  {
  }

  lemma RestTwice(a: seq<real>, b: seq<real>, c: seq<real>, base: nat, width: nat)
    requires RestUnchanged(a, b, base, width) && RestUnchanged(b, c, base, width)
    ensures RestUnchanged(a, c, base, width)
  {
  }

  /** Nothing outside one row has changed. */
  ghost predicate RestUnchanged(before: seq<real>, after: seq<real>, base: nat, width: nat) {
    && |before| == |after|
    && forall i :: 0 <= i < |before| && !(base <= i < base + width) ==> after[i] == before[i]
  }

  /** What the kernel keeps after `n` keys: their largest score, and the sums scaled to it. */
  ghost predicate Running(p: Problem, flat: nat, row: seq<real>, denominator: real, maximum: Option<real>, n: nat)
    requires p.Valid() && flat < p.Queries() && n <= p.keyRows
  {
    && maximum == Largest(Scores(p, flat), 0, n)
    && (if n == 0 then
          maximum == None && denominator == 0.0 && |row| == p.valueDimension && forall c :: 0 <= c < |row| ==> row[c] == 0.0
        else maximum.Some? && Accumulated(p, flat, row, denominator, n, maximum.value))
  }

  lemma RunningRescales(p: Problem, flat: nat, row: seq<real>, denominator: real, maximum: Option<real>, n: nat,
                        scaled: seq<real>, next: real, factor: real)
    requires p.Valid() && flat < p.Queries() && n <= p.keyRows && Running(p, flat, row, denominator, maximum, n)
    requires factor == if maximum == None then 0.0 else p.exp(maximum.value - next)
    requires |scaled| == |row| && forall column :: 0 <= column < |row| ==> scaled[column] == row[column] * factor
    ensures Accumulated(p, flat, scaled, denominator * factor, n, next)
  {
    hide IsExponential, Scores, Shifted, Ones, Values;
    if n == 0 {
      EmptyAccumulates(p, flat, scaled, next);
      assert denominator * factor == 0.0;
    } else {
      assert factor == p.exp(maximum.value - next);
      AccumulateRescales(p, flat, row, denominator, n, maximum.value, scaled, next);
      assert denominator * factor == denominator * p.exp(maximum.value - next);
    }
  }

  lemma RunningContinues(p: Problem, flat: nat, row: seq<real>, denominator: real, maximum: real, n: nat)
    requires p.Valid() && flat < p.Queries() && 0 < n <= p.keyRows
    requires Accumulated(p, flat, row, denominator, n, maximum) && Largest(Scores(p, flat), 0, n) == Some(maximum)
    ensures Running(p, flat, row, denominator, Some(maximum), n)
  {
  }

  lemma RunningMaximum(p: Problem, flat: nat, row: seq<real>, denominator: real, maximum: Option<real>, n: nat)
    requires p.Valid() && flat < p.Queries() && n <= p.keyRows && Running(p, flat, row, denominator, maximum, n)
    ensures maximum == Largest(Scores(p, flat), 0, n) && |row| == p.valueDimension
  {
  }

  method AttendBlock(p: Problem, flat: nat, output: array<real>, keyStart: nat, blockRows: nat,
                     maximum: Option<real>, before: real)
    returns (nextMaximum: real, denominator: real)
    requires p.Valid() && flat < p.Queries() && flat * p.valueDimension + p.valueDimension <= output.Length
    requires 0 < blockRows <= p.keyBlockRows && keyStart + blockRows <= p.keyRows
    requires Running(p, flat, output[flat * p.valueDimension..][..p.valueDimension], before, maximum, keyStart)
    modifies output
    ensures Running(p, flat, output[flat * p.valueDimension..][..p.valueDimension], denominator,
                    Some(nextMaximum), keyStart + blockRows)
    ensures RestUnchanged(old(output[..]), output[..], flat * p.valueDimension, p.valueDimension)
  {
    hide IsExponential, Accumulated, Running, Scores, Score, Problem.Valid, Problem.Queries;
    var base, width := flat * p.valueDimension, p.valueDimension;
    var scores, blockMaximum := ScoreBlock(p, flat, keyStart, blockRows);
    RunningMaximum(p, flat, output[base..][..width], before, maximum, keyStart);
    LargestJoins(Scores(p, flat), keyStart, keyStart + blockRows);
    LargestBounds(Scores(p, flat), 0, keyStart + blockRows, keyStart);
    nextMaximum := MaxOf(maximum, blockMaximum).value;
    var previousScale := if maximum == None then 0.0 else p.exp(maximum.value - nextMaximum);
    ghost var row := output[base..][..width];
    ScaleRow(output, base, width, previousScale);
    RunningRescales(p, flat, row, before, maximum, keyStart, output[base..][..width], nextMaximum, previousScale);
    denominator := AccumulateBlock(p, flat, output, keyStart, blockRows, scores, nextMaximum, before * previousScale);
    RunningContinues(p, flat, output[base..][..width], denominator, nextMaximum, keyStart + blockRows);
  }

  /** One query row ends as the softmax average of the value rows; nothing else changes. */
  method AttendRow(p: Problem, flat: nat, output: array<real>)
    requires p.Valid() && flat < p.Queries() && output.Length == p.Queries() * p.valueDimension
    modifies output
    ensures RowDone(p, output[..], flat)
    ensures RestUnchanged(old(output[..]), output[..], flat * p.valueDimension, p.valueDimension)
  {
    hide IsExponential, Accumulated, Attention, Scores, Score, Running, Problem.Queries;
    RowInside(flat, p.Queries(), p.valueDimension);
    var base, width := flat * p.valueDimension, p.valueDimension;
    ClearRow(output, base, width);
    var maximum: Option<real> := None;
    var denominator := 0.0;
    var keyStart := 0;
    ghost var done: nat := 0;
    RunningStarts(p, flat, output[base..][..width]);
    while keyStart < p.keyRows
      invariant done == if keyStart < p.keyRows then keyStart else p.keyRows
      invariant Running(p, flat, output[base..][..width], denominator, maximum, done)
      invariant RestUnchanged(old(output[..]), output[..], base, width)
      decreases p.keyRows - keyStart
    {
      var remainingRows := p.keyRows - keyStart;
      var blockRows := if remainingRows < p.keyBlockRows then remainingRows else p.keyBlockRows;
      var nextMaximum;
      nextMaximum, denominator := AttendBlock(p, flat, output, keyStart, blockRows, maximum, denominator);
      maximum := Some(nextMaximum);
      done := keyStart + blockRows;
      keyStart := keyStart + p.keyBlockRows;
    }
    ghost var row := output[base..][..width];
    RunningEnds(p, flat, row, denominator, maximum);
    var reciprocal := 1.0 / denominator;
    ScaleRow(output, base, width, reciprocal);
    assert forall column :: 0 <= column < width ==> output[..][base..][column] == row[column] * reciprocal;
  }

  lemma RunningStarts(p: Problem, flat: nat, row: seq<real>)
    requires p.Valid() && flat < p.Queries() && |row| == p.valueDimension
    requires forall column :: 0 <= column < |row| ==> row[column] == 0.0
    ensures Running(p, flat, row, 0.0, None, 0)
  {
  }

  lemma RunningEnds(p: Problem, flat: nat, row: seq<real>, denominator: real, maximum: Option<real>)
    requires p.Valid() && flat < p.Queries() && Running(p, flat, row, denominator, maximum, p.keyRows)
    ensures |row| == p.valueDimension && denominator > 0.0
    ensures forall column :: 0 <= column < |row| ==> row[column] * (1.0 / denominator) == Attention(p, flat, column)
  {
    hide Attention, IsExponential;
    AccumulateEnds(p, flat, row, denominator, maximum.value);
  }

  // ---------------------------------------------------------------------------
  // Six workers
  // ---------------------------------------------------------------------------

  ghost predicate RowDone(p: Problem, output: seq<real>, flat: nat)
    requires p.Valid() && flat < p.Queries() && |output| == p.Queries() * p.valueDimension
  {
    RowInside(flat, p.Queries(), p.valueDimension);
    forall column :: 0 <= column < p.valueDimension ==>
      output[flat * p.valueDimension..][column] == Attention(p, flat, column)
  }

  ghost predicate RowSame(p: Problem, before: seq<real>, after: seq<real>, flat: nat)
    requires flat < p.Queries() && |before| == |after| == p.Queries() * p.valueDimension
  {
    RowInside(flat, p.Queries(), p.valueDimension);
    forall column :: 0 <= column < p.valueDimension ==>
      before[flat * p.valueDimension..][column] == after[flat * p.valueDimension..][column]
  }

  /** Rows of different queries do not overlap. */
  lemma OtherRowSame(p: Problem, before: seq<real>, after: seq<real>, flat: nat, other: nat)
    requires flat < p.Queries() && other < p.Queries() && flat != other
    requires |before| == p.Queries() * p.valueDimension
    requires RestUnchanged(before, after, flat * p.valueDimension, p.valueDimension)
    ensures RowSame(p, before, after, other)
  {
    hide Problem.Queries;
    RowInside(other, p.Queries(), p.valueDimension);
    RowsApart(flat, other, p.valueDimension);
  }

  lemma RowsApart(a: nat, b: nat, width: nat)
    requires a != b
    ensures a * width + width <= b * width || b * width + width <= a * width
  {
    if a < b {
      RowInside(a, b, width);
    } else {
      RowInside(b, a, width);
    }
  }

  /** Every row of worker `worker` below `end` is done; no other row has changed. */
  ghost predicate WorkerDone(p: Problem, before: seq<real>, after: seq<real>, worker: nat, end: nat)
    requires p.Valid() && |before| == |after| == p.Queries() * p.valueDimension
  {
    && (forall flat: nat :: flat < p.Queries() && flat < end && flat % 6 == worker ==> RowDone(p, after, flat))
    && (forall flat: nat :: flat < p.Queries() && flat % 6 != worker ==> RowSame(p, before, after, flat))
  }

  lemma WorkerContinues(p: Problem, start: seq<real>, before: seq<real>, after: seq<real>, worker: nat, flat: nat)
    requires p.Valid() && |start| == |before| == |after| == p.Queries() * p.valueDimension
    requires flat < p.Queries() && flat % 6 == worker && WorkerDone(p, start, before, worker, flat)
    requires RestUnchanged(before, after, flat * p.valueDimension, p.valueDimension) && RowDone(p, after, flat)
    ensures WorkerDone(p, start, after, worker, flat + 6)
  {
    hide RowDone, RowSame, Problem.Valid, Problem.Queries;
    forall other: nat | other < p.Queries() && other < flat + 6 && other % 6 == worker
      ensures RowDone(p, after, other)
    {
      if other != flat {
        OtherRowSame(p, before, after, flat, other);
        SameIsDone(p, before, after, other);
      }
    }
    forall other: nat | other < p.Queries() && other % 6 != worker
      ensures RowSame(p, start, after, other)
    {
      OtherRowSame(p, before, after, flat, other);
      SameIsTransitive(p, start, before, after, other);
    }
  }

  lemma SameIsTransitive(p: Problem, a: seq<real>, b: seq<real>, c: seq<real>, flat: nat)
    requires flat < p.Queries() && |a| == |b| == |c| == p.Queries() * p.valueDimension
    requires RowSame(p, a, b, flat) && RowSame(p, b, c, flat)
    ensures RowSame(p, a, c, flat)
  {
    hide Problem.Queries;
  }

  /** Worker `worker` finishes every sixth row and touches no other. */
  method Compute(p: Problem, output: array<real>, worker: nat)
    requires p.Valid() && output.Length == p.Queries() * p.valueDimension && worker < 6
    modifies output
    ensures WorkerDone(p, old(output[..]), output[..], worker, p.Queries())
  {
    hide Attention, Problem.Valid, Problem.Queries, RowDone, RowSame, WorkerDone, RestUnchanged;
    var flatQuery := worker;
    WorkerStarts(p, output[..], worker);
    while flatQuery < p.Queries()
      invariant flatQuery % 6 == worker
      invariant WorkerDone(p, old(output[..]), output[..], worker, flatQuery)
      decreases p.Queries() - flatQuery
    {
      ghost var before := output[..];
      AttendRow(p, flatQuery, output);
      WorkerContinues(p, old(output[..]), before, output[..], worker, flatQuery);
      flatQuery := flatQuery + 6;
    }
    WorkerEnds(p, old(output[..]), output[..], worker, flatQuery);
  }

  lemma WorkerStarts(p: Problem, output: seq<real>, worker: nat)
    requires p.Valid() && |output| == p.Queries() * p.valueDimension && worker < 6
    ensures WorkerDone(p, output, output, worker, worker)
  {
    hide RowDone, Problem.Valid, Problem.Queries;
  }

  lemma WorkerEnds(p: Problem, before: seq<real>, after: seq<real>, worker: nat, end: nat)
    requires p.Valid() && |before| == |after| == p.Queries() * p.valueDimension
    requires p.Queries() <= end && WorkerDone(p, before, after, worker, end)
    ensures WorkerDone(p, before, after, worker, p.Queries())
  {
    hide RowDone, RowSame, Problem.Valid, Problem.Queries;
  }

  /** In whatever order the workers run, and even if one runs twice, every output element
      ends as its softmax average. */
  method Launch(p: Problem, output: array<real>, order: seq<nat>)
    requires p.Valid() && output.Length == p.Queries() * p.valueDimension
    requires (forall i :: 0 <= i < |order| ==> order[i] < 6) && (forall w: nat :: w < 6 ==> w in order)
    modifies output
    ensures forall flat: nat :: flat < p.Queries() ==> RowDone(p, output[..], flat)
  {
    hide RowDone, RowSame, Problem.Valid, Problem.Queries;
    for i := 0 to |order|
      invariant forall flat: nat :: flat < p.Queries() && flat % 6 in order[..i] ==> RowDone(p, output[..], flat)
    {
      ghost var before := output[..];
      Compute(p, output, order[i]);
      forall flat: nat | flat < p.Queries() && flat % 6 in order[..i + 1]
        ensures RowDone(p, output[..], flat)
      {
        if flat % 6 != order[i] {
          SameIsDone(p, before, output[..], flat);
        }
      }
    }
    assert order[..|order|] == order;
  }

  lemma SameIsDone(p: Problem, before: seq<real>, after: seq<real>, flat: nat)
    requires p.Valid() && flat < p.Queries() && |before| == |after| == p.Queries() * p.valueDimension
    requires RowDone(p, before, flat) && RowSame(p, before, after, flat)
    ensures RowDone(p, after, flat)
  {
  }
}
