/** Elementwise addition with broadcast operands (device/elementwise_f16.cpp).

    The kernel chooses between groups of four, pairs, repeated rows, running wrapped indices
    and single elements, by the lengths and the alignment of its operands. The module proves
    that whichever path is taken, the six workers together write each element once, with the
    sum of the operands' elements at the wrapped index. */
module BroadcastAdd {
  import opened DivMod
  import opened MixedRadix

  /** A half-precision element, by its bits. Addition is a parameter: any commutative operation. */
  type Half = int

  datatype Problem = Problem(elements: nat, left: seq<Half>, right: seq<Half>, aligned: bool, add: (Half, Half) -> Half)

  ghost predicate Commutes(add: (Half, Half) -> Half) {
    forall a: Half, b: Half :: Swaps(add, a, b)
  }

  ghost predicate Swaps(add: (Half, Half) -> Half, a: Half, b: Half) {
    add(a, b) == add(b, a)
  }

  /** Operands are not empty and no longer than the output, if there is any output. */
  ghost predicate Valid(p: Problem) {
    && |p.left| > 0 && |p.right| > 0 && Commutes(p.add)
    && (p.elements > 0 ==> |p.left| <= p.elements && |p.right| <= p.elements)
  }

  /** The sum that element `i` should get. */
  ghost function Want(p: Problem, i: nat): Half
    requires |p.left| > 0 && |p.right| > 0
  {
    p.add(p.left[Rem(i, |p.left|)], p.right[Rem(i, |p.right|)])
  }

  /** After any number of passes through each operand, the element adds what they have got to. */
  lemma WantRepeats(p: Problem, i: nat, a: nat, b: nat, lefts: nat, rights: nat)
    requires a < |p.left| && b < |p.right|
    requires i == lefts * |p.left| + a == rights * |p.right| + b
    ensures Want(p, i) == p.add(p.left[a], p.right[b])
  {
    QuotientIs(i, |p.left|, lefts, a);
    QuotientIs(i, |p.right|, rights, b);
  }

  // ---------------------------------------------------------------------------
  // Paths
  // ---------------------------------------------------------------------------

  predicate IsDense(p: Problem) {
    |p.left| == p.elements && |p.right| == p.elements
  }

  function Shorter(p: Problem): nat {
    if |p.left| < |p.right| then |p.left| else |p.right|
  }

  predicate IsRows(p: Problem)
    requires |p.left| > 0 && |p.right| > 0
  {
    (|p.left| == p.elements || |p.right| == p.elements) && Rem(p.elements, Shorter(p)) == 0
  }

  predicate FitsQuads(p: Problem) {
    p.elements > 0 && p.elements % 4 == 0 && |p.left| % 4 == 0 && |p.right| % 4 == 0 && p.aligned
  }

  predicate FitsPairs(p: Problem) {
    p.elements % 2 == 0 && |p.left| % 2 == 0 && |p.right| % 2 == 0
  }

  /** The worker that writes an element. */
  ghost function Owner(p: Problem, i: nat): nat
    requires |p.left| > 0 && |p.right| > 0
  {
    if FitsQuads(p) && IsDense(p) then i / 4 % 6
    else if FitsQuads(p) && IsRows(p) then Rem(i, Shorter(p)) / 4 % 6
    else if FitsPairs(p) && !IsDense(p) && IsRows(p) then Rem(i, Shorter(p)) / 2 % 6
    else if p.elements % 2 == 1 && i == p.elements - 1 then 0
    else i / 2 % 6
  }

  /** One worker has written its elements and no other. */
  ghost predicate Wrote(p: Problem, before: seq<Half>, after: seq<Half>, worker: nat)
    requires |p.left| > 0 && |p.right| > 0
  {
    && |after| == |before| == p.elements
    && forall i :: 0 <= i < |after| ==> after[i] == if Owner(p, i) == worker then Want(p, i) else before[i]
  }

  /** Wrapping by repeated subtraction gives the remainder. */
  method Wrap(i: nat, size: nat) returns (r: nat)
    requires size > 0
    ensures r == Rem(i, size)
  {
    r := i;
    while r >= size
      invariant Rem(r, size) == Rem(i, size)
    {
      OneDivisorLess(r, size);
      r := r - size;
    }
    QuotientIs(r, size, 0, r);
  }

  /** A running wrapped index stays the remainder. */
  lemma WrapAdvances(i: nat, n: nat, size: nat)
    requires size > 0
    ensures Rem(Rem(i, size) + n, size) == Rem(i + n, size)
  {
    hide Quo, Rem, Join;
    var r := Rem(i, size);
    SplitJoins(i, size);
    SplitJoins(r + n, size);
    JoinAdvances(Quo(i, size), size, r, n, Quo(r + n, size), Rem(r + n, size));
    JoinSplits(Quo(i, size) + Quo(r + n, size), size, Rem(r + n, size));
  }

  lemma JoinAdvances(q: nat, d: nat, r: nat, n: nat, k: nat, m: nat)
    requires r + n == Join(k, d, m)
    ensures Join(q, d, r) + n == Join(q + k, d, m)
  {
    assert (q + k) * d == q * d + k * d;
  }

  // ---------------------------------------------------------------------------
  // Strided groups
  // ---------------------------------------------------------------------------

  /** Groups of `group` elements from `start` on, of which the worker has stored those
      before group `k`. */
  ghost predicate Strided(before: seq<Half>, after: seq<Half>, start: nat, a: seq<Half>, a0: nat, b: seq<Half>, b0: nat,
                             groups: nat, group: nat, worker: nat, add: (Half, Half) -> Half, k: nat)
    requires group > 0 && a0 + Times(groups, group) <= |a| && b0 + Times(groups, group) <= |b|
  {
    && |after| == |before| && start + Times(groups, group) <= |before|
    && forall i :: 0 <= i < |after| ==>
         after[i] ==
         if start <= i < start + Times(groups, group) && Quo(i - start, group) % 6 == worker && Quo(i - start, group) < k
         then add(a[a0 + (i - start)], b[b0 + (i - start)])
         else before[i]
  }

  lemma StridedStarts(before: seq<Half>, start: nat, a: seq<Half>, a0: nat, b: seq<Half>, b0: nat,
                         groups: nat, group: nat, worker: nat, add: (Half, Half) -> Half)
    requires group > 0 && a0 + Times(groups, group) <= |a| && b0 + Times(groups, group) <= |b|
    requires start + Times(groups, group) <= |before| && worker < 6
    ensures Strided(before, before, start, a, a0, b, b0, groups, group, worker, add, worker)
  {
    hide Quo, Times;
  }

  lemma InGroup(k: nat, group: nat, x: nat)
    requires group > 0
    ensures Quo(x, group) == k <==> Times(k, group) <= x < Times(k, group) + group
  {
    if Times(k, group) <= x < Times(k, group) + group {
      QuotientIs(x, group, k, x - k * group);
    } else {
      assert x == x / group * group + x % group;
    }
  }

  /** Storing group `k` brings the worker to its next. */
  lemma StridedNext(before: seq<Half>, middle: seq<Half>, after: seq<Half>, start: nat,
                    a: seq<Half>, a0: nat, b: seq<Half>, b0: nat,
                       groups: nat, group: nat, worker: nat, add: (Half, Half) -> Half, k: nat)
    requires group > 0 && a0 + Times(groups, group) <= |a| && b0 + Times(groups, group) <= |b|
    requires Strided(before, middle, start, a, a0, b, b0, groups, group, worker, add, k) && k < groups && k % 6 == worker
    requires Times(k, group) + group <= Times(groups, group) && |after| == |middle|
    requires forall i :: 0 <= i < |after| ==>
      after[i] == if start + Times(k, group) <= i < start + Times(k, group) + group
                  then add(a[a0 + (i - start)], b[b0 + (i - start)]) else middle[i]
    ensures Strided(before, after, start, a, a0, b, b0, groups, group, worker, add, k + 6)
  {
    hide Quo, Times;
    forall i: nat | i < |after|
      ensures after[i] ==
              if start <= i < start + Times(groups, group) && Quo(i - start, group) % 6 == worker && Quo(i - start, group) < k + 6
              then add(a[a0 + (i - start)], b[b0 + (i - start)])
              else before[i]
    {
      if start <= i {
        InGroup(k, group, i - start);
      }
    }
  }

  lemma GroupFits(k: nat, groups: nat, group: nat)
    requires k < groups
    ensures Times(k, group) + group <= Times(groups, group)
  {
    MulNext(k, group);
    MulMonotone(k + 1, groups, group);
  }

  lemma StridedEnds(before: seq<Half>, after: seq<Half>, start: nat, a: seq<Half>, a0: nat, b: seq<Half>, b0: nat,
                       groups: nat, group: nat, worker: nat, add: (Half, Half) -> Half, k: nat)
    requires group > 0 && a0 + Times(groups, group) <= |a| && b0 + Times(groups, group) <= |b|
    requires Strided(before, after, start, a, a0, b, b0, groups, group, worker, add, k) && groups <= k
    ensures Strided(before, after, start, a, a0, b, b0, groups, group, worker, add, groups)
  {
    hide Quo, Times;
    forall i: nat | i < |after|
      ensures after[i] ==
              if start <= i < start + Times(groups, group) && Quo(i - start, group) % 6 == worker && Quo(i - start, group) < groups
              then add(a[a0 + (i - start)], b[b0 + (i - start)])
              else before[i]
    {
      if start <= i < start + Times(groups, group) {
        QuotientBelow(i - start, groups, group);
      }
    }
  }

  /** A worker adds every sixth group of a stretch; a group is stored at once. */
  method AddStride(destination: array<Half>, start: nat, a: seq<Half>, a0: nat, b: seq<Half>, b0: nat,
                      groups: nat, group: nat, worker: nat, add: (Half, Half) -> Half)
    requires group > 0 && a0 + Times(groups, group) <= |a| && b0 + Times(groups, group) <= |b|
    requires start + Times(groups, group) <= destination.Length && worker < 6
    modifies destination
    ensures Strided(old(destination[..]), destination[..], start, a, a0, b, b0, groups, group, worker, add, groups)
  {
    hide Quo, Times, Strided;
    var k := worker;
    StridedStarts(destination[..], start, a, a0, b, b0, groups, group, worker, add);
    while k < groups
      invariant k % 6 == worker
      invariant Strided(old(destination[..]), destination[..], start, a, a0, b, b0, groups, group, worker, add, k)
      decreases groups - k
    {
      GroupFits(k, groups, group);
      ghost var middle := destination[..];
      var first := Times(k, group);
      forall j | 0 <= j < group {
        destination[start + first + j] := add(a[a0 + (first + j)], b[b0 + (first + j)]);
      }
      assert forall i :: start + first <= i < start + first + group ==>
          destination[i] == add(a[a0 + (i - start)], b[b0 + (i - start)]) by {
        forall i | start + first <= i < start + first + group
          ensures destination[i] == add(a[a0 + (i - start)], b[b0 + (i - start)])
        {
          var j := i - (start + first);
          assert destination[start + first + j] == add(a[a0 + (first + j)], b[b0 + (first + j)]);
        }
      }
      StridedNext(old(destination[..]), middle, destination[..], start, a, a0, b, b0, groups, group, worker, add, k);
      k := k + 6;
    }
    StridedEnds(old(destination[..]), destination[..], start, a, a0, b, b0, groups, group, worker, add, k);
  }

  // ---------------------------------------------------------------------------
  // Dense operands
  // ---------------------------------------------------------------------------

  lemma SmallRem(i: nat, size: nat)
    requires i < size
    ensures Rem(i, size) == i && Quo(i, size) == 0
  {
    QuotientIs(i, size, 0, i);
  }

  lemma DenseIsWrote(p: Problem, before: seq<Half>, after: seq<Half>, group: nat, worker: nat)
    requires Valid(p) && IsDense(p) && (group == 4 || group == 2) && p.elements % group == 0
    requires Times(p.elements / group, group) == p.elements && |before| == p.elements
    requires Strided(before, after, 0, p.left, 0, p.right, 0, p.elements / group, group, worker, p.add, p.elements / group)
    requires group == 4 <==> FitsQuads(p)
    ensures Wrote(p, before, after, worker)
  {
    hide Times, Rem, Commutes;
    forall i: nat | i < p.elements
      ensures after[i] == if Owner(p, i) == worker then Want(p, i) else before[i]
    {
      SmallRem(i, p.elements);
      QuotientBelow(i, p.elements / group, group);
      QuoIs(i, group);
    }
  }

  lemma QuoIs(i: nat, group: nat)
    requires group == 4 || group == 2
    ensures Quo(i, group) == if group == 4 then i / 4 else i / 2
  {
  }

  lemma WholeGroups(n: nat, group: nat)
    requires group > 0 && n % group == 0
    ensures Times(n / group, group) == n
  {
  }

  // ---------------------------------------------------------------------------
  // Repeated rows
  // ---------------------------------------------------------------------------

  /** The worker has written its elements of the first rows, up to `end`. */
  ghost predicate WroteRows(p: Problem, before: seq<Half>, after: seq<Half>, group: nat, worker: nat, end: nat)
    requires |p.left| > 0 && |p.right| > 0 && group > 0
  {
    && |after| == |before| == p.elements
    && forall i :: 0 <= i < |after| ==>
         after[i] == if i < end && Quo(Rem(i, Shorter(p)), group) % 6 == worker then Want(p, i) else before[i]
  }

  lemma SwapSum(p: Problem, a: Half, b: Half)
    requires Commutes(p.add)
    ensures p.add(a, b) == p.add(b, a)
  {
    assert Swaps(p.add, a, b);
  }

  /** An index within a row wraps to its place in the row. */
  lemma RowPlace(q: nat, width: nat, i: nat)
    requires width > 0 && Times(q, width) <= i < Times(q, width) + width
    ensures Rem(i, width) == i - Times(q, width)
  {
    QuotientIs(i, width, q, i - q * width);
  }

  /** One more row. */
  lemma RowsNext(p: Problem, before: seq<Half>, middle: seq<Half>, after: seq<Half>, group: nat, worker: nat, q: nat)
    requires Valid(p) && IsRows(p) && group > 0 && worker < 6
    requires var width, row := Shorter(p), Times(q, Shorter(p));
      && Rem(width, group) == 0 && row + width <= p.elements && Times(Quo(width, group), group) == width
      && WroteRows(p, before, middle, group, worker, row)
    requires var width, row := Shorter(p), Times(q, Shorter(p));
      var dense := if |p.left| == p.elements then p.left else p.right;
      var bias := if |p.left| == p.elements then p.right else p.left;
      && |dense| == p.elements && |bias| == width
      && Strided(middle, after, row, dense, row, bias, 0, Quo(width, group), group, worker, p.add, Quo(width, group))
    ensures WroteRows(p, before, after, group, worker, Times(q, Shorter(p)) + Shorter(p))
  {
    hide Times, Quo, Rem, Commutes;
    var width, row := Shorter(p), Times(q, Shorter(p));
    forall i: nat | i < p.elements
      ensures after[i] == if i < row + width && Quo(Rem(i, width), group) % 6 == worker then Want(p, i) else before[i]
    {
      if row <= i < row + width {
        RowPlace(q, width, i);
        QuotientBelow(i - row, Quo(width, group), group);
        SmallRem(i, p.elements);
        if |p.left| != p.elements {
          SwapSum(p, p.left[i - row], p.right[i]);
        }
      }
    }
  }

  /** Broadcasts the shorter operand over rows of the longer. */
  method AddRows(p: Problem, destination: array<Half>, group: nat, worker: nat)
    requires Valid(p) && IsRows(p) && p.elements > 0 && group > 0 && Rem(Shorter(p), group) == 0 && worker < 6
    requires destination.Length == p.elements
    modifies destination
    ensures WroteRows(p, old(destination[..]), destination[..], group, worker, p.elements)
  {
    hide Times, Quo, Rem, Commutes, WroteRows, Strided;
    var dense := if |p.left| == p.elements then p.left else p.right;
    var bias := if |p.left| == p.elements then p.right else p.left;
    var width := |bias|;
    Multiple(width, group);
    Multiple(p.elements, width);
    NoRows(p, destination[..], group, worker);
    ghost var q := 0;
    var row := 0;
    while row < p.elements
      invariant row == Times(q, width) && q <= Quo(p.elements, width)
      invariant WroteRows(p, old(destination[..]), destination[..], group, worker, row)
      decreases p.elements - row
    {
      RowFits(q, width, p.elements);
      ghost var middle := destination[..];
      AddStride(destination, row, dense, row, bias, 0, Quo(width, group), group, worker, p.add);
      RowsNext(p, old(destination[..]), middle, destination[..], group, worker, q);
      q := q + 1;
      row := row + width;
    }
    RowsEnd(q, width, p.elements);
  }

  lemma NoRows(p: Problem, words: seq<Half>, group: nat, worker: nat)
    requires |p.left| > 0 && |p.right| > 0 && group > 0 && |words| == p.elements
    ensures WroteRows(p, words, words, group, worker, 0) && Times(0, Shorter(p)) == 0
  {
  }

  lemma RowFits(q: nat, width: nat, elements: nat)
    requires width > 0 && Times(Quo(elements, width), width) == elements && Times(q, width) < elements
    ensures Times(q, width) + width <= elements && Times(q + 1, width) == Times(q, width) + width
    ensures q + 1 <= Quo(elements, width)
  {
    var n := elements / width;
    MulNext(q, width);
    if n <= q {
      MulMonotone(n, q, width);
    }
    MulMonotone(q + 1, if q < n then n else q + 1, width);
  }

  lemma RowsEnd(q: nat, width: nat, elements: nat)
    requires width > 0 && Times(Quo(elements, width), width) == elements && q <= Quo(elements, width)
    ensures Times(q, width) <= elements
  {
    MulMonotone(q, elements / width, width);
  }

  lemma RowsAreWrote(p: Problem, before: seq<Half>, after: seq<Half>, group: nat, worker: nat)
    requires |p.left| > 0 && |p.right| > 0 && (group == 4 || group == 2) && !IsDense(p) && IsRows(p)
    requires group == 4 <==> FitsQuads(p)
    requires group == 2 ==> FitsPairs(p)
    requires WroteRows(p, before, after, group, worker, p.elements)
    ensures Wrote(p, before, after, worker)
  {
    hide Rem;
    forall i: nat | i < p.elements
      ensures after[i] == if Owner(p, i) == worker then Want(p, i) else before[i]
    {
      QuoIs(Rem(i, Shorter(p)), group);
    }
  }

  // ---------------------------------------------------------------------------
  // General broadcasting
  // ---------------------------------------------------------------------------

  /** Neither groups of four nor rows apply: elements go by pairs. */
  predicate ByPairs(p: Problem)
    requires |p.left| > 0 && |p.right| > 0
  {
    !(FitsQuads(p) && (IsDense(p) || IsRows(p))) && !(FitsPairs(p) && !IsDense(p) && IsRows(p))
  }

  /** The worker has written its pairs before pair `k`. */
  ghost predicate WrotePairs(p: Problem, before: seq<Half>, after: seq<Half>, worker: nat, k: nat)
    requires |p.left| > 0 && |p.right| > 0
  {
    && |after| == |before| == p.elements
    && forall i :: 0 <= i < |after| ==>
         after[i] == if i / 2 % 6 == worker && i / 2 < k && i / 2 * 2 + 1 < p.elements then Want(p, i) else before[i]
  }

  lemma PairsNext(p: Problem, before: seq<Half>, middle: seq<Half>, worker: nat, k: nat, first: Half, second: Half)
    requires |p.left| > 0 && |p.right| > 0 && WrotePairs(p, before, middle, worker, k) && k % 6 == worker
    requires 2 * k + 1 < p.elements && first == Want(p, 2 * k) && second == Want(p, 2 * k + 1)
    ensures WrotePairs(p, before, middle[2 * k := first][2 * k + 1 := second], worker, k + 6)
  {
    hide Want;
  }

  lemma PairsEnd(p: Problem, before: seq<Half>, after: seq<Half>, worker: nat, k: nat)
    requires |p.left| > 0 && |p.right| > 0 && WrotePairs(p, before, after, worker, k) && p.elements <= 2 * k + 1
    requires ByPairs(p) && (worker != 0 || p.elements % 2 == 0)
    ensures Wrote(p, before, after, worker)
  {
    hide Want, Rem;
  }

  lemma NoPairs(p: Problem, words: seq<Half>, worker: nat)
    requires |p.left| > 0 && |p.right| > 0 && |words| == p.elements && worker < 6
    ensures WrotePairs(p, words, words, worker, worker)
  {
  }

  /** An even operand wraps by pairs. */
  lemma PairWraps(i: nat, size: nat)
    requires size > 0 && size % 2 == 0
    ensures Rem(2 * i, size) == 2 * Rem(i, size / 2) && Rem(2 * i + 1, size) == 2 * Rem(i, size / 2) + 1
  {
    var half := size / 2;
    var q, r := i / half, i % half;
    assert i == q * half + r;
    assert 2 * (q * half) == q * size by {
      assert q * (2 * half) == 2 * (q * half);
    }
    QuotientIs(2 * i, size, q, 2 * r);
    QuotientIs(2 * i + 1, size, q, 2 * r + 1);
  }

  /** Even lengths: pairs at running wrapped indices. */
  method AddWrappedPairs(p: Problem, destination: array<Half>, worker: nat)
    requires Valid(p) && FitsPairs(p) && ByPairs(p) && worker < 6 && destination.Length == p.elements
    modifies destination
    ensures Wrote(p, old(destination[..]), destination[..], worker)
  {
    hide Rem, Valid, WrotePairs, Want, Wrote, ByPairs;
    LengthsPositive(p);
    var l := Wrap(worker, |p.left| / 2);
    var r := Wrap(worker, |p.right| / 2);
    var i := worker;
    NoPairs(p, destination[..], worker);
    while i < p.elements / 2
      invariant i % 6 == worker && l == Rem(i, |p.left| / 2) && r == Rem(i, |p.right| / 2)
      invariant WrotePairs(p, old(destination[..]), destination[..], worker, i)
      decreases p.elements / 2 - i
    {
      PairWraps(i, |p.left|);
      PairWraps(i, |p.right|);
      var first := p.add(p.left[2 * l], p.right[2 * r]);
      var second := p.add(p.left[2 * l + 1], p.right[2 * r + 1]);
      WantIs(p, 2 * i);
      WantIs(p, 2 * i + 1);
      PairsNext(p, old(destination[..]), destination[..], worker, i, first, second);
      ghost var middle := destination[..];
      destination[2 * i], destination[2 * i + 1] := first, second;
      assert destination[..] == middle[2 * i := first][2 * i + 1 := second];
      WrapAdvances(i, 6, |p.left| / 2);
      WrapAdvances(i, 6, |p.right| / 2);
      l := Wrap(l + 6, |p.left| / 2);
      r := Wrap(r + 6, |p.right| / 2);
      i := i + 6;
    }
    PairsEnd(p, old(destination[..]), destination[..], worker, i);
  }

  lemma LengthsPositive(p: Problem)
    requires Valid(p)
    ensures |p.left| > 0 && |p.right| > 0
  {
  }

  lemma WantIs(p: Problem, i: nat)
    requires |p.left| > 0 && |p.right| > 0
    ensures Want(p, i) == p.add(p.left[Rem(i, |p.left|)], p.right[Rem(i, |p.right|)])
  {
  }

  /** Any lengths: single elements at running wrapped indices, and the last one of an odd output. */
  method AddWrappedElements(p: Problem, destination: array<Half>, worker: nat)
    requires Valid(p) && ByPairs(p) && worker < 6 && destination.Length == p.elements
    modifies destination
    ensures Wrote(p, old(destination[..]), destination[..], worker)
  {
    hide Rem, Valid, WrotePairs, Want, Wrote, ByPairs, Commutes;
    LengthsPositive(p);
    var l := Wrap(worker * 2, |p.left|);
    var r := Wrap(worker * 2, |p.right|);
    var i := worker * 2;
    ghost var k := worker;
    NoPairs(p, destination[..], worker);
    while i + 1 < p.elements
      invariant i == 2 * k && k % 6 == worker && l == Rem(i, |p.left|) && r == Rem(i, |p.right|)
      invariant WrotePairs(p, old(destination[..]), destination[..], worker, k)
      decreases p.elements - i
    {
      var nextLeft := Wrap(l + 1, |p.left|);
      var nextRight := Wrap(r + 1, |p.right|);
      WrapAdvances(i, 1, |p.left|);
      WrapAdvances(i, 1, |p.right|);
      var first := p.add(p.left[l], p.right[r]);
      var second := p.add(p.left[nextLeft], p.right[nextRight]);
      WantIs(p, 2 * k);
      WantIs(p, 2 * k + 1);
      PairsNext(p, old(destination[..]), destination[..], worker, k, first, second);
      ghost var middle := destination[..];
      destination[i], destination[i + 1] := first, second;
      assert destination[..] == middle[2 * k := first][2 * k + 1 := second];
      WrapAdvances(i, 12, |p.left|);
      WrapAdvances(i, 12, |p.right|);
      l := Wrap(l + 12, |p.left|);
      r := Wrap(r + 12, |p.right|);
      i := i + 12;
      k := k + 6;
    }
    if worker == 0 && p.elements % 2 == 1 {
      var last := p.elements - 1;
      var a := Wrap(last, |p.left|);
      var b := Wrap(last, |p.right|);
      WantIs(p, last);
      TailEnds(p, old(destination[..]), destination[..], k, p.add(p.left[a], p.right[b]));
      ghost var middle := destination[..];
      destination[last] := p.add(p.left[a], p.right[b]);
      assert destination[..] == middle[last := p.add(p.left[a], p.right[b])];
    } else {
      PairsEnd(p, old(destination[..]), destination[..], worker, k);
    }
  }

  lemma TailEnds(p: Problem, before: seq<Half>, after: seq<Half>, k: nat, value: Half)
    requires |p.left| > 0 && |p.right| > 0 && WrotePairs(p, before, after, 0, k) && p.elements <= 2 * k + 1
    requires ByPairs(p) && p.elements % 2 == 1 && value == Want(p, p.elements - 1)
    ensures Wrote(p, before, after[p.elements - 1 := value], 0)
  {
    hide Want, Rem;
  }

  // ---------------------------------------------------------------------------
  // The kernel
  // ---------------------------------------------------------------------------

  lemma EvenShorter(p: Problem, group: nat)
    requires |p.left| > 0 && |p.right| > 0 && (group == 4 || group == 2)
    requires |p.left| % group == 0 && |p.right| % group == 0
    ensures Rem(Shorter(p), group) == 0
  {
  }

  /** A worker beyond the pairs owns nothing. */
  lemma OwnsNothing(p: Problem, words: seq<Half>, worker: nat)
    requires |p.left| > 0 && |p.right| > 0 && |words| == p.elements && 0 < worker < 6 && p.elements / 2 <= worker
    requires !(FitsQuads(p) && (IsDense(p) || IsRows(p)))
    ensures Wrote(p, words, words, worker)
  {
    hide Want, Rem, Wrote;
    WroteNothing(p, words, worker);
    forall i: nat | i < p.elements
      ensures Owner(p, i) != worker
    {
      RemAtMost(i, Shorter(p));
    }
  }

  lemma WroteNothing(p: Problem, words: seq<Half>, worker: nat)
    requires |p.left| > 0 && |p.right| > 0 && |words| == p.elements
    ensures (forall i: nat :: i < p.elements ==> Owner(p, i) != worker) ==> Wrote(p, words, words, worker)
  {
    hide Want, Owner;
  }

  lemma RemAtMost(i: nat, size: nat)
    requires size > 0
    ensures Rem(i, size) <= i
  {
  }

  /** One worker, on whichever path the operands select. */
  method Compute(p: Problem, destination: array<Half>, worker: nat)
    requires Valid(p) && worker < 6 && destination.Length == p.elements
    modifies destination
    ensures Wrote(p, old(destination[..]), destination[..], worker)
  {
    hide Rem, Quo, Times, Want, Wrote, WroteRows, Strided;
    var remainder := Wrap(p.elements, Shorter(p));
    if FitsQuads(p) {
      if IsDense(p) {
        WholeGroups(p.elements, 4);
        AddStride(destination, 0, p.left, 0, p.right, 0, p.elements / 4, 4, worker, p.add);
        DenseIsWrote(p, old(destination[..]), destination[..], 4, worker);
        return;
      }
      if (|p.left| == p.elements || |p.right| == p.elements) && remainder == 0 {
        EvenShorter(p, 4);
        AddRows(p, destination, 4, worker);
        RowsAreWrote(p, old(destination[..]), destination[..], 4, worker);
        return;
      }
    }
    if worker != 0 && worker >= p.elements / 2 {
      OwnsNothing(p, destination[..], worker);
      return;
    }
    if FitsPairs(p) {
      if IsDense(p) {
        WholeGroups(p.elements, 2);
        AddStride(destination, 0, p.left, 0, p.right, 0, p.elements / 2, 2, worker, p.add);
        DenseIsWrote(p, old(destination[..]), destination[..], 2, worker);
      } else if (|p.left| == p.elements || |p.right| == p.elements) && remainder == 0 {
        EvenShorter(p, 2);
        AddRows(p, destination, 2, worker);
        RowsAreWrote(p, old(destination[..]), destination[..], 2, worker);
      } else {
        AddWrappedPairs(p, destination, worker);
      }
      return;
    }
    AddWrappedElements(p, destination, worker);
  }

  /** In whatever order the workers run, every element gets its sum. */
  method Launch(p: Problem, destination: array<Half>, workers: seq<nat>)
    requires Valid(p) && destination.Length == p.elements
    requires (forall i :: 0 <= i < |workers| ==> workers[i] < 6) && (forall w: nat :: w < 6 ==> w in workers)
    modifies destination
    ensures forall i: nat :: i < p.elements ==> destination[i] == Want(p, i)
  {
    hide Want, Owner, Valid;
    LengthsPositive(p);
    for k := 0 to |workers|
      invariant forall i: nat :: i < p.elements && Owner(p, i) in workers[..k] ==> destination[i] == Want(p, i)
    {
      assert workers[..k + 1] == workers[..k] + [workers[k]];
      ghost var before := destination[..];
      Compute(p, destination, workers[k]);
      WroteMore(p, before, destination[..], workers[..k], workers[k]);
    }
    assert workers[..|workers|] == workers;
    forall i: nat | i < p.elements
      ensures Owner(p, i) < 6
    {
      OwnerIsWorker(p, i);
    }
  }

  lemma WroteMore(p: Problem, before: seq<Half>, after: seq<Half>, ran: seq<nat>, worker: nat)
    requires |p.left| > 0 && |p.right| > 0 && Wrote(p, before, after, worker)
    requires forall i: nat :: i < p.elements && Owner(p, i) in ran ==> before[i] == Want(p, i)
    ensures forall i: nat :: i < p.elements && Owner(p, i) in ran + [worker] ==> after[i] == Want(p, i)
  {
    hide Want, Owner;
  }

  lemma OwnerIsWorker(p: Problem, i: nat)
    requires |p.left| > 0 && |p.right| > 0
    ensures Owner(p, i) < 6
  {
    hide Rem;
  }
}
