/** The F143 number format (crates/ipu-codegen/src/f143.rs): a sign, four exponent bits with
    bias 8 and three mantissa bits, one unsigned zero, and the code of negative zero as NaN.

    Encoding scales the value, splits it at its binary exponent and rounds the mantissa with
    ties to even. Scaling by powers of two, the difference from one and the product with eight
    are exact in binary floating point, so real arithmetic describes the code. The module
    proves that the encoder picks the nearest of the format's numbers with ties to even codes,
    that it is monotone and that it inverts decoding. */
module F143 {

  /** Two to the power `e`. */
  function Power(e: int): (r: real)
    ensures r > 0.0
    decreases if e < 0 then -e else e
  {
    if e == 0 then 1.0 else if e > 0 then 2.0 * Power(e - 1) else Power(e + 1) / 2.0
  }

  lemma PowerDoubles(e: int)
    ensures Power(e + 1) == 2.0 * Power(e)
  {
  }

  lemma {:induction false} PowerGrows(e: int, f: int)
    requires e < f
    ensures Power(e + 1) <= Power(f) && Power(e) < Power(f)
    decreases f - e
  {
    PowerDoubles(e);
    if e + 1 < f {
      PowerGrows(e + 1, f);
    }
  }

  // ---------------------------------------------------------------------------
  // Products of reals
  // ---------------------------------------------------------------------------

  function Mul(a: real, b: real): real {
    a * b
  }

  function Ratio(a: real, b: real): (r: real)
    requires b > 0.0
  {
    a / b
  }

  lemma MulAdds(a: real, b: real, s: real)
    ensures Mul(a + b, s) == Mul(a, s) + Mul(b, s)
    ensures Mul(a - b, s) == Mul(a, s) - Mul(b, s)
  {
  }

  lemma MulUnits(s: real)
    ensures Mul(0.0, s) == 0.0 && Mul(1.0, s) == s && Mul(7.0, s) == 7.0 * s && Mul(8.0, s) == 8.0 * s
  {
  }

  lemma MulPositive(a: real, s: real)
    requires a > 0.0 && s > 0.0
    ensures Mul(a, s) > 0.0
  {
  }

  /** Multiplying by a positive number keeps the order. */
  lemma MulOrder(a: real, b: real, s: real)
    requires s > 0.0
    ensures a < b <==> Mul(a, s) < Mul(b, s)
    ensures a == b <==> Mul(a, s) == Mul(b, s)
  {
    hide Mul;
    MulUnits(s);
    MulAdds(b, a, s);
    MulAdds(a, b, s);
    if a < b {
      MulPositive(b - a, s);
    } else if b < a {
      MulPositive(a - b, s);
    }
  }

  lemma RatioMultiplies(a: real, b: real)
    requires b > 0.0
    ensures Mul(Ratio(a, b), b) == a
  {
  }

  // ---------------------------------------------------------------------------
  // Decoding
  // ---------------------------------------------------------------------------

  /** The exponent field of a code without its sign. */
  function Exponent(code: nat): nat {
    code / 8 % 16
  }

  /** The magnitude of a code: subnormal below 8. */
  function Magnitude(code: nat): real
    requires code < 128
  {
    var exponent, mantissa := Exponent(code), code % 8;
    if exponent == 0 then Mul(mantissa as real, Power(-10))
    else Mul(1.0 + mantissa as real / 8.0, Power(exponent - 8))
  }

  datatype Number = NaN | Infinite(negative: bool) | Finite(negative: bool, magnitude: real)

  const NAN_CODE: nat := 0x80

  /** The value of a byte, times two to the power `scale`. */
  function Decode(bits: nat, scale: int): Number
    requires bits < 256
  {
    if bits == NAN_CODE then NaN
    else Finite(bits >= 0x80, Mul(Magnitude(bits % 0x80), Power(scale)))
  }

  // ---------------------------------------------------------------------------
  // Encoding
  // ---------------------------------------------------------------------------

  /** Rounds to the nearest integer, ties to the even one. */
  function RoundTiesEven(x: real): nat
    requires x >= 0.0
  {
    var low := x.Floor;
    var rest := x - low as real;
    if rest < 0.5 then low
    else if rest > 0.5 then low + 1
    else if low % 2 == 0 then low
    else low + 1
  }

  /** The binary exponent of a magnitude, searched downward from `e`. */
  function BinaryExponent(magnitude: real, e: int): (r: int)
    requires Power(-7) <= magnitude < Power(e + 1) && e >= -7
    ensures -7 <= r <= e && Power(r) <= magnitude < Power(r + 1)
    decreases e + 7
  {
    if Power(e) <= magnitude then e else BinaryExponent(magnitude, e - 1)
  }

  /** The code of a magnitude below 240, without its sign. */
  function EncodeMagnitude(magnitude: real): nat
    requires 0.0 < magnitude < 240.0
  {
    Powers();
    if magnitude < Power(-7) then
      var mantissa := RoundTiesEven(magnitude * 1024.0);
      if mantissa < 8 then mantissa else 8
    else
      var exponent := BinaryExponent(magnitude, 7);
      var unit := Power(exponent);
      UnitBelow(magnitude, unit);
      var mantissa := RoundTiesEven((Ratio(magnitude, unit) - 1.0) * 8.0);
      var encoded := if mantissa == 8 then exponent + 9 else exponent + 8;
      if encoded > 15 then 0x7F else encoded * 8 + if mantissa == 8 then 0 else mantissa
  }

  lemma UnitBelow(magnitude: real, unit: real)
    requires 0.0 < unit <= magnitude
    ensures Ratio(magnitude, unit) >= 1.0
  {
    hide Mul, Ratio;
    RatioMultiplies(magnitude, unit);
    MulUnits(unit);
    MulOrder(Ratio(magnitude, unit), 1.0, unit);
  }

  lemma Powers()
    ensures Power(-7) == 1.0 / 128.0 && Power(-10) == 1.0 / 1024.0 && Power(8) == 256.0 && Power(7) == 128.0
  {
    assert Power(-1) == 0.5 && Power(-2) == 0.25 && Power(-3) == 0.125 && Power(-4) == 0.0625;
    assert Power(-7) == Power(-6) / 2.0 == Power(-5) / 4.0 == Power(-4) / 8.0;
    assert Power(-10) == Power(-9) / 2.0 == Power(-8) / 4.0 == Power(-7) / 8.0;
    assert Power(1) == 2.0 && Power(2) == 4.0 && Power(3) == 8.0 && Power(4) == 16.0;
    assert Power(8) == 2.0 * Power(7) == 4.0 * Power(6) == 8.0 * Power(5) == 16.0 * Power(4);
  }

  /** The byte of an already scaled number. */
  function EncodeScaled(x: Number): (r: nat)
    requires x.Finite? ==> x.magnitude >= 0.0
  {
    match x
    case NaN => NAN_CODE
    case Infinite(negative) => Signed(negative, 0x7F)
    case Finite(negative, magnitude) =>
      if magnitude == 0.0 then 0
      else if magnitude >= 240.0 then Signed(negative, 0x7F)
      else
        var code := EncodeMagnitude(magnitude);
        if code == 0 then 0 else Signed(negative, code)
  }

  function Signed(negative: bool, code: nat): nat {
    if negative then 0x80 + code else code
  }

  function Encode(x: Number, scale: int): nat
    requires x.Finite? ==> x.magnitude >= 0.0
  {
    match x
    case Finite(negative, magnitude) =>
      ScaledSign(magnitude, -scale);
      EncodeScaled(Finite(negative, Mul(magnitude, Power(-scale))))
    case _ => EncodeScaled(x)
  }

  lemma ScaledSign(magnitude: real, e: int)
    requires magnitude >= 0.0
    ensures Mul(magnitude, Power(e)) >= 0.0
  {
  }

  // ---------------------------------------------------------------------------
  // Blocks of eight codes are evenly spaced
  // ---------------------------------------------------------------------------

  /** The distance between the numbers of one exponent. */
  function Step(e: nat): (r: real)
    ensures r > 0.0
  {
    if e == 0 then Power(-10) else Power(e - 11)
  }

  /** The least number of an exponent. */
  function Start(e: nat): real {
    if e == 0 then 0.0 else 8.0 * Step(e)
  }

  lemma StepIs(e: nat)
    requires e > 0
    ensures Power(e - 8) == 8.0 * Step(e)
  {
    PowerDoubles(e - 11);
    PowerDoubles(e - 10);
    PowerDoubles(e - 9);
  }

  /** The numbers of an exponent, up to the first of the next. */
  lemma BlockValue(e: nat, j: nat)
    requires e < 16 && j <= 8 && 8 * e + j < 128
    ensures Magnitude(8 * e + j) == Start(e) + Mul(j as real, Step(e))
  {
    hide Mul, Power;
    var code := 8 * e + j;
    MulUnits(Step(e));
    MulUnits(8.0 * Step(e + 1));
    if j < 8 {
      assert Exponent(code) == e && code % 8 == j;
      if e > 0 {
        StepIs(e);
        Regroup(j as real, Step(e));
      }
    } else {
      assert Exponent(code) == e + 1 && code % 8 == 0;
      StepIs(e + 1);
      if e > 0 {
        PowerDoubles(e - 11);
      }
    }
  }

  lemma Regroup(j: real, step: real)
    ensures Mul(1.0 + j / 8.0, 8.0 * step) == 8.0 * step + Mul(j, step)
  {
  }

  /** Larger codes have larger magnitudes. */
  lemma {:induction false} MagnitudeGrows(c: nat, d: nat)
    requires c < d < 128
    ensures Magnitude(c) < Magnitude(d)
    decreases d - c
  {
    hide Magnitude, Mul, Step, Start;
    var e, j := c / 8, c % 8;
    assert c == 8 * e + j && c + 1 == 8 * e + (j + 1);
    BlockValue(e, j);
    BlockValue(e, j + 1);
    MulOrder(j as real, (j + 1) as real, Step(e));
    if c + 1 < d {
      MagnitudeGrows(c + 1, d);
    }
  }

  function Distance(a: real, b: real): real {
    if a < b then b - a else a - b
  }

  lemma RoundIsNearest(x: real, j: int)
    requires x >= 0.0
    ensures Distance(x, RoundTiesEven(x) as real) <= Distance(x, j as real)
    ensures j != RoundTiesEven(x) && Distance(x, RoundTiesEven(x) as real) == Distance(x, j as real) ==> RoundTiesEven(x) % 2 == 0
  {
  }

  lemma RoundIsMonotone(x: real, y: real)
    requires 0.0 <= x <= y
    ensures RoundTiesEven(x) <= RoundTiesEven(y)
  {
  }

  lemma RoundStaysBelow(x: real, n: nat)
    requires 0.0 <= x <= n as real
    ensures RoundTiesEven(x) <= n
  {
  }

  /** The block of a magnitude, and its position there in steps. */
  ghost predicate InBlock(magnitude: real, e: nat, x: real) {
    && e < 16 && 0.0 <= x && magnitude == Start(e) + Mul(x, Step(e))
    && (if e == 15 then x < 7.0 else x < 8.0)
  }

  lemma QuotientPosition(magnitude: real, step: real)
    requires step > 0.0
    ensures var x := (Ratio(magnitude, 8.0 * step) - 1.0) * 8.0; magnitude == 8.0 * step + Mul(x, step)
  {
    var q := Ratio(magnitude, 8.0 * step);
    RatioMultiplies(magnitude, 8.0 * step);
    assert ((q - 1.0) * 8.0) * step == q * (8.0 * step) - 8.0 * step;
  }

  /** The encoder rounds the position of the magnitude in its block; the carry into the next
      exponent is the first code of the next block, and the exponent never exceeds 15. */
  lemma EncodesBlock(magnitude: real) returns (e: nat, x: real)
    requires 0.0 < magnitude < 240.0
    ensures InBlock(magnitude, e, x)
    ensures EncodeMagnitude(magnitude) == 8 * e + RoundTiesEven(x) < 128
  {
    hide Mul, Ratio, Power, RoundTiesEven;
    Powers();
    if magnitude < Power(-7) {
      e, x := 0, magnitude * 1024.0;
      TinyPosition(magnitude);
      RoundStaysBelow(x, 8);
    } else {
      var exponent := BinaryExponent(magnitude, 7);
      var unit := Power(exponent);
      UnitBelow(magnitude, unit);
      e, x := exponent + 8, (Ratio(magnitude, unit) - 1.0) * 8.0;
      StepIs(e);
      QuotientPosition(magnitude, Step(e));
      PowerDoubles(exponent);
      MulUnits(Step(e));
      MulOrder(x, 8.0, Step(e));
      RoundStaysBelow(x, 8);
      if e == 15 {
        MulOrder(x, 7.0, Step(e));
        RoundStaysBelow(x, 7);
      }
    }
  }

  lemma TinyPosition(magnitude: real)
    ensures Mul(magnitude * 1024.0, Power(-10)) == magnitude
  {
    Powers();
  }

  // ---------------------------------------------------------------------------
  // Nearest, ties to even
  // ---------------------------------------------------------------------------

  lemma ScaledDistance(a: real, b: real, start: real, step: real)
    requires step > 0.0
    ensures Distance(start + Mul(a, step), start + Mul(b, step)) == Mul(Distance(a, b), step)
  {
    hide Mul;
    MulOrder(a, b, step);
    MulAdds(b, a, step);
    MulAdds(a, b, step);
  }

  /** Within its block the encoder's choice is nearest. */
  lemma NearestInBlock(magnitude: real, e: nat, x: real, j: nat)
    requires InBlock(magnitude, e, x) && j <= 8 && 8 * e + j < 128 && 8 * e + RoundTiesEven(x) < 128
    ensures var k := 8 * e + RoundTiesEven(x);
      && Distance(magnitude, Magnitude(k)) <= Distance(magnitude, Magnitude(8 * e + j))
      && (Distance(magnitude, Magnitude(k)) == Distance(magnitude, Magnitude(8 * e + j)) && k != 8 * e + j ==> k % 2 == 0)
  {
    hide Magnitude, Mul, Step, Start, RoundTiesEven, Distance;
    var r := RoundTiesEven(x);
    RoundStaysBelow(x, 8);
    BlockValue(e, r);
    BlockValue(e, j);
    RoundIsNearest(x, j);
    ScaledDistance(x, r as real, Start(e), Step(e));
    ScaledDistance(x, j as real, Start(e), Step(e));
    MulOrder(Distance(x, r as real), Distance(x, j as real), Step(e));
  }

  /** No code is nearer than the one chosen, and of two equally near the even one is. */
  lemma EncodeIsNearest(magnitude: real, code: nat)
    requires 0.0 < magnitude < 240.0 && code < 128
    ensures EncodeMagnitude(magnitude) < 128
    ensures Distance(magnitude, Magnitude(EncodeMagnitude(magnitude))) <= Distance(magnitude, Magnitude(code))
    ensures code != EncodeMagnitude(magnitude)
            && Distance(magnitude, Magnitude(EncodeMagnitude(magnitude))) == Distance(magnitude, Magnitude(code))
            ==> EncodeMagnitude(magnitude) % 2 == 0
  {
    hide EncodeMagnitude, RoundTiesEven, Magnitude, InBlock;
    var e, x := EncodesBlock(magnitude);
    BlockBounds(magnitude, e, x);
    if code < 8 * e {
      MagnitudeGrows(code, 8 * e);
      NearestInBlock(magnitude, e, x, 0);
    } else if e < 15 && code > 8 * e + 8 {
      MagnitudeGrows(8 * e + 8, code);
      NearestInBlock(magnitude, e, x, 8);
    } else {
      NearestInBlock(magnitude, e, x, code - 8 * e);
    }
  }

  lemma BlockBounds(magnitude: real, e: nat, x: real)
    requires InBlock(magnitude, e, x)
    ensures Magnitude(8 * e) <= magnitude
    ensures e < 15 ==> magnitude < Magnitude(8 * e + 8)
    ensures e == 15 ==> magnitude < Magnitude(127)
    ensures e < 16
  {
    hide Magnitude, Mul, Step, Start;
    var last: nat := if e < 15 then 8 else 7;
    BlockValue(e, 0);
    BlockValue(e, last);
    MulUnits(Step(e));
    MulOrder(x, 0.0, Step(e));
    MulOrder(x, last as real, Step(e));
  }

  // ---------------------------------------------------------------------------
  // Monotone
  // ---------------------------------------------------------------------------

  /** Larger magnitudes get codes at least as large. */
  lemma EncodeIsMonotone(a: real, b: real)
    requires 0.0 < a <= b < 240.0
    ensures EncodeMagnitude(a) <= EncodeMagnitude(b)
  {
    hide EncodeMagnitude, RoundTiesEven, Magnitude, InBlock;
    var e, x := EncodesBlock(a);
    var f, y := EncodesBlock(b);
    BlockBounds(a, e, x);
    BlockBounds(b, f, y);
    if f < e {
      if 8 * f + 8 < 8 * e {
        MagnitudeGrows(8 * f + 8, 8 * e);
      }
    } else if e == f {
      SameBlockOrder(a, b, e, x, y);
      RoundIsMonotone(x, y);
    } else {
      BlockPosition(a, e, x);
      RoundStaysBelow(x, 8);
    }
  }

  lemma BlockPosition(magnitude: real, e: nat, x: real)
    requires InBlock(magnitude, e, x)
    ensures 0.0 <= x < 8.0
  {
  }

  lemma SameBlockOrder(a: real, b: real, e: nat, x: real, y: real)
    requires InBlock(a, e, x) && InBlock(b, e, y) && a <= b
    ensures 0.0 <= x <= y
  {
    hide Mul, Step, Start;
    MulOrder(y, x, Step(e));
  }

  /** The order of two numbers, smallest first; zero has one sign. */
  ghost function SignedValue(x: Number): real
    requires x.Finite?
  {
    if x.negative then -x.magnitude else x.magnitude
  }

  /** A byte as a signed code; negative bytes count downward. */
  function Rank(bits: nat): int {
    if bits >= 0x80 then 0x80 - bits else bits
  }

  lemma RankOf(x: Number)
    requires x.Finite? && x.magnitude >= 0.0
    ensures Rank(EncodeScaled(x)) == (if x.negative then -1 else 1)
              * (if x.magnitude == 0.0 then 0 else if x.magnitude >= 240.0 then 0x7F else EncodeMagnitude(x.magnitude))
  {
    hide EncodeMagnitude;
    if 0.0 < x.magnitude < 240.0 {
      EncodeIsNearest(x.magnitude, 0);
    }
  }

  /** Encoding keeps the order of all numbers, across signs and into saturation. */
  lemma EncodeKeepsOrder(x: Number, y: Number)
    requires x.Finite? && y.Finite? && x.magnitude >= 0.0 && y.magnitude >= 0.0
    requires SignedValue(x) <= SignedValue(y)
    ensures Rank(EncodeScaled(x)) <= Rank(EncodeScaled(y))
  {
    hide EncodeMagnitude, EncodeScaled;
    RankOf(x);
    RankOf(y);
    if 0.0 < x.magnitude < 240.0 {
      EncodeIsNearest(x.magnitude, 0);
    }
    if 0.0 < y.magnitude < 240.0 {
      EncodeIsNearest(y.magnitude, 0);
    }
    if 0.0 < x.magnitude < 240.0 && 0.0 < y.magnitude < 240.0 {
      if x.magnitude <= y.magnitude {
        EncodeIsMonotone(x.magnitude, y.magnitude);
      } else {
        EncodeIsMonotone(y.magnitude, x.magnitude);
      }
    }
  }

  // ---------------------------------------------------------------------------
  // Special codes and round trip
  // ---------------------------------------------------------------------------

  /** The largest magnitude is 240, which everything from there on saturates to. */
  lemma Saturates(negative: bool, magnitude: real)
    requires magnitude >= 240.0
    ensures Magnitude(0x7F) == 240.0
    ensures EncodeScaled(Finite(negative, magnitude)) == EncodeScaled(Infinite(negative)) == Signed(negative, 0x7F)
  {
    Powers();
    assert Exponent(127) == 15 && 127 % 8 == 7;
  }

  /** Only NaN is encoded as NaN, so no number becomes a negative zero. */
  lemma OnlyNaNIsNaN(x: Number)
    requires x.Finite? ==> x.magnitude >= 0.0
    ensures EncodeScaled(x) < 256
    ensures EncodeScaled(x) == NAN_CODE <==> x == NaN
  {
    hide EncodeMagnitude;
    if x.Finite? && 0.0 < x.magnitude < 240.0 {
      EncodeIsNearest(x.magnitude, 0);
    }
  }

  lemma MagnitudeZeroIff(code: nat)
    requires code < 128
    ensures Magnitude(code) >= 0.0 && (Magnitude(code) == 0.0 <==> code == 0)
    ensures Magnitude(code) >= 240.0 <==> code == 127
  {
    hide Magnitude;
    BlockValue(0, 0);
    Saturates(false, 240.0);
    if code > 0 {
      MagnitudeGrows(0, code);
    }
    if code < 127 {
      MagnitudeGrows(code, 127);
    }
  }

  /** Encoding a magnitude of the format gives its code back. */
  lemma EncodeInvertsMagnitude(code: nat)
    requires 0 < code < 127
    ensures 0.0 < Magnitude(code) < 240.0 && EncodeMagnitude(Magnitude(code)) == code
  {
    hide EncodeMagnitude, Magnitude;
    MagnitudeZeroIff(code);
    var value := Magnitude(code);
    EncodeIsNearest(value, code);
    var k := EncodeMagnitude(value);
    if k < code {
      MagnitudeGrows(k, code);
    } else if code < k {
      MagnitudeGrows(code, k);
    }
  }

  lemma {:induction false} PowersCancel(e: int)
    ensures Mul(Power(e), Power(-e)) == 1.0
    decreases if e < 0 then -e else e
  {
    hide Mul, Power;
    if e > 0 {
      PowersCancel(e - 1);
      PowerDoubles(e - 1);
      PowerDoubles(-e);
      DoubleHalve(Power(e - 1), Power(-e));
    } else if e < 0 {
      PowersCancel(e + 1);
      PowerDoubles(e);
      PowerDoubles(-e - 1);
      DoubleHalve(Power(-e - 1), Power(e));
      MulCommutes(Power(e), Power(-e));
      MulCommutes(Power(e + 1), Power(-e - 1));
    } else {
      PowerOfZero();
      MulUnits(1.0);
    }
  }

  lemma DoubleHalve(a: real, b: real)
    ensures Mul(2.0 * a, b) == Mul(a, 2.0 * b)
  {
  }

  lemma MulCommutes(a: real, b: real)
    ensures Mul(a, b) == Mul(b, a)
  {
  }

  lemma PowerOfZero()
    ensures Power(0) == 1.0
  {
  }

  lemma MulUndone(a: real, b: real, c: real)
    requires Mul(b, c) == 1.0
    ensures Mul(Mul(a, b), c) == a
  {
    assert a * b * c == a * (b * c);
  }

  /** Every byte but NaN decodes to a number that encodes to it again, at every scale. */
  lemma EncodeInvertsDecode(bits: nat, scale: int)
    requires bits < 256
    ensures Decode(bits, scale).Finite? ==> Decode(bits, scale).magnitude >= 0.0
    ensures Encode(Decode(bits, scale), scale) == bits
  {
    hide EncodeMagnitude, Magnitude, Mul, Power;
    if bits != NAN_CODE {
      var code := bits % 0x80;
      var value := Magnitude(code);
      MagnitudeZeroIff(code);
      ScaledSign(value, scale);
      PowersCancel(scale);
      MulUndone(value, Power(scale), Power(-scale));
      if 0 < code < 127 {
        EncodeInvertsMagnitude(code);
      }
    }
  }

  // ---------------------------------------------------------------------------
  // The numbers of the format
  // ---------------------------------------------------------------------------

  lemma Commutes(a: real, b: real)
    ensures Mul(2.0 * a, b) == Mul(a, 2.0 * b) == 2.0 * Mul(a, b)
  {
  }

  lemma BlockDoubles(code: nat)
    requires 16 <= code < 128
    ensures Magnitude(code) == 2.0 * Magnitude(code - 8)
  {
    hide Mul, Power;
    var e, j := code / 8, code % 8;
    assert Exponent(code) == e && Exponent(code - 8) == e - 1 && (code - 8) % 8 == j;
    PowerDoubles(e - 9);
    Commutes(1.0 + j as real / 8.0, Power(e - 9));
  }

  lemma LeastAre(code: nat)
    requires code < 16
    ensures Magnitude(code) == code as real / 1024.0
  {
    Powers();
  }

  /** At scale 0 the bytes below 16 count in steps of 1/1024, and every eight codes on, values double;
      bytes from 0x81 on are negative, and 0x80 is no number. */
  lemma DecodesTo(bits: nat)
    requires bits < 256
    ensures Decode(bits, 0).NaN? <==> bits == 0x80
    ensures bits < 16 ==> Decode(bits, 0) == Finite(false, bits as real / 1024.0)
    ensures 16 <= bits < 128 ==> Decode(bits, 0) == Finite(false, 2.0 * Decode(bits - 8, 0).magnitude)
    ensures bits > 0x80 ==> Decode(bits, 0) == Finite(true, Decode(bits - 0x80, 0).magnitude)
  {
    hide Magnitude;
    assert Power(0) == 1.0;
    if bits < 16 {
      LeastAre(bits);
    } else if bits < 128 {
      BlockDoubles(bits);
    }
  }

  /** One more in the scale doubles every value. */
  lemma ScaleDoubles(bits: nat, scale: int)
    requires bits < 256 && bits != 0x80
    ensures Decode(bits, scale).Finite?
    ensures Decode(bits, scale + 1) == Finite(Decode(bits, scale).negative, 2.0 * Decode(bits, scale).magnitude)
  {
    hide Mul, Power, Magnitude;
    PowerDoubles(scale);
    Commutes(Magnitude(bits % 0x80), Power(scale));
  }

  /** Twice the value has the same code at one more in the scale. */
  lemma EncodeScales(negative: bool, magnitude: real, scale: int)
    requires magnitude >= 0.0
    ensures Encode(Finite(negative, 2.0 * magnitude), scale + 1) == Encode(Finite(negative, magnitude), scale)
  {
    hide Mul, Power, EncodeMagnitude;
    PowerDoubles(-scale - 1);
    Commutes(magnitude, Power(-scale - 1));
  }
}
