/**
 * The body-mass-index size estimate (calculateSize), used whenever a record
 * carries no size of its own or no record was chosen.
 */
module Sizing {
  import opened RealArith

  /** The garment sizes, in increasing order. */
  datatype Size = S | M | L | XL | XXL

  /** Position of a size in the order S < M < L < XL < XXL. */
  function Rank(z: Size): nat {
    match z
    case S => 0
    case M => 1
    case L => 2
    case XL => 3
    case XXL => 4
  }

  function SizeName(z: Size): string {
    match z
    case S => "S"
    case M => "M"
    case L => "L"
    case XL => "XL"
    case XXL => "XXL"
  }

  /** The upper band limits: a BMI below Thresholds[i] and at or above the earlier ones is the i-th size. */
  const Thresholds: seq<real> := [18.5, 24.9, 29.9, 34.9]

  /** weight / (height / 100)^2, for a non-zero height. */
  function Bmi(height: real, weight: real): real
    requires height != 0.0
  {
    SquarePositive(height / 100.0);
    weight / Square(height / 100.0)
  }

  /** The banding of a BMI value, first band whose upper limit it is below. */
  function SizeForBmi(bmi: real): Size {
    if bmi < 18.5 then S
    else if bmi < 24.9 then M
    else if bmi < 29.9 then L
    else if bmi < 34.9 then XL
    else XXL
  }

  /**
   * calculateSize. The source divides by the squared height in IEEE
   * arithmetic; for a zero height the quotient is +Infinity or NaN (every
   * band test false, so 'XXL') unless the weight is negative (-Infinity, 'S').
   */
  function CalculateSize(height: real, weight: real): (z: Size)
    ensures height != 0.0 ==> Rank(z) == LimitsReached(Bmi(height, weight), Thresholds)
    ensures height == 0.0 ==> (z == S <==> weight < 0.0) && (z == S || z == XXL)
  {
    if height == 0.0 then (if weight < 0.0 then S else XXL)
    else
      SizeForBmiCountsLimits(Bmi(height, weight));
      SizeForBmi(Bmi(height, weight))
  }

  /** Number of band limits at or below a BMI value, an independent reading of the table. */
  function LimitsReached(bmi: real, limits: seq<real>): nat {
    if |limits| == 0 then 0
    else (if limits[0] <= bmi then 1 else 0) + LimitsReached(bmi, limits[1..])
  }

  /** The band of a BMI is the number of band limits it has reached. */
  lemma SizeForBmiCountsLimits(bmi: real)
    ensures Rank(SizeForBmi(bmi)) == LimitsReached(bmi, Thresholds)
  {
    var t := Thresholds;
    assert t[1..] == [24.9, 29.9, 34.9];
    assert t[1..][1..] == [29.9, 34.9];
    assert t[1..][1..][1..] == [34.9];
    assert t[1..][1..][1..][1..] == [];
    assert LimitsReached(bmi, t[1..][1..][1..]) == (if 34.9 <= bmi then 1 else 0);
    assert LimitsReached(bmi, t[1..][1..]) == (if 29.9 <= bmi then 1 else 0) + LimitsReached(bmi, t[1..][1..][1..]);
    assert LimitsReached(bmi, t[1..]) == (if 24.9 <= bmi then 1 else 0) + LimitsReached(bmi, t[1..][1..]);
    assert LimitsReached(bmi, t) == (if 18.5 <= bmi then 1 else 0) + LimitsReached(bmi, t[1..]);
  }

  /** The band boundaries: each limit itself belongs to the band above it. */
  lemma SizeForBmiBoundaries()
    ensures SizeForBmi(18.49) == S && SizeForBmi(18.5) == M
    ensures SizeForBmi(24.9) == L && SizeForBmi(29.9) == XL && SizeForBmi(34.9) == XXL
    ensures forall bmi :: bmi >= 34.9 ==> SizeForBmi(bmi) == XXL
    ensures forall bmi :: bmi < 18.5 ==> SizeForBmi(bmi) == S
  {
  }

  /** The size never decreases as the BMI grows. */
  lemma SizeForBmiMonotone(a: real, b: real)
    requires a <= b
    ensures Rank(SizeForBmi(a)) <= Rank(SizeForBmi(b))
  {
  }

  /** For a fixed non-zero height, a heavier body never gets a smaller size. */
  lemma CalculateSizeMonotoneInWeight(height: real, w1: real, w2: real)
    requires height != 0.0
    requires w1 <= w2
    ensures Rank(CalculateSize(height, w1)) <= Rank(CalculateSize(height, w2))
  {
    SquarePositive(height / 100.0);
    DivideMonotone(w1, w2, Square(height / 100.0));
    SizeForBmiMonotone(Bmi(height, w1), Bmi(height, w2));
  }

  /** The worked values: BMI 17, 20, 27, 32, 40 give S, M, L, XL, XXL. */
  lemma CalculateSizeExamples()
    ensures CalculateSize(100.0, 17.0) == S
    ensures CalculateSize(100.0, 20.0) == M
    ensures CalculateSize(100.0, 27.0) == L
    ensures CalculateSize(100.0, 32.0) == XL
    ensures CalculateSize(100.0, 40.0) == XXL
    ensures CalculateSize(165.0, 60.0) == M
  {
    assert Square(1.65) == 2.7225;
  }
}
