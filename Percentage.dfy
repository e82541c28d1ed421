/** The statistic shown for each census tract: the share of its population
    that lived in the same house a year earlier, and the style derived from it. */
module Percentage {
  import opened Numbers
  import opened Classifier

  /** A tract's property bag, reduced to the three fields the script reads:
      ACS_13_5YR_B07201_HD01_VD02 (same house a year ago), _HD01_VD01 (total
      population) and _GEOdisplay_label (the tract's name). */
  datatype Feature = Feature(sameHouse: int, total: int, name: string)

  /** What calculatePercentage returns. */
  datatype Statistic = Statistic(numerator: int, denominator: int, percentage: Num)

  /** calculatePercentage: echoes the two counts and gives `numerator /
      denominator * 100` rounded to a whole number. A zero denominator is not
      guarded: the division gives Infinity, -Infinity or NaN. */
  function CalculatePercentage(f: Feature): (r: Statistic)
    ensures r.numerator == f.sameHouse && r.denominator == f.total
    ensures f.total != 0 ==> r.percentage.Finite? &&
                               2 * Abs(100 * f.sameHouse - r.percentage.value * f.total) <= Abs(f.total)
    ensures f.total == 0 ==> !r.percentage.Finite?
  {
    var p :=
      if f.total != 0 then Finite(RoundRatio(100 * f.sameHouse, f.total))
      else if f.sameHouse > 0 then PosInf
      else if f.sameHouse < 0 then NegInf
      else NaN;
    Statistic(f.sameHouse, f.total, p)
  }

  /** An exact half rounds up (toFixed rounds half away from zero). */
  lemma {:induction false} PercentageTiesRoundUp(f: Feature)
    requires f.total > 0 && f.sameHouse >= 0
    requires 2 * Abs(100 * f.sameHouse - CalculatePercentage(f).percentage.value * f.total) == f.total
    ensures CalculatePercentage(f).percentage.value * f.total > 100 * f.sameHouse
  {
    var k := CalculatePercentage(f).percentage.value;
    assert k >= 0;
    assert Abs(k * f.total) == k * f.total;
  }

  /** A part of a positive whole is between 0% and 100%. */
  lemma PercentageBounded(f: Feature)
    requires 0 <= f.sameHouse <= f.total && f.total > 0
    ensures CalculatePercentage(f).percentage.Finite?
    ensures 0 <= CalculatePercentage(f).percentage.value <= 100
  {
    var k := CalculatePercentage(f).percentage.value;
    var a, b := 100 * f.sameHouse, f.total;
    assert 0 <= a <= 100 * b;
    RoundedWithin(a, b, k, 100);
  }

  /** A ratio between 0 and `hi` rounds to a whole number between 0 and `hi`. */
  lemma RoundedWithin(a: int, b: int, k: int, hi: nat)
    requires b > 0 && 0 <= a <= hi * b && 2 * Abs(a - k * b) <= b
    ensures 0 <= k <= hi
  {
    if k > hi {
      MulMonotone(hi + 1, k, b);
      assert false;
    }
    if k < 0 {
      MulMonotone(k, -1, b);
      assert false;
    }
  }

  lemma MulMonotone(x: int, y: int, b: int)
    requires x <= y && b > 0
    ensures x * b <= y * b
  {
  }

  /** Worked values: 1 of 4 is 25%, 950 of 1000 is 95%, 1 of 0 is Infinity,
      0 of 0 is NaN. */
  lemma PercentageExamples()
    ensures CalculatePercentage(Feature(1, 4, "")).percentage == Finite(25)
    ensures CalculatePercentage(Feature(950, 1000, "")).percentage == Finite(95)
    ensures CalculatePercentage(Feature(1, 0, "")).percentage == PosInf
    ensures CalculatePercentage(Feature(0, 0, "")).percentage == NaN
  {
  }

  /** The style acsStyle gives a tract's shape. */
  datatype Style = Style(weight: int, opacity: real, color: string, fillOpacity: real, fillColor: string)

  /** acsStyle: a fixed grey outline, and the fill the classifier gives the
      tract's percentage. */
  function AcsStyle(f: Feature): (s: Style)
    ensures s.weight == 1 && s.opacity == 0.25 && s.color == "grey"
    ensures s.fillColor == Palette[Bucket(CalculatePercentage(f).percentage)]
    ensures s.fillOpacity == (if f.total != 0 && 200 * Abs(f.sameHouse) < Abs(f.total) then TransparentOpacity
                              else ShapeOpacity)
  {
    var d := CalculatePercentage(f).percentage;
    FillColorIsBucket(d);
    ZeroPercentIffSmallShare(f);
    Style(1, 0.25, "grey", FillOpacity(d), FillColorPercentage(d))
  }

  /** The rounded percentage is 0 exactly when the count is under half a
      percent of the total (half a percent itself rounds up to 1%). */
  lemma ZeroPercentIffSmallShare(f: Feature)
    ensures CalculatePercentage(f).percentage == Finite(0) <==> f.total != 0 && 200 * Abs(f.sameHouse) < Abs(f.total)
  {
    if f.total == 0 {
      return;
    }
    var a, b := 100 * f.sameHouse, f.total;
    var k := RoundRatio(a, b);
    assert CalculatePercentage(f).percentage == Finite(k);
    RoundedZeroIff(a, b, k);
    assert Abs(a) == 100 * Abs(f.sameHouse);
  }

  /** A nearest-whole rounding, ties away from zero, is 0 exactly when the
      ratio's magnitude is under one half. */
  lemma RoundedZeroIff(a: int, b: int, k: int)
    requires b != 0 && 2 * Abs(a - k * b) <= Abs(b)
    requires 2 * Abs(a - k * b) == Abs(b) ==> Abs(k * b) > Abs(a)
    ensures k == 0 <==> 2 * Abs(a) < Abs(b)
  {
    if k != 0 {
      AbsProductAtLeast(k, b);
    }
  }

  lemma AbsProductAtLeast(k: int, b: int)
    requires k != 0
    ensures Abs(k * b) >= Abs(b)
  {
    if k > 0 {
      if b >= 0 { assert k * b >= b; } else { assert k * b <= b; }
    } else {
      if b >= 0 { assert k * b <= -b; } else { assert k * b >= -b; }
    }
  }
}
