/**
  The BMI engine and the category table: `weight / (height/100)^2`,
  rounded to one decimal, and `getCategory`'s four bands with cut points
  18.5, 25 and 30, evaluated first match wins.
*/
module Bmi {
  import opened NumberText

  /** Body Mass Index from kilograms and centimetres: weight over squared
      height in metres, so multiplying back by the squared height recovers
      the weight. */
  function BmiOf(weightKg: real, heightCm: real): (r: real)
    requires heightCm > 0.0
    ensures r * ((heightCm / 100.0) * (heightCm / 100.0)) == weightKg
  {
    var heightM := heightCm / 100.0;
    QuotientBySquareTimesSquare(weightKg, heightM);
    weightKg / (heightM * heightM)
  }

  lemma QuotientBySquarePositive(w: real, m: real)
    requires w > 0.0 && m > 0.0
    ensures w / (m * m) > 0.0
  {
  }

  lemma QuotientBySquareTimesSquare(w: real, m: real)
    requires m > 0.0
    ensures (w / (m * m)) * (m * m) == w
  {
  }

  lemma QuotientBySquareMonotone(w1: real, w2: real, m: real)
    requires w1 <= w2 && m > 0.0
    ensures w1 / (m * m) <= w2 / (m * m)
  {
  }

  /** A valid measurement has a positive BMI. */
  lemma BmiPositive(weightKg: real, heightCm: real)
    requires weightKg > 0.0 && heightCm > 0.0
    ensures BmiOf(weightKg, heightCm) > 0.0
  {
    QuotientBySquarePositive(weightKg, heightCm / 100.0);
  }

  /** More weight at the same height never lowers the BMI. */
  lemma BmiGrowsWithWeight(w1: real, w2: real, heightCm: real)
    requires w1 <= w2 && heightCm > 0.0
    ensures BmiOf(w1, heightCm) <= BmiOf(w2, heightCm)
  {
    QuotientBySquareMonotone(w1, w2, heightCm / 100.0);
  }

  /** `Number(bmi.toFixed(1))`, the value that is classified and shown. */
  function RoundedBmi(weightKg: real, heightCm: real): (r: real)
    requires weightKg > 0.0 && heightCm > 0.0
    ensures r >= 0.0
  {
    BmiPositive(weightKg, heightCm);
    RoundTenth(BmiOf(weightKg, heightCm))
  }

  /** The four categories, in increasing band order. */
  datatype Category = Underweight | NormalWeight | Overweight | Obese {

    /** Position in the table, 0 for the lowest band. */
    function Band(): nat {
      match this
      case Underweight => 0
      case NormalWeight => 1
      case Overweight => 2
      case Obese => 3
    }

    function Label(): string {
      match this
      case Underweight => "Underweight"
      case NormalWeight => "Normal weight"
      case Overweight => "Overweight"
      case Obese => "Obese"
    }

    function Advice(): string {
      match this
      case Underweight =>
        "BMI below healthy range. Consider discussing nutrition and weight gain with a professional."
      case NormalWeight =>
        "BMI is in the healthy range. Continue balanced diet and regular physical activity."
      case Overweight =>
        "BMI above healthy range. Adjusting diet and increasing activity may help."
      case Obese =>
        "BMI in obese range. Consider a structured weight management plan with a healthcare professional."
    }
  }

  /** The cut points between consecutive bands. */
  const Cuts: seq<real> := [18.5, 25.0, 30.0]

  /** `getCategory`: the if/else chain over the thresholds. */
  function Classify(bmi: real): (c: Category)
    ensures InBand(c, bmi)
  {
    if bmi < 18.5 then Underweight
    else if bmi < 25.0 then NormalWeight
    else if bmi < 30.0 then Overweight
    else Obese
  }

  /** The band table read as half-open intervals: a band starts at the cut
      below it (inclusive) and ends at the cut above it (exclusive). */
  predicate InBand(c: Category, bmi: real) {
    && (c.Band() == 0 || Cuts[c.Band() - 1] <= bmi)
    && (c.Band() == 3 || bmi < Cuts[c.Band()])
  }

  /** The classifier picks a category exactly when the value lies in its
      band: the bands cover the reals and do not overlap. */
  lemma ClassifyIsBand(bmi: real, c: Category)
    ensures Classify(bmi) == c <==> InBand(c, bmi)
  {
  }

  /** A larger value never falls in a lower band. */
  lemma ClassifyMonotone(x: real, y: real)
    requires x <= y
    ensures Classify(x).Band() <= Classify(y).Band()
  {
  }

  /** Each cut point belongs to the band above it. */
  lemma CutsGoToHigherBand(i: nat)
    requires i < |Cuts|
    ensures Classify(Cuts[i]).Band() == i + 1
  {
  }

  /** Different categories show different labels. */
  lemma LabelsDistinct(c: Category, d: Category)
    requires c != d
    ensures c.Label() != d.Label()
  {
  }

  /** Classifying the rounded value can only differ from classifying the
      raw value just below a cut point, where rounding up crosses it. */
  lemma RoundingChangesCategoryOnlyBelowCut(x: real)
    requires x >= 0.0
    requires Classify(RoundTenth(x)) != Classify(x)
    ensures exists i :: 0 <= i < |Cuts| && Cuts[i] - 0.05 <= x < Cuts[i]
  {
    var r := RoundTenth(x);
    var n := (10.0 * x + 0.5).Floor;
    assert r == n as real / 10.0;
    if x < 18.5 {
      assert 18.5 <= r;
      assert n >= 185;
      assert Cuts[0] - 0.05 <= x;
    } else if x < 25.0 {
      assert 25.0 <= r || r < 18.5;
      assert n >= 250 || n < 185;
      assert Cuts[1] - 0.05 <= x;
    } else if x < 30.0 {
      assert 30.0 <= r || r < 25.0;
      assert n >= 300 || n < 250;
      assert Cuts[2] - 0.05 <= x;
    } else {
      assert false;
    }
  }

  /** A raw value of 18.46 is Underweight, but it is shown and classified
      as 18.5, Normal weight. */
  lemma RoundingCanRaiseCategory()
    ensures Classify(18.46) == Underweight
    ensures RoundTenth(18.46) == 18.5 && Classify(RoundTenth(18.46)) == NormalWeight
  {
    assert (10.0 * 18.46 + 0.5).Floor == 185;
  }

  /** 70 kg at 170 cm: BMI 24.2, Normal weight. */
  lemma Scenario70At170()
    ensures RoundedBmi(70.0, 170.0) == 24.2
    ensures Classify(RoundedBmi(70.0, 170.0)) == NormalWeight
  {
    assert BmiOf(70.0, 170.0) == 70.0 / 2.89;
    assert (10.0 * (70.0 / 2.89) + 0.5).Floor == 242;
  }

  /** 45 kg at 170 cm: BMI 15.6, Underweight. */
  lemma Scenario45At170()
    ensures RoundedBmi(45.0, 170.0) == 15.6
    ensures Classify(RoundedBmi(45.0, 170.0)) == Underweight
  {
    assert BmiOf(45.0, 170.0) == 45.0 / 2.89;
    assert (10.0 * (45.0 / 2.89) + 0.5).Floor == 156;
  }

  /** 95 kg at 170 cm: BMI 32.9, Obese. */
  lemma Scenario95At170()
    ensures RoundedBmi(95.0, 170.0) == 32.9
    ensures Classify(RoundedBmi(95.0, 170.0)) == Obese
  {
    assert BmiOf(95.0, 170.0) == 95.0 / 2.89;
    assert (10.0 * (95.0 / 2.89) + 0.5).Floor == 329;
  }
}
