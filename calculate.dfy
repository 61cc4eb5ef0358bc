/**
 * Calculate turns a student's total score into a percentage of the maximum
 * and a Dutch grade on the 1-10 scale: 1.0 up to 20 %, rising linearly to the
 * pass mark 5.5 at 70 %, and on to 10.0 at 100 %, rounded to one decimal.
 * A grade of 5.5 or more passes.
 */
module Calculate {
  import opened Wrappers
  import opened PhpMath
  import opened Values

  const MIN_GRADE: real := 1.0
  const MAX_GRADE: real := 10.0
  const PASS_THRESHOLD: real := 70.0
  const PASS_GRADE: real := 5.5
  const MIN_THRESHOLD: real := 20.0

  /** The percentage from which the rounded grade reaches the pass mark: 69 4/9 %. */
  const PASS_PERCENTAGE: real := 625.0 / 9.0

  // ---------------------------------------------------------------- percentage to grade

  /** percentageToGrade before its final rounding. */
  function RawGrade(percentage: real): real {
    if percentage <= MIN_THRESHOLD then
      MIN_GRADE
    else if percentage < PASS_THRESHOLD then
      MIN_GRADE + ((percentage - MIN_THRESHOLD) / (PASS_THRESHOLD - MIN_THRESHOLD)) * (PASS_GRADE - MIN_GRADE)
    else
      PASS_GRADE + ((percentage - PASS_THRESHOLD) / (100.0 - PASS_THRESHOLD)) * (MAX_GRADE - PASS_GRADE)
  }

  /** percentageToGrade: the piecewise-linear grade, rounded to one decimal. */
  function PercentageToGrade(percentage: real): real {
    Round(RawGrade(percentage), 1)
  }

  /** A higher percentage never gives a lower grade, before or after rounding. */
  lemma RawGradeMonotone(p: real, q: real)
    requires p <= q
    ensures RawGrade(p) <= RawGrade(q)
  {
  }

  lemma PercentageToGradeMonotone(p: real, q: real)
    requires p <= q
    ensures PercentageToGrade(p) <= PercentageToGrade(q)
  {
    RawGradeMonotone(p, q);
    RoundMonotone(RawGrade(p), RawGrade(q), 1);
  }

  /** The raw grade climbs 0.09 per percent up to 70 % and 0.15 per percent above. */
  lemma RawGradeSlope(p: real, q: real)
    requires p <= q
    ensures RawGrade(q) - RawGrade(p) <= (q - p) * 0.15
  {
  }

  /** A value with at most one decimal is its own rounding to one decimal. */
  lemma RoundOneKeeps(x: real, k: int)
    requires x * 10.0 == k as real
    ensures Round(x, 1) == x
  {
    assert Scale(1) == 10.0;
    IntegralOfInt(x * Scale(1), k);
    RoundKeepsDecimals(x, 1);
  }

  /** For x >= 0, round(x, 1) reaches k/10 exactly when 10x + 0.5 reaches k. */
  lemma RoundOneAtLeast(x: real, k: int)
    requires x >= 0.0
    ensures Round(x, 1) >= k as real / 10.0 <==> x * 10.0 + 0.5 >= k as real
  {
    assert Scale(1) == 10.0;
    var units := RoundNonNegativeUnits(x, Scale(1));
    assert Round(x, 1) * 10.0 == units as real;
    assert Round(x, 1) >= k as real / 10.0 <==> units >= k by {
      ScaleOrder(k as real / 10.0, Round(x, 1), 10.0);
    }
  }

  /** The grade at the three thresholds: 1.0 at 20 %, 5.5 at 70 %, 10.0 at 100 %. */
  lemma GradeAtThresholds()
    ensures PercentageToGrade(MIN_THRESHOLD) == MIN_GRADE
    ensures PercentageToGrade(PASS_THRESHOLD) == PASS_GRADE
    ensures PercentageToGrade(100.0) == MAX_GRADE
  {
    RoundOneKeeps(MIN_GRADE, 10);
    RoundOneKeeps(PASS_GRADE, 55);
    RoundOneKeeps(MAX_GRADE, 100);
  }

  /** Up to 20 % the grade is exactly the minimum. */
  lemma GradeFloor(p: real)
    requires p <= MIN_THRESHOLD
    ensures PercentageToGrade(p) == MIN_GRADE
  {
    RoundOneKeeps(MIN_GRADE, 10);
  }

  /** The rounding boundary of the pass mark: a raw 5.449 rounds to 5.4 and fails, a raw 5.45 rounds to 5.5 and passes. */
  lemma PassBoundaryRounding()
    ensures Round(5.449, 1) == 5.4 && Round(5.449, 1) < PASS_GRADE
    ensures Round(5.45, 1) == PASS_GRADE
  {
    assert Scale(1) == 10.0;
    var low := RoundNonNegativeUnits(5.449, Scale(1));
    assert low == 54;
    var high := RoundNonNegativeUnits(5.45, Scale(1));
    assert high == 55;
  }

  /** Every percentage, negative ones included, gives at least the minimum grade. */
  lemma GradeAtLeastMinimum(p: real)
    ensures PercentageToGrade(p) >= MIN_GRADE
  {
    RoundMonotone(MIN_GRADE, RawGrade(p), 1);
    RoundOneKeeps(MIN_GRADE, 10);
  }

  /** A percentage of at most 100 gives at most the maximum grade. */
  lemma GradeAtMostMaximum(p: real)
    requires p <= 100.0
    ensures PercentageToGrade(p) <= MAX_GRADE
  {
    RoundMonotone(RawGrade(p), MAX_GRADE, 1);
    RoundOneKeeps(MAX_GRADE, 100);
  }

  /** There is no upper clamp: above 100 % the raw grade passes 10. */
  lemma GradeAboveMaximum(p: real)
    requires p > 100.0
    ensures RawGrade(p) > MAX_GRADE
    ensures PercentageToGrade(p) >= MAX_GRADE
  {
    RoundMonotone(MAX_GRADE, RawGrade(p), 1);
    RoundOneKeeps(MAX_GRADE, 100);
  }

  /** Twice the maximum score grades 25.0. */
  lemma GradeAtDoubleMaximum()
    ensures PercentageToGrade(200.0) == 25.0
  {
    RoundOneKeeps(25.0, 250);
  }

  /** Every grade has at most one decimal. */
  lemma GradeHasOneDecimal(p: real)
    ensures HasDecimals(PercentageToGrade(p), 1)
  {
    RoundHasDecimals(RawGrade(p), 1);
  }

  /**
   * The rounded grade reaches the pass mark exactly from 69 4/9 % on: rounding
   * lifts raw grades from 5.45 up to 5.5, so a little under 70 % already passes.
   */
  lemma PassesFromPassPercentage(p: real)
    ensures PercentageToGrade(p) >= PASS_GRADE <==> p >= PASS_PERCENTAGE
  {
    if p <= MIN_THRESHOLD {
      RoundOneKeeps(MIN_GRADE, 10);
    } else if p < PASS_THRESHOLD {
      RoundOneAtLeast(RawGrade(p), 55);
    } else {
      RoundMonotone(PASS_GRADE, RawGrade(p), 1);
      RoundOneKeeps(PASS_GRADE, 55);
    }
  }

  // ---------------------------------------------------------------- score to grade

  datatype GradeError = MaxScoreNotPositive

  /** The score a grade is computed from: a negative total counts as 0. */
  function ClampedScore(score: real): (r: real)
    ensures r >= 0.0
    ensures score >= 0.0 ==> r == score
    ensures score < 0.0 ==> r == 0.0
  {
    if score < 0.0 then 0.0 else score
  }

  /** calculateGrade: a non-positive maximum is rejected; otherwise grade the percentage. */
  function CalculateGrade(score: real, maxScore: real): (r: Result<real, GradeError>)
    ensures r.Failure? <==> maxScore <= 0.0
  {
    if maxScore <= 0.0 then Failure(MaxScoreNotPositive)
    else Success(PercentageToGrade((ClampedScore(score) / maxScore) * 100.0))
  }

  /** A score between 0 and the maximum gets a grade between 1.0 and 10.0. */
  lemma CalculateGradeRange(score: real, maxScore: real)
    requires maxScore > 0.0 && score <= maxScore
    ensures CalculateGrade(score, maxScore).Success?
    ensures MIN_GRADE <= CalculateGrade(score, maxScore).value <= MAX_GRADE
  {
    var p := (ClampedScore(score) / maxScore) * 100.0;
    assert ClampedScore(score) / maxScore <= 1.0 by {
      ScaleOrder(ClampedScore(score) / maxScore, 1.0, maxScore);
    }
    GradeAtLeastMinimum(p);
    GradeAtMostMaximum(p);
  }

  /** Every negative score is graded as a score of 0, i.e. 1.0. */
  lemma NegativeScoreGradedAsZero(score: real, maxScore: real)
    requires maxScore > 0.0 && score < 0.0
    ensures CalculateGrade(score, maxScore) == CalculateGrade(0.0, maxScore) == Success(MIN_GRADE)
  {
    RoundOneKeeps(MIN_GRADE, 10);
  }

  /** A higher score never gets a lower grade. */
  lemma CalculateGradeMonotone(a: real, b: real, maxScore: real)
    requires maxScore > 0.0 && a <= b
    ensures CalculateGrade(a, maxScore).value <= CalculateGrade(b, maxScore).value
  {
    assert ClampedScore(a) / maxScore <= ClampedScore(b) / maxScore by {
      ScaleOrder(ClampedScore(a) / maxScore, ClampedScore(b) / maxScore, maxScore);
    }
    PercentageToGradeMonotone((ClampedScore(a) / maxScore) * 100.0, (ClampedScore(b) / maxScore) * 100.0);
  }

  // ---------------------------------------------------------------- per student

  /** One value as an addend of `array_sum`: a number as itself, true as 1, anything else as 0. */
  function SumTerm(v: Value): real {
    match AsNumber(v)
    case None => 0.0
    case Some(x) => x
  }

  /** `array_sum` over a student's item scores. */
  function ScoreSum(scores: seq<Value>): real {
    if |scores| == 0 then 0.0 else ScoreSum(scores[..|scores| - 1]) + SumTerm(scores[|scores| - 1])
  }

  lemma {:induction false} ScoreSumAppend(a: seq<Value>, b: seq<Value>)
    ensures ScoreSum(a + b) == ScoreSum(a) + ScoreSum(b)
  {
    if |b| > 0 {
      assert (a + b)[..|a + b| - 1] == a + b[..|b| - 1];
      ScoreSumAppend(a, b[..|b| - 1]);
    } else {
      assert a + b == a;
    }
  }

  /** Item scores that are each at most their item's maximum add up to at most the maxima's sum. */
  lemma {:induction false} ScoreSumBounded(scores: seq<Value>, maxima: seq<Value>)
    requires |scores| == |maxima|
    requires forall j :: 0 <= j < |scores| ==> SumTerm(scores[j]) <= SumTerm(maxima[j])
    ensures ScoreSum(scores) <= ScoreSum(maxima)
  {
    if |scores| > 0 {
      ScoreSumBounded(scores[..|scores| - 1], maxima[..|maxima| - 1]);
    }
  }

  /** One student's entry of calculateStudentScores' result. */
  datatype StudentResult = StudentResult(
    totalScore: real,
    maxScore: int,
    percentage: real,
    grade: real,
    passed: bool)

  /** The entry for one student, given a positive maximum. */
  function ResultFor(scores: seq<Value>, maxScore: int): (res: StudentResult)
    requires maxScore > 0
    ensures res.totalScore == ScoreSum(scores) && res.maxScore == maxScore
    ensures res.grade == CalculateGrade(res.totalScore, maxScore as real).value
    ensures res.passed <==> res.grade >= PASS_GRADE
    ensures res.percentage == Round((ScoreSum(scores) / maxScore as real) * 100.0, 1)
  {
    var totalScore := ScoreSum(scores);
    var grade := CalculateGrade(totalScore, maxScore as real).value;
    var percentage := (totalScore / maxScore as real) * 100.0;
    StudentResult(totalScore, maxScore, Round(percentage, 1), grade, grade >= 5.5)
  }

  /**
   * A student passes exactly when the percentage of the (non-negative) total
   * reaches 69 4/9 %; the grade is 1.0 to 10.0 when the total is at most the maximum.
   */
  lemma ResultPassedIff(scores: seq<Value>, maxScore: int)
    requires maxScore > 0
    ensures ResultFor(scores, maxScore).passed <==>
      (ClampedScore(ScoreSum(scores)) / maxScore as real) * 100.0 >= PASS_PERCENTAGE
    ensures ScoreSum(scores) <= maxScore as real ==>
      MIN_GRADE <= ResultFor(scores, maxScore).grade <= MAX_GRADE
  {
    PassesFromPassPercentage((ClampedScore(ScoreSum(scores)) / maxScore as real) * 100.0);
    if ScoreSum(scores) <= maxScore as real {
      CalculateGradeRange(ScoreSum(scores), maxScore as real);
    }
  }

  /**
   * The reported percentage is taken from the unclamped total, the grade from
   * the clamped one: a negative total shows a negative percentage with grade 1.0.
   */
  lemma NegativeTotalReported(scores: seq<Value>, maxScore: int)
    requires maxScore > 0 && ScoreSum(scores) < 0.0
    ensures ResultFor(scores, maxScore).percentage <= 0.0
    ensures ResultFor(scores, maxScore).grade == MIN_GRADE
    ensures !ResultFor(scores, maxScore).passed
  {
    var total := ScoreSum(scores);
    assert total / maxScore as real < 0.0;
    RoundError((total / maxScore as real) * 100.0, 1);
    NegativeScoreGradedAsZero(total, maxScore as real);
  }

  /**
   * calculateStudentScores: one entry per student, in order, under the same
   * student id; the first student's grade throws when the maximum is not
   * positive, and no student means no division at all.
   */
  method CalculateStudentScores(studentScores: seq<seq<Value>>, maxScore: int)
    returns (r: Result<seq<StudentResult>, GradeError>)
    ensures r.Failure? <==> |studentScores| > 0 && maxScore <= 0
    ensures r.Success? ==> |r.value| == |studentScores|
    ensures r.Success? ==> forall s :: 0 <= s < |studentScores| ==> r.value[s] == ResultFor(studentScores[s], maxScore)
  {
    var studentResults: seq<StudentResult> := [];
    var s := 0;
    while s < |studentScores|
      invariant 0 <= s <= |studentScores|
      invariant s > 0 ==> maxScore > 0
      invariant |studentResults| == s
      invariant forall t :: 0 <= t < s ==> studentResults[t] == ResultFor(studentScores[t], maxScore)
    {
      var totalScore := ScoreSum(studentScores[s]);
      var grade := CalculateGrade(totalScore, maxScore as real);
      if grade.Failure? {
        return Failure(grade.error);
      }
      var percentage := (totalScore / maxScore as real) * 100.0;
      studentResults := studentResults + [StudentResult(totalScore, maxScore, Round(percentage, 1), grade.value, grade.value >= 5.5)];
      s := s + 1;
    }
    return Success(studentResults);
  }
}
