/** The per-semester points of the GPA trend charts in src/pages/Analytics.tsx. The page selects
    only `credit`, `bonus` and the components' `score` and `weight`, so `is_gpa` never reaches this
    computation, and a course without components earns no credits. */
module Analytics {
  import opened Wrappers
  import opened Types
  import Sums
  import Rounding
  import GpaUtils

  /** One point of the chart series. */
  datatype ChartPoint = ChartPoint(name: string, gpa10: real, gpa4: real)

  /** The rounded score the page computes inline for a course: weighted sum plus bonus, capped at 10,
      rounded to tenths. */
  function ChartCourseScore(course: Course): (r: real)
    ensures Rounding.RoundsTo(GpaUtils.CappedScore(course), 10.0, r)
    ensures r <= 10.0
  {
    var courseScore := GpaUtils.WeightedSum(course.components);
    var finalScore := GpaUtils.Min(courseScore + course.bonus.GetOr(0.0), 10.0);
    Rounding.RoundToAtMost(finalScore, 10.0, 10.0);
    Rounding.RoundTo(finalScore, 10.0)
  }

  /** The credits a course adds to the chart's credit total. */
  function ChartCredit(course: Course): real
  {
    if |course.components| > 0 then course.credit else 0.0
  }

  /** The credit-weighted score a course adds to the chart's score total. */
  function ChartPoints(course: Course): real
  {
    if |course.components| > 0 then ChartCourseScore(course) * course.credit else 0.0
  }

  function ChartCredits(courses: seq<Course>): real
  {
    Sums.Sum(courses, ChartCredit)
  }

  function ChartWeightedScore(courses: seq<Course>): real
  {
    Sums.Sum(courses, ChartPoints)
  }

  /** `gpa10` of one chart point: 0 without credits, else the credit-weighted mean to hundredths. */
  function ChartGpa10(courses: seq<Course>): (r: real)
    ensures ChartCredits(courses) <= 0.0 ==> r == 0.0
    ensures ChartCredits(courses) > 0.0 ==>
              Rounding.RoundsTo(ChartWeightedScore(courses) / ChartCredits(courses), 100.0, r)
  {
    var totalCredits := ChartCredits(courses);
    if totalCredits > 0.0 then Rounding.RoundTo(ChartWeightedScore(courses) / totalCredits, 100.0) else 0.0
  }

  /** The chart point of one semester; its 4-point ladder is the grade engine's, line for line. */
  function ChartPointOf(semester: Semester): (r: ChartPoint)
    ensures r.name == semester.name
    ensures r.gpa10 == ChartGpa10(semester.courses) && r.gpa4 == GpaUtils.Gpa4(r.gpa10)
    ensures semester.courses == [] ==> r.gpa10 == 0.0 && r.gpa4 == 0.0
    ensures r.gpa4 in GpaUtils.Gpa4Scale
    ensures r.gpa4 == 4.0 <==> r.gpa10 >= 9.0
  {
    var gpa10 := ChartGpa10(semester.courses);
    ChartPoint(semester.name, gpa10, GpaUtils.Gpa4(gpa10))
  }

  /** `chartData`: one point per semester, in the order given. */
  function ChartData(semesters: seq<Semester>): (r: seq<ChartPoint>)
    ensures |r| == |semesters|
    ensures forall i :: 0 <= i < |semesters| ==> r[i].name == semesters[i].name
    ensures forall i :: 0 <= i < |semesters| ==> r[i].gpa10 == ChartGpa10(semesters[i].courses)
    ensures forall i :: 0 <= i < |semesters| ==>
              r[i].gpa4 == GpaUtils.Gpa4(r[i].gpa10) && r[i].gpa4 in GpaUtils.Gpa4Scale
  {
    Sums.Map(semesters, ChartPointOf)
  }

  /** For a course with components the inline score is the grade engine's course average. */
  lemma ChartCourseScoreIsCourseAverage(course: Course)
    requires |course.components| > 0
    ensures ChartCourseScore(course) == GpaUtils.CourseAverage(course)
  {
  }

  /** A course without components changes neither total, whatever its credit. */
  lemma EmptyCourseIgnored(before: seq<Course>, course: Course, after: seq<Course>)
    requires |course.components| == 0
    ensures ChartCredits(before + [course] + after) == ChartCredits(before + after)
    ensures ChartWeightedScore(before + [course] + after) == ChartWeightedScore(before + after)
    ensures ChartGpa10(before + [course] + after) == ChartGpa10(before + after)
  {
    Sums.SumInsert(before, course, after, ChartCredit);
    Sums.SumInsert(before, course, after, ChartPoints);
  }

  /** Two course lists that differ only in their `is_gpa` flags chart the same GPA. */
  lemma {:induction false} ChartIgnoresIsGpa(a: seq<Course>, b: seq<Course>)
    requires |a| == |b|
    requires forall i :: 0 <= i < |a| ==> a[i].(isGpa := None) == b[i].(isGpa := None)
    ensures ChartCredits(a) == ChartCredits(b)
    ensures ChartWeightedScore(a) == ChartWeightedScore(b)
    ensures ChartGpa10(a) == ChartGpa10(b)
    decreases |a|
  {
    if |a| > 0 {
      var n := |a| - 1;
      ChartIgnoresIsGpa(a[..n], b[..n]);
      CourseTermsIgnoreIsGpa(a[n], b[n]);
    }
  }

  /** One course's chart terms depend on neither its `is_gpa` flag nor its stored average. */
  lemma CourseTermsIgnoreIsGpa(x: Course, y: Course)
    requires x.(isGpa := None) == y.(isGpa := None)
    ensures ChartCredit(x) == ChartCredit(y) && ChartPoints(x) == ChartPoints(y)
  {
    assert x.components == y.components && x.credit == y.credit && x.bonus == y.bonus;
    var finalScore := GpaUtils.Min(GpaUtils.WeightedSum(x.components) + x.bonus.GetOr(0.0), 10.0);
    assert ChartCourseScore(x) == Rounding.RoundTo(finalScore, 10.0);
    assert ChartCourseScore(y) == Rounding.RoundTo(finalScore, 10.0);
  }

  /** When every course has a component and none is excluded from the GPA, the chart shows the
      grade engine's semester GPA. */
  lemma ChartAgreesWithEngine(courses: seq<Course>)
    requires forall c :: c in courses ==> |c.components| > 0 && GpaUtils.CountsTowardGpa(c)
    ensures ChartGpa10(courses) == GpaUtils.CalculateSemesterGpa(courses).semesterGpa10
    ensures ChartPointOf(Semester("", "", "", 0, "", courses, None, None)).gpa4
            == GpaUtils.CalculateSemesterGpa(courses).semesterGpa4
  {
    forall c | c in courses
      ensures ChartCredit(c) == GpaUtils.CountedCredit(c) && ChartPoints(c) == GpaUtils.CountedPoints(c)
    {
      ChartCourseScoreIsCourseAverage(c);
    }
    Sums.SumPointwise(courses, ChartCredit, GpaUtils.CountedCredit);
    Sums.SumPointwise(courses, ChartPoints, GpaUtils.CountedPoints);
  }

  /** A lone course with components and credits charts at exactly its own course average. */
  lemma ChartSingleCourse(course: Course)
    requires |course.components| > 0 && course.credit > 0.0
    ensures ChartGpa10([course]) == GpaUtils.CourseAverage(course)
  {
    var avg := GpaUtils.CourseAverage(course);
    var credits := ChartCredits([course]);
    var weighted := ChartWeightedScore([course]);
    assert credits == course.credit by {
      Sums.SumSingleton(course, ChartCredit);
    }
    assert weighted == avg * credits by {
      Sums.SumSingleton(course, ChartPoints);
      ChartCourseScoreIsCourseAverage(course);
      assert ChartPoints(course) == ChartCourseScore(course) * course.credit;
    }
    Sums.MeanWithin(weighted, credits, avg, avg);
    Rounding.TenthsAreHundredths(avg);
  }

  /** The two computations do differ: a lone course flagged `is_gpa === false` gives the engine a
      GPA of 0 but charts at its own average. */
  lemma ChartCountsExcludedCourse(course: Course)
    requires |course.components| > 0 && course.isGpa == Some(false) && course.credit > 0.0
    ensures GpaUtils.CalculateSemesterGpa([course]).semesterGpa10 == 0.0
    ensures ChartGpa10([course]) == GpaUtils.CourseAverage(course)
  {
    Sums.SumSingleton(course, GpaUtils.CountedCredit);
    ChartSingleCourse(course);
  }
}
