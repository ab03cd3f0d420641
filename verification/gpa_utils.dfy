/** The grade engine of src/lib/gpaUtils.ts: a course's average from its weighted components and
    bonus, and a semester's credit-weighted GPA on the 10-point scale with its 4-point tier. */
module GpaUtils {
  import opened Wrappers
  import opened Types
  import Sums
  import Rounding

  /** One component's contribution to the course score, `score * weight / 100`. */
  function Points(c: Component): real
  {
    c.score * c.weight / 100.0
  }

  /** The weighted sum of a course's components, folded in list order. */
  function WeightedSum(cs: seq<Component>): real
  {
    Sums.Sum(cs, Points)
  }

  /** `course.bonus || 0`. */
  function Bonus(course: Course): real
  {
    course.bonus.GetOr(0.0)
  }

  /** `Math.min`. */
  function Min(a: real, b: real): (r: real)
    ensures r <= a && r <= b
    ensures r == a || r == b
  {
    if a <= b then a else b
  }

  /** The weighted sum plus bonus, capped at 10: the value the course average rounds. */
  function CappedScore(course: Course): (r: real)
    ensures r <= 10.0
  {
    Min(WeightedSum(course.components) + Bonus(course), 10.0)
  }

  /** `calculateCourseAverage`: 0 for a course without components; otherwise the capped score
      rounded to tenths, halves going up. */
  function CourseAverage(course: Course): (r: real)
    ensures |course.components| == 0 ==> r == 0.0
    ensures |course.components| > 0 ==> Rounding.RoundsTo(CappedScore(course), 10.0, r)
    ensures Rounding.OnGrid(r, 10.0)
    ensures r <= 10.0
  {
    if |course.components| == 0 then 0.0
    else
      Rounding.RoundToAtMost(CappedScore(course), 10.0, 10.0);
      Rounding.RoundTo(CappedScore(course), 10.0)
  }

  /** An absent bonus and a bonus of 0 give the same average. */
  lemma MissingBonusIsZero(course: Course)
    ensures CourseAverage(course.(bonus := None)) == CourseAverage(course.(bonus := Some(0.0)))
  {
  }

  /** The average does not depend on the order in which the components are listed. */
  lemma CourseAverageOrderIndependent(course: Course, reordered: seq<Component>)
    requires multiset(reordered) == multiset(course.components)
    ensures CourseAverage(course.(components := reordered)) == CourseAverage(course)
  {
    Sums.SumPermutation(reordered, course.components, Points);
    assert |reordered| == |multiset(reordered)| == |course.components|;
  }

  /** Scores, weights and bonus that are not negative. */
  predicate NonNegativeInputs(course: Course)
  {
    && Bonus(course) >= 0.0
    && forall c :: c in course.components ==> c.score >= 0.0 && c.weight >= 0.0
  }

  /** With no negative inputs the average lies in [0, 10]. */
  lemma CourseAverageInRange(course: Course)
    requires NonNegativeInputs(course)
    ensures 0.0 <= CourseAverage(course) <= 10.0
  {
    forall c | c in course.components
      ensures 0.0 <= Points(c)
    {
      ProductNonNegative(c.score, c.weight);
    }
    Sums.SumNonNegative(course.components, Points);
    if |course.components| > 0 {
      Rounding.RoundToNonNegative(CappedScore(course), 10.0);
    }
  }

  /** Scores 8 at 60% and 7 at 40% average 7.6. */
  lemma WeightedMeanExample(course: Course)
    requires course.components == [
               Component("a", course.id, "Midterm", 60.0, 8.0, ""),
               Component("b", course.id, "Final", 40.0, 7.0, "")]
    requires course.bonus == None
    ensures CourseAverage(course) == 7.6
  {
    var cs := course.components;
    assert cs[..1][..0] == [] && cs[..1][0] == cs[0];
    assert Sums.Sum(cs[..1][..0], Points) == 0.0;
    assert WeightedSum(cs[..1]) == Points(cs[0]) == 4.8;
    assert WeightedSum(cs) == 7.6;
    Rounding.RoundsToUnique(7.6, 10.0, 7.6);
  }

  /** Weights summing to 110 plus a bonus of 0.5 are capped to 10. */
  lemma CapExample(course: Course)
    requires course.components == [
               Component("a", course.id, "Part 1", 50.0, 9.0, ""),
               Component("b", course.id, "Part 2", 60.0, 9.0, "")]
    requires course.bonus == Some(0.5)
    ensures CourseAverage(course) == 10.0
  {
    var cs := course.components;
    assert cs[..1][..0] == [] && cs[..1][0] == cs[0];
    assert Sums.Sum(cs[..1][..0], Points) == 0.0;
    assert WeightedSum(cs[..1]) == Points(cs[0]) == 4.5;
    assert WeightedSum(cs) == 9.9;
    assert CappedScore(course) == 10.0;
    Rounding.RoundsToUnique(10.0, 10.0, 10.0);
  }

  /** A course counts toward the GPA unless `is_gpa` is explicitly false. */
  predicate CountsTowardGpa(course: Course)
  {
    course.isGpa != Some(false)
  }

  /** The credits a course adds to the semester's credit total. */
  function CountedCredit(course: Course): real
  {
    if CountsTowardGpa(course) then course.credit else 0.0
  }

  /** The credit-weighted score a course adds to the semester's score total. */
  function CountedPoints(course: Course): real
  {
    if CountsTowardGpa(course) then CourseAverage(course) * course.credit else 0.0
  }

  /** `totalCredits` after the fold over the courses. */
  function CountedCredits(courses: seq<Course>): real
  {
    Sums.Sum(courses, CountedCredit)
  }

  /** `totalWeightedScore` after the fold over the courses. */
  function WeightedScore(courses: seq<Course>): real
  {
    Sums.Sum(courses, CountedPoints)
  }

  /** The values the 4-point tier can take. */
  const Gpa4Scale: set<real> := {0.0, 1.0, 1.5, 2.0, 2.5, 3.0, 3.5, 3.7, 4.0}

  /** The 9-tier conversion of a semester GPA to the 4-point scale: inclusive lower bounds,
      checked from the highest. */
  function Gpa4(gpa10: real): (r: real)
    ensures r in Gpa4Scale
    ensures r == 4.0 <==> gpa10 >= 9.0
    ensures r == 0.0 <==> gpa10 < 4.0
  {
    if gpa10 >= 9.0 then 4.0
    else if gpa10 >= 8.5 then 3.7
    else if gpa10 >= 8.0 then 3.5
    else if gpa10 >= 7.0 then 3.0
    else if gpa10 >= 6.5 then 2.5
    else if gpa10 >= 5.5 then 2.0
    else if gpa10 >= 5.0 then 1.5
    else if gpa10 >= 4.0 then 1.0
    else 0.0
  }

  /** A higher 10-point GPA never gives a lower 4-point tier. */
  lemma Gpa4Monotone(a: real, b: real)
    requires a <= b
    ensures Gpa4(a) <= Gpa4(b)
  {
  }

  /** The thresholds are inclusive: each one reaches its own tier. */
  lemma Gpa4Boundaries()
    ensures Gpa4(9.0) == 4.0 && Gpa4(8.99) == 3.7 && Gpa4(8.5) == 3.7 && Gpa4(8.49) == 3.5
    ensures Gpa4(4.0) == 1.0 && Gpa4(3.99) == 0.0
  {
  }

  /** `calculateSemesterGPA`'s result. */
  datatype SemesterGpa = SemesterGpa(semesterGpa10: real, semesterGpa4: real, processedCourses: seq<Course>)

  /** The course as it appears in `processedCourses`: the input with its average filled in. */
  function WithAverage(course: Course): Course
  {
    course.(averageScore := Some(CourseAverage(course)))
  }

  /** `calculateSemesterGPA`. */
  function CalculateSemesterGpa(courses: seq<Course>): (r: SemesterGpa)
    ensures |r.processedCourses| == |courses|
    ensures forall i :: 0 <= i < |courses| ==>
              r.processedCourses[i].(averageScore := courses[i].averageScore) == courses[i]
    ensures forall i :: 0 <= i < |courses| ==>
              r.processedCourses[i].averageScore == Some(CourseAverage(courses[i]))
    ensures CountedCredits(courses) <= 0.0 ==> r.semesterGpa10 == 0.0 && r.semesterGpa4 == 0.0
    ensures CountedCredits(courses) > 0.0 ==>
              Rounding.RoundsTo(WeightedScore(courses) / CountedCredits(courses), 100.0, r.semesterGpa10)
    ensures r.semesterGpa4 == Gpa4(r.semesterGpa10)
    ensures r.semesterGpa4 in Gpa4Scale
  {
    var totalCredits := CountedCredits(courses);
    var gpa10 := if totalCredits > 0.0 then Rounding.RoundTo(WeightedScore(courses) / totalCredits, 100.0) else 0.0;
    SemesterGpa(gpa10, Gpa4(gpa10), Sums.Map(courses, WithAverage))
  }

  /** Averages 7.6 and 8.2 over 3 and 4 credits give a semester GPA of 7.94. */
  lemma SemesterExample(c1: Course, c2: Course)
    requires CourseAverage(c1) == 7.6 && c1.credit == 3.0 && CountsTowardGpa(c1)
    requires CourseAverage(c2) == 8.2 && c2.credit == 4.0 && CountsTowardGpa(c2)
    ensures CalculateSemesterGpa([c1, c2]).semesterGpa10 == 7.94
    ensures CalculateSemesterGpa([c1, c2]).semesterGpa4 == 3.0
  {
    var cs := [c1, c2];
    assert cs[..1] == [c1] && [c1][..0] == [];
    assert CountedCredits([c1]) == Sums.Sum([], CountedCredit) + CountedCredit(c1) == 3.0;
    assert CountedCredits(cs) == CountedCredits([c1]) + CountedCredit(c2) == 7.0;
    assert WeightedScore([c1]) == Sums.Sum([], CountedPoints) + CountedPoints(c1) == 22.8;
    assert WeightedScore(cs) == WeightedScore([c1]) + CountedPoints(c2) == 55.6;
    Rounding.RoundsToUnique(55.6 / 7.0, 100.0, 7.94);
  }

  /** Inserting a course anywhere adds its credit and weighted score to the totals exactly when it
      counts toward the GPA. */
  lemma CourseInclusion(before: seq<Course>, course: Course, after: seq<Course>)
    ensures CountedCredits(before + [course] + after)
            == CountedCredits(before + after) + (if CountsTowardGpa(course) then course.credit else 0.0)
    ensures WeightedScore(before + [course] + after)
            == WeightedScore(before + after)
               + (if CountsTowardGpa(course) then CourseAverage(course) * course.credit else 0.0)
  {
    Sums.SumInsert(before, course, after, CountedCredit);
    Sums.SumInsert(before, course, after, CountedPoints);
  }

  /** Dropping every course with `is_gpa === false` leaves both GPA figures unchanged. */
  lemma ExcludedCoursesIgnored(courses: seq<Course>)
    ensures CalculateSemesterGpa(Sums.Filter(courses, CountsTowardGpa)).semesterGpa10
            == CalculateSemesterGpa(courses).semesterGpa10
    ensures CalculateSemesterGpa(Sums.Filter(courses, CountsTowardGpa)).semesterGpa4
            == CalculateSemesterGpa(courses).semesterGpa4
  {
    Sums.SumFilterZero(courses, CountsTowardGpa, CountedCredit);
    Sums.SumFilterZero(courses, CountsTowardGpa, CountedPoints);
  }

  /** The semester GPA does not depend on the order of the courses. */
  lemma SemesterGpaOrderIndependent(courses: seq<Course>, reordered: seq<Course>)
    requires multiset(reordered) == multiset(courses)
    ensures CalculateSemesterGpa(reordered).semesterGpa10 == CalculateSemesterGpa(courses).semesterGpa10
    ensures CalculateSemesterGpa(reordered).semesterGpa4 == CalculateSemesterGpa(courses).semesterGpa4
  {
    Sums.SumPermutation(reordered, courses, CountedCredit);
    Sums.SumPermutation(reordered, courses, CountedPoints);
  }

  /** With non-negative credits on the counted courses the score total is at most 10 per credit. */
  lemma {:induction false} WeightedScoreAtMostTenPerCredit(courses: seq<Course>)
    requires forall c :: c in courses && CountsTowardGpa(c) ==> c.credit >= 0.0
    ensures WeightedScore(courses) <= 10.0 * CountedCredits(courses)
    decreases |courses|
  {
    if |courses| > 0 {
      var last := courses[|courses| - 1];
      WeightedScoreAtMostTenPerCredit(courses[..|courses| - 1]);
      if CountsTowardGpa(last) {
        ProductNonNegative(10.0 - CourseAverage(last), last.credit);
      }
    }
  }

  /** With non-negative inputs and credits no counted course lowers the score total below 0. */
  lemma WeightedScoreNonNegative(courses: seq<Course>)
    requires forall c :: c in courses ==> NonNegativeInputs(c) && c.credit >= 0.0
    ensures 0.0 <= WeightedScore(courses)
  {
    forall c | c in courses
      ensures 0.0 <= CountedPoints(c)
    {
      CourseAverageInRange(c);
      ProductNonNegative(CourseAverage(c), c.credit);
    }
    Sums.SumNonNegative(courses, CountedPoints);
  }

  /** With non-negative inputs and credits, the semester GPA lies in [0, 10]. */
  lemma SemesterGpaInRange(courses: seq<Course>)
    requires forall c :: c in courses ==> NonNegativeInputs(c) && c.credit >= 0.0
    ensures 0.0 <= CalculateSemesterGpa(courses).semesterGpa10 <= 10.0
  {
    var credits := CountedCredits(courses);
    var score := WeightedScore(courses);
    if credits > 0.0 {
      WeightedScoreAtMostTenPerCredit(courses);
      WeightedScoreNonNegative(courses);
      Sums.MeanWithin(score, credits, 0.0, 10.0);
      Rounding.RoundToAtMost(score / credits, 100.0, 10.0);
      Rounding.RoundToNonNegative(score / credits, 100.0);
    }
  }

  lemma ProductNonNegative(a: real, b: real)
    requires a >= 0.0 && b >= 0.0
    ensures a * b >= 0.0
  {
  }
}
