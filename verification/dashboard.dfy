/** The list of semesters on src/pages/Dashboard.tsx: the GPA figures computed for it, the
    cumulative GPA and credit total shown above it, and the local updates that follow adding,
    deleting and reordering semesters. */
module Dashboard {
  import opened Wrappers
  import opened Types
  import Strings
  import Sums
  import Rounding
  import GpaUtils

  /** A fetched semester as the page stores it: its courses processed by the grade engine and both
      GPA figures attached. */
  function ProcessSemester(semester: Semester): (r: Semester)
    ensures r.(courses := semester.courses, semesterGpa10 := semester.semesterGpa10,
               semesterGpa4 := semester.semesterGpa4) == semester
    ensures |r.courses| == |semester.courses|
    ensures forall i :: 0 <= i < |r.courses| ==>
              && r.courses[i].averageScore == Some(GpaUtils.CourseAverage(semester.courses[i]))
              && r.courses[i].(averageScore := semester.courses[i].averageScore) == semester.courses[i]
    ensures r.semesterGpa10 == Some(GpaUtils.CalculateSemesterGpa(semester.courses).semesterGpa10)
    ensures r.semesterGpa4 == Some(GpaUtils.Gpa4(r.semesterGpa10.value))
  {
    var gpa := GpaUtils.CalculateSemesterGpa(semester.courses);
    semester.(courses := gpa.processedCourses, semesterGpa10 := Some(gpa.semesterGpa10),
              semesterGpa4 := Some(gpa.semesterGpa4))
  }

  /** `s.semesterGPA10 || 0`. */
  function Gpa10OrZero(semester: Semester): real
  {
    semester.semesterGpa10.GetOr(0.0)
  }

  /** `cumulativeGPA10`: the plain mean of the semesters' 10-point GPAs, to hundredths; 0 without
      semesters. Semesters are not weighted by their credits. */
  function CumulativeGpa10(semesters: seq<Semester>): (r: real)
    ensures |semesters| == 0 ==> r == 0.0
    ensures |semesters| > 0 ==>
              Rounding.RoundsTo(Sums.Sum(semesters, Gpa10OrZero) / |semesters| as real, 100.0, r)
  {
    if |semesters| > 0
    then Rounding.RoundTo(Sums.Sum(semesters, Gpa10OrZero) / |semesters| as real, 100.0)
    else 0.0
  }

  /** Reordering the semesters does not change the cumulative GPA. */
  lemma CumulativeGpaOrderIndependent(a: seq<Semester>, b: seq<Semester>)
    requires multiset(a) == multiset(b)
    ensures CumulativeGpa10(a) == CumulativeGpa10(b)
  {
    Sums.SumPermutation(a, b, Gpa10OrZero);
    assert |a| == |multiset(a)| == |b|;
  }

  /** Semester GPAs within [0, 10] give a cumulative GPA within [0, 10]. */
  lemma CumulativeGpaInRange(semesters: seq<Semester>)
    requires forall s :: s in semesters ==> 0.0 <= Gpa10OrZero(s) <= 10.0
    ensures 0.0 <= CumulativeGpa10(semesters) <= 10.0
  {
    if |semesters| > 0 {
      var n := |semesters| as real;
      var total := Sums.Sum(semesters, Gpa10OrZero);
      Sums.SumNonNegative(semesters, Gpa10OrZero);
      AtMostTenEach(semesters);
      Sums.MeanWithin(total, n, 0.0, 10.0);
      Rounding.RoundToAtMost(total / n, 100.0, 10.0);
      Rounding.RoundToNonNegative(total / n, 100.0);
    }
  }

  lemma {:induction false} AtMostTenEach(semesters: seq<Semester>)
    requires forall s :: s in semesters ==> Gpa10OrZero(s) <= 10.0
    ensures Sums.Sum(semesters, Gpa10OrZero) <= 10.0 * |semesters| as real
    decreases |semesters|
  {
    if |semesters| > 0 {
      AtMostTenEach(semesters[..|semesters| - 1]);
    }
  }

  /** Semester GPAs 7.94 and 8.50 average to 8.22, whatever the
      semesters' credits. */
  lemma CumulativeExample(s1: Semester, s2: Semester)
    requires s1.semesterGpa10 == Some(7.94) && s2.semesterGpa10 == Some(8.5)
    ensures CumulativeGpa10([s1, s2]) == 8.22
  {
    var ss := [s1, s2];
    assert ss[..1] == [s1];
    Sums.SumSingleton(s1, Gpa10OrZero);
    assert Sums.Sum(ss, Gpa10OrZero) == 16.44;
    Rounding.RoundsToUnique(16.44 / 2.0, 100.0, 8.22);
  }

  function CourseCredit(course: Course): real
  {
    course.credit
  }

  /** The credits of one semester's courses, every course included. */
  function SemesterCredits(semester: Semester): real
  {
    Sums.Sum(semester.courses, CourseCredit)
  }

  /** `totalCredits`: credits summed over every course of every semester, `is_gpa` or not. */
  function TotalCredits(semesters: seq<Semester>): (r: real)
    ensures r == Sums.Sum(AllCourses(semesters), CourseCredit)
  {
    SemesterCreditsOverAllCourses(semesters);
    Sums.Sum(semesters, SemesterCredits)
  }

  /** All courses of all semesters, semester by semester. */
  function AllCourses(semesters: seq<Semester>): seq<Course>
  {
    if |semesters| == 0 then []
    else AllCourses(semesters[..|semesters| - 1]) + semesters[|semesters| - 1].courses
  }

  /** Summing per semester and then over the semesters is summing over the flat list of courses. */
  lemma {:induction false} SemesterCreditsOverAllCourses(semesters: seq<Semester>)
    ensures Sums.Sum(semesters, SemesterCredits) == Sums.Sum(AllCourses(semesters), CourseCredit)
    decreases |semesters|
  {
    if |semesters| > 0 {
      var n := |semesters| - 1;
      SemesterCreditsOverAllCourses(semesters[..n]);
      Sums.SumAppend(AllCourses(semesters[..n]), semesters[n].courses, CourseCredit);
    }
  }

  /** A course counts toward the credit total even when it is excluded from the GPA: the total is at
      least the GPA credits of every semester. */
  lemma {:induction false} TotalCreditsIncludeExcludedCourses(semesters: seq<Semester>)
    requires forall s, c :: s in semesters && c in s.courses ==> c.credit >= 0.0
    ensures Sums.Sum(semesters, CountedSemesterCredits) <= TotalCredits(semesters)
    decreases |semesters|
  {
    if |semesters| > 0 {
      var n := |semesters| - 1;
      TotalCreditsIncludeExcludedCourses(semesters[..n]);
      Sums.SumMonotone(semesters[n].courses, GpaUtils.CountedCredit, CourseCredit);
    }
  }

  function CountedSemesterCredits(semester: Semester): real
  {
    GpaUtils.CountedCredits(semester.courses)
  }

  /** Reordering the semesters does not change the credit total. */
  lemma TotalCreditsOrderIndependent(a: seq<Semester>, b: seq<Semester>)
    requires multiset(a) == multiset(b)
    ensures TotalCredits(a) == TotalCredits(b)
  {
    Sums.SumPermutation(a, b, SemesterCredits);
  }

  /** `Math.max` over the semesters' `index_order`. */
  function MaxIndexOrder(semesters: seq<Semester>): (m: int)
    requires |semesters| > 0
    ensures forall s :: s in semesters ==> s.indexOrder <= m
    ensures exists i :: 0 <= i < |semesters| && semesters[i].indexOrder == m
  {
    if |semesters| == 1 then semesters[0].indexOrder
    else
      var rest := MaxIndexOrder(semesters[1..]);
      assert forall s :: s in semesters ==> s == semesters[0] || s in semesters[1..];
      if semesters[0].indexOrder >= rest then semesters[0].indexOrder else rest
  }

  /** The `index_order` a new semester is inserted with: one past the largest, 1 for the first. */
  function NewIndexOrder(semesters: seq<Semester>): (r: int)
    ensures |semesters| == 0 ==> r == 1
    ensures forall s :: s in semesters ==> s.indexOrder < r
    ensures |semesters| > 0 ==> exists i :: 0 <= i < |semesters| && semesters[i].indexOrder == r - 1
  {
    (if |semesters| > 0 then MaxIndexOrder(semesters) else 0) + 1
  }

  /** The columns of the semester row that the database fills in on insert. */
  datatype StoredRow = StoredRow(id: string, userId: string, createdAt: string)

  /** `handleAddSemester`: nothing happens for a blank name or a failed insert (`stored` is `None`);
      otherwise the stored row, named as typed and numbered after the others, is appended with no
      courses and GPA 0. */
  function AddSemester(semesters: seq<Semester>, name: string, stored: Option<StoredRow>): (r: seq<Semester>)
    ensures Strings.IsBlank(name) || stored.None? ==> r == semesters
    ensures !Strings.IsBlank(name) && stored.Some? ==>
              && |r| == |semesters| + 1
              && r[..|semesters|] == semesters
              && r[|semesters|].name == name
              && r[|semesters|].id == stored.value.id
              && r[|semesters|].userId == stored.value.userId
              && r[|semesters|].createdAt == stored.value.createdAt
              && r[|semesters|].courses == []
              && r[|semesters|].semesterGpa10 == Some(0.0) && r[|semesters|].semesterGpa4 == Some(0.0)
              && r[|semesters|].indexOrder == NewIndexOrder(semesters)
              && (forall s :: s in semesters ==> s.indexOrder < r[|semesters|].indexOrder)
              && (|semesters| == 0 ==> r[0].indexOrder == 1)
  {
    if Strings.IsBlank(name) then semesters
    else match stored
      case None => semesters
      case Some(row) =>
        var added := Semester(row.id, row.userId, name, NewIndexOrder(semesters), row.createdAt, [],
                              Some(0.0), Some(0.0));
        assert (semesters + [added])[..|semesters|] == semesters;
        semesters + [added]
  }

  /** `handleDeleteSemester`: once the user confirms and the delete succeeds, every semester with that
      id is dropped and the rest keep their order; otherwise nothing changes. */
  function DeleteSemester(semesters: seq<Semester>, id: string, confirmed: bool, deleted: bool)
    : (r: seq<Semester>)
    ensures !confirmed || !deleted ==> r == semesters
    ensures confirmed && deleted ==>
              && (forall s :: s in r ==> s.id != id && s in semesters)
              && (forall s :: s in semesters && s.id != id ==> multiset(r)[s] == multiset(semesters)[s])
  {
    if confirmed && deleted then
      Sums.FilterMultiplicity(semesters, Sums.KeepUnless(SemesterId, id));
      Sums.Filter(semesters, Sums.KeepUnless(SemesterId, id))
    else semesters
  }

  /** Deleting keeps the survivors in their order: it acts on each part of a list separately. */
  lemma DeleteSemesterKeepsOrder(a: seq<Semester>, b: seq<Semester>, id: string)
    ensures DeleteSemester(a + b, id, true, true)
            == DeleteSemester(a, id, true, true) + DeleteSemester(b, id, true, true)
  {
    Sums.FilterAppend(a, b, Sums.KeepUnless(SemesterId, id));
  }

  /** dnd-kit's `arrayMove`, by its specification: take the element out at `from` and put it back in
      at `to`. */
  function ArrayMove<T>(s: seq<T>, from: nat, to: nat): (r: seq<T>)
    requires from < |s| && to < |s|
    ensures |r| == |s|
    ensures r[to] == s[from]
    ensures Sums.RemoveAt(r, to) == Sums.RemoveAt(s, from)
    ensures multiset(r) == multiset(s)
  {
    var rest := Sums.RemoveAt(s, from);
    var r := rest[..to] + [s[from]] + rest[to..];
    assert r[..to] == rest[..to] && r[to + 1..] == rest[to..];
    assert rest == rest[..to] + rest[to..];
    r
  }

  /** A move followed by renumbering keeps the order of the semesters not moved: taking the moved
      one out of the result gives the list with it taken out of its old place. */
  lemma ReorderKeepsOthersInOrder(s: seq<Semester>, from: nat, to: nat)
    requires from < |s| && to < |s|
    ensures Sums.RemoveAt(Sums.Map(Renumber(ArrayMove(s, from, to)), ClearIndexOrder), to)
            == Sums.RemoveAt(Sums.Map(s, ClearIndexOrder), from)
  {
    var moved := ArrayMove(s, from, to);
    assert Sums.Map(Renumber(moved), ClearIndexOrder) == Sums.Map(moved, ClearIndexOrder);
    Sums.MapRemoveAt(moved, to, ClearIndexOrder);
    Sums.MapRemoveAt(s, from, ClearIndexOrder);
  }

  /** Moving an element to a neighbouring position swaps the two and leaves the rest in place. */
  lemma ArrayMoveNeighbours<T>(s: seq<T>, i: nat)
    requires i + 1 < |s|
    ensures ArrayMove(s, i, i + 1) == s[i := s[i + 1]][i + 1 := s[i]]
    ensures ArrayMove(s, i + 1, i) == s[i := s[i + 1]][i + 1 := s[i]]
  {
    ArrayMoveDown(s, i);
    ArrayMoveUp(s, i);
  }

  /** Moving position `i` one step later swaps it with its successor. */
  lemma ArrayMoveDown<T>(s: seq<T>, i: nat)
    requires i + 1 < |s|
    ensures ArrayMove(s, i, i + 1) == s[i := s[i + 1]][i + 1 := s[i]]
  {
    var swapped := s[i := s[i + 1]][i + 1 := s[i]];
    var rest := s[..i] + s[i + 1..];
    assert rest == Sums.RemoveAt(s, i);
    var down := ArrayMove(s, i, i + 1);
    assert down == rest[..i + 1] + [s[i]] + rest[i + 1..];
    forall k | 0 <= k < |s|
      ensures down[k] == swapped[k]
    {
      if k < i {
        assert down[k] == rest[k] == s[k];
      } else if k > i + 1 {
        assert down[k] == rest[k - 1] == s[k];
      }
    }
  }

  /** Moving position `i + 1` one step earlier swaps it with its predecessor. */
  lemma ArrayMoveUp<T>(s: seq<T>, i: nat)
    requires i + 1 < |s|
    ensures ArrayMove(s, i + 1, i) == s[i := s[i + 1]][i + 1 := s[i]]
  {
    var swapped := s[i := s[i + 1]][i + 1 := s[i]];
    var rest := s[..i + 1] + s[i + 2..];
    assert rest == Sums.RemoveAt(s, i + 1);
    var up := ArrayMove(s, i + 1, i);
    assert up == rest[..i] + [s[i + 1]] + rest[i..];
    forall k | 0 <= k < |s|
      ensures up[k] == swapped[k]
    {
      if k < i {
        assert up[k] == rest[k] == s[k];
      } else if k > i + 1 {
        assert up[k] == rest[k - 1] == s[k];
      }
    }
  }

  /** `index_order` set to position + 1 throughout. */
  function Renumber(semesters: seq<Semester>): (r: seq<Semester>)
    ensures |r| == |semesters|
    ensures forall i :: 0 <= i < |r| ==> r[i].indexOrder == i + 1
    ensures forall i :: 0 <= i < |r| ==> r[i].(indexOrder := semesters[i].indexOrder) == semesters[i]
  {
    seq(|semesters|, i requires 0 <= i < |semesters| => semesters[i].(indexOrder := i + 1))
  }

  function ClearIndexOrder(semester: Semester): Semester
  {
    semester.(indexOrder := 0)
  }

  /** `after` is a reordering of `before`: the same semesters, apart from `index_order`, each
      numbered by its new position. */
  ghost predicate IsRenumberedPermutation(after: seq<Semester>, before: seq<Semester>)
  {
    && multiset(Sums.Map(after, ClearIndexOrder)) == multiset(Sums.Map(before, ClearIndexOrder))
    && forall i :: 0 <= i < |after| ==> after[i].indexOrder == i + 1
  }

  lemma ReorderIsPermutation(s: seq<Semester>, from: nat, to: nat)
    requires from < |s| && to < |s|
    ensures IsRenumberedPermutation(Renumber(ArrayMove(s, from, to)), s)
  {
    var moved := ArrayMove(s, from, to);
    Sums.MapPermutation(moved, s, ClearIndexOrder);
    assert Sums.Map(Renumber(moved), ClearIndexOrder) == Sums.Map(moved, ClearIndexOrder);
  }

  /** Moving an element to a neighbouring position exchanges the two and leaves the rest in place. */
  lemma ArrayMoveToNeighbour<T>(s: seq<T>, index: nat, other: nat)
    requires index < |s| && other < |s|
    requires other + 1 == index || other == index + 1
    ensures ArrayMove(s, index, other)[other] == s[index]
    ensures ArrayMove(s, index, other)[index] == s[other]
    ensures forall k :: 0 <= k < |s| && k != index && k != other ==> ArrayMove(s, index, other)[k] == s[k]
  {
    var moved := ArrayMove(s, index, other);
    var low := if other < index then other else index;
    ArrayMoveNeighbours(s, low);
    var swapped := s[low := s[low + 1]][low + 1 := s[low]];
    assert moved == swapped;
    forall k | 0 <= k < |s| && k != index && k != other
      ensures moved[k] == s[k]
    {
      assert swapped[k] == s[k];
    }
  }

  /** Moving to a neighbouring position and renumbering exchanges the two semesters and only
      renumbers the others. */
  lemma NeighbourMove(s: seq<Semester>, index: nat, other: nat)
    requires index < |s| && other < |s|
    requires other + 1 == index || other == index + 1
    ensures |Renumber(ArrayMove(s, index, other))| == |s|
    ensures Renumber(ArrayMove(s, index, other))[other].(indexOrder := 0) == s[index].(indexOrder := 0)
    ensures Renumber(ArrayMove(s, index, other))[index].(indexOrder := 0) == s[other].(indexOrder := 0)
    ensures forall k :: 0 <= k < |s| && k != index && k != other ==>
              Renumber(ArrayMove(s, index, other))[k] == s[k].(indexOrder := k + 1)
  {
    var moved := ArrayMove(s, index, other);
    ArrayMoveToNeighbour(s, index, other);
    var r := Renumber(moved);
    assert r[other].(indexOrder := 0) == moved[other].(indexOrder := 0);
    assert r[index].(indexOrder := 0) == moved[index].(indexOrder := 0);
    forall k | 0 <= k < |s| && k != index && k != other
      ensures r[k] == s[k].(indexOrder := k + 1)
    {
      assert moved[k] == s[k];
    }
  }

  datatype Direction = Up | Down

  /** `handleMoveSemester`: moving the first semester up or the last one down does nothing; any other
      move swaps the semester with its neighbour and renumbers the list. */
  function MoveSemester(semesters: seq<Semester>, index: nat, direction: Direction): (r: seq<Semester>)
    requires index < |semesters|
    ensures (direction.Up? && index == 0) || (direction.Down? && index == |semesters| - 1)
            ==> r == semesters
    ensures !((direction.Up? && index == 0) || (direction.Down? && index == |semesters| - 1)) ==>
              var other := if direction.Up? then index - 1 else index + 1;
              && 0 <= other < |semesters|
              && |r| == |semesters|
              && IsRenumberedPermutation(r, semesters)
              && r[other].(indexOrder := 0) == semesters[index].(indexOrder := 0)
              && r[index].(indexOrder := 0) == semesters[other].(indexOrder := 0)
              && forall k :: 0 <= k < |r| && k != index && k != other ==>
                   r[k] == semesters[k].(indexOrder := k + 1)
  {
    if (direction.Up? && index == 0) || (direction.Down? && index == |semesters| - 1) then semesters
    else
      var other := if direction.Up? then index - 1 else index + 1;
      NeighbourMove(semesters, index, other);
      ReorderIsPermutation(semesters, index, other);
      Renumber(ArrayMove(semesters, index, other))
  }

  /** `findIndex` by id: the first position holding the id, -1 when none does. */
  function FindIndex(semesters: seq<Semester>, id: string): (r: int)
    ensures -1 <= r < |semesters|
    ensures r >= 0 ==> semesters[r].id == id && forall k :: 0 <= k < r ==> semesters[k].id != id
    ensures r == -1 ==> forall k :: 0 <= k < |semesters| ==> semesters[k].id != id
  {
    if |semesters| == 0 then -1
    else if semesters[0].id == id then 0
    else
      var rest := FindIndex(semesters[1..], id);
      if rest == -1 then -1 else rest + 1
  }

  /** `handleDragEnd`: `over` is the id under the cursor when the drag ends, `None` when there is
      none. Dropping a semester on itself changes nothing; dropping it on another moves it to that
      position and renumbers the list. */
  function DragEnd(semesters: seq<Semester>, active: string, over: Option<string>): (r: seq<Semester>)
    ensures over == Some(active) ==> r == semesters
    ensures over.Some? && over.value != active && FindIndex(semesters, active) >= 0
            && FindIndex(semesters, over.value) >= 0 ==>
              && |r| == |semesters|
              && IsRenumberedPermutation(r, semesters)
              && r[FindIndex(semesters, over.value)].id == active
              && Sums.RemoveAt(Sums.Map(r, ClearIndexOrder), FindIndex(semesters, over.value))
                 == Sums.RemoveAt(Sums.Map(semesters, ClearIndexOrder), FindIndex(semesters, active))
    ensures FindIndex(semesters, active) < 0 || over.None? || FindIndex(semesters, over.value) < 0 ==>
              r == semesters
  {
    if over == Some(active) then semesters
    else
      var oldIndex := FindIndex(semesters, active);
      var newIndex := if over.Some? then FindIndex(semesters, over.value) else -1;
      if oldIndex < 0 || newIndex < 0 then semesters
      else
        ReorderIsPermutation(semesters, oldIndex, newIndex);
        ReorderKeepsOthersInOrder(semesters, oldIndex, newIndex);
        Renumber(ArrayMove(semesters, oldIndex, newIndex))
  }
}
