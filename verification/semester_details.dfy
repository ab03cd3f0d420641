/** The course list of one semester on src/pages/SemesterDetails.tsx: the averages computed when it
    loads, the in-place editing of a course's components, what saving those edits deletes and
    upserts, and the local updates after editing or deleting a course. */
module SemesterDetails {
  import opened Wrappers
  import opened Types
  import Strings
  import Sums
  import Rounding
  import GpaUtils

  /** The average the page computes inline for each fetched course. */
  function InlineAverage(course: Course): (r: real)
    ensures |course.components| == 0 ==> r == 0.0
    ensures |course.components| > 0 ==> Rounding.RoundsTo(GpaUtils.CappedScore(course), 10.0, r)
  {
    var components := course.components;
    if |components| > 0 then
      var weightedSum := Sums.Sum(components, GpaUtils.Points);
      var bonus := course.bonus.GetOr(0.0);
      Rounding.RoundTo(GpaUtils.Min(weightedSum + bonus, 10.0), 10.0)
    else 0.0
  }

  function ProcessFetchedCourse(course: Course): Course
  {
    course.(averageScore := Some(InlineAverage(course)))
  }

  /** The fetched courses as the page stores them: unchanged but for an average that is the grade
      engine's course average. */
  function ProcessFetchedCourses(courses: seq<Course>): (r: seq<Course>)
    ensures |r| == |courses|
    ensures forall i :: 0 <= i < |courses| ==> r[i].averageScore == Some(GpaUtils.CourseAverage(courses[i]))
    ensures forall i :: 0 <= i < |courses| ==> r[i].(averageScore := courses[i].averageScore) == courses[i]
  {
    forall c | c in courses
      ensures InlineAverage(c) == GpaUtils.CourseAverage(c)
    {
      InlineAverageIsCourseAverage(c);
    }
    Sums.Map(courses, ProcessFetchedCourse)
  }

  lemma InlineAverageIsCourseAverage(course: Course)
    ensures InlineAverage(course) == GpaUtils.CourseAverage(course)
  {
  }

  /** The prefix that marks a component created in the editor and not yet stored. */
  const TempPrefix: string := "temp-"

  /** `id.startsWith('temp-')`. */
  predicate IsTemp(id: string)
  {
    |TempPrefix| <= |id| && id[..|TempPrefix|] == TempPrefix
  }

  /** `handleAddComponent`: a new component is appended with weight and score 0. Its id is
      `temp-` followed by `stamp`, which stands for the clock reading, and `now` for its timestamp. */
  function AddComponent(components: seq<Component>, courseId: string, stamp: string, now: string)
    : (r: seq<Component>)
    ensures |r| == |components| + 1
    ensures r[..|components|] == components
    ensures var added := r[|components|];
            IsTemp(added.id) && added.courseId == courseId && added.name == "New Component"
            && added.weight == 0.0 && added.score == 0.0
    ensures GpaUtils.WeightedSum(r) == GpaUtils.WeightedSum(components)
  {
    var added := Component(TempPrefix + stamp, courseId, "New Component", 0.0, 0.0, now);
    assert (components + [added])[..|components|] == components;
    assert (TempPrefix + stamp)[..|TempPrefix|] == TempPrefix;
    Sums.SumAppend(components, [added], GpaUtils.Points);
    Sums.SumSingleton(added, GpaUtils.Points);
    components + [added]
  }

  /** `handleRemoveComponent`: `splice(index, 1)` on a copy. */
  function RemoveComponent(components: seq<Component>, index: nat): (r: seq<Component>)
    requires index < |components|
    ensures |r| == |components| - 1
    ensures forall k :: 0 <= k < index ==> r[k] == components[k]
    ensures forall k :: index <= k < |r| ==> r[k] == components[k + 1]
    ensures multiset(r) + multiset{components[index]} == multiset(components)
  {
    Sums.RemoveAt(components, index)
  }

  /** Removing the component just added gives back the list as it was. */
  lemma RemoveUndoesAdd(components: seq<Component>, courseId: string, stamp: string, now: string)
    ensures RemoveComponent(AddComponent(components, courseId, stamp, now), |components|) == components
  {
  }

  /** The fields the editor changes: `handleUpdateComponent(idx, 'name' | 'weight' | 'score', value)`. */
  datatype ComponentEdit = SetName(name: string) | SetWeight(weight: real) | SetScore(score: real)

  function ApplyEdit(c: Component, edit: ComponentEdit): Component
  {
    match edit
    case SetName(n) => c.(name := n)
    case SetWeight(w) => c.(weight := w)
    case SetScore(s) => c.(score := s)
  }

  /** `handleUpdateComponent`: only the named field of the component at `index` changes. */
  function UpdateComponent(components: seq<Component>, index: nat, edit: ComponentEdit): (r: seq<Component>)
    requires index < |components|
    ensures |r| == |components|
    ensures forall k :: 0 <= k < |r| && k != index ==> r[k] == components[k]
    ensures r[index].id == components[index].id && r[index].courseId == components[index].courseId
    ensures r[index].createdAt == components[index].createdAt
    ensures r[index].name == (if edit.SetName? then edit.name else components[index].name)
    ensures r[index].weight == (if edit.SetWeight? then edit.weight else components[index].weight)
    ensures r[index].score == (if edit.SetScore? then edit.score else components[index].score)
  {
    components[index := ApplyEdit(components[index], edit)]
  }

  /** An edit moves the weighted sum by exactly the change in the edited component's points, so a
      name edit leaves it alone. */
  lemma UpdateComponentWeightedSum(components: seq<Component>, index: nat, edit: ComponentEdit)
    requires index < |components|
    ensures GpaUtils.WeightedSum(UpdateComponent(components, index, edit))
            == GpaUtils.WeightedSum(components) - GpaUtils.Points(components[index])
               + GpaUtils.Points(ApplyEdit(components[index], edit))
    ensures edit.SetName? ==>
              GpaUtils.WeightedSum(UpdateComponent(components, index, edit)) == GpaUtils.WeightedSum(components)
  {
    Sums.SumUpdate(components, index, ApplyEdit(components[index], edit), GpaUtils.Points);
  }

  function ComponentId(c: Component): string
  {
    c.id
  }

  predicate IsStored(c: Component)
  {
    !IsTemp(c.id)
  }

  /** `currentIds`: the ids of the edited components that are already stored. */
  function CurrentIds(edited: seq<Component>): (r: seq<string>)
    ensures forall id :: id in r <==> exists c :: c in edited && c.id == id && !IsTemp(id)
  {
    var stored := Sums.Filter(edited, IsStored);
    var r := Sums.Map(stored, ComponentId);
    Sums.FilterMultiplicity(edited, IsStored);
    forall id | id in r
      ensures exists c :: c in edited && c.id == id && !IsTemp(id)
    {
      var i :| 0 <= i < |r| && r[i] == id;
      assert stored[i] in stored;
    }
    forall id | exists c :: c in edited && c.id == id && !IsTemp(id)
      ensures id in r
    {
      var c :| c in edited && c.id == id && !IsTemp(id);
      assert c in stored;
      var i :| 0 <= i < |stored| && stored[i] == c;
      assert r[i] == id;
    }
    r
  }

  function NotIn(ids: seq<string>): string -> bool
  {
    (id: string) => id !in ids
  }

  /** `idsToDelete`: the original components' ids, in order, that no stored edited component keeps. */
  function IdsToDelete(original: seq<Component>, edited: seq<Component>): (r: seq<string>)
    ensures forall id :: id in r <==>
              (id in Sums.Map(original, ComponentId)
               && !exists c :: c in edited && c.id == id && !IsTemp(id))
    ensures |r| <= |original|
  {
    Sums.FilterMultiplicity(Sums.Map(original, ComponentId), NotIn(CurrentIds(edited)));
    Sums.Filter(Sums.Map(original, ComponentId), NotIn(CurrentIds(edited)))
  }

  /** An entry of the upsert sent to `course_components`; `id` is left out for new components. */
  datatype UpsertRow = UpsertRow(id: Option<string>, courseId: string, name: string, weight: real, score: real)

  function UpsertRowOf(c: Component, courseId: string): UpsertRow
  {
    UpsertRow(if IsTemp(c.id) then None else Some(c.id), courseId, c.name, c.weight, c.score)
  }

  /** `componentsToUpsert`: one entry per edited component, in order, each attached to the edited
      course, without an id exactly for the components created in the editor. */
  function UpsertPayload(edited: seq<Component>, courseId: string): (r: seq<UpsertRow>)
    ensures |r| == |edited|
    ensures forall i :: 0 <= i < |r| ==> (r[i].id.None? <==> IsTemp(edited[i].id))
    ensures forall i :: 0 <= i < |r| && r[i].id.Some? ==> r[i].id.value == edited[i].id
    ensures forall i :: 0 <= i < |r| ==>
              r[i].courseId == courseId && r[i].name == edited[i].name
              && r[i].weight == edited[i].weight && r[i].score == edited[i].score
  {
    seq(|edited|, i requires 0 <= i < |edited| => UpsertRowOf(edited[i], courseId))
  }

  /** A saved component is never deleted: no id the upsert keeps is among those deleted. */
  lemma UpsertedIdsNotDeleted(original: seq<Component>, edited: seq<Component>, courseId: string)
    ensures forall row :: row in UpsertPayload(edited, courseId) && row.id.Some? ==>
              row.id.value !in IdsToDelete(original, edited)
  {
    var payload := UpsertPayload(edited, courseId);
    forall row | row in payload && row.id.Some?
      ensures row.id.value !in IdsToDelete(original, edited)
    {
      var i :| 0 <= i < |payload| && payload[i] == row;
      assert edited[i] in edited && edited[i].id == row.id.value;
    }
  }

  /** The first course with the given id (`courses.find`). */
  function FindCourse(courses: seq<Course>, id: string): (r: Option<Course>)
    ensures r.Some? ==> r.value in courses && r.value.id == id
    ensures r.Some? ==> exists i :: 0 <= i < |courses| && courses[i] == r.value
                                    && forall k :: 0 <= k < i ==> courses[k].id != id
    ensures r.None? ==> forall c :: c in courses ==> c.id != id
  {
    if |courses| == 0 then None
    else if courses[0].id == id then Some(courses[0])
    else FindCourse(courses[1..], id)
  }

  /** What saving a course's component edits sends: the new bonus, the ids to delete and the
      upsert. */
  datatype SavePlan = SavePlan(bonus: real, idsToDelete: seq<string>, upserts: seq<UpsertRow>)

  /** A JavaScript string that is truthy: present and non-empty. */
  predicate IsTruthy(s: Option<string>)
  {
    s.Some? && |s.value| > 0
  }

  /** `saveComponents`: nothing is sent unless a course is being edited. The bonus update goes
      first; `bonusSaved` is its outcome. When it fails the handler stops, so nothing is deleted or
      upserted. Otherwise the original components of the course (none when it is not in the list)
      that the edits dropped are deleted, and the edited components are upserted. */
  function SaveComponents(courses: seq<Course>, editingCourseId: Option<string>, edited: seq<Component>,
                          bonus: real, bonusSaved: bool): (r: Option<SavePlan>)
    ensures !IsTruthy(editingCourseId) <==> r.None?
    ensures r.Some? ==> r.value.bonus == bonus
    ensures r.Some? && !bonusSaved ==> r.value.idsToDelete == [] && r.value.upserts == []
    ensures r.Some? && bonusSaved ==> r.value.upserts == UpsertPayload(edited, editingCourseId.value)
    ensures r.Some? && bonusSaved ==>
              match FindCourse(courses, editingCourseId.value)
              case Some(original) => r.value.idsToDelete == IdsToDelete(original.components, edited)
              case None => r.value.idsToDelete == []
    ensures r.Some? ==> forall row :: row in r.value.upserts ==> row.courseId == editingCourseId.value
    ensures r.Some? ==> forall row :: row in r.value.upserts && row.id.Some? ==>
                          row.id.value !in r.value.idsToDelete
  {
    if !IsTruthy(editingCourseId) then None
    else if !bonusSaved then Some(SavePlan(bonus, [], []))
    else
      var courseId := editingCourseId.value;
      var toDelete := match FindCourse(courses, courseId) {
        case Some(original) =>
          UpsertedIdsNotDeleted(original.components, edited, courseId);
          IdsToDelete(original.components, edited)
        case None => []
      };
      Some(SavePlan(bonus, toDelete, UpsertPayload(edited, courseId)))
  }

  /** `saveCourseInfo`'s local update: when a course is being edited, the name is not blank and the
      update succeeds, the course with that id takes the new name and credit; nothing else changes. */
  function SaveCourseInfo(courses: seq<Course>, editingId: Option<string>, name: string, credit: real,
                          updated: bool): (r: seq<Course>)
    ensures !IsTruthy(editingId) || Strings.IsBlank(name) || !updated ==> r == courses
    ensures |r| == |courses|
    ensures forall i :: 0 <= i < |r| ==> r[i].(name := courses[i].name, credit := courses[i].credit) == courses[i]
    ensures IsTruthy(editingId) && !Strings.IsBlank(name) && updated ==>
              forall i :: 0 <= i < |r| ==>
                if courses[i].id == editingId.value then r[i].name == name && r[i].credit == credit
                else r[i] == courses[i]
  {
    if !IsTruthy(editingId) || Strings.IsBlank(name) || !updated then courses
    else
      seq(|courses|, i requires 0 <= i < |courses| =>
        if courses[i].id == editingId.value then courses[i].(name := name, credit := credit) else courses[i])
  }

  /** Editing a course's name and credit never changes any course average. */
  lemma SaveCourseInfoKeepsAverages(courses: seq<Course>, editingId: Option<string>, name: string,
                                    credit: real, updated: bool)
    ensures forall i :: 0 <= i < |courses| ==>
              GpaUtils.CourseAverage(SaveCourseInfo(courses, editingId, name, credit, updated)[i])
              == GpaUtils.CourseAverage(courses[i])
  {
    var r := SaveCourseInfo(courses, editingId, name, credit, updated);
    forall i | 0 <= i < |courses|
      ensures GpaUtils.CourseAverage(r[i]) == GpaUtils.CourseAverage(courses[i])
    {
      assert r[i].components == courses[i].components && r[i].bonus == courses[i].bonus;
    }
  }

  /** `handleDeleteCourse`: once the user confirms and the delete succeeds, only the courses with that
      id are dropped; otherwise nothing changes. */
  function DeleteCourse(courses: seq<Course>, id: string, confirmed: bool, deleted: bool): (r: seq<Course>)
    ensures !confirmed || !deleted ==> r == courses
    ensures confirmed && deleted ==>
              && (forall c :: c in r ==> c.id != id && c in courses)
              && (forall c :: c in courses && c.id != id ==> multiset(r)[c] == multiset(courses)[c])
  {
    if confirmed && deleted then
      Sums.FilterMultiplicity(courses, Sums.KeepUnless(CourseId, id));
      Sums.Filter(courses, Sums.KeepUnless(CourseId, id))
    else courses
  }

  /** Deleting keeps the remaining courses in their order: it acts on each part of a list separately. */
  lemma DeleteCourseKeepsOrder(a: seq<Course>, b: seq<Course>, id: string)
    ensures DeleteCourse(a + b, id, true, true) == DeleteCourse(a, id, true, true) + DeleteCourse(b, id, true, true)
  {
    Sums.FilterAppend(a, b, Sums.KeepUnless(CourseId, id));
  }
}
