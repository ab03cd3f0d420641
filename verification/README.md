# StudyScore grade arithmetic in Dafny

StudyScore is a web app where students record their semesters, the courses in each semester and
each course's graded components (a weight in percent and a score out of 10). This project models
the arithmetic of the app and the pure list rules inside its page handlers:

- the grade engine of `src/lib/gpaUtils.ts`:
  - a course average is Σ score·weight/100 plus an optional bonus, capped at 10 and rounded to tenths;
  - a semester GPA is the credit-weighted mean of the averages of the courses not flagged
    `is_gpa === false`, rounded to hundredths and mapped to the 4-point scale by a 9-tier ladder;
- the copies and variants of that arithmetic elsewhere in the app:
  - the quick converter and reference table of the grade-conversion page;
  - the chart series of the analytics page;
  - the inline course average of the semester page;
  - the cumulative GPA and credit total of the dashboard;
- the list rules of the dashboard (add, delete, drag and arrow reordering) and of the semester
  page (component editing, the delete set and upsert payload of a save, course edit and delete);
- the password checks of `src/lib/authUtils.ts` and the profile form.

Numbers are Dafny `real`, which is exact. JavaScript's `Math.round(x)` is `Floor(x + 0.5)`, so halves
go toward +infinity. "Round to k places" is `Math.round(x * scale) / scale`. Its results are stated
by the predicate `Rounding.RoundsTo(x, scale, r)`: `r` is on the grid of step `1/scale` and within
half a step of `x`, with halves rounding up. `bonus` and `is_gpa` are `Option`s. An absent
`components` list is the empty sequence, because every reader replaces it by `[]`.

Modules follow the source files: `GpaUtils`, `GradeConversion`, `Analytics`, `Dashboard`,
`SemesterDetails`, `AuthUtils` and `Profile`. `Types` holds the records of `src/types/index.ts`.
`Sums` (a left fold like `reduce`, filtering, the one-position `splice`, permutation lemmas),
`Strings` (`trim` and the blank-name test), `Rounding` and `Wrappers` (`Option`) are shared
helpers.

Facts about the code that shape the model:

- Rounding uses `Math.round`, so halves go up (toward +infinity), also for negative values.
- Course averages are capped at 10 from above only. Nothing clamps them from below.
- The analytics page repeats the 9-tier ladder of the grade engine line for line, so its chart
  points use `GpaUtils.Gpa4`.
- A blank name is one that `trim` empties. `Strings.Trim` models `trim` over the ECMAScript
  whitespace and line-terminator characters.

## Model

| member | source | states |
|---|---|---|
| GpaUtils.CourseAverage | src/lib/gpaUtils.ts:3-17 | 0 for a course without components; otherwise the weighted sum plus bonus, capped at 10 and rounded to tenths with halves up; always a multiple of 0.1 and at most 10 |
| GpaUtils.CappedScore | src/lib/gpaUtils.ts:12-13 | the value the average rounds never exceeds 10 |
| GpaUtils.Min | src/lib/gpaUtils.ts:13 | `Math.min` returns one of its arguments and is below both |
| GpaUtils.MissingBonusIsZero | src/lib/gpaUtils.ts:12 | an absent bonus gives the same average as a bonus of 0 |
| GpaUtils.CourseAverageOrderIndependent | src/lib/gpaUtils.ts:7-9 | listing the components in any order gives the same average |
| GpaUtils.CourseAverageInRange | src/lib/gpaUtils.ts:7-14 | with no negative scores, weights or bonus, the average lies in [0, 10] |
| GpaUtils.WeightedMeanExample | src/lib/gpaUtils.ts:7-14 | 8 at 60% and 7 at 40% average exactly 7.6 |
| GpaUtils.CapExample | src/lib/gpaUtils.ts:13-14 | weights summing to 110% plus a bonus of 0.5 are capped at 10.0 |
| GpaUtils.Gpa4 | src/lib/gpaUtils.ts:39-48 | the 4-point tier is one of the nine scale values; it is 4.0 exactly from 9.0 up and 0 exactly below 4.0 |
| GpaUtils.Gpa4Monotone | src/lib/gpaUtils.ts:39-48 | a higher 10-point GPA never gives a lower 4-point tier |
| GpaUtils.Gpa4Boundaries | src/lib/gpaUtils.ts:41-48 | the thresholds are inclusive lower bounds: 9.0 → 4.0, 8.99 → 3.7, 8.5 → 3.7, 8.49 → 3.5, 4.0 → 1.0, 3.99 → 0 |
| GpaUtils.CalculateSemesterGpa | src/lib/gpaUtils.ts:19-55 | processed courses match the input one for one, in order, each with its course average filled in; both figures are 0 when the counted credits are 0; otherwise the GPA is the credit-weighted mean of the counted averages rounded to hundredths, and the 4-point figure is its tier |
| GpaUtils.SemesterExample | src/lib/gpaUtils.ts:23-48 | averages 7.6 and 8.2 over 3 and 4 credits give 7.94 and tier 3.0 |
| GpaUtils.CourseInclusion | src/lib/gpaUtils.ts:26-29 | inserting a course anywhere adds its credit and average × credit to the totals exactly when `is_gpa` is not false |
| GpaUtils.ExcludedCoursesIgnored | src/lib/gpaUtils.ts:26-29 | removing every course with `is_gpa === false` leaves both GPA figures unchanged |
| GpaUtils.SemesterGpaOrderIndependent | src/lib/gpaUtils.ts:23-37 | the order of the courses does not change either GPA figure |
| GpaUtils.WeightedScoreAtMostTenPerCredit | src/lib/gpaUtils.ts:26-29 | with non-negative counted credits the score total is at most 10 per counted credit |
| GpaUtils.WeightedScoreNonNegative | src/lib/gpaUtils.ts:26-29 | with non-negative inputs and credits the score total is not negative |
| GpaUtils.SemesterGpaInRange | src/lib/gpaUtils.ts:37 | with non-negative inputs and credits the semester GPA lies in [0, 10] |
| GradeConversion.Convert10to4 | src/pages/GradeConversion.tsx:12-22 | the result is one of the nine scale values; 4.0 exactly from 9.0 up, 3.7 exactly on [8.5, 9.0), 0 exactly below 4.0 |
| GradeConversion.Convert10to4Monotone | src/pages/GradeConversion.tsx:12-22 | a higher score never converts to a lower grade point |
| GradeConversion.Convert10to4AgreesWithSemesterTier | src/pages/GradeConversion.tsx:12-22 | the converter and the grade engine's semester tier agree on every input |
| GradeConversion.HandleConvert | src/pages/GradeConversion.tsx:24-29 | an input that does not parse leaves the shown result unchanged; a parsed one shows its 4-point value |
| GradeConversion.Convert10to4IsTableLookup | src/pages/GradeConversion.tsx:82-90 | the converter equals reading the displayed reference table top-down by lower bound |
| GradeConversion.ReferenceRowsMatchConverter | src/pages/GradeConversion.tsx:82-90 | both ends of each displayed range convert to that row's grade point |
| GradeConversion.ReferenceRowsContiguous | src/pages/GradeConversion.tsx:82-90 | the displayed ranges run from 10.0 down to 0.0 in tenths without gap or overlap |
| Analytics.ChartCourseScore | src/pages/Analytics.tsx:45-52 | a course's chart score is its weighted sum plus bonus, capped at 10, rounded to tenths, and at most 10 |
| Analytics.ChartGpa10 | src/pages/Analytics.tsx:59 | 0 without chart credits; otherwise the credit-weighted mean of the rounded course scores to hundredths |
| Analytics.ChartPointOf | src/pages/Analytics.tsx:59-76 | a chart point carries the semester's name, the chart GPA `ChartGpa10` of its courses and that GPA's tier on the grade engine's ladder; a semester without courses charts at 0 and 0; the 4-point value is in the nine-value scale and is 4.0 exactly from 9.0 up |
| Analytics.ChartData | src/pages/Analytics.tsx:38-76 | one chart point per semester, in order, with its name, its chart GPA and that GPA's tier in the nine-value scale |
| Analytics.ChartCourseScoreIsCourseAverage | src/pages/Analytics.tsx:45-52 | for a course with components the chart's course score is the grade engine's course average |
| Analytics.EmptyCourseIgnored | src/pages/Analytics.tsx:43-44 | a course without components changes neither chart total nor the chart GPA |
| Analytics.ChartIgnoresIsGpa | src/pages/Analytics.tsx:42-57 | course lists differing only in `is_gpa` chart the same GPA |
| Analytics.ChartAgreesWithEngine | src/pages/Analytics.tsx:42-70 | when every course has a component and none is excluded, the chart's two figures equal the grade engine's |
| Analytics.ChartSingleCourse | src/pages/Analytics.tsx:42-59 | a lone course with components and credits charts at its own course average |
| Analytics.ChartCountsExcludedCourse | src/pages/Analytics.tsx:42-59 | a lone course with `is_gpa === false` gets GPA 0 from the engine but charts at its own average |
| Dashboard.ProcessSemester | src/pages/Dashboard.tsx:86-95 | a fetched semester keeps all its fields but its courses and GPA figures; each course is kept, in order, with the grade engine's course average attached; the stored 10-point GPA is the grade engine's semester GPA and the 4-point figure its tier |
| Dashboard.CumulativeGpa10 | src/pages/Dashboard.tsx:208-210 | 0 without semesters; otherwise the plain mean of the semester GPAs (missing as 0), to hundredths |
| Dashboard.CumulativeGpaOrderIndependent | src/pages/Dashboard.tsx:208-210 | reordering the semesters does not change the cumulative GPA |
| Dashboard.CumulativeGpaInRange | src/pages/Dashboard.tsx:208-210 | semester GPAs in [0, 10] give a cumulative GPA in [0, 10] |
| Dashboard.CumulativeExample | src/pages/Dashboard.tsx:208-210 | semester GPAs 7.94 and 8.5 give 8.22 whatever the credits |
| Dashboard.TotalCredits | src/pages/Dashboard.tsx:212-214 | the credit total is the sum of `credit` over the flat list of every course of every semester, `is_gpa` or not |
| Dashboard.SemesterCreditsOverAllCourses | src/pages/Dashboard.tsx:212-214 | summing credits per semester and then over the semesters equals summing over all courses at once |
| Dashboard.TotalCreditsIncludeExcludedCourses | src/pages/Dashboard.tsx:212-214 | with non-negative credits the credit total is at least the GPA-counted credits, since excluded courses count too |
| Dashboard.TotalCreditsOrderIndependent | src/pages/Dashboard.tsx:212-214 | reordering the semesters does not change the credit total |
| Dashboard.MaxIndexOrder | src/pages/Dashboard.tsx:109 | the maximum bounds every `index_order` and is attained |
| Dashboard.NewIndexOrder | src/pages/Dashboard.tsx:109-116 | a new semester's `index_order` is one past the largest existing one, so above all of them, and 1 for the first |
| Dashboard.AddSemester | src/pages/Dashboard.tsx:105-131 | a blank name or a failed insert changes nothing; otherwise exactly one semester is appended with the typed name, the stored row's id, owner and creation time, no courses, GPA 0 and `index_order` exactly `NewIndexOrder`, one past the largest |
| Dashboard.DeleteSemester | src/pages/Dashboard.tsx:133-148 | without confirmation or on failure nothing changes; otherwise exactly the semesters with that id are dropped and every other one is kept as often as it occurred |
| Dashboard.DeleteSemesterKeepsOrder | src/pages/Dashboard.tsx:144 | deletion keeps the survivors' order: it distributes over concatenation |
| Dashboard.ArrayMove | src/pages/Dashboard.tsx:165 | moving puts the moved element at the target; removing it again gives the list with the source removed; the elements are a permutation |
| Dashboard.ArrayMoveNeighbours | src/pages/Dashboard.tsx:189-192 | moving to an adjacent position in either direction swaps the two elements |
| Dashboard.ArrayMoveToNeighbour | src/pages/Dashboard.tsx:189-192 | a move to a neighbour exchanges the two and leaves every other position in place |
| Dashboard.Renumber | src/pages/Dashboard.tsx:168-171 | each semester's `index_order` becomes its position + 1 and nothing else changes |
| Sums.MapRemoveAt | src/pages/Dashboard.tsx:165 | taking out a position commutes with mapping every element |
| Dashboard.ReorderKeepsOthersInOrder | src/pages/Dashboard.tsx:165-171 | after a move and renumbering, the semesters other than the moved one keep their relative order |
| Dashboard.ReorderIsPermutation | src/pages/Dashboard.tsx:165-171 | a move followed by renumbering is a permutation of the semesters (ignoring `index_order`) with each `index_order` its position + 1 |
| Dashboard.NeighbourMove | src/pages/Dashboard.tsx:192-198 | a neighbour move and renumbering exchange the two semesters and only renumber the others |
| Dashboard.MoveSemester | src/pages/Dashboard.tsx:181-205 | up at the top or down at the bottom changes nothing; any other move swaps with the neighbour, leaves the others in place and renumbers all by position |
| Dashboard.FindIndex | src/pages/Dashboard.tsx:162-163 | `findIndex` gives the first position with the id, -1 exactly when none has it |
| Dashboard.DragEnd | src/pages/Dashboard.tsx:157-179 | dropping on the same id changes nothing; dropping on another present id gives a renumbered permutation with the dragged semester at the target's position and the other semesters in their previous relative order |
| SemesterDetails.ProcessFetchedCourses | src/pages/SemesterDetails.tsx:60-79 | fetched courses are kept one for one, each with the grade engine's course average attached |
| SemesterDetails.InlineAverage | src/pages/SemesterDetails.tsx:60-72 | 0 for a course without components; otherwise the weighted sum plus bonus, capped at 10 and rounded to tenths |
| SemesterDetails.InlineAverageIsCourseAverage | src/pages/SemesterDetails.tsx:60-72 | the page's inline average equals the grade engine's course average, 0 without components included |
| SemesterDetails.AddComponent | src/pages/SemesterDetails.tsx:190-202 | exactly one component is appended, with a `temp-` id, weight 0 and score 0; the others are unchanged and so is the weighted sum |
| SemesterDetails.RemoveComponent | src/pages/SemesterDetails.tsx:204-208 | exactly the component at the index is removed; the others keep their order |
| SemesterDetails.RemoveUndoesAdd | src/pages/SemesterDetails.tsx:190-208 | removing the component just added gives back the list |
| SemesterDetails.UpdateComponent | src/pages/SemesterDetails.tsx:146-150 | only the named field of the component at the index changes |
| SemesterDetails.UpdateComponentWeightedSum | src/pages/SemesterDetails.tsx:146-150 | an edit moves the weighted sum by exactly the change in that component's points; a name edit leaves it alone |
| SemesterDetails.CurrentIds | src/pages/SemesterDetails.tsx:230 | an id is current exactly when an edited component without a `temp-` id carries it |
| SemesterDetails.IdsToDelete | src/pages/SemesterDetails.tsx:229-231 | an id is deleted exactly when it is an original id that no stored edited component keeps |
| SemesterDetails.UpsertPayload | src/pages/SemesterDetails.tsx:239-249 | one entry per edited component in order, all attached to the course, with the id left out exactly for `temp-` ids |
| SemesterDetails.UpsertedIdsNotDeleted | src/pages/SemesterDetails.tsx:227-249 | no id the upsert keeps is among the deleted ids |
| SemesterDetails.FindCourse | src/pages/SemesterDetails.tsx:227 | `find` gives the first course with the id, or none when no course has it |
| SemesterDetails.SaveComponents | src/pages/SemesterDetails.tsx:210-256 | nothing is sent unless a course is being edited; the bonus is sent first and, when that fails, nothing is deleted or upserted; otherwise the deleted ids are `IdsToDelete` of the course's original components (none for a course not in the list), the upsert is `UpsertPayload` of the edited components, and no upserted id is deleted |
| SemesterDetails.SaveCourseInfo | src/pages/SemesterDetails.tsx:164-188 | without an edited course, with a blank name or on failure nothing changes; otherwise exactly the courses with that id take the new name and credit |
| SemesterDetails.SaveCourseInfoKeepsAverages | src/pages/SemesterDetails.tsx:179-183 | editing a course's name and credit never changes any course average |
| SemesterDetails.DeleteCourse | src/pages/SemesterDetails.tsx:117-132 | without confirmation or on failure nothing changes; otherwise exactly the courses with that id are dropped and every other one is kept as often as it occurred |
| SemesterDetails.DeleteCourseKeepsOrder | src/pages/SemesterDetails.tsx:128 | deletion keeps the remaining courses' order: it distributes over concatenation |
| Strings.IsBlank | src/pages/Dashboard.tsx:106 | `!name.trim()` holds exactly when every character of the name is whitespace or a line terminator |
| AuthUtils.Utf16Length | src/lib/authUtils.ts:13 | a string's JavaScript length is between its character count and twice that |
| AuthUtils.ValidatePassword | src/lib/authUtils.ts:9-15 | a mismatch is reported first; a matching password shorter than 6 is too short; it passes exactly when both match and the length is at least 6 |
| AuthUtils.UpdateUserPassword | src/lib/authUtils.ts:8-28 | success exactly when both checks pass and the service reports no error; a failed check's message is returned; a service error returns the service's own message, or the fallback message when that is empty; success carries the success message and a failure never an empty one |
| AuthUtils.RejectedBeforeService | src/lib/authUtils.ts:9-18 | a password that fails a check gets the same outcome whatever the service would answer |
| AuthUtils.MismatchCheckedFirst | src/lib/authUtils.ts:9-15 | a short, mismatched pair is reported as a mismatch |
| AuthUtils.LengthBoundaryInclusive | src/lib/authUtils.ts:13 | six characters pass and five do not |
| AuthUtils.AstralCharactersCountTwice | src/lib/authUtils.ts:13 | three characters outside the Basic Multilingual Plane already reach length 6 |
| Profile.PasswordFormError | src/pages/Profile.tsx:53-62 | the form shows only the mismatch or the too-short message |
| Profile.FormMatchesAuthUtils | src/pages/Profile.tsx:53-62 | the form applies the same two rules, in the same order, with the same messages as `updateUserPassword` |
| Rounding.Round | src/lib/gpaUtils.ts:14 | `Math.round` lands within half a unit of its argument, halves going up |
| Rounding.RoundTo | src/lib/gpaUtils.ts:14 | rounding to a grid lands on the grid within half a step, halves going up |
| Rounding.RoundsToUnique | src/lib/gpaUtils.ts:37 | only one grid point satisfies the rounding characterization |

## Left out

- All calls to the hosted backend: fetch, insert, update, upsert, delete, authentication and the
  order persistence in `src/lib/semesterUtils.ts`. Their outcomes are inputs: `stored`, `deleted`,
  `updated`, `bonusSaved` and `serviceError`.
- The `confirm()` dialogs. Their answer is the `confirmed` input.
- React state, effects, routing and rendering; the Register, ForgotPassword and ResetPassword pages;
  the profile realtime subscription; the database migration script.
- The refetch after saving components and the error of the upsert itself. Both come after
  everything the save sends, and the refetch is a backend read.
- `handleAddCourse` of the semester page. It only inserts a backend row and appends it.
- IEEE-754 floating point. Numbers are exact rationals, so a rounding result can differ from the
  browser's where binary representation error crosses a half.
- `parseFloat` and `NaN`. A parse is an `Option<real>` input.
- `toFixed` display formatting.
- `Date.now()` and `toISOString()`. The clock reading and timestamp are opaque string inputs, and a
  `temp-` id is `"temp-"` followed by the reading.
- dnd-kit's `arrayMove` code. It is stated by its specification: take out at the source index,
  insert at the target index.
- Dashboard.DragEnd: the model leaves the list unchanged when the drop has no target or an id is not
  in the list. The page instead passes index -1 to `arrayMove`, whose code is not part of this model.
- SemesterDetails.RemoveComponent and SemesterDetails.UpdateComponent: require an index within the
  list. The page only passes indices of rendered rows; `splice` and index assignment past the end
  are not modelled.
- Dashboard.MoveSemester: requires an index within the list, for the same reason.
