/** The records of src/types/index.ts, as the pages hold them after a fetch: a course carries its
    components and a semester its courses. Numbers are exact rationals; ids and timestamps are
    opaque strings. */
module Types {
  import opened Wrappers

  /** A row of `course_components`: `weight` is a percentage of the course, `score` is out of 10. */
  datatype Component = Component(
    id: string,
    courseId: string,
    name: string,
    weight: real,
    score: real,
    createdAt: string)

  /** A row of `courses` joined with its components. `bonus` and `isGpa` may be absent; an absent
      `components` list is the empty one, since every reader replaces it by `[]`. */
  datatype Course = Course(
    id: string,
    semesterId: string,
    userId: string,
    name: string,
    credit: real,
    bonus: Option<real>,
    isGpa: Option<bool>,
    createdAt: string,
    components: seq<Component>,
    averageScore: Option<real>)

  /** A row of `semesters` joined with its courses and the GPA figures computed for it. */
  datatype Semester = Semester(
    id: string,
    userId: string,
    name: string,
    indexOrder: int,
    createdAt: string,
    courses: seq<Course>,
    semesterGpa10: Option<real>,
    semesterGpa4: Option<real>)

  /** The key a semester is looked up and deleted by. */
  function SemesterId(s: Semester): string
  {
    s.id
  }

  /** The key a course is looked up and deleted by. */
  function CourseId(c: Course): string
  {
    c.id
  }
}
