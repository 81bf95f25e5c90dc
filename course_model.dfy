/** The course document of server/models/CourseModel.js. */
module CourseModel {
  import opened Outcomes
  import opened Ids
  import opened Text

  /** The `semester` enum; the first name is spelt "Ist Semester" in the schema. */
  datatype Semester = FirstSemester | SecondSemester

  function SemesterName(s: Semester): string
  {
    match s
    case FirstSemester => "Ist Semester"
    case SecondSemester => "2nd Semester"
  }

  /** The enum check on `semester`. */
  function ParseSemester(s: string): (r: Option<Semester>)
    ensures r.Some? <==> s == "Ist Semester" || s == "2nd Semester"
    ensures r.Some? ==> SemesterName(r.value) == s
  {
    if s == "Ist Semester" then Some(FirstSemester)
    else if s == "2nd Semester" then Some(SecondSemester)
    else None
  }

  lemma SemesterNameRoundTrip(s: Semester)
    ensures ParseSemester(SemesterName(s)) == Some(s)
  {
  }

  /** The fields of a course document the core reads or writes. */
  datatype Course = Course(
    title: string,
    code: string,
    unit: int,
    lecturer: Option<string>,
    department: Option<DepartmentId>,
    enrolledStudents: seq<UserId>,
    semester: Semester,
    isActive: bool)

  /** The schema's validators on one stored document: title and code present,
      1 <= unit <= 6, and the code in the upper case its setter produces. */
  predicate ValidCourse(c: Course)
  {
    c.title != "" && c.code != "" && Upper(c.code) == c.code && 1 <= c.unit <= 6
  }

  /** The document built by Course.create: the `uppercase` setter applied to
      the code, no lecturer, no students, active by default. */
  function NewCourse(title: string, code: string, unit: int, department: DepartmentId, semester: Semester)
    : Course
  {
    Course(title, Upper(code), unit, None, Some(department), [], semester, true)
  }

  /** A new course passes validation exactly when title and code are present
      and the unit lies in 1..6; it starts active, empty and upper-cased. */
  lemma NewCourseValid(title: string, code: string, unit: int, department: DepartmentId, semester: Semester)
    ensures ValidCourse(NewCourse(title, code, unit, department, semester)) <==>
      title != "" && code != "" && 1 <= unit <= 6
    ensures var c := NewCourse(title, code, unit, department, semester);
      c.isActive && c.enrolledStudents == [] && c.code == Upper(code)
  {
    UpperIdempotent(code);
  }

  /** The unique index on course titles. */
  ghost predicate TitlesUnique(cs: seq<Course>)
  {
    forall i, j :: 0 <= i < j < |cs| ==> cs[i].title != cs[j].title
  }
}
