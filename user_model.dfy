/** The user document of server/models/UserModel.js: one collection for
    students, administrators and lecturers. */
module UserModel {
  import opened Outcomes
  import opened Ids

  /** The `role` enum. */
  datatype Role = Student | Admin | Lecturer

  function RoleName(r: Role): string
  {
    match r
    case Student => "student"
    case Admin => "Admin"
    case Lecturer => "Lecturer"
  }

  /** The enum check on `role`: exactly the three names, compared case-sensitively. */
  function ParseRole(s: string): (r: Option<Role>)
    ensures r.Some? <==> s == "student" || s == "Admin" || s == "Lecturer"
    ensures r.Some? ==> RoleName(r.value) == s
  {
    if s == "student" then Some(Student)
    else if s == "Admin" then Some(Admin)
    else if s == "Lecturer" then Some(Lecturer)
    else None
  }

  lemma RoleNameRoundTrip(r: Role)
    ensures ParseRole(RoleName(r)) == Some(r)
  {
  }

  /** The `gender` enum. */
  datatype Gender = Male | Female | Others

  /** One element of the embedded `courses` array. */
  datatype CourseEntry = CourseEntry(courseId: CourseId, courseName: string, grade: Option<string>)

  /** The fields of a user document the core reads or writes. */
  datatype User = User(
    firstName: string,
    lastName: string,
    password: string,
    email: string,
    gender: Gender,
    courses: seq<CourseEntry>,
    isActive: bool,
    faculty: Option<FacultyId>,
    department: Option<DepartmentId>,
    role: Role,
    regNo: Option<string>,
    yearOfStudy: Option<int>)

  /** regNo's `required` function. */
  predicate RegNoRequired(role: Role) { role == Student }

  /** yearOfStudy's `required` function. */
  predicate YearOfStudyRequired(role: Role) { role == Student }

  /** department's `required` function as written: its body is an expression
      statement without `return`, so it yields undefined and the field is
      never required (the role it compares with, "lecturer", is not even one of
      the enum's values). */
  function DepartmentRequiredAsWritten(role: Role): bool
  {
    false
  }

  /** department's `required` function as evidently intended: lecturers must
      belong to a department. */
  predicate DepartmentRequired(role: Role) { role == Lecturer }

  /** yearOfStudy's `default` function. */
  function DefaultYearOfStudy(role: Role, currentYear: int): Option<int>
  {
    if role == Student then Some(currentYear) else None
  }

  /** The document built by User.create: the given fields plus the schema's
      defaults (gender "Others", no courses, active, role "student" when none
      is given, yearOfStudy by the default function). */
  function NewUser(
    firstName: string, lastName: string, password: string, email: string,
    role: Option<Role>, regNo: Option<string>,
    faculty: Option<FacultyId>, department: Option<DepartmentId>,
    currentYear: int): User
  {
    var r := if role.Some? then role.value else Student;
    User(firstName, lastName, password, email, Others, [], true,
         faculty, department, r, regNo, DefaultYearOfStudy(r, currentYear))
  }

  /** The validators every role shares (an empty string fails `required`). */
  predicate ValidUserFields(u: User)
  {
    && u.firstName != ""
    && u.lastName != ""
    && u.password != "" && |u.password| >= 6
    && u.email != ""
    && (RegNoRequired(u.role) ==> u.regNo.Some? && u.regNo.value != "")
    && (YearOfStudyRequired(u.role) ==> u.yearOfStudy.Some?)
  }

  /** The schema's validators as written, with department's `required`
      function yielding undefined. */
  predicate ValidUserAsWritten(u: User)
  {
    ValidUserFields(u) && (DepartmentRequiredAsWritten(u.role) ==> u.department.Some?)
  }

  /** The schema's validators as evidently intended: the corrected schema,
      which the rest of the model stores. */
  predicate ValidUser(u: User)
  {
    ValidUserFields(u) && (DepartmentRequired(u.role) ==> u.department.Some?)
  }

  /** As written, a lecturer without a department passes validation, which the
      corrected schema refuses; for every other document the two agree. */
  lemma LecturerWithoutDepartment()
    ensures var u := NewUser("Ada", "Lovelace", "secret", "ada@university.com",
                             Some(Lecturer), None, None, None, 2025);
      ValidUserAsWritten(u) && !ValidUser(u)
    ensures forall u: User :: ValidUser(u) ==> ValidUserAsWritten(u)
    ensures forall u: User :: ValidUserAsWritten(u) && !ValidUser(u) ==> u.role == Lecturer && u.department.None?
  {
  }

  /** A new document passes validation exactly when its names and email are
      present, its stored password has at least six characters, a student has
      a non-empty regNo and a lecturer a department; the yearOfStudy default
      always satisfies the yearOfStudy requirement. */
  lemma NewUserValid(
    firstName: string, lastName: string, password: string, email: string,
    role: Option<Role>, regNo: Option<string>,
    faculty: Option<FacultyId>, department: Option<DepartmentId>,
    currentYear: int)
    ensures var u := NewUser(firstName, lastName, password, email, role, regNo, faculty, department, currentYear);
      ValidUser(u) <==>
        && firstName != "" && lastName != "" && |password| >= 6 && email != ""
        && (u.role == Student ==> regNo.Some? && regNo.value != "")
        && (u.role == Lecturer ==> department.Some?)
    ensures var u := NewUser(firstName, lastName, password, email, role, regNo, faculty, department, currentYear);
      u.role == (if role.Some? then role.value else Student) &&
      (u.yearOfStudy.Some? <==> u.role == Student) &&
      u.gender == Others && u.courses == [] && u.isActive
  {
  }

  /** The unique indexes on email and regNo. The regNo index is not sparse,
      so a missing regNo counts as a value too: two documents without one
      collide. */
  ghost predicate KeysUnique(users: seq<User>)
  {
    forall i, j :: 0 <= i < j < |users| ==>
      users[i].email != users[j].email && users[i].regNo != users[j].regNo
  }

  /** What User.create checks before inserting u, under the corrected
      schema: its validators, then the two unique indexes against the
      documents already stored. */
  predicate Insertable(users: seq<User>, u: User)
  {
    ValidUser(u) &&
    forall i :: 0 <= i < |users| ==> users[i].email != u.email && users[i].regNo != u.regNo
  }

  lemma InsertKeepsKeysUnique(users: seq<User>, u: User)
    requires KeysUnique(users) && Insertable(users, u)
    ensures KeysUnique(users + [u])
  {
  }
}
