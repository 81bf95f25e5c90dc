/** Account and directory handlers (server/controllers/authControllers.js):
    student sign-up, login, and the creation of faculties and departments.
    bcrypt is the pair of parameters `hash` and `matches`; a signed JWT is
    modelled by the claims it carries. */
module AuthController {
  import opened Outcomes
  import opened Ids
  import opened Text
  import opened Directory
  import opened UserModel
  import opened CourseModel
  import opened Database
  import opened RegNo
  import Query

  /** The claims of a signed token. Sign-up stores the email under the key
      "email", login under the key "student". */
  datatype Claims = Claims(userId: UserId, emailKey: string, email: string, firstName: string)

  /** Student.findOne({ email }). */
  function FindUserByEmail(users: seq<User>, email: string): (r: Option<UserId>)
    ensures r.Some? ==> r.value < |users| && users[r.value].email == email
    ensures r.None? <==> forall i :: 0 <= i < |users| ==> users[i].email != email
  {
    Query.FindOne(users, (u: User) => u.email == email)
  }

  // ---------------------------------------------------------------------
  // signup

  /** The body of POST /signup; an empty string is a missing field. */
  datatype SignupRequest = SignupRequest(
    firstName: string, lastName: string, password: string, email: string,
    facultyName: string, departmentName: string)

  predicate AnyMissing(req: SignupRequest)
  {
    req.firstName == "" || req.lastName == "" || req.password == "" || req.email == "" ||
    req.facultyName == "" || req.departmentName == ""
  }

  /** The 500 answered when Student.create rejects the document (a failed
      validator or a duplicate key); Mongoose's own error text is not modelled. */
  const CreateRejected: string := "Student.create rejected the document"

  /** signup up to the insert: the student document, or the error answered.
      The department is looked up by name alone, while generateRegNo looks it
      up inside the named faculty. */
  function SignupOutcome(
    fs: seq<Faculty>, ds: seq<Department>, us: seq<User>, req: SignupRequest,
    fullYear: nat, hash: string -> string): Result<User, Failure>
  {
    if AnyMissing(req) then Err(ServerError("All fields are required"))
    else match FindFacultyByName(fs, req.facultyName)
      case None => Err(NotFound("Faculty does not exist "))
      case Some(f) =>
        match FindDepartmentByName(ds, req.departmentName)
        case None => Err(NotFound("department doesnt exist"))
        case Some(d) =>
          if FindUserByEmail(us, req.email).Some? then Err(Conflict("student already exists, log in "))
          else match GenerateRegNo(fs, ds, us, fullYear, req.facultyName, req.departmentName)
            case Err(e) => Err(ServerError(e.Message()))
            case Ok(regNo) =>
              var u := NewUser(req.firstName, req.lastName, hash(req.password), req.email,
                               None, Some(regNo), Some(f), Some(d), fullYear);
              if Insertable(us, u) then Ok(u) else Err(ServerError(CreateRejected))
  }

  /** The checks run in order (missing field, unknown faculty, unknown
      department name, taken email, regNo scope) and the first that fails
      decides the answer. A created student is a student of the named
      faculty and department with the generated regNo and the HASH of the
      password, and it passes the schema and the unique indexes. */
  lemma SignupChecks(
    fs: seq<Faculty>, ds: seq<Department>, us: seq<User>, req: SignupRequest,
    fullYear: nat, hash: string -> string)
    ensures var r := SignupOutcome(fs, ds, us, req, fullYear, hash);
      var facultyKnown := exists i :: 0 <= i < |fs| && fs[i].name == req.facultyName;
      var deptKnown := exists i :: 0 <= i < |ds| && ds[i].name == req.departmentName;
      var emailTaken := exists i :: 0 <= i < |us| && us[i].email == req.email;
      && (AnyMissing(req) ==> r == Err(ServerError("All fields are required")))
      && (!AnyMissing(req) && !facultyKnown ==> r == Err(NotFound("Faculty does not exist ")))
      && (!AnyMissing(req) && facultyKnown && !deptKnown ==> r == Err(NotFound("department doesnt exist")))
      && (!AnyMissing(req) && facultyKnown && deptKnown && emailTaken ==>
            r == Err(Conflict("student already exists, log in ")))
      && (!AnyMissing(req) && facultyKnown && deptKnown && !emailTaken &&
          GenerateRegNo(fs, ds, us, fullYear, req.facultyName, req.departmentName).Err? ==>
            r == Err(ServerError(GenerateRegNo(fs, ds, us, fullYear, req.facultyName, req.departmentName).error.Message())))
    ensures var r := SignupOutcome(fs, ds, us, req, fullYear, hash);
      r.Ok? ==>
        && GenerateRegNo(fs, ds, us, fullYear, req.facultyName, req.departmentName).Ok?
        && r.value.regNo == Some(GenerateRegNo(fs, ds, us, fullYear, req.facultyName, req.departmentName).value)
        && r.value.password == hash(req.password)
        && r.value.email == req.email && r.value.firstName == req.firstName && r.value.lastName == req.lastName
        && r.value.role == Student && r.value.yearOfStudy == Some(fullYear) && r.value.courses == []
        && r.value.faculty == FindFacultyByName(fs, req.facultyName)
        && r.value.department == FindDepartmentByName(ds, req.departmentName)
        && Insertable(us, r.value)
  {
  }

  /** Past the handler's own checks, the student is created exactly when the
      generated regNo is held by nobody and the stored hash is long enough
      for the schema; otherwise User.create rejects the document with a 500. */
  lemma SignupSucceeds(
    fs: seq<Faculty>, ds: seq<Department>, us: seq<User>, req: SignupRequest,
    fullYear: nat, hash: string -> string)
    ensures var r := SignupOutcome(fs, ds, us, req, fullYear, hash);
      var g := GenerateRegNo(fs, ds, us, fullYear, req.facultyName, req.departmentName);
      var checksPass :=
        && !AnyMissing(req)
        && FindFacultyByName(fs, req.facultyName).Some?
        && FindDepartmentByName(ds, req.departmentName).Some?
        && FindUserByEmail(us, req.email).None?
        && g.Ok?;
      && (r.Ok? <==>
            checksPass && |hash(req.password)| >= 6 && forall i :: 0 <= i < |us| ==> us[i].regNo != Some(g.value))
      && (checksPass && !r.Ok? ==> r == Err(ServerError(CreateRejected)))
  {
    var g := GenerateRegNo(fs, ds, us, fullYear, req.facultyName, req.departmentName);
    if g.Ok? {
      var prefix := Scope(fs, ds, fullYear, req.facultyName, req.departmentName).value;
      assert g.value == prefix + Sequence(CountWithPrefix(us, prefix));
      assert |prefix| > 0;
    }
  }

  /** Signing up in the directory the setup route seeds, where no regNo of
      the Computer Science scope exists yet in 2025, creates a student of
      that faculty and department with regNo SCI/CSC/25/001. */
  lemma FirstScienceSignup(us: seq<User>, req: SignupRequest, hash: string -> string)
    requires !AnyMissing(req)
    requires req.facultyName == "Faculty of Science" && req.departmentName == "Computer Science"
    requires |hash(req.password)| >= 6
    requires forall i :: 0 <= i < |us| ==> us[i].email != req.email && !HasPrefix(us[i], "SCI/CSC/25/")
    ensures var r := SignupOutcome(SeedFaculties(), SeedDepartments(), us, req, 2025, hash);
      r.Ok? && r.value.regNo == Some("SCI/CSC/25/001") &&
      r.value.faculty == Some(0) && r.value.department == Some(0) && r.value.password == hash(req.password)
  {
    FirstScienceStudent(us);
    assert FindFacultyByName(SeedFaculties(), "Faculty of Science") == Some(0);
    assert FindDepartmentByName(SeedDepartments(), "Computer Science") == Some(0);
    forall i | 0 <= i < |us| ensures us[i].regNo != Some("SCI/CSC/25/001") {
      assert StartsWith("SCI/CSC/25/001", "SCI/CSC/25/");
    }
    SignupSucceeds(SeedFaculties(), SeedDepartments(), us, req, 2025, hash);
  }

  /** Sign-up finds the department by name alone, but under the unique index
      on department names that is the department generateRegNo resolved
      inside the named faculty: a created student's department belongs to
      the student's faculty. */
  lemma SignupDepartmentInFaculty(
    fs: seq<Faculty>, ds: seq<Department>, us: seq<User>, req: SignupRequest,
    fullYear: nat, hash: string -> string)
    requires DepartmentNamesUnique(ds)
    requires SignupOutcome(fs, ds, us, req, fullYear, hash).Ok?
    ensures var u := SignupOutcome(fs, ds, us, req, fullYear, hash).value;
      u.faculty.Some? && u.department.Some? && u.department.value < |ds| &&
      ds[u.department.value].faculty == u.faculty
  {
    var f := FindFacultyByName(fs, req.facultyName).value;
    var d := FindDepartmentInFaculty(ds, req.departmentName, f).value;
    FindDepartmentUnique(ds, d);
  }

  /** A department name that exists, but only under another faculty, passes
      the controller's own check and then fails inside generateRegNo: the
      answer is a 500 carrying the generator's message, and no student is
      created. */
  lemma SignupCrossFacultyDepartment(
    fs: seq<Faculty>, ds: seq<Department>, us: seq<User>, req: SignupRequest,
    fullYear: nat, hash: string -> string, f: FacultyId, other: DepartmentId)
    requires !AnyMissing(req)
    requires FindFacultyByName(fs, req.facultyName) == Some(f)
    requires other < |ds| && ds[other].name == req.departmentName
    requires forall i :: 0 <= i < |ds| ==> !InFaculty(ds[i], req.departmentName, f)
    requires forall i :: 0 <= i < |us| ==> us[i].email != req.email
    ensures SignupOutcome(fs, ds, us, req, fullYear, hash) ==
      Err(ServerError(DepartmentNotFound(req.departmentName, req.facultyName, DepartmentNamesOf(ds, f)).Message()))
  {
    UnknownDepartment(fs, ds, us, fullYear, req.facultyName, req.departmentName, f);
  }

  /** When the generated regNo is already held (the count of a scope with a
      gap repeats a number), the unique index rejects the student. */
  lemma SignupRegNoClash(
    fs: seq<Faculty>, ds: seq<Department>, us: seq<User>, req: SignupRequest,
    fullYear: nat, hash: string -> string, holder: UserId)
    requires GenerateRegNo(fs, ds, us, fullYear, req.facultyName, req.departmentName).Ok?
    requires holder < |us| &&
      us[holder].regNo == Some(GenerateRegNo(fs, ds, us, fullYear, req.facultyName, req.departmentName).value)
    ensures SignupOutcome(fs, ds, us, req, fullYear, hash).Err?
  {
    SignupChecks(fs, ds, us, req, fullYear, hash);
  }

  /** Appending a valid, fresh student with resolving references and no
      courses keeps the database consistent. */
  lemma AppendUserConsistent(
    fs: seq<Faculty>, ds: seq<Department>, us: seq<User>, cs: seq<Course>, u: User)
    requires Consistent(fs, ds, us, cs)
    requires Insertable(us, u) && Within(u.faculty, |fs|) && Within(u.department, |ds|) && u.courses == []
    ensures Consistent(fs, ds, us + [u], cs)
  {
    InsertKeepsKeysUnique(us, u);
    var us' := us + [u];
    forall s, c | 0 <= s < |us'| && 0 <= c < |cs|
      ensures Enrolled(us'[s], c) <==> s in cs[c].enrolledStudents
    {
      if s == |us| {
        assert !Enrolled(us'[s], c);
        assert s !in cs[c].enrolledStudents;
      } else {
        assert us'[s] == us[s];
      }
    }
    forall s, k | 0 <= s < |us'| && 0 <= k < |us'[s].courses| ensures us'[s].courses[k].courseId < |cs| {
      assert us'[s] == us[s];
    }
  }

  /** signup: the checks, in the order the handler runs them, then the insert
      and the token. */
  method Signup(store: Store, req: SignupRequest, fullYear: nat, hash: string -> string)
    returns (r: Result<Claims, Failure>)
    requires store.Valid()
    modifies store
    ensures store.Valid()
    ensures store.faculties == old(store.faculties) && store.departments == old(store.departments)
    ensures store.courses == old(store.courses)
    ensures match SignupOutcome(old(store.faculties), old(store.departments), old(store.users), req, fullYear, hash)
      case Ok(u) =>
        r == Ok(Claims(|old(store.users)|, "email", u.email, u.firstName)) && store.users == old(store.users) + [u]
      case Err(e) => r == Err(e) && store.users == old(store.users)
  {
    if AnyMissing(req) {
      return Err(ServerError("All fields are required"));
    }
    var faculty := FindFacultyByName(store.faculties, req.facultyName);
    if faculty.None? {
      return Err(NotFound("Faculty does not exist "));
    }
    var department := FindDepartmentByName(store.departments, req.departmentName);
    if department.None? {
      return Err(NotFound("department doesnt exist"));
    }
    var studentExists := FindUserByEmail(store.users, req.email);
    if studentExists.Some? {
      return Err(Conflict("student already exists, log in "));
    }
    var hashedPassword := hash(req.password);
    var regNo := GenerateRegNo(store.faculties, store.departments, store.users, fullYear, req.facultyName, req.departmentName);
    if regNo.Err? {
      return Err(ServerError(regNo.error.Message()));
    }
    var student := NewUser(req.firstName, req.lastName, hashedPassword, req.email,
                           None, Some(regNo.value), faculty, department, fullYear);
    if !Insertable(store.users, student) {
      return Err(ServerError(CreateRejected));
    }
    AppendUserConsistent(store.faculties, store.departments, store.users, store.courses, student);
    r := Ok(Claims(|store.users|, "email", student.email, student.firstName));
    store.users := store.users + [student];
  }

  // ---------------------------------------------------------------------
  // login

  /** login as written: a blank password or email (after trimming) is a 500,
      an unknown email a 404, a matching password yields the token; on a
      password that does not match, the handler falls through the `if` and
      never answers. */
  function LoginAsWritten(
    users: seq<User>, email: string, password: string, matches: (string, string) -> bool)
    : Result<Claims, Failure>
  {
    if Blank(password) || Blank(email) then Err(ServerError("All fields are required"))
    else match FindUserByEmail(users, email)
      case None => Err(NotFound("Email is not registered! sign up"))
      case Some(i) =>
        if matches(password, users[i].password) then Ok(Claims(i, "student", users[i].email, users[i].firstName))
        else Err(NoResponse("login returns without a response when the password does not match"))
  }

  /** A registered email with a wrong password leaves the request without an
      answer. */
  lemma LoginMismatchUnanswered(
    users: seq<User>, email: string, password: string, matches: (string, string) -> bool, i: UserId)
    requires !Blank(password) && !Blank(email)
    requires FindUserByEmail(users, email) == Some(i) && !matches(password, users[i].password)
    ensures LoginAsWritten(users, email, password, matches).Err?
    ensures LoginAsWritten(users, email, password, matches).error.NoResponse?
  {
  }

  /** login as evidently intended: the same, with a 401 for a wrong password. */
  function Login(
    users: seq<User>, email: string, password: string, matches: (string, string) -> bool)
    : (r: Result<Claims, Failure>)
    ensures !(r.Err? && r.error.NoResponse?)
  {
    match LoginAsWritten(users, email, password, matches)
    case Err(NoResponse(_)) => Err(Unauthorized("Invalid credentials"))
    case other => other
  }

  /** The corrected login answers every request: a token for the first
      document with the email exactly when the password matches its stored
      hash, and otherwise the error of the first failing check. */
  lemma LoginChecks(
    users: seq<User>, email: string, password: string, matches: (string, string) -> bool)
    ensures var r := Login(users, email, password, matches);
      && (Blank(password) || Blank(email) ==> r == Err(ServerError("All fields are required")))
      && (!Blank(password) && !Blank(email) && (forall i :: 0 <= i < |users| ==> users[i].email != email) ==>
            r == Err(NotFound("Email is not registered! sign up")))
      && (r.Ok? <==>
            !Blank(password) && !Blank(email) && FindUserByEmail(users, email).Some? &&
            matches(password, users[FindUserByEmail(users, email).value].password))
      && (r.Ok? ==>
            var i := FindUserByEmail(users, email).value;
            r.value == Claims(i, "student", email, users[i].firstName))
      && (!Blank(password) && !Blank(email) && FindUserByEmail(users, email).Some? &&
          !matches(password, users[FindUserByEmail(users, email).value].password) ==>
            r == Err(Unauthorized("Invalid credentials")))
  {
  }

  /** A student who has just signed up can log in with the same password:
      the token names the new document. */
  lemma SignupThenLogin(
    fs: seq<Faculty>, ds: seq<Department>, us: seq<User>, req: SignupRequest,
    fullYear: nat, hash: string -> string, matches: (string, string) -> bool)
    requires SignupOutcome(fs, ds, us, req, fullYear, hash).Ok?
    requires matches(req.password, hash(req.password))
    requires !Blank(req.password) && !Blank(req.email)
    ensures Login(us + [SignupOutcome(fs, ds, us, req, fullYear, hash).value], req.email, req.password, matches)
      == Ok(Claims(|us|, "student", req.email, req.firstName))
  {
    SignupChecks(fs, ds, us, req, fullYear, hash);
    var u := SignupOutcome(fs, ds, us, req, fullYear, hash).value;
    assert FindUserByEmail(us + [u], req.email) == Some(|us|) by {
      assert (us + [u])[|us|].email == req.email;
    }
  }

  /** Sign-up accepts a password made only of spaces (it is non-empty), but
      login trims it away and refuses every attempt: that account can never
      log in. */
  lemma BlankPasswordLocksOut(
    fs: seq<Faculty>, ds: seq<Department>, us: seq<User>, req: SignupRequest,
    fullYear: nat, hash: string -> string, matches: (string, string) -> bool)
    requires SignupOutcome(fs, ds, us, req, fullYear, hash).Ok?
    requires Blank(req.password)
    ensures req.password != ""
    ensures Login(us + [SignupOutcome(fs, ds, us, req, fullYear, hash).value], req.email, req.password, matches)
      == Err(ServerError("All fields are required"))
  {
  }

  // ---------------------------------------------------------------------
  // createfaculty

  /** createfaculty as written: only name and code reach Faculty.create, so
      the required contactEmail and contactPhone are always missing and the
      validation error escapes a handler without try/catch. */
  function CreateFacultyAsWritten(fs: seq<Faculty>, name: string, code: string): Result<Faculty, Failure>
  {
    if FindFacultyByName(fs, name).Some? then Err(Conflict("faculty Name already exists"))
    else
      var faculty := Faculty(name, code, "", "", true);
      if ValidFaculty(faculty) then Ok(faculty)
      else Err(NoResponse("Faculty.create throws a validation error that no handler catches"))
  }

  /** No faculty can ever be created through the handler as written. */
  lemma CreateFacultyNeverSucceeds(fs: seq<Faculty>, name: string, code: string)
    ensures CreateFacultyAsWritten(fs, name, code).Err?
    ensures FindFacultyByName(fs, name).None? ==> CreateFacultyAsWritten(fs, name, code).error.NoResponse?
  {
  }

  /** createfaculty as evidently intended: the contact fields the schema
      requires are passed through. */
  function CreateFacultyOutcome(
    fs: seq<Faculty>, name: string, code: string, contactEmail: string, contactPhone: string)
    : Result<Faculty, Failure>
  {
    if FindFacultyByName(fs, name).Some? then Err(Conflict("faculty Name already exists"))
    else
      var faculty := Faculty(name, code, contactEmail, contactPhone, true);
      if ValidFaculty(faculty) then Ok(faculty)
      else Err(NoResponse("Faculty.create throws a validation error that no handler catches"))
  }

  /** A faculty is created exactly when its name is new and all four required
      fields are present; it is active and carries the given fields. */
  lemma CreateFacultyChecks(
    fs: seq<Faculty>, name: string, code: string, contactEmail: string, contactPhone: string)
    ensures var r := CreateFacultyOutcome(fs, name, code, contactEmail, contactPhone);
      && ((exists i :: 0 <= i < |fs| && fs[i].name == name) ==> r == Err(Conflict("faculty Name already exists")))
      && (r.Ok? <==>
            (forall i :: 0 <= i < |fs| ==> fs[i].name != name) &&
            name != "" && code != "" && contactEmail != "" && contactPhone != "")
      && (r.Ok? ==> r.value == Faculty(name, code, contactEmail, contactPhone, true) && ValidFaculty(r.value))
  {
  }

  lemma AppendFacultyConsistent(
    fs: seq<Faculty>, ds: seq<Department>, us: seq<User>, cs: seq<Course>, f: Faculty)
    requires Consistent(fs, ds, us, cs)
    requires ValidFaculty(f) && forall i :: 0 <= i < |fs| ==> fs[i].name != f.name
    ensures Consistent(fs + [f], ds, us, cs)
  {
  }

  /** createfaculty (corrected): insert the faculty the checks produced. */
  method CreateFaculty(store: Store, name: string, code: string, contactEmail: string, contactPhone: string)
    returns (r: Result<FacultyId, Failure>)
    requires store.Valid()
    modifies store
    ensures store.Valid()
    ensures store.departments == old(store.departments) && store.users == old(store.users)
    ensures store.courses == old(store.courses)
    ensures match CreateFacultyOutcome(old(store.faculties), name, code, contactEmail, contactPhone)
      case Ok(f) => r == Ok(|old(store.faculties)|) && store.faculties == old(store.faculties) + [f]
      case Err(e) => r == Err(e) && store.faculties == old(store.faculties)
  {
    var faculty := FindFacultyByName(store.faculties, name);
    if faculty.Some? {
      return Err(Conflict("faculty Name already exists"));
    }
    var newFaculty := Faculty(name, code, contactEmail, contactPhone, true);
    if !ValidFaculty(newFaculty) {
      return Err(NoResponse("Faculty.create throws a validation error that no handler catches"));
    }
    AppendFacultyConsistent(store.faculties, store.departments, store.users, store.courses, newFaculty);
    r := Ok(|store.faculties|);
    store.faculties := store.faculties + [newFaculty];
  }

  // ---------------------------------------------------------------------
  // createdept

  /** createdept up to the insert. A missing faculty is answered with 409, and
      a document that fails validation escapes the handler unanswered. */
  function CreateDeptOutcome(fs: seq<Faculty>, ds: seq<Department>, name: string, facultyName: string, code: string)
    : Result<Department, Failure>
  {
    if FindDepartmentByName(ds, name).Some? then Err(Conflict("department Name already exists"))
    else match FindFacultyByName(fs, facultyName)
      case None => Err(Conflict("faculty doesn't already exists"))
      case Some(f) =>
        var department := Department(name, code, Some(f));
        if ValidDepartment(department) then Ok(department)
        else Err(NoResponse("Department.create throws a validation error that no handler catches"))
  }

  /** A department is created exactly when its name is new, the faculty name
      resolves and name and code are present; it belongs to the first faculty
      with that name. */
  lemma CreateDeptChecks(fs: seq<Faculty>, ds: seq<Department>, name: string, facultyName: string, code: string)
    ensures var r := CreateDeptOutcome(fs, ds, name, facultyName, code);
      && ((exists i :: 0 <= i < |ds| && ds[i].name == name) ==> r == Err(Conflict("department Name already exists")))
      && ((forall i :: 0 <= i < |ds| ==> ds[i].name != name) &&
          (forall i :: 0 <= i < |fs| ==> fs[i].name != facultyName) ==>
            r == Err(Conflict("faculty doesn't already exists")))
      && (r.Ok? <==>
            (forall i :: 0 <= i < |ds| ==> ds[i].name != name) &&
            FindFacultyByName(fs, facultyName).Some? && name != "" && code != "")
      && (r.Ok? ==>
            r.value == Department(name, code, FindFacultyByName(fs, facultyName)) &&
            ValidDepartment(r.value) && Within(r.value.faculty, |fs|))
  {
  }

  lemma AppendDepartmentConsistent(
    fs: seq<Faculty>, ds: seq<Department>, us: seq<User>, cs: seq<Course>, d: Department)
    requires Consistent(fs, ds, us, cs)
    requires ValidDepartment(d) && Within(d.faculty, |fs|) && forall i :: 0 <= i < |ds| ==> ds[i].name != d.name
    ensures Consistent(fs, ds + [d], us, cs)
  {
  }

  /** createdept: insert the department the checks produced. */
  method CreateDept(store: Store, name: string, facultyName: string, code: string)
    returns (r: Result<DepartmentId, Failure>)
    requires store.Valid()
    modifies store
    ensures store.Valid()
    ensures store.faculties == old(store.faculties) && store.users == old(store.users)
    ensures store.courses == old(store.courses)
    ensures match CreateDeptOutcome(old(store.faculties), old(store.departments), name, facultyName, code)
      case Ok(d) => r == Ok(|old(store.departments)|) && store.departments == old(store.departments) + [d]
      case Err(e) => r == Err(e) && store.departments == old(store.departments)
  {
    var dept := FindDepartmentByName(store.departments, name);
    if dept.Some? {
      return Err(Conflict("department Name already exists"));
    }
    var targetFaculty := FindFacultyByName(store.faculties, facultyName);
    if targetFaculty.None? {
      return Err(Conflict("faculty doesn't already exists"));
    }
    var newDept := Department(name, code, targetFaculty);
    if !ValidDepartment(newDept) {
      return Err(NoResponse("Department.create throws a validation error that no handler catches"));
    }
    AppendDepartmentConsistent(store.faculties, store.departments, store.users, store.courses, newDept);
    r := Ok(|store.departments|);
    store.departments := store.departments + [newDept];
  }

  /** A department created inside a faculty is one that sign-up's regNo
      generation resolves in that faculty: the scope of the pair exists. */
  lemma CreatedDepartmentResolves(
    fs: seq<Faculty>, ds: seq<Department>, name: string, facultyName: string, code: string, fullYear: nat)
    requires CreateDeptOutcome(fs, ds, name, facultyName, code).Ok?
    ensures Scope(fs, ds + [CreateDeptOutcome(fs, ds, name, facultyName, code).value],
                  fullYear, facultyName, name).Ok?
  {
    var f := FindFacultyByName(fs, facultyName).value;
    var d := CreateDeptOutcome(fs, ds, name, facultyName, code).value;
    assert InFaculty((ds + [d])[|ds|], name, f);
  }
}
