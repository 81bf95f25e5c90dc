# Student-management platform: registration and enrollment core in Dafny

This project models the server-side core of a student-management platform
built on Express and Mongoose:

- **Registration numbers.** `generateRegNo` resolves a faculty by name and a
  department by name inside that faculty. It builds the prefix
  `FAC/DEPT/YY/`, counts the users whose regNo starts with that prefix, and
  appends the count plus one, zero-padded to three digits. It is modelled as
  a pure function of a store snapshot and the year (`RegNo`), so it cannot
  write to any collection.
- **Course handlers.** These are listing with filters, sorting and paging;
  course creation as an ordered chain of checks; soft deletion; and
  enrollment, which links a student and a course in both directions
  (`CourseController`).
- **Account handlers.** These are student sign-up, login, and the creation of
  faculties and departments (`AuthController`).
- **Schemas.** The user and course schemas, and the faculty and department
  documents they refer to, are modelled as datatypes with validity
  predicates (`UserModel`, `CourseModel`, `Directory`).

The database is the class `Database.Store`. It holds four collections as
sequences, and a document's id is its position. The handlers that write are
methods on a `Store`. Each one:

- keeps the invariant `Valid()`: every document passes its schema, the
  unique indexes hold, references resolve, and enrollment is linked both
  ways;
- states its new state in terms of a pure "outcome" function of the old
  collections.

Lemmas then state what the source promises about those outcome functions.

Each handler's answer is a `Result`. An error is an `Outcomes.Failure`: one
constructor per HTTP status the handler sends, carrying the message it
sends. A further constructor, `NoResponse`, stands for a handler that never
answers: it returns without writing a response, or an exception escapes an
async handler that has no try/catch (under Express 4, see "Left out").

Modelling conventions:

- An empty string stands for a missing request field. JavaScript treats it
  as false, and Mongoose's `required` rejects it.
- bcrypt is modelled by the parameters `hash` and `matches`.
- A signed token is modelled by its claims.
- The clock is modelled by the `fullYear` parameter.

The model follows the code, including where it departs from the usual
status codes:

- Sign-up answers a missing field with status 500, not a validation error.
- A login with a wrong password gets no answer at all. The intended 401 is
  the corrected member under Findings.
- `createdept` answers an unknown faculty with 409.

Source resolution:

- The auth controller imports `../models/StudentModel`, which is not among
  the files modelled. Following `generateRegNo` and the enrollment
  handler, all users live in the single collection of
  `server/models/UserModel.js`.
- `server/models/DepartmentModel.js` is not part of this model. The
  department document follows `server/model/DepartmentModel.js`: a unique
  required name, a required code, and a faculty reference.

## Model

| member | source | states |
|---|---|---|
| `Query.FindOne` | server/controllers/courseController.js:109-112 | findOne returns the first document that satisfies the filter; it returns none exactly when no document does |
| `Query.Count` | server/utility/RegNo.js:52 | countDocuments is at most the collection size, and it is zero exactly when nothing matches |
| `Query.CountOne` | server/utility/RegNo.js:52 | countDocuments is 1 when exactly one document matches, wherever it is stored |
| `Query.CountAppend` | server/utility/RegNo.js:52 | inserting one document raises the count by one exactly when that document matches |
| `Directory.FindFacultyByName` | server/utility/RegNo.js:11 | Faculty.findOne({ name }) finds a faculty with that name; it finds none exactly when no faculty has it |
| `Directory.FindDepartmentByName` | server/controllers/authControllers.js:17 | Department.findOne({ name }) is not restricted to a faculty; it finds none exactly when no department has the name |
| `Directory.FindDepartmentInFaculty` | server/utility/RegNo.js:27-30 | the department found has the name and belongs to the resolved faculty; none is found exactly when no department of that faculty has the name |
| `Directory.FacultyNames` | server/utility/RegNo.js:13-19 | the list of available faculties is every faculty's name, in order |
| `Directory.DepartmentsOf` | server/utility/RegNo.js:32 | Department.find({ faculty }) returns exactly the faculty's departments, each once, in natural order |
| `Directory.DepartmentNamesOf` | server/utility/RegNo.js:32-38 | the list of available departments is the faculty's departments' names, one per department, in natural order; a name is in it exactly when a department of the faculty carries it |
| `Directory.FindFacultyUnique` | server/utility/RegNo.js:11 | under the unique index on names, looking up a stored faculty's name finds that faculty |
| `Directory.FindDepartmentUnique` | server/controllers/authControllers.js:17 | under the unique index on names, looking up a stored department's name finds that department |
| `Database.Consistent` | server/models/UserModel.js:7-33 | what holds of the stored collections between requests: schemas, unique indexes, resolving references, and enrollment linked both ways |
| `Text.Decimal` | server/utility/RegNo.js:53 | String(n) is a non-empty string of digits without a leading zero |
| `Text.DecimalRoundTrip` | server/utility/RegNo.js:53 | String(n) read back as a number is n |
| `Text.DecimalLength` | server/utility/RegNo.js:53 | String(n) has at most k+1 digits exactly when n < 10^(k+1) |
| `Text.PaddedNumeral` | server/utility/RegNo.js:53 | padStart(width, "0") on String(n) gives digits whose value is still n and whose length is at least width |
| `Text.PadStartShape` | server/utility/RegNo.js:53 | padStart never truncates: the text is kept as the suffix, only fill characters go in front, and the length is max(width, length) |
| `Text.Upper` | server/models/CourseModel.js:5 | the uppercase setter keeps the length, changes the text only in case (its lower-case form is the input's) and leaves no lower-case letter |
| `Text.ParseInt` | server/controllers/courseController.js:71 | Number.parseInt in base ten: leading white space, an optional sign, the longest run of digits; NaN when there is none |
| `Text.Blank` | server/controllers/authControllers.js:54 | `!s.trim()`: nothing is left once surrounding white space is removed |
| `Text.SameUpToCase` | server/models/CourseModel.js:5 | texts equal up to case have the same upper-cased form, so the setter stores them alike |
| `Text.UpperIdempotent` | server/models/CourseModel.js:5 | the uppercase setter is idempotent and leaves no lower-case ASCII letter |
| `Text.ParseIntDecimal` | server/controllers/courseController.js:71 | Number.parseInt of a decimal numeral gives back its number |
| `UserModel.ParseRole` | server/models/UserModel.js:30 | the role enum accepts exactly "student", "Admin" and "Lecturer", case-sensitively |
| `UserModel.RoleNameRoundTrip` | server/models/UserModel.js:30 | every role's stored name passes the enum check as that role |
| `UserModel.NewUserValid` | server/models/UserModel.js:3-38 | a new user is valid exactly when names and email are present, the stored password has at least 6 characters, a student has a regNo and a lecturer a department; the role defaults to student, the gender to Others, yearOfStudy is set exactly for students, and the user is active with no courses |
| `UserModel.NewUser` | server/models/UserModel.js:3-38 | the document User.create builds: the given fields, role defaulting to student, gender Others, no courses, active, and yearOfStudy the current year exactly for students |
| `UserModel.ValidUser` | server/models/UserModel.js:3-38 | the schema's validators in corrected form: names and email present, a password of at least 6 characters, a regNo and a yearOfStudy for students, a department for lecturers |
| `UserModel.ValidUserAsWritten` | server/models/UserModel.js:27-29 | the schema's validators as written, where department's `required` function yields undefined and so never requires a department |
| `UserModel.LecturerWithoutDepartment` | server/models/UserModel.js:27-29 | a lecturer without a department passes the validators as written and fails the corrected ones; every document the corrected schema accepts the written one accepts too, and the two differ only on lecturers without a department |
| `UserModel.Insertable` | server/models/UserModel.js:3-33 | what User.create checks before inserting: the validators, then the unique email and regNo indexes against the stored documents |
| `UserModel.InsertKeepsKeysUnique` | server/models/UserModel.js:7-33 | inserting a document that passes the unique email and regNo checks keeps both indexes unique |
| `CourseModel.ParseSemester` | server/models/CourseModel.js:11 | the semester enum accepts exactly "Ist Semester" and "2nd Semester" |
| `CourseModel.SemesterNameRoundTrip` | server/models/CourseModel.js:11 | every semester's stored name passes the enum check as that semester |
| `CourseModel.NewCourse` | server/models/CourseModel.js:3-12 | the document Course.create builds: the upper-cased code, active, no enrolled students |
| `CourseModel.ValidCourse` | server/models/CourseModel.js:3-12 | the course schema's validators: title and code present, 1 <= unit <= 6 |
| `CourseModel.NewCourseValid` | server/models/CourseModel.js:4-12 | a new course is valid exactly when title and code are present and 1 <= unit <= 6; it is active, has no students and stores the upper-cased code |
| `RegNo.YearDigits` | server/utility/RegNo.js:44 | the last two characters of the year's decimal text, as `toString().slice(-2)` takes them |
| `RegNo.Prefix` | server/utility/RegNo.js:45 | the prefix `${facultyCode}/${deptCode}/${year}/` |
| `RegNo.CountWithPrefix` | server/utility/RegNo.js:47-52 | countDocuments of the users whose regNo begins with the prefix; a user without a regNo is not counted |
| `RegNo.Sequence` | server/utility/RegNo.js:53 | String(count + 1).padStart(3, "0") |
| `RegNo.RegNoError.Message` | server/utility/RegNo.js:18-39 | the texts of the two thrown errors, naming what was looked up and joining the available names with ", " |
| `RegNo.Scope` | server/utility/RegNo.js:10-45 | the faculty is looked up by name, then the department by name inside that faculty; the first lookup that finds nothing throws its error, otherwise the pair's prefix results |
| `RegNo.GenerateRegNo` | server/utility/RegNo.js:6-63 | generateRegNo: the scope's error, or the scope's prefix followed by the sequence number of the count of regNos already in the scope |
| `RegNo.YearDigitsValue` | server/utility/RegNo.js:44 | the year part is two digits whose value is the year modulo 100 |
| `RegNo.UnknownFaculty` | server/utility/RegNo.js:11-21 | generation fails with FacultyNotFound exactly when no faculty has the name; the error names the attempted faculty and lists all faculty names in order |
| `RegNo.UnknownDepartment` | server/utility/RegNo.js:27-40 | once the faculty is resolved, a department absent from that faculty fails generation, even if the name exists elsewhere; the error lists only that faculty's departments |
| `RegNo.RegNoFormat` | server/utility/RegNo.js:44-55 | the result is the prefix facultyCode/deptCode/YY/ followed by digits whose value is count+1; the suffix has three digits while count < 999, and never fewer |
| `RegNo.SequenceWidth` | server/utility/RegNo.js:53 | padStart never truncates: the suffix has exactly three digits iff count < 999, and 1000 or more gives four or more digits |
| `RegNo.ScopeResolves` | server/utility/RegNo.js:6-58 | generation succeeds exactly when the faculty and the department inside it resolve, and otherwise throws the lookup's error: the stored users only decide the number |
| `RegNo.SuccessiveRegNos` | server/utility/RegNo.js:52-55 | when each result is stored before the next call, the next suffix is one more and the two regNos differ |
| `RegNo.FreshWhenDense` | server/utility/RegNo.js:52-55 | when no stored suffix in the scope exceeds the count, the generated regNo is held by no user |
| `RegNo.SeedScienceScope` | server/Routes/setupRoute.js:51-145 | in the four faculties and nine departments the setup route seeds, "Faculty of Science" and "Computer Science" in 2025 resolve to the prefix "SCI/CSC/25/" |
| `RegNo.FirstScienceStudent` | server/utility/RegNo.js:44-55 | in the four faculties and nine departments the setup route seeds (server/Routes/setupRoute.js:51-145), whatever users are stored, when no stored regNo begins with "SCI/CSC/25/", the student of department CSC in faculty SCI in 2025 gets "SCI/CSC/25/001" |
| `RegNo.CountRepeatsAfterGap` | server/utility/RegNo.js:52-55 | in the seeded directory, whatever else is stored, when exactly one stored regNo has the prefix "SCI/CSC/25/" and it is "SCI/CSC/25/002", the next number is "SCI/CSC/25/002" again, which that user already holds: counting does not guarantee a fresh number |
| `CourseController.Selects` | server/controllers/courseController.js:8-15 | the Mongo filter: an active course, narrowed by each filter given; the search matches title or code case-insensitively |
| `CourseController.Selected` | server/controllers/courseController.js:8-17 | Course.find(query) yields ids of existing courses in natural order: strictly increasing |
| `CourseController.SelectedMembers` | server/controllers/courseController.js:8-17 | the query selects exactly the active courses that every given filter accepts (search on title or code, case-insensitive) |
| `CourseController.InsertByCode` | server/controllers/courseController.js:20 | inserting into a code-sorted list keeps it sorted, and the multiset of ids gains exactly that id |
| `CourseController.SortByCode` | server/controllers/courseController.js:20 | .sort({ code: 1 }) gives a permutation of the ids, sorted by code |
| `CourseController.CodeLeqTotal` | server/controllers/courseController.js:20 | any two codes are comparable in the sort order |
| `CourseController.CodeLeqTrans` | server/controllers/courseController.js:20 | the sort order on codes is transitive |
| `CourseController.Catalogue` | server/controllers/courseController.js:17-20 | the sorted result is a permutation of the selected ids, sorted by code |
| `CourseController.CatalogueMembers` | server/controllers/courseController.js:17-25 | the sorted result holds exactly the selected courses, and its length is what countDocuments reports |
| `CourseController.CeilDiv` | server/controllers/courseController.js:28 | Math.ceil(total / limit) pages hold total entries with no empty last page, and zero pages hold zero entries |
| `CourseController.Window` | server/controllers/courseController.js:21-22 | .limit(limit).skip(skip) yields at most limit entries, taken consecutively from position skip; it holds exactly min(limit, remaining) entries when skip is inside the list, and is empty exactly when skip is past the end or limit is 0 |
| `CourseController.WindowSorted` | server/controllers/courseController.js:20-22 | skipping and limiting a code-sorted list leaves it sorted by code |
| `CourseController.PaginateSorted` | server/controllers/courseController.js:20-22 | a page of the sorted result is still sorted by code |
| `CourseController.PaginateContents` | server/controllers/courseController.js:21-31 | a non-empty page holds 1..limit entries of the result and reports the given total, the page asked for and ceil(total / limit) pages |
| `CourseController.PaginateListing` | server/controllers/courseController.js:20-31 | a page of a code-sorted list of selected courses holds 1..limit such courses, in code order, with the given total, the page asked for and ceil(total / limit) pages |
| `CourseController.ListingContents` | server/controllers/courseController.js:5-31 | a listing holds at most limit active courses that the filter selects, in code order, with total = the number of matches and totalPages = ceil(total / limit) |
| `CourseController.PageOf` | server/controllers/courseController.js:21 | the page k / limit + 1 is at least 1 and its skip (page - 1) * limit covers position k: (page - 1) * limit <= k < page * limit |
| `CourseController.PaginatePosition` | server/controllers/courseController.js:21-22 | entry k of the result is entry k mod limit of page k / limit + 1 |
| `CourseController.Paginate` | server/controllers/courseController.js:21-31 | `.limit(limit).skip((page - 1) * limit)` of a result list, answered as the listing with Math.ceil(total / limit) pages, or as "Course is currently empty" when the page is empty |
| `CourseController.GetAllCourses` | server/controllers/courseController.js:5-36 | getAllCourses: the filter's courses sorted by code, paginated, with countDocuments of the filter as total |
| `CourseController.PageOfPosition` | server/controllers/courseController.js:21-24 | every course of the sorted result appears on page k / limit + 1: the pages tile the result |
| `CourseController.CodeLeqAntisymmetric` | server/controllers/courseController.js:20 | two codes each sorting before the other are equal |
| `CourseController.SortedHeadsEqual` | server/controllers/courseController.js:20 | two code-sorted orders of the same ids with distinct codes start with the same id |
| `CourseController.SortedUnique` | server/controllers/courseController.js:20 | two code-sorted orders of the same ids are the same list when the courses' codes are all different |
| `CourseController.SortOrderDetermined` | server/controllers/courseController.js:17-20 | when the courses the filter selects have distinct codes, every code-sorted order of them the database may return is the catalogue, so every page request sees the same order |
| `CourseController.PagesInRange` | server/controllers/courseController.js:22-24 | the answer is a listing exactly for pages 1..totalPages; later pages get "Course is currently empty" |
| `CourseController.SkipBeforeEnd` | server/controllers/courseController.js:22-28 | skipping (page - 1) * limit entries leaves some of total exactly when page <= ceil(total / limit) |
| `CourseController.FindCourseByTitle` | server/controllers/courseController.js:62 | Course.findOne({ title }) finds a course with that title; it finds none exactly when no course has it |
| `CourseController.CreateCourseOutcome` | server/controllers/courseController.js:53-81 | createCourses up to the insert: the course document, or the error answered by the first failing check |
| `CourseController.CreateCourseChecks` | server/controllers/courseController.js:58-66 | createCourses checks in order, and the first failure decides: a missing field gives 400, an existing title 409, an unknown department 404 |
| `CourseController.CreatedCourseShape` | server/controllers/courseController.js:68-76 | past the checks, a course is created exactly when the unit parses into 1..6 and the semester is valid. It carries the found department's id, the integer unit and the upper-cased code, and it starts active with no students |
| `CourseController.CreatedCourseListed` | server/controllers/courseController.js:68-76 | a course just created is in the unfiltered catalogue, the code-sorted result before skip and limit |
| `CourseController.CreateCourses` | server/controllers/courseController.js:53-81 | on success exactly the new course is appended; on failure nothing changes; the database stays consistent |
| `CourseController.AppendCourseConsistent` | server/controllers/courseController.js:68-74 | appending a valid course with a new title, a resolving department and no students keeps the database consistent |
| `CourseController.DeleteCourse` | server/controllers/courseController.js:95-104 | the soft delete only sets isActive to false on that course and keeps it stored; an id that matches no course gives 500 and changes nothing |
| `CourseController.DeletedCourseNotListed` | server/controllers/courseController.js:98 | after the soft delete the course stays stored but no listing contains it, and every other course is listed exactly as before |
| `CourseController.FindUserByRegNo` | server/controllers/courseController.js:109 | Student.findOne({ regNo }) finds the first user with that regNo; it finds none exactly when no user has it |
| `CourseController.FindCourseByCode` | server/controllers/courseController.js:112 | Course.findOne({ code }), whose query value Mongoose passes through the schema's uppercase setter, finds the first course whose code is the upper-cased request code; it finds none exactly when no course has that code |
| `CourseController.EnrollOutcome` | server/controllers/courseController.js:106-132 | enrollStudents up to the saves: the student and course found, or the error answered by the first failing check |
| `CourseController.EnrollChecks` | server/controllers/courseController.js:106-119 | an unknown regNo gives 404 " student not found", and only it does. A course code whose upper-case form no course has gives 404 "coursecode not found ". An existing entry for the course gives 409. The handler succeeds exactly when both are found and the student has no entry for that course, and a success links the first matching student and course |
| `CourseController.AlreadyEnrolled` | server/controllers/courseController.js:116 | the scan of student.courses answers true exactly when an entry has that courseId |
| `CourseController.EnrollIgnoresCase` | server/controllers/courseController.js:112 | request codes equal up to case enroll the same way, and a course whose code is the upper-cased request code is found, so the request code "csc101" finds the course stored as "CSC101" |
| `CourseController.EnrollKeepsLinked` | server/controllers/courseController.js:121-125 | appending the student's id to the course and the course entry to the student keeps enrollment linked in both directions |
| `CourseController.EnrollTwiceConflicts` | server/controllers/courseController.js:116-119 | enrolling the same student in the same course again is refused with 409 |
| `CourseController.EnrollStudents` | server/controllers/courseController.js:106-132 | any failure changes neither record. A success appends exactly one element to each side and leaves earlier elements unchanged: the student id to enrolledStudents, and { courseId, courseName: title } to courses. The database stays consistent |
| `CourseController.EnrolledStaysConsistent` | server/controllers/courseController.js:121-125 | the two appends of a fresh enrollment keep the whole database consistent |
| `AuthController.FindUserByEmail` | server/controllers/authControllers.js:21 | Student.findOne({ email }) finds a user with that email; it finds none exactly when no user has it |
| `AuthController.SignupOutcome` | server/controllers/authControllers.js:9-48 | signup up to the insert: the student document, or the error answered by the first failing check |
| `AuthController.SignupChecks` | server/controllers/authControllers.js:9-41 | signup checks in order, and the first failure decides: missing field 500, unknown faculty 404, unknown department name 404, taken email 409, then the regNo generator's error 500. A created user is a student of the resolved faculty and department, carries the generated regNo and the value of `hash` on the password, and passes the schema and unique indexes |
| `AuthController.SignupSucceeds` | server/controllers/authControllers.js:11-38 | a student is created exactly when every check passes, the generated regNo is held by no user and the stored hash has at least 6 characters; once the checks pass, anything else is User.create's 500 |
| `AuthController.FirstScienceSignup` | server/controllers/authControllers.js:9-41 | a complete sign-up in the four faculties and nine departments the setup route seeds (server/Routes/setupRoute.js:51-145), with a free email and no stored regNo of the scope, creates a student of faculty SCI and department CSC with regNo "SCI/CSC/25/001" in 2025 |
| `AuthController.SignupDepartmentInFaculty` | server/controllers/authControllers.js:17-34 | under the unique index on department names, the department sign-up finds by name alone is the one generateRegNo resolved in the faculty: a created student's department belongs to its faculty |
| `AuthController.SignupCrossFacultyDepartment` | server/controllers/authControllers.js:17-26 | a department name that exists only under another faculty passes signup's own check but fails in generateRegNo, so no user is created |
| `AuthController.SignupRegNoClash` | server/controllers/authControllers.js:26-36 | if the generated regNo is already held, the unique index rejects the new student |
| `AuthController.AppendUserConsistent` | server/controllers/authControllers.js:28-36 | inserting a valid fresh student with resolving references and no courses keeps the database consistent |
| `AuthController.Signup` | server/controllers/authControllers.js:9-48 | the handler's guards in order, then exactly one user appended and a token naming it. A failure changes nothing, and the database stays consistent |
| `AuthController.LoginAsWritten` | server/controllers/authControllers.js:52-69 | login as written: blank fields 500, unknown email 404, a matching password a token, and no answer otherwise |
| `AuthController.LoginMismatchUnanswered` | server/controllers/authControllers.js:58-62 | as written, a registered email with a non-matching password gets no answer |
| `AuthController.Login` | server/controllers/authControllers.js:52-69 | the corrected login answers every request |
| `AuthController.LoginChecks` | server/controllers/authControllers.js:53-62 | a blank password or email gives 500 and an unknown email 404. A token for the first user with the email is issued exactly when the password matches its stored hash; otherwise the answer is 401 |
| `AuthController.SignupThenLogin` | server/controllers/authControllers.js:24-61 | a student who has just signed up can log in with the same password, and the token names the new user |
| `AuthController.BlankPasswordLocksOut` | server/controllers/authControllers.js:11-54 | signup accepts a password of spaces only, but login trims it and refuses every attempt |
| `AuthController.CreateFacultyAsWritten` | server/controllers/authControllers.js:71-79 | createfaculty as written: an existing name 409; otherwise Faculty.create gets only name and code |
| `AuthController.CreateFacultyNeverSucceeds` | server/controllers/authControllers.js:71-79 | as written, createfaculty never creates a faculty: a new name always ends in a validation error that nothing catches |
| `AuthController.CreateFacultyOutcome` | server/controllers/authControllers.js:71-79 | createfaculty corrected: the contact fields reach Faculty.create |
| `AuthController.CreateFacultyChecks` | server/controllers/authControllers.js:73-77 | an existing name gives 409; a faculty is created exactly when the name is new and name, code and both contact fields are present |
| `AuthController.AppendFacultyConsistent` | server/controllers/authControllers.js:76 | inserting a valid faculty with a new name keeps the database consistent |
| `AuthController.CreateFaculty` | server/controllers/authControllers.js:71-79 | the corrected handler appends exactly the new faculty or changes nothing; the database stays consistent |
| `AuthController.CreateDeptOutcome` | server/controllers/authControllers.js:80-93 | createdept up to the insert: the department document, or the error answered by the first failing check |
| `AuthController.CreateDeptChecks` | server/controllers/authControllers.js:80-93 | an existing name gives 409, then an unknown faculty gives 409. A department is created exactly when the name is new, the faculty resolves and name and code are present; it references the found faculty's id |
| `AuthController.AppendDepartmentConsistent` | server/controllers/authControllers.js:90 | inserting a valid department with a new name and a resolving faculty keeps the database consistent |
| `AuthController.CreateDept` | server/controllers/authControllers.js:80-93 | exactly the new department is appended, or nothing changes; the database stays consistent |
| `AuthController.CreatedDepartmentResolves` | server/controllers/authControllers.js:90 | a department created in a faculty is one that regNo generation resolves in that faculty |

## Left out

- HTTP plumbing is left out: Express routing, status-to-JSON mapping, console logging and the `populate` calls. Each answer is a `Failure` or a value.
- bcrypt and jsonwebtoken are foreign libraries. Hashing and comparison are the parameters `hash` and `matches`, and a token is modelled by its claims. Signing keys and expiry are not modelled.
- The clock (`new Date().getFullYear()`) is the parameter `fullYear`.
- Concurrency is left out; the model is single-writer. Two sign-ups can interleave between counting and inserting. The student and course `save()` calls of an enrollment are not atomic.
- `RegNo.CountWithPrefix`: the count is modelled as a literal prefix match. The source sends a regular expression that MongoDB evaluates with its PCRE engine, and only `/` is escaped in it, so regex metacharacters in faculty or department codes are not modelled.
- `CourseController.Selects`: the search is modelled as a case-insensitive literal substring match on ASCII letters. The search text is sent as a `$regex` that MongoDB evaluates with its PCRE engine; regular-expression syntax in it and Unicode case mapping are not modelled.
- `CourseController.GetAllCourses`: page and limit come from the query string and are required to be at least 1. The source passes other values to Mongoose: `limit(0)` means no limit, and a negative skip is an error. Query values that Mongoose cannot cast also give 500.
- `Text.ParseInt` models `Number.parseInt` for decimal text only. The `0x` hexadecimal prefix is not modelled. The only whitespace handled is ASCII.
- `Text.Blank` models `String.prototype.trim` with ASCII whitespace only.
- A request field that is `undefined` is modelled the same as the empty string. In the source, `password.trim()` on an absent password throws before login's try block. Mongoose may also drop a filter key whose value is `undefined`.
- `CourseController.CreateCourseOutcome`: `unit` is modelled as the request's text. A numeric `0` in a JSON body counts as missing (400) in the source. The string "0" parses and then fails the schema (500), which is what the model does.
- The course schema's `level` field, and the user fields that no core handler reads or writes, are not modelled: age, phoneNo, dateOfBirth, address and enrollmentDate.
- Mongoose's error texts are not modelled. When `Student.create` rejects a sign-up, the model answers with the constant `CreateRejected`.
- `CourseController.PageOfPosition`: the tiling holds for the one order the model fixes among courses with equal codes. `.sort({ code: 1 })` leaves that order to the database, codes are not unique, and each page is a separate query, so in the source a course that shares its code can appear on two pages or on none. `CourseController.SortOrderDetermined` shows that the order, and so the tiling, does not depend on the database when the selected codes are distinct.
- `Outcomes.NoResponse` assumes Express 4: an exception escaping an async handler is then not passed to the error middleware, and the request is never answered. Under Express 5 the error middleware at server/server.js:166-173 would answer 500 instead. The Express version is not part of this model. The login finding does not depend on it, because that handler returns without throwing.
- `Text.Upper` models `toUpperCase` on ASCII letters only. Unicode case mapping, including mappings that change the length, is not modelled.
- `updateCourse`, `getMyCourses` and `getAllEnrollments` in the course controller are outside the modelled core.

## Findings

| source | as written | input that shows it | evidently intended | confidence | as-written member | corrected member |
|---|---|---|---|---|---|---|
| server/controllers/authControllers.js:76 | `Faculty.create` receives only name and code, but the faculty schema requires contactEmail and contactPhone. Validation throws in a handler with no try/catch | any `createfaculty` request with a new name | pass the required contact fields to `Faculty.create` | high (not executed) | `AuthController.CreateFacultyNeverSucceeds` | `AuthController.CreateFacultyChecks` |
| server/models/UserModel.js:27-29 | department's `required` function has no `return`, so it yields undefined, and it compares with "lecturer", which is not a role value | a user with role "Lecturer" and no department passes validation | require a department for role Lecturer | high (not executed) | `UserModel.LecturerWithoutDepartment` | `UserModel.NewUserValid` |
| server/controllers/authControllers.js:58-62 | when the password does not match, the handler falls out of the `if` without sending a response | a registered email with a wrong password | answer 401 for invalid credentials | high (not executed) | `AuthController.LoginMismatchUnanswered` | `AuthController.LoginChecks` |
