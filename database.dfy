/** The four MongoDB collections the core touches, held by one object that
    the controllers update in place, and the invariants the schemas and the
    enrollment logic keep between requests. */
module Database {
  import opened Outcomes
  import opened Ids
  import opened Directory
  import opened UserModel
  import opened CourseModel

  /** An optional reference that, when present, points at an existing document. */
  predicate Within(r: Option<nat>, size: nat)
  {
    r.Some? ==> r.value < size
  }

  /** The user's embedded `courses` array holds an entry for course c. */
  predicate Enrolled(u: User, c: CourseId)
  {
    exists k :: 0 <= k < |u.courses| && u.courses[k].courseId == c
  }

  /** Enrollment is bidirectional: every reference points at an existing
      document, and a user's `courses` has an entry for a course exactly when
      the course's `enrolledStudents` lists that user. */
  ghost predicate Linked(users: seq<User>, courses: seq<Course>)
  {
    && (forall s, k :: 0 <= s < |users| && 0 <= k < |users[s].courses| ==>
          users[s].courses[k].courseId < |courses|)
    && (forall c, k :: 0 <= c < |courses| && 0 <= k < |courses[c].enrolledStudents| ==>
          courses[c].enrolledStudents[k] < |users|)
    && (forall s, c :: 0 <= s < |users| && 0 <= c < |courses| ==>
          (Enrolled(users[s], c) <==> s in courses[c].enrolledStudents))
  }

  /** What holds of the stored collections between requests: each document
      passes its schema (the user schema in its corrected form,
      `UserModel.ValidUser`), the unique indexes hold, references resolve and
      enrollment is linked both ways. */
  ghost predicate Consistent(
    faculties: seq<Faculty>, departments: seq<Department>, users: seq<User>, courses: seq<Course>)
  {
    && (forall i :: 0 <= i < |faculties| ==> ValidFaculty(faculties[i]))
    && FacultyNamesUnique(faculties)
    && (forall i :: 0 <= i < |departments| ==>
          ValidDepartment(departments[i]) && Within(departments[i].faculty, |faculties|))
    && DepartmentNamesUnique(departments)
    && (forall i :: 0 <= i < |users| ==>
          ValidUser(users[i]) && Within(users[i].faculty, |faculties|) && Within(users[i].department, |departments|))
    && KeysUnique(users)
    && (forall i :: 0 <= i < |courses| ==>
          ValidCourse(courses[i]) && Within(courses[i].department, |departments|))
    && TitlesUnique(courses)
    && Linked(users, courses)
  }

  /** The database: the Faculty, Department, User and Course collections. */
  class Store {
    var faculties: seq<Faculty>
    var departments: seq<Department>
    var users: seq<User>
    var courses: seq<Course>

    ghost predicate Valid()
      reads this
    {
      Consistent(faculties, departments, users, courses)
    }

    constructor ()
      ensures Valid()
      ensures faculties == [] && departments == [] && users == [] && courses == []
    {
      faculties, departments, users, courses := [], [], [], [];
    }
  }
}
