/** The faculty/department directory: the two collections the core resolves
    names against. Faculty documents follow server/models/FacultyModel.js;
    the department document has a unique required name, a required code and a
    reference to its faculty. */
module Directory {
  import opened Outcomes
  import opened Ids
  import Query

  datatype Faculty = Faculty(
    name: string,
    code: string,
    contactEmail: string,
    contactPhone: string,
    isActive: bool)

  datatype Department = Department(
    name: string,
    code: string,
    faculty: Option<FacultyId>)

  /** The faculty schema's required fields (an empty string fails `required`). */
  predicate ValidFaculty(f: Faculty)
  {
    f.name != "" && f.code != "" && f.contactEmail != "" && f.contactPhone != ""
  }

  /** The department schema's required fields. */
  predicate ValidDepartment(d: Department)
  {
    d.name != "" && d.code != ""
  }

  /** The unique index on faculty names. */
  ghost predicate FacultyNamesUnique(fs: seq<Faculty>)
  {
    forall i, j :: 0 <= i < j < |fs| ==> fs[i].name != fs[j].name
  }

  /** The unique index on department names. */
  ghost predicate DepartmentNamesUnique(ds: seq<Department>)
  {
    forall i, j :: 0 <= i < j < |ds| ==> ds[i].name != ds[j].name
  }

  /** Faculty.findOne({ name }). */
  function FindFacultyByName(fs: seq<Faculty>, name: string): (r: Option<FacultyId>)
    ensures r.Some? ==> r.value < |fs| && fs[r.value].name == name
    ensures r.None? <==> forall i :: 0 <= i < |fs| ==> fs[i].name != name
  {
    Query.FindOne(fs, (f: Faculty) => f.name == name)
  }

  /** Department.findOne({ name }): not restricted to any faculty. */
  function FindDepartmentByName(ds: seq<Department>, name: string): (r: Option<DepartmentId>)
    ensures r.Some? ==> r.value < |ds| && ds[r.value].name == name
    ensures r.None? <==> forall i :: 0 <= i < |ds| ==> ds[i].name != name
  {
    Query.FindOne(ds, (d: Department) => d.name == name)
  }

  predicate InFaculty(d: Department, name: string, faculty: FacultyId)
  {
    d.name == name && d.faculty == Some(faculty)
  }

  /** Department.findOne({ name, faculty }). */
  function FindDepartmentInFaculty(ds: seq<Department>, name: string, faculty: FacultyId)
    : (r: Option<DepartmentId>)
    ensures r.Some? ==> r.value < |ds| && ds[r.value].name == name && ds[r.value].faculty == Some(faculty)
    ensures r.None? <==> forall i :: 0 <= i < |ds| ==> !InFaculty(ds[i], name, faculty)
  {
    Query.FindOne(ds, (d: Department) => InFaculty(d, name, faculty))
  }

  /** Faculty.find({}, "name"), as the list of names. */
  function FacultyNames(fs: seq<Faculty>): (r: seq<string>)
    ensures |r| == |fs| && forall i :: 0 <= i < |fs| ==> r[i] == fs[i].name
  {
    seq(|fs|, i requires 0 <= i < |fs| => fs[i].name)
  }

  /** Some department of the faculty carries the name. */
  ghost predicate OwnsName(ds: seq<Department>, faculty: FacultyId, name: string)
  {
    exists i :: 0 <= i < |ds| && ds[i].faculty == Some(faculty) && ds[i].name == name
  }

  /** Ids of the faculty's departments, in natural order. */
  function DepartmentsOf(ds: seq<Department>, faculty: FacultyId): (r: seq<DepartmentId>)
    ensures forall k :: 0 <= k < |r| ==> r[k] < |ds| && ds[r[k]].faculty == Some(faculty)
    ensures forall i: DepartmentId :: i < |ds| && ds[i].faculty == Some(faculty) ==> i in r
    ensures forall j, k :: 0 <= j < k < |r| ==> r[j] < r[k]
  {
    if |ds| == 0 then []
    else
      var init := DepartmentsOf(ds[..|ds| - 1], faculty);
      assert forall k :: 0 <= k < |init| ==> init[k] < |ds| - 1;
      init + (if ds[|ds| - 1].faculty == Some(faculty) then [|ds| - 1] else [])
  }

  /** Department.find({ faculty }, "name"), as the list of names: one name
      per department of the faculty, in natural order. */
  function DepartmentNamesOf(ds: seq<Department>, faculty: FacultyId): (r: seq<string>)
    ensures |r| == |DepartmentsOf(ds, faculty)|
    ensures forall k :: 0 <= k < |r| ==> r[k] == ds[DepartmentsOf(ds, faculty)[k]].name
    ensures forall n :: n in r <==> OwnsName(ds, faculty, n)
  {
    var ids := DepartmentsOf(ds, faculty);
    var r := seq(|ids|, k requires 0 <= k < |ids| => ds[ids[k]].name);
    forall n ensures OwnsName(ds, faculty, n) ==> n in r {
      if OwnsName(ds, faculty, n) {
        var i :| 0 <= i < |ds| && ds[i].faculty == Some(faculty) && ds[i].name == n;
        var k :| 0 <= k < |ids| && ids[k] == i;
        assert r[k] == n;
      }
    }
    r
  }

  /** Under the unique index, a name lookup finds the one faculty with that name. */
  lemma FindFacultyUnique(fs: seq<Faculty>, i: nat)
    requires FacultyNamesUnique(fs) && i < |fs|
    ensures FindFacultyByName(fs, fs[i].name) == Some(i)
  {
  }

  /** Under the unique index, a name lookup finds the one department with that name. */
  lemma FindDepartmentUnique(ds: seq<Department>, i: nat)
    requires DepartmentNamesUnique(ds) && i < |ds|
    ensures FindDepartmentByName(ds, ds[i].name) == Some(i)
  {
  }
}
