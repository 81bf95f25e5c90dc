/** Registration-number generation (server/utility/RegNo.js). The function
    reads a snapshot of the faculty, department and user collections and
    never writes to any of them; the clock is the `fullYear` parameter. */
module RegNo {
  import opened Outcomes
  import opened Ids
  import opened Text
  import opened Directory
  import opened UserModel
  import Query

  /** The two errors generateRegNo throws. Each names what was attempted and
      lists the alternatives that exist. */
  datatype RegNoError =
    | FacultyNotFound(facultyName: string, available: seq<string>)
    | DepartmentNotFound(departmentName: string, facultyName: string, available: seq<string>)
  {
    /** The thrown Error's message. */
    function Message(): string
    {
      match this
      case FacultyNotFound(f, names) =>
        "Faculty '" + f + "' not found! Available faculties: " + Join(names, ", ")
      case DepartmentNotFound(d, f, names) =>
        "Department '" + d + "' not found in faculty '" + f + "'! Available departments: " + Join(names, ", ")
    }
  }

  /** new Date().getFullYear().toString().slice(-2) */
  function YearDigits(fullYear: nat): string
  {
    var s := Decimal(fullYear);
    if |s| <= 2 then s else s[|s| - 2..]
  }

  /** From year 10 on, the year part is the two digits of the year modulo 100
      (2025 gives "25", 2005 gives "05"). */
  lemma YearDigitsValue(fullYear: nat)
    requires fullYear >= 10
    ensures |YearDigits(fullYear)| == 2 && AllDigits(YearDigits(fullYear))
    ensures Value(YearDigits(fullYear)) == fullYear % 100
  {
    var s := Decimal(fullYear);
    var d0 := DigitChar(fullYear % 10);
    var d1 := DigitChar((fullYear / 10) % 10);
    assert s == Decimal(fullYear / 10) + [d0];
    if fullYear < 100 {
      assert Decimal(fullYear / 10) == [d1];
    } else {
      assert Decimal(fullYear / 10) == Decimal(fullYear / 100) + [d1];
    }
    assert s[|s| - 2..] == [d1, d0];
    var y := YearDigits(fullYear);
    assert y == [d1, d0];
    assert y[..1] == [d1];
    assert Value(y[..1]) == DigitValue(d1) by {
      assert y[..1][..0] == [];
    }
    assert Value(y) == DigitValue(d1) * 10 + DigitValue(d0);
    assert fullYear % 100 == ((fullYear / 10) % 10) * 10 + fullYear % 10;
  }

  /** `${facultyCode}/${deptCode}/${year}/` */
  function Prefix(facultyCode: string, deptCode: string, year: string): string
  {
    facultyCode + "/" + deptCode + "/" + year + "/"
  }

  /** The user matches the anchored pattern ^prefix on its regNo (a user
      without a regNo matches nothing). */
  predicate HasPrefix(u: User, prefix: string)
  {
    u.regNo.Some? && StartsWith(u.regNo.value, prefix)
  }

  /** Student.countDocuments({ regNo: /^prefix/ }) */
  function CountWithPrefix(users: seq<User>, prefix: string): nat
  {
    Query.Count(users, (u: User) => HasPrefix(u, prefix))
  }

  /** String(count + 1).padStart(3, "0") */
  function Sequence(count: nat): string
  {
    PadStart(Decimal(count + 1), 3, '0')
  }

  /** The two lookups of generateRegNo and the prefix they lead to: the
      faculty by name, then the department by name inside that faculty, and
      `${facultyCode}/${deptCode}/${year}/` of the pair; or the error thrown
      when a lookup finds nothing. */
  function Scope(
    faculties: seq<Faculty>, departments: seq<Department>,
    fullYear: nat, facultyName: string, departmentName: string): Result<string, RegNoError>
  {
    match FindFacultyByName(faculties, facultyName)
    case None => Err(FacultyNotFound(facultyName, FacultyNames(faculties)))
    case Some(f) =>
      match FindDepartmentInFaculty(departments, departmentName, f)
      case None => Err(DepartmentNotFound(departmentName, facultyName, DepartmentNamesOf(departments, f)))
      case Some(d) => Ok(Prefix(faculties[f].code, departments[d].code, YearDigits(fullYear)))
  }

  /** generateRegNo(facultyName, departmentName): the scope's prefix followed
      by the sequence number of the count of regNos already in the scope. */
  function GenerateRegNo(
    faculties: seq<Faculty>, departments: seq<Department>, users: seq<User>,
    fullYear: nat, facultyName: string, departmentName: string)
    : Result<string, RegNoError>
  {
    match Scope(faculties, departments, fullYear, facultyName, departmentName)
    case Err(e) => Err(e)
    case Ok(prefix) => Ok(prefix + Sequence(CountWithPrefix(users, prefix)))
  }

  /** An unknown faculty name fails, and only it fails this way; the error
      names the attempted faculty and lists every faculty's name in order. */
  lemma UnknownFaculty(
    faculties: seq<Faculty>, departments: seq<Department>, users: seq<User>,
    fullYear: nat, facultyName: string, departmentName: string)
    ensures var r := GenerateRegNo(faculties, departments, users, fullYear, facultyName, departmentName);
      (r.Err? && r.error.FacultyNotFound?) <==> forall i :: 0 <= i < |faculties| ==> faculties[i].name != facultyName
    ensures var r := GenerateRegNo(faculties, departments, users, fullYear, facultyName, departmentName);
      r.Err? && r.error.FacultyNotFound? ==>
        && r.error.facultyName == facultyName
        && |r.error.available| == |faculties|
        && forall i :: 0 <= i < |faculties| ==> r.error.available[i] == faculties[i].name
  {
  }

  /** With the faculty resolved, a department that is absent from THAT
      faculty fails, even when a department of that name exists elsewhere; the
      error lists exactly the names of the faculty's own departments. */
  lemma UnknownDepartment(
    faculties: seq<Faculty>, departments: seq<Department>, users: seq<User>,
    fullYear: nat, facultyName: string, departmentName: string, f: FacultyId)
    requires FindFacultyByName(faculties, facultyName) == Some(f)
    ensures var r := GenerateRegNo(faculties, departments, users, fullYear, facultyName, departmentName);
      (r.Err? && r.error.DepartmentNotFound?) <==>
        forall j :: 0 <= j < |departments| ==> !InFaculty(departments[j], departmentName, f)
    ensures var r := GenerateRegNo(faculties, departments, users, fullYear, facultyName, departmentName);
      r.Err? && r.error.DepartmentNotFound? ==>
        && r.error.departmentName == departmentName && r.error.facultyName == facultyName
        && forall n :: n in r.error.available <==> OwnsName(departments, f, n)
  {
  }

  /** A resolved scope always yields a regNo: the scope's prefix followed by a
      numeral of count + 1, where count is the number of users whose regNo
      begins with the prefix; the numeral is zero-padded to three digits and
      never truncated. */
  lemma RegNoFormat(
    faculties: seq<Faculty>, departments: seq<Department>, users: seq<User>,
    fullYear: nat, facultyName: string, departmentName: string)
    requires Scope(faculties, departments, fullYear, facultyName, departmentName).Ok?
    ensures var prefix := Scope(faculties, departments, fullYear, facultyName, departmentName).value;
      var r := GenerateRegNo(faculties, departments, users, fullYear, facultyName, departmentName);
      var count := CountWithPrefix(users, prefix);
      && r.Ok? && StartsWith(r.value, prefix)
      && AllDigits(r.value[|prefix|..])
      && Value(r.value[|prefix|..]) == count + 1
      && (|r.value[|prefix|..]| == 3 <==> count < 999)
      && |r.value[|prefix|..]| >= 3
  {
    var prefix := Scope(faculties, departments, fullYear, facultyName, departmentName).value;
    var count := CountWithPrefix(users, prefix);
    var r := GenerateRegNo(faculties, departments, users, fullYear, facultyName, departmentName);
    assert r == Ok(prefix + Sequence(count));
    assert r.value[|prefix|..] == Sequence(count);
    PaddedNumeral(count + 1, 3);
    SequenceWidth(count);
  }

  /** The suffix keeps three digits up to count 998 and widens from 999 on. */
  lemma SequenceWidth(count: nat)
    ensures |Sequence(count)| == 3 <==> count < 999
    ensures count >= 999 ==> |Sequence(count)| == |Decimal(count + 1)| >= 4
  {
    DecimalLength(count + 1, 2);
    assert Pow10(3) == 1000;
  }

  /** generateRegNo succeeds exactly when the scope resolves, and otherwise
      throws the scope's error: the stored users only decide the number. */
  lemma ScopeResolves(
    faculties: seq<Faculty>, departments: seq<Department>, users: seq<User>,
    fullYear: nat, facultyName: string, departmentName: string)
    ensures GenerateRegNo(faculties, departments, users, fullYear, facultyName, departmentName).Ok? <==>
      Scope(faculties, departments, fullYear, facultyName, departmentName).Ok?
    ensures GenerateRegNo(faculties, departments, users, fullYear, facultyName, departmentName).Err? ==>
      GenerateRegNo(faculties, departments, users, fullYear, facultyName, departmentName).error ==
      Scope(faculties, departments, fullYear, facultyName, departmentName).error
  {
  }

  /** If each generated regNo is stored before the next call, the next call in
      the same scope gets the next sequence number: the suffixes go up by one
      and the two regNos differ. */
  lemma SuccessiveRegNos(
    faculties: seq<Faculty>, departments: seq<Department>, users: seq<User>,
    fullYear: nat, facultyName: string, departmentName: string, stored: User)
    requires GenerateRegNo(faculties, departments, users, fullYear, facultyName, departmentName).Ok?
    requires stored.regNo == Some(GenerateRegNo(faculties, departments, users, fullYear, facultyName, departmentName).value)
    ensures var prefix := Scope(faculties, departments, fullYear, facultyName, departmentName).value;
      var first := GenerateRegNo(faculties, departments, users, fullYear, facultyName, departmentName);
      var next := GenerateRegNo(faculties, departments, users + [stored], fullYear, facultyName, departmentName);
      && next.Ok?
      && StartsWith(first.value, prefix) && StartsWith(next.value, prefix)
      && AllDigits(first.value[|prefix|..]) && AllDigits(next.value[|prefix|..])
      && Value(next.value[|prefix|..]) == Value(first.value[|prefix|..]) + 1
      && next.value != first.value
  {
    ScopeResolves(faculties, departments, users, fullYear, facultyName, departmentName);
    var prefix := Scope(faculties, departments, fullYear, facultyName, departmentName).value;
    RegNoFormat(faculties, departments, users, fullYear, facultyName, departmentName);
    RegNoFormat(faculties, departments, users + [stored], fullYear, facultyName, departmentName);
    Query.CountAppend(users, stored, (u: User) => HasPrefix(u, prefix));
    assert HasPrefix(stored, prefix);
  }

  /** The generated regNo is new as long as the scope is dense: every stored
      regNo with the scope's prefix ends in a numeral no larger than the
      number of such regNos (as when they are exactly 001 .. count). */
  lemma FreshWhenDense(
    faculties: seq<Faculty>, departments: seq<Department>, users: seq<User>,
    fullYear: nat, facultyName: string, departmentName: string)
    requires Scope(faculties, departments, fullYear, facultyName, departmentName).Ok?
    requires var prefix := Scope(faculties, departments, fullYear, facultyName, departmentName).value;
      forall i :: 0 <= i < |users| && HasPrefix(users[i], prefix) ==>
        AllDigits(users[i].regNo.value[|prefix|..]) &&
        Value(users[i].regNo.value[|prefix|..]) <= CountWithPrefix(users, prefix)
    ensures var r := GenerateRegNo(faculties, departments, users, fullYear, facultyName, departmentName);
      r.Ok? && forall i :: 0 <= i < |users| ==> users[i].regNo != Some(r.value)
  {
    var prefix := Scope(faculties, departments, fullYear, facultyName, departmentName).value;
    RegNoFormat(faculties, departments, users, fullYear, facultyName, departmentName);
    var r := GenerateRegNo(faculties, departments, users, fullYear, facultyName, departmentName);
    forall i | 0 <= i < |users| ensures users[i].regNo != Some(r.value) {
      if users[i].regNo == Some(r.value) {
        assert HasPrefix(users[i], prefix);
        assert false;
      }
    }
  }

  /** The faculties the setup route seeds (server/Routes/setupRoute.js:51-80),
      in insertion order; every faculty is active by default. */
  function SeedFaculties(): seq<Faculty>
  {
    [ Faculty("Faculty of Science", "SCI", "science@university.com", "+1234567890", true),
      Faculty("Faculty of Arts", "ART", "arts@university.com", "+1234567891", true),
      Faculty("Faculty of Engineering", "ENG", "engineering@university.com", "+1234567892", true),
      Faculty("Faculty of Business", "BUS", "business@university.com", "+1234567893", true) ]
  }

  /** The departments the setup route seeds (server/Routes/setupRoute.js:86-143),
      each referencing its faculty's position in SeedFaculties. */
  function SeedDepartments(): seq<Department>
  {
    [ Department("Computer Science", "CSC", Some(0)),
      Department("Mathematics", "MTH", Some(0)),
      Department("Physics", "PHY", Some(0)),
      Department("English Literature", "ENG", Some(1)),
      Department("History", "HIS", Some(1)),
      Department("Civil Engineering", "CVE", Some(2)),
      Department("Electrical Engineering", "EEE", Some(2)),
      Department("Business Administration", "BBA", Some(3)),
      Department("Accounting", "ACC", Some(3)) ]
  }

  /** In the seeded directory, Computer Science of the Faculty of Science
      resolves in 2025 to the scope SCI/CSC/25/. */
  lemma SeedScienceScope()
    ensures Scope(SeedFaculties(), SeedDepartments(), 2025, "Faculty of Science", "Computer Science")
      == Ok("SCI/CSC/25/")
  {
    YearDigitsValue(2025);
    assert YearDigits(2025) == "25";
    assert FindFacultyByName(SeedFaculties(), "Faculty of Science") == Some(0);
    assert FindDepartmentInFaculty(SeedDepartments(), "Computer Science", 0) == Some(0);
    assert Prefix("SCI", "CSC", "25") == "SCI/CSC/25/";
  }

  /** In the seeded directory, the first student of the Computer Science
      scope in 2025 gets SCI/CSC/25/001, whatever else is stored, as long as
      no regNo of that scope is. */
  lemma FirstScienceStudent(users: seq<User>)
    requires forall i :: 0 <= i < |users| ==> !HasPrefix(users[i], "SCI/CSC/25/")
    ensures GenerateRegNo(SeedFaculties(), SeedDepartments(), users, 2025,
      "Faculty of Science", "Computer Science") == Ok("SCI/CSC/25/001")
  {
    SeedScienceScope();
    var prefix := "SCI/CSC/25/";
    assert CountWithPrefix(users, prefix) == 0;
    assert Decimal(1) == "1";
    assert Repeat('0', 2) == "00";
    assert Sequence(0) == "001";
    assert prefix + "001" == "SCI/CSC/25/001";
  }

  /** Counting is not numbering: once a number of the scope is missing (its
      holder's regNo changed, or the document removed), the count falls
      behind and the next regNo repeats one still in use. Here the only
      stored regNo of the scope is SCI/CSC/25/002, whatever else is stored,
      and the generator produces it again. */
  lemma CountRepeatsAfterGap(users: seq<User>, h: nat)
    requires h < |users| && users[h].regNo == Some("SCI/CSC/25/002")
    requires forall i :: 0 <= i < |users| && i != h ==> !HasPrefix(users[i], "SCI/CSC/25/")
    ensures GenerateRegNo(SeedFaculties(), SeedDepartments(), users, 2025,
      "Faculty of Science", "Computer Science") == Ok("SCI/CSC/25/002")
    ensures users[h].regNo == Some(GenerateRegNo(SeedFaculties(), SeedDepartments(), users, 2025,
      "Faculty of Science", "Computer Science").value)
  {
    SeedScienceScope();
    var prefix := "SCI/CSC/25/";
    assert HasPrefix(users[h], prefix) by {
      assert users[h].regNo.value[..|prefix|] == prefix;
    }
    Query.CountOne(users, (u: User) => HasPrefix(u, prefix), h);
    assert CountWithPrefix(users, prefix) == 1;
    assert Decimal(2) == "2";
    assert Repeat('0', 2) == "00";
    assert Sequence(1) == "002";
    assert prefix + "002" == "SCI/CSC/25/002";
  }
}
