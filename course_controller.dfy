/** Course listing, creation, soft deletion and enrollment
    (server/controllers/courseController.js). */
module CourseController {
  import opened Outcomes
  import opened Ids
  import opened Text
  import opened Directory
  import opened UserModel
  import opened CourseModel
  import opened Database
  import Query

  // ---------------------------------------------------------------------
  // getAllCourses

  /** The filters of GET /course/all; an empty string is a filter that was
      not given. */
  datatype CourseFilter = CourseFilter(
    search: string,
    lecturer: string,
    department: Option<DepartmentId>,
    semester: string)

  /** The whole query string: the filters plus page and limit, whose defaults
      are 1 and 10. */
  datatype CourseQuery = CourseQuery(page: int, limit: int, filter: CourseFilter)

  /** The Mongo filter: active courses, narrowed by each filter given. The
      search text is matched case-insensitively against title or code. */
  predicate Selects(f: CourseFilter, c: Course)
  {
    && c.isActive
    && (f.search != "" ==>
          Contains(Lower(c.title), Lower(f.search)) || Contains(Lower(c.code), Lower(f.search)))
    && (f.lecturer != "" ==> c.lecturer == Some(f.lecturer))
    && (f.department.Some? ==> c.department == f.department)
    && (f.semester != "" ==> SemesterName(c.semester) == f.semester)
  }

  /** Ids of the first n courses the filter selects, in natural order. */
  function Selected(cs: seq<Course>, f: CourseFilter, n: nat): (r: seq<CourseId>)
    requires n <= |cs|
    ensures forall k :: 0 <= k < |r| ==> r[k] < n
    ensures forall j, k :: 0 <= j < k < |r| ==> r[j] < r[k]
  {
    if n == 0 then []
    else Selected(cs, f, n - 1) + (if Selects(f, cs[n - 1]) then [n - 1] else [])
  }

  /** Course.find(query) returns exactly the courses the filter selects. */
  lemma {:induction false} SelectedMembers(cs: seq<Course>, f: CourseFilter, n: nat)
    requires n <= |cs|
    ensures forall i: CourseId :: i in Selected(cs, f, n) <==> i < n && Selects(f, cs[i])
  {
    if n > 0 {
      SelectedMembers(cs, f, n - 1);
    }
  }

  /** MongoDB's default string order: character by character. */
  predicate CodeLeq(a: string, b: string)
    decreases |a|
  {
    a == [] || (b != [] && (a[0] < b[0] || (a[0] == b[0] && CodeLeq(a[1..], b[1..]))))
  }

  lemma {:induction false} CodeLeqTotal(a: string, b: string)
    ensures CodeLeq(a, b) || CodeLeq(b, a)
    decreases |a|
  {
    if a != [] && b != [] && a[0] == b[0] {
      CodeLeqTotal(a[1..], b[1..]);
    }
  }

  lemma {:induction false} CodeLeqTrans(a: string, b: string, c: string)
    requires CodeLeq(a, b) && CodeLeq(b, c)
    ensures CodeLeq(a, c)
    decreases |a|
  {
    if a != [] && a[0] == b[0] && b[0] == c[0] {
      CodeLeqTrans(a[1..], b[1..], c[1..]);
    }
  }

  predicate AllIn(cs: seq<Course>, ids: seq<CourseId>)
  {
    forall k :: 0 <= k < |ids| ==> ids[k] < |cs|
  }

  /** `.sort({ code: 1 })` holds of the ids. */
  predicate SortedByCode(cs: seq<Course>, ids: seq<CourseId>)
    requires AllIn(cs, ids)
  {
    forall j, k :: 0 <= j < k < |ids| ==> CodeLeq(cs[ids[j]].code, cs[ids[k]].code)
  }

  /** An id whose code is at most every code of a sorted list can go in front. */
  lemma PrependSmallest(cs: seq<Course>, id: CourseId, sorted: seq<CourseId>)
    requires id < |cs| && AllIn(cs, sorted) && SortedByCode(cs, sorted)
    requires forall k :: 0 <= k < |sorted| ==> CodeLeq(cs[id].code, cs[sorted[k]].code)
    ensures AllIn(cs, [id] + sorted) && SortedByCode(cs, [id] + sorted)
  {
    var r := [id] + sorted;
    forall j, k | 0 <= j < k < |r| ensures CodeLeq(cs[r[j]].code, cs[r[k]].code) {
      if j > 0 {
        assert r[j] == sorted[j - 1] && r[k] == sorted[k - 1];
      } else {
        assert r[k] == sorted[k - 1];
      }
    }
  }

  /** The head of a sorted list is at most every element of the list that
      results from inserting a larger id into its tail. */
  lemma HeadBelowInsert(cs: seq<Course>, sorted: seq<CourseId>, id: CourseId, rest: seq<CourseId>)
    requires sorted != [] && id < |cs| && AllIn(cs, sorted) && SortedByCode(cs, sorted)
    requires CodeLeq(cs[sorted[0]].code, cs[id].code)
    requires AllIn(cs, rest) && multiset(rest) == multiset(sorted[1..]) + multiset{id}
    ensures forall k :: 0 <= k < |rest| ==> CodeLeq(cs[sorted[0]].code, cs[rest[k]].code)
  {
    forall k | 0 <= k < |rest| ensures CodeLeq(cs[sorted[0]].code, cs[rest[k]].code) {
      assert rest[k] in multiset(rest);
      if rest[k] != id {
        assert rest[k] in multiset(sorted[1..]);
        var j :| 0 <= j < |sorted[1..]| && sorted[1..][j] == rest[k];
        assert sorted[j + 1] == rest[k];
      }
    }
  }

  function InsertByCode(cs: seq<Course>, id: CourseId, sorted: seq<CourseId>): (r: seq<CourseId>)
    requires id < |cs| && AllIn(cs, sorted) && SortedByCode(cs, sorted)
    ensures AllIn(cs, r) && SortedByCode(cs, r)
    ensures multiset(r) == multiset(sorted) + multiset{id}
  {
    if sorted == [] then [id]
    else if CodeLeq(cs[id].code, cs[sorted[0]].code) then
      assert forall k :: 0 <= k < |sorted| ==> CodeLeq(cs[id].code, cs[sorted[k]].code) by {
        forall k | 0 < k < |sorted| ensures CodeLeq(cs[id].code, cs[sorted[k]].code) {
          CodeLeqTrans(cs[id].code, cs[sorted[0]].code, cs[sorted[k]].code);
        }
      }
      PrependSmallest(cs, id, sorted);
      [id] + sorted
    else
      var tail := sorted[1..];
      assert AllIn(cs, tail) && SortedByCode(cs, tail) by {
        forall j, k | 0 <= j < k < |tail| ensures CodeLeq(cs[tail[j]].code, cs[tail[k]].code) {
          assert tail[j] == sorted[j + 1] && tail[k] == sorted[k + 1];
        }
      }
      var rest := InsertByCode(cs, id, tail);
      CodeLeqTotal(cs[id].code, cs[sorted[0]].code);
      HeadBelowInsert(cs, sorted, id, rest);
      PrependSmallest(cs, sorted[0], rest);
      assert sorted == [sorted[0]] + tail;
      [sorted[0]] + rest
  }

  /** The ids reordered by course code: sorted and a permutation of the input. */
  function SortByCode(cs: seq<Course>, ids: seq<CourseId>): (r: seq<CourseId>)
    requires AllIn(cs, ids)
    ensures AllIn(cs, r) && SortedByCode(cs, r)
    ensures multiset(r) == multiset(ids)
  {
    if ids == [] then []
    else
      assert ids == ids[..|ids| - 1] + [ids[|ids| - 1]];
      InsertByCode(cs, ids[|ids| - 1], SortByCode(cs, ids[..|ids| - 1]))
  }

  /** Math.ceil(total / limit) for a positive limit. */
  function CeilDiv(total: nat, limit: nat): (r: nat)
    requires limit >= 1
    ensures r * limit >= total
    ensures total > 0 ==> (r - 1) * limit < total
    ensures r == 0 <==> total == 0
  {
    (total + limit - 1) / limit
  }

  /** The response of getAllCourses. */
  datatype Listing =
    | Listing(courses: seq<CourseId>, totalPages: nat, currentPage: int, total: nat)
    | CurrentlyEmpty   // { message: "Course is currently empty" }

  /** The courses the filter selects, in code order. */
  function Catalogue(cs: seq<Course>, f: CourseFilter): (r: seq<CourseId>)
    ensures AllIn(cs, r) && SortedByCode(cs, r)
    ensures multiset(r) == multiset(Selected(cs, f, |cs|))
  {
    var selected := Selected(cs, f, |cs|);
    assert AllIn(cs, selected);
    SortByCode(cs, selected)
  }

  /** Course.countDocuments(query). */
  function Total(cs: seq<Course>, f: CourseFilter): nat
  {
    |Selected(cs, f, |cs|)|
  }

  /** The catalogue holds every course the filter selects and nothing else,
      and it is as long as countDocuments reports. */
  lemma CatalogueMembers(cs: seq<Course>, f: CourseFilter)
    ensures forall x: CourseId :: x in Catalogue(cs, f) <==> x < |cs| && Selects(f, cs[x])
    ensures |Catalogue(cs, f)| == Total(cs, f)
  {
    var all := Catalogue(cs, f);
    var selected := Selected(cs, f, |cs|);
    SelectedMembers(cs, f, |cs|);
    forall x: CourseId ensures x in all <==> x < |cs| && Selects(f, cs[x]) {
      assert x in all <==> x in multiset(all);
      assert x in selected <==> x in multiset(selected);
    }
    assert |multiset(all)| == |multiset(selected)|;
  }

  function Min(a: int, b: int): int
  {
    if a <= b then a else b
  }

  /** `.skip(skip).limit(limit)` applied to a result list. */
  function Window(all: seq<CourseId>, skip: nat, limit: nat): (r: seq<CourseId>)
    ensures |r| <= limit
    ensures skip + limit <= |all| ==> |r| == limit
    ensures skip < |all| < skip + limit ==> |r| == |all| - skip
    ensures r != [] <==> skip < |all| && limit > 0
    ensures forall k :: 0 <= k < |r| ==> skip + k < |all| && r[k] == all[skip + k]
  {
    if skip >= |all| then [] else all[skip..Min(skip + limit, |all|)]
  }

  /** The page of a result list that `.skip((page - 1) * limit).limit(limit)`
      yields, wrapped into the response; an empty page is answered with the
      "currently empty" message. */
  function Paginate(all: seq<CourseId>, total: nat, page: int, limit: int): Listing
    requires page >= 1 && limit >= 1
  {
    var window := Window(all, (page - 1) * limit, limit);
    if window == [] then CurrentlyEmpty
    else Listing(window, CeilDiv(total, limit), page, total)
  }

  /** getAllCourses: the catalogue of the filter, paginated, with the count of
      the filter's matches as total. */
  function GetAllCourses(cs: seq<Course>, q: CourseQuery): Listing
    requires q.page >= 1 && q.limit >= 1
  {
    Paginate(Catalogue(cs, q.filter), Total(cs, q.filter), q.page, q.limit)
  }

  /** A window of a list sorted by code is sorted by code. */
  lemma WindowSorted(cs: seq<Course>, all: seq<CourseId>, skip: nat, limit: nat)
    requires AllIn(cs, all) && SortedByCode(cs, all)
    ensures AllIn(cs, Window(all, skip, limit)) && SortedByCode(cs, Window(all, skip, limit))
  {
    var w := Window(all, skip, limit);
    forall j, k | 0 <= j < k < |w| ensures CodeLeq(cs[w[j]].code, cs[w[k]].code) {
      assert w[j] == all[skip + j] && w[k] == all[skip + k];
    }
  }

  /** A page of a list sorted by code is sorted by code. */
  lemma PaginateSorted(cs: seq<Course>, all: seq<CourseId>, total: nat, page: int, limit: int)
    requires page >= 1 && limit >= 1
    requires AllIn(cs, all) && SortedByCode(cs, all)
    ensures var r := Paginate(all, total, page, limit);
      r.Listing? ==> AllIn(cs, r.courses) && SortedByCode(cs, r.courses)
  {
    WindowSorted(cs, all, (page - 1) * limit, limit);
  }

  /** A page holds between 1 and `limit` entries of the result list, taken
      from position (page - 1) * limit on, and enough pages to hold `total`
      entries. */
  lemma PaginateContents(all: seq<CourseId>, total: nat, page: int, limit: int)
    requires page >= 1 && limit >= 1
    ensures var r := Paginate(all, total, page, limit);
      r.Listing? ==>
        && 1 <= |r.courses| <= limit
        && (forall k :: 0 <= k < |r.courses| ==> r.courses[k] in all)
        && r.total == total && r.currentPage == page
        && r.totalPages * limit >= total > (r.totalPages - 1) * limit
  {
    var r := Paginate(all, total, page, limit);
    if r.Listing? {
      var skip: nat := (page - 1) * limit;
      assert r.courses == Window(all, skip, limit);
      forall k | 0 <= k < |r.courses| ensures r.courses[k] in all {
        assert r.courses[k] == all[skip + k];
      }
    }
  }

  /** A page of a code-sorted list of courses the filter selects holds only
      such courses, in code order, and reports the counts it was given. */
  lemma PaginateListing(cs: seq<Course>, f: CourseFilter, all: seq<CourseId>, total: nat, page: int, limit: int)
    requires page >= 1 && limit >= 1
    requires AllIn(cs, all) && SortedByCode(cs, all)
    requires forall x: CourseId :: x in all ==> x < |cs| && Selects(f, cs[x])
    ensures var r := Paginate(all, total, page, limit);
      r.Listing? ==>
        && 1 <= |r.courses| <= limit
        && (forall k :: 0 <= k < |r.courses| ==>
              r.courses[k] < |cs| && cs[r.courses[k]].isActive && Selects(f, cs[r.courses[k]]))
        && AllIn(cs, r.courses) && SortedByCode(cs, r.courses)
        && r.total == total
        && r.totalPages * limit >= r.total > (r.totalPages - 1) * limit
        && r.currentPage == page
  {
    PaginateContents(all, total, page, limit);
    PaginateSorted(cs, all, total, page, limit);
  }

  /** A listing holds at most `limit` courses, each active and selected by
      the filter, in code order; it reports the requested page, the number
      of courses the filter selects and enough pages to hold them all. */
  lemma ListingContents(cs: seq<Course>, q: CourseQuery)
    requires q.page >= 1 && q.limit >= 1
    ensures var r := GetAllCourses(cs, q);
      r.Listing? ==>
        && 1 <= |r.courses| <= q.limit
        && (forall k :: 0 <= k < |r.courses| ==>
              r.courses[k] < |cs| && cs[r.courses[k]].isActive && Selects(q.filter, cs[r.courses[k]]))
        && AllIn(cs, r.courses) && SortedByCode(cs, r.courses)
        && r.total == Total(cs, q.filter)
        && r.totalPages * q.limit >= r.total > (r.totalPages - 1) * q.limit
        && r.currentPage == q.page
  {
    CatalogueMembers(cs, q.filter);
    PaginateListing(cs, q.filter, Catalogue(cs, q.filter), Total(cs, q.filter), q.page, q.limit);
  }

  lemma PageArithmetic(k: nat, limit: int)
    requires limit >= 1
    ensures (k / limit + 1 - 1) * limit + k % limit == k
    ensures 0 <= k % limit < limit
  {
  }

  /** The page, counted from 1, that holds position k of a result list when
      each page holds `limit` entries. */
  function PageOf(k: nat, limit: int): (p: int)
    requires limit >= 1
    ensures p >= 1
    ensures (p - 1) * limit <= k < p * limit
  {
    PageArithmetic(k, limit);
    k / limit + 1
  }

  /** The entry at position k of a result list is entry k mod limit of page
      k / limit + 1. */
  lemma PaginatePosition(all: seq<CourseId>, total: nat, limit: int, k: nat)
    requires limit >= 1 && k < |all|
    ensures var r := Paginate(all, total, PageOf(k, limit), limit);
      r.Listing? && k % limit < |r.courses| && r.courses[k % limit] == all[k]
  {
    PageArithmetic(k, limit);
    var skip: nat := (k / limit + 1 - 1) * limit;
    var window := Window(all, skip, limit);
    assert |window| == Min(skip + limit, |all|) - skip;
  }

  /** The course at position k of the catalogue is entry k mod limit of page
      k / limit + 1: consecutive pages tile the catalogue. */
  lemma PageOfPosition(cs: seq<Course>, q: CourseQuery, k: nat)
    requires q.limit >= 1 && k < |Catalogue(cs, q.filter)|
    ensures var r := GetAllCourses(cs, q.(page := PageOf(k, q.limit)));
      r.Listing? && k % q.limit < |r.courses| && r.courses[k % q.limit] == Catalogue(cs, q.filter)[k]
  {
    PaginatePosition(Catalogue(cs, q.filter), Total(cs, q.filter), q.limit, k);
  }

  /** Two codes each at most the other are the same code. */
  lemma {:induction false} CodeLeqAntisymmetric(a: string, b: string)
    requires CodeLeq(a, b) && CodeLeq(b, a)
    ensures a == b
    decreases |a|
  {
    if a != [] {
      CodeLeqAntisymmetric(a[1..], b[1..]);
      assert a == [a[0]] + a[1..] && b == [b[0]] + b[1..];
    }
  }

  /** Ids of a list whose courses all carry different codes. */
  predicate CodesDistinct(cs: seq<Course>, ids: seq<CourseId>)
    requires AllIn(cs, ids)
  {
    forall j, k :: 0 <= j < |ids| && 0 <= k < |ids| && ids[j] != ids[k] ==> cs[ids[j]].code != cs[ids[k]].code
  }

  /** The tail of a code-sorted list is code-sorted, and keeps distinct codes. */
  lemma SortedTail(cs: seq<Course>, ids: seq<CourseId>)
    requires ids != [] && AllIn(cs, ids) && SortedByCode(cs, ids)
    ensures AllIn(cs, ids[1..]) && SortedByCode(cs, ids[1..])
    ensures CodesDistinct(cs, ids) ==> CodesDistinct(cs, ids[1..])
  {
    var t := ids[1..];
    forall j, k | 0 <= j < k < |t| ensures CodeLeq(cs[t[j]].code, cs[t[k]].code) {
      assert t[j] == ids[j + 1] && t[k] == ids[k + 1];
    }
    if CodesDistinct(cs, ids) {
      forall j, k | 0 <= j < |t| && 0 <= k < |t| && t[j] != t[k] ensures cs[t[j]].code != cs[t[k]].code {
        assert t[j] == ids[j + 1] && t[k] == ids[k + 1];
      }
    }
  }

  /** The head of a code-sorted list has the least code of any id in it. */
  lemma HeadLeast(cs: seq<Course>, ids: seq<CourseId>, x: CourseId)
    requires ids != [] && AllIn(cs, ids) && SortedByCode(cs, ids) && x in ids
    ensures CodeLeq(cs[ids[0]].code, cs[x].code)
  {
    var i :| 0 <= i < |ids| && ids[i] == x;
    if i == 0 {
      CodeLeqTotal(cs[x].code, cs[x].code);
    }
  }

  /** Removing the same head from two lists with equal multisets leaves equal multisets. */
  lemma MultisetTail(a: seq<CourseId>, b: seq<CourseId>)
    requires a != [] && b != [] && a[0] == b[0] && multiset(a) == multiset(b)
    ensures multiset(a[1..]) == multiset(b[1..])
  {
    assert a == [a[0]] + a[1..] && b == [b[0]] + b[1..];
    assert multiset(a) == multiset{a[0]} + multiset(a[1..]);
    assert multiset(b) == multiset{b[0]} + multiset(b[1..]);
    forall x ensures multiset(a[1..])[x] == multiset(b[1..])[x] {
      assert multiset(a)[x] == multiset(b)[x];
    }
  }

  /** Two code-sorted orders of the same ids coincide when no two of the
      courses share a code. */
  /** Two code-sorted permutations of the same ids with distinct codes
      start with the same id. */
  lemma SortedHeadsEqual(cs: seq<Course>, a: seq<CourseId>, b: seq<CourseId>)
    requires AllIn(cs, a) && SortedByCode(cs, a) && CodesDistinct(cs, a)
    requires AllIn(cs, b) && SortedByCode(cs, b)
    requires multiset(a) == multiset(b) && a != []
    ensures b != [] && a[0] == b[0]
  {
    assert a[0] in multiset(b);
    assert b != [] && b[0] in multiset(a);
    HeadLeast(cs, b, a[0]);
    HeadLeast(cs, a, b[0]);
    CodeLeqAntisymmetric(cs[a[0]].code, cs[b[0]].code);
  }

  lemma {:induction false} SortedUnique(cs: seq<Course>, a: seq<CourseId>, b: seq<CourseId>)
    requires AllIn(cs, a) && SortedByCode(cs, a) && CodesDistinct(cs, a)
    requires AllIn(cs, b) && SortedByCode(cs, b)
    requires multiset(a) == multiset(b)
    ensures a == b
    decreases |a|
  {
    assert |a| == |multiset(a)| == |multiset(b)| == |b|;
    if a != [] {
      SortedHeadsEqual(cs, a, b);
      MultisetTail(a, b);
      SortedTail(cs, a);
      SortedTail(cs, b);
      SortedUnique(cs, a[1..], b[1..]);
      assert a == [a[0]] + a[1..] && b == [b[0]] + b[1..];
    }
  }

  /** `.sort({ code: 1 })` leaves the order of equal codes to the database;
      when the courses the filter selects all have different codes, every
      order the database may return is the catalogue, so every page request
      sees the same order and the pages tile it. */
  lemma SortOrderDetermined(cs: seq<Course>, f: CourseFilter, other: seq<CourseId>)
    requires AllIn(cs, other) && SortedByCode(cs, other)
    requires multiset(other) == multiset(Selected(cs, f, |cs|))
    requires forall i, j :: 0 <= i < |cs| && 0 <= j < |cs| && i != j && Selects(f, cs[i]) && Selects(f, cs[j]) ==>
      cs[i].code != cs[j].code
    ensures other == Catalogue(cs, f)
  {
    var all := Catalogue(cs, f);
    CatalogueMembers(cs, f);
    assert CodesDistinct(cs, all) by {
      forall j, k | 0 <= j < |all| && 0 <= k < |all| && all[j] != all[k]
        ensures cs[all[j]].code != cs[all[k]].code
      {
        assert all[j] in all && all[k] in all;
      }
    }
    SortedUnique(cs, all, other);
  }

  /** Pages 1 .. totalPages are never empty and every later page is. */
  lemma PagesInRange(cs: seq<Course>, q: CourseQuery)
    requires q.page >= 1 && q.limit >= 1
    ensures GetAllCourses(cs, q).Listing? <==> q.page <= CeilDiv(Total(cs, q.filter), q.limit)
  {
    CatalogueMembers(cs, q.filter);
    SkipBeforeEnd(Total(cs, q.filter), q.page, q.limit);
  }

  lemma SkipBeforeEnd(total: nat, page: int, limit: int)
    requires page >= 1 && limit >= 1
    ensures (page - 1) * limit < total <==> page <= CeilDiv(total, limit)
  {
    var pages := CeilDiv(total, limit);
    if page <= pages {
      MultiplyMonotone(page - 1, pages - 1, limit);
    } else {
      MultiplyMonotone(pages, page - 1, limit);
    }
  }

  lemma MultiplyMonotone(a: int, b: int, m: nat)
    requires 0 <= a <= b
    ensures a * m <= b * m
  {
  }

  // ---------------------------------------------------------------------
  // createCourses

  /** The body of POST /course; an empty string is a missing field. */
  datatype CourseRequest = CourseRequest(
    title: string, code: string, unit: string, departmentName: string, semester: string)

  /** Course.findOne({ title }). */
  function FindCourseByTitle(cs: seq<Course>, title: string): (r: Option<CourseId>)
    ensures r.Some? ==> r.value < |cs| && cs[r.value].title == title
    ensures r.None? <==> forall i :: 0 <= i < |cs| ==> cs[i].title != title
  {
    Query.FindOne(cs, (c: Course) => c.title == title)
  }

  predicate AnyFieldMissing(req: CourseRequest)
  {
    req.title == "" || req.code == "" || req.unit == "" || req.departmentName == "" || req.semester == ""
  }

  /** createCourses up to the insert: the new course, or the error answered. */
  function CreateCourseOutcome(cs: seq<Course>, ds: seq<Department>, req: CourseRequest)
    : Result<Course, Failure>
  {
    if AnyFieldMissing(req) then Err(BadRequest("All fields are required"))
    else if FindCourseByTitle(cs, req.title).Some? then Err(Conflict("Course already exist "))
    else match FindDepartmentByName(ds, req.departmentName)
      case None => Err(NotFound("department Not Found! "))
      case Some(d) =>
        match (ParseInt(req.unit), ParseSemester(req.semester))
        case (Some(unit), Some(semester)) =>
          var c := NewCourse(req.title, req.code, unit, d, semester);
          if ValidCourse(c) then Ok(c) else Err(ServerError("Server error"))
        case _ => Err(ServerError("Server error"))
  }

  /** The checks run in order (missing field, existing title, unknown
      department) and the first that fails decides the answer. */
  lemma CreateCourseChecks(cs: seq<Course>, ds: seq<Department>, req: CourseRequest)
    ensures var r := CreateCourseOutcome(cs, ds, req);
      var titleTaken := exists i :: 0 <= i < |cs| && cs[i].title == req.title;
      var deptKnown := exists i :: 0 <= i < |ds| && ds[i].name == req.departmentName;
      && (AnyFieldMissing(req) ==> r == Err(BadRequest("All fields are required")))
      && (!AnyFieldMissing(req) && titleTaken ==> r == Err(Conflict("Course already exist ")))
      && (!AnyFieldMissing(req) && !titleTaken && !deptKnown ==> r == Err(NotFound("department Not Found! ")))
  {
  }

  /** Past the checks the schema decides: a course is created exactly when
      the unit parses into 1..6 and the semester is one of the enum's names,
      and it carries the found department's id, the parsed unit and the
      upper-cased code, active and with no students. */
  lemma CreatedCourseShape(cs: seq<Course>, ds: seq<Department>, req: CourseRequest)
    ensures var r := CreateCourseOutcome(cs, ds, req);
      r.Ok? <==>
        && !AnyFieldMissing(req)
        && (forall i :: 0 <= i < |cs| ==> cs[i].title != req.title)
        && FindDepartmentByName(ds, req.departmentName).Some?
        && ParseInt(req.unit).Some? && 1 <= ParseInt(req.unit).value <= 6
        && ParseSemester(req.semester).Some?
    ensures var r := CreateCourseOutcome(cs, ds, req);
      r.Ok? ==>
        && r.value.title == req.title && r.value.code == Upper(req.code)
        && r.value.unit == ParseInt(req.unit).value
        && r.value.department == FindDepartmentByName(ds, req.departmentName)
        && SemesterName(r.value.semester) == req.semester
        && r.value.isActive && r.value.enrolledStudents == [] && ValidCourse(r.value)
  {
    var d := FindDepartmentByName(ds, req.departmentName);
    var unit := ParseInt(req.unit);
    var semester := ParseSemester(req.semester);
    if !AnyFieldMissing(req) && FindCourseByTitle(cs, req.title).None? && d.Some? && unit.Some? && semester.Some? {
      NewCourseValid(req.title, req.code, unit.value, d.value, semester.value);
    }
  }

  /** A course just created is listed by the unfiltered catalogue. */
  lemma CreatedCourseListed(cs: seq<Course>, ds: seq<Department>, req: CourseRequest, f: CourseFilter)
    requires CreateCourseOutcome(cs, ds, req).Ok?
    requires f.search == "" && f.lecturer == "" && f.department.None? && f.semester == ""
    ensures |cs| in Catalogue(cs + [CreateCourseOutcome(cs, ds, req).value], f)
  {
    CreatedCourseShape(cs, ds, req);
    var cs' := cs + [CreateCourseOutcome(cs, ds, req).value];
    CatalogueMembers(cs', f);
    assert Selects(f, cs'[|cs|]);
  }

  /** createCourses: insert the course the checks produced. */
  method CreateCourses(store: Store, req: CourseRequest) returns (r: Result<CourseId, Failure>)
    requires store.Valid()
    modifies store
    ensures store.Valid()
    ensures store.faculties == old(store.faculties) && store.departments == old(store.departments)
    ensures store.users == old(store.users)
    ensures match CreateCourseOutcome(old(store.courses), old(store.departments), req)
      case Ok(c) => r == Ok(|old(store.courses)|) && store.courses == old(store.courses) + [c]
      case Err(e) => r == Err(e) && store.courses == old(store.courses)
  {
    var outcome := CreateCourseOutcome(store.courses, store.departments, req);
    match outcome
    case Err(e) =>
      r := Err(e);
    case Ok(c) =>
      CreatedCourseShape(store.courses, store.departments, req);
      AppendCourseConsistent(store.faculties, store.departments, store.users, store.courses, c);
      r := Ok(|store.courses|);
      store.courses := store.courses + [c];
  }

  lemma AppendCourseConsistent(
    fs: seq<Faculty>, ds: seq<Department>, us: seq<User>, cs: seq<Course>, c: Course)
    requires Consistent(fs, ds, us, cs)
    requires ValidCourse(c) && Within(c.department, |ds|) && c.enrolledStudents == []
    requires forall i :: 0 <= i < |cs| ==> cs[i].title != c.title
    ensures Consistent(fs, ds, us, cs + [c])
  {
    var cs' := cs + [c];
    forall s, k | 0 <= s < |us| && 0 <= k < |us[s].courses| ensures us[s].courses[k].courseId < |cs'| {
    }
    forall s, j | 0 <= s < |us| && 0 <= j < |cs'|
      ensures Enrolled(us[s], j) <==> s in cs'[j].enrolledStudents
    {
      if j == |cs| {
        assert !Enrolled(us[s], j);
      } else {
        assert cs'[j] == cs[j];
      }
    }
  }

  // ---------------------------------------------------------------------
  // deletecourse

  /** deletecourse: a soft delete that only clears `isActive`; an id that
      matches no course fails with 500. */
  method DeleteCourse(store: Store, id: CourseId) returns (r: Result<(), Failure>)
    requires store.Valid()
    modifies store
    ensures store.Valid()
    ensures store.faculties == old(store.faculties) && store.departments == old(store.departments)
    ensures store.users == old(store.users)
    ensures id < |old(store.courses)| ==>
      r == Ok(()) && store.courses == old(store.courses)[id := old(store.courses)[id].(isActive := false)]
    ensures id >= |old(store.courses)| ==>
      r == Err(ServerError(" unable to delete")) && store.courses == old(store.courses)
  {
    if id >= |store.courses| {
      return Err(ServerError(" unable to delete"));
    }
    var course := store.courses[id];
    course := course.(isActive := false);
    store.courses := store.courses[id := course];
    r := Ok(());
  }

  /** After the soft delete the course stays in the collection but no listing
      shows it, whatever the query, and every other course is selected
      exactly as before. */
  lemma DeletedCourseNotListed(cs: seq<Course>, id: CourseId, f: CourseFilter)
    requires id < |cs|
    ensures var cs' := cs[id := cs[id].(isActive := false)];
      && |cs'| == |cs|
      && id !in Catalogue(cs', f)
      && (forall j :: 0 <= j < |cs| && j != id ==> (j in Catalogue(cs', f) <==> j in Catalogue(cs, f)))
  {
    var cs' := cs[id := cs[id].(isActive := false)];
    CatalogueMembers(cs, f);
    CatalogueMembers(cs', f);
  }

  // ---------------------------------------------------------------------
  // enrollStudents

  /** Student.findOne({ regNo }): the first document with that regNo. */
  function FindUserByRegNo(users: seq<User>, regNo: string): (r: Option<UserId>)
    ensures r.Some? ==> r.value < |users| && users[r.value].regNo == Some(regNo)
    ensures r.Some? ==> forall i :: 0 <= i < r.value ==> users[i].regNo != Some(regNo)
    ensures r.None? <==> forall i :: 0 <= i < |users| ==> users[i].regNo != Some(regNo)
  {
    Query.FindOne(users, (u: User) => u.regNo == Some(regNo))
  }

  /** Course.findOne({ code }): Mongoose casts the query value through the
      schema's uppercase setter, so this is the first course whose code is
      the upper-cased request code. */
  function FindCourseByCode(cs: seq<Course>, code: string): (r: Option<CourseId>)
    ensures r.Some? ==> r.value < |cs| && cs[r.value].code == Upper(code)
    ensures r.Some? ==> forall i :: 0 <= i < r.value ==> cs[i].code != Upper(code)
    ensures r.None? <==> forall i :: 0 <= i < |cs| ==> cs[i].code != Upper(code)
  {
    Query.FindOne(cs, (c: Course) => c.code == Upper(code))
  }

  /** enrollStudents up to the writes: the (student, course) pair to link, or
      the error answered. */
  function EnrollOutcome(users: seq<User>, courses: seq<Course>, regNo: string, code: string)
    : Result<(UserId, CourseId), Failure>
  {
    match FindUserByRegNo(users, regNo)
    case None => Err(NotFound(" student not found"))
    case Some(s) =>
      match FindCourseByCode(courses, code)
      case None => Err(NotFound("coursecode not found "))
      case Some(c) =>
        if Enrolled(users[s], c) then Err(Conflict("Student already enrolled in this course"))
        else Ok((s, c))
  }

  /** The entry pushed onto student.courses. */
  function EntryFor(course: Course, c: CourseId): CourseEntry
  {
    CourseEntry(c, course.title, None)
  }

  /** A successful enrollment names the first user with the regNo and the
      first course whose code is the upper-cased request code, and happens
      exactly when both are found and the user has no entry for that course;
      each failure names the first lookup or check that failed. */
  lemma EnrollChecks(users: seq<User>, courses: seq<Course>, regNo: string, code: string)
    ensures var r := EnrollOutcome(users, courses, regNo, code);
      && ((forall i :: 0 <= i < |users| ==> users[i].regNo != Some(regNo)) <==> r == Err(NotFound(" student not found")))
      && (r.Ok? ==>
            && r.value.0 < |users| && users[r.value.0].regNo == Some(regNo)
            && (forall i :: 0 <= i < r.value.0 ==> users[i].regNo != Some(regNo))
            && r.value.1 < |courses| && courses[r.value.1].code == Upper(code)
            && (forall i :: 0 <= i < r.value.1 ==> courses[i].code != Upper(code))
            && !Enrolled(users[r.value.0], r.value.1))
      && ((exists i :: 0 <= i < |users| && users[i].regNo == Some(regNo)) &&
          (forall j :: 0 <= j < |courses| ==> courses[j].code != Upper(code))
          <==> r == Err(NotFound("coursecode not found ")))
      && (r == Err(Conflict("Student already enrolled in this course")) <==>
            FindUserByRegNo(users, regNo).Some? && FindCourseByCode(courses, code).Some? &&
            Enrolled(users[FindUserByRegNo(users, regNo).value], FindCourseByCode(courses, code).value))
      && (r.Ok? <==>
            FindUserByRegNo(users, regNo).Some? && FindCourseByCode(courses, code).Some? &&
            !Enrolled(users[FindUserByRegNo(users, regNo).value], FindCourseByCode(courses, code).value))
  {
  }

  /** The code of a request is matched up to case: two codes with the same
      upper-case form enroll the same way, and a course created from a code
      is found by that code in any case. */
  lemma {:induction false} EnrollIgnoresCase(
    users: seq<User>, courses: seq<Course>, regNo: string, code: string, other: string)
    requires Lower(code) == Lower(other)
    ensures EnrollOutcome(users, courses, regNo, code) == EnrollOutcome(users, courses, regNo, other)
    ensures forall c :: 0 <= c < |courses| && courses[c].code == Upper(other) ==>
      FindCourseByCode(courses, code).Some?
  {
    SameUpToCase(code, other);
  }

  /** Appending the pair to both sides keeps enrollment linked both ways, as
      long as the student was not enrolled in the course yet. */
  lemma EnrollKeepsLinked(users: seq<User>, courses: seq<Course>, s: UserId, c: CourseId)
    requires Linked(users, courses) && s < |users| && c < |courses|
    requires !Enrolled(users[s], c)
    ensures var student := users[s].(courses := users[s].courses + [EntryFor(courses[c], c)]);
      var course := courses[c].(enrolledStudents := courses[c].enrolledStudents + [s]);
      Linked(users[s := student], courses[c := course])
  {
    var student := users[s].(courses := users[s].courses + [EntryFor(courses[c], c)]);
    var course := courses[c].(enrolledStudents := courses[c].enrolledStudents + [s]);
    var us := users[s := student];
    var cs := courses[c := course];
    forall t, k | 0 <= t < |us| && 0 <= k < |us[t].courses| ensures us[t].courses[k].courseId < |cs| {
      if t == s && k == |users[s].courses| {
      } else if t == s {
        assert us[t].courses[k] == users[s].courses[k];
      }
    }
    forall j, k | 0 <= j < |cs| && 0 <= k < |cs[j].enrolledStudents| ensures cs[j].enrolledStudents[k] < |us| {
      if j == c && k < |courses[c].enrolledStudents| {
        assert cs[j].enrolledStudents[k] == courses[c].enrolledStudents[k];
      }
    }
    forall t, j | 0 <= t < |us| && 0 <= j < |cs| ensures Enrolled(us[t], j) <==> t in cs[j].enrolledStudents {
      if t == s {
        assert Enrolled(us[t], j) <==> Enrolled(users[s], j) || j == c by {
          if Enrolled(us[t], j) {
            var k :| 0 <= k < |us[t].courses| && us[t].courses[k].courseId == j;
            if k < |users[s].courses| {
              assert users[s].courses[k].courseId == j;
            }
          }
          if Enrolled(users[s], j) {
            var k :| 0 <= k < |users[s].courses| && users[s].courses[k].courseId == j;
            assert us[t].courses[k].courseId == j;
          }
          if j == c {
            assert us[t].courses[|users[s].courses|].courseId == j;
          }
        }
      }
      if j == c {
        assert t in cs[j].enrolledStudents <==> t in courses[c].enrolledStudents || t == s;
      }
    }
  }

  /** Enrolling the same pair again is refused with 409: the first
      enrollment's entry is found and nothing is appended twice. */
  lemma EnrollTwiceConflicts(users: seq<User>, courses: seq<Course>, regNo: string, code: string)
    requires EnrollOutcome(users, courses, regNo, code).Ok?
    ensures var (s, c) := EnrollOutcome(users, courses, regNo, code).value;
      var student := users[s].(courses := users[s].courses + [EntryFor(courses[c], c)]);
      var course := courses[c].(enrolledStudents := courses[c].enrolledStudents + [s]);
      EnrollOutcome(users[s := student], courses[c := course], regNo, code)
        == Err(Conflict("Student already enrolled in this course"))
  {
    var (s, c) := EnrollOutcome(users, courses, regNo, code).value;
    EnrollChecks(users, courses, regNo, code);
    var student := users[s].(courses := users[s].courses + [EntryFor(courses[c], c)]);
    var course := courses[c].(enrolledStudents := courses[c].enrolledStudents + [s]);
    var us := users[s := student];
    var cs := courses[c := course];
    assert forall i :: 0 <= i < |us| ==> us[i].regNo == users[i].regNo;
    assert forall i :: 0 <= i < |cs| ==> cs[i].code == courses[i].code;
    assert FindUserByRegNo(us, regNo) == Some(s);
    assert FindCourseByCode(cs, code) == Some(c);
    assert us[s].courses[|users[s].courses|].courseId == c;
  }

  /** student.courses.some((c) => c.courseId === course._id) */
  method AlreadyEnrolled(student: User, c: CourseId) returns (found: bool)
    ensures found == Enrolled(student, c)
  {
    found := false;
    var k := 0;
    while k < |student.courses|
      invariant 0 <= k <= |student.courses|
      invariant found <==> exists j :: 0 <= j < k && student.courses[j].courseId == c
    {
      if student.courses[k].courseId == c {
        found := true;
      }
      k := k + 1;
    }
  }

  /** enrollStudents: find the student by regNo and the course by code,
      refuse a second enrollment, then push onto both documents and save the
      student and then the course. A failure writes nothing. */
  method EnrollStudents(store: Store, regNo: string, code: string)
    returns (r: Result<(UserId, CourseId), Failure>)
    requires store.Valid()
    modifies store
    ensures store.Valid()
    ensures r == EnrollOutcome(old(store.users), old(store.courses), regNo, code)
    ensures store.faculties == old(store.faculties) && store.departments == old(store.departments)
    ensures r.Err? ==> store.users == old(store.users) && store.courses == old(store.courses)
    ensures r.Ok? ==>
      var (s, c) := r.value;
      && store.users == old(store.users)[s := old(store.users)[s].(courses :=
           old(store.users)[s].courses + [EntryFor(old(store.courses)[c], c)])]
      && store.courses == old(store.courses)[c := old(store.courses)[c].(enrolledStudents :=
           old(store.courses)[c].enrolledStudents + [s])]
  {
    var s := FindUserByRegNo(store.users, regNo);
    if s.None? {
      return Err(NotFound(" student not found"));
    }
    var c := FindCourseByCode(store.courses, code);
    if c.None? {
      return Err(NotFound("coursecode not found "));
    }
    var student := store.users[s.value];
    var course := store.courses[c.value];
    var enrolled := AlreadyEnrolled(student, c.value);
    if enrolled {
      return Err(Conflict("Student already enrolled in this course"));
    }
    course := course.(enrolledStudents := course.enrolledStudents + [s.value]);
    student := student.(courses := student.courses + [EntryFor(course, c.value)]);
    EnrollKeepsLinked(store.users, store.courses, s.value, c.value);
    EnrolledStaysConsistent(store.faculties, store.departments, store.users, store.courses, s.value, c.value);
    store.users := store.users[s.value := student];
    store.courses := store.courses[c.value := course];
    r := Ok((s.value, c.value));
  }

  lemma EnrolledStaysConsistent(
    fs: seq<Faculty>, ds: seq<Department>, us: seq<User>, cs: seq<Course>, s: UserId, c: CourseId)
    requires Consistent(fs, ds, us, cs) && s < |us| && c < |cs| && !Enrolled(us[s], c)
    ensures var student := us[s].(courses := us[s].courses + [EntryFor(cs[c], c)]);
      var course := cs[c].(enrolledStudents := cs[c].enrolledStudents + [s]);
      Consistent(fs, ds, us[s := student], cs[c := course])
  {
    EnrollKeepsLinked(us, cs, s, c);
  }
}
