/** Outcomes of the controllers: a value, or the error the handler reports. */
module Outcomes {

  datatype Option<+T> = None | Some(value: T)

  datatype Result<+T, +E> = Ok(value: T) | Err(error: E)

  /** What a request handler answers instead of a success. The HTTP status the
      handler sends is written next to each kind. */
  datatype Failure =
    | BadRequest(message: string)     // 400
    | Unauthorized(message: string)   // 401
    | NotFound(message: string)       // 404
    | Conflict(message: string)       // 409
    | ServerError(message: string)    // 500
      /** The handler never answers: it returns without writing a response, or
          an exception escapes an async handler that has no try/catch (Express 4
          does not pass a rejected handler promise to its error middleware). */
    | NoResponse(reason: string)
}

/** Document identities. Every collection is a sequence and a document's id is
    its position in it; an insert appends, so a new id is never in use. */
module Ids {
  type FacultyId = nat
  type DepartmentId = nat
  type UserId = nat
  type CourseId = nat
}

/** The two generic Mongoose queries the core uses, over a collection
    snapshot in natural (insertion) order: findOne and countDocuments. */
module Query {
  import opened Outcomes

  /** findOne: the position of the first document that satisfies the filter. */
  function FindOne<T>(xs: seq<T>, p: T -> bool): (r: Option<nat>)
    ensures r.Some? ==> r.value < |xs| && p(xs[r.value])
    ensures r.Some? ==> forall j :: 0 <= j < r.value ==> !p(xs[j])
    ensures r.None? <==> forall j :: 0 <= j < |xs| ==> !p(xs[j])
  {
    if |xs| == 0 then None
    else if p(xs[0]) then Some(0)
    else match FindOne(xs[1..], p)
      case None => None
      case Some(k) => Some(k + 1)
  }

  /** countDocuments: how many documents satisfy the filter. */
  function Count<T>(xs: seq<T>, p: T -> bool): (n: nat)
    ensures n <= |xs|
    ensures n == 0 <==> forall j :: 0 <= j < |xs| ==> !p(xs[j])
  {
    if |xs| == 0 then 0
    else Count(xs[..|xs| - 1], p) + (if p(xs[|xs| - 1]) then 1 else 0)
  }

  lemma {:induction false} CountAppend<T>(xs: seq<T>, x: T, p: T -> bool)
    ensures Count(xs + [x], p) == Count(xs, p) + (if p(x) then 1 else 0)
  {
    assert (xs + [x])[..|xs + [x]| - 1] == xs;
  }

  /** When exactly one document matches, the count is one. */
  lemma {:induction false} CountOne<T>(xs: seq<T>, p: T -> bool, h: nat)
    requires h < |xs| && p(xs[h])
    requires forall j :: 0 <= j < |xs| && j != h ==> !p(xs[j])
    ensures Count(xs, p) == 1
  {
    var init := xs[..|xs| - 1];
    assert forall j :: 0 <= j < |init| ==> init[j] == xs[j];
    if h < |xs| - 1 {
      CountOne(init, p, h);
    }
  }
}
