/**
 * Shared vocabulary of the two routers: identifiers, optional values,
 * the HTTP error outcomes a handler can end in, and the "first row that
 * matches" lookup that every `select(...).where(...).first()` query performs.
 */
module Common {

  /** Primary keys. The backend uses UUIDs; the model only compares them. */
  type Uuid = nat

  datatype Option<+T> = None | Some(value: T)

  /**
   * The error outcomes of a request: 404, 401, 409, and `Internal` for an
   * exception the handler does not catch (the framework answers it with a
   * 500).
   */
  datatype Status = NotFound | Unauthorized | Conflict | Internal

  /** What a handler returns: a value, or the error it raises. */
  datatype Result<+T> = Ok(value: T) | Err(status: Status)

  /**
   * The index of the first element of `s` that satisfies `p`. It stands for
   * the `.first()` of a filtered query: the queries have no `order_by`, so
   * the database may return any matching row; the model picks the earliest
   * in storage order, which is the only matching row whenever the table
   * keeps the filtered columns unique.
   */
  function FirstIndex<T>(s: seq<T>, p: T -> bool): (r: Option<nat>)
    ensures r.None? <==> forall j :: 0 <= j < |s| ==> !p(s[j])
    ensures r.Some? ==> r.value < |s| && p(s[r.value])
    ensures r.Some? ==> forall j :: 0 <= j < r.value ==> !p(s[j])
  {
    if |s| == 0 then None
    else if p(s[0]) then Some(0)
    else match FirstIndex(s[1..], p)
      case None => None
      case Some(i) => Some(i + 1)
  }
}
