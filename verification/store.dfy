/** The in-memory bookmark collection and the list, create, get-by-id and
    delete-by-id handlers, as pure functions from the current collection to a
    response and the next collection. */
module BookmarkStore {
  import opened Options
  import opened Bookmarks
  import opened Validation

  /** The collection, in insertion order. */
  type Store = seq<Bookmark>

  /** Body of the 404 sent by get-by-id. */
  const GetNotFoundMessage := "Bookmark Not Found"
  /** Body of the 404 sent by delete-by-id (lower-case "not", as sent). */
  const DeleteNotFoundMessage := "Bookmark not found"

  /** What a handler answers, by HTTP status. */
  datatype Response =
    | Created(record: Bookmark)          // 201, the new record as JSON
    | Found(record: Bookmark)            // 200, the record as JSON
    | Deleted                            // 204, empty body
    | BadRequest(error: ValidationError) // 400, Message(error) as text
    | NotFound(message: string)          // 404, the message as text

  /** A handler's response together with the collection it leaves behind. */
  datatype Outcome = Outcome(response: Response, store: Store)

  ghost predicate HasId(s: Store, id: string) {
    exists i :: 0 <= i < |s| && s[i].id == id
  }

  /** No two records share an id. */
  ghost predicate UniqueIds(s: Store) {
    forall i, j :: 0 <= i < j < |s| ==> s[i].id != s[j].id
  }

  /** Position `i` holds the first record with the given id. */
  ghost predicate IsFirstMatch(s: Store, id: string, i: int) {
    && 0 <= i < |s|
    && s[i].id == id
    && forall k :: 0 <= k < i ==> s[k].id != id
  }

  /** What the handlers keep true of the collection: ids are unique and every
      record passed validation. */
  ghost predicate Invariant(s: Store, urlShaped: string -> bool) {
    && UniqueIds(s)
    && forall i :: 0 <= i < |s| ==> Admissible(s[i], urlShaped)
  }

  /** The linear scan of `findIndex`: the position of the first record with
      the given id, or `None` when there is none. */
  function FindIndex(s: Store, id: string): (r: Option<nat>)
    ensures r.Some? ==> IsFirstMatch(s, id, r.value)
    ensures r.None? <==> !HasId(s, id)
  {
    if |s| == 0 then None
    else if s[0].id == id then Some(0)
    else
      match FindIndex(s[1..], id)
      case None =>
        assert forall k :: 1 <= k < |s| ==> s[k] == s[1..][k - 1];
        None
      case Some(i) =>
        assert s[i + 1] == s[1..][i];
        assert forall k :: 1 <= k < i + 1 ==> s[k] == s[1..][k - 1];
        Some(i + 1)
  }

  /** `GET /bookmarks`: the whole collection, in insertion order. */
  function List(s: Store): (l: seq<Bookmark>)
    ensures l == s
  {
    s
  }

  /** The record a valid request creates under the id `id`. */
  function NewBookmark(req: CreateRequest, id: string): Bookmark {
    Bookmark(id, BookTitle(req), LinkOf(req), DescOf(req), RatingOf(req))
  }

  /** `POST /bookmarks`. The id is the freshly generated one. A refused
      request leaves the collection as it was and reports the first failing
      check; an accepted one appends one defaulted, admissible record at the
      end and leaves every earlier record in place. */
  function Create(s: Store, req: CreateRequest, id: string, urlShaped: string -> bool): (o: Outcome)
    requires !HasId(s, id)
    ensures o.response.Created? || o.response.BadRequest?
    ensures o.response.BadRequest? <==> Validate(req, urlShaped).Reject?
    ensures o.response.BadRequest? ==> o.response.error == Validate(req, urlShaped).error && o.store == s
    ensures o.response.Created? ==>
      && |o.store| == |s| + 1
      && o.store[..|s|] == s
      && o.store[|s|] == o.response.record
      && o.response.record.id == id
      && o.response.record.link == req.link.value
      && o.response.record.bookTitle == (if Truthy(req.title) then req.title.value else req.link.value)
      && o.response.record.desc == req.desc.GetOr("")
      && o.response.record.rating == req.rating.GetOr(3)
      && Admissible(o.response.record, urlShaped)
  {
    match Validate(req, urlShaped)
    case Reject(e) => Outcome(BadRequest(e), s)
    case Accept =>
      var b := NewBookmark(req, id);
      Outcome(Created(b), s + [b])
  }

  /** `GET /bookmarks/:id`: the first record carrying the id, or a 404 when
      none does. */
  function Get(s: Store, id: string): (r: Response)
    ensures r.Found? || r.NotFound?
    ensures r.Found? <==> HasId(s, id)
    ensures r.Found? ==> exists i :: IsFirstMatch(s, id, i) && r.record == s[i]
    ensures r.NotFound? ==> r.message == GetNotFoundMessage
  {
    match FindIndex(s, id)
    case Some(i) => Found(s[i])
    case None => NotFound(GetNotFoundMessage)
  }

  /** `DELETE /bookmarks/:id`: splices out exactly the first record carrying
      the id, keeping the others in order, or answers 404 and leaves the
      collection alone. */
  function Delete(s: Store, id: string): (o: Outcome)
    ensures o.response.Deleted? || o.response.NotFound?
    ensures o.response.Deleted? <==> HasId(s, id)
    ensures o.response.Deleted? ==> exists i :: IsFirstMatch(s, id, i) && o.store == s[..i] + s[i + 1..]
    ensures o.response.NotFound? ==> o.response.message == DeleteNotFoundMessage && o.store == s
  {
    match FindIndex(s, id)
    case Some(i) => Outcome(Deleted, s[..i] + s[i + 1..])
    case None => Outcome(NotFound(DeleteNotFoundMessage), s)
  }
}
