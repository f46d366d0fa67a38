/** How the handlers relate to one another over the same collection:
    create then get, create then delete, get and delete agreeing on the
    record, and the collection invariant every handler keeps. */
module StoreProperties {
  import opened Options
  import opened Bookmarks
  import opened Validation
  import opened BookmarkStore

  /** A created record's id appears in what a following list returns. */
  lemma CreatedIdIsListed(s: Store, req: CreateRequest, id: string, urlShaped: string -> bool)
    requires !HasId(s, id)
    requires Create(s, req, id, urlShaped).response.Created?
    ensures HasId(List(Create(s, req, id, urlShaped).store), id)
  {
  }

  /** Getting the id just created answers with exactly the created record. */
  lemma CreateThenGet(s: Store, req: CreateRequest, id: string, urlShaped: string -> bool)
    requires !HasId(s, id)
    requires Create(s, req, id, urlShaped).response.Created?
    ensures Get(Create(s, req, id, urlShaped).store, id) == Found(Create(s, req, id, urlShaped).response.record)
  {
  }

  /** Deleting the id just created answers 204 and gives back the collection
      as it was before the create. */
  lemma CreateThenDelete(s: Store, req: CreateRequest, id: string, urlShaped: string -> bool)
    requires !HasId(s, id)
    requires Create(s, req, id, urlShaped).response.Created?
    ensures Delete(Create(s, req, id, urlShaped).store, id) == Outcome(Deleted, s)
  {
  }

  /** A refused create changes nothing, so it can be repeated with the same
      answer and the same collection. */
  lemma RefusedCreateIsIdempotent(s: Store, req: CreateRequest, id: string, urlShaped: string -> bool)
    requires !HasId(s, id)
    requires Create(s, req, id, urlShaped).response.BadRequest?
    ensures Create(Create(s, req, id, urlShaped).store, req, id, urlShaped) == Create(s, req, id, urlShaped)
  {
  }

  /** At most one position is the first match of an id. */
  lemma FirstMatchIsUnique(s: Store, id: string, i: int, j: int)
    requires IsFirstMatch(s, id, i) && IsFirstMatch(s, id, j)
    ensures i == j
  {
  }

  /** Splicing out position `i` removes one occurrence of `s[i]`. */
  lemma SpliceMultiset(s: Store, i: int)
    requires 0 <= i < |s|
    ensures multiset(s[..i] + s[i + 1..]) + multiset{s[i]} == multiset(s)
  {
    assert s == s[..i] + [s[i]] + s[i + 1..];
  }

  /** A successful delete removes one occurrence of exactly the record that
      get would have answered with, and nothing else. */
  lemma {:induction false} DeleteRemovesTheRecordGetFinds(s: Store, id: string)
    requires HasId(s, id)
    ensures |Delete(s, id).store| == |s| - 1
    ensures multiset(Delete(s, id).store) + multiset{Get(s, id).record} == multiset(s)
  {
    assert Delete(s, id).response.Deleted?;
    var i :| IsFirstMatch(s, id, i) && Delete(s, id).store == s[..i] + s[i + 1..];
    var j :| IsFirstMatch(s, id, j) && Get(s, id).record == s[j];
    FirstMatchIsUnique(s, id, i, j);
    SpliceMultiset(s, i);
  }

  /** A successful delete keeps the records before the removed one at their
      positions and shifts the records after it down by one. */
  lemma DeleteKeepsOrder(s: Store, id: string)
    requires HasId(s, id)
    ensures exists i :: 
      && IsFirstMatch(s, id, i)
      && (forall k :: 0 <= k < i ==> Delete(s, id).store[k] == s[k])
      && (forall k :: i <= k < |s| - 1 ==> Delete(s, id).store[k] == s[k + 1])
  {
    assert Delete(s, id).response.Deleted?;
    var i :| IsFirstMatch(s, id, i) && Delete(s, id).store == s[..i] + s[i + 1..];
  }

  /** With unique ids, a get after a successful delete of the same id
      answers 404. */
  lemma DeleteThenGet(s: Store, id: string)
    requires UniqueIds(s) && HasId(s, id)
    ensures Get(Delete(s, id).store, id) == NotFound(GetNotFoundMessage)
  {
  }

  /** A delete of an id that is not stored answers 404 and changes nothing,
      so repeating it answers the same again. */
  lemma FailedDeleteIsIdempotent(s: Store, id: string)
    requires !HasId(s, id)
    ensures Delete(s, id) == Outcome(NotFound(DeleteNotFoundMessage), s)
    ensures Delete(Delete(s, id).store, id) == Delete(s, id)
  {
  }

  /** Create keeps the collection invariant when the generated id is fresh. */
  lemma CreatePreservesInvariant(s: Store, req: CreateRequest, id: string, urlShaped: string -> bool)
    requires Invariant(s, urlShaped) && !HasId(s, id)
    ensures Invariant(Create(s, req, id, urlShaped).store, urlShaped)
  {
  }

  /** Create keeps ids unique when the generated id is fresh, whatever the
      records already in the collection hold. */
  lemma CreateKeepsIdsUnique(s: Store, req: CreateRequest, id: string, urlShaped: string -> bool)
    requires UniqueIds(s) && !HasId(s, id)
    ensures UniqueIds(Create(s, req, id, urlShaped).store)
  {
  }

  /** Delete keeps ids unique on any collection. */
  lemma DeleteKeepsIdsUnique(s: Store, id: string)
    requires UniqueIds(s)
    ensures UniqueIds(Delete(s, id).store)
  {
  }

  /** Delete keeps the collection invariant. */
  lemma DeletePreservesInvariant(s: Store, id: string, urlShaped: string -> bool)
    requires Invariant(s, urlShaped)
    ensures Invariant(Delete(s, id).store, urlShaped)
  {
  }

  /** A body holding only a non-empty, URL-shaped link creates, in any
      collection and under a fresh id, the record titled by its link with an
      empty description and rating 3, appended at the end. */
  lemma LinkOnlyRequest(s: Store, link: string, id: string, urlShaped: string -> bool)
    requires !HasId(s, id) && link != "" && urlShaped(link)
    ensures
      var b := Bookmark(id, link, link, "", DefaultRating);
      Create(s, CreateRequest(None, Some(link), None, None), id, urlShaped) == Outcome(Created(b), s + [b])
  {
  }

  /** A present link that fails the URL test is refused with "Valid URL
      required", whatever the other fields hold, and the collection is left
      unchanged. */
  lemma NonUrlLinkRefused(s: Store, req: CreateRequest, id: string, urlShaped: string -> bool)
    requires !HasId(s, id) && Truthy(req.link) && !urlShaped(req.link.value)
    ensures
      var o := Create(s, req, id, urlShaped);
      o == Outcome(BadRequest(InvalidUrl), s) && Message(o.response.error) == "Valid URL required"
  {
  }
}
