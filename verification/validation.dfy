/** The request body of `POST /bookmarks`, its defaults and the ordered,
    short-circuiting validation the handler runs before it stores anything. */
module Validation {
  import opened Options
  import opened Bookmarks

  /** Longest description accepted, in JavaScript string length. */
  const MaxDescLength := 140
  /** Inclusive bounds of an accepted rating. */
  const MinRating := 0
  const MaxRating := 5
  /** Rating stored when the request leaves it out. */
  const DefaultRating := 3

  /** The JSON body of a create request; a field the client omits is `None`. */
  datatype CreateRequest = CreateRequest(
    title: Option<string>,
    link: Option<string>,
    desc: Option<string>,
    rating: Option<int>)

  /** The four reasons a create request is refused, one per check. */
  datatype ValidationError = LinkRequired | InvalidUrl | DescriptionTooLong | RatingOutOfRange

  /** The plain-text body sent back with the 400 status. */
  function Message(e: ValidationError): string {
    match e
    case LinkRequired => "Link required"
    case InvalidUrl => "Valid URL required"
    case DescriptionTooLong => "Description exceeds character limit"
    case RatingOutOfRange => "Rating must be between zero and five"
  }

  /** A string field is truthy in JavaScript when it is present and not empty. */
  predicate Truthy(field: Option<string>) {
    field.Some? && field.value != ""
  }

  /** The link as given, or the empty string when it was left out. */
  function LinkOf(req: CreateRequest): string {
    req.link.GetOr("")
  }

  /** The description after the destructuring default. */
  function DescOf(req: CreateRequest): string {
    req.desc.GetOr("")
  }

  /** The rating after the destructuring default. */
  function RatingOf(req: CreateRequest): int {
    req.rating.GetOr(DefaultRating)
  }

  /** The title stored with the record: the given title when it is truthy,
      and the link otherwise. */
  function BookTitle(req: CreateRequest): string {
    if Truthy(req.title) then req.title.value else LinkOf(req)
  }

  predicate DescWithinLimit(req: CreateRequest) {
    Utf16Length(DescOf(req)) <= MaxDescLength
  }

  predicate RatingInRange(req: CreateRequest) {
    MinRating <= RatingOf(req) <= MaxRating
  }

  /** One validation step: whether the request passes it, and the error it
      reports when it does not. */
  datatype Check = Check(passes: bool, error: ValidationError)

  /** The checks of the create handler, in the order it runs them. */
  function Checks(req: CreateRequest, urlShaped: string -> bool): (cs: seq<Check>)
    ensures |cs| == 4
  {
    [ Check(Truthy(req.link), LinkRequired),
      Check(urlShaped(LinkOf(req)), InvalidUrl),
      Check(DescWithinLimit(req), DescriptionTooLong),
      Check(RatingInRange(req), RatingOutOfRange) ]
  }

  /** Check `k` is the first one in `cs` that fails. */
  ghost predicate FailsFirstAt(cs: seq<Check>, k: int) {
    && 0 <= k < |cs|
    && !cs[k].passes
    && forall j :: 0 <= j < k ==> cs[j].passes
  }

  /** The outcome of validation. */
  datatype Verdict = Accept | Reject(error: ValidationError)

  /** Validation of a create request. The URL-shape test is the parameter
      `urlShaped`. The request is accepted exactly when every check passes,
      and a refusal reports the error of the first check that fails. */
  function Validate(req: CreateRequest, urlShaped: string -> bool): (v: Verdict)
    ensures v.Accept? <==> forall k :: 0 <= k < |Checks(req, urlShaped)| ==> Checks(req, urlShaped)[k].passes
    ensures v.Reject? ==> exists k :: FailsFirstAt(Checks(req, urlShaped), k) && Checks(req, urlShaped)[k].error == v.error
  {
    var cs := Checks(req, urlShaped);
    if !Truthy(req.link) then
      assert FailsFirstAt(cs, 0);
      Reject(LinkRequired)
    else if !urlShaped(req.link.value) then
      assert FailsFirstAt(cs, 1);
      Reject(InvalidUrl)
    else if !DescWithinLimit(req) then
      assert FailsFirstAt(cs, 2);
      Reject(DescriptionTooLong)
    else if !RatingInRange(req) then
      assert FailsFirstAt(cs, 3);
      Reject(RatingOutOfRange)
    else
      Accept
  }

  /** A stored record satisfies everything validation demanded of the request
      it came from. */
  ghost predicate Admissible(b: Bookmark, urlShaped: string -> bool) {
    && b.link != ""
    && urlShaped(b.link)
    && b.bookTitle != ""
    && Utf16Length(b.desc) <= MaxDescLength
    && MinRating <= b.rating <= MaxRating
  }

  /** A missing or empty link is refused with "Link required", whatever the
      other fields hold. */
  lemma MissingLinkWins(req: CreateRequest, urlShaped: string -> bool)
    requires !Truthy(req.link)
    ensures Validate(req, urlShaped) == Reject(LinkRequired)
    ensures Message(Validate(req, urlShaped).error) == "Link required"
  {
  }

  /** With a usable link, a description made of Basic Multilingual Plane
      characters is refused exactly when it is longer than 140 characters. */
  lemma {:induction false} DescriptionLimit(req: CreateRequest, urlShaped: string -> bool)
    requires Truthy(req.link) && urlShaped(req.link.value)
    requires InBmp(DescOf(req))
    ensures Validate(req, urlShaped) == Reject(DescriptionTooLong) <==> |DescOf(req)| > MaxDescLength
  {
    Utf16LengthIsCharCount(DescOf(req));
  }

  /** Omitted description and rating take values that pass their checks, so
      a request holding only a URL-shaped link is accepted. */
  lemma DefaultsPass(req: CreateRequest, urlShaped: string -> bool)
    requires req.desc.None? && req.rating.None?
    ensures DescOf(req) == "" && RatingOf(req) == DefaultRating
    ensures Truthy(req.link) && urlShaped(req.link.value) ==> Validate(req, urlShaped) == Accept
  {
  }

  /** The rating bounds are inclusive: 0 and 5 are accepted, -1 and 6 are
      refused, once the earlier checks have passed. */
  lemma RatingBoundaries(req: CreateRequest, urlShaped: string -> bool)
    requires Truthy(req.link) && urlShaped(req.link.value) && DescWithinLimit(req)
    ensures Validate(req.(rating := Some(0)), urlShaped) == Accept
    ensures Validate(req.(rating := Some(5)), urlShaped) == Accept
    ensures Validate(req.(rating := Some(-1)), urlShaped) == Reject(RatingOutOfRange)
    ensures Validate(req.(rating := Some(6)), urlShaped) == Reject(RatingOutOfRange)
  {
  }

  /** A 140-character description of Basic Multilingual Plane characters
      is not refused for length; one of 141 such characters is refused with
      the description error. */
  lemma DescriptionBoundary(req: CreateRequest, urlShaped: string -> bool, d140: string, d141: string)
    requires Truthy(req.link) && urlShaped(req.link.value)
    requires InBmp(d140) && |d140| == MaxDescLength
    requires InBmp(d141) && |d141| == MaxDescLength + 1
    ensures Validate(req.(desc := Some(d140)), urlShaped) != Reject(DescriptionTooLong)
    ensures Validate(req.(desc := Some(d141)), urlShaped) == Reject(DescriptionTooLong)
  {
    DescriptionLimit(req.(desc := Some(d140)), urlShaped);
    DescriptionLimit(req.(desc := Some(d141)), urlShaped);
  }
}
