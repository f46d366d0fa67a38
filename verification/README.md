# Bookmark service — Dafny model

A model of the route handlers of the bookmarks server
(`src/bookmarks/bookmark-router.js`): an in-memory, ordered collection of
bookmark records with a list handler, a create handler that validates the
JSON body in a fixed order and fills in defaults, and get-by-id and
delete-by-id handlers that scan for the first record with the requested id.

The collection is an immutable `seq<Bookmark>` passed explicitly. The list
handler returns the collection itself. Every other handler is a pure
function returning a `Response` (by HTTP status: 201 `Created`, 200
`Found`, 204 `Deleted`, 400 `BadRequest`, 404 `NotFound`) and, where it may
change the collection, the collection it leaves behind.

Files and modules:

- `options.dfy` — `Options`: the `Option` type used for fields a request may omit.
- `bookmark.dfy` — `Bookmarks`: the record and `Utf16Length`, the length a
  JavaScript string reports (UTF-16 code units) for a well-formed string, in which the 140-character
  description limit is measured.
- `validation.dfy` — `Validation`: the create request, its defaults, the four
  checks in source order, `Validate`, and boundary lemmas.
- `store.dfy` — `BookmarkStore`: `FindIndex` (the `find`/`findIndex` scan),
  `List`, `Create`, `Get`, `Delete`, and the collection invariant.
- `store_properties.dfy` — `StoreProperties`: lemmas relating the handlers.

Modelling choices:

- The URL regular expression of line 40 is the parameter
  `urlShaped: string -> bool` of `Validate` and `Create`. Every property
  holds for any URL test.
- The id that `uuid()` would generate is a parameter of `Create`. Its
  precondition `!HasId(s, id)` stands for the generator's freshness.
- `link`, `title` and `desc` are `Option<string>`. A field counts as
  truthy when it is present and non-empty, which is JavaScript's rule for
  strings.
- `rating` is an already-parsed `Option<int>`. When it is omitted, the
  stored value is 3.
- Ids are compared with plain string equality.

Details of the handlers the model keeps:

- The stored title field is `bookTitle`.
- The title falls back to the link when it is absent and also when it is
  the empty string (`title ? title : link`).
- The two 404 bodies differ in capitalisation: "Bookmark Not Found" for get
  and "Bookmark not found" for delete.

## Model

| member | source | states |
|---|---|---|
| `Bookmarks.Utf16Length` | src/bookmarks/bookmark-router.js:44 | the JavaScript length of a description lies between its character count and twice that, and is zero only for the empty string |
| `Bookmarks.Utf16LengthIsCharCount` | src/bookmarks/bookmark-router.js:44 | the JavaScript length equals the character count exactly when no character lies outside the Basic Multilingual Plane (both directions) |
| `Validation.Validate` | src/bookmarks/bookmark-router.js:36-50 | a request is accepted iff all four checks (link present, URL shape, description length, rating range) pass; a refusal names the error of the first failing check in that order, with every earlier check passing |
| `Validation.MissingLinkWins` | src/bookmarks/bookmark-router.js:36-38 | a missing or empty link is refused with "Link required" whatever the other fields hold |
| `Validation.DescriptionLimit` | src/bookmarks/bookmark-router.js:44-46 | once the link checks pass, a description of BMP characters is refused with the description error exactly when it is longer than 140 |
| `Validation.DescriptionBoundary` | src/bookmarks/bookmark-router.js:44-46 | a description of exactly 140 Basic Multilingual Plane characters is not refused for length; one of 141 such characters is refused with the description error |
| `Validation.RatingBoundaries` | src/bookmarks/bookmark-router.js:48-50 | ratings 0 and 5 are accepted, -1 and 6 are refused with the rating error, once the earlier checks pass |
| `Validation.DefaultsPass` | src/bookmarks/bookmark-router.js:31 | omitted desc and rating default to "" and 3, which pass their checks, so a URL-shaped link alone is accepted |
| `BookmarkStore.FindIndex` | src/bookmarks/bookmark-router.js:88 | the result is the first position holding the id, and there is no result exactly when no record holds the id |
| `BookmarkStore.Create` | src/bookmarks/bookmark-router.js:31-64 | a refused request leaves the collection unchanged and reports the validation error; an accepted one appends exactly one admissible record at the end, with the given id, the title-or-link title and the defaulted desc and rating, and keeps every earlier record |
| `BookmarkStore.Get` | src/bookmarks/bookmark-router.js:74-83 | answers with the first record whose id matches, found iff some record has the id, else a 404 with "Bookmark Not Found" |
| `BookmarkStore.Delete` | src/bookmarks/bookmark-router.js:85-99 | with a matching id, answers 204 and splices out exactly the first match; otherwise answers 404 "Bookmark not found" and leaves the collection unchanged |
| `BookmarkStore.List` | src/bookmarks/bookmark-router.js:27-29 | the list handler answers with the whole collection, unchanged and in insertion order |
| `StoreProperties.CreatedIdIsListed` | src/bookmarks/bookmark-router.js:27-64 | after a successful create, the list handler's result contains the new id |
| `StoreProperties.CreateThenGet` | src/bookmarks/bookmark-router.js:55-83 | getting a freshly created id answers with exactly the created record |
| `StoreProperties.CreateThenDelete` | src/bookmarks/bookmark-router.js:55-95 | deleting a freshly created id answers 204 and restores the collection as it was before the create |
| `StoreProperties.RefusedCreateIsIdempotent` | src/bookmarks/bookmark-router.js:36-50 | repeating a refused create gives the same answer and the same, unchanged collection |
| `StoreProperties.DeleteRemovesTheRecordGetFinds` | src/bookmarks/bookmark-router.js:76-95 | a successful delete shortens the collection by one and removes one occurrence of exactly the record get answers with (as multisets) |
| `StoreProperties.DeleteKeepsOrder` | src/bookmarks/bookmark-router.js:88-95 | after a delete, records before the removed one keep their positions and the later ones move down by one |
| `StoreProperties.DeleteThenGet` | src/bookmarks/bookmark-router.js:76-95 | with unique ids, a get after a successful delete of that id answers 404 |
| `StoreProperties.FailedDeleteIsIdempotent` | src/bookmarks/bookmark-router.js:88-93 | deleting an absent id answers 404 with the collection unchanged, and repeating it answers the same |
| `StoreProperties.CreatePreservesInvariant` | src/bookmarks/bookmark-router.js:36-64 | with a fresh id, create keeps ids unique and every stored record admissible |
| `StoreProperties.CreateKeepsIdsUnique` | src/bookmarks/bookmark-router.js:55-64 | with a fresh id, create keeps ids unique on any collection, whatever the stored records hold |
| `StoreProperties.DeleteKeepsIdsUnique` | src/bookmarks/bookmark-router.js:88-95 | delete keeps ids unique on any collection |
| `StoreProperties.DeletePreservesInvariant` | src/bookmarks/bookmark-router.js:88-95 | delete keeps ids unique and every stored record admissible |
| `StoreProperties.LinkOnlyRequest` | src/bookmarks/bookmark-router.js:31-64 | in any collection and under a fresh id, a body holding only a non-empty URL-shaped link appends the record titled by that link, with desc "" and rating 3, at the end |
| `StoreProperties.NonUrlLinkRefused` | src/bookmarks/bookmark-router.js:40-42 | any request whose link is present but fails the URL test is refused with "Valid URL required", whatever its other fields hold, and the collection is unchanged |

## Left out

- Express routing, body parsing, HTTP status codes as numbers, the `Location` header of a created record, and JSON serialisation. Each is framework glue; responses are the `Response` datatype.
- The Winston logger, its console transport switched by `NODE_ENV`, and the `logger.info`/`logger.error` calls. These are output side effects only.
- `uuid()` generation. It is a random source; the id is a parameter of `Create` with a freshness precondition.
- Validation.Validate: the URL regular expression is not modelled. JavaScript regex semantics are out of scope, so the URL test is the parameter `urlShaped`.
- Validation.RatingInRange: `Number(rating)` coercion is not modelled: non-numeric strings (NaN passes both comparisons), fractional numbers, `null` and booleans. The rating is an integer.
- BookmarkStore.Create: the create handler stores the string "3" as the default rating; the model stores the integer 3. The handler stores a given rating unnormalised (string or number); the model keeps only its numeric value.
- Non-string values of `link`, `title` and `desc` (numbers, `null`, objects), whose truthiness and `.length` follow other JavaScript rules, are not modelled.
- BookmarkStore.Get and BookmarkStore.Delete: loose `==` id comparison is modelled as string equality. The ids the create handler generates are uuid strings, and route parameters are strings; ids seeded into the store from elsewhere are not in view, and for a non-string seeded id loose `==` can match a different string (the number 1 matches "01").
- The shared module-level store and its initial contents. The collection is passed in and returned explicitly. Interleaving of concurrent requests is not modelled, since each handler runs to completion.
- Bookmarks.Utf16Length: a string holding an unpaired surrogate (which a JSON body can carry and which JavaScript counts as one code unit) is not representable, because a Dafny character is a Unicode scalar value; descriptions, links and titles are well-formed strings.
