# Books API catalog — a Dafny model

The service keeps an in-memory catalog of books. The state is an ordered list of
books and a counter holding the next id. Five HTTP routes act on it:

- `POST /books` creates a book.
- `GET /books` lists books, with an optional author filter and paging.
- `GET /books/:id` fetches one book.
- `PUT /books/:id` updates one book.
- `DELETE /books/:id` removes one book.

This project models the catalog without the HTTP layer. Each handler is a pure
function from a catalog and the request's inputs to a `Result`. A failure is
`ValidationError` (HTTP 400) or `NotFound` (HTTP 404). A success carries the new
catalog and the output. `Service.Run` folds a sequence of requests over the
catalog, one request at a time.

Modules:

- `Text` (text.dfy): ASCII lower-casing and substring search. These are the string
  operations the author filter uses.
- `Slice` (slice.dfy): the index rules of ECMAScript's `Array.prototype.slice`. That
  means clamping to the length, and counting negative bounds back from the end.
  `Slice` also proves the page-window property.
- `Books` (books.dfy): the `Book`, `Catalog`, `Fields` and `Result` types. It also
  holds the catalog invariant `Valid`, the first-match id search `FindIndex`, the
  author filter `FilterByAuthor`, and the update field merge `Merge`.
- `Handlers` (handlers.dfy): the five operations and the lemmas about each one.
- `Service` (service.dfy): request dispatch, runs of several requests, and the
  properties of whole runs.

The catalog invariant `Books.Valid` says three things:

- every id is at least 1;
- ids strictly increase in catalog order, so no id appears twice;
- every id is below the counter.

Every operation preserves it. A request that fails leaves the catalog unchanged.

Request fields follow JavaScript truthiness. `Books.TruthyText` says a title,
author or filter is present and non-empty. `Books.TruthyYear` says a year is present
and non-zero. Create tests them at server.js:51, the list filter at server.js:90 and
update at server.js:163-165.

Points where the code's behaviour is easy to misread:

- `parseInt` (server.js:86-87) turns a non-numeric page or size into `NaN`. The slice
  then comes back empty. `res.json` writes `NaN` as `null`. The model takes page and
  size as integers, with None for an absent parameter, so `NaN` is left out. The
  defaults of 1 and 10 (server.js:85) apply only to absent parameters.
- Page ≤ 0 and negative sizes go straight to `slice` (server.js:95). `Slice.JsSlice`
  follows its index clamping, including bounds counted back from the end.
- `find` and `findIndex` (server.js:123, 159, 188) return the FIRST match. The model's
  lookups, updates and deletes act on the first book with the id, even when the
  invariant does not hold. Under the invariant that book is the only one
  (`Handlers.GetByIdUnique`).

## Model

| member | source | states |
|---|---|---|
| Text.Contains | server.js:91 | `includes`: true exactly when the needle occurs at some position of the text. The empty needle always occurs. |
| Text.LowerChar | server.js:91 | One character lower-cased, ASCII only: the 26 ASCII capitals map to their lower-case letter, 32 code points up, and every other character is unchanged. The result is never an ASCII capital. |
| Text.Lower | server.js:91 | `toLowerCase` on ASCII: the result has the same length as the input, and each character is that character lower-cased. |
| Slice.ClampIndex | server.js:95 | Resolving one slice bound: a bound inside [0, len] is kept, a larger one becomes len, a negative one counts back from the end, and one before the start becomes 0. |
| Slice.JsSlice | server.js:95 | `slice(start, end)` returns `max(resolved end − resolved start, 0)` elements. Each one is the element at the resolved start plus its offset. |
| Slice.PageWindow | server.js:94-95 | For page ≥ 1 and size ≥ 0, the window starts at `(page-1)*size` and is the run of elements of at most `size` from there. The end of the sequence cuts it short. It is empty when it starts past the end. |
| Books.InitialValid | server.js:10-11 | The start state, with no books and the counter at 1, satisfies the catalog invariant. |
| Books.FindIndex | server.js:188 | `findIndex` by id: None exactly when no book has the id. Otherwise the index holds the id and no earlier index does. |
| Books.FindIndexUnique | server.js:123 | Under the invariant, any position holding the id is the position the search returns. |
| Books.FilterByAuthor | server.js:89-92 | The filter keeps exactly the books whose lower-cased author contains the lower-cased filter. Each kept book appears as often as in the catalog, and the result is a subsequence of the catalog. |
| Books.SubsequenceKeepsOrder | server.js:91 | A subsequence of a catalog with increasing ids also has increasing ids, and it contains only books of that catalog. Filtering keeps catalog order. |
| Books.Merge | server.js:162-165 | Update merge: a truthy title, author or year overwrites that field. A falsy or absent field leaves the old value. The id never changes. |
| Books.MergeIdempotent | server.js:162-165 | Applying the same update body twice equals applying it once. |
| Handlers.Create | server.js:49-57 | Fails with ValidationError exactly when the title or the author is missing or empty. On success the new id is the counter value and the counter goes up by one. The book is appended after the unchanged earlier books, with the body's fields. |
| Handlers.CreatePreservesValid | server.js:54-55 | Create preserves the invariant. The new id is larger than every id already in the catalog. |
| Handlers.Selected | server.js:89-92 | With no filter, or an empty one, every book is kept. Otherwise exactly the matching books are kept, each as often as in the catalog, in catalog order. |
| Handlers.List | server.js:84-103 | Page and size default to 1 and 10. `total` is the length of the selected sequence, the number of matching books, and equals the catalog length when there is no filter. The data is no longer than `total` and holds only catalog books, each matching the filter. |
| Handlers.ListWindow | server.js:94-95 | For page ≥ 1 and size ≥ 0, the data is the contiguous slice of the selected books from `(page-1)*size`, at most `size` long, and empty past the end. |
| Handlers.ListDefaults | server.js:85-100 | With no query parameters, `total` is the catalog length and the data is the first min(N, 10) books. |
| Handlers.SliceKeepsOrder | server.js:95 | A slice of a sequence with increasing ids has increasing ids. |
| Handlers.ListKeepsOrder | server.js:89-95 | Under the invariant, a listed page's ids increase, so the page is in catalog order. |
| Handlers.GetById | server.js:122-126 | NotFound exactly when no book has the id. Otherwise the result is a catalog book with that id. |
| Handlers.GetByIdUnique | server.js:123-124 | Under the invariant, GetById returns the one book with that id. |
| Handlers.Update | server.js:158-168 | NotFound exactly when no book has the id. Otherwise the first book with that id becomes its merge with the body. Every other position, the length and the counter are unchanged. The merged book is returned. |
| Handlers.UpdatePreservesValid | server.js:159-165 | Update preserves the invariant and keeps every id in place. Only the book with that id can differ. Looking the id up afterwards returns the updated book. |
| Handlers.Delete | server.js:187-193 | NotFound exactly when no book has the id. Otherwise the first book with that id is cut out. The rest stay in order, the length drops by one and the counter is unchanged. The multiset of books loses exactly one book carrying that id. |
| Handlers.DeletePreservesValid | server.js:188-191 | Delete preserves the invariant. |
| Handlers.DeleteRemovesOnlyTarget | server.js:188-191 | Under the invariant, the books left after a delete are exactly the old books without that id. |
| Handlers.GetAfterDelete | server.js:188-191 | Under the invariant, looking a deleted id up afterwards gives NotFound. |
| Handlers.DeleteMultiset | server.js:191 | Cutting out one position removes exactly one copy of that book from the multiset of books. |
| Service.Handle | server.js:49-193 | Runs one request. It fails exactly when a create lacks a truthy title or author (ValidationError) or a get, update or delete names an id no book has (NotFound). A list never fails. A failure carries its error's message and leaves the catalog unchanged. Every other request answers with its own route's response, and a found book is a catalog book with the requested id. Both reads leave the catalog unchanged. Only a successful create moves the counter, by one, and the created book takes the old counter value as its id. A create appends the book with the body's title, author and year. A list answers with the page `Handlers.List` computes. An update replaces the first book with the id by its merge with the body and leaves every other position alone. A delete cuts that first book out and keeps the rest in order. |
| Service.HandlePreservesValid | server.js:10-11 | Every request keeps the invariant. |
| Service.Run | server.js:10-11 | A run gives one response per request, and the counter never decreases. |
| Service.RunPreservesValid | server.js:10-11 | Every catalog reached from a valid one, including the start state, satisfies the invariant. |
| Service.CreatedIdsFresh | server.js:54 | The ids created along any run strictly increase and lie between the counter before and after the run. Ids are never reused, even after a delete. |
| Service.DeleteThenGet | server.js:187-191 | Under the invariant, a delete followed by a lookup of the same id answers NotFound with "Book not found". |
| Service.DeleteLowersTotal | server.js:100 | A successful delete lowers the unfiltered `total` by exactly one. |
| Service.DuneScenario | server.js:49-56 | On a fresh service, creating "Dune" by "Herbert" gives book 1. Creating a book with no author then fails with a validation error. |
| Service.TolkienMatches | server.js:91 | The filter "tolkien" matches the author "J.R.R. Tolkien". |

## Left out

- HTTP routing, body parsing, JSON serialisation and status codes are left out (server.js:1-8). They appear only as the outcome names `ValidationError`/`NotFound` and the `Service.Response` variants. Messages are `Books.Message`.
- Swagger/OpenAPI document generation and the UI mount are left out (server.js:13-25). They are an external library.
- `app.listen` and console logging are left out (server.js:195-198). They are I/O.
- `parseInt` coercion of the path id and the query strings is left out, and so are `NaN` results. Ids, page and size are integers, and absent query parameters are None.
- Repeated query parameters are left out. Express turns them into arrays.
- Request bodies whose fields have non-string or non-number JSON types are left out. Titles and authors are `Option<string>` and the year is `Option<int>`. Truthiness means non-empty for strings and non-zero for numbers.
- Text.LowerChar, Text.Lower: cover only ASCII letters; a non-ASCII capital such as É stays unchanged, because full Unicode `toLowerCase` (server.js:91) depends on Unicode case tables.
- JavaScript numbers are IEEE doubles, so ids beyond 2^53 lose precision. The model's ids and counter are unbounded integers.
- The in-place mutation of the shared book object in update (server.js:163-165) is modelled as replacing one element of an immutable sequence.
- Concurrent interleaving of requests is left out. Requests run one at a time, as in `Service.Run`.
