# Bookshelf API: the book collection

A model of the request handlers of a small bookshelf HTTP service
(`src/handler.js`). The service keeps its books in one ordered, in-memory
array and exposes five operations on it:

- **add** validates the payload (name first, then pages), builds a record with
  a derived `finished` flag and both timestamps set to the current time,
  appends it, and answers 201 with the new id;
- **list** applies at most one filter, chosen by a fixed precedence (`name`,
  then `reading`, then `finished`), and answers the `{id, name, publisher}`
  summaries in store order;
- **get by id** answers the first book with the id, or 404;
- **edit** validates the payload before looking up the id, then overwrites the
  first matching record with a spread merge, or answers 404;
- **delete** splices out the first book with the id, or answers 404.

Files:

- `text.dfy` (module `Text`): ASCII lower-casing and substring search, the two
  string operations of the name filter.
- `books.dfy` (module `Books`): the book record, its summary, the filters the
  handlers pass to `Array.prototype.filter` (`Select`), `findIndex`
  (`IndexOf`) and `splice` (`RemoveAt`), with their order and membership
  lemmas.
- `handler.dfy` (module `Handler`): replies and payloads, validation, listing
  and lookup as functions over the collection, the `findIndex` scan as a loop,
  and the class `BookStore` whose methods `Add`, `Edit` and `Delete` change the
  collection in place. Its invariant `Valid()` says that ids are unique and
  that every stored book has a name and `readPage <= pageCount`.

Behaviour that is easy to misread, modelled as the code has it:

- Edit does not recompute `finished`: the merge starts from the stored record,
  so the old value stays (`EditKeepsStaleFinished` exhibits a book that reads
  as finished after being edited to 50 of 100 pages). Add derives `finished`
  from the page counts (src/handler.js:28); edit copies the stored value
  through the spread (src/handler.js:174-185) and never derives it again.
- Add refuses only `readPage > pageCount`, edit refuses `readPage >= pageCount`
  (`EditStricterThanAdd`). A book read to its last page can be added but never
  saved through edit.
- With several query parameters only the first recognised one filters; a
  `reading` or `finished` value other than "0" or "1" is ignored.
- Add checks after the push that a book with the new id exists and answers 500
  otherwise; the check always succeeds, so `Add` is proved to answer 201.

## Model

| member | source | states |
|---|---|---|
| Text.LowerIdempotent | src/handler.js:61 | lower-casing a lower-cased string changes nothing and leaves no upper-case ASCII letter |
| Text.ContainsIffOccurs | src/handler.js:61 | `includes` is true exactly when the needle occurs at some position; the empty needle occurs everywhere |
| Text.Lower | src/handler.js:61 | `toLowerCase` on ASCII letters; its properties are stated by `Text.LowerIdempotent` and used through `Handler.NameFilterMatches` |
| Text.Contains | src/handler.js:61 | `includes`, trying each start position from the left; `Text.ContainsIffOccurs` states that it is true exactly when the needle occurs |
| Books.Summaries | src/handler.js:65-69 | the `map` of each book to `{id, name, publisher}`, one summary per book in the same order; stated through `Handler.ListContents` and `Handler.ListWithoutFilter` |
| Books.Keep | src/handler.js:35-129 | the predicates passed to `filter` (id, name, `reading`, `finished`, none); `Books.Select` and `Books.SelectCounts` state that the filter keeps exactly the books passing it, each as often as stored, and `Handler.NameFilterMatches` and `Handler.StatusFilters` what each predicate accepts |
| Books.RemoveAt | src/handler.js:208 | `splice(k, 1)`; `Books.RemoveAtSpec` and `Books.RemoveAtShifts` state that exactly the book at `k` goes and where each other book ends up |
| Handler.NewBook | src/handler.js:25-31 | the record add builds, with `finished == (pageCount == readPage)` and both timestamps `now`; stated by the ensures of `Handler.BookStore.Add` |
| Handler.Merged | src/handler.js:174-185 | the stored record with the payload's fields and `updatedAt` spread over it; the ensures of `Handler.BookStore.Edit` state that `id`, `insertedAt` and `finished` keep their stored values |
| Handler.ActiveFilter | src/handler.js:60-110 | the first recognised query parameter picks the filter; stated by `Handler.NameFilterWins`, `Handler.ReadingFilterPrecedence` and `Handler.ListWithoutFilter` |
| Books.Select | src/handler.js:35-129 | `filter` (at lines 35, 61, 78, 96 and 129) returns no more books than it was given, and a book is in the result exactly when it is stored and passes the filter |
| Books.SelectCounts | src/handler.js:35-129 | each book passing the filter occurs in the result as often as in the collection, and every other book not at all, so duplicate records are neither merged nor dropped |
| Books.SelectIsSubsequence | src/handler.js:61-104 | filtering and then mapping to summaries keeps the books in store order |
| Books.SelectAppend | src/handler.js:33-35 | filtering the collection after a push filters the old collection and then the pushed book; `Handler.BookStore.Add` uses it to show that its check after the push always finds the new id |
| Books.SelectEverything | src/handler.js:112-121 | with no filter the listing covers the whole collection |
| Books.IndexOf | src/handler.js:171 | `findIndex` gives -1 exactly when no book has the id, and otherwise the first position holding it |
| Books.SelectByIdHead | src/handler.js:129 | the id filter is non-empty exactly when some book has the id, and its first element is the book at the first such position |
| Books.RemoveAtSpec | src/handler.js:208 | `splice(k, 1)` shortens the collection by one, removes exactly one copy of the book at `k`, and keeps the others in their order |
| Books.RemoveAtShifts | src/handler.js:208 | after `splice(k, 1)` the books before `k` stay at their positions and each book after `k` moves down by one |
| Books.RemoveUniqueGone | src/handler.js:205-208 | with unique ids, removing the book at a position leaves ids unique and no book with its id |
| Handler.CheckAdd | src/handler.js:10-23 | add accepts exactly a named payload with `readPage <= pageCount`; a missing name is reported before the pages |
| Handler.CheckEdit | src/handler.js:156-168 | edit accepts exactly a named payload with `readPage < pageCount`; a missing name is reported before the pages |
| Handler.EditStricterThanAdd | src/handler.js:163 | every payload edit accepts is accepted by add, and `readPage == pageCount` is accepted by add and refused by edit |
| Handler.EditKeepsStaleFinished | src/handler.js:174-185 | a book added with all pages read and then edited to fewer read pages is accepted and still has `finished` set |
| Handler.ListBooks | src/handler.js:58-124 | listing never fails, answers 200 and lists no more books than are stored |
| Handler.ListContents | src/handler.js:58-124 | a summary is listed exactly when a stored book passes the active filter and projects to it, and the listing is in store order |
| Handler.ListWithoutFilter | src/handler.js:112-123 | without a recognised parameter the listing is the summary of every book, in store order |
| Handler.NameFilterWins | src/handler.js:60-74 | when `name` is present, `reading` and `finished` have no effect |
| Handler.ReadingFilterPrecedence | src/handler.js:76-110 | without `name`, a recognised `reading` hides `finished`, and any other `reading` value is as if absent |
| Handler.StatusFilters | src/handler.js:76-110 | `reading`/`finished` "1" list exactly the books with the flag set, "0" exactly those with it clear |
| Handler.NameFilterMatches | src/handler.js:61 | the name filter keeps a book exactly when the lower-cased query occurs in its lower-cased name, so the query's case does not matter |
| Handler.PotterIsFound | src/handler.js:61 | a book named "Harry Potter" passes the query "potter" |
| Handler.GetById | src/handler.js:126-148 | lookup succeeds with 200 exactly when some book has the id, returns the first such book, and otherwise answers 404 |
| Handler.FindIndex | src/handler.js:205 | the scan returns the first position holding the id, or -1 |
| Handler.AddedBookIsFound | src/handler.js:25-47 | a book pushed under a fresh id is what lookup returns for that id and appears in the unfiltered listing |
| Handler.DeletedBookIsGone | src/handler.js:203-216 | after the book with an id is spliced out of a store with unique ids, lookup of that id answers 404 |
| Handler.BookStore.constructor | src/handler.js:2 | the collection starts empty and satisfies the invariant |
| Handler.BookStore.Add | src/handler.js:4-56 | missing name: 400 and nothing changes; `readPage > pageCount`: 400 and nothing changes; otherwise 201 with the id and exactly one record appended, with `finished == (pageCount == readPage)` and both timestamps `now`; ids stay unique |
| Handler.BookStore.Edit | src/handler.js:150-201 | missing name or `readPage >= pageCount`: 400 and nothing changes, even for an unknown id; unknown id: 404 and nothing changes; otherwise 200 and only the first matching record is replaced by the merge; no record's `id`, `insertedAt` or `finished` ever changes |
| Handler.BookStore.Delete | src/handler.js:203-225 | unknown id: 404 and nothing changes; otherwise 200, exactly the first matching record is removed, the rest keep their order, and no book with the id remains |

## Left out

- The hapi response objects and the message texts: a reply is a `Reply` value carrying its status kind, code and the reason of a refusal.
- `nanoid(16)`: the id is a parameter of `Add`.
- Handler.BookStore.Add: requires the id to be fresh, which is what the random id generator is relied on to provide; without it the invariant of unique ids would not hold.
- `new Date().toISOString()`: the time is the parameter `now` and is never inspected.
- Unicode case folding: `toLowerCase` is modelled on ASCII letters only.
- JavaScript truthiness and loose typing of the payload: a missing name is the empty string, the page counts are integers, `reading` is a boolean and `year` an integer; comparisons between values of mixed types are not modelled.
- The `./books` module is not part of this model; the collection starts empty.
- Request and query parsing: an absent query parameter is `None`, a present one its string value.
- Listing and lookup return values and never touch the collection, so that they leave it unchanged holds by construction.
