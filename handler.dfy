/** The five request handlers of the bookshelf service, as operations on the
    ordered collection of books. Listing and lookup only read the collection
    and are functions over it; adding, editing and deleting change it in
    place and are methods of `BookStore`. */
module Handler {
  import opened Text
  import opened Books

  /** HTTP status codes the handlers answer with. */
  const CodeOk: nat := 200
  const CodeCreated: nat := 201
  const CodeBadRequest: nat := 400
  const CodeNotFound: nat := 404
  const CodeServerError: nat := 500

  datatype Option<T> = None | Some(value: T)

  /** Why a request was refused with status "fail". */
  datatype FailReason = NameMissing | ReadPageTooLarge | NotFound

  /** A response: "success" with its payload, "fail" for a refused request, or
      "error" for the internal-failure branch of adding a book. */
  datatype Reply<T> =
    | Success(code: nat, value: T)
    | Fail(code: nat, reason: FailReason)
    | Error(code: nat)

  /** The fields a client sends when adding or editing a book. A missing or
      empty `name` is the empty string. */
  datatype Payload = Payload(
    name: string,
    year: int,
    author: string,
    summary: string,
    publisher: string,
    pageCount: int,
    readPage: int,
    reading: bool)

  /** The query of the listing; `None` is an absent parameter. */
  datatype Query = Query(name: Option<string>, reading: Option<string>, finished: Option<string>)

  // ---------------------------------------------------------------------------
  // Validation

  /** The checks of adding a book, in order: the name, then the pages. */
  function CheckAdd(p: Payload): (r: Option<FailReason>)
    ensures r == None <==> p.name != "" && p.readPage <= p.pageCount
    ensures r == Some(NameMissing) <==> p.name == ""
    ensures r == Some(ReadPageTooLarge) <==> p.name != "" && p.readPage > p.pageCount
  {
    if p.name == "" then Some(NameMissing)
    else if p.readPage > p.pageCount then Some(ReadPageTooLarge)
    else None
  }

  /** The checks of editing a book: the name, then the pages, where a book
      read to its last page is refused as well. */
  function CheckEdit(p: Payload): (r: Option<FailReason>)
    ensures r == None <==> p.name != "" && p.readPage < p.pageCount
    ensures r == Some(NameMissing) <==> p.name == ""
    ensures r == Some(ReadPageTooLarge) <==> p.name != "" && p.readPage >= p.pageCount
  {
    if p.name == "" then Some(NameMissing)
    else if p.readPage >= p.pageCount then Some(ReadPageTooLarge)
    else None
  }

  /** Every payload edit accepts is accepted by add, and add also accepts a
      payload that edit refuses: one whose `readPage` equals `pageCount`. */
  lemma EditStricterThanAdd(p: Payload)
    ensures CheckEdit(p) == None ==> CheckAdd(p) == None
    ensures p.name != "" && p.readPage == p.pageCount ==>
              CheckAdd(p) == None && CheckEdit(p) == Some(ReadPageTooLarge)
  {
  }

  // ---------------------------------------------------------------------------
  // Records built by add and edit

  /** The record add builds; `finished` is derived from the page counts. */
  function NewBook(id: BookId, p: Payload, now: Timestamp): Book
  {
    Book(id, p.name, p.year, p.author, p.summary, p.publisher, p.pageCount,
         p.readPage, p.pageCount == p.readPage, p.reading, now, now)
  }

  /** The stored record with the payload's fields and the new `updatedAt`
      spread over it; every other field keeps its stored value. */
  function Merged(b: Book, p: Payload, now: Timestamp): Book
  {
    b.(name := p.name, year := p.year, author := p.author, summary := p.summary,
       publisher := p.publisher, pageCount := p.pageCount, readPage := p.readPage,
       reading := p.reading, updatedAt := now)
  }

  /** Edit keeps the stored `finished`: a finished book edited down to fewer
      read pages still reads as finished. */
  lemma EditKeepsStaleFinished()
    ensures var p := Payload("Go", 2009, "", "", "", 100, 100, false);
            var b := NewBook("b1", p, "t0");
            var e := Merged(b, p.(readPage := 50), "t1");
            b.finished && CheckEdit(p.(readPage := 50)) == None &&
            e.finished && e.readPage != e.pageCount
  {
  }

  // ---------------------------------------------------------------------------
  // Listing

  /** The filter the listing applies: the first recognised query parameter.
      `name` wins whenever present; `reading` and `finished` count only with
      the value "0" or "1". */
  function ActiveFilter(q: Query): Filter
  {
    if q.name.Some? then ByName(q.name.value)
    else if q.reading == Some("0") || q.reading == Some("1") then ByReading(q.reading == Some("1"))
    else if q.finished == Some("0") || q.finished == Some("1") then ByFinished(q.finished == Some("1"))
    else Everything
  }

  /** List the books: summaries of the books the active filter keeps. */
  function ListBooks(books: seq<Book>, q: Query): (r: Reply<seq<Summary>>)
    ensures r.Success? && r.code == CodeOk
    ensures |r.value| <= |books|
  {
    Success(CodeOk, Summaries(Select(books, ActiveFilter(q))))
  }

  /** A summary is listed exactly when some stored book passes the active
      filter and projects to it; the listing is in store order. */
  lemma ListContents(books: seq<Book>, q: Query, x: Summary)
    ensures x in ListBooks(books, q).value <==>
              exists b :: b in books && Keep(ActiveFilter(q), b) && Project(b) == x
    ensures IsSubsequence(ListBooks(books, q).value, Summaries(books))
  {
    SelectIsSubsequence(books, ActiveFilter(q));
    var r := Select(books, ActiveFilter(q));
    if x in Summaries(r) {
      var i :| 0 <= i < |r| && Summaries(r)[i] == x;
      assert r[i] in r;
    }
    if b :| b in books && Keep(ActiveFilter(q), b) && Project(b) == x {
      assert b in r;
      var i :| 0 <= i < |r| && r[i] == b;
      assert Summaries(r)[i] == x;
    }
  }

  /** Without a recognised parameter every book is listed, in store order. */
  lemma ListWithoutFilter(books: seq<Book>, q: Query)
    requires q.name == None
    requires q.reading != Some("0") && q.reading != Some("1")
    requires q.finished != Some("0") && q.finished != Some("1")
    ensures ListBooks(books, q).value == Summaries(books)
  {
    SelectEverything(books);
  }

  /** When `name` is given the other parameters are ignored. */
  lemma NameFilterWins(books: seq<Book>, q: Query)
    requires q.name.Some?
    ensures ListBooks(books, q) == ListBooks(books, Query(q.name, None, None))
  {
  }

  /** Without `name`, a recognised `reading` hides `finished`, and an
      unrecognised `reading` is as if absent. */
  lemma ReadingFilterPrecedence(books: seq<Book>, q: Query)
    requires q.name == None
    ensures (q.reading == Some("0") || q.reading == Some("1")) ==>
              ListBooks(books, q) == ListBooks(books, Query(None, q.reading, None))
    ensures !(q.reading == Some("0") || q.reading == Some("1")) ==>
              ListBooks(books, q) == ListBooks(books, Query(None, None, q.finished))
  {
  }

  /** `reading=1` lists the books being read and `reading=0` the others;
      likewise `finished` selects on the stored `finished` flag. */
  lemma StatusFilters(books: seq<Book>, flag: bool, x: Summary)
    ensures var q := Query(None, Some(if flag then "1" else "0"), None);
            x in ListBooks(books, q).value <==>
              exists b :: b in books && b.reading == flag && Project(b) == x
    ensures var q := Query(None, None, Some(if flag then "1" else "0"));
            x in ListBooks(books, q).value <==>
              exists b :: b in books && b.finished == flag && Project(b) == x
  {
    ListContents(books, Query(None, Some(if flag then "1" else "0"), None), x);
    ListContents(books, Query(None, None, Some(if flag then "1" else "0")), x);
  }

  /** The name filter is a case-insensitive substring match. */
  lemma NameFilterMatches(b: Book, query: string)
    ensures Keep(ByName(query), b) <==> exists i :: OccursAt(Lower(b.name), Lower(query), i)
    ensures Keep(ByName(query), b) == Keep(ByName(Lower(query)), b)
  {
    ContainsIffOccurs(Lower(b.name), Lower(query));
    LowerIdempotent(query);
  }

  /** A book named "Harry Potter" is found by the query "potter". */
  lemma PotterIsFound(b: Book)
    requires b.name == "Harry Potter"
    ensures Keep(ByName("potter"), b)
  {
    assert Lower(b.name)[6..12] == "potter";
    assert OccursAt(Lower(b.name), Lower("potter"), 6);
    NameFilterMatches(b, "potter");
  }

  // ---------------------------------------------------------------------------
  // Lookup by id

  /** Lookup by id: the first element of the id filter, or 404 when the
      filter is empty. */
  function GetById(books: seq<Book>, id: BookId): (r: Reply<Book>)
    ensures r.Success? <==> HasId(books, id)
    ensures r.Success? ==> r.code == CodeOk && r.value == books[IndexOf(books, id)]
    ensures !r.Success? ==> r == Fail(CodeNotFound, NotFound)
  {
    SelectByIdHead(books, id);
    var found := Select(books, ById(id));
    if |found| > 0 then Success(CodeOk, found[0]) else Fail(CodeNotFound, NotFound)
  }

  /** The `findIndex` scan, as the loop it performs. */
  method FindIndex(books: seq<Book>, id: BookId) returns (index: int)
    ensures index == IndexOf(books, id)
  {
    index := 0;
    while index < |books| && books[index].id != id
      invariant 0 <= index <= |books|
      invariant forall j :: 0 <= j < index ==> books[j].id != id
    {
      index := index + 1;
    }
    if index == |books| {
      index := -1;
    }
  }

  // ---------------------------------------------------------------------------
  // Relations between the operations

  /** A book just added under a fresh id is what lookup returns for that id
      and is among the unfiltered listing. */
  lemma AddedBookIsFound(books: seq<Book>, id: BookId, p: Payload, now: Timestamp)
    requires !HasId(books, id)
    ensures GetById(books + [NewBook(id, p, now)], id) == Success(CodeOk, NewBook(id, p, now))
    ensures Project(NewBook(id, p, now)) in ListBooks(books + [NewBook(id, p, now)], Query(None, None, None)).value
  {
    var s := books + [NewBook(id, p, now)];
    assert s[|books|].id == id;
    assert IndexOf(s, id) == |books|;
    ListWithoutFilter(s, Query(None, None, None));
    assert Summaries(s)[|books|] == Project(NewBook(id, p, now));
  }

  /** After a book is removed from a store with unique ids, lookup of its id
      answers 404. */
  lemma DeletedBookIsGone(books: seq<Book>, id: BookId)
    requires UniqueIds(books) && HasId(books, id)
    ensures GetById(RemoveAt(books, IndexOf(books, id)), id) == Fail(CodeNotFound, NotFound)
  {
  }

  // ---------------------------------------------------------------------------
  // The collection

  /** The module-level `books` array, initially empty. */
  class BookStore {
    var books: seq<Book>

    /** Every stored book has a name, does not claim more pages read than
        it has, and has an id of its own. */
    ghost predicate Valid()
      reads this
    {
      UniqueIds(books) &&
      forall i :: 0 <= i < |books| ==> books[i].name != "" && books[i].readPage <= books[i].pageCount
    }

    constructor ()
      ensures Valid() && books == []
    {
      books := [];
    }

    /** `addBookHandler`. `id` stands for `nanoid(16)`, which is taken to
        produce an id no stored book has, and `now` for the current time. */
    method Add(p: Payload, id: BookId, now: Timestamp) returns (r: Reply<BookId>)
      requires Valid()
      requires !HasId(books, id)
      modifies this
      ensures Valid()
      ensures p.name == "" ==> r == Fail(CodeBadRequest, NameMissing) && books == old(books)
      ensures p.name != "" && p.readPage > p.pageCount ==>
                r == Fail(CodeBadRequest, ReadPageTooLarge) && books == old(books)
      ensures p.name != "" && p.readPage <= p.pageCount ==>
                r == Success(CodeCreated, id) &&
                books == old(books) + [NewBook(id, p, now)] &&
                books[|books| - 1].finished == (p.pageCount == p.readPage) &&
                books[|books| - 1].insertedAt == now && books[|books| - 1].updatedAt == now
    {
      var rejected := CheckAdd(p);
      if rejected.Some? {
        return Fail(CodeBadRequest, rejected.value);
      }
      var book := NewBook(id, p, now);
      var stored := books;
      books := books + [book];
      SelectAppend(stored, [book], ById(id));
      var isSuccess := |Select(books, ById(id))| > 0;
      if isSuccess {
        r := Success(CodeCreated, id);
      } else {
        r := Error(CodeServerError);
      }
    }

    /** `editBookByIdHandler`: the payload is checked before the id is looked
        up; the first book with the id takes the payload's fields and keeps its
        `id`, `insertedAt` and `finished`. */
    method Edit(id: BookId, p: Payload, now: Timestamp) returns (r: Reply<()>)
      requires Valid()
      modifies this
      ensures Valid()
      ensures p.name == "" ==> r == Fail(CodeBadRequest, NameMissing) && books == old(books)
      ensures p.name != "" && p.readPage >= p.pageCount ==>
                r == Fail(CodeBadRequest, ReadPageTooLarge) && books == old(books)
      ensures CheckEdit(p) == None && !HasId(old(books), id) ==>
                r == Fail(CodeNotFound, NotFound) && books == old(books)
      ensures CheckEdit(p) == None && HasId(old(books), id) ==>
                r == Success(CodeOk, ()) &&
                var i := IndexOf(old(books), id);
                books == old(books)[i := Merged(old(books)[i], p, now)]
      ensures |books| == |old(books)|
      ensures forall j :: 0 <= j < |books| ==>
                books[j].id == old(books)[j].id && books[j].insertedAt == old(books)[j].insertedAt &&
                books[j].finished == old(books)[j].finished
    {
      var rejected := CheckEdit(p);
      if rejected.Some? {
        return Fail(CodeBadRequest, rejected.value);
      }
      var index := FindIndex(books, id);
      if index != -1 {
        books := books[index := Merged(books[index], p, now)];
        r := Success(CodeOk, ());
      } else {
        r := Fail(CodeNotFound, NotFound);
      }
    }

    /** `deleteBookByIdHandler`: the first book with the id is spliced out. */
    method Delete(id: BookId) returns (r: Reply<()>)
      requires Valid()
      modifies this
      ensures Valid()
      ensures !HasId(old(books), id) ==> r == Fail(CodeNotFound, NotFound) && books == old(books)
      ensures HasId(old(books), id) ==>
                r == Success(CodeOk, ()) &&
                books == RemoveAt(old(books), IndexOf(old(books), id)) &&
                |books| == |old(books)| - 1 &&
                IsSubsequence(books, old(books)) &&
                !HasId(books, id)
    {
      var index := FindIndex(books, id);
      if index != -1 {
        RemoveAtSpec(books, index);
        RemoveUniqueGone(books, index);
        books := books[..index] + books[index + 1..];
        r := Success(CodeOk, ());
      } else {
        r := Fail(CodeNotFound, NotFound);
      }
    }
  }
}
