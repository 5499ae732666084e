/** The book records held by the service, and the array operations the
    handlers apply to the collection: `filter`, `findIndex` and `splice`. */
module Books {
  import opened Text

  type BookId = string

  /** A timestamp as produced by `new Date().toISOString()`; never inspected. */
  type Timestamp = string

  /** One stored book. `finished` and the two timestamps are set by the
      service; every other field comes from the request payload. */
  datatype Book = Book(
    id: BookId,
    name: string,
    year: int,
    author: string,
    summary: string,
    publisher: string,
    pageCount: int,
    readPage: int,
    finished: bool,
    reading: bool,
    insertedAt: Timestamp,
    updatedAt: Timestamp)

  /** The `{id, name, publisher}` view returned by the listing. */
  datatype Summary = Summary(id: BookId, name: string, publisher: string)

  function Project(b: Book): Summary
  {
    Summary(b.id, b.name, b.publisher)
  }

  /** The listing's `map` of every book to its summary. */
  function Summaries(s: seq<Book>): seq<Summary>
  {
    seq(|s|, i requires 0 <= i < |s| => Project(s[i]))
  }

  /** The predicates the handlers pass to `books.filter`. */
  datatype Filter =
    | ById(id: BookId)
    | ByName(query: string)
    | ByReading(reading: bool)
    | ByFinished(finished: bool)
    | Everything

  predicate Keep(f: Filter, b: Book)
  {
    match f
    case ById(id) => b.id == id
    case ByName(q) => Contains(Lower(b.name), Lower(q))
    case ByReading(r) => b.reading == r
    case ByFinished(d) => b.finished == d
    case Everything => true
  }

  /** `s` with some of its elements dropped, the rest in their original order. */
  ghost predicate IsSubsequence<T>(r: seq<T>, s: seq<T>)
    decreases |s|
  {
    if r == [] then true
    else if s == [] then false
    else (r[0] == s[0] && IsSubsequence(r[1..], s[1..])) || IsSubsequence(r, s[1..])
  }

  /** `s.filter(b => Keep(f, b))`: exactly the kept books. */
  function Select(s: seq<Book>, f: Filter): (r: seq<Book>)
    ensures |r| <= |s|
    ensures forall b :: b in r <==> b in s && Keep(f, b)
  {
    if s == [] then []
    else if Keep(f, s[0]) then [s[0]] + Select(s[1..], f)
    else Select(s[1..], f)
  }

  /** Filtering keeps every passing book as often as the collection holds
      it, and drops every other book entirely. */
  lemma {:induction false} SelectCounts(s: seq<Book>, f: Filter)
    ensures forall b :: multiset(Select(s, f))[b] == if Keep(f, b) then multiset(s)[b] else 0
  {
    if s != [] {
      SelectCounts(s[1..], f);
      assert s == [s[0]] + s[1..];
    }
  }

  /** Filtering keeps the books in store order. */
  lemma {:induction false} SelectIsSubsequence(s: seq<Book>, f: Filter)
    ensures IsSubsequence(Select(s, f), s)
    ensures IsSubsequence(Summaries(Select(s, f)), Summaries(s))
  {
    if s != [] {
      SelectIsSubsequence(s[1..], f);
      assert Summaries(s)[1..] == Summaries(s[1..]);
      if Keep(f, s[0]) {
        var r := Select(s, f);
        assert r[1..] == Select(s[1..], f);
        assert Summaries(r)[1..] == Summaries(Select(s[1..], f));
      }
    }
  }

  /** Filtering a concatenation filters each part. */
  lemma {:induction false} SelectAppend(a: seq<Book>, b: seq<Book>, f: Filter)
    ensures Select(a + b, f) == Select(a, f) + Select(b, f)
  {
    if a == [] {
      assert a + b == b;
    } else {
      assert (a + b)[1..] == a[1..] + b;
      SelectAppend(a[1..], b, f);
    }
  }

  /** The trivial filter returns the whole collection. */
  lemma {:induction false} SelectEverything(s: seq<Book>)
    ensures Select(s, Everything) == s
  {
    if s != [] {
      SelectEverything(s[1..]);
    }
  }

  /** Some book carries the id. */
  ghost predicate HasId(s: seq<Book>, id: BookId)
  {
    exists j :: 0 <= j < |s| && s[j].id == id
  }

  /** No two books share an id. */
  ghost predicate UniqueIds(s: seq<Book>)
  {
    forall i, j :: 0 <= i < j < |s| ==> s[i].id != s[j].id
  }

  /** What the `findIndex` scan by id answers: the first position carrying
      the id, or -1 when there is none. */
  function IndexOf(s: seq<Book>, id: BookId): (i: int)
    ensures -1 <= i < |s|
    ensures i == -1 <==> !HasId(s, id)
    ensures i != -1 ==> s[i].id == id && forall j :: 0 <= j < i ==> s[j].id != id
  {
    if s == [] then -1
    else if s[0].id == id then 0
    else
      var k := IndexOf(s[1..], id);
      assert forall j :: 1 <= j < |s| ==> s[j] == s[1..][j - 1];
      if k == -1 then -1 else k + 1
  }

  /** The first book with the id is the first element of the id filter, so
      `filter(...)[0]` and `findIndex` agree. */
  lemma {:induction false} SelectByIdHead(s: seq<Book>, id: BookId)
    ensures Select(s, ById(id)) != [] <==> HasId(s, id)
    ensures HasId(s, id) ==> Select(s, ById(id))[0] == s[IndexOf(s, id)]
  {
    if s != [] && s[0].id != id {
      SelectByIdHead(s[1..], id);
      assert forall j :: 1 <= j < |s| ==> s[j] == s[1..][j - 1];
      if HasId(s, id) {
        var j :| 0 <= j < |s| && s[j].id == id;
        assert s[1..][j - 1].id == id;
      }
    } else if s != [] {
      assert s[0] in Select(s, ById(id));
    }
  }

  /** `books.splice(k, 1)`. */
  function RemoveAt(s: seq<Book>, k: int): seq<Book>
    requires 0 <= k < |s|
  {
    s[..k] + s[k + 1..]
  }

  /** Removing one book drops exactly that book: one fewer, the others in
      their original order. */
  lemma RemoveAtSpec(s: seq<Book>, k: int)
    requires 0 <= k < |s|
    ensures |RemoveAt(s, k)| == |s| - 1
    ensures multiset(RemoveAt(s, k)) + multiset{s[k]} == multiset(s)
    ensures IsSubsequence(RemoveAt(s, k), s)
  {
    assert s == s[..k] + [s[k]] + s[k + 1..];
    RemoveAtOrder(s, k);
  }

  /** Removing the book at `k` leaves the books before it in place and moves
      each book after it down by one position. */
  lemma RemoveAtShifts(s: seq<Book>, k: int)
    requires 0 <= k < |s|
    ensures |RemoveAt(s, k)| == |s| - 1
    ensures forall i :: 0 <= i < k ==> RemoveAt(s, k)[i] == s[i]
    ensures forall i :: k <= i < |s| - 1 ==> RemoveAt(s, k)[i] == s[i + 1]
  {
  }

  lemma {:induction false} RemoveAtOrder(s: seq<Book>, k: int)
    requires 0 <= k < |s|
    ensures IsSubsequence(RemoveAt(s, k), s)
  {
    if k == 0 {
      assert RemoveAt(s, k) == s[1..];
      SubsequenceRefl(s[1..]);
    } else {
      RemoveAtOrder(s[1..], k - 1);
      var r := RemoveAt(s, k);
      assert r[0] == s[0];
      assert r[1..] == RemoveAt(s[1..], k - 1);
    }
  }

  lemma {:induction false} SubsequenceRefl<T>(s: seq<T>)
    ensures IsSubsequence(s, s)
  {
    if s != [] {
      SubsequenceRefl(s[1..]);
    }
  }

  /** Removing the book at the only position carrying its id leaves no book
      with that id. */
  lemma RemoveUniqueGone(s: seq<Book>, k: int)
    requires UniqueIds(s) && 0 <= k < |s|
    ensures UniqueIds(RemoveAt(s, k))
    ensures !HasId(RemoveAt(s, k), s[k].id)
  {
  }
}
