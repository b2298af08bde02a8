/** The book handlers (books.service.ts): creating a book from a request body,
    and listing the collection filtered by genre, ordered and limited. */
module BooksService {
  import opened Common
  import opened Http
  import opened BooksModel
  import opened Store

  /** The body of `POST /api/books`. Besides the six schema fields a client
      may send others; `available` stands for them. */
  datatype BookBody = BookBody(
    title: Option<string>,
    author: Option<string>,
    genre: Option<string>,
    isbn: Option<string>,
    description: Option<string>,
    copies: Option<int>,
    available: Option<bool>)

  /** The destructuring of the body: the six fields `create` receives. */
  function Whitelist(body: BookBody): BookFields
  {
    BookFields(body.title, body.author, body.genre, body.isbn, body.description, body.copies)
  }

  const CreatedMessage := "Book created successfully"

  /** `postBooks`: validation, then insertion under the unique isbn index.
      A rule failure or a taken isbn is passed on and changes nothing; on
      success the new book, built from the six fields alone, is stored under
      the driver's fresh id and returned with 201. */
  method PostBooks(db: Library, body: BookBody, newId: BookId, now: int) returns (out: Outcome<Book>)
    requires db.Valid() && newId !in db.books
    modifies db
    ensures db.Valid() && db.borrows == old(db.borrows)
    ensures NewBook(Whitelist(body), now).Failure? ==>
      out == Next(NewBook(Whitelist(body), now).error) && db.books == old(db.books) && db.order == old(db.order)
    ensures NewBook(Whitelist(body), now).Success? && IsbnTaken(old(db.books), NewBook(Whitelist(body), now).value.isbn) ==>
      && out == Next(DuplicateIsbn(NewBook(Whitelist(body), now).value.isbn))
      && db.books == old(db.books) && db.order == old(db.order)
    ensures NewBook(Whitelist(body), now).Success? && !IsbnTaken(old(db.books), NewBook(Whitelist(body), now).value.isbn) ==>
      var b := NewBook(Whitelist(body), now).value;
      && out == Sent(Response(201, SuccessBody(CreatedMessage, b)))
      && db.books == old(db.books)[newId := b] && db.order == old(db.order) + [newId]
  {
    var created := NewBook(Whitelist(body), now);
    if created.Failure? {
      return Next(created.error);
    }
    var newBook := created.value;
    var err := db.InsertBook(newId, newBook);
    if err.Some? {
      return Next(err.value);
    }
    out := Sent(Response(201, SuccessBody(CreatedMessage, newBook)));
  }

  /** Fields outside the six never reach the store: a client-sent
      `available` changes nothing, and a created book is available whatever
      its copies. */
  lemma PostIgnoresOtherFields(body: BookBody, available: Option<bool>, now: int)
    ensures NewBook(Whitelist(body.(available := available)), now) == NewBook(Whitelist(body), now)
    ensures NewBook(Whitelist(body), now).Success? ==> NewBook(Whitelist(body), now).value.available
  {
  }

  /** A refused creation reaches the client through the shared error
      handler as a plain `Error`: a failed schema rule and a taken isbn are
      both answered 500 with the store's own message. */
  lemma PostFailuresAnswer500(books: map<BookId, Book>, body: BookBody, now: int)
    ensures NewBook(Whitelist(body), now).Failure? ==>
      var r := Respond<Book>(Next(NewBook(Whitelist(body), now).error));
      && r.status == 500 && r.body.error == Null
      && BookViolations(Whitelist(body)) != []
      && r.body.message == ValidationMessage("Book", BookViolations(Whitelist(body)))
    ensures NewBook(Whitelist(body), now).Success? && IsbnTaken(books, NewBook(Whitelist(body), now).value.isbn) ==>
      Respond<Book>(Next(DuplicateIsbn(NewBook(Whitelist(body), now).value.isbn))).status == 500
  {
  }

  // ---------------------------------------------------------------------
  // Listing

  /** The query string of `GET /api/books`. The sort key is always
      `createdAt`; `limit` is the parsed number. */
  datatype ListQuery = ListQuery(filter: Option<string>, sort: Option<string>, limit: Option<int>)

  const DefaultSort := "desc"
  const DefaultLimit := 10

  function SortDirection(q: ListQuery): string
  {
    if q.sort.Some? then q.sort.value else DefaultSort
  }

  function Limit(q: ListQuery): int
  {
    if q.limit.Some? then q.limit.value else DefaultLimit
  }

  /** `filter && Object.values(Genre).includes(filter)`: the genre to filter
      on, present exactly when the filter names one of the six. */
  function GenreFilter(filter: Option<string>): (g: Option<Genre>)
    ensures g.Some? <==> filter.Some? && exists h: Genre :: GenreName(h) == filter.value
    ensures g.Some? ==> GenreName(g.value) == filter.value
  {
    if Present(filter) then ParseGenre(filter.value) else None
  }

  /** `find(query)`: the books of the genre, or all books without one. The
      result holds every matching book and nothing else. */
  function Filtered(catalog: seq<Book>, g: Option<Genre>): (r: seq<Book>)
    ensures multiset(r) <= multiset(catalog)
    ensures g.None? ==> r == catalog
    ensures g.Some? ==> forall i :: 0 <= i < |r| ==> r[i].genre == g.value
    ensures forall x :: x in catalog && (g.None? || x.genre == g.value) ==> x in r
  {
    if catalog == [] then []
    else
      var rest := Filtered(catalog[1..], g);
      assert catalog == [catalog[0]] + catalog[1..];
      if g.None? || catalog[0].genre == g.value then [catalog[0]] + rest else rest
  }

  /** `a` may come before `b`: ascending or descending by `createdAt`. */
  predicate InOrder(a: Book, b: Book, ascending: bool)
  {
    if ascending then a.createdAt <= b.createdAt else a.createdAt >= b.createdAt
  }

  predicate SortedBy(s: seq<Book>, ascending: bool)
  {
    forall i, j :: 0 <= i < j < |s| ==> InOrder(s[i], s[j], ascending)
  }

  /** `x` placed into an ordered sequence before the first book it may
      precede. */
  function Insert(x: Book, s: seq<Book>, ascending: bool): (r: seq<Book>)
    requires SortedBy(s, ascending)
    ensures SortedBy(r, ascending)
    ensures multiset(r) == multiset(s) + multiset{x}
  {
    if s == [] then [x]
    else if InOrder(x, s[0], ascending) then
      assert forall j :: 0 < j < |s| + 1 ==> ([x] + s)[j] == s[j - 1];
      [x] + s
    else
      var rest := Insert(x, s[1..], ascending);
      assert s == [s[0]] + s[1..];
      assert forall y :: y in multiset(rest) ==> InOrder(s[0], y, ascending) by {
        forall y | y in multiset(rest) ensures InOrder(s[0], y, ascending) {
          if y != x {
            assert y in s[1..];
          }
        }
      }
      assert forall j :: 0 < j < |rest| + 1 ==> ([s[0]] + rest)[j] == rest[j - 1];
      assert forall j :: 0 <= j < |rest| ==> rest[j] in multiset(rest);
      [s[0]] + rest
  }

  /** `.sort({ createdAt: ±1 })`: an ordered permutation of its input. */
  function SortBooks(s: seq<Book>, ascending: bool): (r: seq<Book>)
    ensures SortedBy(r, ascending)
    ensures multiset(r) == multiset(s)
  {
    if s == [] then []
    else
      assert s == [s[0]] + s[1..];
      Insert(s[0], SortBooks(s[1..], ascending), ascending)
  }

  /** The books `getAllBooks` answers with: the filtered books in the
      requested order, cut to `limit`. It returns `limit` books, or all
      matching ones when there are fewer; each is a stored book, of the
      filter's genre when the filter names one, and the result is ordered
      ascending exactly when `sort` is "asc". */
  function ListBooks(catalog: seq<Book>, q: ListQuery): (r: seq<Book>)
    requires q.limit.Some? ==> q.limit.value >= 1
    ensures var matching := Filtered(catalog, GenreFilter(q.filter));
      |r| == if Limit(q) < |matching| then Limit(q) else |matching|
    ensures multiset(r) <= multiset(Filtered(catalog, GenreFilter(q.filter)))
    ensures forall i :: 0 <= i < |r| ==> r[i] in catalog
    ensures GenreFilter(q.filter).Some? ==> forall i :: 0 <= i < |r| ==> r[i].genre == GenreFilter(q.filter).value
    ensures SortedBy(r, SortDirection(q) == "asc")
  {
    var matching := Filtered(catalog, GenreFilter(q.filter));
    var sorted := SortBooks(matching, SortDirection(q) == "asc");
    var n := if Limit(q) < |sorted| then Limit(q) else |sorted|;
    TakeOfSorted(sorted, n, SortDirection(q) == "asc");
    Within(sorted[..n], matching);
    Within(matching, catalog);
    sorted[..n]
  }

  /** A prefix of an ordered sequence is ordered, and it and the rest
      together hold the whole. */
  lemma TakeOfSorted(s: seq<Book>, n: nat, ascending: bool)
    requires SortedBy(s, ascending) && n <= |s|
    ensures SortedBy(s[..n], ascending)
    ensures multiset(s[..n]) + multiset(s[n..]) == multiset(s)
  {
    assert s == s[..n] + s[n..];
  }

  /** Every element of a sub-multiset of `s` is an element of `s`. */
  lemma Within(r: seq<Book>, s: seq<Book>)
    requires multiset(r) <= multiset(s)
    ensures forall i :: 0 <= i < |r| ==> r[i] in s
  {
    forall i | 0 <= i < |r| ensures r[i] in s {
      assert r[i] in multiset(r);
    }
  }

  /** The limit keeps the first books in the requested order: no matching
      book that was left out comes strictly before a returned one. */
  lemma ListKeepsFirst(catalog: seq<Book>, q: ListQuery)
    requires q.limit.Some? ==> q.limit.value >= 1
    ensures var r := ListBooks(catalog, q);
      var leftOut := multiset(Filtered(catalog, GenreFilter(q.filter))) - multiset(r);
      forall x, i :: x in leftOut && 0 <= i < |r| ==> InOrder(r[i], x, SortDirection(q) == "asc")
  {
    var ascending := SortDirection(q) == "asc";
    var matching := Filtered(catalog, GenreFilter(q.filter));
    var sorted := SortBooks(matching, ascending);
    var r := ListBooks(catalog, q);
    assert r == sorted[..|r|];
    forall x, i | x in multiset(matching) - multiset(r) && 0 <= i < |r|
      ensures InOrder(r[i], x, ascending)
    {
      PrefixComesFirst(sorted, |r|, x, i, ascending);
    }
  }

  /** In an ordered sequence, whatever lies beyond a prefix may follow every
      element of the prefix. */
  lemma PrefixComesFirst(s: seq<Book>, n: nat, x: Book, i: nat, ascending: bool)
    requires SortedBy(s, ascending) && i < n <= |s|
    requires x in multiset(s) - multiset(s[..n])
    ensures InOrder(s[i], x, ascending)
  {
    TakeOfSorted(s, n, ascending);
    assert x in multiset(s[n..]);
    var j :| 0 <= j < |s[n..]| && s[n..][j] == x;
    assert s[n + j] == x;
  }

  /** A filter that names no genre (absent, empty, or any other text) is
      dropped: the listing is taken from the whole collection. */
  lemma UnknownFilterIgnored(catalog: seq<Book>, q: ListQuery)
    requires q.limit.Some? ==> q.limit.value >= 1
    requires q.filter.None? || forall g: Genre :: GenreName(g) != q.filter.value
    ensures ListBooks(catalog, q) == ListBooks(catalog, q.(filter := None))
  {
  }

  /** `getAllBooks`: 200 with the listing, or — when the store fails — a 500
      answered directly by the handler with the failure's message, not
      passed to the shared error handler. */
  function GetAllBooks(catalog: seq<Book>, q: ListQuery, failure: Option<string>): (out: Outcome<seq<Book>>)
    requires q.limit.Some? ==> q.limit.value >= 1
    ensures out.Sent?
    ensures failure.Some? <==> !out.response.body.Success()
    ensures failure.Some? ==>
      out.response == Response(500, ErrorBody("Failed to retrieve books", Text(failure.value)))
    ensures failure.None? ==>
      && out.response == Response(200, SuccessBody("Books retrieved successfully", ListBooks(catalog, q)))
      && |out.response.body.data| <= Limit(q)
  {
    if failure.Some? then Sent(Response(500, ErrorBody("Failed to retrieve books", Text(failure.value))))
    else Sent(Response(200, SuccessBody("Books retrieved successfully", ListBooks(catalog, q))))
  }
}
