/** The book schema (books.model.ts): the Genre enum, the rules a stored book
    obeys, how a document is made from the fields `create` receives, and the
    loaded document whose `updateAvailability` changes it in place. */
module BooksModel {
  import opened Common

  /** A book's `_id`, as the store and the requests spell it. */
  type BookId = string

  datatype Genre = FICTION | NON_FICTION | SCIENCE | HISTORY | BIOGRAPHY | FANTASY

  /** `Object.values(Genre)`, in declaration order. */
  const Genres: seq<Genre> := [FICTION, NON_FICTION, SCIENCE, HISTORY, BIOGRAPHY, FANTASY]

  /** The string value of each enum member (each member's value is its name). */
  function GenreName(g: Genre): string
  {
    match g
    case FICTION => "FICTION"
    case NON_FICTION => "NON_FICTION"
    case SCIENCE => "SCIENCE"
    case HISTORY => "HISTORY"
    case BIOGRAPHY => "BIOGRAPHY"
    case FANTASY => "FANTASY"
  }

  /** The first of `gs` whose value is `s`, if any. */
  function FindGenre(gs: seq<Genre>, s: string): (r: Option<Genre>)
    ensures r.Some? ==> r.value in gs && GenreName(r.value) == s
    ensures r.None? ==> forall i :: 0 <= i < |gs| ==> GenreName(gs[i]) != s
  {
    if gs == [] then None
    else if GenreName(gs[0]) == s then Some(gs[0])
    else FindGenre(gs[1..], s)
  }

  /** `Object.values(Genre).includes(s)`, answering which member matched:
      a string names a genre exactly when it is one of the six values. */
  function ParseGenre(s: string): (r: Option<Genre>)
    ensures r.Some? ==> GenreName(r.value) == s
    ensures r.None? ==> forall g: Genre :: GenreName(g) != s
  {
    var r := FindGenre(Genres, s);
    assert r.None? ==> forall g: Genre :: GenreName(g) != s by {
      if r.None? {
        forall g: Genre ensures GenreName(g) != s {
          assert Genres[GenreIndex(g)] == g;
        }
      }
    }
    r
  }

  /** Where each member stands in `Genres`. */
  function GenreIndex(g: Genre): (i: nat)
    ensures i < |Genres| && Genres[i] == g
  {
    match g
    case FICTION => 0
    case NON_FICTION => 1
    case SCIENCE => 2
    case HISTORY => 3
    case BIOGRAPHY => 4
    case FANTASY => 5
  }

  /** Genre has exactly six members, with six different values, and parsing
      a member's value gives back that member. */
  lemma GenreEnumeration(g: Genre)
    ensures |Genres| == 6 && g in Genres
    ensures forall i, j :: 0 <= i < j < |Genres| ==> GenreName(Genres[i]) != GenreName(Genres[j])
    ensures ParseGenre(GenreName(g)) == Some(g)
  {
    assert Genres[GenreIndex(g)] == g;
    forall i, j | 0 <= i < j < |Genres| ensures GenreName(Genres[i]) != GenreName(Genres[j]) {
      NamesDiffer(Genres[i], Genres[j]);
    }
    var r := ParseGenre(GenreName(g));
    assert r.Some?;
    if r.value != g {
      NamesDiffer(r.value, g);
    }
  }

  lemma NamesDiffer(g: Genre, h: Genre)
    requires g != h
    ensures GenreName(g) != GenreName(h)
  {
    var m, n := GenreName(g), GenreName(h);
    if |m| == |n| {
      // the names of equal length (FICTION, SCIENCE, HISTORY, FANTASY) differ in their first two letters
      assert m[0] != n[0] || m[1] != n[1];
    }
  }

  /** A stored book. `createdAt` is the store's timestamp, the only sort key
      this model orders by. */
  datatype Book = Book(
    title: string,
    author: string,
    genre: Genre,
    isbn: string,
    description: Option<string>,
    copies: int,
    available: bool,
    createdAt: int)

  /** The per-document schema rules on a stored book: title, author and isbn
      required (non-empty), copies not below 0. The genre is a member by its
      type; description is optional. */
  predicate BookValid(b: Book)
  {
    |b.title| > 0 && |b.author| > 0 && |b.isbn| > 0 && b.copies >= 0
  }

  /** The unique index on `isbn`, a rule over the whole collection. */
  predicate IsbnUnique(books: map<BookId, Book>)
  {
    forall i, j :: i in books && j in books && i != j ==> books[i].isbn != books[j].isbn
  }

  /** The six fields handed to `create`, as they came in the request. */
  datatype BookFields = BookFields(
    title: Option<string>,
    author: Option<string>,
    genre: Option<string>,
    isbn: Option<string>,
    description: Option<string>,
    copies: Option<int>)

  /** The schema's verdict on each path, in the schema's order; a path reports
      only its first failing rule (`required` before `enum` and `min`). */
  function BookViolations(f: BookFields): seq<Violation>
  {
    (if Present(f.title) then [] else [Violation("title", "Title is required")])
    + (if Present(f.author) then [] else [Violation("author", "Author is required")])
    + (if !Present(f.genre) then [Violation("genre", "Genre is required")]
       else if ParseGenre(f.genre.value).None? then [Violation("genre", "Genre must be one of the allowed values")]
       else [])
    + (if Present(f.isbn) then [] else [Violation("isbn", "ISBN is required")])
    + (if f.copies.None? then [Violation("copies", "Copies field is required")]
       else if f.copies.value < 0 then [Violation("copies", "Copies must be a non-negative number")]
       else [])
  }

  /** The fields satisfy every rule of the schema. */
  predicate Acceptable(f: BookFields)
  {
    && Present(f.title) && Present(f.author) && Present(f.isbn)
    && Present(f.genre) && ParseGenre(f.genre.value).Some?
    && f.copies.Some? && f.copies.value >= 0
  }

  /** The document `create` validates and builds: it fails exactly when a
      rule fails, and on success carries the given fields, a valid book, and
      `available` at its default `true` whatever `copies` is. */
  function NewBook(f: BookFields, now: int): (r: Result<Book, Thrown>)
    ensures r.Success? <==> Acceptable(f)
    ensures r.Success? ==>
      && BookValid(r.value) && r.value.available && r.value.createdAt == now
      && Some(r.value.title) == f.title && Some(r.value.author) == f.author
      && Some(GenreName(r.value.genre)) == f.genre && Some(r.value.isbn) == f.isbn
      && r.value.description == f.description && Some(r.value.copies) == f.copies
    ensures r.Failure? ==> r.error.PlainError?
  {
    var vs := BookViolations(f);
    if vs != [] then Failure(PlainError(ValidationMessage("Book", vs)))
    else
      Success(Book(f.title.value, f.author.value, ParseGenre(f.genre.value).value, f.isbn.value,
                   f.description, f.copies.value, true, now))
  }

  /** What `updateAvailability` makes of a book: `available` recomputed from
      `copies`, nothing else touched. */
  function Refreshed(b: Book): Book
  {
    b.(available := b.copies > 0)
  }

  /** Recomputing availability changes only `available`, makes it agree with
      `copies`, and a second recomputation changes nothing. */
  lemma RefreshedProperties(b: Book)
    ensures Refreshed(b).available == (b.copies > 0)
    ensures Refreshed(b).(available := b.available) == b
    ensures Refreshed(Refreshed(b)) == Refreshed(b)
    ensures BookValid(Refreshed(b)) == BookValid(b)
  {
  }

  /** The paths of a loaded document that this core ever changes. */
  datatype BookPath = CopiesPath | AvailablePath

  /** A book document loaded from the store. Mongoose remembers which paths
      were changed since loading; `save` writes only those. */
  class BookDoc {
    const id: BookId
    const title: string
    const author: string
    const genre: Genre
    const isbn: string
    const description: Option<string>
    const createdAt: int
    var copies: int
    var available: bool
    var modified: set<BookPath>

    /** The document's current contents as a book value. */
    function Value(): Book
      reads this
    {
      Book(title, author, genre, isbn, description, copies, available, createdAt)
    }

    constructor Load(id: BookId, b: Book)
      ensures this.id == id && Value() == b && modified == {}
    {
      this.id := id;
      title, author, genre, isbn := b.title, b.author, b.genre, b.isbn;
      description, createdAt := b.description, b.createdAt;
      copies, available := b.copies, b.available;
      modified := {};
    }

    /** `doc.copies = n` */
    method SetCopies(n: int)
      modifies this
      ensures Value() == old(Value()).(copies := n)
      ensures modified == old(modified) + {CopiesPath}
    {
      copies := n;
      modified := modified + {CopiesPath};
    }

    /** `updateAvailability`: `available` becomes `copies > 0`. */
    method UpdateAvailability()
      modifies this
      ensures Value() == Refreshed(old(Value()))
      ensures modified == old(modified) + {AvailablePath}
    {
      available := copies > 0;
      modified := modified + {AvailablePath};
    }
  }
}
