/** The document store the services talk to: the `books` collection (keyed
    by id, in insertion order) and the `borrows` ledger, with the store-side
    operations this core uses — find a book by id, save a loaded document,
    insert a book under the unique isbn index, and create a borrow record
    through the borrow schema's validation and pre-save hook. */
module Store {
  import opened Common
  import opened BooksModel
  import opened BorrowsModel

  /** What a `save` of a loaded document writes: only the paths it changed. */
  function Written(stored: Book, doc: Book, paths: set<BookPath>): Book
  {
    stored.(copies := if CopiesPath in paths then doc.copies else stored.copies,
            available := if AvailablePath in paths then doc.available else stored.available)
  }

  /** The books of `ids`, in that order. */
  function Lookup(ids: seq<BookId>, books: map<BookId, Book>): (c: seq<Book>)
    requires forall id :: id in ids ==> id in books
    ensures |c| == |ids| && forall i :: 0 <= i < |ids| ==> c[i] == books[ids[i]]
  {
    if ids == [] then [] else [books[ids[0]]] + Lookup(ids[1..], books)
  }

  /** Some stored book already has this isbn. */
  predicate IsbnTaken(books: map<BookId, Book>, isbn: string)
  {
    exists id :: id in books && books[id].isbn == isbn
  }

  /** The unique index's refusal (the driver's full text also names the
      database, which is configuration). */
  function DuplicateIsbn(isbn: string): Thrown
  {
    PlainError("E11000 duplicate key error collection: books index: isbn_1 dup key: { isbn: \"" + isbn + "\" }")
  }

  const CopiesBelowZero := PlainError(ValidationMessage("Book", [Violation("copies", "Copies must be a non-negative number")]))

  /** How `available` relates to stock for a book `lent` copies of which are
      out: never borrowed, it still holds the creation default `true`;
      borrowed, it was last recomputed from `copies`. */
  predicate AvailabilityAgrees(b: Book, lent: int)
  {
    if lent == 0 then b.available else b.available == (b.copies > 0)
  }

  /** The ids in `order` are distinct and are exactly the stored books. */
  ghost predicate OrderMatches(order: seq<BookId>, books: map<BookId, Book>)
  {
    && (forall i, j :: 0 <= i < j < |order| ==> order[i] != order[j])
    && (forall id :: id in books <==> id in order)
  }

  /** Every stored book and record obeys its schema, isbns are unique and
      every record names a stored book. */
  ghost predicate SchemasHold(books: map<BookId, Book>, borrows: seq<Borrow>)
  {
    && (forall id :: id in books ==> BookValid(books[id]))
    && IsbnUnique(books)
    && (forall k :: 0 <= k < |borrows| ==> BorrowValid(borrows[k]) && borrows[k].book in books)
  }

  /** Stock is conserved: a book's copies plus the copies lent out on it equal
      the copies it was created with, so no record exists without its
      decrement and no decrement without its record; and `available` agrees
      with the book's history. */
  ghost predicate StockConserved(books: map<BookId, Book>, borrows: seq<Borrow>, stocked: map<BookId, int>)
  {
    && stocked.Keys == books.Keys
    && (forall id :: id in books ==> books[id].copies + TotalBorrowed(borrows, id) == stocked[id])
    && (forall id :: id in books ==> AvailabilityAgrees(books[id], TotalBorrowed(borrows, id)))
  }

  /** A new valid book under an unused id and an unused isbn, with
      `available` at its default, keeps the store's invariant. */
  lemma {:induction false} InsertKeepsInvariant(
    books: map<BookId, Book>, order: seq<BookId>, borrows: seq<Borrow>, stocked: map<BookId, int>,
    id: BookId, b: Book)
    requires OrderMatches(order, books) && SchemasHold(books, borrows) && StockConserved(books, borrows, stocked)
    requires id !in books && BookValid(b) && b.available && !IsbnTaken(books, b.isbn)
    ensures OrderMatches(order + [id], books[id := b])
    ensures SchemasHold(books[id := b], borrows)
    ensures StockConserved(books[id := b], borrows, stocked[id := b.copies])
  {
    assert forall k :: 0 <= k < |borrows| ==> borrows[k].book != id;
    TotalBorrowedZero(borrows, id);
    var order', books' := order + [id], books[id := b];
    assert forall i :: 0 <= i < |order| ==> order'[i] == order[i];
    assert forall id' :: id' in order' <==> id' in order || id' == id;
  }

  /** A valid record for a stored book holding enough copies, appended
      together with the hook's write to that book, keeps the schema rules. */
  lemma {:induction false} BorrowKeepsSchemas(books: map<BookId, Book>, borrows: seq<Borrow>, rec: Borrow)
    requires SchemasHold(books, borrows)
    requires BorrowValid(rec) && rec.book in books && books[rec.book].copies >= rec.quantity
    ensures SchemasHold(books[rec.book := AfterBorrow(books[rec.book], rec.quantity)], borrows + [rec])
  {
    var books' := books[rec.book := AfterBorrow(books[rec.book], rec.quantity)];
    var borrows' := borrows + [rec];
    assert forall i :: i in books' ==> books'[i].isbn == books[i].isbn;
    assert forall k :: 0 <= k < |borrows| ==> borrows'[k] == borrows[k];
  }

  /** The same step conserves stock: the record adds to its book's lent
      total exactly what the write takes from its copies, and the book's
      availability is recomputed now that it has been borrowed. */
  lemma {:induction false} BorrowKeepsStock(
    books: map<BookId, Book>, borrows: seq<Borrow>, stocked: map<BookId, int>, rec: Borrow)
    requires SchemasHold(books, borrows) && StockConserved(books, borrows, stocked)
    requires BorrowValid(rec) && rec.book in books
    ensures StockConserved(books[rec.book := AfterBorrow(books[rec.book], rec.quantity)], borrows + [rec], stocked)
  {
    var books' := books[rec.book := AfterBorrow(books[rec.book], rec.quantity)];
    var borrows' := borrows + [rec];
    forall id | id in books'
      ensures books'[id].copies + TotalBorrowed(borrows', id) == stocked[id]
      ensures AvailabilityAgrees(books'[id], TotalBorrowed(borrows', id))
    {
      TotalBorrowedAppend(borrows, rec, id);
      TotalBorrowedZero(borrows, id);
    }
  }

  class Library {
    var books: map<BookId, Book>
    /** The collection's natural order: ids in insertion order. */
    var order: seq<BookId>
    var borrows: seq<Borrow>
    /** The copies each book was created with. */
    ghost var stocked: map<BookId, int>

    /** The store's invariant. */
    ghost predicate Valid()
      reads this
    {
      OrderMatches(order, books) && SchemasHold(books, borrows) && StockConserved(books, borrows, stocked)
    }

    /** An empty store. */
    constructor ()
      ensures Valid() && books == map[] && order == [] && borrows == []
    {
      books, order, borrows := map[], [], [];
      stocked := map[];
    }

    /** The collection in its natural order. */
    function Catalog(): (c: seq<Book>)
      reads this
      requires Valid()
      ensures |c| == |order| && forall i :: 0 <= i < |order| ==> c[i] == books[order[i]]
    {
      Lookup(order, books)
    }

    /** `findById`: a fresh document holding the stored book, or none. */
    method FindById(id: BookId) returns (doc: BookDoc?)
      ensures doc == null <==> id !in books
      ensures doc != null ==> fresh(doc) && doc.id == id && doc.Value() == books[id] && doc.modified == {}
    {
      doc := null;
      if id in books {
        doc := new BookDoc.Load(id, books[id]);
      }
    }

    /** `save` of a loaded document: validation of `copies`, then a write of
        the changed paths only. Nothing is deleted in this model, so a loaded
        document's book is still there. */
    method Save(doc: BookDoc) returns (err: Option<Thrown>)
      requires doc.id in books
      modifies this
      ensures doc.copies < 0 ==> err == Some(CopiesBelowZero) && books == old(books)
      ensures doc.copies >= 0 ==>
        err == None && books == old(books)[doc.id := Written(old(books)[doc.id], doc.Value(), doc.modified)]
      ensures order == old(order) && borrows == old(borrows) && stocked == old(stocked)
      ensures doc.copies >= 0 && Written(old(books)[doc.id], doc.Value(), doc.modified) == old(books)[doc.id] ==>
        books == old(books)
    {
      if doc.copies < 0 {
        return Some(CopiesBelowZero);
      }
      books := books[doc.id := Written(books[doc.id], doc.Value(), doc.modified)];
      err := None;
    }

    /** Insertion of a new book document (valid, `available` at its default)
        under the unique index on isbn. The id is the fresh one the driver
        generated. */
    method InsertBook(id: BookId, b: Book) returns (err: Option<Thrown>)
      requires Valid() && id !in books && BookValid(b) && b.available
      modifies this
      ensures Valid()
      ensures IsbnTaken(old(books), b.isbn) ==>
        err == Some(DuplicateIsbn(b.isbn)) && books == old(books) && order == old(order)
      ensures !IsbnTaken(old(books), b.isbn) ==>
        err == None && books == old(books)[id := b] && order == old(order) + [id]
      ensures borrows == old(borrows)
    {
      if IsbnTaken(books, b.isbn) {
        return Some(DuplicateIsbn(b.isbn));
      }
      InsertKeepsInvariant(books, order, borrows, stocked, id, b);
      books := books[id := b];
      order := order + [id];
      stocked := stocked[id := b.copies];
      err := None;
    }

    /** `borrowsModel.create`: schema validation, then the pre-save hook —
        find the book, refuse when it is missing or short of copies, else
        take `quantity` copies, recompute availability and save the book —
        then the insertion of the record. */
    method CreateBorrowDoc(f: BorrowFields) returns (r: Result<Borrow, Thrown>)
      requires Valid()
      modifies this
      ensures Valid() && order == old(order)
      ensures NewBorrow(f).Failure? ==>
        r == Failure(NewBorrow(f).error) && books == old(books) && borrows == old(borrows)
      ensures NewBorrow(f).Success? && HookFailure(old(books), NewBorrow(f).value).Some? ==>
        && r == Failure(HookFailure(old(books), NewBorrow(f).value).value)
        && books == old(books) && borrows == old(borrows)
      ensures NewBorrow(f).Success? && HookFailure(old(books), NewBorrow(f).value).None? ==>
        var rec := NewBorrow(f).value;
        && r == Success(rec)
        && borrows == old(borrows) + [rec]
        && books == old(books)[rec.book := AfterBorrow(old(books)[rec.book], rec.quantity)]
    {
      var validated := NewBorrow(f);
      if validated.Failure? {
        return Failure(validated.error);
      }
      var rec := validated.value;

      // the pre("save") hook
      var bookDoc := FindById(rec.book);
      if bookDoc == null {
        return Failure(HookBookNotFound);
      }
      if bookDoc.copies < rec.quantity {
        return Failure(HookNotEnoughCopies);
      }
      bookDoc.SetCopies(bookDoc.copies - rec.quantity);
      bookDoc.UpdateAvailability();
      var saved := Save(bookDoc);
      assert saved == None && books == old(books)[rec.book := AfterBorrow(old(books)[rec.book], rec.quantity)];

      // next(): the record itself is inserted
      borrows := borrows + [rec];
      r := Success(rec);

      BorrowKeepsSchemas(old(books), old(borrows), rec);
      BorrowKeepsStock(old(books), old(borrows), stocked, rec);
    }
  }
}
