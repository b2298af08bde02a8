/** A worked session against an empty store: one book with three copies,
    a borrow of two, then a second borrow of two that the stock refuses. */
module Scenarios {
  import opened Common
  import opened Http
  import opened BooksModel
  import opened BorrowsModel
  import opened Store
  import opened BooksService
  import opened BorrowService

  const DuneId := "64f1c2a9e4b0a1b2c3d4e5f6"

  /** A stand-in for `isValidObjectId`: 24 hexadecimal digits, one of the
      forms Mongoose accepts. */
  function HexId(s: string): bool
  {
    |s| == 24 && forall i :: 0 <= i < |s| ==> s[i] in "0123456789abcdefABCDEF"
  }

  const Dune := Book("Dune", "Herbert", SCIENCE, "111", None, 3, true, 1)

  /** Posting Dune with 3 copies to an empty store answers 201 and stores
      it, available, under its id. */
  method PostDune(db: Library) returns (created: Outcome<Book>)
    requires db.Valid() && db.books == map[] && db.borrows == []
    modifies db
    ensures db.Valid() && db.books == map[DuneId := Dune] && db.borrows == []
    ensures created == Sent(Response(201, SuccessBody(CreatedMessage, Dune)))
  {
    GenreEnumeration(SCIENCE);
    var body := BookBody(Some("Dune"), Some("Herbert"), Some("SCIENCE"), Some("111"), None, Some(3), None);
    assert GenreName(SCIENCE) == "SCIENCE";
    assert NewBook(Whitelist(body), 1) == Success(Dune);
    assert !IsbnTaken(db.books, "111");
    created := PostBooks(db, body, DuneId, 1);
  }

  /** Create Dune with 3 copies, borrow 2 (201; 1 copy left, still
      available), then ask for 2 more, which the stock check refuses. */
  method DuneScenario() returns (created: Outcome<Book>, first: Outcome<Borrow>, second: Outcome<Borrow>, remaining: Book)
    ensures created.Sent? && created.response.status == 201
    ensures first == Sent(Response(201, SuccessBody(BorrowedMessage, Borrow(DuneId, 2, "2025-01-01"))))
    ensures second == Next(NotEnoughCopies)
    ensures remaining.copies == 1 && remaining.available
  {
    var db := new Library();
    created := PostDune(db);

    var request := BorrowRequest(Some(DuneId), Some(2), Some("2025-01-01"));
    assert BorrowFailure(db.books, HexId, request).None?;
    first := CreateBorrow(db, HexId, request);
    assert db.books == map[DuneId := AfterBorrow(Dune, 2)];

    var again := BorrowRequest(Some(DuneId), Some(2), Some("2025-01-02"));
    assert BorrowFailure(db.books, HexId, again) == Some(NotEnoughCopies);
    second := CreateBorrow(db, HexId, again);
    remaining := db.books[DuneId];
  }
}
