/** The borrow schema (borrows.model.ts): the rules on a borrow record, the
    checks of its pre-save hook, what the hook writes to the book, and the
    per-book sums over the borrow ledger. The hook itself, which loads and
    saves through the store, is `Store.Library.CreateBorrowDoc`. */
module BorrowsModel {
  import opened Common
  import opened BooksModel

  /** A stored borrow record. The due date is kept as the text it came in. */
  datatype Borrow = Borrow(book: BookId, quantity: int, dueDate: string)

  /** The schema rules a stored record obeys: a quantity of at least 1 and a
      due date (the book reference is required by its type). */
  predicate BorrowValid(r: Borrow)
  {
    r.quantity >= 1 && |r.dueDate| > 0
  }

  /** The three fields handed to `create`. */
  datatype BorrowFields = BorrowFields(book: Option<BookId>, quantity: Option<int>, dueDate: Option<string>)

  /** The schema's verdict on each path, in the schema's order. Paths without
      a message of their own get Mongoose's default `required` message. */
  function BorrowViolations(f: BorrowFields): seq<Violation>
  {
    (if f.book.Some? then [] else [Violation("book", "Path `book` is required.")])
    + (if f.quantity.None? then [Violation("quantity", "Path `quantity` is required.")]
       else if f.quantity.value < 1 then [Violation("quantity", "Quantity must be at least 1")]
       else [])
    + (if Present(f.dueDate) then [] else [Violation("dueDate", "Path `dueDate` is required.")])
  }

  /** Validation before saving: the record is built exactly when book,
      quantity and due date are there and the quantity is at least 1. */
  function NewBorrow(f: BorrowFields): (r: Result<Borrow, Thrown>)
    ensures r.Success? <==> f.book.Some? && f.quantity.Some? && f.quantity.value >= 1 && Present(f.dueDate)
    ensures r.Success? ==>
      BorrowValid(r.value) && r.value == Borrow(f.book.value, f.quantity.value, f.dueDate.value)
    ensures r.Failure? ==> r.error.PlainError?
  {
    var vs := BorrowViolations(f);
    if vs != [] then Failure(PlainError(ValidationMessage("Borrow", vs)))
    else Success(Borrow(f.book.value, f.quantity.value, f.dueDate.value))
  }

  const HookBookNotFound := PlainError("Book not found")
  const HookNotEnoughCopies := PlainError("Not enough copies available")

  /** The pre-save hook's two checks, in its order: the book must exist, then
      it must hold at least the quantity. It lets the record through exactly
      when both hold. */
  function HookFailure(books: map<BookId, Book>, r: Borrow): (e: Option<Thrown>)
    ensures e.None? <==> r.book in books && books[r.book].copies >= r.quantity
    ensures r.book !in books ==> e == Some(HookBookNotFound)
    ensures r.book in books && books[r.book].copies < r.quantity ==> e == Some(HookNotEnoughCopies)
  {
    if r.book !in books then Some(HookBookNotFound)
    else if books[r.book].copies < r.quantity then Some(HookNotEnoughCopies)
    else None
  }

  /** The book as the hook leaves it: `quantity` copies fewer and
      availability recomputed. Only those two fields change, and a valid book
      holding enough copies stays valid (its copies stay at or above 0). */
  function AfterBorrow(b: Book, q: int): (r: Book)
    ensures r.copies == b.copies - q && r.available == (r.copies > 0)
    ensures r.(copies := b.copies, available := b.available) == b
    ensures BookValid(b) && q <= b.copies ==> BookValid(r)
  {
    Refreshed(b.(copies := b.copies - q))
  }

  /** Some record of the ledger is for book `id`. */
  predicate Mentions(bs: seq<Borrow>, id: BookId)
  {
    exists k :: 0 <= k < |bs| && bs[k].book == id
  }

  /** The sum of the quantities of the ledger's records for book `id`. */
  function TotalBorrowed(bs: seq<Borrow>, id: BookId): int
  {
    if bs == [] then 0
    else
      var last := bs[|bs| - 1];
      TotalBorrowed(bs[..|bs| - 1], id) + (if last.book == id then last.quantity else 0)
  }

  /** Appending a record adds its quantity to its own book's total only. */
  lemma TotalBorrowedAppend(bs: seq<Borrow>, r: Borrow, id: BookId)
    ensures TotalBorrowed(bs + [r], id) == TotalBorrowed(bs, id) + (if r.book == id then r.quantity else 0)
  {
    assert (bs + [r])[..|bs|] == bs;
  }

  /** Over a ledger of valid records a book's total is never negative, and it
      is zero exactly when the book was never borrowed. */
  lemma {:induction false} TotalBorrowedZero(bs: seq<Borrow>, id: BookId)
    requires forall k :: 0 <= k < |bs| ==> BorrowValid(bs[k])
    ensures TotalBorrowed(bs, id) >= 0
    ensures TotalBorrowed(bs, id) == 0 <==> !Mentions(bs, id)
  {
    if bs != [] {
      var init := bs[..|bs| - 1];
      TotalBorrowedZero(init, id);
      assert forall k :: 0 <= k < |init| ==> init[k] == bs[k];
    }
  }
}
