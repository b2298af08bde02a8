/** The borrow handlers (borrow.service.ts): the borrow transaction, with its
    five checks in a fixed order, and the per-book borrow summary. */
module BorrowService {
  import opened Common
  import opened Http
  import opened BooksModel
  import opened BorrowsModel
  import opened Store

  /** The body of `POST /api/borrow`. */
  datatype BorrowRequest = BorrowRequest(book: Option<string>, quantity: Option<int>, dueDate: Option<string>)

  const InvalidBookId := HttpError(400, "Invalid book ID", Text("Invalid book ID provided"))
  const QuantityTooLow := HttpError(400, "Quantity must be at least 1", Text("Quantity must be at least 1"))
  const DueDateMissing := HttpError(400, "Due date is required", Text("Due date is required"))
  const BookNotFound := HttpError(404, "Book not found", Text("Book not found"))
  const NotEnoughCopies := HttpError(400, "Not enough copies available", Text("Not enough copies available"))
  const BorrowedMessage := "Book borrowed successfully"

  /** Every check passes: a well-formed id, a quantity of at least 1, a due
      date, a stored book, and at least that many copies of it. */
  predicate Admissible(books: map<BookId, Book>, isValidObjectId: string -> bool, req: BorrowRequest)
  {
    && req.book.Some? && isValidObjectId(req.book.value)
    && req.quantity.Some? && req.quantity.value >= 1
    && Present(req.dueDate)
    && req.book.value in books
    && books[req.book.value].copies >= req.quantity.value
  }

  /** The transaction's verdict: the error of its first failing check, or
      none. It fails exactly when some check fails; every failure is a client
      error, and it is 404 exactly when the request itself is well-formed but
      names no stored book. */
  function BorrowFailure(books: map<BookId, Book>, isValidObjectId: string -> bool, req: BorrowRequest): (e: Option<Thrown>)
    ensures e.None? <==> Admissible(books, isValidObjectId, req)
    ensures e.Some? ==> e.value.HttpError? && e.value.status in {400, 404}
    ensures e.Some? && e.value.status == 404 <==>
      && req.book.Some? && isValidObjectId(req.book.value)
      && req.quantity.Some? && req.quantity.value >= 1 && Present(req.dueDate)
      && req.book.value !in books
  {
    if req.book.None? || !isValidObjectId(req.book.value) then Some(InvalidBookId)
    else if req.quantity.None? || req.quantity.value < 1 then Some(QuantityTooLow)
    else if !Present(req.dueDate) then Some(DueDateMissing)
    else if req.book.value !in books then Some(BookNotFound)
    else if books[req.book.value].copies < req.quantity.value then Some(NotEnoughCopies)
    else None
  }

  /** The transaction's checks as a table, in the order they run: each entry
      says whether the check passes and what it answers when it does not. */
  function Checks(books: map<BookId, Book>, isValidObjectId: string -> bool, req: BorrowRequest): seq<(bool, Thrown)>
  {
    var id := if req.book.Some? then req.book.value else "";
    var q := if req.quantity.Some? then req.quantity.value else 0;
    [ (req.book.Some? && isValidObjectId(id), InvalidBookId),
      (req.quantity.Some? && q >= 1, QuantityTooLow),
      (Present(req.dueDate), DueDateMissing),
      (id in books, BookNotFound),
      (id in books && books[id].copies >= q, NotEnoughCopies) ]
  }

  /** The answer of the first failing check of a table, if any. */
  function FirstFailure(checks: seq<(bool, Thrown)>): Option<Thrown>
  {
    if checks == [] then None
    else if !checks[0].0 then Some(checks[0].1)
    else FirstFailure(checks[1..])
  }

  lemma FirstFailureCons(c: (bool, Thrown), rest: seq<(bool, Thrown)>)
    ensures FirstFailure([c] + rest) == if !c.0 then Some(c.1) else FirstFailure(rest)
  {
    assert ([c] + rest)[1..] == rest;
  }

  /** What a first failure means: that check failed and every earlier one
      passed; and no failure means every check passed. */
  lemma {:induction false} FirstFailureMeans(checks: seq<(bool, Thrown)>)
    ensures FirstFailure(checks).None? <==> forall k :: 0 <= k < |checks| ==> checks[k].0
    ensures FirstFailure(checks).Some? ==>
      exists k :: 0 <= k < |checks| && !checks[k].0 && checks[k].1 == FirstFailure(checks).value
        && forall j :: 0 <= j < k ==> checks[j].0
  {
    if checks != [] && checks[0].0 {
      FirstFailureMeans(checks[1..]);
      if FirstFailure(checks[1..]).Some? {
        var k :| 0 <= k < |checks| - 1 && !checks[1..][k].0 && checks[1..][k].1 == FirstFailure(checks[1..]).value
          && forall j :: 0 <= j < k ==> checks[1..][j].0;
        assert forall j :: 0 <= j < k + 1 ==> checks[j].0 by {
          forall j | 0 <= j < k + 1 ensures checks[j].0 {
            if j > 0 { assert checks[j] == checks[1..][j - 1]; }
          }
        }
      } else {
        forall k | 0 <= k < |checks| ensures checks[k].0 {
          if k > 0 { assert checks[k] == checks[1..][k - 1]; }
        }
      }
    }
  }

  /** The checks run in a fixed order and the first failure wins: the
      transaction's verdict is the first failing entry of the table. */
  lemma ChecksInOrder(books: map<BookId, Book>, isValidObjectId: string -> bool, req: BorrowRequest)
    ensures BorrowFailure(books, isValidObjectId, req) == FirstFailure(Checks(books, isValidObjectId, req))
  {
    var cs := Checks(books, isValidObjectId, req);
    assert cs == [cs[0]] + ([cs[1]] + ([cs[2]] + ([cs[3]] + ([cs[4]] + []))));
    FirstFailureCons(cs[4], []);
    FirstFailureCons(cs[3], [cs[4]]);
    FirstFailureCons(cs[2], [cs[3], cs[4]]);
    FirstFailureCons(cs[1], [cs[2], cs[3], cs[4]]);
    FirstFailureCons(cs[0], [cs[1], cs[2], cs[3], cs[4]]);
  }

  /** A malformed id, a bad quantity or a missing due date is answered
      without regard to the store: the verdict is the same for every store. */
  lemma RequestChecksComeFirst(books: map<BookId, Book>, other: map<BookId, Book>, isValidObjectId: string -> bool, req: BorrowRequest)
    requires !(req.book.Some? && isValidObjectId(req.book.value) && req.quantity.Some? && req.quantity.value >= 1 && Present(req.dueDate))
    ensures BorrowFailure(books, isValidObjectId, req) == BorrowFailure(other, isValidObjectId, req)
    ensures BorrowFailure(books, isValidObjectId, req).value.status == 400
  {
  }

  /** The record the transaction hands to `create` passes the schema and the
      pre-save hook whenever the transaction's own checks pass: the hook's
      re-check is redundant here. */
  lemma CheckedRequestPassesHook(books: map<BookId, Book>, isValidObjectId: string -> bool, req: BorrowRequest)
    requires Admissible(books, isValidObjectId, req)
    ensures NewBorrow(BorrowFields(req.book, req.quantity, req.dueDate)).Success?
    ensures HookFailure(books, NewBorrow(BorrowFields(req.book, req.quantity, req.dueDate)).value).None?
  {
  }

  /** `createBorrow`. On any failing check it passes that check's error on
      and changes nothing; otherwise it appends exactly the record
      `{book, quantity, dueDate}`, takes `quantity` copies from that book
      (whose availability is recomputed), leaves every other book alone and
      answers 201 with the record. The pre-save hook inside `create` takes
      the copies; the handler then sets the same value again on the copy it
      loaded before, so copies are taken once. */
  method CreateBorrow(db: Library, isValidObjectId: string -> bool, req: BorrowRequest) returns (out: Outcome<Borrow>)
    requires db.Valid()
    modifies db
    ensures db.Valid() && db.order == old(db.order)
    ensures BorrowFailure(old(db.books), isValidObjectId, req).Some? ==>
      && out == Next(BorrowFailure(old(db.books), isValidObjectId, req).value)
      && db.books == old(db.books) && db.borrows == old(db.borrows)
    ensures BorrowFailure(old(db.books), isValidObjectId, req).None? ==>
      var rec := Borrow(req.book.value, req.quantity.value, req.dueDate.value);
      && out == Sent(Response(201, SuccessBody(BorrowedMessage, rec)))
      && db.borrows == old(db.borrows) + [rec]
      && db.books == old(db.books)[rec.book := AfterBorrow(old(db.books)[rec.book], rec.quantity)]
  {
    if req.book.None? || !isValidObjectId(req.book.value) {
      return Next(InvalidBookId);
    }
    if req.quantity.None? || req.quantity.value < 1 {
      return Next(QuantityTooLow);
    }
    if !Present(req.dueDate) {
      return Next(DueDateMissing);
    }
    var id, quantity := req.book.value, req.quantity.value;

    var bookDoc := db.FindById(id);
    if bookDoc == null {
      return Next(BookNotFound);
    }
    if bookDoc.copies < quantity {
      return Next(NotEnoughCopies);
    }
    var borrowRecord := Commit(db, bookDoc, req);
    out := Sent(Response(201, SuccessBody(BorrowedMessage, borrowRecord)));
  }

  /** The writes of `createBorrow` once its checks have passed: `create`
      (whose validation and hook both pass), then the save of the document
      loaded before it with `quantity` taken off. That save stores the value
      the hook already stored, so the net effect is one record and one
      `AfterBorrow` of its book. */
  method Commit(db: Library, bookDoc: BookDoc, req: BorrowRequest) returns (borrowRecord: Borrow)
    requires db.Valid()
    requires req.book.Some? && req.quantity.Some? && req.quantity.value >= 1 && Present(req.dueDate)
    requires req.book.value in db.books && db.books[req.book.value].copies >= req.quantity.value
    requires bookDoc.id == req.book.value && bookDoc.Value() == db.books[req.book.value] && bookDoc.modified == {}
    modifies db, bookDoc
    ensures db.Valid() && db.order == old(db.order)
    ensures borrowRecord == Borrow(req.book.value, req.quantity.value, req.dueDate.value)
    ensures db.borrows == old(db.borrows) + [borrowRecord]
    ensures db.books == old(db.books)[borrowRecord.book := AfterBorrow(old(db.books)[borrowRecord.book], borrowRecord.quantity)]
  {
    var id, quantity := req.book.value, req.quantity.value;
    ghost var after := AfterBorrow(db.books[id], quantity);
    ghost var rec := Borrow(id, quantity, req.dueDate.value);
    var fields := BorrowFields(req.book, req.quantity, req.dueDate);
    assert NewBorrow(fields) == Success(rec) && HookFailure(db.books, rec) == None;
    var created := db.CreateBorrowDoc(fields);
    // with the checks passed, neither validation nor the hook can refuse
    assert created.Success? && db.books == old(db.books)[id := after];
    borrowRecord := created.value;

    // `bookDoc.copies -= quantity` on the document loaded before `create`:
    // the hook already stored that very value, and only `copies` is written
    bookDoc.SetCopies(bookDoc.copies - quantity);
    assert bookDoc.modified == {CopiesPath} && bookDoc.copies == after.copies;
    assert Written(after, bookDoc.Value(), {CopiesPath}) == after;
    var saved := db.Save(bookDoc);
  }

  /** A book with no copies left refuses every borrow, whatever the
      quantity, so nothing in this core changes it again. */
  lemma EmptyShelfRefusesBorrow(books: map<BookId, Book>, isValidObjectId: string -> bool, req: BorrowRequest)
    requires req.book.Some? && req.book.value in books && books[req.book.value].copies == 0
    ensures BorrowFailure(books, isValidObjectId, req).Some?
  {
  }

  /** A transaction that succeeds leaves the book with its old copies minus
      the quantity, never below 0, and available exactly when some remain;
      the summary then counts the new record for that book. */
  lemma BorrowOutcome(books: map<BookId, Book>, isValidObjectId: string -> bool, req: BorrowRequest)
    requires forall id :: id in books ==> BookValid(books[id])
    requires BorrowFailure(books, isValidObjectId, req).None?
    ensures var b := books[req.book.value];
      var after := AfterBorrow(b, req.quantity.value);
      && after.copies == b.copies - req.quantity.value && after.copies >= 0
      && after.available == (after.copies > 0)
      && BookValid(after)
  {
  }

  // ---------------------------------------------------------------------
  // The borrow summary: $group by book summing quantity, $lookup of the
  // book, $unwind (dropping groups with no book), $project.

  /** One `$group` output: a book id and the sum of its borrows' quantities. */
  datatype Group = Group(book: BookId, totalQuantity: int)

  function GroupKeys(gs: seq<Group>): seq<BookId>
  {
    if gs == [] then [] else [gs[0].book] + GroupKeys(gs[1..])
  }

  predicate Distinct(ids: seq<BookId>)
  {
    forall i, j :: 0 <= i < j < |ids| ==> ids[i] != ids[j]
  }

  /** The total of the group for `id`, or 0 when there is none. */
  function TotalIn(gs: seq<Group>, id: BookId): int
  {
    if gs == [] then 0
    else if gs[0].book == id then gs[0].totalQuantity
    else TotalIn(gs[1..], id)
  }

  /** Accumulating one record into the groups built so far. */
  function AddToGroups(gs: seq<Group>, r: Borrow): (a: seq<Group>)
    ensures |gs| <= |a| <= |gs| + 1
  {
    if gs == [] then [Group(r.book, r.quantity)]
    else if gs[0].book == r.book then [gs[0].(totalQuantity := gs[0].totalQuantity + r.quantity)] + gs[1..]
    else [gs[0]] + AddToGroups(gs[1..], r)
  }

  /** `$group: { _id: "$book", totalQuantity: { $sum: "$quantity" } }`,
      groups in the order their book first appears. */
  function GroupByBook(bs: seq<Borrow>): (gs: seq<Group>)
    ensures |gs| <= |bs| && (gs == [] <==> bs == [])
  {
    if bs == [] then [] else AddToGroups(GroupByBook(bs[..|bs| - 1]), bs[|bs| - 1])
  }

  lemma DistinctCons(x: BookId, s: seq<BookId>)
    ensures Distinct([x] + s) <==> x !in s && Distinct(s)
  {
    var t := [x] + s;
    assert forall i :: 0 <= i < |s| ==> t[i + 1] == s[i];
    if Distinct(t) {
      forall i, j | 0 <= i < j < |s| ensures s[i] != s[j] {
        assert t[i + 1] != t[j + 1];
      }
      forall k | 0 <= k < |s| ensures s[k] != x {
        assert t[0] != t[k + 1];
      }
    }
    if x !in s && Distinct(s) {
      forall i, j | 0 <= i < j < |t| ensures t[i] != t[j] {
        if i > 0 { assert t[i] == s[i - 1] && t[j] == s[j - 1]; }
        else { assert t[j] == s[j - 1]; }
      }
    }
  }

  lemma {:induction false} AddToGroupsSpec(gs: seq<Group>, r: Borrow)
    requires Distinct(GroupKeys(gs))
    ensures Distinct(GroupKeys(AddToGroups(gs, r)))
    ensures forall id :: id in GroupKeys(AddToGroups(gs, r)) <==> id in GroupKeys(gs) || id == r.book
    ensures forall id :: TotalIn(AddToGroups(gs, r), id) == TotalIn(gs, id) + (if id == r.book then r.quantity else 0)
  {
    var a := AddToGroups(gs, r);
    if gs == [] {
      assert GroupKeys(a) == [r.book];
    } else {
      DistinctCons(gs[0].book, GroupKeys(gs[1..]));
      if gs[0].book == r.book {
        assert a[1..] == gs[1..];
        assert GroupKeys(a) == GroupKeys(gs);
      } else {
        AddToGroupsSpec(gs[1..], r);
        assert a[1..] == AddToGroups(gs[1..], r);
        DistinctCons(gs[0].book, GroupKeys(a[1..]));
      }
    }
  }

  /** The grouping has one group per borrowed book, and each group's total
      is the sum of that book's borrowed quantities. */
  lemma {:induction false} GroupByBookSpec(bs: seq<Borrow>)
    ensures Distinct(GroupKeys(GroupByBook(bs)))
    ensures forall id :: id in GroupKeys(GroupByBook(bs)) <==> Mentions(bs, id)
    ensures forall id :: TotalIn(GroupByBook(bs), id) == TotalBorrowed(bs, id)
  {
    if bs != [] {
      var init, last := bs[..|bs| - 1], bs[|bs| - 1];
      GroupByBookSpec(init);
      AddToGroupsSpec(GroupByBook(init), last);
      forall id ensures Mentions(bs, id) <==> Mentions(init, id) || last.book == id
      {
        if Mentions(bs, id) {
          var k :| 0 <= k < |bs| && bs[k].book == id;
          if k < |init| { assert init[k] == bs[k]; }
        }
        if Mentions(init, id) {
          var k :| 0 <= k < |init| && init[k].book == id;
          assert bs[k] == init[k];
        }
      }
    }
  }

  /** With distinct keys, a group's total is what `TotalIn` finds for it. */
  lemma {:induction false} TotalInMember(gs: seq<Group>, g: Group)
    requires Distinct(GroupKeys(gs)) && g in gs
    ensures TotalIn(gs, g.book) == g.totalQuantity
  {
    DistinctCons(gs[0].book, GroupKeys(gs[1..]));
    if gs[0] != g {
      assert g in gs[1..];
      if gs[0].book == g.book {
        KeyOfMember(gs[1..], g);
        assert false;
      }
      TotalInMember(gs[1..], g);
    }
  }

  lemma {:induction false} KeyOfMember(gs: seq<Group>, g: Group)
    requires g in gs
    ensures g.book in GroupKeys(gs)
  {
    if gs[0] != g {
      KeyOfMember(gs[1..], g);
    }
  }

  /** One `$lookup` output: the group and the books whose `_id` matches. */
  datatype Looked = Looked(group: Group, bookDetails: seq<Book>)

  /** `$lookup: { from: "books", localField: "_id", foreignField: "_id" }`. */
  function LookupBooks(gs: seq<Group>, books: map<BookId, Book>): (ls: seq<Looked>)
    ensures |ls| == |gs|
    ensures forall i :: 0 <= i < |gs| ==>
      && ls[i].group == gs[i]
      && ls[i].bookDetails == if gs[i].book in books then [books[gs[i].book]] else []
  {
    if gs == [] then []
    else [Looked(gs[0], if gs[0].book in books then [books[gs[0].book]] else [])] + LookupBooks(gs[1..], books)
  }

  /** `$unwind: "$bookDetails"`: one output per matched book; a group that
      matched none produces nothing (no `preserveNullAndEmptyArrays`). */
  function Unwind(ls: seq<Looked>): (us: seq<(Group, Book)>)
    ensures (forall i :: 0 <= i < |ls| ==> |ls[i].bookDetails| <= 1) ==> |us| <= |ls|
    ensures (forall i :: 0 <= i < |ls| ==> ls[i].bookDetails == []) ==> us == []
  {
    if ls == [] then []
    else seq(|ls[0].bookDetails|, i requires 0 <= i < |ls[0].bookDetails| => (ls[0].group, ls[0].bookDetails[i]))
         + Unwind(ls[1..])
  }

  /** The `book` of a summary entry: title and isbn only. */
  datatype BookRef = BookRef(title: string, isbn: string)

  datatype SummaryEntry = SummaryEntry(book: BookRef, totalQuantity: int)

  /** `$project: { _id: 0, totalQuantity: 1, book: { title, isbn } }`. */
  function Project(us: seq<(Group, Book)>): (es: seq<SummaryEntry>)
    ensures |es| == |us|
    ensures forall i :: 0 <= i < |us| ==>
      es[i] == SummaryEntry(BookRef(us[i].1.title, us[i].1.isbn), us[i].0.totalQuantity)
  {
    if us == [] then []
    else [SummaryEntry(BookRef(us[0].1.title, us[0].1.isbn), us[0].0.totalQuantity)] + Project(us[1..])
  }

  /** The whole aggregation pipeline: at most one entry per borrow record,
      and none at all for an empty ledger. */
  function Summary(bs: seq<Borrow>, books: map<BookId, Book>): (es: seq<SummaryEntry>)
    ensures |es| <= |bs|
  {
    GroupByBookSpec(bs);
    JoinedSpec(GroupByBook(bs), books);
    Project(Unwind(LookupBooks(GroupByBook(bs), books)))
  }

  /** The groups that survive the `$unwind`: those whose book is stored. */
  function Joined(gs: seq<Group>, books: map<BookId, Book>): (js: seq<Group>)
    ensures |js| <= |gs|
    ensures forall i :: 0 <= i < |js| ==> js[i].book in books
  {
    if gs == [] then []
    else if gs[0].book in books then [gs[0]] + Joined(gs[1..], books)
    else Joined(gs[1..], books)
  }

  /** The groups that survive keep distinct keys, and they are exactly the
      groups whose book is stored. */
  lemma {:induction false} JoinedSpec(gs: seq<Group>, books: map<BookId, Book>)
    requires Distinct(GroupKeys(gs))
    ensures Distinct(GroupKeys(Joined(gs, books)))
    ensures forall g :: g in Joined(gs, books) ==> g in gs && g.book in books
    ensures forall id :: id in GroupKeys(Joined(gs, books)) <==> id in GroupKeys(gs) && id in books
    ensures |Project(Unwind(LookupBooks(gs, books)))| == |Joined(gs, books)|
    ensures forall i :: 0 <= i < |Joined(gs, books)| ==>
      var g := Joined(gs, books)[i];
      Project(Unwind(LookupBooks(gs, books)))[i] == SummaryEntry(BookRef(books[g.book].title, books[g.book].isbn), g.totalQuantity)
  {
    JoinedKeys(gs, books);
    JoinedProjection(gs, books);
  }

  lemma {:induction false} JoinedKeys(gs: seq<Group>, books: map<BookId, Book>)
    requires Distinct(GroupKeys(gs))
    ensures Distinct(GroupKeys(Joined(gs, books)))
    ensures forall g :: g in Joined(gs, books) ==> g in gs && g.book in books
    ensures forall id :: id in GroupKeys(Joined(gs, books)) <==> id in GroupKeys(gs) && id in books
  {
    if gs != [] {
      DistinctCons(gs[0].book, GroupKeys(gs[1..]));
      JoinedKeys(gs[1..], books);
      if gs[0].book in books {
        var j := Joined(gs, books);
        assert j[1..] == Joined(gs[1..], books);
        DistinctCons(gs[0].book, GroupKeys(j[1..]));
      }
    }
  }

  /** `$lookup`, `$unwind` and `$project` give one entry per surviving
      group: its book's title and isbn with the group's total. */
  lemma JoinedProjection(gs: seq<Group>, books: map<BookId, Book>)
    ensures |Project(Unwind(LookupBooks(gs, books)))| == |Joined(gs, books)|
    ensures forall i :: 0 <= i < |Joined(gs, books)| ==>
      var g := Joined(gs, books)[i];
      Project(Unwind(LookupBooks(gs, books)))[i] == SummaryEntry(BookRef(books[g.book].title, books[g.book].isbn), g.totalQuantity)
  {
    UnwindJoined(gs, books);
  }

  /** `$lookup` then `$unwind` pairs each surviving group with its book. */
  lemma {:induction false} UnwindJoined(gs: seq<Group>, books: map<BookId, Book>)
    ensures var us := Unwind(LookupBooks(gs, books));
      var js := Joined(gs, books);
      |us| == |js| && forall i :: 0 <= i < |js| ==> us[i] == (js[i], books[js[i].book])
  {
    if gs != [] {
      UnwindJoined(gs[1..], books);
      var ls := LookupBooks(gs, books);
      assert ls[1..] == LookupBooks(gs[1..], books);
      var rest := Unwind(LookupBooks(gs[1..], books));
      if gs[0].book in books {
        assert ls[0] == Looked(gs[0], [books[gs[0].book]]);
        var j := Joined(gs, books);
        assert j == [gs[0]] + Joined(gs[1..], books);
        assert Unwind(ls) == [(gs[0], books[gs[0].book])] + rest;
      } else {
        assert ls[0] == Looked(gs[0], []);
        assert Unwind(ls) == rest;
      }
    }
  }

  /** The books the summary reports on, in its order. */
  function SummarizedBooks(bs: seq<Borrow>, books: map<BookId, Book>): seq<BookId>
  {
    GroupKeys(Joined(GroupByBook(bs), books))
  }

  lemma {:induction false} KeysAt(gs: seq<Group>, i: nat)
    requires i < |gs|
    ensures |GroupKeys(gs)| == |gs| && GroupKeys(gs)[i] == gs[i].book
  {
    if i > 0 { KeysAt(gs[1..], i - 1); } else if |gs| > 1 { KeysAt(gs[1..], 0); }
  }

  lemma {:induction false} KeysLength(gs: seq<Group>)
    ensures |GroupKeys(gs)| == |gs|
  {
    if gs != [] { KeysLength(gs[1..]); }
  }

  /** The summary has exactly one entry per book that was borrowed and is
      still stored — never-borrowed books and groups whose book is gone are
      absent — and each entry carries only the book's title and isbn and the
      sum of the quantities of its borrows. */
  lemma SummaryCorrect(bs: seq<Borrow>, books: map<BookId, Book>)
    ensures Distinct(SummarizedBooks(bs, books))
    ensures forall id :: id in SummarizedBooks(bs, books) <==>
      id in books && Mentions(bs, id)
    ensures |Summary(bs, books)| == |SummarizedBooks(bs, books)|
    ensures forall i :: 0 <= i < |Summary(bs, books)| ==>
      var id := SummarizedBooks(bs, books)[i];
      Summary(bs, books)[i] == SummaryEntry(BookRef(books[id].title, books[id].isbn), TotalBorrowed(bs, id))
  {
    var gs := GroupByBook(bs);
    GroupByBookSpec(bs);
    JoinedSpec(gs, books);
    var js := Joined(gs, books);
    KeysLength(js);
    forall i | 0 <= i < |js|
      ensures SummarizedBooks(bs, books)[i] == js[i].book
      ensures js[i].totalQuantity == TotalBorrowed(bs, js[i].book)
    {
      KeysAt(js, i);
      assert js[i] in js;
      TotalInMember(gs, js[i]);
    }
  }

  /** With no borrows at all the summary is empty. */
  lemma EmptyLedgerSummary(books: map<BookId, Book>)
    ensures Summary([], books) == []
  {
  }

  /** In a consistent store every borrowed book is still stored, so each
      borrowed book has its entry, and the entry's total is exactly the
      copies the book has lost since it was created. */
  lemma SummaryReflectsStock(db: Library)
    requires db.Valid()
    ensures forall id :: id in SummarizedBooks(db.borrows, db.books) <==>
      Mentions(db.borrows, id)
    ensures |Summary(db.borrows, db.books)| == |SummarizedBooks(db.borrows, db.books)|
    ensures forall i :: 0 <= i < |SummarizedBooks(db.borrows, db.books)| ==>
      var id := SummarizedBooks(db.borrows, db.books)[i];
      id in db.books && Summary(db.borrows, db.books)[i].totalQuantity == db.stocked[id] - db.books[id].copies
  {
    SummaryCorrect(db.borrows, db.books);
  }

  const SummaryMessage := "Borrowed books summary retrieved successfully"

  /** `borrowedBookSummery`: 200 with the summary, or the store's failure
      passed on to the shared error handler. */
  function BorrowedBookSummary(bs: seq<Borrow>, books: map<BookId, Book>, failure: Option<Thrown>): (out: Outcome<seq<SummaryEntry>>)
    ensures failure.Some? ==> Respond(out) == HandleError(failure.value)
    ensures failure.None? ==>
      && out == Sent(Response(200, SuccessBody(SummaryMessage, Summary(bs, books))))
      && |out.response.body.data| == |SummarizedBooks(bs, books)|
  {
    SummaryCorrect(bs, books);
    if failure.Some? then Next(failure.value)
    else Sent(Response(200, SuccessBody(SummaryMessage, Summary(bs, books))))
  }
}
