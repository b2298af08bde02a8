# lms-api — a Dafny model of the library API's core

lms-api is a small library-management REST API written in TypeScript with
Express and Mongoose. Clients create and list books and borrow copies of
them. This project models its core:

- the **borrow transaction** `createBorrow`. It runs five checks in a fixed
  order, each with its own error. It then creates the borrow record through
  the borrow schema's validation and `pre("save")` hook, which takes the
  copies and recomputes `available`. Finally it writes `copies` once more on
  the document it loaded earlier.
- the **borrow summary** `borrowedBookSummery`. This is a `$group` /
  `$lookup` / `$unwind` / `$project` pipeline over the borrow ledger.
- the **book schema**: the six-value `Genre` enum, the field rules and
  their messages, the unique index on `isbn`, the `available` default, and
  `updateAvailability`.
- the **book handlers**: `postBooks`, which whitelists six fields, and
  `getAllBooks`, which filters by genre, sorts by `createdAt`, applies a
  limit, and answers its own 500.
- the **application shell**: the 404 fallback for unmatched routes and the
  shared error handler that turns anything thrown into the
  `{message, success: false, error}` envelope.

Modules follow the source files:

- `Common`: options, results, thrown values, and Mongoose's validation
  message.
- `Http`: `app.ts`.
- `BooksModel`: `books.model.ts`.
- `BorrowsModel`: `borrows.model.ts`.
- `Store`: the document store. This is the `Library` class, holding the
  `books` map, the insertion order and the `borrows` ledger. It carries
  `findById`, `save`, `create` and the pre-save hook.
- `BorrowService`: `borrow.service.ts`.
- `BooksService`: `books.service.ts`.
- `Scenarios`: a worked session.

A loaded book document is the class `BooksModel.BookDoc`. It remembers
which paths were changed, and `Library.Save` writes only those paths, as
Mongoose does. This is why the handler's second write, `bookDoc.copies -=
quantity` on a document loaded *before* the hook ran, stores the same
value the hook stored. Copies are therefore taken once, and the `available`
the hook computed is not overwritten.

The store invariant `Library.Valid()` is required and kept by the store's
operations `InsertBook` and `CreateBorrowDoc`, and by the handlers built on
them. `Library.Save` and `Library.FindById` are primitives that do not
mention it. The invariant says:

- every book and record obeys its schema;
- isbns are unique;
- every record names a stored book;
- stock is conserved: for each book, `copies` plus the quantities lent out
  on it equals the copies it was created with (a ghost map `stocked`);
- `available` is still `true` for a never-borrowed book, and equals
  `copies > 0` for a borrowed one.

Three behaviours of the code are worth stating outright:

- Mongoose validation errors and E11000 duplicate-key errors are plain
  `Error`s, not `http-errors` values. The shared handler
  (src/app.ts:48-49) therefore answers them with 500 and their own message.
  See `BooksModel.NewBook`, `Store.DuplicateIsbn` and
  `BooksService.PostFailuresAnswer500`.
- `available` is only a schema default (`true`), and nothing recomputes it
  at creation. A book created with 0 copies is therefore available. No
  borrow of it can pass the stock check (`BorrowService.EmptyShelfRefusesBorrow`),
  so in this core it stays available for good. See `Store.AvailabilityAgrees`.
- The five borrow checks answer 400 or 404 through `next(createHttpError(…))`.

## Model

| member | source | states |
|---|---|---|
| Http.HandleError | src/app.ts:36-59 | The envelope never says success. An http-errors value keeps its own status, message and details. Any other Error gives 500, its message and null details. A non-Error gives 500, "Unknown error has occurred" and null. |
| Http.UnmatchedRouteAnswer | src/app.ts:31-33 | Every unmatched route answers 404 "endpoints not found" with no `error` property. |
| Http.Respond | src/app.ts:31-59 | A handler's own response reaches the client unchanged, and anything passed to `next` goes through the shared error handler. |
| Http.ErrorsNeverSucceed | src/app.ts:36-59 | Whatever is passed to `next` never yields a success envelope. A 2xx status can only come from an HTTP error that carried it. |
| BooksModel.ParseGenre | src/app/models/books.model.ts:3-10 | A string names a genre exactly when it equals one of the enum's values, and the answer is that member. |
| BooksModel.GenreEnumeration | src/app/models/books.model.ts:3-10 | Genre has six members with six distinct values, and parsing a member's value returns that member. |
| BooksModel.NewBook | src/app/models/books.model.ts:18-53 | Creation succeeds exactly when title, author and isbn are non-empty, genre is one of the six values and copies is present and at least 0. On success the book carries exactly the given fields, is valid and has `available` true whatever the copies. A failure is a plain Error. |
| BooksModel.BookValid | src/app/models/books.model.ts:20-48 | A stored book has a non-empty title, author and isbn and at least 0 copies. Its genre is a member by type. |
| BooksModel.IsbnUnique | src/app/models/books.model.ts:36-40 | No two stored books share an isbn. |
| BooksModel.RefreshedProperties | src/app/models/books.model.ts:57-59 | Recomputing availability sets `available` to `copies > 0`, changes nothing else, keeps validity and is idempotent. |
| BooksModel.BookDoc.SetCopies | src/app/models/borrows.model.ts:35 | Assigning `copies` on a loaded document changes only that path and marks it modified. |
| BooksModel.BookDoc.UpdateAvailability | src/app/models/books.model.ts:57-59 | The document's value becomes its availability-recomputed value, and `available` is marked modified. |
| BorrowsModel.NewBorrow | src/app/models/borrows.model.ts:4-22 | Validation passes exactly when book, quantity of at least 1 and due date are all present. The record is then exactly `{book, quantity, dueDate}` and valid. A failure is a plain Error. |
| BorrowsModel.HookFailure | src/app/models/borrows.model.ts:24-33 | The hook lets a record through exactly when its book is stored and holds at least its quantity. A missing book is refused with "Book not found", and a short stock with "Not enough copies available". |
| BorrowsModel.AfterBorrow | src/app/models/borrows.model.ts:35-37 | The hook's write takes `quantity` from copies, sets `available` to `copies > 0` and changes nothing else. A valid book holding enough copies stays valid. |
| BorrowsModel.TotalBorrowedAppend | src/app/services/borrow.service.ts:77-82 | Appending a record adds its quantity to its own book's sum and to no other. |
| BorrowsModel.TotalBorrowedZero | src/app/services/borrow.service.ts:77-82 | Over valid records a book's sum is never negative, and is 0 exactly when no record names the book. |
| Store.InsertKeepsInvariant | src/app/models/books.model.ts:36-52 | A valid, available new book with an unused id and isbn keeps the store invariant, including isbn uniqueness and stock conservation. |
| Store.BorrowKeepsSchemas | src/app/models/borrows.model.ts:24-39 | A valid record for a stored book holding enough copies, appended together with the hook's write, keeps every schema rule, isbn uniqueness and the rule that every record names a stored book. |
| Store.BorrowKeepsStock | src/app/models/borrows.model.ts:24-39 | The same step conserves stock, because the record adds to the lent total exactly what the write takes from copies. The borrowed book's `available` then agrees with its copies. |
| Store.Library.FindById | src/app/services/borrow.service.ts:36-37 | Returns a fresh unmodified document holding the stored book exactly when the id is stored, and null otherwise. |
| Store.Library.Save | src/app/models/borrows.model.ts:37 | A document with copies below 0 is refused with the schema's message and nothing is written. Otherwise only the modified paths are written to that book, and nothing else changes. |
| Store.Library.InsertBook | src/app/models/books.model.ts:36-40 | A taken isbn is refused with the E11000 duplicate-key error and nothing changes. Otherwise the book is stored under its id and appended to the natural order. The invariant is kept. |
| Store.Library.CreateBorrowDoc | src/app/models/borrows.model.ts:24-40 | Validation failure, then hook failure, each pass their error on and change nothing. Otherwise the record is appended and its book becomes `AfterBorrow` of itself. The invariant is kept. |
| BorrowService.BorrowFailure | src/app/services/borrow.service.ts:11-53 | The transaction is refused exactly when a check fails. Every refusal is an HTTP error with status 400 or 404, and 404 happens exactly when the request is well-formed but names no stored book. |
| BorrowService.EmptyShelfRefusesBorrow | src/app/services/borrow.service.ts:46-53 | A stored book with no copies left refuses every borrow, whatever the quantity. |
| BorrowService.ChecksInOrder | src/app/services/borrow.service.ts:11-53 | The verdict is the error of the first failing check in the source's order: id, quantity, due date, existence, stock. |
| BorrowService.FirstFailureMeans | src/app/services/borrow.service.ts:11-53 | A first failure means that check failed and every earlier one passed; no failure means every check passed. |
| BorrowService.RequestChecksComeFirst | src/app/services/borrow.service.ts:11-34 | A malformed id, a bad quantity or a missing due date gets the same 400 whatever the store holds. |
| BorrowService.CheckedRequestPassesHook | src/app/models/borrows.model.ts:27-33 | Once the handler's checks pass, the borrow schema and the hook's own re-checks pass too. |
| BorrowService.CreateBorrow | src/app/services/borrow.service.ts:7-72 | A failing check passes its error on and changes nothing. Otherwise it appends exactly `{book, quantity, dueDate}`, takes `quantity` copies once from that book, recomputes its availability, leaves other books alone and answers 201 with the record. The store invariant is kept. |
| BorrowService.Commit | src/app/services/borrow.service.ts:55-62 | Once the checks pass, `create` cannot refuse. The later `copies -= quantity` save of the stale document writes back the value the hook stored, so the net effect is one appended record and one `AfterBorrow` of its book. The invariant is kept. |
| BorrowService.BorrowOutcome | src/app/services/borrow.service.ts:55-62 | After a successful borrow the book holds its old copies minus the quantity, never below 0, and is available exactly when some remain. |
| BorrowService.AddToGroups | src/app/services/borrow.service.ts:78-81 | Accumulating one record adds at most one group and never removes one. |
| BorrowService.GroupByBook | src/app/services/borrow.service.ts:78-81 | `$group` yields at most one group per record, and none exactly when the ledger is empty. |
| BorrowService.LookupBooks | src/app/services/borrow.service.ts:83-90 | `$lookup` keeps every group in place and attaches the stored book with that `_id`, or nothing when there is none. |
| BorrowService.Unwind | src/app/services/borrow.service.ts:91-93 | `$unwind` emits no more pairs than there are groups when each matched at most one book, and emits nothing when none matched. |
| BorrowService.Project | src/app/services/borrow.service.ts:94-103 | `$project` maps each pair to `{book: {title, isbn}, totalQuantity}`, dropping `_id` and every other book field. |
| BorrowService.Summary | src/app/services/borrow.service.ts:76-104 | The pipeline yields at most one entry per borrow record. |
| BorrowService.AddToGroupsSpec | src/app/services/borrow.service.ts:77-82 | Adding one record to the groups keeps one group per book and adds its quantity to its own book's group only. |
| BorrowService.GroupByBookSpec | src/app/services/borrow.service.ts:77-82 | `$group` yields one group per borrowed book and no other, and each group's total is the sum of that book's quantities. |
| BorrowService.JoinedSpec | src/app/services/borrow.service.ts:83-103 | `$lookup` then `$unwind` keeps exactly the groups whose book is stored, with distinct keys. `$project` turns each into that book's title and isbn with the group's total. |
| BorrowService.JoinedKeys | src/app/services/borrow.service.ts:83-93 | The groups that survive the join have distinct keys and are exactly the groups whose book is stored. |
| BorrowService.JoinedProjection | src/app/services/borrow.service.ts:83-103 | There is one projected entry per surviving group, carrying that book's title and isbn with the group's total. |
| BorrowService.UnwindJoined | src/app/services/borrow.service.ts:83-93 | `$lookup` then `$unwind` pairs each surviving group, in turn, with its stored book. |
| BorrowService.Joined | src/app/services/borrow.service.ts:91-93 | The groups kept by `$unwind` are no more than the groups, and every one names a stored book. |
| BorrowService.SummaryCorrect | src/app/services/borrow.service.ts:76-104 | The summary has exactly one entry per book that is stored and was borrowed. Each entry is that book's `{title, isbn}` with the sum of its borrowed quantities. |
| BorrowService.EmptyLedgerSummary | src/app/services/borrow.service.ts:76-104 | With no borrows the summary is empty. |
| BorrowService.SummaryReflectsStock | src/app/services/borrow.service.ts:76-104 | In a consistent store every borrowed book has an entry, and its total equals the copies the book has lost since creation. |
| BorrowService.BorrowedBookSummary | src/app/services/borrow.service.ts:74-114 | A store failure goes through the shared error handler. Otherwise the answer is 200 "Borrowed books summary retrieved successfully" with exactly the pipeline's summary, one entry per summarized book. |
| BooksService.PostBooks | src/app/services/books.service.ts:4-25 | A schema failure or a taken isbn is passed on and changes nothing. Otherwise the book built from the six whitelisted fields is stored, appended to the order and answered 201 "Book created successfully". The invariant is kept. |
| BooksService.Whitelist | src/app/services/books.service.ts:6-15 | `create` receives exactly the six schema fields of the body. |
| BooksService.PostIgnoresOtherFields | src/app/services/books.service.ts:6-15 | A client-sent `available` never reaches the store, and a created book is available. |
| BooksService.PostFailuresAnswer500 | src/app/services/books.service.ts:22-24 | A failed schema rule reaches the client as 500 with the "Book validation failed: …" message and null details. A duplicate isbn also reaches it as 500. |
| BooksService.GenreFilter | src/app/services/books.service.ts:38-40 | The filter applies exactly when the value names one of the six genres, and then it is that genre. |
| BooksService.Filtered | src/app/services/books.service.ts:37-43 | `find` returns only stored books, all of the filter's genre, and every stored book of that genre. With no genre it returns the whole collection. |
| BooksService.SortBooks | src/app/services/books.service.ts:44 | The sort is a permutation of its input, ordered by `createdAt` in the requested direction. |
| BooksService.ListBooks | src/app/services/books.service.ts:29-45 | The listing has `min(limit, matching)` books, all stored and of the filter's genre, ordered ascending exactly when `sort` is "asc" and descending otherwise. Absent values default to "desc" and 10. |
| BooksService.ListKeepsFirst | src/app/services/books.service.ts:42-45 | The limit keeps the first books of the order: no matching book left out comes before a returned one. |
| BooksService.UnknownFilterIgnored | src/app/services/books.service.ts:38-40 | A filter that is absent or names no genre is dropped, and the whole collection is listed. |
| BooksService.GetAllBooks | src/app/services/books.service.ts:27-59 | A store failure is answered directly, not through the shared handler, with 500 "Failed to retrieve books" and the failure's message. Otherwise the answer is 200 "Books retrieved successfully" with exactly the listing, at most `limit` books. |
| Scenarios.PostDune | src/app/services/books.service.ts:4-25 | Posting Dune (SCIENCE, 3 copies) to an empty store answers 201 and stores exactly that book, available, with the invariant kept. |
| Scenarios.DuneScenario | src/app/services/borrow.service.ts:46-62 | Dune with 3 copies: borrowing 2 answers 201 and leaves 1 copy, still available. Asking for 2 more is refused with "Not enough copies available". |

## Left out

- The `console.error` log line of the shared error handler (src/app.ts:52) is I/O and is not modelled.
- Express wiring is not modelled: the router, CORS, morgan logging, dotenv, JSON body parsing, the `/` and `/api/ping` routes and both route files. Handlers are modelled as functions and methods from a parsed request to an outcome.
- The `throw next(...)` pattern in `createBorrow` calls `next` and then throws its `undefined` result into the `catch`, which calls `next` a second time. The model passes the error on once.
- Concurrency is not modelled. Two simultaneous borrows can interleave between the checks and the writes; each operation here runs atomically.
- Mongoose internals are reduced to what the core uses: finding by id, saving the modified paths, validation in schema path order, the unique index and the pre-save hook. Timestamps are reduced to a `createdAt` number the caller supplies, and `updatedAt` is not kept.
- Type casting is not modelled. Request fields are taken as already having the right type, and `dueDate` is kept as its text without date parsing, so an unparseable date is accepted.
- Book ids are compared as text, while Mongoose casts them to ObjectIds, whose hex digits are case-insensitive. For a stored book `64f1c2a9e4b0a1b2c3d4e5f6`, a borrow naming `64F1C2A9E4B0A1B2C3D4E5F6` is answered 201 by the code, but 404 "Book not found" by the model.
- `quantity` and `copies` are integers here, while the schema type is `Number`. A request with `quantity: 1.5` passes the code's checks and takes 1.5 copies. The model cannot express it.
- `isValidObjectId` is a parameter (`string -> bool`), because the model does not reproduce Mongoose's ObjectId grammar. Ids are strings.
- The database name inside the E11000 message is configuration and is left out of `Store.DuplicateIsbn`.
- Store I/O failures are parameters: `failure` on the listing and the summary. `createBorrow` and `postBooks` do not model I/O failures of the store.
- BooksService.GetAllBooks: requires `limit` to be at least 1 when given. `parseInt` producing `NaN`, `limit(0)` meaning "no limit" and negative limits are not modelled.
- BooksService.ListBooks: orders by `createdAt` only. The `sortBy` query parameter (any other field) is not modelled, and the order among books with equal timestamps is not stated.
- `getBookById`, `updateBookById` and `deleteBookById` are referenced by the books route file but not defined by the service, so they are not modelled.
- The `$lookup` join is by id into the stored map, so at most one book matches a group. The summary's order follows the first appearance of each book in the ledger, an order the database does not promise.
