/** The request handlers in front of the two services: which bodies are
    validated before the service runs, and what the service returns. */
module Controllers {
  import opened Results
  import opened Dtos
  import opened Repositories
  import Entities
  import BookService
  import BorrowService

  datatype Request =
    | ListBooks(search: Option<string>, sortBy: string, order: string)  // GET /books
    | GetBook(id: int)                                                   // GET /books/{id}
    | CreateBook(book: BookDTO)                                          // POST /books
    | UpdateBook(id: int, book: BookDTO)                                 // PUT /books/{id}
    | DeleteBook(id: int)                                                // DELETE /books/{id}
    | BorrowCopy(loan: BorrowDTO)                                        // POST /borrow
    | ReturnCopy(loan: BorrowDTO)                                        // POST /return

  datatype Response =
    | BookList(books: seq<BookDTO>)
    | BookBody(book: BookDTO)
    | NoContent
    | LoanBody(loan: BorrowDTO)

  function AsBook(r: Result<BookDTO>): Result<Response> {
    match r
    case Ok(b) => Ok(BookBody(b))
    case Err(e) => Err(e)
  }

  function AsLoan(r: Result<BorrowDTO>): Result<Response> {
    match r
    case Ok(l) => Ok(LoanBody(l))
    case Err(e) => Err(e)
  }

  /** The reply relays a service result: success carries its value in the
      response body, failure carries the same error. */
  predicate RepliesList(r: Result<Response>, x: Result<seq<BookDTO>>) {
    (r.Ok? <==> x.Ok?) && (x.Ok? ==> r.value == BookList(x.value)) && (x.Err? ==> r.error == x.error)
  }

  predicate RepliesBook(r: Result<Response>, x: Result<BookDTO>) {
    (r.Ok? <==> x.Ok?) && (x.Ok? ==> r.value == BookBody(x.value)) && (x.Err? ==> r.error == x.error)
  }

  predicate RepliesNothing(r: Result<Response>, x: Result<()>) {
    (r.Ok? <==> x.Ok?) && (x.Ok? ==> r.value == NoContent) && (x.Err? ==> r.error == x.error)
  }

  predicate RepliesLoan(r: Result<Response>, x: Result<BorrowDTO>) {
    (r.Ok? <==> x.Ok?) && (x.Ok? ==> r.value == LoanBody(x.value)) && (x.Err? ==> r.error == x.error)
  }

  /** One request, handled against the tables. Book bodies (create, update) and
      borrow bodies are validated first, and an invalid body changes nothing;
      /return has no validation, so it succeeds for any stored book even with a
      null borrower or borrow date. Reads change nothing. Every request keeps the
      store consistent, and keeps quantities non-negative unless it is a return
      that overflows Java's int. */
  function Handle(db: Db, req: Request): (o: Outcome<Response>)
    requires Consistent(db)
    ensures Consistent(o.db)
    ensures req.ListBooks? || req.GetBook? ==> o.db == db
    ensures (req.CreateBook? || req.UpdateBook?) && BookViolations(req.book) != {} ==>
      o == Outcome(Err(Invalid(BookViolations(req.book))), db)
    ensures req.BorrowCopy? && BorrowViolations(req.loan) != {} ==>
      o == Outcome(Err(Invalid(BorrowViolations(req.loan))), db)
    ensures req.ReturnCopy? ==>
      (o.result.Ok? <==> req.loan.bookId.Some? && req.loan.bookId.value in db.books)
    ensures req.ListBooks? ==>
      RepliesList(o.result, BookService.GetAllBooks(db, req.search, req.sortBy, req.order))
    ensures req.GetBook? ==> RepliesBook(o.result, BookService.GetBookById(db, req.id))
    ensures req.CreateBook? && BookViolations(req.book) == {} ==>
      var c := BookService.Creating(db, req.book);
      o.db == c.db && RepliesBook(o.result, c.result)
    ensures req.UpdateBook? && BookViolations(req.book) == {} ==>
      var u := BookService.Updating(db, req.id, req.book);
      o.db == u.db && RepliesBook(o.result, u.result)
    ensures req.DeleteBook? ==>
      var d := BookService.Deleting(db, req.id);
      o.db == d.db && RepliesNothing(o.result, d.result)
    ensures req.BorrowCopy? && BorrowViolations(req.loan) == {} ==>
      var b := BorrowService.Borrowing(db, req.loan);
      o.db == b.db && RepliesLoan(o.result, b.result)
    ensures req.ReturnCopy? ==>
      var t := BorrowService.Returning(db, req.loan);
      o.db == t.db && RepliesLoan(o.result, t.result)
    ensures NonNegative(db.books) && !(req.ReturnCopy? && BorrowService.ReturnWraps(db, req.loan)) ==>
      NonNegative(o.db.books)
  {
    match req
    case ListBooks(search, sortBy, order) =>
      var listing := BookService.GetAllBooks(db, search, sortBy, order);
      Outcome(if listing.Ok? then Ok(BookList(listing.value)) else Err(listing.error), db)
    case GetBook(id) =>
      Outcome(AsBook(BookService.GetBookById(db, id)), db)
    case CreateBook(book) =>
      var v := BookViolations(book);
      if v != {} then Outcome(Err(Invalid(v)), db)
      else
        var o := BookService.Creating(db, book);
        Outcome(AsBook(o.result), o.db)
    case UpdateBook(id, book) =>
      var v := BookViolations(book);
      if v != {} then Outcome(Err(Invalid(v)), db)
      else
        var o := BookService.Updating(db, id, book);
        Outcome(AsBook(o.result), o.db)
    case DeleteBook(id) =>
      var o := BookService.Deleting(db, id);
      Outcome(if o.result.Ok? then Ok(NoContent) else Err(o.result.error), o.db)
    case BorrowCopy(loan) =>
      var v := BorrowViolations(loan);
      if v != {} then Outcome(Err(Invalid(v)), db)
      else
        var o := BorrowService.Borrowing(db, loan);
        Outcome(AsLoan(o.result), o.db)
    case ReturnCopy(loan) =>
      var o := BorrowService.Returning(db, loan);
      Outcome(AsLoan(o.result), o.db)
  }

  /** The tables after a series of requests handled one after another. */
  function Run(db: Db, reqs: seq<Request>): (after: Db)
    requires Consistent(db)
    ensures Consistent(after)
    decreases |reqs|
  {
    if reqs == [] then db else Run(Handle(db, reqs[0]).db, reqs[1..])
  }

  /** No request of the series is a return that overflows the quantity it targets. */
  predicate NoReturnWraps(db: Db, reqs: seq<Request>)
    requires Consistent(db)
    decreases |reqs|
  {
    reqs == [] || (!(reqs[0].ReturnCopy? && BorrowService.ReturnWraps(db, reqs[0].loan)) && NoReturnWraps(Handle(db, reqs[0]).db, reqs[1..]))
  }

  /** Under sequential requests the inventory invariant holds throughout: starting
      from non-negative quantities, no series of requests drives a quantity below
      zero unless some return pushes a book past Integer.MAX_VALUE copies. */
  lemma {:induction false} RunKeepsNonNegative(db: Db, reqs: seq<Request>)
    requires Consistent(db) && NonNegative(db.books) && NoReturnWraps(db, reqs)
    ensures NonNegative(Run(db, reqs).books)
    decreases |reqs|
  {
    if reqs != [] {
      RunKeepsNonNegative(Handle(db, reqs[0]).db, reqs[1..]);
    }
  }

  /** The overflow is real: one return on a book at Integer.MAX_VALUE copies
      leaves it with a negative quantity. */
  lemma ReturnAtMaxGoesNegative(db: Db, loan: BorrowDTO)
    requires Consistent(db) && BorrowService.ReturnWraps(db, loan)
    ensures Handle(db, ReturnCopy(loan)).db.books[loan.bookId.value].quantity < 0
  {
  }

  // ---------------------------------------------------------------------------
  // A worked lending series, one request at a time

  /** The store holding only Dune, with `copies` on the shelf and the given loans. */
  function Shelf(copies: Entities.Int32, loans: seq<Entities.Borrow>): Db {
    Db(map[1 := Entities.Book(1, "Dune", "Herbert", "123", copies, None)], loans, 2)
  }

  function DuneBody(): BookDTO {
    BookDTO(None, Some("Dune"), Some("Herbert"), Some("123"), 2, None)
  }

  function AliceLoan(): BorrowDTO {
    BorrowDTO(Some(1), Some("Alice"), Some(100), None)
  }

  function AliceReturn(): BorrowDTO {
    BorrowDTO(Some(1), Some("Alice"), Some(100), Some(101))
  }

  function OpenLoan(n: int): Entities.Borrow {
    Entities.Borrow(n, 1, Some("Alice"), Some(100), None)
  }

  lemma CreateDune()
    ensures Handle(Db(map[], [], 1), CreateBook(DuneBody())).db == Shelf(2, [])
  {
    var dune := DuneBody();
    assert dune.title.value[0] > ' ' && dune.author.value[0] > ' ' && dune.isbn.value[0] > ' ';
    assert BookViolations(dune) == {};
    assert BookService.Creating(Db(map[], [], 1), dune).db == Shelf(2, []);
  }

  lemma LendFirst()
    ensures Handle(Shelf(2, []), BorrowCopy(AliceLoan())).db == Shelf(1, [OpenLoan(1)])
  {
    assert BorrowViolations(AliceLoan()) == {};
    assert BorrowService.Borrowing(Shelf(2, []), AliceLoan()).db == Shelf(1, [OpenLoan(1)]);
  }

  lemma LendSecond()
    ensures Handle(Shelf(1, [OpenLoan(1)]), BorrowCopy(AliceLoan())).db == Shelf(0, [OpenLoan(1), OpenLoan(2)])
  {
    assert BorrowViolations(AliceLoan()) == {};
    assert BorrowService.Borrowing(Shelf(1, [OpenLoan(1)]), AliceLoan()).db
      == Shelf(0, [OpenLoan(1), OpenLoan(2)]);
  }

  lemma LendRefused()
    ensures Handle(Shelf(0, [OpenLoan(1), OpenLoan(2)]), BorrowCopy(AliceLoan()))
      == Outcome(Err(InvalidState), Shelf(0, [OpenLoan(1), OpenLoan(2)]))
  {
    assert BorrowViolations(AliceLoan()) == {};
  }

  lemma ReturnOne()
    ensures Handle(Shelf(0, [OpenLoan(1), OpenLoan(2)]), ReturnCopy(AliceReturn())).db
      == Shelf(1, [OpenLoan(1), OpenLoan(2), Entities.Borrow(3, 1, Some("Alice"), Some(100), Some(101))])
  {
    assert BorrowService.Returning(Shelf(0, [OpenLoan(1), OpenLoan(2)]), AliceReturn()).db
      == Shelf(1, [OpenLoan(1), OpenLoan(2), Entities.Borrow(3, 1, Some("Alice"), Some(100), Some(101))]);
  }

  /** A worked series on an empty store: a book with two copies is created, lent
      twice, refused a third time, and a return brings one copy back while adding
      a third, closed, record next to the two open ones. */
  lemma LendingScenario()
    ensures var db1 := Handle(Db(map[], [], 1), CreateBook(DuneBody())).db;
      var db2 := Handle(db1, BorrowCopy(AliceLoan())).db;
      var db3 := Handle(db2, BorrowCopy(AliceLoan())).db;
      var third := Handle(db3, BorrowCopy(AliceLoan()));
      var db4 := Handle(db3, ReturnCopy(AliceReturn())).db;
      && db1.books[1].quantity == 2
      && db2.books[1].quantity == 1
      && db3.books[1].quantity == 0
      && third == Outcome(Err(InvalidState), db3)
      && db4.books[1].quantity == 1
      && |db4.borrows| == 3
      && db4.borrows[0].returnDate.None? && db4.borrows[1].returnDate.None?
      && db4.borrows[2].returnDate == Some(101)
  {
    CreateDune();
    LendFirst();
    LendSecond();
    LendRefused();
    ReturnOne();
  }
}
