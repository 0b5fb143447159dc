/** The lending workflow: borrowing and returning a copy of one book, each a
    change to that book's available quantity coupled with a new loan record. */
module BorrowService {
  import opened Results
  import opened Entities
  import opened Dtos
  import opened Repositories

  function BorrowToDto(loan: Borrow): BorrowDTO {
    BorrowDTO(Some(loan.bookId), loan.borrowerName, loan.borrowDate, loan.returnDate)
  }

  /** borrowBook: a null id is refused by the lookup, a missing book is NotFound
      and a book without copies is InvalidState, all without writes. Otherwise the
      book has one copy fewer, one open loan record is appended, and the reply
      echoes the book id, borrower and borrow date with no return date. */
  function Borrowing(db: Db, dto: BorrowDTO): (o: Outcome<BorrowDTO>)
    ensures dto.bookId.None? ==> o == Outcome(Err(InvalidArgument), db)
    ensures dto.bookId.Some? && dto.bookId.value !in db.books ==>
      o == Outcome(Err(NotFound(dto.bookId.value)), db)
    ensures dto.bookId.Some? && dto.bookId.value in db.books && db.books[dto.bookId.value].quantity <= 0 ==>
      o == Outcome(Err(InvalidState), db)
    ensures o.result.Ok? <==>
      dto.bookId.Some? && dto.bookId.value in db.books && db.books[dto.bookId.value].quantity > 0
    ensures o.result.Ok? ==>
      var id := dto.bookId.value;
      && o.db.books.Keys == db.books.Keys
      && o.db.books[id].quantity == db.books[id].quantity - 1
      && o.db.books[id] == db.books[id].(quantity := o.db.books[id].quantity)
      && (forall k :: k in db.books && k != id ==> o.db.books[k] == db.books[k])
      && o.db.borrows == db.borrows + [Borrow(|db.borrows| + 1, id, dto.borrowerName, dto.borrowDate, None)]
      && o.db.nextBookId == db.nextBookId
      && o.result.value == BorrowDTO(Some(id), dto.borrowerName, dto.borrowDate, None)
    ensures Consistent(db) ==> Consistent(o.db)
    ensures NonNegative(db.books) ==> NonNegative(o.db.books)
  {
    if dto.bookId.None? then Outcome(Err(InvalidArgument), db)
    else
      var id := dto.bookId.value;
      if id !in db.books then Outcome(Err(NotFound(id)), db)
      else
        var book := db.books[id];
        if book.quantity <= 0 then Outcome(Err(InvalidState), db)
        else
          var loan := Borrow(|db.borrows| + 1, id, dto.borrowerName, dto.borrowDate, None);
          var after := db.(books := db.books[id := book.(quantity := book.quantity - 1)],
                           borrows := db.borrows + [loan]);
          Outcome(Ok(BorrowToDto(loan)), after)
  }

  /** The return targets a stored book that already has Integer.MAX_VALUE copies. */
  predicate ReturnWraps(db: Db, dto: BorrowDTO) {
    dto.bookId.Some? && dto.bookId.value in db.books && db.books[dto.bookId.value].quantity == MaxInt32
  }

  /** returnBook: a null id is refused by the lookup and a missing book is
      NotFound, without writes. Otherwise the book has one copy more (Java int
      arithmetic, with no upper bound checked) and a new closed record carrying
      the given dates is appended; no earlier record is looked up or changed. */
  function Returning(db: Db, dto: BorrowDTO): (o: Outcome<BorrowDTO>)
    ensures dto.bookId.None? ==> o == Outcome(Err(InvalidArgument), db)
    ensures dto.bookId.Some? && dto.bookId.value !in db.books ==>
      o == Outcome(Err(NotFound(dto.bookId.value)), db)
    ensures o.result.Ok? <==> dto.bookId.Some? && dto.bookId.value in db.books
    ensures o.result.Ok? ==>
      var id := dto.bookId.value;
      && o.db.books.Keys == db.books.Keys
      && (db.books[id].quantity < MaxInt32 ==> o.db.books[id].quantity == db.books[id].quantity + 1)
      && (db.books[id].quantity == MaxInt32 ==> o.db.books[id].quantity == MinInt32)
      && o.db.books[id] == db.books[id].(quantity := o.db.books[id].quantity)
      && (forall k :: k in db.books && k != id ==> o.db.books[k] == db.books[k])
      && o.db.borrows == db.borrows + [Borrow(|db.borrows| + 1, id, dto.borrowerName, dto.borrowDate, dto.returnDate)]
      && o.db.nextBookId == db.nextBookId
      && o.result.value == dto
    ensures Consistent(db) ==> Consistent(o.db)
    ensures NonNegative(db.books) && !ReturnWraps(db, dto) ==> NonNegative(o.db.books)
  {
    if dto.bookId.None? then Outcome(Err(InvalidArgument), db)
    else
      var id := dto.bookId.value;
      if id !in db.books then Outcome(Err(NotFound(id)), db)
      else
        var book := db.books[id];
        var loan := Borrow(|db.borrows| + 1, id, dto.borrowerName, dto.borrowDate, dto.returnDate);
        var after := db.(books := db.books[id := book.(quantity := Increment(book.quantity))],
                         borrows := db.borrows + [loan]);
        Outcome(Ok(BorrowToDto(loan)), after)
  }

  /** The wire form of a loan keeps everything but the record's own id: two
      records with the same wire form differ at most in their id. */
  lemma BorrowToDtoForgetsOnlyId(a: Borrow, b: Borrow)
    ensures BorrowToDto(a) == BorrowToDto(b) <==> a.(id := b.id) == b
  {
  }

  /** Both operations reply with the wire form of the record they have just saved. */
  lemma ReplyIsSavedRecord(db: Db, dto: BorrowDTO)
    ensures var o := Borrowing(db, dto);
      o.result.Ok? ==> |o.db.borrows| > 0 && o.result.value == BorrowToDto(o.db.borrows[|o.db.borrows| - 1])
    ensures var o := Returning(db, dto);
      o.result.Ok? ==> |o.db.borrows| > 0 && o.result.value == BorrowToDto(o.db.borrows[|o.db.borrows| - 1])
  {
  }

  /** The tables after a series of borrow calls, one after another. */
  function BorrowAll(db: Db, dtos: seq<BorrowDTO>): Db
    decreases |dtos|
  {
    if dtos == [] then db else BorrowAll(Borrowing(db, dtos[0]).db, dtos[1..])
  }

  /** However many borrow calls run in sequence, no quantity goes below zero. */
  lemma {:induction false} BorrowsKeepNonNegative(db: Db, dtos: seq<BorrowDTO>)
    requires NonNegative(db.books)
    ensures NonNegative(BorrowAll(db, dtos).books)
    decreases |dtos|
  {
    if dtos != [] {
      BorrowsKeepNonNegative(Borrowing(db, dtos[0]).db, dtos[1..]);
    }
  }

  class BorrowService {
    const store: Store

    constructor (store: Store)
      ensures this.store == store
    {
      this.store := store;
    }

    method BorrowBook(dto: BorrowDTO) returns (r: Result<BorrowDTO>)
      modifies store
      ensures Outcome(r, store.Snapshot()) == Borrowing(old(store.Snapshot()), dto)
    {
      if dto.bookId.None? {
        return Err(InvalidArgument);
      }
      var id := dto.bookId.value;
      if id !in store.books {
        return Err(NotFound(id));
      }
      var book := store.books[id];
      if book.quantity <= 0 {
        return Err(InvalidState);
      }
      var loan := Borrow(|store.borrows| + 1, id, dto.borrowerName, dto.borrowDate, None);
      book := book.(quantity := book.quantity - 1);
      store.books := store.books[id := book];
      store.borrows := store.borrows + [loan];
      r := Ok(BorrowToDto(loan));
    }

    method ReturnBook(dto: BorrowDTO) returns (r: Result<BorrowDTO>)
      modifies store
      ensures Outcome(r, store.Snapshot()) == Returning(old(store.Snapshot()), dto)
    {
      if dto.bookId.None? {
        return Err(InvalidArgument);
      }
      var id := dto.bookId.value;
      if id !in store.books {
        return Err(NotFound(id));
      }
      var book := store.books[id];
      var loan := Borrow(|store.borrows| + 1, id, dto.borrowerName, dto.borrowDate, dto.returnDate);
      book := book.(quantity := Increment(book.quantity));
      store.books := store.books[id := book];
      store.borrows := store.borrows + [loan];
      r := Ok(BorrowToDto(loan));
    }
  }
}
