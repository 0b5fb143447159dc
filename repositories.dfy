/** The two tables the services read and write (the book and loan
    repositories), as one in-memory value and as the mutable store that holds it. */
module Repositories {
  import opened Results
  import opened Entities

  /** The book table keyed by id, the loan table in insertion order, and the
      next value of the book table's identity column. */
  datatype Db = Db(books: map<int, Book>, borrows: seq<Borrow>, nextBookId: int)

  /** What an operation returns together with the tables it leaves behind. */
  datatype Outcome<+T> = Outcome(result: Result<T>, db: Db)

  /** No two stored books share an isbn (the UNIQUE column). */
  predicate UniqueIsbns(books: map<int, Book>) {
    forall j, k :: j in books && k in books && books[j].isbn == books[k].isbn ==> j == k
  }

  /** The integrity the store maintains: every book sits under its own id, which
      the identity column handed out; isbns are unique; loans are numbered 1, 2, ...
      in insertion order; and every loan refers to a stored book (the foreign key
      behind Borrow's many-to-one join column). */
  predicate Consistent(db: Db) {
    && db.nextBookId >= 1
    && (forall k :: k in db.books ==> 1 <= k < db.nextBookId && db.books[k].id == k)
    && UniqueIsbns(db.books)
    && (forall i :: 0 <= i < |db.borrows| ==> db.borrows[i].id == i + 1 && db.borrows[i].bookId in db.books)
  }

  /** The inventory invariant: no stored book has a negative number of copies. */
  predicate NonNegative(books: map<int, Book>) {
    forall k :: k in books ==> books[k].quantity >= 0
  }

  /** The database behind both repositories. */
  class Store {
    var books: map<int, Book>
    var borrows: seq<Borrow>
    var nextBookId: int

    function Snapshot(): Db
      reads this
    {
      Db(books, borrows, nextBookId)
    }

    /** An empty database whose identity column starts at 1. */
    constructor ()
      ensures Snapshot() == Db(map[], [], 1)
      ensures Consistent(Snapshot())
    {
      books := map[];
      borrows := [];
      nextBookId := 1;
    }
  }
}
