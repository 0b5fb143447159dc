/** The two stored records: a catalog entry and a loan record. */
module Entities {
  import opened Results

  const MinInt32: int := -0x8000_0000
  const MaxInt32: int := 0x7FFF_FFFF

  /** Java's `int`. */
  type Int32 = x: int | -0x8000_0000 <= x <= 0x7FFF_FFFF

  /** A java.time.LocalDate, as its day number; only equality and order are used. */
  type Date = int

  /** A catalog entry. `id` is assigned by the store; title, author and isbn are
      NOT NULL columns (so always present here) and isbn is UNIQUE across the
      table, which the store's consistency predicate states. `quantity` counts
      the copies currently available. */
  datatype Book = Book(
    id: int,
    title: string,
    author: string,
    isbn: string,
    quantity: Int32,
    publicationDate: Option<Date>)

  /** A loan record. `id` is assigned by the store and `bookId` is its one
      reference to a Book. borrowerName and borrowDate carry no NOT NULL
      constraint; returnDate is absent on an open loan. */
  datatype Borrow = Borrow(
    id: int,
    bookId: int,
    borrowerName: Option<string>,
    borrowDate: Option<Date>,
    returnDate: Option<Date>)

  /** Java's `x + 1` on an int: two's-complement wrap-around at the top. */
  function Increment(x: Int32): (r: Int32)
    ensures r == (x - MinInt32 + 1) % 0x1_0000_0000 + MinInt32
    ensures x < MaxInt32 ==> r == x + 1
  {
    if x == MaxInt32 then MinInt32 else x + 1
  }
}
