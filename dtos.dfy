/** The request and response bodies, with the field rules that the controllers
    check (through @Valid) before any service code runs. */
module Dtos {
  import opened Results
  import opened Entities
  import Text

  /** A book as sent and returned over the wire. Every reference field may be
      null; quantity is a Java primitive and is always present. */
  datatype BookDTO = BookDTO(
    id: Option<int>,
    title: Option<string>,
    author: Option<string>,
    isbn: Option<string>,
    quantity: Int32,
    publicationDate: Option<Date>)

  /** A loan request or loan record as sent and returned over the wire. */
  datatype BorrowDTO = BorrowDTO(
    bookId: Option<int>,
    borrowerName: Option<string>,
    borrowDate: Option<Date>,
    returnDate: Option<Date>)

  /** @NotBlank, as its validator implements it: not null, and not empty once
      trimmed. That is, the string holds a character above U+0020. */
  function NotBlank(value: Option<string>): (ok: bool)
    ensures ok <==> value.Some? && exists i :: 0 <= i < |value.value| && value.value[i] > ' '
  {
    match value
    case None => false
    case Some(s) => Text.TrimEmptyIffBlank(s); Text.Trim(s) != []
  }

  /** The rules on a book body: title, author and isbn @NotBlank, quantity
      @Positive. id and publicationDate are not checked. */
  function BookViolations(dto: BookDTO): (v: set<Violation>)
    ensures v <= {TitleBlank, AuthorBlank, IsbnBlank, QuantityNotPositive}
    ensures TitleBlank in v <==> !NotBlank(dto.title)
    ensures AuthorBlank in v <==> !NotBlank(dto.author)
    ensures IsbnBlank in v <==> !NotBlank(dto.isbn)
    ensures QuantityNotPositive in v <==> dto.quantity <= 0
    ensures v == {} <==>
      NotBlank(dto.title) && NotBlank(dto.author) && NotBlank(dto.isbn) && dto.quantity > 0
  {
    (if NotBlank(dto.title) then {} else {TitleBlank})
    + (if NotBlank(dto.author) then {} else {AuthorBlank})
    + (if NotBlank(dto.isbn) then {} else {IsbnBlank})
    + (if dto.quantity > 0 then {} else {QuantityNotPositive})
  }

  /** The rules on a loan body: bookId, borrowerName and borrowDate @NotNull.
      An empty or blank borrowerName passes; returnDate is not checked. */
  function BorrowViolations(dto: BorrowDTO): (v: set<Violation>)
    ensures v <= {BookIdNull, BorrowerNameNull, BorrowDateNull}
    ensures BookIdNull in v <==> dto.bookId.None?
    ensures BorrowerNameNull in v <==> dto.borrowerName.None?
    ensures BorrowDateNull in v <==> dto.borrowDate.None?
    ensures v == {} <==> dto.bookId.Some? && dto.borrowerName.Some? && dto.borrowDate.Some?
  {
    (if dto.bookId.Some? then {} else {BookIdNull})
    + (if dto.borrowerName.Some? then {} else {BorrowerNameNull})
    + (if dto.borrowDate.Some? then {} else {BorrowDateNull})
  }
}
