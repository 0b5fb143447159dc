/** Values the library operations hand back: an optional value, and either a
    result or one of the failures the service layer raises. */
module Results {

  /** A Java reference that may be null. */
  datatype Option<+T> = None | Some(value: T)

  /** A field rule of an incoming request body that does not hold
      (the jakarta.validation annotations on the two request records). */
  datatype Violation =
    | TitleBlank
    | AuthorBlank
    | IsbnBlank
    | QuantityNotPositive
    | BookIdNull
    | BorrowerNameNull
    | BorrowDateNull

  datatype Error =
    | NotFound(id: int)                   // ResourceNotFoundException: no book has this id
    | InvalidState                        // IllegalStateException: no copies left to borrow
    | InvalidArgument                     // a null id given to findById, or an unknown sort attribute
    | ConstraintViolation                 // the store refused a write (NOT NULL, UNIQUE or FOREIGN KEY)
    | Invalid(violations: set<Violation>) // the request body failed validation; no service code ran

  datatype Result<+T> = Ok(value: T) | Err(error: Error)
}
