# Library management: catalog and lending, modelled in Dafny

This project models the core of a small library-management REST service.
The service keeps a catalog of books and a log of loans. Its two pieces of real logic are modelled:

- **The lending workflow** (`BorrowService`). Borrowing a copy checks that the book exists and has copies left. It then decrements the book's `quantity` and appends an open loan record. Returning a copy increments `quantity` with no upper bound. It also appends a new closed record and never touches the original loan.
- **The catalog operations** (`BookService`). The listing query keeps a book when its lower-cased title or author is LIKE `'%' + lower(term) + '%'`. It sorts by a named attribute, ascending when `order` equals "asc" ignoring case and descending otherwise. The other operations are lookup, create, update and delete on the book table.

Around them, the model covers:

- the two stored records, `Book` and `Borrow`;
- the two request bodies and their validation rules;
- the request handlers that decide which bodies are validated.

The database is a value `Db`. It holds the book table as a map from id to `Book`, the loan table as a sequence in insertion order, and the next value of the book table's identity column. `Repositories.Store` is the mutable object that holds those three fields.

The service classes `BookService.BookService` and `BorrowService.BorrowService` share one store. Each of their methods changes the store step by step, as the Java code does. Each is proved equal to a pure transition function on `Db`: `Creating`, `Updating`, `Deleting`, `Borrowing` or `Returning`. The properties of the service are proved about those functions.

The store's own integrity is the predicate `Repositories.Consistent`. It says four things:

- every book sits under its own id, and the identity column handed that id out;
- isbns are unique;
- loans are numbered 1, 2, … in insertion order;
- every loan refers to a stored book.

The model includes three of the store's column constraints. A write that would break one of them fails with `ConstraintViolation` and writes nothing. The length limit of the string columns is not among them (see "Left out"):

- `NOT NULL` on title, author and isbn;
- `UNIQUE` on isbn;
- the foreign key behind `Borrow`'s many-to-one join column.

Behaviour of the code worth noting:

- A borrower name only has to be non-null (`@NotNull` on `BorrowDTO.borrowerName`). An empty name is accepted.
- `quantity` is a Java `int`. Returning a copy of a book that already has `Integer.MAX_VALUE` copies wraps the quantity to `Integer.MIN_VALUE` (`BorrowService.java` line 49). This is modelled exactly, and `Controllers.ReturnAtMaxGoesNegative` shows the quantity going negative. The inventory invariant `Controllers.RunKeepsNonNegative` therefore excludes such returns.
- The service itself never checks for a null column or a duplicate isbn (`BookService.java` lines 46-62). Those writes are refused by the column constraints on `Book` (`Book.java` lines 14-21).
- Deleting a book that a loan record still refers to is refused by the foreign key behind `Borrow`'s join column. `deleteBook` does not remove the loans first (`BookService.java` lines 64-68).
- A null `bookId` reaches the service only through `/return`, because that endpoint has no `@Valid`. The repository lookup then refuses it, which the model returns as `InvalidArgument`.
- The blank test of `@NotBlank` is the one its validator implements: `trim().length() > 0`. Java's `trim` strips every character at or below U+0020.

## Model

| member | source | states |
|---|---|---|
| `Text.EqualsIgnoreCase` | src/main/java/com/management/library/service/BookService.java:30 | `equalsIgnoreCase` holds exactly when the two strings are equal once lower-cased (ASCII). |
| `BookService.Ascending` | src/main/java/com/management/library/service/BookService.java:30-31 | The query sorts ascending exactly when `order` lower-cases to "asc". Every other value sorts descending. |
| `Text.LikeContains` | src/main/java/com/management/library/service/BookService.java:26-27 | For a term without `%` or `_`, the LIKE pattern `'%' + term + '%'` matches exactly the texts that contain the term. |
| `BookService.Matches` | src/main/java/com/management/library/service/BookService.java:24-28 | A null or empty search keeps every book. Otherwise, for a term without wildcards, a book is kept iff lower(title) or lower(author) contains lower(term). |
| `BookService.Rows` | src/main/java/com/management/library/service/BookService.java:35 | The table's rows with ids in a range: each stored book exactly once, nothing else. |
| `BookService.Filter` | src/main/java/com/management/library/service/BookService.java:32 | Keeps each row exactly as often as it occurs if it satisfies the search condition. Drops it otherwise. |
| `Ordering.Sort` | src/main/java/com/management/library/service/BookService.java:30-31 | The result is a permutation of the input and is sorted by the attribute, in the given direction. |
| `BookService.BookDtos` | src/main/java/com/management/library/service/BookService.java:35-37 | The stream map: one body per row, in the same order, each the copy of its row. |
| `BookService.BookDtosCount` | src/main/java/com/management/library/service/BookService.java:70-79 | Mapping rows to bodies neither merges nor splits rows. Each body occurs exactly as often as its row. |
| `BookService.ListingCounts` | src/main/java/com/management/library/service/BookService.java:21-37 | In the listing, each stored book occurs once if it matches the search and not at all otherwise. |
| `BookService.ListingMembers` | src/main/java/com/management/library/service/BookService.java:21-37 | Every body in the listing is the copy of a stored book that matches the search. |
| `BookService.DtosKeepOrder` | src/main/java/com/management/library/service/BookService.java:35-37 | Turning sorted rows into bodies keeps them sorted by the same attribute and direction. |
| `BookService.ListingSorted` | src/main/java/com/management/library/service/BookService.java:30-31 | The listing is ordered by the requested attribute in the requested direction. |
| `BookService.GetAllBooks` | src/main/java/com/management/library/service/BookService.java:21-38 | An unknown attribute name is refused. Otherwise: exactly the matching books, once each, as bodies, sorted ascending or descending as `order` says. Nothing is written. |
| `BookService.ListingOfSingleMatch` | src/main/java/com/management/library/service/BookService.java:21-38 | When exactly one stored book matches, the listing is that book alone. |
| `BookService.SearchTermMatches` | src/main/java/com/management/library/service/BookService.java:24-28 | The term "ASI" matches author Asimov and matches neither "Dune" nor "Herbert". |
| `BookService.SearchScenario` | src/main/java/com/management/library/service/BookService.java:21-38 | With Dune and Foundation stored, searching "ASI" lists only Foundation. |
| `BookService.GetBookById` | src/main/java/com/management/library/service/BookService.java:40-44 | Succeeds iff the id is stored. It then returns that book's body, which carries the id, and whose conversion back gives the stored book. Otherwise NotFound(id). |
| `BookService.BookFromDto` | src/main/java/com/management/library/service/BookService.java:81-89 | `convertToEntity` copies the five data fields and drops the body's id. The save that follows it succeeds only when title, author and isbn are non-null, because of the NOT NULL columns in `Book.java` lines 14-21. The saved record's body is the input with the store's id in place of the input's. |
| `BookService.BookToDtoRoundTrip` | src/main/java/com/management/library/service/BookService.java:70-79 | `convertToDTO` carries the record's id, and saving the body under that id gives the record back, so no field is lost. |
| `BookService.Creating` | src/main/java/com/management/library/service/BookService.java:46-49 | Succeeds iff title, author and isbn are non-null and the isbn is new. Success stores the body under the fresh identity value, copying the five data fields and ignoring the body's id. Other books and the loans are unchanged, and the store stays consistent. Failure writes nothing. |
| `BookService.CreateIgnoresBodyId` | src/main/java/com/management/library/entity/Book.java:10-12 | The id in a create body has no effect on the outcome. |
| `BookService.Updating` | src/main/java/com/management/library/service/BookService.java:51-62 | A missing id gives NotFound with no writes. Success overwrites title, author, isbn, quantity and publicationDate and keeps the id. No other book changes. A null column, or an isbn another book holds, is refused with no writes. |
| `BookService.Deleting` | src/main/java/com/management/library/service/BookService.java:64-68 | A missing id gives NotFound with no writes. Otherwise exactly that id is removed and all other entries are unchanged. The exception is a book that loans still refer to: the store refuses that delete. |
| `BookService.ExhaustedBookFailsValidation` | src/main/java/com/management/library/dto/BookDTO.java:20-21 | A stored book whose copies are all lent out has a body that the `@Positive` rule refuses. |
| `BookService.BookService.CreateBook` | src/main/java/com/management/library/service/BookService.java:46-49 | The reply and the new store state are those of `Creating`. |
| `BookService.BookService.UpdateBook` | src/main/java/com/management/library/service/BookService.java:51-62 | The reply and the new store state are those of `Updating`. |
| `BookService.BookService.DeleteBook` | src/main/java/com/management/library/service/BookService.java:64-68 | The reply and the new store state are those of `Deleting`. |
| `BorrowService.Borrowing` | src/main/java/com/management/library/service/BorrowService.java:20-37 | A missing book gives NotFound, and a book with quantity <= 0 gives InvalidState; neither writes anything. Success decrements only that book's quantity and appends exactly one open record with the given borrower and borrow date. The reply echoes that record. Store consistency and non-negative quantities are kept. |
| `BorrowService.Returning` | src/main/java/com/management/library/service/BorrowService.java:39-53 | A missing book gives NotFound with no writes. Success adds one to that book's quantity, wrapping at `Integer.MAX_VALUE`, with no upper bound checked. It appends one new record with the given dates; earlier records are untouched. The reply echoes the request. |
| `BorrowService.BorrowsKeepNonNegative` | src/main/java/com/management/library/service/BorrowService.java:24-34 | Any series of borrow calls on non-negative quantities leaves every quantity non-negative. |
| `BorrowService.BorrowToDtoForgetsOnlyId` | src/main/java/com/management/library/service/BorrowService.java:55-61 | `convertToDTO` keeps the book id, borrower, borrow date and return date. Two loan records have the same body iff they differ at most in their record id. |
| `BorrowService.ReplyIsSavedRecord` | src/main/java/com/management/library/service/BorrowService.java:36-52 | Both borrowing and returning reply with the body of the record they have just appended. |
| `BorrowService.BorrowService.BorrowBook` | src/main/java/com/management/library/service/BorrowService.java:20-37 | The reply and the new store state are those of `Borrowing`. |
| `BorrowService.BorrowService.ReturnBook` | src/main/java/com/management/library/service/BorrowService.java:39-53 | The reply and the new store state are those of `Returning`. |
| `Entities.Increment` | src/main/java/com/management/library/service/BorrowService.java:49 | Java `int` addition of one, as arithmetic modulo 2^32 in the signed range. Below the maximum it is plain `+ 1`. |
| `Dtos.NotBlank` | src/main/java/com/management/library/dto/BookDTO.java:11-12 | `@NotBlank` holds iff the value is non-null and holds a character above U+0020. |
| `Text.TrimEmptyIffBlank` | src/main/java/com/management/library/dto/BookDTO.java:11-18 | A string trims to empty iff every character is at or below U+0020. |
| `Dtos.BookViolations` | src/main/java/com/management/library/dto/BookDTO.java:9-23 | A book body is accepted iff title, author and isbn are non-blank and quantity > 0. Each failing rule is reported, and id and publicationDate are never checked. |
| `Dtos.BorrowViolations` | src/main/java/com/management/library/dto/BorrowDTO.java:9-18 | A loan body is accepted iff bookId, borrowerName and borrowDate are non-null, so an empty name passes. returnDate is never checked. |
| `Repositories.Store.constructor` | src/main/java/com/management/library/entity/Book.java:10-12 | An empty store is consistent and its identity column starts at 1. |
| `Controllers.Handle` | src/main/java/com/management/library/controller/BorrowController.java:16-26 | Book and borrow bodies are validated first; an invalid one is refused with no writes. A valid request reaches its service operation: the new store is that operation's, and the reply carries its result or its error. This holds for all seven endpoints, including those in `BookController.java`. `/return` is not validated and succeeds for any stored book. Reads write nothing. Every request keeps the store consistent. Every request also keeps quantities non-negative, except a return that overflows. |
| `Controllers.Run` | src/main/java/com/management/library/entity/Book.java:10-24 | Any series of requests keeps the store's integrity: ids, unique isbns, loan numbering and loan references. |
| `Controllers.RunKeepsNonNegative` | src/main/java/com/management/library/service/BorrowService.java:24-49 | Sequential requests never drive a quantity below zero, unless a return overflows `Integer.MAX_VALUE`. |
| `Controllers.ReturnAtMaxGoesNegative` | src/main/java/com/management/library/service/BorrowService.java:49 | One return on a book at `Integer.MAX_VALUE` copies leaves a negative quantity. |
| `Controllers.LendingScenario` | src/main/java/com/management/library/service/BorrowService.java:20-53 | A book with two copies lends twice, down to 0, and a third borrow fails with InvalidState. A return brings one copy back and adds a third, closed, record after the two open ones. |

## Left out

- HTTP routing, response codes and role checks (`@PreAuthorize`) are not modelled. Registration and login are not modelled either, because they call a password encoder, an authentication manager and a token provider whose code is not part of this model.
- Concurrency is not modelled. Requests are handled strictly one after another, so the read-then-write race on `quantity` is not represented.
- Transactions and store failures are not modelled. A store write either happens whole or is refused whole; the model has no partial writes, such as a book saved without its loan record.
- Case mapping covers ASCII letters only. The database's `lower` and Java's `toLowerCase` are both taken to be ASCII lower-casing.
- The LIKE matcher treats `%` and `_` as wildcards. The database's escape character is not modelled, so a backslash in the search term is an ordinary character.
- Strings are compared by character code when sorting. Database collations are not modelled.
- `BookService.Creating`, `BookService.Updating`, `BorrowService.Borrowing`, `BorrowService.Returning`: the model has no column-length limit. The schema generated from the entities makes title, author, isbn and borrowerName `VARCHAR(255)` by default. In the real store, a longer value makes the save fail (`BookService.java` lines 48 and 61; `BorrowService.java` lines 36 and 52). In `borrowBook` and `returnBook`, the book's new quantity has already been saved by then. The model's "succeeds iff" statements do not cover such values, and neither does the partial write.
- `BookService.Matches`, `Text.LikeContains`: LIKE compares characters exactly. Under a database collation that ignores accents, `'%e%'` would also match `é`, and the model does not capture that.
- `BookService.IsbnInUse`: the UNIQUE isbn check compares strings exactly. A database collation that ignores case or accents would refuse more isbns.
- `Text.EqualsIgnoreCase`: it folds ASCII letters only. Java's `equalsIgnoreCase` also matches letters such as `ſ` against `S`, so `"aſc"` counts as `"asc"` in Java but not in the model.
- A NULL publicationDate sorts before every date in ascending order, and the database's own null ordering is not modelled. Ties in the sort attribute stay in id order, which the database does not promise and the model does not state.
- Dates are day numbers and only their order is used. Ids are unbounded integers; the 64-bit `Long` range is not modelled.
- A rejected insert does not advance the identity column in the model. Some databases consume a value even then.
- `BookService.Matches`: its substring characterisation is stated only for search terms without `%` or `_`. For other terms the model's result is the LIKE match itself.
- `Controllers.RunKeepsNonNegative`: it does not cover a series in which a return overflows `Integer.MAX_VALUE`. `Controllers.ReturnAtMaxGoesNegative` shows why.
