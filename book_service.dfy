/** The catalog operations: the search-and-sort listing, lookup by id, and
    create, update and delete on the book table. */
module BookService {
  import opened Results
  import opened Entities
  import opened Dtos
  import opened Repositories
  import opened Ordering
  import Text

  // ---------------------------------------------------------------------------
  // Conversions between the stored record and its wire form

  function BookToDto(b: Book): BookDTO {
    BookDTO(Some(b.id), Some(b.title), Some(b.author), Some(b.isbn), b.quantity, b.publicationDate)
  }

  /** The record a body becomes when the store saves it under `id`: any id in the
      body is ignored and the five data fields are copied. None when a NOT NULL
      column would receive a null. */
  function BookFromDto(dto: BookDTO, id: int): (b: Option<Book>)
    ensures b.Some? <==> dto.title.Some? && dto.author.Some? && dto.isbn.Some?
    ensures b.Some? ==> b.value.id == id && BookToDto(b.value) == dto.(id := Some(id))
  {
    if dto.title.Some? && dto.author.Some? && dto.isbn.Some? then
      Some(Book(id, dto.title.value, dto.author.value, dto.isbn.value, dto.quantity, dto.publicationDate))
    else
      None
  }

  /** The wire form loses nothing: it carries the record's id, and saving it under
      that id gives the record back. */
  lemma BookToDtoRoundTrip(b: Book)
    ensures BookToDto(b).id == Some(b.id)
    ensures BookFromDto(BookToDto(b), b.id) == Some(b)
  {
  }

  /** Exhausting a book by borrowing leaves a record whose wire form the book
      rules would refuse: the stored quantity may be 0, a submitted one may not. */
  lemma ExhaustedBookFailsValidation(b: Book)
    requires b.quantity == 0
    ensures QuantityNotPositive in BookViolations(BookToDto(b))
  {
  }

  // ---------------------------------------------------------------------------
  // The listing query

  /** order.equalsIgnoreCase("asc"); every other value sorts descending. */
  function Ascending(order: string): (asc: bool)
    ensures asc <==> Text.Lower(order) == "asc"
  {
    Text.EqualsIgnoreCase(order, "asc")
  }

  /** The search condition: no condition without a non-empty search term, else
      lower(title) or lower(author) LIKE '%' + the lower-cased term + '%'. */
  function Matches(b: Book, search: Option<string>): (r: bool)
    ensures search.None? || search.value == [] ==> r
    ensures search.Some? && search.value != [] && Text.NoWildcards(search.value) ==>
      (r <==> (Text.IsSubstring(Text.Lower(search.value), Text.Lower(b.title))
               || Text.IsSubstring(Text.Lower(search.value), Text.Lower(b.author))))
  {
    match search
    case None => true
    case Some(s) =>
      if s == [] then true
      else
        var term := Text.Lower(s);
        var pattern := "%" + term + "%";
        assert Text.NoWildcards(s) ==> Text.NoWildcards(term);
        Text.LikeContains(Text.Lower(b.title), term);
        Text.LikeContains(Text.Lower(b.author), term);
        Text.Like(Text.Lower(b.title), pattern) || Text.Like(Text.Lower(b.author), pattern)
  }

  /** The rows of the book table with ids in [lo, hi), in id order. */
  function Rows(books: map<int, Book>, lo: int, hi: int): (r: seq<Book>)
    requires forall k :: k in books ==> books[k].id == k
    ensures forall b :: multiset(r)[b] == if lo <= b.id < hi && b.id in books && books[b.id] == b then 1 else 0
    decreases hi - lo
  {
    if lo >= hi then []
    else (if lo in books then [books[lo]] else []) + Rows(books, lo + 1, hi)
  }

  /** The rows that satisfy the search condition, in their original order. */
  function Filter(rows: seq<Book>, search: Option<string>): (r: seq<Book>)
    ensures forall b :: multiset(r)[b] == if Matches(b, search) then multiset(rows)[b] else 0
  {
    if rows == [] then []
    else
      assert rows == [rows[0]] + rows[1..];
      (if Matches(rows[0], search) then [rows[0]] else []) + Filter(rows[1..], search)
  }

  /** The stream map to the wire form: one body per row, in the same order. */
  function BookDtos(s: seq<Book>): (r: seq<BookDTO>)
    ensures |r| == |s| && forall i :: 0 <= i < |s| ==> r[i] == BookToDto(s[i])
  {
    if s == [] then [] else [BookToDto(s[0])] + BookDtos(s[1..])
  }

  lemma {:induction false} BookDtosCount(s: seq<Book>, b: Book)
    ensures multiset(BookDtos(s))[BookToDto(b)] == multiset(s)[b]
  {
    if s != [] {
      BookDtosCount(s[1..], b);
      assert s == [s[0]] + s[1..];
      assert BookToDto(s[0]) == BookToDto(b) ==> s[0] == b;
    }
  }

  /** The listing is sorted by the wire form of attribute `f`. */
  ghost predicate DtosSorted(r: seq<BookDTO>, f: SortField, ascending: bool) {
    forall i, j :: 0 <= i < j < |r| ==> KeyInOrder(DtoKey(r[i], f), DtoKey(r[j], f), ascending)
  }

  /** Each stored book appears in the listing once if it satisfies the search
      condition and not at all otherwise. */
  lemma ListingCounts(db: Db, search: Option<string>, f: SortField, ascending: bool)
    requires Consistent(db)
    ensures var r := BookDtos(Sort(Filter(Rows(db.books, 1, db.nextBookId), search), f, ascending));
      forall k :: k in db.books ==>
        multiset(r)[BookToDto(db.books[k])] == if Matches(db.books[k], search) then 1 else 0
  {
    var selected := Sort(Filter(Rows(db.books, 1, db.nextBookId), search), f, ascending);
    forall k | k in db.books
      ensures multiset(BookDtos(selected))[BookToDto(db.books[k])] == if Matches(db.books[k], search) then 1 else 0
    {
      BookDtosCount(selected, db.books[k]);
    }
  }

  lemma ListingMember(db: Db, selected: seq<Book>, search: Option<string>, d: BookDTO)
    requires Consistent(db)
    requires multiset(selected) == multiset(Filter(Rows(db.books, 1, db.nextBookId), search))
    requires d in BookDtos(selected)
    ensures d.id.Some? && d.id.value in db.books && d == BookToDto(db.books[d.id.value])
    ensures Matches(db.books[d.id.value], search)
  {
    var rows := Rows(db.books, 1, db.nextBookId);
    var r := BookDtos(selected);
    var i :| 0 <= i < |r| && r[i] == d;
    var b := selected[i];
    assert b in multiset(selected);
    assert multiset(Filter(rows, search))[b] > 0;
    assert multiset(rows)[b] > 0;
  }

  /** Everything in the listing is the wire form of a stored book that satisfies
      the search condition. */
  lemma ListingMembers(db: Db, search: Option<string>, f: SortField, ascending: bool)
    requires Consistent(db)
    ensures var r := BookDtos(Sort(Filter(Rows(db.books, 1, db.nextBookId), search), f, ascending));
      forall d :: d in r ==>
        d.id.Some? && d.id.value in db.books && d == BookToDto(db.books[d.id.value])
        && Matches(db.books[d.id.value], search)
  {
    var selected := Sort(Filter(Rows(db.books, 1, db.nextBookId), search), f, ascending);
    forall d | d in BookDtos(selected)
      ensures d.id.Some? && d.id.value in db.books && d == BookToDto(db.books[d.id.value])
      ensures Matches(db.books[d.id.value], search)
    {
      ListingMember(db, selected, search, d);
    }
  }

  /** Mapping books to bodies keeps their order by any attribute. */
  lemma DtosKeepOrder(s: seq<Book>, f: SortField, ascending: bool)
    requires SortedBy(s, f, ascending)
    ensures DtosSorted(BookDtos(s), f, ascending)
  {
    var r := BookDtos(s);
    forall i, j | 0 <= i < j < |r|
      ensures KeyInOrder(DtoKey(r[i], f), DtoKey(r[j], f), ascending)
    {
      assert InOrder(s[i], s[j], f, ascending);
    }
  }

  lemma ListingSorted(db: Db, search: Option<string>, f: SortField, ascending: bool)
    requires Consistent(db)
    ensures DtosSorted(BookDtos(Sort(Filter(Rows(db.books, 1, db.nextBookId), search), f, ascending)), f, ascending)
  {
    var selected := Sort(Filter(Rows(db.books, 1, db.nextBookId), search), f, ascending);
    DtosKeepOrder(selected, f, ascending);
  }

  /** getAllBooks: every stored book that satisfies the search condition, exactly
      once and in its wire form, sorted by the attribute `sortBy` ascending when
      `order` is "asc" in any case and descending otherwise. An attribute name
      the entity does not have is refused. */
  function GetAllBooks(db: Db, search: Option<string>, sortBy: string, order: string): (r: Result<seq<BookDTO>>)
    requires Consistent(db)
    ensures r.Err? <==> FieldNamed(sortBy).None?
    ensures r.Err? ==> r.error == InvalidArgument
    ensures r.Ok? ==> forall k :: k in db.books ==>
      multiset(r.value)[BookToDto(db.books[k])] == if Matches(db.books[k], search) then 1 else 0
    ensures r.Ok? ==> forall d :: d in r.value ==>
      d.id.Some? && d.id.value in db.books && d == BookToDto(db.books[d.id.value])
      && Matches(db.books[d.id.value], search)
    ensures r.Ok? ==> DtosSorted(r.value, FieldNamed(sortBy).value, Ascending(order))
  {
    match FieldNamed(sortBy)
    case None => Err(InvalidArgument)
    case Some(f) =>
      var selected := Sort(Filter(Rows(db.books, 1, db.nextBookId), search), f, Ascending(order));
      var asc := Ascending(order);
      ListingCounts(db, search, f, asc);
      ListingMembers(db, search, f, asc);
      ListingSorted(db, search, f, asc);
      Ok(BookDtos(selected))
  }

  /** getBookById: the stored book in its wire form, or NotFound. */
  function GetBookById(db: Db, id: int): (r: Result<BookDTO>)
    requires Consistent(db)
    ensures r.Ok? <==> id in db.books
    ensures r.Ok? ==> r.value.id == Some(id)
    ensures r.Ok? ==> BookFromDto(r.value, id) == Some(db.books[id])
    ensures r.Err? ==> r.error == NotFound(id)
  {
    if id in db.books then Ok(BookToDto(db.books[id])) else Err(NotFound(id))
  }

  /** The term "ASI" in any case occurs in Asimov and in neither Dune nor Herbert. */
  lemma SearchTermMatches()
    ensures Matches(Book(2, "Foundation", "Asimov", "456", 1, None), Some("ASI"))
    ensures !Matches(Book(1, "Dune", "Herbert", "123", 2, None), Some("ASI"))
  {
    var term := Text.Lower("ASI");
    assert term == "asi";
    assert Text.Lower("Asimov") == "asimov";
    assert Text.Lower("Dune") == "dune";
    assert Text.Lower("Herbert") == "herbert";
    assert Text.OccursAt(term, "asimov", 0);
    assert !Text.IsSubstring(term, "dune") by {
      forall i | 0 <= i && i + 3 <= 4 ensures !Text.OccursAt(term, "dune", i) {
        assert "dune"[i] != 'a';
      }
    }
    assert !Text.IsSubstring(term, "herbert") by {
      forall i | 0 <= i && i + 3 <= 7 ensures !Text.OccursAt(term, "herbert", i) {
        assert "herbert"[i] != 'a';
      }
    }
  }

  /** When exactly one stored book satisfies the search condition, the listing
      is that book alone, whatever the sort. */
  lemma ListingOfSingleMatch(db: Db, search: Option<string>, sortBy: string, order: string, k: int)
    requires Consistent(db) && FieldNamed(sortBy).Some?
    requires k in db.books && Matches(db.books[k], search)
    requires forall j :: j in db.books && j != k ==> !Matches(db.books[j], search)
    ensures GetAllBooks(db, search, sortBy, order) == Ok([BookToDto(db.books[k])])
  {
    var r := GetAllBooks(db, search, sortBy, order);
    assert r.Ok?;
    var x := BookToDto(db.books[k]);
    assert multiset(r.value)[x] == 1;
    assert multiset(r.value) == multiset{x} by {
      forall d ensures multiset(r.value)[d] == multiset{x}[d] {
        assert d in r.value ==> d.id.value == k;
      }
    }
    assert |r.value| == 1 by {
      assert |multiset(r.value)| == |r.value|;
    }
    assert r.value[0] in multiset(r.value);
    assert r.value[0] == x;
    assert r.value == [x];
  }

  /** A worked search: with "Dune" by Herbert and "Foundation" by Asimov stored,
      the term "ASI" finds only Foundation. */
  lemma SearchScenario()
    ensures var dune := Book(1, "Dune", "Herbert", "123", 2, None);
      var foundation := Book(2, "Foundation", "Asimov", "456", 1, None);
      var db := Db(map[1 := dune, 2 := foundation], [], 3);
      GetAllBooks(db, Some("ASI"), "title", "asc") == Ok([BookToDto(foundation)])
  {
    var dune := Book(1, "Dune", "Herbert", "123", 2, None);
    var foundation := Book(2, "Foundation", "Asimov", "456", 1, None);
    var db := Db(map[1 := dune, 2 := foundation], [], 3);
    SearchTermMatches();
    assert Consistent(db);
    ListingOfSingleMatch(db, Some("ASI"), "title", "asc", 2);
  }

  // ---------------------------------------------------------------------------
  // Writes to the book table

  /** Some stored book other than the one under `except` has this isbn. */
  predicate IsbnInUse(books: map<int, Book>, isbn: string, except: int) {
    exists k :: k in books && k != except && books[k].isbn == isbn
  }

  /** createBook: the body is stored under the next identity value, whatever id
      it carries; a null title, author or isbn, or an isbn already stored, makes
      the store refuse and nothing is written. */
  function Creating(db: Db, dto: BookDTO): (o: Outcome<BookDTO>)
    requires Consistent(db)
    ensures Consistent(o.db)
    ensures o.result.Ok? <==>
      dto.title.Some? && dto.author.Some? && dto.isbn.Some?
      && forall k :: k in db.books ==> db.books[k].isbn != dto.isbn.value
    ensures o.result.Err? ==> o.result.error == ConstraintViolation && o.db == db
    ensures o.result.Ok? ==>
      var id := db.nextBookId;
      && id !in db.books
      && o.db.books.Keys == db.books.Keys + {id}
      && (forall k :: k in db.books ==> o.db.books[k] == db.books[k])
      && BookToDto(o.db.books[id]) == dto.(id := Some(id))
      && o.result.value == dto.(id := Some(id))
      && o.db.borrows == db.borrows
      && o.db.nextBookId == id + 1
  {
    var id := db.nextBookId;
    match BookFromDto(dto, id)
    case None => Outcome(Err(ConstraintViolation), db)
    case Some(b) =>
      if IsbnInUse(db.books, b.isbn, id) then Outcome(Err(ConstraintViolation), db)
      else Outcome(Ok(BookToDto(b)), db.(books := db.books[id := b], nextBookId := id + 1))
  }

  /** The id in a create body never reaches the store. */
  lemma CreateIgnoresBodyId(db: Db, dto: BookDTO, id: Option<int>)
    requires Consistent(db)
    ensures Creating(db, dto.(id := id)) == Creating(db, dto)
  {
  }

  /** updateBook: overwrites title, author, isbn, quantity and publicationDate of
      the stored book, keeping its id. NotFound for a missing id; the store refuses
      a null NOT NULL column or an isbn another book holds. Failures write nothing. */
  function Updating(db: Db, id: int, dto: BookDTO): (o: Outcome<BookDTO>)
    requires Consistent(db)
    ensures Consistent(o.db)
    ensures id !in db.books ==> o == Outcome(Err(NotFound(id)), db)
    ensures o.result.Ok? <==>
      id in db.books && dto.title.Some? && dto.author.Some? && dto.isbn.Some?
      && forall k :: k in db.books && k != id ==> db.books[k].isbn != dto.isbn.value
    ensures o.result.Err? ==> o.db == db
    ensures id in db.books && o.result.Err? ==> o.result.error == ConstraintViolation
    ensures o.result.Ok? ==>
      && o.db.books.Keys == db.books.Keys
      && BookToDto(o.db.books[id]) == dto.(id := Some(id))
      && (forall k :: k in db.books && k != id ==> o.db.books[k] == db.books[k])
      && o.result.value == dto.(id := Some(id))
      && o.db.borrows == db.borrows
      && o.db.nextBookId == db.nextBookId
  {
    if id !in db.books then Outcome(Err(NotFound(id)), db)
    else
      match BookFromDto(dto, id)
      case None => Outcome(Err(ConstraintViolation), db)
      case Some(b) =>
        if IsbnInUse(db.books, b.isbn, id) then Outcome(Err(ConstraintViolation), db)
        else Outcome(Ok(BookToDto(b)), db.(books := db.books[id := b]))
  }

  /** deleteBook: removes exactly that id. NotFound for a missing id; the store
      refuses while a loan record still refers to the book. Failures write nothing. */
  function Deleting(db: Db, id: int): (o: Outcome<()>)
    requires Consistent(db)
    ensures Consistent(o.db)
    ensures id !in db.books ==> o == Outcome(Err(NotFound(id)), db)
    ensures o.result.Ok? <==>
      id in db.books && forall i :: 0 <= i < |db.borrows| ==> db.borrows[i].bookId != id
    ensures o.result.Err? ==> o.db == db
    ensures id in db.books && o.result.Err? ==> o.result.error == ConstraintViolation
    ensures o.result.Ok? ==>
      && o.db.books.Keys == db.books.Keys - {id}
      && (forall k :: k in o.db.books ==> o.db.books[k] == db.books[k])
      && o.db.borrows == db.borrows
      && o.db.nextBookId == db.nextBookId
  {
    if id !in db.books then Outcome(Err(NotFound(id)), db)
    else if exists i :: 0 <= i < |db.borrows| && db.borrows[i].bookId == id then
      Outcome(Err(ConstraintViolation), db)
    else Outcome(Ok(()), db.(books := db.books - {id}))
  }

  // ---------------------------------------------------------------------------
  // The service object

  class BookService {
    const store: Store

    constructor (store: Store)
      ensures this.store == store
    {
      this.store := store;
    }

    method CreateBook(dto: BookDTO) returns (r: Result<BookDTO>)
      requires Consistent(store.Snapshot())
      modifies store
      ensures Outcome(r, store.Snapshot()) == Creating(old(store.Snapshot()), dto)
    {
      var id := store.nextBookId;
      var entity := BookFromDto(dto, id);
      if entity.None? {
        return Err(ConstraintViolation);
      }
      var book := entity.value;
      if IsbnInUse(store.books, book.isbn, id) {
        return Err(ConstraintViolation);
      }
      store.books := store.books[id := book];
      store.nextBookId := id + 1;
      r := Ok(BookToDto(book));
    }

    method UpdateBook(id: int, dto: BookDTO) returns (r: Result<BookDTO>)
      requires Consistent(store.Snapshot())
      modifies store
      ensures Outcome(r, store.Snapshot()) == Updating(old(store.Snapshot()), id, dto)
    {
      if id !in store.books {
        return Err(NotFound(id));
      }
      var existing := store.books[id];
      if dto.title.None? || dto.author.None? || dto.isbn.None? {
        return Err(ConstraintViolation);
      }
      existing := existing.(title := dto.title.value, author := dto.author.value, isbn := dto.isbn.value,
                            quantity := dto.quantity, publicationDate := dto.publicationDate);
      if IsbnInUse(store.books, existing.isbn, id) {
        return Err(ConstraintViolation);
      }
      store.books := store.books[id := existing];
      r := Ok(BookToDto(existing));
    }

    method DeleteBook(id: int) returns (r: Result<()>)
      requires Consistent(store.Snapshot())
      modifies store
      ensures Outcome(r, store.Snapshot()) == Deleting(old(store.Snapshot()), id)
    {
      if id !in store.books {
        return Err(NotFound(id));
      }
      if exists i :: 0 <= i < |store.borrows| && store.borrows[i].bookId == id {
        return Err(ConstraintViolation);
      }
      store.books := store.books - {id};
      r := Ok(());
    }
  }
}
