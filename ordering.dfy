/** The order the catalog query sorts by: a named attribute of Book, compared
    in its natural order, ascending or descending. */
module Ordering {
  import opened Results
  import opened Entities
  import opened Dtos

  /** The attributes of Book a query may sort by. */
  datatype SortField = Id | Title | Author | Isbn | Quantity | PublicationDate

  /** The attribute named `name` (attribute names are case-sensitive). */
  function FieldNamed(name: string): Option<SortField> {
    if name == "id" then Some(Id)
    else if name == "title" then Some(Title)
    else if name == "author" then Some(Author)
    else if name == "isbn" then Some(Isbn)
    else if name == "quantity" then Some(Quantity)
    else if name == "publicationDate" then Some(PublicationDate)
    else None
  }

  /** A value of a sort attribute: NULL, a number (ids, quantities, dates) or a string. */
  datatype Key = Null | Num(n: int) | Str(s: string)

  function Rank(k: Key): nat {
    match k
    case Null => 0
    case Num(_) => 1
    case Str(_) => 2
  }

  /** Lexicographic order on strings by character code. */
  predicate LexLe(a: string, b: string) {
    a == [] || (b != [] && (a[0] < b[0] || (a[0] == b[0] && LexLe(a[1..], b[1..]))))
  }

  /** The natural order on attribute values; NULL sorts before every value. */
  predicate KeyLe(a: Key, b: Key) {
    if Rank(a) != Rank(b) then Rank(a) < Rank(b)
    else match (a, b)
      case (Num(x), Num(y)) => x <= y
      case (Str(x), Str(y)) => LexLe(x, y)
      case _ => true
  }

  predicate KeyInOrder(a: Key, b: Key, ascending: bool) {
    if ascending then KeyLe(a, b) else KeyLe(b, a)
  }

  function BookKey(b: Book, f: SortField): Key {
    match f
    case Id => Num(b.id)
    case Title => Str(b.title)
    case Author => Str(b.author)
    case Isbn => Str(b.isbn)
    case Quantity => Num(b.quantity)
    case PublicationDate => if b.publicationDate.Some? then Num(b.publicationDate.value) else Null
  }

  function OptionKey(o: Option<string>): Key {
    if o.Some? then Str(o.value) else Null
  }

  function DtoKey(d: BookDTO, f: SortField): Key {
    match f
    case Id => if d.id.Some? then Num(d.id.value) else Null
    case Title => OptionKey(d.title)
    case Author => OptionKey(d.author)
    case Isbn => OptionKey(d.isbn)
    case Quantity => Num(d.quantity)
    case PublicationDate => if d.publicationDate.Some? then Num(d.publicationDate.value) else Null
  }

  lemma {:induction false} LexLeTotal(a: string, b: string)
    ensures LexLe(a, b) || LexLe(b, a)
  {
    if a != [] && b != [] && a[0] == b[0] {
      LexLeTotal(a[1..], b[1..]);
    }
  }

  lemma {:induction false} LexLeTransitive(a: string, b: string, c: string)
    requires LexLe(a, b) && LexLe(b, c)
    ensures LexLe(a, c)
  {
    if a != [] && a[0] == b[0] && b[0] == c[0] {
      LexLeTransitive(a[1..], b[1..], c[1..]);
    }
  }

  lemma KeyInOrderTotal(a: Key, b: Key, ascending: bool)
    ensures KeyInOrder(a, b, ascending) || KeyInOrder(b, a, ascending)
  {
    if a.Str? && b.Str? {
      LexLeTotal(a.s, b.s);
    }
  }

  lemma KeyInOrderTransitive(a: Key, b: Key, c: Key, ascending: bool)
    requires KeyInOrder(a, b, ascending) && KeyInOrder(b, c, ascending)
    ensures KeyInOrder(a, c, ascending)
  {
    if a.Str? && b.Str? && c.Str? {
      if ascending {
        LexLeTransitive(a.s, b.s, c.s);
      } else {
        LexLeTransitive(c.s, b.s, a.s);
      }
    }
  }

  predicate InOrder(x: Book, y: Book, f: SortField, ascending: bool) {
    KeyInOrder(BookKey(x, f), BookKey(y, f), ascending)
  }

  ghost predicate SortedBy(s: seq<Book>, f: SortField, ascending: bool) {
    forall i, j :: 0 <= i < j < |s| ==> InOrder(s[i], s[j], f, ascending)
  }

  /** `x` placed before the first element it is in order with. */
  function Insert(x: Book, s: seq<Book>, f: SortField, ascending: bool): (r: seq<Book>)
    ensures multiset(r) == multiset(s) + multiset{x}
  {
    if s == [] then [x]
    else if InOrder(x, s[0], f, ascending) then [x] + s
    else
      assert s == [s[0]] + s[1..];
      [s[0]] + Insert(x, s[1..], f, ascending)
  }

  lemma {:induction false} InsertKeepsSorted(x: Book, s: seq<Book>, f: SortField, ascending: bool)
    requires SortedBy(s, f, ascending)
    ensures SortedBy(Insert(x, s, f, ascending), f, ascending)
  {
    if s == [] {
    } else if InOrder(x, s[0], f, ascending) {
      forall j | 0 <= j < |s|
        ensures InOrder(x, s[j], f, ascending)
      {
        if j > 0 {
          KeyInOrderTransitive(BookKey(x, f), BookKey(s[0], f), BookKey(s[j], f), ascending);
        }
      }
    } else {
      KeyInOrderTotal(BookKey(x, f), BookKey(s[0], f), ascending);
      var tail := Insert(x, s[1..], f, ascending);
      InsertKeepsSorted(x, s[1..], f, ascending);
      forall j | 0 <= j < |tail|
        ensures InOrder(s[0], tail[j], f, ascending)
      {
        assert tail[j] in multiset(tail);
        if tail[j] != x {
          assert tail[j] in multiset(s[1..]);
          var k :| 0 <= k < |s[1..]| && s[1..][k] == tail[j];
          assert s[k + 1] == tail[j];
        }
      }
    }
  }

  /** Insertion sort: the books of `s`, each exactly as often as in `s`, in order by `f`. */
  function Sort(s: seq<Book>, f: SortField, ascending: bool): (r: seq<Book>)
    ensures multiset(r) == multiset(s)
    ensures SortedBy(r, f, ascending)
  {
    if s == [] then []
    else
      var sortedTail := Sort(s[1..], f, ascending);
      InsertKeepsSorted(s[0], sortedTail, f, ascending);
      assert s == [s[0]] + s[1..];
      Insert(s[0], sortedTail, f, ascending)
  }
}
