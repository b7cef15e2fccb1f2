/**
 * The persisted state of the library: books by id, borrows by id and fines
 * by id. `Library` is its value, used by the specification functions;
 * `Database` is the mutable store the request handlers update in place.
 */
module Store {
  import opened Models

  datatype Library = Library(
    books: map<BookId, Book>,
    borrows: map<BorrowId, Borrow>,
    fines: map<FineId, Fine>)

  /**
   * The foreign keys the database enforces: every book a borrow links to
   * exists, and every fine refers to an existing borrow.
   */
  ghost function Consistent(s: Library): (r: bool)
    ensures s.borrows == map[] && s.fines == map[] ==> r
  {
    && (forall id :: id in s.borrows ==> s.borrows[id].books <= s.books.Keys)
    && (forall f :: f in s.fines ==> s.fines[f].borrow in s.borrows)
  }

  /** Deleting the borrow `id` deletes every fine that refers to it (`on_delete=CASCADE`). */
  function Cascade(fines: map<FineId, Fine>, id: BorrowId): (r: map<FineId, Fine>)
    ensures forall f :: f in r <==> f in fines && fines[f].borrow != id
    ensures forall f :: f in r ==> r[f] == fines[f]
  {
    map f | f in fines && fines[f].borrow != id :: fines[f]
  }

  class Database {
    var books: map<BookId, Book>
    var borrows: map<BorrowId, Borrow>
    var fines: map<FineId, Fine>

    function State(): Library
      reads this
    {
      Library(books, borrows, fines)
    }

    ghost predicate Valid()
      reads this
    {
      Consistent(State())
    }

    /** An empty library. */
    constructor ()
      ensures Valid()
      ensures State() == Library(map[], map[], map[])
    {
      books, borrows, fines := map[], map[], map[];
    }
  }
}
