/**
 * The write rules of the book and borrow serializers: price validation for
 * books, and the creation of a borrow (empty request, the five-book limit,
 * the stock check, the stock decrement and the new borrow record).
 */
module Serializers {
  import opened Models
  import opened Store

  /** At most this many book links may be outstanding per user. */
  const BORROW_LIMIT: int := 5

  /** A book's price is accepted unchanged when positive and refused otherwise. */
  function ValidatePrice(value: int): (r: Result<int>)
    ensures r.Ok? <==> value > 0
    ensures r.Ok? ==> r.value == value
    ensures r.Err? ==> r.error == NonPositivePrice
  {
    if value <= 0 then Err(NonPositivePrice) else Ok(value)
  }

  /** Saving a new book through the book serializer: the price is validated first. */
  method CreateBook(store: Database, id: BookId, price: int, stock: nat) returns (r: Result<Book>)
    requires store.Valid()
    requires id !in store.books
    modifies store
    ensures store.Valid()
    ensures r.Ok? <==> ValidatePrice(price).Ok?
    ensures r.Ok? ==> r.value == Book(price, stock)
                      && store.State() == old(store.State()).(books := old(store.books)[id := r.value])
    ensures r.Err? ==> r.error == NonPositivePrice && store.State() == old(store.State())
  {
    var checked := ValidatePrice(price);
    if checked.Err? {
      return Err(checked.error);
    }
    var book := Book(checked.value, stock);
    store.books := store.books[id := book];
    r := Ok(book);
  }

  /**
   * The book links held by `user`: one pair per (borrow, book) association
   * of that user's borrows, the rows that `Count('books')` counts.
   */
  function Links(borrows: map<BorrowId, Borrow>, user: UserId): (r: set<(BorrowId, BookId)>)
    ensures forall id, b :: (id, b) in r <==> id in borrows && borrows[id].user == user && b in borrows[id].books
  {
    set id, b | id in borrows && borrows[id].user == user && b in borrows[id].books :: (id, b)
  }

  /** The number of books the user currently has out, over all their borrows. */
  function Outstanding(borrows: map<BorrowId, Borrow>, user: UserId): (n: nat)
    ensures n == 0 <==> forall id :: id in borrows && borrows[id].user == user ==> borrows[id].books == {}
  {
    |Links(borrows, user)|
  }

  /** No user holds more than the limit. */
  ghost predicate WithinLimit(borrows: map<BorrowId, Borrow>) {
    forall u :: Outstanding(borrows, u) <= BORROW_LIMIT
  }

  /** The existing books whose ids were requested; unknown ids drop out, duplicates collapse. */
  function FoundBooks(books: map<BookId, Book>, bookIds: seq<BookId>): (r: set<BookId>)
    ensures forall b :: b in r <==> b in books && b in bookIds
  {
    set b | b in bookIds && b in books
  }

  /** The catalogue after one copy of every book in `taken` has been lent. */
  function Decremented(books: map<BookId, Book>, taken: set<BookId>): (r: map<BookId, Book>)
    requires forall b :: b in taken ==> b in books && books[b].stock > 0
    ensures r.Keys == books.Keys
    ensures forall b :: b in taken ==> r[b] == books[b].(stock := books[b].stock - 1)
    ensures forall b :: b in books && b !in taken ==> r[b] == books[b]
  {
    map b | b in books :: if b in taken then books[b].(stock := books[b].stock - 1) else books[b]
  }

  /** Every requested book that exists has a copy to lend. */
  function AllInStock(books: map<BookId, Book>, found: set<BookId>): (r: bool)
    requires found <= books.Keys
    ensures !r <==> exists b :: b in found && books[b].stock == 0
  {
    forall b :: b in found ==> IsStock(books[b])
  }

  /**
   * The library after `user` asks, at time `now`, to borrow `bookIds`; the
   * new borrow, if any, gets the id `id`.
   */
  function CreateBorrow(s: Library, user: UserId, bookIds: seq<BookId>, now: int, id: BorrowId): (r: Result<Library>)
    ensures r.Ok? <==>
              && |bookIds| > 0
              && Outstanding(s.borrows, user) + |bookIds| <= BORROW_LIMIT
              && (forall b :: b in s.books && b in bookIds ==> s.books[b].stock > 0)
  {
    if |bookIds| == 0 then Err(EmptyRequest)
    else if Outstanding(s.borrows, user) + |bookIds| > BORROW_LIMIT then Err(LimitExceeded)
    else
      var found := FoundBooks(s.books, bookIds);
      if !AllInStock(s.books, found) then Err(OutOfStock)
      else
        Ok(s.(books := Decremented(s.books, found),
              borrows := s.borrows[id := Borrow(user, found, now, DefaultReturnDeadline(now))]))
  }

  /**
   * `BorrowSerializer.create`: the checks in the order the serializer makes
   * them, then one stock decrement per found book, then the borrow record.
   */
  method Create(store: Database, user: UserId, bookIds: seq<BookId>, now: int, id: BorrowId) returns (r: Result<Borrow>)
    requires store.Valid()
    requires id !in store.borrows
    modifies store
    ensures store.Valid()
    ensures CreateBorrow(old(store.State()), user, bookIds, now, id).Ok? ==>
              && store.State() == CreateBorrow(old(store.State()), user, bookIds, now, id).value
              && r == Ok(store.borrows[id])
    ensures CreateBorrow(old(store.State()), user, bookIds, now, id).Err? ==>
              && store.State() == old(store.State())
              && r == Err(CreateBorrow(old(store.State()), user, bookIds, now, id).error)
  {
    if |bookIds| == 0 {
      return Err(EmptyRequest);
    }
    var current := Outstanding(store.borrows, user);
    if current + |bookIds| > BORROW_LIMIT {
      return Err(LimitExceeded);
    }
    var found := FoundBooks(store.books, bookIds);

    var unchecked := found;
    while unchecked != {}
      invariant unchecked <= found
      invariant forall b :: b in found - unchecked ==> IsStock(store.books[b])
      decreases unchecked
    {
      var b :| b in unchecked;
      if !IsStock(store.books[b]) {
        return Err(OutOfStock);
      }
      unchecked := unchecked - {b};
    }

    ghost var before := store.books;
    var pending := found;
    while pending != {}
      invariant pending <= found
      invariant store.books == Decremented(before, found - pending)
      invariant store.borrows == old(store.borrows) && store.fines == old(store.fines)
      decreases pending
    {
      var b :| b in pending;
      store.books := store.books[b := store.books[b].(stock := store.books[b].stock - 1)];
      pending := pending - {b};
    }
    var borrow := Borrow(user, found, now, DefaultReturnDeadline(now));
    store.borrows := store.borrows[id := borrow];
    r := Ok(borrow);
  }

  // Properties of a borrow request

  /** An empty request is refused. */
  lemma CreateRejectsEmpty(s: Library, user: UserId, now: int, id: BorrowId)
    ensures CreateBorrow(s, user, [], now, id) == Err(EmptyRequest)
  {
  }

  /** A request that would take the user past the limit is refused; duplicates and unknown ids count. */
  lemma CreateRejectsOverLimit(s: Library, user: UserId, bookIds: seq<BookId>, now: int, id: BorrowId)
    requires |bookIds| > 0
    requires Outstanding(s.borrows, user) + |bookIds| > BORROW_LIMIT
    ensures CreateBorrow(s, user, bookIds, now, id) == Err(LimitExceeded)
  {
  }

  /** Within the limit, one requested book with no copy left refuses the whole request. */
  lemma CreateRejectsOutOfStock(s: Library, user: UserId, bookIds: seq<BookId>, now: int, id: BorrowId, b: BookId)
    requires |bookIds| > 0
    requires Outstanding(s.borrows, user) + |bookIds| <= BORROW_LIMIT
    requires b in bookIds && b in s.books && s.books[b].stock == 0
    ensures CreateBorrow(s, user, bookIds, now, id) == Err(OutOfStock)
  {
  }

  /**
   * A granted request takes exactly one copy of each requested book that
   * exists, each of which had a copy to give, and touches no other book.
   */
  lemma CreateTakesOneCopyEach(s: Library, user: UserId, bookIds: seq<BookId>, now: int, id: BorrowId)
    requires CreateBorrow(s, user, bookIds, now, id).Ok?
    ensures var t := CreateBorrow(s, user, bookIds, now, id).value;
      && t.books.Keys == s.books.Keys
      && (forall b :: b in s.books && b in bookIds ==> s.books[b].stock >= 1 && t.books[b].stock == s.books[b].stock - 1)
      && (forall b :: b in s.books && b !in bookIds ==> t.books[b] == s.books[b])
  {
  }

  /**
   * A granted request adds one borrow, owned by the requester, holding the
   * requested books that exist, due fourteen days after `now`; no existing
   * borrow and no fine changes.
   */
  lemma CreateRecordsBorrow(s: Library, user: UserId, bookIds: seq<BookId>, now: int, id: BorrowId)
    requires id !in s.borrows
    requires CreateBorrow(s, user, bookIds, now, id).Ok?
    ensures var t := CreateBorrow(s, user, bookIds, now, id).value;
      && t.borrows.Keys == s.borrows.Keys + {id}
      && (forall k :: k in s.borrows ==> t.borrows[k] == s.borrows[k])
      && t.borrows[id].user == user
      && (forall b :: b in t.borrows[id].books <==> b in bookIds && b in s.books)
      && t.borrows[id].borrowAt == now
      && t.borrows[id].returnDeadline == now + LOAN_DAYS * DAY
      && t.fines == s.fines
  {
  }

  /** Requested ids that do not exist are ignored: such a request yields a borrow with no books. */
  lemma CreateWithUnknownIdsOnly(s: Library, user: UserId, bookIds: seq<BookId>, now: int, id: BorrowId)
    requires |bookIds| > 0 && Outstanding(s.borrows, user) + |bookIds| <= BORROW_LIMIT
    requires forall b :: b in bookIds ==> b !in s.books
    ensures CreateBorrow(s, user, bookIds, now, id).Ok?
    ensures CreateBorrow(s, user, bookIds, now, id).value.books == s.books
    ensures CreateBorrow(s, user, bookIds, now, id).value.borrows[id].books == {}
  {
    assert FoundBooks(s.books, bookIds) == {};
  }

  /** A granted request keeps the foreign keys intact. */
  lemma CreateKeepsConsistent(s: Library, user: UserId, bookIds: seq<BookId>, now: int, id: BorrowId)
    requires Consistent(s)
    requires CreateBorrow(s, user, bookIds, now, id).Ok?
    ensures Consistent(CreateBorrow(s, user, bookIds, now, id).value)
  {
  }

  // Counting book links

  /** The links a single borrow `id` contributes for the books `books`. */
  function Tagged(id: BorrowId, books: set<BookId>): (r: set<(BorrowId, BookId)>)
    ensures forall k, b :: (k, b) in r <==> k == id && b in books
  {
    set b | b in books :: (id, b)
  }

  /** A borrow contributes one link per book. */
  lemma {:induction false} TaggedCount(id: BorrowId, books: set<BookId>)
    ensures |Tagged(id, books)| == |books|
    decreases books
  {
    if books != {} {
      var b :| b in books;
      TaggedCount(id, books - {b});
      assert Tagged(id, books) == Tagged(id, books - {b}) + {(id, b)};
    }
  }

  /** The distinct ids a request names. */
  function Requested(bookIds: seq<BookId>): (r: set<BookId>)
    ensures forall b :: b in r <==> b in bookIds
  {
    set b | b in bookIds
  }

  /** A list of ids names at most as many distinct ids as it is long. */
  lemma {:induction false} RequestedBound(bookIds: seq<BookId>)
    ensures |Requested(bookIds)| <= |bookIds|
  {
    if bookIds != [] {
      var rest := Requested(bookIds[1..]);
      RequestedBound(bookIds[1..]);
      if bookIds[0] in rest {
        assert Requested(bookIds) == rest;
      } else {
        assert Requested(bookIds) == rest + {bookIds[0]};
      }
    }
  }

  /** The number of books found never exceeds the length of the request. */
  lemma FoundBound(books: map<BookId, Book>, bookIds: seq<BookId>)
    ensures |FoundBooks(books, bookIds)| <= |bookIds|
  {
    var requested, found := Requested(bookIds), FoundBooks(books, bookIds);
    RequestedBound(bookIds);
    assert requested == found + (requested - found);
  }

  /** Adding a fresh borrow of `user` adds its links to theirs and leaves everybody else's alone. */
  lemma LinksAfterAdd(borrows: map<BorrowId, Borrow>, id: BorrowId, borrow: Borrow, u: UserId)
    requires id !in borrows
    ensures borrow.user == u ==>
              Outstanding(borrows[id := borrow], u) == Outstanding(borrows, u) + |borrow.books|
    ensures borrow.user != u ==> Outstanding(borrows[id := borrow], u) == Outstanding(borrows, u)
  {
    var after := borrows[id := borrow];
    if borrow.user == u {
      assert Links(after, u) == Links(borrows, u) + Tagged(id, borrow.books);
      assert Links(borrows, u) !! Tagged(id, borrow.books);
      TaggedCount(id, borrow.books);
    } else {
      assert Links(after, u) == Links(borrows, u);
    }
  }

  /** After a granted request the requester holds at most five books. */
  lemma CreateRespectsLimit(s: Library, user: UserId, bookIds: seq<BookId>, now: int, id: BorrowId)
    requires id !in s.borrows
    requires CreateBorrow(s, user, bookIds, now, id).Ok?
    ensures Outstanding(CreateBorrow(s, user, bookIds, now, id).value.borrows, user) <= BORROW_LIMIT
    ensures Outstanding(CreateBorrow(s, user, bookIds, now, id).value.borrows, user)
            == Outstanding(s.borrows, user) + |FoundBooks(s.books, bookIds)|
  {
    var found := FoundBooks(s.books, bookIds);
    LinksAfterAdd(s.borrows, id, Borrow(user, found, now, DefaultReturnDeadline(now)), user);
    FoundBound(s.books, bookIds);
  }

  /** If nobody was over the limit before a granted request, nobody is after it. */
  lemma CreateKeepsLimit(s: Library, user: UserId, bookIds: seq<BookId>, now: int, id: BorrowId)
    requires id !in s.borrows
    requires WithinLimit(s.borrows)
    requires CreateBorrow(s, user, bookIds, now, id).Ok?
    ensures WithinLimit(CreateBorrow(s, user, bookIds, now, id).value.borrows)
  {
    var t := CreateBorrow(s, user, bookIds, now, id).value;
    var borrow := t.borrows[id];
    forall u ensures Outstanding(t.borrows, u) <= BORROW_LIMIT {
      LinksAfterAdd(s.borrows, id, borrow, u);
      if u == user {
        CreateRespectsLimit(s, user, bookIds, now, id);
      }
    }
  }
}
