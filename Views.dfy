/**
 * The request handlers' rules: which permission a book action needs, which
 * borrows a caller can see, returning a borrow (restock, fine, clear,
 * delete with its cascade) and paying a fine.
 */
module Views {
  import opened Models
  import opened Store
  import opened Serializers

  datatype Permission = IsAdminUser | IsMember

  /** Book actions that `BookViewSet.get_permissions` reserves for administrators, spelled as in the list. */
  const ADMIN_ACTIONS: set<string> := {"create", "update", "partial_update", "distroy"}

  /** The permission a book action requires. */
  function BookPermission(action: string): (p: Permission)
    ensures p == IsAdminUser <==> action in ADMIN_ACTIONS
    ensures p == IsMember <==> action !in ADMIN_ACTIONS
  {
    if action in ADMIN_ACTIONS then IsAdminUser else IsMember
  }

  /** Reading the catalogue and, because of the spelling `distroy`, deleting a book need only membership. */
  lemma MemberActions()
    ensures BookPermission("list") == IsMember && BookPermission("retrieve") == IsMember
    ensures BookPermission("destroy") == IsMember
    ensures BookPermission("create") == IsAdminUser && BookPermission("update") == IsAdminUser
    ensures BookPermission("partial_update") == IsAdminUser
  {
  }

  /** The borrows a caller can see: all of them for staff, otherwise exactly their own. */
  function VisibleBorrows(borrows: map<BorrowId, Borrow>, caller: User): (r: map<BorrowId, Borrow>)
    ensures forall id :: id in r <==> id in borrows && (caller.isStaff || borrows[id].user == caller.id)
    ensures forall id :: id in r ==> r[id] == borrows[id]
  {
    if caller.isStaff then borrows
    else map id | id in borrows && borrows[id].user == caller.id :: borrows[id]
  }

  /** The catalogue after one copy of every book in `returned` has come back. */
  function Incremented(books: map<BookId, Book>, returned: set<BookId>): (r: map<BookId, Book>)
    ensures r.Keys == books.Keys
    ensures forall b :: b in books && b in returned ==> r[b] == books[b].(stock := books[b].stock + 1)
    ensures forall b :: b in books && b !in returned ==> r[b] == books[b]
  {
    map b | b in books :: if b in returned then books[b].(stock := books[b].stock + 1) else books[b]
  }

  /** The fines after the return of borrow `id` at time `now`: a new unpaid fine exactly when one is due. */
  function IssueFine(fines: map<FineId, Fine>, id: BorrowId, borrow: Borrow, now: int, fineId: FineId): (r: map<FineId, Fine>)
    ensures CalculateFines(borrow.returnDeadline, now) == 0 ==> r == fines
    ensures CalculateFines(borrow.returnDeadline, now) > 0 ==>
              && r.Keys == fines.Keys + {fineId}
              && r[fineId] == Fine(borrow.user, id, CalculateFines(borrow.returnDeadline, now), false)
              && (forall f :: f in fines && f != fineId ==> r[f] == fines[f])
  {
    var amount := CalculateFines(borrow.returnDeadline, now);
    if amount > 0 then fines[fineId := Fine(borrow.user, id, amount, false)] else fines
  }

  /**
   * The library after `caller` returns borrow `id` at time `now`; a fine, if
   * one is issued, gets the id `fineId`. The book set is cleared first and
   * the borrow deleted when it is empty, which after clearing it always is.
   */
  function AfterReturn(s: Library, caller: User, id: BorrowId, now: int, fineId: FineId): (r: Result<Library>)
    ensures r.Ok? <==> id in s.borrows && (caller.isStaff || s.borrows[id].user == caller.id)
    ensures r.Err? ==> r.error == NotFound
  {
    var visible := VisibleBorrows(s.borrows, caller);
    if id !in visible then Err(NotFound)
    else
      var borrow := visible[id];
      var books := Incremented(s.books, borrow.books);
      var fines := IssueFine(s.fines, id, borrow, now, fineId);
      var cleared: map<BorrowId, Borrow> := s.borrows[id := borrow.(books := {})];
      if |cleared[id].books| == 0 then Ok(Library(books, cleared - {id}, Cascade(fines, id)))
      else Ok(Library(books, cleared, fines))
  }

  /**
   * `BorrowViewSet.return_books`: one stock increment per attached book,
   * the fine if one is due, then clearing the books and deleting the borrow.
   */
  method ReturnBooks(store: Database, caller: User, id: BorrowId, now: int, fineId: FineId) returns (r: Result<()>)
    requires store.Valid()
    requires fineId !in store.fines
    modifies store
    ensures store.Valid()
    ensures AfterReturn(old(store.State()), caller, id, now, fineId).Ok? ==>
              r == Ok(()) && store.State() == AfterReturn(old(store.State()), caller, id, now, fineId).value
    ensures AfterReturn(old(store.State()), caller, id, now, fineId).Err? ==>
              r == Err(NotFound) && store.State() == old(store.State())
  {
    var visible := VisibleBorrows(store.borrows, caller);
    if id !in visible {
      return Err(NotFound);
    }
    var borrow := visible[id];
    ghost var s0 := store.State();

    ghost var before := store.books;
    var pending := borrow.books;
    while pending != {}
      invariant pending <= borrow.books
      invariant store.books == Incremented(before, borrow.books - pending)
      invariant store.borrows == old(store.borrows) && store.fines == old(store.fines)
      decreases pending
    {
      var b :| b in pending;
      IncrementedStep(before, borrow.books - pending, b);
      store.books := store.books[b := store.books[b].(stock := store.books[b].stock + 1)];
      pending := pending - {b};
    }
    assert borrow.books - pending == borrow.books;

    var amount := CalculateFines(borrow.returnDeadline, now);
    if amount > 0 {
      store.fines := store.fines[fineId := Fine(borrow.user, id, amount, false)];
    }

    store.borrows := store.borrows[id := borrow.(books := {})];
    if |store.borrows[id].books| == 0 {
      store.borrows := store.borrows - {id};
      store.fines := Cascade(store.fines, id);
    }
    r := Ok(());
    assert store.State() == AfterReturn(s0, caller, id, now, fineId).value;
    ReturnKeepsConsistent(s0, caller, id, now, fineId);
  }

  /** Putting back one more copy extends the restock by that one book. */
  lemma IncrementedStep(books: map<BookId, Book>, done: set<BookId>, b: BookId)
    requires b in books && b !in done
    ensures Incremented(books, done + {b})
         == Incremented(books, done)[b := books[b].(stock := books[b].stock + 1)]
  {
  }

  /** The fines after fine `id` is paid. */
  function PayFine(fines: map<FineId, Fine>, id: FineId): (r: Result<map<FineId, Fine>>)
    ensures r.Ok? <==> id in fines
    ensures r.Err? ==> r.error == NotFound
    ensures r.Ok? ==>
              && r.value.Keys == fines.Keys
              && r.value[id].paid
              && r.value[id].amount == fines[id].amount
              && r.value[id].user == fines[id].user
              && r.value[id].borrow == fines[id].borrow
              && (forall f :: f in fines && f != id ==> r.value[f] == fines[f])
  {
    if id !in fines then Err(NotFound) else Ok(fines[id := fines[id].(paid := true)])
  }

  /** `FineViewSet.pay`: mark the fine paid in place. */
  method Pay(store: Database, id: FineId) returns (r: Result<Fine>)
    requires store.Valid()
    modifies store
    ensures store.Valid()
    ensures PayFine(old(store.fines), id).Ok? ==>
              && store.State() == old(store.State()).(fines := PayFine(old(store.fines), id).value)
              && r == Ok(store.fines[id])
    ensures PayFine(old(store.fines), id).Err? ==>
              r == Err(NotFound) && store.State() == old(store.State())
  {
    if id !in store.fines {
      return Err(NotFound);
    }
    var fine := store.fines[id].(paid := true);
    store.fines := store.fines[id := fine];
    r := Ok(fine);
  }

  // Properties of a return

  /** A granted return puts back one copy of every book of the borrow and touches no other book. */
  lemma ReturnRestocks(s: Library, caller: User, id: BorrowId, now: int, fineId: FineId)
    requires AfterReturn(s, caller, id, now, fineId).Ok?
    ensures var t := AfterReturn(s, caller, id, now, fineId).value;
      && t.books.Keys == s.books.Keys
      && (forall b :: b in s.books && b in s.borrows[id].books ==> t.books[b].stock == s.books[b].stock + 1)
      && (forall b :: b in s.books && b !in s.borrows[id].books ==> t.books[b] == s.books[b])
  {
  }

  /** After a granted return the borrow is gone, together with its books, and every other borrow is kept. */
  lemma ReturnDeletesBorrow(s: Library, caller: User, id: BorrowId, now: int, fineId: FineId)
    requires AfterReturn(s, caller, id, now, fineId).Ok?
    ensures var t := AfterReturn(s, caller, id, now, fineId).value;
      && id !in t.borrows
      && t.borrows == s.borrows - {id}
  {
  }

  /**
   * The cascade from deleting the borrow removes the fine the return has
   * just issued: whatever is due, no fine for the borrow survives, and the
   * other fines are those stored before.
   */
  lemma ReturnLosesIssuedFine(s: Library, caller: User, id: BorrowId, now: int, fineId: FineId)
    requires fineId !in s.fines
    requires AfterReturn(s, caller, id, now, fineId).Ok?
    ensures var t := AfterReturn(s, caller, id, now, fineId).value;
      && t.fines == Cascade(s.fines, id)
      && (forall f :: f in t.fines ==> t.fines[f].borrow != id)
      && fineId !in t.fines
  {
    var borrow := s.borrows[id];
    var t := AfterReturn(s, caller, id, now, fineId).value;
    var issued := IssueFine(s.fines, id, borrow, now, fineId);
    assert t.fines == Cascade(issued, id);
    if CalculateFines(borrow.returnDeadline, now) > 0 {
      assert issued == s.fines[fineId := Fine(borrow.user, id, CalculateFines(borrow.returnDeadline, now), false)];
    }
  }

  /** A granted return keeps the foreign keys intact. */
  lemma ReturnKeepsConsistent(s: Library, caller: User, id: BorrowId, now: int, fineId: FineId)
    requires Consistent(s)
    requires AfterReturn(s, caller, id, now, fineId).Ok?
    ensures Consistent(AfterReturn(s, caller, id, now, fineId).value)
  {
  }

  /** Deleting a borrow never raises anybody's count of books out. */
  lemma OutstandingAfterDelete(borrows: map<BorrowId, Borrow>, id: BorrowId, u: UserId)
    ensures Outstanding(borrows - {id}, u) <= Outstanding(borrows, u)
  {
    var before, after := Links(borrows, u), Links(borrows - {id}, u);
    assert after <= before;
    assert before == after + (before - after);
  }

  /** If nobody was over the limit before a return, nobody is after it. */
  lemma ReturnKeepsLimit(s: Library, caller: User, id: BorrowId, now: int, fineId: FineId)
    requires WithinLimit(s.borrows)
    requires AfterReturn(s, caller, id, now, fineId).Ok?
    ensures WithinLimit(AfterReturn(s, caller, id, now, fineId).value.borrows)
  {
    var t := AfterReturn(s, caller, id, now, fineId).value;
    ReturnDeletesBorrow(s, caller, id, now, fineId);
    forall u ensures Outstanding(t.borrows, u) <= BORROW_LIMIT {
      OutstandingAfterDelete(s.borrows, id, u);
    }
  }

  /** Lending a set of copies and taking the same copies back restores the catalogue. */
  lemma RestockUndoesLending(books: map<BookId, Book>, taken: set<BookId>)
    requires forall b :: b in taken ==> b in books && books[b].stock > 0
    ensures Incremented(Decremented(books, taken), taken) == books
  {
    var back := Incremented(Decremented(books, taken), taken);
    assert forall b :: b in books ==> back[b] == books[b];
  }

  /** Returning a borrow that was just added, with its copies just lent, gives back the library before it. */
  lemma ReturnUndoesFreshBorrow(s: Library, borrow: Borrow, id: BorrowId, caller: User, later: int, fineId: FineId)
    requires Consistent(s)
    requires id !in s.borrows && fineId !in s.fines
    requires forall b :: b in borrow.books ==> b in s.books && s.books[b].stock > 0
    requires caller.isStaff || caller.id == borrow.user
    ensures AfterReturn(Library(Decremented(s.books, borrow.books), s.borrows[id := borrow], s.fines),
                        caller, id, later, fineId) == Ok(s)
  {
    var t := Library(Decremented(s.books, borrow.books), s.borrows[id := borrow], s.fines);
    assert AfterReturn(t, caller, id, later, fineId).Ok?;
    var u := AfterReturn(t, caller, id, later, fineId).value;
    assert u.books == Incremented(t.books, borrow.books);
    RestockUndoesLending(s.books, borrow.books);
    ReturnDeletesBorrow(t, caller, id, later, fineId);
    assert t.borrows - {id} == s.borrows;
    ReturnLosesIssuedFine(t, caller, id, later, fineId);
    assert Cascade(s.fines, id) == s.fines;
  }

  /**
   * Borrowing and then returning that borrow, by its owner or by staff and
   * at any later time, gives back exactly the library that was there before:
   * every stock, every borrow and every fine.
   */
  lemma BorrowThenReturn(s: Library, user: UserId, bookIds: seq<BookId>, now: int, id: BorrowId,
                         caller: User, later: int, fineId: FineId)
    requires Consistent(s)
    requires id !in s.borrows && fineId !in s.fines
    requires CreateBorrow(s, user, bookIds, now, id).Ok?
    requires caller.isStaff || caller.id == user
    ensures AfterReturn(CreateBorrow(s, user, bookIds, now, id).value, caller, id, later, fineId) == Ok(s)
  {
    var found := FoundBooks(s.books, bookIds);
    var borrow := Borrow(user, found, now, DefaultReturnDeadline(now));
    assert CreateBorrow(s, user, bookIds, now, id).value
        == Library(Decremented(s.books, found), s.borrows[id := borrow], s.fines);
    ReturnUndoesFreshBorrow(s, borrow, id, caller, later, fineId);
  }

  // Properties of paying

  /** Paying a fine twice is the same as paying it once. */
  lemma PayIdempotent(fines: map<FineId, Fine>, id: FineId)
    requires id in fines
    ensures PayFine(PayFine(fines, id).value, id) == PayFine(fines, id)
  {
    var once := PayFine(fines, id).value;
    assert once[id := once[id].(paid := true)] == once;
  }
}
