/**
 * Scenarios of the borrow and return rules on a small library.
 */
module Scenarios {
  import opened Models
  import opened Store
  import opened Serializers
  import opened Views

  /** A library holding books 1 to 6, one copy each, and nothing lent. */
  function Shelf(): (s: Library)
    ensures Consistent(s)
    ensures forall b :: b in s.books <==> 1 <= b <= 6
    ensures forall b :: b in s.books ==> s.books[b].stock == 1
  {
    var copy := Book(10, 1);
    Library(map[1 := copy, 2 := copy, 3 := copy, 4 := copy, 5 := copy, 6 := copy], map[], map[])
  }

  /** Nobody has anything out of an empty ledger. */
  lemma NothingOutstanding(u: UserId)
    ensures Outstanding(map[], u) == 0
  {
    assert Links(map[], u) == {};
  }

  /** Borrowing the last copies of two books empties both shelves; asking again for one of them is refused. */
  lemma LastCopiesGone(user: UserId, now: int)
    ensures CreateBorrow(Shelf(), user, [1, 2], now, 0).Ok?
    ensures var t := CreateBorrow(Shelf(), user, [1, 2], now, 0).value;
      && t.books[1].stock == 0 && t.books[2].stock == 0
      && CreateBorrow(t, user, [1], now, 1) == Err(OutOfStock)
  {
    NothingOutstanding(user);
    var t := CreateBorrow(Shelf(), user, [1, 2], now, 0).value;
    CreateRespectsLimit(Shelf(), user, [1, 2], now, 0);
    assert FoundBooks(Shelf().books, [1, 2]) == {1, 2};
  }

  /** Three books lent out of the shelf leave the user with three out and books 4 and 5 on the shelf. */
  lemma ThreeLent(user: UserId, now: int)
    ensures CreateBorrow(Shelf(), user, [1, 2, 3], now, 0).Ok?
    ensures var t := CreateBorrow(Shelf(), user, [1, 2, 3], now, 0).value;
      && Outstanding(t.borrows, user) == 3
      && 4 in t.books && t.books[4].stock == 1
      && 5 in t.books && t.books[5].stock == 1
      && t.borrows.Keys == {0}
  {
    NothingOutstanding(user);
    assert FoundBooks(Shelf().books, [1, 2, 3]) == {1, 2, 3};
    CreateRespectsLimit(Shelf(), user, [1, 2, 3], now, 0);
  }

  /** Three books and then two more are lent; one more is then over the limit. */
  lemma FiveThenNoMore(user: UserId, now: int)
    ensures CreateBorrow(Shelf(), user, [1, 2, 3], now, 0).Ok?
    ensures var t := CreateBorrow(Shelf(), user, [1, 2, 3], now, 0).value;
      && CreateBorrow(t, user, [4, 5], now, 1).Ok?
      && CreateBorrow(CreateBorrow(t, user, [4, 5], now, 1).value, user, [6], now, 2) == Err(LimitExceeded)
  {
    ThreeLent(user, now);
    var t := CreateBorrow(Shelf(), user, [1, 2, 3], now, 0).value;
    assert FoundBooks(t.books, [4, 5]) == {4, 5};
    assert CreateBorrow(t, user, [4, 5], now, 1).Ok?;
    var t2 := CreateBorrow(t, user, [4, 5], now, 1).value;
    CreateRespectsLimit(t, user, [4, 5], now, 1);
    assert Outstanding(t2.borrows, user) == 5;
    CreateRejectsOverLimit(t2, user, [6], now, 2);
  }

  /** A borrow returned twenty days after it was made yields a fine of 30, which the cascade then drops. */
  lemma LateReturn(user: UserId, now: int)
    ensures var t := CreateBorrow(Shelf(), user, [1], now, 0).value;
      && CalculateFines(t.borrows[0].returnDeadline, now + 20 * DAY) == 30
      && AfterReturn(t, User(user, false), 0, now + 20 * DAY, 0) == Ok(Shelf())
  {
    NothingOutstanding(user);
    TwentyDayLoanFine(now);
    BorrowThenReturn(Shelf(), user, [1], now, 0, User(user, false), now + 20 * DAY, 0);
  }
}
