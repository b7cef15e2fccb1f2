/**
 * The records of the library (books, borrows, fines) and the pure rules
 * attached to them: the stock flag, the 14-day loan policy, the overdue
 * test and the fine formula. Time is an integer count of seconds.
 */
module Models {

  /** Seconds in one day, the unit that `timedelta.days` counts. */
  const DAY: int := 86400
  /** Loan period of a new borrow, in days. */
  const LOAN_DAYS: int := 14
  /** Fine charged per whole day overdue. */
  const FINE_RATE: int := 5

  type BookId = nat
  type BorrowId = nat
  type FineId = nat
  type UserId = nat

  datatype User = User(id: UserId, isStaff: bool)

  /** A catalogue entry; only the fields the business rules look at. */
  datatype Book = Book(price: nat, stock: nat)

  /** A loan of a set of books to one user, with its creation time and deadline. */
  datatype Borrow = Borrow(user: UserId, books: set<BookId>, borrowAt: int, returnDeadline: int)

  /** A fine issued to a user for one borrow. */
  datatype Fine = Fine(user: UserId, borrow: BorrowId, amount: nat, paid: bool)

  /** The ways a request can be refused. */
  datatype Error =
    | NonPositivePrice
    | EmptyRequest
    | LimitExceeded
    | OutOfStock
    | NotFound

  datatype Result<T> = Ok(value: T) | Err(error: Error)

  /** Deadline of a borrow created at `now`: exactly fourteen days later. */
  function DefaultReturnDeadline(now: int): (deadline: int)
    ensures deadline - now == 1209600
    ensures deadline > now
  {
    now + LOAN_DAYS * DAY
  }

  /** A book can be lent when at least one copy is on the shelf. */
  function IsStock(b: Book): (r: bool)
    ensures r <==> b.stock != 0
  {
    b.stock > 0
  }

  /** A borrow is overdue strictly after its deadline. */
  function IsOverdue(deadline: int, now: int): (r: bool)
    ensures r <==> deadline < now
    ensures deadline == now ==> !r
  {
    now > deadline
  }

  /** `(now - deadline).days`: the number of whole days elapsed, rounded down. */
  function OverdueDays(deadline: int, now: int): (days: int)
    ensures days * DAY <= now - deadline < (days + 1) * DAY
  {
    (now - deadline) / DAY
  }

  /** The fine due on a borrow with the given deadline at time `now`. */
  function CalculateFines(deadline: int, now: int): (fine: nat)
    ensures fine % FINE_RATE == 0
    ensures !IsOverdue(deadline, now) ==> fine == 0
    ensures IsOverdue(deadline, now) ==>
              fine * DAY <= FINE_RATE * (now - deadline) < fine * DAY + FINE_RATE * DAY
  {
    if IsOverdue(deadline, now) then OverdueDays(deadline, now) * FINE_RATE else 0
  }

  /** When overdue, the fine is five times the number of whole days late. */
  lemma FineFormula(deadline: int, now: int)
    requires IsOverdue(deadline, now)
    ensures CalculateFines(deadline, now) == FINE_RATE * ((now - deadline) / DAY)
  {
  }

  /** Late by less than one full day: overdue, but nothing is charged yet. */
  lemma FineZeroWithinFirstDay(deadline: int, now: int)
    requires deadline < now < deadline + DAY
    ensures IsOverdue(deadline, now)
    ensures CalculateFines(deadline, now) == 0
  {
    assert OverdueDays(deadline, now) == 0;
  }

  /** For a fixed deadline, the fine never decreases as time advances. */
  lemma FineMonotonic(deadline: int, t1: int, t2: int)
    requires t1 <= t2
    ensures CalculateFines(deadline, t1) <= CalculateFines(deadline, t2)
  {
  }

  /** A borrow is neither overdue nor fined at the moment it is created. */
  lemma NewBorrowOwesNothing(now: int)
    ensures !IsOverdue(DefaultReturnDeadline(now), now)
    ensures CalculateFines(DefaultReturnDeadline(now), now) == 0
  {
  }

  /** Returned twenty days after borrowing: six days late, a fine of 30. */
  lemma TwentyDayLoanFine(borrowAt: int)
    ensures CalculateFines(DefaultReturnDeadline(borrowAt), borrowAt + 20 * DAY) == 30
  {
    assert OverdueDays(DefaultReturnDeadline(borrowAt), borrowAt + 20 * DAY) == 6;
  }
}
