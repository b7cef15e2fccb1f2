# BookBorrower business rules in Dafny

This project models the business core of a small library backend. Members
borrow books, the books' stock goes down and up again, and returning a
borrow late issues a fine, which deleting the borrow removes again within
the same call; staff can mark stored fines as paid. The model is a
sequential state machine over three stored collections:

- books by id, each with a price and a stock count;
- borrows by id, each with an owner, a set of book ids, a creation time and a return deadline;
- fines by id, each with an owner, a borrow id, an amount and a paid flag.

Time is an integer number of seconds, passed to every operation as `now`.
A day is 86400 seconds. `timedelta.days` is floor division of the
difference by 86400. Dafny's `/` by a positive divisor rounds down too,
so it computes the same days for negative differences as well.

Files and modules, one per source file plus the shared state:

- `Models.dfy` (`Models`): the records, the 14-day deadline, `is_stock`, `is_overdue`, the fine formula, and the error and result types.
- `Store.dfy` (`Store`): the library as a value (`Library`), its foreign-key invariant, the cascade that deleting a borrow applies to its fines, and the mutable `Database` class that holds the three maps.
- `Serializers.dfy` (`Serializers`): price validation, creating a book, and creating a borrow. Creating a borrow is a method with the source's two loops (stock check, then stock decrement). It is proved equal to the specification function `CreateBorrow`, and the properties are proved as lemmas about that function.
- `Views.dfy` (`Views`): the book permission choice, which borrows a caller can see, returning a borrow and paying a fine. Returning and paying are methods proved against their specification functions (`AfterReturn`, `PayFine`). This module also holds the round trip: borrowing and then returning restores the library.
- `Scenarios.dfy` (`Scenarios`): scenarios on a six-book library, stated and proved as lemmas.

Behaviour kept as the code has it, although it looks unintended:

- The limit check adds `len(book_ids)` to the user's outstanding count. Duplicate ids and unknown ids count towards the limit. Stock is then changed only for the distinct requested ids that exist. A request naming only unknown ids therefore creates a borrow with no books.
- The user's outstanding count is the number of (borrow, book) links over that user's borrows. This is what `Count('books')` counts over the join.
- `return_books` clears the books and then tests whether the count is zero. The test always passes, so the borrow is always deleted. `Fine.borrow` cascades on delete. Deleting the borrow therefore deletes the fine the same call has just created. The model applies the cascade explicitly: no fine survives a return (`Views.ReturnLosesIssuedFine`). The fine issued at return was evidently meant to be kept.
- The admin-only action list spells `'distroy'`. Deleting a book (`destroy`) therefore needs only member permission. Deleting a book was evidently meant to be admin-only.
- The code opens no transaction; the project settings are not part of the model, and the model is sequential. The stock check and the decrement are separate steps with no lock between them.

## Model

| member | source | states |
|---|---|---|
| `Models.DefaultReturnDeadline` | api/models.py:8-9 | a new deadline is exactly 1209600 seconds (14 days) after `now`, so strictly later |
| `Models.IsStock` | api/models.py:19-21 | a book can be lent exactly when its stock is not zero |
| `Models.IsOverdue` | api/models.py:34-36 | overdue exactly when `now` is strictly after the deadline; at the deadline itself it is not |
| `Models.OverdueDays` | api/models.py:40 | the whole days elapsed is the floor of the difference over 86400 s: `days*DAY <= now-deadline < (days+1)*DAY` |
| `Models.CalculateFines` | api/models.py:38-43 | the fine is a non-negative multiple of 5; it is 0 when not overdue; when overdue it is 5 per whole day late (bounded both ways by the elapsed time) |
| `Models.FineFormula` | api/models.py:39-42 | when overdue, the fine equals 5 × floor((now − deadline) / 86400) |
| `Models.FineZeroWithinFirstDay` | api/models.py:34-43 | less than one day after the deadline the borrow is overdue but the fine is 0 |
| `Models.FineMonotonic` | api/models.py:38-43 | for a fixed deadline the fine never decreases as `now` advances |
| `Models.NewBorrowOwesNothing` | api/models.py:32-43 | at its creation time a borrow is not overdue and owes no fine |
| `Models.TwentyDayLoanFine` | api/models.py:38-43 | returned 20 days after borrowing (6 days late) the fine is 30 |
| `Store.Consistent` | api/models.py:30-52 | the foreign keys: every book a borrow links to exists and every fine's borrow exists; a library with no borrows and no fines satisfies them |
| `Store.Cascade` | api/models.py:52 | deleting a borrow keeps exactly the fines that refer to other borrows, unchanged |
| `Serializers.ValidatePrice` | api/serializers.py:10-15 | a price is accepted exactly when positive and is then returned unchanged; otherwise it is refused |
| `Serializers.CreateBook` | api/serializers.py:5-15 | a book is stored with the given price and stock exactly when price validation accepts it; otherwise nothing changes |
| `Serializers.Outstanding` | api/serializers.py:46-51 | the user's outstanding count is 0 exactly when every borrow they own holds no books |
| `Serializers.Links` | api/serializers.py:46-51 | the counted links are exactly the (borrow, book) pairs of the user's borrows |
| `Serializers.FoundBooks` | api/serializers.py:59 | the found books are exactly the requested ids that exist |
| `Serializers.AllInStock` | api/serializers.py:63-67 | the stock check fails exactly when some found book has stock 0 |
| `Serializers.Decremented` | api/serializers.py:69-71 | lending takes exactly one copy from each taken book and leaves every other book as it was |
| `Serializers.CreateBorrow` | api/serializers.py:35-74 | a request is granted exactly when it is non-empty, within the 5-book limit counting `len(book_ids)`, and every requested existing book has stock |
| `Serializers.Create` | api/serializers.py:35-74 | the method's loops produce exactly the state and result of `CreateBorrow`; on refusal nothing changes; the foreign keys stay intact |
| `Serializers.CreateRejectsEmpty` | api/serializers.py:38-41 | an empty request is refused as empty |
| `Serializers.CreateRejectsOverLimit` | api/serializers.py:46-56 | a request that would take the outstanding count past 5 is refused with the limit error |
| `Serializers.CreateRejectsOutOfStock` | api/serializers.py:63-67 | within the limit, any existing requested book with stock 0 refuses the whole request |
| `Serializers.CreateTakesOneCopyEach` | api/serializers.py:59-71 | on success each requested existing book had stock ≥ 1 and loses exactly 1; every other book is unchanged |
| `Serializers.CreateRecordsBorrow` | api/serializers.py:72-73 | on success exactly one borrow is added, owned by the requester, holding the requested existing books, created at `now` and due 14 days later; other borrows and fines are unchanged |
| `Serializers.CreateWithUnknownIdsOnly` | api/serializers.py:59-73 | a request naming only unknown ids succeeds, changes no stock and records a borrow with no books |
| `Serializers.CreateKeepsConsistent` | api/serializers.py:59-73 | a granted request keeps every borrowed book existing and every fine's borrow existing |
| `Serializers.Tagged` | api/serializers.py:49-51 | the links of one borrow are exactly its books paired with its id |
| `Serializers.TaggedCount` | api/serializers.py:49-51 | a borrow contributes one counted link per book |
| `Serializers.RequestedBound` | api/serializers.py:53 | a request names at most as many distinct ids as its length |
| `Serializers.FoundBound` | api/serializers.py:53-59 | the found set is never larger than `len(book_ids)` |
| `Serializers.LinksAfterAdd` | api/serializers.py:46-51 | adding a fresh borrow raises its owner's count by its number of books and no one else's |
| `Serializers.CreateRespectsLimit` | api/serializers.py:53-73 | after a granted request the requester's count is the old count plus the books found, and at most 5 |
| `Serializers.CreateKeepsLimit` | api/serializers.py:46-73 | if no user was over 5 books before a granted request, none is after it |
| `Views.BookPermission` | api/views.py:13-18 | administrator permission exactly for the listed actions `create`, `update`, `partial_update`, `distroy`; membership for every other action |
| `Views.MemberActions` | api/views.py:13-18 | `list`, `retrieve` and `destroy` need only membership; `create`, `update`, `partial_update` need an administrator |
| `Views.VisibleBorrows` | api/views.py:24-27 | staff see every borrow; anyone else sees exactly the borrows they own, with their stored contents |
| `Views.Incremented` | api/views.py:34-36 | a return puts back exactly one copy of each returned book and leaves every other book as it was |
| `Views.IssueFine` | api/views.py:39-45 | a fine is added only when the calculated fine is positive, with that amount, the borrow's owner, that borrow and unpaid; otherwise the fines are unchanged |
| `Views.AfterReturn` | api/views.py:30-50 | a return is carried out exactly when the borrow exists and is visible to the caller; otherwise it is refused as not found |
| `Views.ReturnBooks` | api/views.py:30-50 | the method's loop and steps produce exactly the state of `AfterReturn`; on refusal nothing changes; the foreign keys stay intact |
| `Views.ReturnRestocks` | api/views.py:34-36 | on a return every book of the borrow gains exactly 1 stock and every other book is unchanged |
| `Views.ReturnDeletesBorrow` | api/views.py:47-49 | after a return the borrow no longer exists and every other borrow is kept |
| `Views.ReturnLosesIssuedFine` | api/views.py:39-49 | because the borrow's deletion cascades, no fine for the returned borrow survives, including the one just issued; the other fines are those stored before |
| `Views.ReturnKeepsConsistent` | api/views.py:30-50 | a return keeps every borrowed book existing and every fine's borrow existing |
| `Views.OutstandingAfterDelete` | api/views.py:47-49 | deleting a borrow never raises any user's outstanding count |
| `Views.ReturnKeepsLimit` | api/views.py:47-49 | if no user was over 5 books before a return, none is after it |
| `Views.RestockUndoesLending` | api/views.py:34-36 | taking back the copies that were lent restores the catalogue exactly |
| `Views.ReturnUndoesFreshBorrow` | api/views.py:30-50 | returning a borrow that was just added, with its copies just lent, gives back the library as it was before |
| `Views.BorrowThenReturn` | api/views.py:30-50 | borrowing and then returning that borrow (by its owner or staff, at any time) restores the whole library: every stock, borrow and fine |
| `Views.PayFine` | api/views.py:60-64 | paying an existing fine sets `paid` and keeps its amount, user and borrow and every other fine; a missing fine is not found |
| `Views.Pay` | api/views.py:60-64 | the method changes exactly the state `PayFine` describes and returns the paid fine |
| `Views.PayIdempotent` | api/views.py:60-64 | paying a fine a second time changes nothing |
| `Scenarios.LastCopiesGone` | api/serializers.py:63-71 | borrowing the last copy of two books leaves both at stock 0, and a further request for one of them is refused as out of stock |
| `Scenarios.ThreeLent` | api/serializers.py:69-73 | lending three books from the shelf leaves the user with 3 out, one borrow, and books 4 and 5 still in stock |
| `Scenarios.FiveThenNoMore` | api/serializers.py:46-56 | borrowing 3 books and then 2 succeeds; a following 1-book request is refused by the limit |
| `Scenarios.LateReturn` | api/views.py:39-49 | a borrow returned 20 days after it was made owes 30, and after the return the library is as it was before the borrow |

## Left out

- Book fields other than price and stock (title, author, description) and every `__str__`: they carry no rule.
- Listing, retrieving, updating and deleting books, borrows and fines through the generic viewset actions. These are framework CRUD. Only book creation is modelled, because it runs `validate_price`. Updating a book (`update`, `partial_update`) goes through the same `BookSerializer` validation and also refuses a price of 0 or less; it is left out as framework CRUD all the same.
- The permission classes `IsAdminUser` and `IsMember` live in `api/permissions.py`, which is not part of this model. `Views.BookPermission` returns which class is chosen, not what it checks.
- `FineViewSet.get_queryset` returns `None` for non-staff callers, so a non-staff `pay` fails inside the framework. That path is not modelled. `Views.Pay` fails only when the fine does not exist.
- `Fine.borrow` is one-to-one, and creating a second fine for the same borrow would raise an integrity error. The model does not enforce this. No return leaves a fine behind. Fines created on the admin pages are outside the model. For a borrow that already has one, a return with a fine due fails at the second `Fine.objects.create` after the stock has been put back (assuming no request-level transaction); the model does not capture this: `Views.AfterReturn` deletes the borrow and both fines. Returned on time, the source and the model both delete the old fine with the borrow.
- `issued_at`, and the admin pages and URL routing (`api/admin.py`, `api/urls.py`). The migration is not modelled beyond the non-negative stock and amount it declares.
- The clock: `now` is a parameter. The source reads the clock once for `borrow_at` and again for the deadline. The model uses one `now` for both, so the deadline is exactly 14 days after `borrow_at`. `calculate_fines` also reads the clock twice, once in `is_overdue` and once for the overdue days; the model uses one `now` for both. Sub-second time is ignored.
- Concurrency: simultaneous requests, and the absence of any transaction the code opens around check-then-decrement.
- Serializers.Create: requires that the new borrow id is unused. This stands in for the fresh `uuid4` the source generates.
- Views.ReturnBooks: requires that the new fine id is unused. This stands in for the fresh `uuid4` the source generates.
- Serializers.CreateBook: requires that the new book id is unused. This stands in for the auto-increment primary key.
- Serializers.Create and Views.ReturnBooks and Views.Pay and Serializers.CreateBook: they need `Valid()` on entry. That is the foreign-key integrity the database always enforces.
