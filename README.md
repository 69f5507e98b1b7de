# Library circulation service, modelled in Dafny

This project models the business logic of a small library management
service. The logic covers:

- adding books to the catalogue, after checking title, author, ISBN and copy count;
- lending books to patrons, who are identified by a six-digit library card
  number and may hold at most five books, one copy of each title;
- taking books back;
- computing late fees: 0.50 a day for the first week overdue, then 1.00 a
  day, capped at 15.00 per book;
- searching the catalogue by title, author or ISBN;
- building a patron's status report;
- paying and refunding late fees through an external payment gateway.

The logic lives in `services/library_service.py`. The top-level
`library_service.py` is an earlier copy of the same six functions, without
the two payment functions, so one model covers both. The table below cites
the `services/` copy. In the top-level copy the functions sit at:

- `add_book_to_catalog`: library_service.py:15-67
- `borrow_book_by_patron`: library_service.py:69-118
- `return_book_by_patron`: library_service.py:120-166
- `calculate_late_fee_for_book`: library_service.py:168-229
- `search_books_in_catalog`: library_service.py:231-272
- `get_patron_status_report`: library_service.py:274-356

The model is split into these modules:

- `Entities`: the two stored tables, books and borrow records.
- `Text`: the ASCII parts of `strip`, `isdigit`, `lower` and `in`.
- `Filters`: the selection of the elements of a sequence that pass a test,
  keeping their order and repetitions. The store's queries and the
  service's list comprehensions are all such selections.
- `Fees`: the fee tiers.
- `Catalog`: the validation of a new book.
- `Circulation`: the views of the record table that the service queries,
  the borrow guards, and the state a borrow or a return produces. It also
  holds the consistency invariant `Inv`:
  - ISBNs are unique;
  - each book's available copies plus its copies on loan equal its total;
  - every record names a catalogue book and a valid card, and is due 14
    days after it was made;
  - there is at most one open loan per (patron, book) pair;
  - no patron holds more than five books.
- `Reporting`: the status-report rows and the fee total.
- `Search`: the matching rule of the catalogue search.
- `Payments`: the payment and refund guards.
- `Service`: the class `Library`.

`Library` holds the books table (a map from id to book), the borrow records
(a sequence in insertion order) and the next book id. Its methods update
those fields the way the service functions update the store. Each method is
specified against the functions of the modules above. The mutating methods
keep `Valid()`, which is `Inv` plus the id counter. `Valid()` holds of every
library that the constructor and the methods produce.

Units:

- Money is in integer cents.
- Times are integer seconds on one clock.
- The current time `now` is a parameter of every operation that reads the clock.
- The gateway's answer, or the exception it raises, is a parameter of the
  payment operation. The result records the charge that was sent, if any.

## Model

| member | source | states |
|---|---|---|
| Text.TrimLeft | services/library_service.py:31 | the result is the input with exactly its leading run of whitespace removed |
| Text.TrimRight | services/library_service.py:31 | the result is the input with exactly its trailing run of whitespace removed |
| Text.Strip | services/library_service.py:31-40 | the stripped text is a slice of the input with only whitespace before and after it; it is empty exactly when the input is all whitespace, and otherwise it starts and ends with a non-space |
| Text.TrimBothIsSlice | services/library_service.py:31-40 | trimming the left and then the right of a text leaves a slice of it with only whitespace around it |
| Fees.LateFeeCents | services/library_service.py:199-215 | the fee for d whole days overdue is 50·min(d,7) + 100·max(d−7,0) cents, capped at 1500 |
| Fees.LateFeeCap | services/library_service.py:210-215 | the fee never exceeds 15.00, and it reaches 15.00 exactly from day 19 on |
| Fees.LateFeeMonotone | services/library_service.py:199-215 | one more day overdue never lowers the fee |
| Fees.LateFeeSamples | services/library_service.py:199-215 | sample fees: 3 days cost 150 cents, 8 days 450, 9 days 550, and 19 or 30 days the 1500 cap |
| Fees.FeeForRecord | services/library_service.py:184-197 | no fee until the due date has passed; afterwards the days charged are the whole days elapsed since the due date, and the fee is the tier fee for those days |
| Catalog.ShapeCheck | services/library_service.py:31-56 | the first failing input check in the source's order, none failing exactly when every check passes; acceptance implies a present ISBN and a positive copy count |
| Catalog.PassesEveryShapeCheck | services/library_service.py:31-56 | input that passes each check in turn fails none of them |
| Catalog.AddBookCheck | services/library_service.py:31-61 | the error reported is a failing check with no earlier check failing; a book is accepted exactly when no check fails, the duplicate-ISBN check included |
| Catalog.AcceptedIff | services/library_service.py:58-61 | a book is accepted iff its input passes the shape checks and its ISBN is not in the catalogue |
| Catalog.InsertKeepsUniqueIsbns | services/library_service.py:58-64 | inserting a book whose ISBN is new keeps ISBNs unique |
| Catalog.AddThenDuplicate | services/library_service.py:58-64 | after a book with a new ISBN is inserted, ISBNs stay unique, and any later book with the same ISBN that passes the input checks is refused as a duplicate |
| Filters.Filter | services/library_service.py:136 | the selection holds exactly the elements that pass the test, each as often as in the input; `OpenOf` (the patron's open records, line 95), `AllOf` (all the patron's records, line 310), `ForBook` (the records for one book, lines 136 and 178) and `OpenPair` are such selections |
| Filters.FilterConcat | services/library_service.py:178 | selecting from two pieces in turn gives the selection from the whole, so the selection keeps the input's order |
| Circulation.OpenPairIsForBook | services/library_service.py:176-178 | filtering the patron's current loans by book, as the return and fee code do, gives exactly the pair's open records |
| Circulation.HeldIffListed | services/library_service.py:94-98 | the scan over the patron's current loans finds the book exactly when the patron holds a copy |
| Circulation.BorrowCheck | services/library_service.py:82-104 | the borrow guards in the source's order (card, book exists, copy available, not already held, under five loans); the first failing one is the error, and the loan goes through exactly when none fails |
| Circulation.AddKeepsInv | services/library_service.py:58-64 | inserting an accepted book under a fresh id keeps the store consistent |
| Service.AddKeepsIds | services/library_service.py:58-64 | the next id is never taken, and inserting under it keeps every id below the new next id |
| Circulation.BorrowKeepsInv | services/library_service.py:106-117 | an accepted borrow (one new open record due 14 days later, one copy fewer available) keeps the store consistent |
| Circulation.BorrowTwiceRefused | services/library_service.py:91-98 | right after a borrow, the same patron asking for the same book again is refused: as already borrowed if copies remain, otherwise as not available |
| Circulation.HeldOnce | services/library_service.py:136-138 | under the invariant a held book has exactly one open record for the pair |
| Circulation.ReturnKeepsInv | services/library_service.py:134-156 | returning a held book (one copy more available, the pair's record closed) keeps the store consistent, and the book is in the catalogue |
| Circulation.ReturnFreesOneSlot | services/library_service.py:141-156 | a return lowers the patron's loan count by exactly one and the patron no longer holds the book |
| Circulation.CloseLoansNoop | services/library_service.py:154 | closing a pair that holds nothing changes no record |
| Circulation.CloseLoansOpenOf | services/library_service.py:154 | closing the pair's loans removes exactly those from the patron's open records and from no one else's |
| Circulation.CloseLoansOpenPair | services/library_service.py:154 | closing the pair's loans empties that pair and leaves every other pair as it was |
| Circulation.CloseLoansOut | services/library_service.py:154 | closing the pair's loans brings back exactly their copies of the book |
| Circulation.BorrowThenReturn | services/library_service.py:106-156 | a borrow followed by a return restores the book's entry, and leaves the new record in place, closed at the return time |
| Circulation.LateFeeFor | services/library_service.py:176-215 | the fee looked up for (patron, book) is a tier fee of at most 15.00, and it is zero when the patron does not hold the book |
| Circulation.LateFeeOfOpenLoan | services/library_service.py:176-197 | under one open record per pair, the fee looked up for a current loan's book is that loan's own fee |
| Circulation.FeeOwedOnCatalogueBook | services/library_service.py:368-371 | under the invariant a positive fee is only owed on a catalogue book |
| Reporting.FeesOwed | services/library_service.py:298-307 | the summed fee of n loans is at most 15.00·n |
| Reporting.FeesOwedIsRecordFees | services/library_service.py:298-307 | under one open record per pair, summing the fees looked up by book for the current loans equals summing the loans' own fees: none is counted twice or swapped |
| Reporting.NoRecordsEmptyReport | services/library_service.py:283-310 | a patron without records has no current loans and no history, and owes nothing |
| Reporting.TwoOverdueLoans | services/library_service.py:298-307 | two loans 9 and 30 days overdue owe 550 + 1500 = 2050 cents |
| Search.TitleSearchFindsPart | services/library_service.py:243-245 | a title search finds a book under any part of its title, written in any letter case |
| Payments.Settle | services/library_service.py:379-393 | the payment succeeds exactly when the gateway approves, and it reports the gateway's transaction id |
| Payments.RefundLateFee | services/library_service.py:411-435 | the gateway is asked exactly when the transaction id starts with "txn_" and the amount is between one cent and 15.00, with that id and amount; each guard gives its own error; the refund succeeds iff the gateway was asked and accepted |
| Service.Library.AddBook | services/library_service.py:16-68 | a refused book changes nothing and reports the first failing check; an accepted one is inserted under the next id with stripped title and author and all copies available; validity is kept |
| Service.Library.InsertBook | services/library_service.py:64 | the store files the book under the next id, changes no record, moves the next id on by one and keeps the store consistent |
| Service.Library.Borrow | services/library_service.py:70-119 | the guards are tried in order and the first failure changes nothing; otherwise the loan record is appended, one copy is taken, and the title and due date are reported; validity is kept |
| Service.Library.HoldsCopy | services/library_service.py:94-98 | the loop over the patron's current loans reports exactly whether the patron holds the book |
| Service.Library.Return | services/library_service.py:121-161 | a book the patron does not hold changes nothing; otherwise one copy comes back, the record is closed at `now`, and the fee it ran up is reported; validity is kept |
| Service.Library.LateFee | services/library_service.py:163-215 | the two loops over the matching records compute the fee of the last matching record, at most 15.00 |
| Service.Library.SearchBooks | services/library_service.py:218-252 | the result holds exactly the catalogue books the term matches under the search type, each once, in ascending id order; an unknown search type gives nothing |
| Service.CurrentRows | services/library_service.py:285-293 | one "currently borrowed" row per open record, in order |
| Service.HistoryRows | services/library_service.py:313-319 | one history row per record of the patron, in order |
| Service.Library.SumFees | services/library_service.py:298-307 | the loop sums the fee looked up for each loan's book, at most 15.00 per loan |
| Service.Library.StatusReport | services/library_service.py:254-329 | the count equals the number of current rows and of open records; each row is its record's book, title and dates; with one open record per pair the total is the sum of the loans' own fees and at most 15.00 per loan; the history has one row per record of the patron |
| Service.Library.PayLateFees | services/library_service.py:331-393 | an invalid card, no fee owed, or a missing book gives its error without calling the gateway; otherwise the fee and title are charged and the gateway's answer decides the outcome; a charge is between one cent and 15.00; under the invariant every fee owed reaches the gateway |

## Left out

- Failures of the store's writes (`insert_book`, `insert_borrow_record`,
  `update_book_availability`, `update_borrow_record_return_date`) and
  their "Database error" answers. Every write is assumed to succeed. The
  source performs no rollback when a borrow's second write fails, and the
  model does not capture that half-finished state.
- Service.Library.Borrow, Service.Library.Return: the wall clock
  (`datetime.now()`) is the parameter `now`. `return_book_by_patron` reads
  the clock twice: once for the return date
  (services/library_service.py:151) and once more inside
  `calculate_late_fee_for_book` for the fee
  (services/library_service.py:191; library_service.py:156 and :204 in the
  top-level copy). The model uses one `now` for both, so
  it does not capture a day boundary falling between the two reads. Date
  formatting in the messages is not modelled.
- The text of every message. Each outcome is a datatype constructor.
- Floating point. Fees are integer cents, so `round(total, 2)` in the status
  report and the float comparisons `late_fees == 0.00` and
  `fee_amount <= 0` become exact integer comparisons.
- Service.Library.PayLateFees: the "Unable to calculate late fees" branch.
  The fee query always returns both fields, so the branch cannot be taken
  and is not modelled.
- Text.Strip, Text.IsDigits, Text.Lower: only the ASCII behaviour of
  Python's `str.strip`, `str.isdigit` and `str.lower` is modelled. Other
  Unicode whitespace, digits and case mappings are not.
- Catalog.AddBookCheck: a `None` title or author, and a `total_copies` that
  is not an `int`, cannot be expressed in the typed model. The ISBN's
  ISO 2108 check digit is not verified, because the source does not
  verify it either.
- Service.Library.SearchBooks: the order in which the store lists books is
  not part of this model. Ascending id order is assumed.
- Circulation.CloseLoans: the store's `update_borrow_record_return_date` is
  not part of this model. It is taken to close every open record of the
  (patron, book) pair, which the invariant makes exactly one.
- Fees.FeeForRecord: the store's `is_overdue` flag is not part of this
  model. It is taken to mean that `now` is past the due date. The days
  overdue are whole days, rounded down, as `timedelta.days` gives them.
- Payments.Settle, Payments.RefundLateFee: the gateway itself
  (`PaymentGateway`) is not part of this model. Its answers and its
  exceptions are inputs. Refund amounts are integer cents, not float
  dollars.
- The Flask routes, the database module and the tests.
- The tests in `tests/R3_test.py` expect one patron to borrow a second copy
  of a book they already hold. The code refuses that request, and the
  model follows the code, as Circulation.BorrowTwiceRefused states.
