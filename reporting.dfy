/**
 * The patron status report: the rows it shows for current and past loans
 * and the total of the late fees owed.
 */
module Reporting {
  import opened Wrappers
  import opened Entities
  import opened Fees
  import opened Circulation

  /** A row of "currently borrowed": the book with its borrow and due dates. */
  datatype Loan = Loan(bookId: BookId, title: string, borrowDate: int, dueDate: int)

  /** A row of "borrowing history": the book with its return date, if any. */
  datatype PastLoan = PastLoan(bookId: BookId, title: string, returnDate: Option<int>)

  datatype Report = Report(current: seq<Loan>, feesOwed: nat, count: nat, history: seq<PastLoan>)

  /** The title the records-books join gives a record; empty for a book the
      catalogue does not hold. */
  function TitleOf(books: Books, id: BookId): string {
    if id in books then books[id].title else ""
  }

  function AsLoan(books: Books, r: BorrowRecord): Loan {
    Loan(r.bookId, TitleOf(books, r.bookId), r.borrowDate, r.dueDate)
  }

  function AsPastLoan(books: Books, r: BorrowRecord): PastLoan {
    PastLoan(r.bookId, TitleOf(books, r.bookId), r.returnDate)
  }

  /** The sum of the fees the service looks up, by (patron, book), for each
      of `loans`; at most the cap per loan. */
  function FeesOwed(rs: seq<BorrowRecord>, loans: seq<BorrowRecord>, patron: string, now: int): (total: nat)
    ensures total <= MaxFee * |loans|
  {
    if loans == [] then 0
    else
      FeesOwed(rs, loans[..|loans| - 1], patron, now)
        + LateFeeFor(rs, patron, loans[|loans| - 1].bookId, now).cents
  }

  /** The sum of the fees of the records themselves. */
  function RecordFees(loans: seq<BorrowRecord>, now: int): nat {
    if loans == [] then 0
    else RecordFees(loans[..|loans| - 1], now) + FeeForRecord(loans[|loans| - 1], now).cents
  }

  /** When each loan is one of the patron's open records, looking the fees up
      by (patron, book) sums exactly the fees of those records: no loan is
      charged twice or charged another record's fee. */
  lemma {:induction false} FeesOwedIsRecordFees(rs: seq<BorrowRecord>, loans: seq<BorrowRecord>,
                                                patron: string, now: int)
    requires OnePerPair(rs)
    requires forall x :: x in loans ==> x in OpenOf(rs, patron)
    ensures FeesOwed(rs, loans, patron, now) == RecordFees(loans, now)
  {
    if loans != [] {
      var init := loans[..|loans| - 1];
      var last := loans[|loans| - 1];
      assert forall x :: x in init ==> x in loans;
      FeesOwedIsRecordFees(rs, init, patron, now);
      assert last in loans;
      LateFeeOfOpenLoan(rs, patron, last, now);
    }
  }

  /** A patron without records has no current loans, no history and owes
      nothing. */
  lemma {:induction false} NoRecordsEmptyReport(rs: seq<BorrowRecord>, patron: string, now: int)
    requires forall r :: r in rs ==> r.patron != patron
    ensures OpenOf(rs, patron) == [] && AllOf(rs, patron) == []
    ensures FeesOwed(rs, OpenOf(rs, patron), patron, now) == 0
  {
    if rs != [] {
      assert rs[|rs| - 1] in rs;
      assert forall r :: r in rs[..|rs| - 1] ==> r in rs;
      NoRecordsEmptyReport(rs[..|rs| - 1], patron, now);
    }
  }

  /** Two loans nine and thirty days overdue owe 5.50 + 15.00 = 20.50. */
  lemma TwoOverdueLoans(a: BorrowRecord, b: BorrowRecord, now: int)
    requires a.dueDate == now - 9 * SecondsPerDay && b.dueDate == now - 30 * SecondsPerDay
    ensures RecordFees([a, b], now) == 2050
  {
    assert [a, b][..1] == [a];
    assert [a][..0] == [];
    LateFeeSamples();
    assert (now - a.dueDate) / SecondsPerDay == 9;
    assert (now - b.dueDate) / SecondsPerDay == 30;
    assert FeeForRecord(a, now) == Fee(550, 9);
    assert FeeForRecord(b, now) == Fee(1500, 30);
    assert RecordFees([a], now) == 550;
  }
}
