/**
 * The library service: one object holding the books table, the borrow
 * records and the next book id, whose operations read and update them the
 * way the service functions do through the store. The clock and the payment
 * gateway are parameters.
 */
module Service {
  import opened Wrappers
  import opened Text
  import opened Entities
  import opened Fees
  import opened Catalog
  import opened Circulation
  import opened Reporting
  import opened Search
  import P = Payments

  /** What `add_book_to_catalog` answers: the new book's id and stripped
      title, or the first check that refused it. */
  datatype AddResult = Added(id: BookId, title: string) | AddFailed(error: AddError)

  /** What `borrow_book_by_patron` answers: the title and the due date, or
      the first guard that refused the loan. */
  datatype BorrowResult = Borrowed(title: string, dueDate: int) | BorrowFailed(error: BorrowError)

  /** What `return_book_by_patron` answers: the late fee on the returned
      copy, or that the patron did not hold it. */
  datatype ReturnResult = Returned(fee: Fee) | NotBorrowed

  /** A search hit: the catalogue row with its id. */
  datatype Row = Row(id: BookId, book: Book)

  /** The "currently borrowed" rows of the status report, one per open record. */
  method CurrentRows(books: Books, open: seq<BorrowRecord>) returns (current: seq<Loan>)
    ensures |current| == |open|
    ensures forall k :: 0 <= k < |open| ==> current[k] == AsLoan(books, open[k])
  {
    current := [];
    for i := 0 to |open|
      invariant |current| == i
      invariant forall k :: 0 <= k < i ==> current[k] == AsLoan(books, open[k])
    {
      current := current + [AsLoan(books, open[i])];
    }
  }

  /** The "borrowing history" rows of the status report, one per record. */
  method HistoryRows(books: Books, all: seq<BorrowRecord>) returns (history: seq<PastLoan>)
    ensures |history| == |all|
    ensures forall k :: 0 <= k < |all| ==> history[k] == AsPastLoan(books, all[k])
  {
    history := [];
    for i := 0 to |all|
      invariant |history| == i
      invariant forall k :: 0 <= k < i ==> history[k] == AsPastLoan(books, all[k])
    {
      history := history + [AsPastLoan(books, all[i])];
    }
  }

  /** Inserting a book under the next id keeps every id below the new
      next id, and the next id is never already taken. */
  lemma AddKeepsIds(books: Books, nextId: BookId, b: Book)
    requires 1 <= nextId && forall id :: id in books ==> 1 <= id < nextId
    ensures nextId !in books
    ensures forall id :: id in books || id == nextId ==> 1 <= id < nextId + 1
  {
  }

  class Library {
    var books: Books
    var records: seq<BorrowRecord>
    /** The id the store gives the next inserted book. */
    var nextId: BookId

    /** The store is consistent and every book id was handed out already. */
    ghost predicate Valid()
      reads this
    {
      Inv(books, records) && 1 <= nextId && forall id :: id in books ==> 1 <= id < nextId
    }

    /** An empty library. */
    constructor ()
      ensures Valid()
      ensures books == map[] && records == [] && nextId == 1
    {
      books := map[];
      records := [];
      nextId := 1;
    }

    /** `add_book_to_catalog`: a book that passes every check is inserted
        under the next id with its title and author stripped and all its
        copies available; a refused book changes nothing. */
    method AddBook(title: string, author: string, isbn: Option<string>, copies: int) returns (r: AddResult)
      requires Valid()
      modifies this
      ensures Valid()
      ensures records == old(records)
      ensures AddBookCheck(old(books), title, author, isbn, copies).Some? ==>
                r == AddFailed(AddBookCheck(old(books), title, author, isbn, copies).value) &&
                books == old(books) && nextId == old(nextId)
      ensures AddBookCheck(old(books), title, author, isbn, copies).None? ==>
                isbn.Some? && old(nextId) !in old(books) &&
                r == Added(old(nextId), Strip(title)) &&
                books == old(books)[old(nextId) := NewBook(title, author, isbn.value, copies)] &&
                nextId == old(nextId) + 1
    {
      var check := AddBookCheck(books, title, author, isbn, copies);
      if check.Some? {
        return AddFailed(check.value);
      }
      var id := nextId;
      AddKeepsInv(books, records, id, title, author, isbn.value, copies);
      InsertBook(NewBook(title, author, isbn.value, copies));
      r := Added(id, Strip(title));
    }

    /** `insert_book`: the store files the book under the next id. */
    method InsertBook(b: Book)
      requires Valid() && Inv(books[nextId := b], records)
      modifies this
      ensures Valid()
      ensures books == old(books)[old(nextId) := b]
      ensures records == old(records) && nextId == old(nextId) + 1
    {
      AddKeepsIds(books, nextId, b);
      books := books[nextId := b];
      nextId := nextId + 1;
    }

    /** `borrow_book_by_patron` at time `now`: the guards are tried in order
        and the first that fails is the answer, with nothing changed;
        otherwise a loan due fourteen days later is recorded and the book
        has one copy fewer available. */
    method Borrow(patron: string, bookId: BookId, now: int) returns (r: BorrowResult)
      requires Valid()
      modifies this
      ensures Valid()
      ensures nextId == old(nextId)
      ensures BorrowCheck(old(books), old(records), patron, bookId).Some? ==>
                r == BorrowFailed(BorrowCheck(old(books), old(records), patron, bookId).value) &&
                books == old(books) && records == old(records)
      ensures BorrowCheck(old(books), old(records), patron, bookId).None? ==>
                bookId in old(books) &&
                r == Borrowed(old(books)[bookId].title, now + LoanPeriod) &&
                books == WithAvailable(old(books), bookId, -1) &&
                records == old(records) + [OpenLoan(patron, bookId, now)]
    {
      ghost var check := BorrowCheck(books, records, patron, bookId);
      if !ValidPatronId(patron) {
        assert check == Some(InvalidPatron);
        return BorrowFailed(InvalidPatron);
      }
      if bookId !in books {
        assert check == Some(BookNotFound);
        return BorrowFailed(BookNotFound);
      }
      if books[bookId].available <= 0 {
        assert check == Some(NotAvailable);
        return BorrowFailed(NotAvailable);
      }
      var held := HoldsCopy(patron, bookId);
      if held {
        assert check == Some(AlreadyBorrowed);
        return BorrowFailed(AlreadyBorrowed);
      }
      if |OpenOf(records, patron)| >= MaxLoans {
        assert check == Some(LimitReached);
        return BorrowFailed(LimitReached);
      }
      assert check == None;
      BorrowKeepsInv(books, records, patron, bookId, now);
      var loan := OpenLoan(patron, bookId, now);
      records := records + [loan];
      r := Borrowed(books[bookId].title, loan.dueDate);
      books := WithAvailable(books, bookId, -1);
    }

    /** The scan of the patron's open records the borrow guard makes: it
        finds the book exactly when the patron holds a copy of it. */
    method HoldsCopy(patron: string, bookId: BookId) returns (held: bool)
      ensures held == HasOpen(records, patron, bookId)
    {
      var current := OpenOf(records, patron);
      HeldIffListed(records, patron, bookId);
      var i := 0;
      while i < |current|
        invariant 0 <= i <= |current|
        invariant forall k :: 0 <= k < i ==> current[k].bookId != bookId
      {
        if current[i].bookId == bookId {
          assert current[i] in current;
          return true;
        }
        i := i + 1;
      }
      return false;
    }

    /** `return_book_by_patron` at time `now`: a book the patron does not
        hold changes nothing; otherwise its copy is available again, the
        open record is closed at `now`, and the answer carries the fee the
        record had run up. */
    method Return(patron: string, bookId: BookId, now: int) returns (r: ReturnResult)
      requires Valid()
      modifies this
      ensures Valid()
      ensures nextId == old(nextId)
      ensures !HasOpen(old(records), patron, bookId) ==>
                r == NotBorrowed && books == old(books) && records == old(records)
      ensures HasOpen(old(records), patron, bookId) ==>
                bookId in old(books) &&
                r == Returned(LateFeeFor(old(records), patron, bookId, now)) &&
                books == WithAvailable(old(books), bookId, 1) &&
                records == CloseLoans(old(records), patron, bookId, now)
    {
      var borrowed := ForBook(OpenOf(records, patron), bookId);
      OpenPairIsForBook(records, patron, bookId);
      if borrowed == [] {
        return NotBorrowed;
      }
      ReturnKeepsInv(books, records, patron, bookId, now);
      books := WithAvailable(books, bookId, 1);
      var fee := LateFee(patron, bookId, now);
      records := CloseLoans(records, patron, bookId, now);
      r := Returned(fee);
    }

    /** `calculate_late_fee_for_book` at time `now`: the overdue flag and due
        date of the last of the patron's open records for the book decide
        the fee. */
    method LateFee(patron: string, bookId: BookId, now: int) returns (f: Fee)
      ensures f == LateFeeFor(records, patron, bookId, now)
      ensures f.cents <= MaxFee
    {
      var borrowed := ForBook(OpenOf(records, patron), bookId);
      if borrowed == [] {
        return Fee(0, 0);
      }
      var overdue := false;
      for i := 0 to |borrowed|
        invariant i > 0 ==> overdue == (now > borrowed[i - 1].dueDate)
      {
        overdue := now > borrowed[i].dueDate;
      }
      if !overdue {
        return Fee(0, 0);
      }
      var due := 0;
      for i := 0 to |borrowed|
        invariant i > 0 ==> due == borrowed[i - 1].dueDate
      {
        due := borrowed[i].dueDate;
      }
      var days := (now - due) / SecondsPerDay;
      f := Fee(LateFeeCents(days), days);
    }

    /** `search_books_in_catalog`: every catalogue book the term matches
        under the search type, each once, in ascending id order. */
    method SearchBooks(term: string, searchType: string) returns (result: seq<Row>)
      requires Valid()
      ensures forall row :: row in result <==>
                row.id in books && row.book == books[row.id] && Matches(row.book, term, searchType)
      ensures forall i, j :: 0 <= i < j < |result| ==> result[i].id < result[j].id
      ensures searchType != "isbn" && searchType != "title" && searchType != "author" ==> result == []
    {
      result := [];
      var id := 1;
      while id < nextId
        invariant 1 <= id <= nextId
        invariant forall row :: row in result <==>
                    1 <= row.id < id && row.id in books && row.book == books[row.id] &&
                    Matches(row.book, term, searchType)
        invariant forall i :: 0 <= i < |result| ==> result[i].id < id
        invariant forall i, j :: 0 <= i < j < |result| ==> result[i].id < result[j].id
      {
        if id in books {
          var b := books[id];
          if searchType == "isbn" {
            if b.isbn == term {
              result := result + [Row(id, b)];
            }
          } else if searchType == "title" {
            if Contains(Lower(b.title), Lower(term)) {
              result := result + [Row(id, b)];
            }
          } else if searchType == "author" {
            if Contains(Lower(b.author), Lower(term)) {
              result := result + [Row(id, b)];
            }
          }
        }
        id := id + 1;
      }
      if result != [] {
        assert result[0] in result;
      }
    }

    /** The fee total of the status report: the fee looked up for the book of
        each of `loans`, summed. */
    method SumFees(patron: string, loans: seq<BorrowRecord>, now: int) returns (total: nat)
      ensures total == FeesOwed(records, loans, patron, now)
      ensures total <= MaxFee * |loans|
    {
      total := 0;
      for i := 0 to |loans|
        invariant total == FeesOwed(records, loans[..i], patron, now)
      {
        var fee := LateFee(patron, loans[i].bookId, now);
        assert loans[..i + 1][..i] == loans[..i];
        total := total + fee.cents;
      }
      assert loans[..|loans|] == loans;
    }

    /** `get_patron_status_report` at time `now`: the patron's open loans,
        how many there are, the sum of the fees looked up for them, and every
        record of the patron, open or closed. With one open record per
        (patron, book) that sum is the sum of the loans' own fees. */
    method StatusReport(patron: string, now: int) returns (rep: Report)
      ensures rep.count == |rep.current| == OpenCount(records, patron)
      ensures forall k :: 0 <= k < |rep.current| ==>
                rep.current[k] == AsLoan(books, OpenOf(records, patron)[k])
      ensures rep.feesOwed == FeesOwed(records, OpenOf(records, patron), patron, now)
      ensures OnePerPair(records) ==> rep.feesOwed == RecordFees(OpenOf(records, patron), now)
      ensures rep.feesOwed <= MaxFee * rep.count
      ensures |rep.history| == |AllOf(records, patron)|
      ensures forall k :: 0 <= k < |rep.history| ==>
                rep.history[k] == AsPastLoan(books, AllOf(records, patron)[k])
    {
      var open := OpenOf(records, patron);
      var current := CurrentRows(books, open);
      var total := SumFees(patron, open, now);
      if OnePerPair(records) {
        FeesOwedIsRecordFees(records, open, patron, now);
      }
      var history := HistoryRows(books, AllOf(records, patron));
      rep := Report(current, total, |current|, history);
    }

    /** `pay_late_fees` at time `now` with the gateway answering `reply`: the
        gateway is asked for the book's fee only when the card is valid, a
        fee is owed and the book is in the catalogue; under the invariant a
        fee owed always reaches the gateway. */
    method PayLateFees(patron: string, bookId: BookId, now: int, reply: P.GatewayReply)
      returns (r: P.PayResult)
      ensures !ValidPatronId(patron) ==> r == P.PayResult(P.PayFailed(P.InvalidPatron), None)
      ensures ValidPatronId(patron) && LateFeeFor(records, patron, bookId, now).cents == 0 ==>
                r == P.PayResult(P.PayFailed(P.NoFeesDue), None)
      ensures ValidPatronId(patron) && LateFeeFor(records, patron, bookId, now).cents > 0 &&
              bookId !in books ==>
                r == P.PayResult(P.PayFailed(P.BookNotFound), None)
      ensures ValidPatronId(patron) && LateFeeFor(records, patron, bookId, now).cents > 0 &&
              bookId in books ==>
                r == P.PayResult(P.Settle(reply),
                                 Some(P.Charge(patron, LateFeeFor(records, patron, bookId, now).cents,
                                               books[bookId].title)))
      ensures r.charged.Some? ==> 0 < r.charged.value.cents <= MaxFee
      ensures r.outcome.Paid? ==> r.charged.Some?
      ensures Valid() && ValidPatronId(patron) && LateFeeFor(records, patron, bookId, now).cents > 0 ==>
                r.charged.Some?
    {
      if !ValidPatronId(patron) {
        return P.PayResult(P.PayFailed(P.InvalidPatron), None);
      }
      var fee := LateFee(patron, bookId, now);
      if fee.cents == 0 {
        return P.PayResult(P.PayFailed(P.NoFeesDue), None);
      }
      if Valid() {
        FeeOwedOnCatalogueBook(books, records, patron, bookId, now);
      }
      if bookId !in books {
        return P.PayResult(P.PayFailed(P.BookNotFound), None);
      }
      var charge := P.Charge(patron, fee.cents, books[bookId].title);
      r := P.PayResult(P.Settle(reply), Some(charge));
    }
  }
}
