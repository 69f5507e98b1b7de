/**
 * Circulation: the views of the borrow records the service queries, the
 * guards on borrowing, the state changes of a borrow and of a return, and
 * the consistency of books and records that those changes keep.
 */
module Circulation {
  import opened Wrappers
  import opened Entities
  import opened Fees
  import opened Catalog
  import opened Filters

  /** Most books one patron may hold at once. */
  const MaxLoans := 5
  /** A loan is due fourteen days after it is made. */
  const LoanPeriod := 14 * SecondsPerDay

  datatype BorrowError = InvalidPatron | BookNotFound | NotAvailable | AlreadyBorrowed | LimitReached

  // ---------------------------------------------------------------------
  // Views of the records table
  // ---------------------------------------------------------------------

  /** The patron's open records, in store order: what
      `get_patron_borrowed_books` returns. */
  function OpenOf(rs: seq<BorrowRecord>, patron: string): seq<BorrowRecord> {
    Filter(rs, (x: BorrowRecord) => IsOpen(x) && x.patron == patron)
  }

  /** All of the patron's records, open and closed, in store order: what
      `get_all_patron_record` returns. */
  function AllOf(rs: seq<BorrowRecord>, patron: string): seq<BorrowRecord> {
    Filter(rs, (x: BorrowRecord) => x.patron == patron)
  }

  /** The records of `loans` for one book, in order: the list comprehension
      the fee and return code apply to the patron's open records. */
  function ForBook(loans: seq<BorrowRecord>, bookId: BookId): seq<BorrowRecord> {
    Filter(loans, (x: BorrowRecord) => x.bookId == bookId)
  }

  /** The open records of one patron for one book. */
  function OpenPair(rs: seq<BorrowRecord>, patron: string, bookId: BookId): seq<BorrowRecord> {
    Filter(rs, (x: BorrowRecord) => IsOpen(x) && x.patron == patron && x.bookId == bookId)
  }

  /** The patron currently holds a copy of the book. */
  predicate HasOpen(rs: seq<BorrowRecord>, patron: string, bookId: BookId) {
    OpenPair(rs, patron, bookId) != []
  }

  /** `get_patron_borrow_count`: how many books the patron holds. */
  function OpenCount(rs: seq<BorrowRecord>, patron: string): nat {
    |OpenOf(rs, patron)|
  }

  /** How many copies of the book are out, over all patrons. */
  function OpenForBook(rs: seq<BorrowRecord>, bookId: BookId): nat {
    if rs == [] then 0
    else
      var last := rs[|rs| - 1];
      OpenForBook(rs[..|rs| - 1], bookId) + (if IsOpen(last) && last.bookId == bookId then 1 else 0)
  }

  /** Filtering the patron's open records by book, as the service does, gives
      exactly the open records of that (patron, book) pair. */
  lemma {:induction false} OpenPairIsForBook(rs: seq<BorrowRecord>, patron: string, bookId: BookId)
    ensures ForBook(OpenOf(rs, patron), bookId) == OpenPair(rs, patron, bookId)
  {
    if rs != [] {
      var init := rs[..|rs| - 1];
      var last := rs[|rs| - 1];
      OpenPairIsForBook(init, patron, bookId);
      var a := OpenOf(init, patron);
      if IsOpen(last) && last.patron == patron {
        assert (a + [last])[..|a|] == a;
      } else {
        assert a + [] == a;
      }
    }
  }

  /** The patron holds the book exactly when one of the patron's open
      records is for it: the scan the borrow guard makes over them decides
      `HasOpen`. */
  lemma HeldIffListed(rs: seq<BorrowRecord>, patron: string, bookId: BookId)
    ensures HasOpen(rs, patron, bookId) <==> exists x :: x in OpenOf(rs, patron) && x.bookId == bookId
  {
    OpenPairIsForBook(rs, patron, bookId);
    var listed := ForBook(OpenOf(rs, patron), bookId);
    if listed != [] {
      assert listed[0] in listed;
    }
    if exists x :: x in OpenOf(rs, patron) && x.bookId == bookId {
      var x :| x in OpenOf(rs, patron) && x.bookId == bookId;
      assert x in listed;
    }
  }

  // ---------------------------------------------------------------------
  // The consistency of the store
  // ---------------------------------------------------------------------

  /** The availability of a book is its positive total less the copies out. */
  ghost predicate StockInv(books: Books, rs: seq<BorrowRecord>) {
    forall id :: id in books ==>
      books[id].total > 0 && 0 <= books[id].available &&
      books[id].available + OpenForBook(rs, id) == books[id].total
  }

  /** Every record is for a catalogue book and a valid card, due fourteen days
      after it was made. */
  ghost predicate RecordsInv(books: Books, rs: seq<BorrowRecord>) {
    forall r :: r in rs ==>
      r.bookId in books && ValidPatronId(r.patron) && r.dueDate == r.borrowDate + LoanPeriod
  }

  /** At most one open record per (patron, book). */
  ghost predicate OnePerPair(rs: seq<BorrowRecord>) {
    forall p, b :: |OpenPair(rs, p, b)| <= 1
  }

  /** At most five open records per patron. */
  ghost predicate WithinLimit(rs: seq<BorrowRecord>) {
    forall p :: OpenCount(rs, p) <= MaxLoans
  }

  /** What every operation keeps true of the books and records tables. */
  ghost predicate Inv(books: Books, rs: seq<BorrowRecord>) {
    UniqueIsbns(books) && StockInv(books, rs) && RecordsInv(books, rs) && OnePerPair(rs) && WithinLimit(rs)
  }

  // ---------------------------------------------------------------------
  // Adding a book
  // ---------------------------------------------------------------------

  /** No copy of a book that no record mentions is out. */
  lemma {:induction false} NoRecordsNoneOut(rs: seq<BorrowRecord>, id: BookId)
    requires forall r :: r in rs ==> r.bookId != id
    ensures OpenForBook(rs, id) == 0
  {
    if rs != [] {
      assert rs[|rs| - 1] in rs;
      assert forall r :: r in rs[..|rs| - 1] ==> r in rs;
      NoRecordsNoneOut(rs[..|rs| - 1], id);
    }
  }

  /** Inserting an accepted book under an id no record mentions keeps the
      store consistent: its copies are all available and none is out. */
  lemma AddKeepsInv(books: Books, rs: seq<BorrowRecord>, id: BookId,
                    title: string, author: string, isbn: string, copies: int)
    requires Inv(books, rs) && id !in books
    requires AddBookCheck(books, title, author, Some(isbn), copies).None?
    ensures Inv(books[id := NewBook(title, author, isbn, copies)], rs)
  {
    var b := NewBook(title, author, isbn, copies);
    AcceptedIff(books, title, author, Some(isbn), copies);
    InsertKeepsUniqueIsbns(books, id, b);
    AddKeepsStock(books, rs, id, b);
    AddKeepsRecords(books, rs, id, b);
  }

  lemma AddKeepsStock(books: Books, rs: seq<BorrowRecord>, id: BookId, b: Book)
    requires StockInv(books, rs) && RecordsInv(books, rs) && id !in books
    requires b.total > 0 && b.available == b.total
    ensures StockInv(books[id := b], rs)
  {
    assert forall r :: r in rs ==> r.bookId != id;
    NoRecordsNoneOut(rs, id);
  }

  lemma AddKeepsRecords(books: Books, rs: seq<BorrowRecord>, id: BookId, b: Book)
    requires RecordsInv(books, rs)
    ensures RecordsInv(books[id := b], rs)
  {
  }

  // ---------------------------------------------------------------------
  // Borrowing
  // ---------------------------------------------------------------------

  function BorrowRank(e: BorrowError): nat {
    match e
    case InvalidPatron => 0
    case BookNotFound => 1
    case NotAvailable => 2
    case AlreadyBorrowed => 3
    case LimitReached => 4
  }

  /** Whether the borrow guard `e`, taken on its own, refuses the request. */
  predicate BorrowFails(e: BorrowError, books: Books, rs: seq<BorrowRecord>,
                        patron: string, bookId: BookId)
  {
    match e
    case InvalidPatron => !ValidPatronId(patron)
    case BookNotFound => bookId !in books
    case NotAvailable => bookId in books && books[bookId].available <= 0
    case AlreadyBorrowed => HasOpen(rs, patron, bookId)
    case LimitReached => OpenCount(rs, patron) >= MaxLoans
  }

  /** The borrow guards in the order the service applies them: the first
      failing one decides the error; none failing lets the loan through. */
  function BorrowCheck(books: Books, rs: seq<BorrowRecord>, patron: string, bookId: BookId)
    : (r: Option<BorrowError>)
    ensures r.Some? ==>
              BorrowFails(r.value, books, rs, patron, bookId) &&
              forall e :: BorrowRank(e) < BorrowRank(r.value) ==> !BorrowFails(e, books, rs, patron, bookId)
    ensures r.None? <==> forall e :: !BorrowFails(e, books, rs, patron, bookId)
  {
    if !ValidPatronId(patron) then Some(InvalidPatron)
    else if bookId !in books then Some(BookNotFound)
    else if books[bookId].available <= 0 then Some(NotAvailable)
    else if HasOpen(rs, patron, bookId) then Some(AlreadyBorrowed)
    else if OpenCount(rs, patron) >= MaxLoans then Some(LimitReached)
    else None
  }

  /** The record a loan opens at time `now`. */
  function OpenLoan(patron: string, bookId: BookId, now: int): BorrowRecord {
    BorrowRecord(patron, bookId, now, now + LoanPeriod, None)
  }

  /** `update_book_availability(id, delta)`. */
  function WithAvailable(books: Books, id: BookId, delta: int): Books
    requires id in books
  {
    books[id := books[id].(available := books[id].available + delta)]
  }

  /** Appending one record changes each view by at most that record. */
  lemma AppendRecord(rs: seq<BorrowRecord>, x: BorrowRecord, p: string, b: BookId)
    ensures OpenOf(rs + [x], p) == OpenOf(rs, p) + (if IsOpen(x) && x.patron == p then [x] else [])
    ensures OpenPair(rs + [x], p, b)
            == OpenPair(rs, p, b) + (if IsOpen(x) && x.patron == p && x.bookId == b then [x] else [])
    ensures OpenForBook(rs + [x], b) == OpenForBook(rs, b) + (if IsOpen(x) && x.bookId == b then 1 else 0)
  {
    assert (rs + [x])[..|rs|] == rs;
  }

  /** Changing only availabilities keeps ISBNs unique. */
  lemma WithAvailableKeepsIsbns(books: Books, id: BookId, delta: int)
    requires id in books && UniqueIsbns(books)
    ensures UniqueIsbns(WithAvailable(books, id, delta))
  {
    var books' := WithAvailable(books, id, delta);
    forall i, j | i in books' && j in books' && books'[i].isbn == books'[j].isbn
      ensures i == j
    {
      assert books'[i].isbn == books[i].isbn && books'[j].isbn == books[j].isbn;
    }
  }

  /** A borrow that passes every guard keeps the store consistent: the book
      loses one available copy exactly as one more copy goes out, the pair
      gets its only open record and the patron stays within five loans. */
  lemma {:induction false} BorrowKeepsInv(books: Books, rs: seq<BorrowRecord>, patron: string,
                                          bookId: BookId, now: int)
    requires Inv(books, rs)
    requires BorrowCheck(books, rs, patron, bookId).None?
    ensures Inv(WithAvailable(books, bookId, -1), rs + [OpenLoan(patron, bookId, now)])
  {
    var books' := WithAvailable(books, bookId, -1);
    var x := OpenLoan(patron, bookId, now);
    var rs' := rs + [x];
    WithAvailableKeepsIsbns(books, bookId, -1);
    BorrowKeepsStock(books, rs, patron, bookId, now);
    BorrowKeepsRecords(books, rs, patron, bookId, now);
    BorrowKeepsPairs(books, rs, patron, bookId, now);
    BorrowKeepsLimit(books, rs, patron, bookId, now);
  }

  lemma BorrowKeepsStock(books: Books, rs: seq<BorrowRecord>, patron: string, bookId: BookId, now: int)
    requires StockInv(books, rs) && bookId in books && books[bookId].available > 0
    ensures StockInv(WithAvailable(books, bookId, -1), rs + [OpenLoan(patron, bookId, now)])
  {
    var books' := WithAvailable(books, bookId, -1);
    var x := OpenLoan(patron, bookId, now);
    forall id | id in books'
      ensures books'[id].total > 0 && 0 <= books'[id].available
      ensures books'[id].available + OpenForBook(rs + [x], id) == books'[id].total
    {
      AppendRecord(rs, x, patron, id);
    }
  }

  lemma BorrowKeepsRecords(books: Books, rs: seq<BorrowRecord>, patron: string, bookId: BookId, now: int)
    requires RecordsInv(books, rs) && bookId in books && ValidPatronId(patron)
    ensures RecordsInv(WithAvailable(books, bookId, -1), rs + [OpenLoan(patron, bookId, now)])
  {
  }

  lemma BorrowKeepsPairs(books: Books, rs: seq<BorrowRecord>, patron: string, bookId: BookId, now: int)
    requires OnePerPair(rs) && !HasOpen(rs, patron, bookId)
    ensures OnePerPair(rs + [OpenLoan(patron, bookId, now)])
  {
    var x := OpenLoan(patron, bookId, now);
    forall p, b ensures |OpenPair(rs + [x], p, b)| <= 1 {
      AppendRecord(rs, x, p, b);
    }
  }

  lemma BorrowKeepsLimit(books: Books, rs: seq<BorrowRecord>, patron: string, bookId: BookId, now: int)
    requires WithinLimit(rs) && OpenCount(rs, patron) < MaxLoans
    ensures WithinLimit(rs + [OpenLoan(patron, bookId, now)])
  {
    var x := OpenLoan(patron, bookId, now);
    forall p ensures OpenCount(rs + [x], p) <= MaxLoans {
      assert OpenCount(rs, p) <= MaxLoans;
      AppendRecord(rs, x, p, bookId);
    }
  }

  /** A patron who has just borrowed a book cannot borrow a second copy of
      it: the request is refused as already borrowed, or as not available
      when that loan took the last copy. */
  lemma {:induction false} BorrowTwiceRefused(books: Books, rs: seq<BorrowRecord>, patron: string,
                                              bookId: BookId, now: int)
    requires BorrowCheck(books, rs, patron, bookId).None?
    ensures bookId in books
    ensures BorrowCheck(WithAvailable(books, bookId, -1), rs + [OpenLoan(patron, bookId, now)], patron, bookId)
            == if books[bookId].available > 1 then Some(AlreadyBorrowed) else Some(NotAvailable)
  {
    AppendRecord(rs, OpenLoan(patron, bookId, now), patron, bookId);
  }

  // ---------------------------------------------------------------------
  // Returning
  // ---------------------------------------------------------------------

  /** Stamps the record with return date `t` when it is an open loan of the pair. */
  function Close(r: BorrowRecord, patron: string, bookId: BookId, t: int): BorrowRecord {
    if IsOpen(r) && r.patron == patron && r.bookId == bookId then r.(returnDate := Some(t)) else r
  }

  /** `update_borrow_record_return_date(patron, book, t)`: closes the open
      records of the pair and leaves every other record as it was. */
  function CloseLoans(rs: seq<BorrowRecord>, patron: string, bookId: BookId, t: int): seq<BorrowRecord> {
    seq(|rs|, i requires 0 <= i < |rs| => Close(rs[i], patron, bookId, t))
  }

  /** Closing one more record extends the closed sequence by that record. */
  lemma CloseLoansLast(rs: seq<BorrowRecord>, p: string, b: BookId, t: int)
    requires rs != []
    ensures CloseLoans(rs, p, b, t) == CloseLoans(rs[..|rs| - 1], p, b, t) + [Close(rs[|rs| - 1], p, b, t)]
  {
  }

  /** Closing the pair's loans takes them out of the count of any patron's
      open records, and out of no one else's. */
  lemma {:induction false} CloseLoansOpenOf(rs: seq<BorrowRecord>, p: string, b: BookId, t: int, q: string)
    ensures |OpenOf(CloseLoans(rs, p, b, t), q)|
            == |OpenOf(rs, q)| - (if q == p then |OpenPair(rs, p, b)| else 0)
  {
    if rs != [] {
      var init := rs[..|rs| - 1];
      var last := rs[|rs| - 1];
      assert rs == init + [last];
      CloseLoansOpenOf(init, p, b, t, q);
      CloseLoansLast(rs, p, b, t);
      AppendRecord(CloseLoans(init, p, b, t), Close(last, p, b, t), q, b);
      AppendRecord(init, last, q, b);
      AppendRecord(init, last, p, b);
    }
  }

  /** Closing the pair's loans empties that pair and no other. */
  lemma {:induction false} CloseLoansOpenPair(rs: seq<BorrowRecord>, p: string, b: BookId, t: int,
                                              q: string, c: BookId)
    ensures |OpenPair(CloseLoans(rs, p, b, t), q, c)|
            == |OpenPair(rs, q, c)| - (if q == p && c == b then |OpenPair(rs, p, b)| else 0)
  {
    if rs != [] {
      var init := rs[..|rs| - 1];
      var last := rs[|rs| - 1];
      assert rs == init + [last];
      CloseLoansOpenPair(init, p, b, t, q, c);
      CloseLoansLast(rs, p, b, t);
      AppendRecord(CloseLoans(init, p, b, t), Close(last, p, b, t), q, c);
      AppendRecord(init, last, q, c);
      AppendRecord(init, last, p, b);
    }
  }

  /** Closing the pair's loans brings back exactly their copies of the book. */
  lemma {:induction false} CloseLoansOut(rs: seq<BorrowRecord>, p: string, b: BookId, t: int, c: BookId)
    ensures OpenForBook(CloseLoans(rs, p, b, t), c)
            == OpenForBook(rs, c) - (if c == b then |OpenPair(rs, p, b)| else 0)
  {
    if rs != [] {
      var init := rs[..|rs| - 1];
      var last := rs[|rs| - 1];
      assert rs == init + [last];
      CloseLoansOut(init, p, b, t, c);
      CloseLoansLast(rs, p, b, t);
      AppendRecord(CloseLoans(init, p, b, t), Close(last, p, b, t), p, c);
      AppendRecord(init, last, p, c);
      AppendRecord(init, last, p, b);
    }
  }

  /** Under the invariant a held book has exactly one open record. */
  lemma HeldOnce(rs: seq<BorrowRecord>, patron: string, bookId: BookId)
    requires OnePerPair(rs) && HasOpen(rs, patron, bookId)
    ensures |OpenPair(rs, patron, bookId)| == 1
  {
  }

  /** A return of a held book keeps the store consistent: the copy comes back
      exactly as its record closes. */
  lemma {:induction false} ReturnKeepsInv(books: Books, rs: seq<BorrowRecord>, patron: string,
                                          bookId: BookId, t: int)
    requires Inv(books, rs)
    requires HasOpen(rs, patron, bookId)
    ensures bookId in books
    ensures Inv(WithAvailable(books, bookId, 1), CloseLoans(rs, patron, bookId, t))
  {
    var held := OpenPair(rs, patron, bookId)[0];
    assert held in OpenPair(rs, patron, bookId);
    HeldOnce(rs, patron, bookId);
    WithAvailableKeepsIsbns(books, bookId, 1);
    ReturnKeepsStock(books, rs, patron, bookId, t);
    ReturnKeepsRecords(books, rs, patron, bookId, t);
    ReturnKeepsPairs(rs, patron, bookId, t);
    ReturnKeepsLimit(rs, patron, bookId, t);
  }

  lemma ReturnKeepsStock(books: Books, rs: seq<BorrowRecord>, patron: string, bookId: BookId, t: int)
    requires StockInv(books, rs) && bookId in books && |OpenPair(rs, patron, bookId)| == 1
    ensures StockInv(WithAvailable(books, bookId, 1), CloseLoans(rs, patron, bookId, t))
  {
    var books' := WithAvailable(books, bookId, 1);
    var rs' := CloseLoans(rs, patron, bookId, t);
    forall id | id in books'
      ensures books'[id].total > 0 && 0 <= books'[id].available
      ensures books'[id].available + OpenForBook(rs', id) == books'[id].total
    {
      CloseLoansOut(rs, patron, bookId, t, id);
    }
  }

  lemma ReturnKeepsRecords(books: Books, rs: seq<BorrowRecord>, patron: string, bookId: BookId, t: int)
    requires RecordsInv(books, rs) && bookId in books
    ensures RecordsInv(WithAvailable(books, bookId, 1), CloseLoans(rs, patron, bookId, t))
  {
    var rs' := CloseLoans(rs, patron, bookId, t);
    forall r | r in rs'
      ensures r.bookId in books && ValidPatronId(r.patron) && r.dueDate == r.borrowDate + LoanPeriod
    {
      var i :| 0 <= i < |rs'| && rs'[i] == r;
      assert rs[i] in rs;
    }
  }

  lemma ReturnKeepsPairs(rs: seq<BorrowRecord>, patron: string, bookId: BookId, t: int)
    requires OnePerPair(rs)
    ensures OnePerPair(CloseLoans(rs, patron, bookId, t))
  {
    forall p, b ensures |OpenPair(CloseLoans(rs, patron, bookId, t), p, b)| <= 1 {
      assert |OpenPair(rs, p, b)| <= 1;
      CloseLoansOpenPair(rs, patron, bookId, t, p, b);
    }
  }

  lemma ReturnKeepsLimit(rs: seq<BorrowRecord>, patron: string, bookId: BookId, t: int)
    requires WithinLimit(rs)
    ensures WithinLimit(CloseLoans(rs, patron, bookId, t))
  {
    forall p ensures OpenCount(CloseLoans(rs, patron, bookId, t), p) <= MaxLoans {
      assert OpenCount(rs, p) <= MaxLoans;
      CloseLoansOpenOf(rs, patron, bookId, t, p);
    }
  }

  /** A return frees exactly one of the patron's five loan slots. */
  lemma ReturnFreesOneSlot(books: Books, rs: seq<BorrowRecord>, patron: string, bookId: BookId, t: int)
    requires Inv(books, rs) && HasOpen(rs, patron, bookId)
    ensures OpenCount(CloseLoans(rs, patron, bookId, t), patron) == OpenCount(rs, patron) - 1
    ensures !HasOpen(CloseLoans(rs, patron, bookId, t), patron, bookId)
  {
    HeldOnce(rs, patron, bookId);
    CloseLoansOpenOf(rs, patron, bookId, t, patron);
    CloseLoansOpenPair(rs, patron, bookId, t, patron, bookId);
  }

  /** Closing a pair that holds nothing changes no record. */
  lemma CloseLoansNoop(rs: seq<BorrowRecord>, patron: string, bookId: BookId, t: int)
    requires !HasOpen(rs, patron, bookId)
    ensures CloseLoans(rs, patron, bookId, t) == rs
  {
    forall i | 0 <= i < |rs| ensures Close(rs[i], patron, bookId, t) == rs[i] {
      assert rs[i] in rs;
      assert rs[i] !in OpenPair(rs, patron, bookId);
    }
  }

  /** Borrowing a book and then returning it restores the catalogue entry as
      it was, and leaves the new record in place, closed at the return time. */
  lemma {:induction false} BorrowThenReturn(books: Books, rs: seq<BorrowRecord>, patron: string,
                                            bookId: BookId, t0: int, t1: int)
    requires Inv(books, rs)
    requires BorrowCheck(books, rs, patron, bookId).None?
    ensures bookId in books
    ensures HasOpen(rs + [OpenLoan(patron, bookId, t0)], patron, bookId)
    ensures WithAvailable(WithAvailable(books, bookId, -1), bookId, 1) == books
    ensures CloseLoans(rs + [OpenLoan(patron, bookId, t0)], patron, bookId, t1)
            == rs + [OpenLoan(patron, bookId, t0).(returnDate := Some(t1))]
  {
    var x := OpenLoan(patron, bookId, t0);
    AppendRecord(rs, x, patron, bookId);
    CloseLoansNoop(rs, patron, bookId, t1);
    assert CloseLoans(rs + [x], patron, bookId, t1) == CloseLoans(rs, patron, bookId, t1) + [Close(x, patron, bookId, t1)];
  }

  // ---------------------------------------------------------------------
  // Late fees
  // ---------------------------------------------------------------------

  /** `calculate_late_fee_for_book`: the fee on the patron's open record for
      the book, nothing when there is none. */
  function LateFeeFor(rs: seq<BorrowRecord>, patron: string, bookId: BookId, now: int): (f: Fee)
    ensures f.cents == LateFeeCents(f.days) && f.cents <= MaxFee
    ensures !HasOpen(rs, patron, bookId) ==> f == Fee(0, 0)
  {
    var borrowed := ForBook(OpenOf(rs, patron), bookId);
    OpenPairIsForBook(rs, patron, bookId);
    if borrowed == [] then Fee(0, 0) else FeeForRecord(borrowed[|borrowed| - 1], now)
  }

  /** Under the invariant the fee looked up by (patron, book) is the fee of
      that patron's one open record for the book. */
  lemma LateFeeOfOpenLoan(rs: seq<BorrowRecord>, patron: string, x: BorrowRecord, now: int)
    requires OnePerPair(rs) && x in OpenOf(rs, patron)
    ensures LateFeeFor(rs, patron, x.bookId, now) == FeeForRecord(x, now)
  {
    OpenPairIsForBook(rs, patron, x.bookId);
    var pair := OpenPair(rs, patron, x.bookId);
    assert x in pair;
    assert |pair| <= 1;
    OnlyElement(pair, x);
    assert ForBook(OpenOf(rs, patron), x.bookId) == [x];
  }

  /** A sequence of at most one element that holds `x` is `[x]`. */
  lemma OnlyElement<T>(s: seq<T>, x: T)
    requires x in s && |s| <= 1
    ensures s == [x]
  {
  }

  /** A fee is only ever owed on a book of the catalogue. */
  lemma FeeOwedOnCatalogueBook(books: Books, rs: seq<BorrowRecord>, patron: string, bookId: BookId, now: int)
    requires Inv(books, rs) && LateFeeFor(rs, patron, bookId, now).cents > 0
    ensures bookId in books
  {
    var held := OpenPair(rs, patron, bookId)[0];
    assert held in OpenPair(rs, patron, bookId);
  }
}
