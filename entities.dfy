/**
 * The two stored entities of the library: catalogue books and borrow
 * records. Dates are whole seconds on one clock; a missing return date is
 * an open loan.
 */
module Entities {
  import opened Wrappers
  import opened Text

  type BookId = int

  /** A row of the books table. */
  datatype Book = Book(title: string, author: string, isbn: string, total: int, available: int)

  /** A row of the borrow_records table. */
  datatype BorrowRecord = BorrowRecord(
    patron: string,
    bookId: BookId,
    borrowDate: int,
    dueDate: int,
    returnDate: Option<int>)

  /** The books table, keyed by book id. */
  type Books = map<BookId, Book>

  /** A loan that has not been returned yet. */
  predicate IsOpen(r: BorrowRecord) {
    r.returnDate.None?
  }

  /** A library card number: exactly six digits. */
  predicate ValidPatronId(patron: string) {
    IsDigits(patron) && |patron| == 6
  }
}
