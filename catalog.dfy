/**
 * Catalogue management: the checks a new book must pass before it is
 * inserted, in the order the service applies them.
 */
module Catalog {
  import opened Wrappers
  import opened Text
  import opened Entities

  const MaxTitleLength := 200
  const MaxAuthorLength := 100
  const IsbnLength := 13

  /** Why a book was refused, one kind per check. */
  datatype AddError =
    | TitleRequired
    | TitleTooLong
    | AuthorRequired
    | AuthorTooLong
    | IsbnMissing
    | IsbnWrongLength
    | IsbnHasSpace
    | IsbnNotDigits
    | CopiesNotPositive
    | DuplicateIsbn

  /** The position of each check in the order they are tried. */
  function Rank(e: AddError): nat {
    match e
    case TitleRequired => 0
    case TitleTooLong => 1
    case AuthorRequired => 2
    case AuthorTooLong => 3
    case IsbnMissing => 4
    case IsbnWrongLength => 5
    case IsbnHasSpace => 6
    case IsbnNotDigits => 7
    case CopiesNotPositive => 8
    case DuplicateIsbn => 9
  }

  /** Some book in the catalogue already has this ISBN. */
  predicate IsbnTaken(books: Books, isbn: string) {
    exists id :: id in books && books[id].isbn == isbn
  }

  /** Whether check `e`, taken on its own, rejects the input. Only the shape
      of the ISBN is looked at: 13 characters, no space, all digits; its
      ISO 2108 check digit is not. */
  predicate Fails(e: AddError, books: Books, title: string, author: string,
                  isbn: Option<string>, copies: int)
  {
    match e
    case DuplicateIsbn => isbn.Some? && IsbnTaken(books, isbn.value)
    case _ => ShapeFails(e, title, author, isbn, copies)
  }

  /** The checks that look at the input alone, not at the catalogue. */
  predicate ShapeFails(e: AddError, title: string, author: string, isbn: Option<string>, copies: int) {
    match e
    case TitleRequired => Strip(title) == []
    case TitleTooLong => |Strip(title)| > MaxTitleLength
    case AuthorRequired => Strip(author) == []
    case AuthorTooLong => |Strip(author)| > MaxAuthorLength
    case IsbnMissing => isbn.None?
    case IsbnWrongLength => isbn.Some? && |isbn.value| != IsbnLength
    case IsbnHasSpace => isbn.Some? && ' ' in isbn.value
    case IsbnNotDigits => isbn.Some? && !IsDigits(isbn.value)
    case CopiesNotPositive => copies <= 0
    case DuplicateIsbn => false
  }

  /** The checks on the input alone, in order: the first that fails. */
  function ShapeCheck(title: string, author: string, isbn: Option<string>, copies: int): (r: Option<AddError>)
    ensures r.Some? ==>
              r.value != DuplicateIsbn && ShapeFails(r.value, title, author, isbn, copies) &&
              forall e :: Rank(e) < Rank(r.value) ==> !ShapeFails(e, title, author, isbn, copies)
    ensures r.None? <==> forall e :: !ShapeFails(e, title, author, isbn, copies)
    ensures r.None? ==> isbn.Some? && copies > 0
  {
    if Strip(title) == [] then
      assert ShapeFails(TitleRequired, title, author, isbn, copies);
      Some(TitleRequired)
    else if |Strip(title)| > MaxTitleLength then
      assert ShapeFails(TitleTooLong, title, author, isbn, copies);
      Some(TitleTooLong)
    else if Strip(author) == [] then
      assert ShapeFails(AuthorRequired, title, author, isbn, copies);
      Some(AuthorRequired)
    else if |Strip(author)| > MaxAuthorLength then
      assert ShapeFails(AuthorTooLong, title, author, isbn, copies);
      Some(AuthorTooLong)
    else if isbn.None? then
      assert ShapeFails(IsbnMissing, title, author, isbn, copies);
      Some(IsbnMissing)
    else if |isbn.value| != IsbnLength then
      assert ShapeFails(IsbnWrongLength, title, author, isbn, copies);
      Some(IsbnWrongLength)
    else if ' ' in isbn.value then
      assert ShapeFails(IsbnHasSpace, title, author, isbn, copies);
      Some(IsbnHasSpace)
    else if !IsDigits(isbn.value) then
      assert ShapeFails(IsbnNotDigits, title, author, isbn, copies);
      Some(IsbnNotDigits)
    else if copies <= 0 then
      assert ShapeFails(CopiesNotPositive, title, author, isbn, copies);
      Some(CopiesNotPositive)
    else
      PassesEveryShapeCheck(title, author, isbn.value, copies);
      None
  }

  /** Input that passes each check in turn fails none of them. */
  lemma PassesEveryShapeCheck(title: string, author: string, isbn: string, copies: int)
    requires Strip(title) != [] && |Strip(title)| <= MaxTitleLength
    requires Strip(author) != [] && |Strip(author)| <= MaxAuthorLength
    requires |isbn| == IsbnLength && ' ' !in isbn && IsDigits(isbn) && copies > 0
    ensures forall e :: !ShapeFails(e, title, author, Some(isbn), copies)
  {
    forall e ensures !ShapeFails(e, title, author, Some(isbn), copies) {
      match e
      case TitleRequired =>
      case TitleTooLong =>
      case AuthorRequired =>
      case AuthorTooLong =>
      case IsbnMissing =>
      case IsbnWrongLength =>
      case IsbnHasSpace =>
      case IsbnNotDigits =>
      case CopiesNotPositive =>
      case DuplicateIsbn =>
    }
  }

  /** The validation of a new book: the first failing check decides the
      error, and the book is accepted only when no check fails. The
      duplicate test against the catalogue comes last. */
  function AddBookCheck(books: Books, title: string, author: string,
                        isbn: Option<string>, copies: int): (r: Option<AddError>)
    ensures r.Some? ==>
              Fails(r.value, books, title, author, isbn, copies) &&
              forall e :: Rank(e) < Rank(r.value) ==> !Fails(e, books, title, author, isbn, copies)
    ensures r.None? <==> forall e :: !Fails(e, books, title, author, isbn, copies)
  {
    var shape := ShapeCheck(title, author, isbn, copies);
    if shape.Some? then shape
    else if IsbnTaken(books, isbn.value) then Some(DuplicateIsbn)
    else None
  }

  /** The row inserted for an accepted book: stripped title and author, and
      every copy available. */
  function NewBook(title: string, author: string, isbn: string, copies: int): Book {
    Book(Strip(title), Strip(author), isbn, copies, copies)
  }

  /** No two catalogue entries share an ISBN. */
  ghost predicate UniqueIsbns(books: Books) {
    forall i, j :: i in books && j in books && books[i].isbn == books[j].isbn ==> i == j
  }

  /** A book is accepted exactly when its input passes the shape checks and
      its ISBN is not in the catalogue yet. */
  lemma AcceptedIff(books: Books, title: string, author: string, isbn: Option<string>, copies: int)
    ensures AddBookCheck(books, title, author, isbn, copies).None? <==>
              ShapeCheck(title, author, isbn, copies).None? && isbn.Some? && !IsbnTaken(books, isbn.value)
  {
  }

  /** Inserting a book whose ISBN is new keeps ISBNs unique. */
  lemma InsertKeepsUniqueIsbns(books: Books, id: BookId, b: Book)
    requires UniqueIsbns(books) && id !in books && !IsbnTaken(books, b.isbn)
    ensures UniqueIsbns(books[id := b])
  {
  }

  /** Adding a book with a new ISBN under a fresh id keeps ISBNs unique, and
      any later well-formed book with the same ISBN is then refused as a
      duplicate, even one that the catalogue would have accepted before. */
  lemma {:induction false} AddThenDuplicate(books: Books, id: BookId, title: string, author: string,
                                            isbn: string, copies: int,
                                            title2: string, author2: string, copies2: int)
    requires UniqueIsbns(books) && id !in books && !IsbnTaken(books, isbn)
    ensures UniqueIsbns(books[id := NewBook(title, author, isbn, copies)])
    ensures ShapeCheck(title2, author2, Some(isbn), copies2).None? ==>
              AddBookCheck(books[id := NewBook(title, author, isbn, copies)], title2, author2, Some(isbn), copies2)
              == Some(DuplicateIsbn)
  {
    var b := NewBook(title, author, isbn, copies);
    InsertKeepsUniqueIsbns(books, id, b);
    assert books[id := b][id].isbn == isbn;
    assert IsbnTaken(books[id := b], isbn);
  }
}
