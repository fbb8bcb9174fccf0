/** The `save` operation of the `BookService` interface, which both
    `BookServiceImpl` and the test-tree `BookServiceImp` implement with the
    same code: refuse an isbn that is already stored, otherwise hand the book
    to the repository. */
module BookService {
  import opened Wrappers
  import opened Entities
  import opened Repository

  /** What a service call returns, and the table it leaves behind. */
  datatype Outcome = Outcome(result: Result<Book, ServiceError>, table: Table)

  function SaveBook(t: Table, b: Book): (o: Outcome)
    ensures IsbnTaken(t, b.isbn) ==> o == Outcome(Failure(Business(DuplicateIsbnMessage)), t)
    ensures !IsbnTaken(t, b.isbn) ==> o == Outcome(Success(Put(t, b).book), Put(t, b).table)
  {
    if IsbnTaken(t, b.isbn) then Outcome(Failure(Business(DuplicateIsbnMessage)), t)
    else var s := Put(t, b); Outcome(Success(s.book), s.table)
  }

  /** A stored isbn is refused with the business error "Isbn duplicado", and
      the repository's save is never reached, so the table is unchanged. */
  lemma SaveRejectsDuplicate(t: Table, b: Book)
    requires IsbnTaken(t, b.isbn)
    ensures SaveBook(t, b).result == Failure(Business("Isbn duplicado"))
    ensures SaveBook(t, b).table == t
  {
  }

  /** A new book with a free isbn comes back with a non-null id that was not in
      use and with its title, author and isbn; the table gains exactly that
      record. */
  lemma SaveStoresNewBook(t: Table, b: Book)
    requires WellFormed(t) && !IsbnTaken(t, b.isbn) && (b.id.None? || b.id.value !in t.books)
    ensures var o := SaveBook(t, b);
      && o.result.Success?
      && var s := o.result.value;
      && s.id.Some? && s.id.value !in t.books
      && s.title == b.title && s.author == b.author && s.isbn == b.isbn
      && o.table.books == t.books[s.id.value := s]
      && |o.table.books| == |t.books| + 1
  {
    PutAssignsFreshId(t, b);
  }

  /** A successful save is found again by the id it returned. */
  lemma SaveThenGetById(t: Table, b: Book)
    requires SaveBook(t, b).result.Success?
    ensures var s := SaveBook(t, b).result.value;
      s.id.Some? && Lookup(SaveBook(t, b).table, s.id.value) == Some(s)
  {
    PutThenFound(t, b);
  }

  /** Saving keeps the table well formed and keeps isbns unique. */
  lemma SaveKeepsInvariants(t: Table, b: Book)
    requires WellFormed(t) && UniqueIsbns(t)
    ensures WellFormed(SaveBook(t, b).table) && UniqueIsbns(SaveBook(t, b).table)
  {
    if !IsbnTaken(t, b.isbn) {
      PutWellFormed(t, b);
      PutKeepsUnique(t, b);
    }
  }

  /** Storing a book whose isbn is free, under any key, keeps isbns unique. */
  lemma PutKeepsUnique(t: Table, b: Book)
    requires UniqueIsbns(t) && !IsbnTaken(t, b.isbn)
    ensures UniqueIsbns(Put(t, b).table)
  {
    var s := Put(t, b);
    var key := s.book.id.value;
    assert s.table.books == t.books[key := s.book];
    forall j, k | j in s.table.books && k in s.table.books && s.table.books[j].isbn == s.table.books[k].isbn
      ensures j == k
    {
      if j != key && k != key {
        assert t.books[j].isbn == t.books[k].isbn;
      }
    }
  }
}
