/** `BookServiceImpl`: the book service over the repository. `update` refuses
    any isbn that is already stored, the book's own current isbn included,
    with a bare `IllegalArgumentException`; `delete` does nothing. */
module ServiceImpl {
  import opened Wrappers
  import opened Entities
  import opened ExampleMatcher
  import opened Paging
  import opened Repository
  import opened BookService

  function UpdateBook(t: Table, b: Book): (o: Outcome)
    ensures IsbnTaken(t, b.isbn) ==> o == Outcome(Failure(IllegalArgument), t)
    ensures !IsbnTaken(t, b.isbn) ==> o == Outcome(Success(Put(t, b).book), Put(t, b).table)
  {
    if IsbnTaken(t, b.isbn) then Outcome(Failure(IllegalArgument), t)
    else var s := Put(t, b); Outcome(Success(s.book), s.table)
  }

  /** Any stored isbn makes `update` fail with `IllegalArgumentException`, and
      nothing is saved. */
  lemma UpdateRejectsTakenIsbn(t: Table, b: Book)
    requires IsbnTaken(t, b.isbn)
    ensures UpdateBook(t, b) == Outcome(Failure(IllegalArgument), t)
  {
  }

  /** The existence check does not exclude the record being updated, so an
      update that keeps the book's own isbn always fails. */
  lemma UpdateRejectsOwnIsbn(t: Table, b: Book, k: int)
    requires b.id == Some(k) && k in t.books && t.books[k].isbn == b.isbn
    ensures UpdateBook(t, b) == Outcome(Failure(IllegalArgument), t)
  {
    assert IsbnTaken(t, b.isbn);
  }

  /** With a free isbn, `update` overwrites the record with the book's id and
      returns the book; every other record is untouched. */
  lemma UpdateOverwrites(t: Table, b: Book, k: int)
    requires b.id == Some(k) && k in t.books && !IsbnTaken(t, b.isbn)
    ensures UpdateBook(t, b) == Outcome(Success(b), t.(books := t.books[k := b]))
    ensures forall j :: j != k ==> Lookup(UpdateBook(t, b).table, j) == Lookup(t, j)
  {
  }

  /** Updating keeps the table well formed and keeps isbns unique. */
  lemma UpdateKeepsInvariants(t: Table, b: Book)
    requires WellFormed(t) && UniqueIsbns(t)
    ensures WellFormed(UpdateBook(t, b).table) && UniqueIsbns(UpdateBook(t, b).table)
  {
    if !IsbnTaken(t, b.isbn) {
      PutWellFormed(t, b);
      PutKeepsUnique(t, b);
    }
  }

  /** The illustrative catalog session: "Biografia" by William with isbn "123"
      is stored with id 1, a second book with isbn "123" is refused with
      "Isbn duplicado", and a search for titles starting with "Biog" yields a
      page holding only the first book, with one element in total. */
  lemma CatalogScenario()
    ensures var first := Book(None, "Biografia", "William", "123");
      var stored := first.(id := Some(1));
      var o1 := SaveBook(EmptyTable, first);
      var o2 := SaveBook(o1.table, Book(None, "X", "Y", "123"));
      var probe := AnyBook.(title := Some("biog"));
      && o1.result == Success(stored)
      && o2 == Outcome(Failure(Business("Isbn duplicado")), o1.table)
      && Query(o2.table, probe, PageRequest(0, 10)) == Page([stored], 1, 0, 10)
  {
    var first := Book(None, "Biografia", "William", "123");
    var stored := first.(id := Some(1));
    var t1 := Table(map[1 := stored], 2);
    assert SaveBook(EmptyTable, first).table == t1;
    assert IsbnTaken(t1, "123") by { assert t1.books[1].isbn == "123"; }
    assert Rows(t1) == [stored] by {
      assert RowsBelow(t1.books, 0) == [];
      assert RowsBelow(t1.books, 1) == [];
    }
    ScenarioSearch(stored);
  }

  /** The search step of the session: only the stored book is selected. */
  lemma ScenarioSearch(stored: Book)
    requires stored == Book(Some(1), "Biografia", "William", "123")
    ensures Filter(AnyBook.(title := Some("biog")), [stored]) == [stored]
  {
    var probe := AnyBook.(title := Some("biog"));
    assert StartsWithIgnoreCase(stored.title, "biog");
    assert Matches(probe, stored);
    assert [stored][..0] == [];
  }

  class BookServiceImpl {
    const repository: BookRepository

    constructor (repository: BookRepository)
      ensures this.repository == repository
    {
      this.repository := repository;
    }

    method Save(b: Book) returns (r: Result<Book, ServiceError>)
      requires repository.Valid()
      modifies repository
      ensures repository.Valid()
      ensures Outcome(r, repository.State()) == SaveBook(old(repository.State()), b)
      ensures old(UniqueIsbns(repository.State())) ==> UniqueIsbns(repository.State())
    {
      ghost var before := repository.State();
      if UniqueIsbns(before) {
        SaveKeepsInvariants(before, b);
      }
      if repository.ExistsByIsbn(b.isbn) {
        return Failure(Business(DuplicateIsbnMessage));
      }
      var saved := repository.Save(b);
      r := Success(saved);
    }

    /** A plain lookup: absence is a result, not a failure, and nothing changes. */
    function GetById(id: int): (r: Option<Book>)
      reads repository
      requires repository.Valid()
      ensures r.Some? <==> id in repository.books
      ensures r.Some? ==> r.value == repository.books[id] && r.value.id == Some(id)
    {
      repository.FindById(id)
    }

    /** The body is empty: the store is left exactly as it was. */
    method Delete(b: Book)
      ensures repository.State() == old(repository.State())
    {
    }

    method Update(b: Book) returns (r: Result<Book, ServiceError>)
      requires repository.Valid()
      modifies repository
      ensures repository.Valid()
      ensures Outcome(r, repository.State()) == UpdateBook(old(repository.State()), b)
      ensures old(UniqueIsbns(repository.State())) ==> UniqueIsbns(repository.State())
    {
      ghost var before := repository.State();
      if UniqueIsbns(before) {
        UpdateKeepsInvariants(before, b);
      }
      if repository.ExistsByIsbn(b.isbn) {
        return Failure(IllegalArgument);
      }
      var saved := repository.Save(b);
      r := Success(saved);
    }

    /** Query by example: the probe's null fields are ignored, its strings
        match as case-insensitive prefixes, and the page is cut from the
        matches in insertion order. */
    method Find(filter: BookProbe, req: PageRequest) returns (page: Page<Book>)
      ensures page == Query(repository.State(), filter, req)
    {
      page := repository.FindAll(filter, req);
    }

    /** `getBookByIsbn`, which loan creation calls: the first stored book, in
        insertion order, with that isbn. */
    function GetBookByIsbn(isbn: string): (r: Option<Book>)
      reads repository
      ensures r.Some? ==> r.value.isbn == isbn && r.value in repository.books.Values
      ensures repository.Valid() ==> (r.Some? <==> repository.ExistsByIsbn(isbn))
    {
      FindByIsbnSound(repository.State(), isbn);
      FindByIsbn(repository.State(), isbn)
    }
  }
}
