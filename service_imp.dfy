/** `BookServiceImp`, the variant of the book service kept beside the tests,
    which `BookServiceTest` exercises: it offers only `save`, with the same
    isbn check as `BookServiceImpl`. */
module ServiceImp {
  import opened Wrappers
  import opened Entities
  import opened Repository
  import opened BookService

  class BookServiceImp {
    const repository: BookRepository

    constructor (repository: BookRepository)
      ensures this.repository == repository
    {
      this.repository := repository;
    }

    method Save(b: Book) returns (r: Result<Book, ServiceError>)
      requires repository.Valid()
      modifies repository
      ensures repository.Valid()
      ensures Outcome(r, repository.State()) == SaveBook(old(repository.State()), b)
      ensures old(UniqueIsbns(repository.State())) ==> UniqueIsbns(repository.State())
    {
      ghost var before := repository.State();
      if UniqueIsbns(before) {
        SaveKeepsInvariants(before, b);
      }
      if repository.ExistsByIsbn(b.isbn) {
        return Failure(Business(DuplicateIsbnMessage));
      }
      var saved := repository.Save(b);
      r := Success(saved);
    }
  }
}
