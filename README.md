# Library catalog core, modelled in Dafny

This project models the domain layer of a small Spring library service. It
covers three parts:

- The book store (`BookRepository`) is an in-memory table keyed by id. A
  counter hands out new ids.
- The book service (`BookServiceImpl`, and the `BookServiceImp` variant
  kept beside the tests) keeps isbns unique on `save` and `update`. It also
  offers `getById`, an empty `delete`, and `find`.
- Loan creation (`LoanController.makeALoan`) only lends a book that exists,
  found by its isbn.

`find` uses the query-by-example matcher: null fields are ignored, strings
match as case-insensitive prefixes, and all criteria must hold. Spring Data
then returns one page of the matches. The model states both exactly.

Layout, one module per file:

- `wrappers.dfy` (`Wrappers`): `Option` and `Result`.
- `entities.dfy` (`Entities`): `Book`, `Loan`, `LocalDate`, the service errors and their fixed messages.
- `example_matcher.dfy` (`ExampleMatcher`): the probe, the ASCII case folding, the prefix matcher and `Filter`.
- `paging.dfy` (`Paging`): `PageRequest`, `Page`, the page slice and the page count.
- `repository.dfy` (`Repository`): the pure `Table` specification of each store operation, and the class `BookRepository` whose methods are proved equal to it. `FindAll` is a scan loop over the ids.
- `book_service.dfy` (`BookService`): the `save` logic that both service classes share (`SaveBook`).
- `service_impl.dfy` (`ServiceImpl`): `UpdateBook` and the class `BookServiceImpl`.
- `service_imp.dfy` (`ServiceImp`): the class `BookServiceImp`.
- `loans.dfy` (`Loans`): `LoanFor`, a loan store standing for `LoanService`, and the class `LoanController`.

Each state-changing method is specified the same way: its result and the new
store equal a pure function of the old store (`Put`, `Remove`,
`SaveBook`, `UpdateBook`, `LoanFor`). Lemmas then prove what the source
promises about those functions.

Behaviours of the code a reader may not expect, all kept by the model:

- `update` refuses every stored isbn, including the record's own current
  isbn. It does not refuse only a collision with a *different* record.
- `delete` in `BookServiceImpl` does nothing. It does not remove the book.
- `save` does not require the book to come without an id. A book whose id is
  already stored overwrites that record.
- `makeALoan` ignores the customer named in the request and always stores
  the customer "Fulano" (`Loans.NewLoan`, `Loans.LoanIgnoresCustomer`).

## Model

| member | source | states |
|---|---|---|
| ExampleMatcher.LowerStr | src/main/java/com/springtdd/tddspringlbrary/api/resource/service/impl/BookServiceImpl.java:54 | case folding works letter by letter and keeps the length |
| ExampleMatcher.FieldMatches | src/main/java/com/springtdd/tddspringlbrary/api/resource/service/impl/BookServiceImpl.java:52-56 | a null criterion matches every value; a set one matches exactly when its lower-cased form is a prefix of the lower-cased value |
| ExampleMatcher.Matches | src/main/java/com/springtdd/tddspringlbrary/api/resource/service/impl/BookServiceImpl.java:51-57 | a book matches exactly when the probe's id, if set, equals the book's and each set title, author and isbn criterion, lower-cased, is a prefix of the lower-cased field |
| ExampleMatcher.Filter | src/main/java/com/springtdd/tddspringlbrary/api/resource/service/impl/BookServiceImpl.java:51-59 | every selected book comes from the rows and matches the probe; the selection is never longer than the rows |
| ExampleMatcher.FilterComplete | src/main/java/com/springtdd/tddspringlbrary/api/resource/service/impl/BookServiceImpl.java:51-59 | every row that matches the probe is selected |
| ExampleMatcher.FilterAppend | src/main/java/com/springtdd/tddspringlbrary/api/resource/service/impl/BookServiceImpl.java:59 | filtering distributes over concatenation, so matches keep the store order |
| ExampleMatcher.FilterAnyBook | src/main/java/com/springtdd/tddspringlbrary/api/resource/service/impl/BookServiceImpl.java:55 | a probe whose fields are all null selects all rows, in order |
| ExampleMatcher.StartsWithIsLoweredPrefix | src/main/java/com/springtdd/tddspringlbrary/api/resource/service/impl/BookServiceImpl.java:54-56 | a case-insensitive STARTING match holds exactly when the lower-cased criterion is a sequence prefix of the lower-cased value |
| ExampleMatcher.StartsWithNoLonger | src/main/java/com/springtdd/tddspringlbrary/api/resource/service/impl/BookServiceImpl.java:56 | a matching criterion is never longer than the value |
| ExampleMatcher.StartsWithOwnPrefix | src/main/java/com/springtdd/tddspringlbrary/api/resource/service/impl/BookServiceImpl.java:56 | every leading part of a value, as written or lower-cased, matches that value |
| ExampleMatcher.StartsWithTransitive | src/main/java/com/springtdd/tddspringlbrary/api/resource/service/impl/BookServiceImpl.java:56 | prefix matching composes: a prefix of a matching prefix also matches |
| ExampleMatcher.StartsWithIgnoresCriterionCase | src/main/java/com/springtdd/tddspringlbrary/api/resource/service/impl/BookServiceImpl.java:54 | lower-casing the criterion does not change whether it matches |
| ExampleMatcher.AnyBookMatchesAll | src/main/java/com/springtdd/tddspringlbrary/api/resource/service/impl/BookServiceImpl.java:55 | null fields are ignored: the all-null probe matches every book |
| ExampleMatcher.ProbeOfMatches | src/main/java/com/springtdd/tddspringlbrary/api/resource/service/impl/BookServiceImpl.java:51-57 | a probe built from a book's own id, title, author and isbn matches that book |
| ExampleMatcher.NarrowingByTitle | src/main/java/com/springtdd/tddspringlbrary/api/resource/service/impl/BookServiceImpl.java:52-53 | criteria combine with AND: adding a title criterion only narrows the selection |
| Paging.Window | src/main/java/com/springtdd/tddspringlbrary/api/resource/service/impl/BookServiceImpl.java:59 | a window holds exactly the elements at positions lo up to hi that exist, in order |
| Paging.PageOf | src/main/java/com/springtdd/tddspringlbrary/api/resource/service/impl/BookServiceImpl.java:59 | the page holds the matches from offset page*size, at most size of them, with totalElements equal to the match count and the page number and size echoed back |
| Paging.PageNonEmptyIff | src/main/java/com/springtdd/tddspringlbrary/api/resource/service/impl/BookServiceImpl.java:59 | a page has content exactly when its number is below the total page count |
| Paging.PagesTile | src/main/java/com/springtdd/tddspringlbrary/api/resource/service/impl/BookServiceImpl.java:59 | pages 0 to k-1, read in turn, give the first k*size matches with no gap or overlap |
| Paging.AllPagesYieldAll | src/main/java/com/springtdd/tddspringlbrary/api/resource/service/impl/BookServiceImpl.java:59 | reading all total-pages pages yields every match, in order |
| Repository.IsbnTaken | src/main/java/com/springtdd/tddspringlbrary/api/resource/model/repository/BookRepository.java:9 | existsByIsbn holds exactly when the isbn is among the stored books' isbns |
| Repository.Lookup | src/main/java/com/springtdd/tddspringlbrary/api/resource/model/repository/BookRepository.java:10 | findById gives a result exactly when the id is stored, and then the record stored under it |
| Repository.Put | src/main/java/com/springtdd/tddspringlbrary/api/resource/model/repository/BookRepository.java:8 | save returns the book with an id, stores it under that id, keeps its other fields, and never lowers the counter |
| Repository.Remove | src/main/java/com/springtdd/tddspringlbrary/api/resource/model/repository/BookRepository.java:8 | delete drops exactly the key of the book's id, keeps every other record and leaves the counter as it was |
| Repository.FindByIsbn | src/main/java/com/springtdd/tddspringlbrary/api/resource/LoanController.java:26 | a found book carries the isbn and is a row of the store; no result means no row carries it |
| Repository.Query | src/main/java/com/springtdd/tddspringlbrary/api/resource/service/impl/BookServiceImpl.java:50-59 | findAll's page echoes the request, holds at most size books and no more than the total, and every book on it matches the probe |
| Repository.FirstWithIsbn | src/main/java/com/springtdd/tddspringlbrary/api/resource/LoanController.java:26 | a found book is a row with the isbn and no earlier row has that isbn; no result means no row has the isbn |
| Repository.RowsBelowMembers | src/main/java/com/springtdd/tddspringlbrary/api/resource/model/repository/BookRepository.java:8 | the id scan below n visits exactly the books stored under ids below n |
| Repository.RowsAreStored | src/main/java/com/springtdd/tddspringlbrary/api/resource/model/repository/BookRepository.java:8 | in a well-formed table the scan visits exactly the stored books |
| Repository.PutWellFormed | src/main/java/com/springtdd/tddspringlbrary/api/resource/model/repository/BookRepository.java:8 | save keeps every record under its own id and every id below the counter |
| Repository.PutAssignsFreshId | src/test/java/com/springtdd/tddspringlbrary/api/resource/model/repository/BookRepositoryTest.java:50-52 | saving a book with no stored id gives it the counter's id, never handed out before, advances the counter, keeps the book's other fields, and adds exactly that record |
| Repository.DeletedIdNotReused | src/main/java/com/springtdd/tddspringlbrary/api/resource/model/repository/BookRepository.java:8 | ids are never reused: a book saved after a delete never gets the deleted book's id |
| Repository.PutReplaces | src/main/java/com/springtdd/tddspringlbrary/api/resource/model/repository/BookRepository.java:8 | saving a book whose id is stored replaces that record and changes nothing else |
| Repository.PutThenFound | src/test/java/com/springtdd/tddspringlbrary/api/resource/model/repository/BookRepositoryTest.java:30-35 | after a save the returned book is found by its id, and existsByIsbn holds for its isbn |
| Repository.PutKeepsOthers | src/main/java/com/springtdd/tddspringlbrary/api/resource/model/repository/BookRepository.java:8 | a save leaves every other id's lookup as it was |
| Repository.RemoveThenAbsent | src/test/java/com/springtdd/tddspringlbrary/api/resource/model/repository/BookRepositoryTest.java:58-63 | after delete the book's id finds nothing, and other ids are unaffected |
| Repository.EmptyHasNoIsbn | src/test/java/com/springtdd/tddspringlbrary/api/resource/model/repository/BookRepositoryTest.java:41-44 | existsByIsbn is false on a store holding no book |
| Repository.LookupFindsStored | src/main/java/com/springtdd/tddspringlbrary/api/resource/model/repository/BookRepository.java:10 | findById finds a book exactly when the id is stored, and the book carries that id |
| Repository.FindByIsbnSound | src/main/java/com/springtdd/tddspringlbrary/api/resource/LoanController.java:26 | on any store a found book is a stored record with the isbn; on a well-formed store the lookup fails only when no record has the isbn |
| Repository.FindByIsbnAgrees | src/main/java/com/springtdd/tddspringlbrary/api/resource/model/repository/BookRepository.java:9 | the isbn lookup succeeds exactly when existsByIsbn holds, and returns the stored record with that isbn |
| Repository.FindByIsbnUnique | src/main/java/com/springtdd/tddspringlbrary/api/resource/LoanController.java:26 | with unique isbns, the isbn lookup returns the one book holding the isbn |
| Repository.QueryCharacterization | src/main/java/com/springtdd/tddspringlbrary/api/resource/service/impl/BookServiceImpl.java:51-59 | findAll selects exactly the stored books matching the probe, each once, and returns their slice at the page offset, their total count and the echoed request |
| Repository.RowsBelowIncreasing | src/main/java/com/springtdd/tddspringlbrary/api/resource/model/repository/BookRepository.java:8 | when every book is stored under its own id, the scan lists books in strictly increasing id order |
| Repository.FilterKeepsIncreasing | src/main/java/com/springtdd/tddspringlbrary/api/resource/service/impl/BookServiceImpl.java:59 | selecting the matches keeps strictly increasing ids, so no book is selected twice |
| Repository.MatchCountBelow | src/main/java/com/springtdd/tddspringlbrary/api/resource/service/impl/BookServiceImpl.java:59 | the scan below n selects one book per matching key below n |
| Repository.MatchCount | src/main/java/com/springtdd/tddspringlbrary/api/resource/service/impl/BookServiceImpl.java:59 | totalElements of findAll is the number of stored records that match the probe |
| Repository.BookRepository.constructor | src/main/java/com/springtdd/tddspringlbrary/api/resource/model/repository/BookRepository.java:8 | a new store is empty, and its counter starts at 1 |
| Repository.BookRepository.ExistsByIsbn | src/main/java/com/springtdd/tddspringlbrary/api/resource/model/repository/BookRepository.java:9 | true exactly when some stored record carries the isbn |
| Repository.BookRepository.FindById | src/main/java/com/springtdd/tddspringlbrary/api/resource/model/repository/BookRepository.java:10 | a result exactly when the id is a stored key, and then the record stored under it |
| Repository.BookRepository.Save | src/main/java/com/springtdd/tddspringlbrary/api/resource/model/repository/BookRepository.java:8 | the new store and the returned book are those of Put on the old store |
| Repository.BookRepository.Delete | src/main/java/com/springtdd/tddspringlbrary/api/resource/model/repository/BookRepository.java:8 | the new store is Remove of the old store |
| Repository.BookRepository.FindAll | src/main/java/com/springtdd/tddspringlbrary/api/resource/model/repository/BookRepository.java:8 | the id-order scan returns exactly Query of the store: the page is counted and cut while scanning |
| BookService.SaveBook | src/main/java/com/springtdd/tddspringlbrary/api/resource/service/impl/BookServiceImpl.java:25-29 | a stored isbn gives the business error "Isbn duplicado" with the store unchanged; otherwise the book is saved as Put does and returned |
| BookService.SaveRejectsDuplicate | src/main/java/com/springtdd/tddspringlbrary/api/resource/service/impl/BookServiceImpl.java:26-27 | a stored isbn fails with the business error "Isbn duplicado", and the store is unchanged |
| BookService.SaveStoresNewBook | src/main/java/com/springtdd/tddspringlbrary/api/resource/service/impl/BookServiceImpl.java:28 | a book with a free isbn and no stored id comes back with a fresh non-null id and the same title, author and isbn; the store gains exactly that record |
| BookService.SaveThenGetById | src/main/java/com/springtdd/tddspringlbrary/api/resource/service/impl/BookServiceImpl.java:25-34 | a successful save is found again by getById with the returned id |
| BookService.SaveKeepsInvariants | src/main/java/com/springtdd/tddspringlbrary/api/resource/service/impl/BookServiceImpl.java:26-28 | save keeps isbns unique and the store well formed |
| BookService.PutKeepsUnique | src/main/java/com/springtdd/tddspringlbrary/api/resource/service/impl/BookServiceImpl.java:43-45 | storing a book with a free isbn, under any id, keeps isbns unique |
| ServiceImpl.UpdateBook | src/main/java/com/springtdd/tddspringlbrary/api/resource/service/impl/BookServiceImpl.java:42-47 | a stored isbn, the record's own included, gives IllegalArgument with the store unchanged; otherwise the book is saved as Put does and returned |
| ServiceImpl.UpdateRejectsTakenIsbn | src/main/java/com/springtdd/tddspringlbrary/api/resource/service/impl/BookServiceImpl.java:43-44 | any stored isbn makes update fail with IllegalArgumentException, and nothing is saved |
| ServiceImpl.UpdateRejectsOwnIsbn | src/main/java/com/springtdd/tddspringlbrary/api/resource/service/impl/BookServiceImpl.java:43-44 | an update that keeps the record's own isbn always fails, because the check does not exclude the id |
| ServiceImpl.UpdateOverwrites | src/main/java/com/springtdd/tddspringlbrary/api/resource/service/impl/BookServiceImpl.java:45-46 | with a free isbn, update overwrites the record with that id and returns the book; all other records are untouched |
| ServiceImpl.UpdateKeepsInvariants | src/main/java/com/springtdd/tddspringlbrary/api/resource/service/impl/BookServiceImpl.java:43-46 | update keeps isbns unique and the store well formed |
| ServiceImpl.CatalogScenario | src/main/java/com/springtdd/tddspringlbrary/api/resource/service/impl/BookServiceImpl.java:24-60 | a first book gets id 1; a second one with the same isbn fails with "Isbn duplicado"; a "biog" title search returns a page with only the first book and a total of 1 |
| ServiceImpl.ScenarioSearch | src/main/java/com/springtdd/tddspringlbrary/api/resource/service/impl/BookServiceImpl.java:50-59 | the title probe "biog" selects the stored book titled "Biografia" |
| ServiceImpl.BookServiceImpl.constructor | src/main/java/com/springtdd/tddspringlbrary/api/resource/service/impl/BookServiceImpl.java:20-22 | the service works on the repository it is given |
| ServiceImpl.BookServiceImpl.Save | src/main/java/com/springtdd/tddspringlbrary/api/resource/service/impl/BookServiceImpl.java:25-29 | the result and the new store are SaveBook of the old store, and unique isbns are preserved |
| ServiceImpl.BookServiceImpl.GetById | src/main/java/com/springtdd/tddspringlbrary/api/resource/service/impl/BookServiceImpl.java:32-34 | finds a book exactly when the id is stored, returns that record and its id, and leaves the store unchanged |
| ServiceImpl.BookServiceImpl.Delete | src/main/java/com/springtdd/tddspringlbrary/api/resource/service/impl/BookServiceImpl.java:37-39 | the store is left exactly as it was |
| ServiceImpl.BookServiceImpl.Update | src/main/java/com/springtdd/tddspringlbrary/api/resource/service/impl/BookServiceImpl.java:42-47 | the result and the new store are UpdateBook of the old store, and unique isbns are preserved |
| ServiceImpl.BookServiceImpl.Find | src/main/java/com/springtdd/tddspringlbrary/api/resource/service/impl/BookServiceImpl.java:50-60 | the page is Query of the store for the probe and the request |
| ServiceImpl.BookServiceImpl.GetBookByIsbn | src/main/java/com/springtdd/tddspringlbrary/api/resource/LoanController.java:26 | a found book carries the isbn and is stored; on a valid store a book is found exactly when existsByIsbn holds |
| ServiceImp.BookServiceImp.constructor | src/test/java/com/springtdd/tddspringlbrary/api/resource/service/impl/BookServiceImp.java:14-16 | the service works on the repository it is given |
| ServiceImp.BookServiceImp.Save | src/test/java/com/springtdd/tddspringlbrary/api/resource/service/impl/BookServiceImp.java:19-23 | the result and the new store are SaveBook of the old store, and unique isbns are preserved |
| Loans.LoanFor | src/main/java/com/springtdd/tddspringlbrary/api/resource/LoanController.java:25-35 | the request fails exactly when the isbn lookup finds nothing, with BAD_REQUEST and "Book not found for passed isbn"; otherwise the loan is NewLoan of the found book and today |
| Loans.LoanRejectsUnknownIsbn | src/main/java/com/springtdd/tddspringlbrary/api/resource/LoanController.java:26-27 | an isbn that no stored book has fails with BAD_REQUEST and "Book not found for passed isbn" |
| Loans.LoanForStoredIsbn | src/main/java/com/springtdd/tddspringlbrary/api/resource/LoanController.java:26-35 | a stored isbn yields a loan with id 1, customer "Fulano", today's date, returned unset, and a stored book with that isbn |
| Loans.LoanBookIsTheBook | src/main/java/com/springtdd/tddspringlbrary/api/resource/LoanController.java:26-34 | with unique isbns, the loan's book is the stored book with the requested isbn |
| Loans.LoanIgnoresCustomer | src/main/java/com/springtdd/tddspringlbrary/api/resource/LoanController.java:31-32 | the customer in the request does not affect the outcome |
| Loans.LoanService.constructor | src/main/java/com/springtdd/tddspringlbrary/api/resource/LoanController.java:21 | a new loan store holds no loans |
| Loans.LoanService.Save | src/main/java/com/springtdd/tddspringlbrary/api/resource/LoanController.java:29-36 | saving appends exactly the given loan and returns it |
| Loans.LoanController.constructor | src/main/java/com/springtdd/tddspringlbrary/api/resource/LoanController.java:17-21 | the controller works on the services it is given |
| Loans.LoanController.MakeALoan | src/main/java/com/springtdd/tddspringlbrary/api/resource/LoanController.java:25-39 | on failure no loan is saved; on success exactly the loan of LoanFor is appended, and its id is returned |

## Left out

- HTTP layer: the controllers' routing, DTO mapping, status codes, the error advice and `ApiErrors` are not modelled. The status and reason of `ResponseStatusException` are kept as data.
- Bean validation of request bodies is not modelled. It depends on annotations in DTO classes that are not part of this model.
- The `BookService` interface declares only `save`, and no file of the program implements `getBookByIsbn`. `ServiceImpl.BookServiceImpl.GetBookByIsbn` stands for it: a store lookup by isbn that returns the first matching book in id order.
- No file of the program implements `LoanService`. `Loans.LoanService.Save` stands for it: it appends the loan and returns it unchanged, so the answer is always 1.
- The system clock: `LocalDate.now()` is the parameter `today` of `MakeALoan`.
- Concurrency: the check-then-save race between concurrent `save` or `update` calls is not modelled. Calls run one at a time.
- Case folding covers ASCII letters only. Unicode case mapping is not modelled.
- Database ordering: `findAll` returns matches in ascending id order, which is insertion order here. No `Sort` of the `Pageable` is modelled.
- Translation of the example query to SQL is not modelled, including LIKE escaping. Prefixes are compared literally.
- ServiceImpl.BookServiceImpl.GetById: the id is a plain integer, so the null `Long` on which `findById` throws `IllegalArgumentException` is not modelled.
- `Book.java` is not part of this model. The book's id is taken to be a nullable `Long`, because the repository is `JpaRepository<Book, Long>` and the service passes a `Long` id to it; a primitive `long` id would instead give every probe the id 0.
- Stored books' title, author and isbn are never null. A null isbn passed to `existsByIsbn` is not modelled.
- The `Long` page offset and ids are unbounded integers, so 64-bit overflow is not modelled.
- Saving a book whose id is not stored: it is inserted under a fresh id. This is how a JPA merge of an entity with a generated id behaves; the `Book` entity's mapping is not part of this model.
- Repository delete of a book without an id, or with an id not stored, does nothing. This is how Spring Data's `delete(entity)` behaves.
- `Book` and `Loan` are plain data. They are mirrored as datatypes, and their Lombok builders and accessors are not modelled separately.
