/** The persisted entities of the catalog and the failures its services report. */
module Entities {
  import opened Wrappers

  /** A catalog entry. The id is a nullable `Long` that the store assigns. */
  datatype Book = Book(id: Option<int>, title: string, author: string, isbn: string)

  /** A calendar date, standing for `java.time.LocalDate`. */
  datatype LocalDate = LocalDate(year: int, month: int, day: int)

  /** A loan of a book to a customer; `returned` is a nullable `Boolean`. */
  datatype Loan = Loan(id: int, customer: string, book: Book, loanDate: LocalDate, returned: Option<bool>)

  datatype HttpStatus = BadRequest

  /** The failures of the core: the business error raised by `save`, the bare
      `IllegalArgumentException` raised by `update`, and the
      `ResponseStatusException` raised by loan creation. */
  datatype ServiceError =
    | Business(message: string)
    | IllegalArgument
    | ResponseStatus(status: HttpStatus, reason: string)

  const DuplicateIsbnMessage: string := "Isbn duplicado"

  const BookNotFoundReason: string := "Book not found for passed isbn"
}
