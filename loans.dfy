/** Loan creation as `LoanController.makeALoan` performs it: look the book up
    by isbn, refuse an unknown isbn, otherwise save a loan with fixed id and
    customer, today's date and the book found, and answer with the saved
    loan's id. */
module Loans {
  import opened Wrappers
  import opened Entities
  import opened Repository
  import opened ServiceImpl

  /** The request body; only its isbn is read. */
  datatype LoanDto = LoanDto(isbn: string, customer: string)

  /** The loan the controller builds: id 1, customer "Fulano", `returned` unset. */
  function NewLoan(book: Book, today: LocalDate): Loan
  {
    Loan(1, "Fulano", book, today, None)
  }

  /** The loan to be saved, or the failure the request ends with. */
  function LoanFor(t: Table, dto: LoanDto, today: LocalDate): (r: Result<Loan, ServiceError>)
    ensures r.Failure? <==> FindByIsbn(t, dto.isbn).None?
    ensures r.Failure? ==> r.error == ResponseStatus(BadRequest, BookNotFoundReason)
    ensures r.Success? ==> r.value == NewLoan(FindByIsbn(t, dto.isbn).value, today)
  {
    match FindByIsbn(t, dto.isbn)
    case None => Failure(ResponseStatus(BadRequest, BookNotFoundReason))
    case Some(book) => Success(NewLoan(book, today))
  }

  /** An isbn no stored book has ends in BAD_REQUEST, "Book not found for passed isbn". */
  lemma LoanRejectsUnknownIsbn(t: Table, dto: LoanDto, today: LocalDate)
    requires !IsbnTaken(t, dto.isbn)
    ensures LoanFor(t, dto, today) == Failure(ResponseStatus(BadRequest, "Book not found for passed isbn"))
  {
    FindByIsbnSound(t, dto.isbn);
  }

  /** A stored isbn yields a loan of a stored book with that isbn, with id 1,
      customer "Fulano", the given date and `returned` unset. */
  lemma LoanForStoredIsbn(t: Table, dto: LoanDto, today: LocalDate)
    requires WellFormed(t) && IsbnTaken(t, dto.isbn)
    ensures LoanFor(t, dto, today).Success?
    ensures var loan := LoanFor(t, dto, today).value;
      && loan.id == 1 && loan.customer == "Fulano"
      && loan.loanDate == today && loan.returned == None
      && loan.book.isbn == dto.isbn
      && loan.book.id.Some? && loan.book.id.value in t.books && t.books[loan.book.id.value] == loan.book
  {
    FindByIsbnAgrees(t, dto.isbn);
  }

  /** With unique isbns the loan's book is the one stored book with that isbn. */
  lemma LoanBookIsTheBook(t: Table, dto: LoanDto, today: LocalDate, k: int)
    requires WellFormed(t) && UniqueIsbns(t) && k in t.books && t.books[k].isbn == dto.isbn
    ensures LoanFor(t, dto, today) == Success(NewLoan(t.books[k], today))
  {
    FindByIsbnUnique(t, k);
  }

  /** The customer named in the request plays no part in the outcome. */
  lemma LoanIgnoresCustomer(t: Table, dto: LoanDto, other: string, today: LocalDate)
    ensures LoanFor(t, dto.(customer := other), today) == LoanFor(t, dto, today)
  {
  }

  /** The loan store behind `loanService.save`: saving appends the loan and
      returns it as given. */
  class LoanService {
    var loans: seq<Loan>

    constructor ()
      ensures loans == []
    {
      loans := [];
    }

    method Save(loan: Loan) returns (saved: Loan)
      modifies this
      ensures loans == old(loans) + [loan]
      ensures saved == loan
    {
      loans := loans + [loan];
      saved := loan;
    }
  }

  class LoanController {
    const bookService: BookServiceImpl
    const loanService: LoanService

    constructor (bookService: BookServiceImpl, loanService: LoanService)
      ensures this.bookService == bookService && this.loanService == loanService
    {
      this.bookService := bookService;
      this.loanService := loanService;
    }

    /** `today` stands for `LocalDate.now()`. A failed request saves no loan;
        a successful one saves exactly the loan `LoanFor` describes and
        answers with its id. */
    method MakeALoan(dto: LoanDto, today: LocalDate) returns (r: Result<int, ServiceError>)
      modifies loanService
      ensures match LoanFor(bookService.repository.State(), dto, today)
        case Failure(e) => r == Failure(e) && loanService.loans == old(loanService.loans)
        case Success(loan) => r == Success(loan.id) && loanService.loans == old(loanService.loans) + [loan]
    {
      var found := bookService.GetBookByIsbn(dto.isbn);
      if found.None? {
        return Failure(ResponseStatus(BadRequest, BookNotFoundReason));
      }
      var savedOne := loanService.Save(NewLoan(found.value, today));
      r := Success(savedOne.id);
    }
  }
}
