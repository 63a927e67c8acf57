/**
 * The library's records and the effect of each route on them (routes.py), as pure
 * functions from the store before a request to the response and the store after it.
 *
 * The relational store is a value `Db`: books, users and loans keyed by their integer
 * ids, and for each table the next id the database would hand out. Ids start at 1,
 * which is why an id of 0 is never the id of a record.
 *
 * Two things the routes call into are not modelled here and become inputs:
 * `parse` stands for datetime.fromisoformat (None when it raises ValueError), and
 * `commitFails` says whether the database refuses the commit; every route then rolls
 * back, so a refused commit leaves the store as it was.
 */
module Store {
  import opened Wrappers
  import Passwords

  /** A parsed timestamp, as datetime.fromisoformat returns it. */
  datatype DateTime = DateTime(year: int, month: int, day: int, hour: int, minute: int, second: int, microsecond: int)

  datatype Book = Book(title: string, isbn: string, stock: int)

  /** A registered user; the bcrypt hash of the password is not modelled. */
  datatype User = User(username: string, email: string)

  /** A loan is open while it has no return date and closed once it has one. */
  datatype Loan = Loan(bookId: int, userId: int, loanDate: DateTime, returnDate: Option<DateTime>)
  {
    predicate IsOpen() { returnDate.None? }
  }

  datatype Db = Db(
    books: map<int, Book>, users: map<int, User>, loans: map<int, Loan>,
    nextBookId: int, nextUserId: int, nextLoanId: int)
  {
    /** Every id in use was handed out earlier by the table's counter, which starts at 1. */
    predicate Valid()
    {
      && 1 <= nextBookId && 1 <= nextUserId && 1 <= nextLoanId
      && (forall id :: id in books ==> 1 <= id < nextBookId)
      && (forall id :: id in users ==> 1 <= id < nextUserId)
      && (forall id :: id in loans ==> 1 <= id < nextLoanId)
    }
  }

  /** No id was handed out: every table's counter is where it was. */
  predicate SameCounters(before: Db, after: Db)
  {
    after.nextBookId == before.nextBookId && after.nextUserId == before.nextUserId
    && after.nextLoanId == before.nextLoanId
  }

  const EmptyDb := Db(map[], map[], map[], 1, 1, 1)

  predicate StocksNonNegative(db: Db)
  {
    forall id :: id in db.books ==> db.books[id].stock >= 0
  }

  /** The response of a route: its outcome and, in a comment, the HTTP status it carries. */
  datatype Response =
    | Created                          // 201
    | Done                             // 200
    | LoanFound(id: int, loan: Loan)   // 200, the loan's fields
    | WeakPassword                     // 400
    | MissingFields                    // 400
    | InvalidDateFormat                // 400
    | OutOfStock                       // 400
    | BookNotFound                     // 404
    | UserNotFound                     // 404
    | LoanNotFound                     // 404
    | DuplicateIsbn                    // 409
    | DuplicateTitle                   // 409
    | DuplicateUser                    // 409
    | ServerError                      // 500
  {
    function Status(): int
    {
      match this
      case Created => 201
      case Done => 200
      case LoanFound(_, _) => 200
      case WeakPassword => 400
      case MissingFields => 400
      case InvalidDateFormat => 400
      case OutOfStock => 400
      case BookNotFound => 404
      case UserNotFound => 404
      case LoanNotFound => 404
      case DuplicateIsbn => 409
      case DuplicateTitle => 409
      case DuplicateUser => 409
      case ServerError => 500
    }
  }

  /** What a mutating route answers and the store it leaves behind. */
  datatype Step = Step(response: Response, after: Db)

  // ---------------------------------------------------------------- request fields

  /** Python truthiness of an optional integer field: absent and 0 are falsy. */
  predicate Truthy(field: Option<int>) { field.Some? && field.value != 0 }

  /** Python truthiness of an optional string field: absent and "" are falsy. */
  predicate TruthyText(field: Option<string>) { field.Some? && field.value != "" }

  /** The body of POST /loans. */
  datatype LoanRequest = LoanRequest(
    bookId: Option<int>, userId: Option<int>, loanDate: Option<string>, returnDate: Option<string>)
  {
    predicate HasRequiredFields() { Truthy(bookId) && Truthy(userId) && TruthyText(loanDate) }
  }

  /** The body of POST /books. */
  datatype BookRequest = BookRequest(title: string, isbn: string, stock: int)

  /** The body of POST /register; the password may be absent. */
  datatype Registration = Registration(username: string, email: string, password: Option<string>)

  /**
   * The optional return date of a request: a falsy value means no date; otherwise it
   * must parse. None when parsing fails.
   */
  function ParseOptional(parse: string -> Option<DateTime>, field: Option<string>): (r: Option<Option<DateTime>>)
    ensures !TruthyText(field) ==> r == Some(None)
    ensures TruthyText(field) ==> (r.Some? <==> parse(field.value).Some?)
    ensures r.Some? && r.value.Some? ==> TruthyText(field) && parse(field.value) == Some(r.value.value)
    ensures TruthyText(field) && parse(field.value).Some? ==> r == Some(parse(field.value))
  {
    if TruthyText(field) then
      match parse(field.value)
      case None => None
      case Some(d) => Some(Some(d))
    else Some(None)
  }

  /** Both dates of a loan request parse (the loan date is required to be present). */
  predicate DatesParse(parse: string -> Option<DateTime>, req: LoanRequest)
    requires req.HasRequiredFields()
  {
    parse(req.loanDate.value).Some? && ParseOptional(parse, req.returnDate).Some?
  }

  // ---------------------------------------------------------------- register

  ghost predicate UserClash(db: Db, username: string, email: string)
  {
    exists id :: id in db.users && (db.users[id].username == username || db.users[id].email == email)
  }

  /**
   * POST /register: the password policy first (an absent password makes the length
   * check raise, which the route does not catch), then the insert, whose commit is
   * refused with an integrity error when the username or the email is taken.
   */
  function Register(db: Db, reg: Registration, commitFails: bool): (out: Step)
    requires db.Valid()
    ensures out.after.Valid()
    ensures out.response in {Created, WeakPassword, DuplicateUser, ServerError}
    ensures out.response != Created ==> out.after == db
    ensures reg.password.None? ==> out.response == ServerError
    ensures out.response == WeakPassword <==> reg.password.Some? && !Passwords.MeetsPolicy(reg.password.value)
    ensures out.response == DuplicateUser <==>
      reg.password.Some? && Passwords.MeetsPolicy(reg.password.value) && UserClash(db, reg.username, reg.email)
    ensures out.response == Created <==>
      reg.password.Some? && Passwords.MeetsPolicy(reg.password.value) && !UserClash(db, reg.username, reg.email) && !commitFails
    ensures out.response == Created ==>
      && db.nextUserId !in db.users
      && out.after == db.(users := db.users[db.nextUserId := User(reg.username, reg.email)], nextUserId := db.nextUserId + 1)
  {
    if reg.password.None? then Step(ServerError, db)
    else if !Passwords.ValidatePassword(reg.password.value) then Step(WeakPassword, db)
    else if exists id | id in db.users :: db.users[id].username == reg.username || db.users[id].email == reg.email then
      Step(DuplicateUser, db)
    else if commitFails then Step(ServerError, db)
    else
      Step(Created, db.(users := db.users[db.nextUserId := User(reg.username, reg.email)], nextUserId := db.nextUserId + 1))
  }

  // ---------------------------------------------------------------- books

  ghost predicate IsbnTaken(db: Db, isbn: string)
  {
    exists id :: id in db.books && db.books[id].isbn == isbn
  }

  ghost predicate TitleTaken(db: Db, title: string)
  {
    exists id :: id in db.books && db.books[id].title == title
  }

  /** POST /books: an existing ISBN is refused before an existing title; the stock is taken as given. */
  function AddBook(db: Db, req: BookRequest, commitFails: bool): (out: Step)
    requires db.Valid()
    ensures out.after.Valid()
    ensures out.response in {Created, DuplicateIsbn, DuplicateTitle, ServerError}
    ensures out.response != Created ==> out.after == db
    ensures out.response == DuplicateIsbn <==> IsbnTaken(db, req.isbn)
    ensures out.response == DuplicateTitle <==> !IsbnTaken(db, req.isbn) && TitleTaken(db, req.title)
    ensures out.response == Created <==> !IsbnTaken(db, req.isbn) && !TitleTaken(db, req.title) && !commitFails
    ensures out.response == Created ==>
      && db.nextBookId !in db.books
      && out.after.books == db.books[db.nextBookId := Book(req.title, req.isbn, req.stock)]
      && out.after.loans == db.loans && out.after.users == db.users
      && out.after.nextBookId == db.nextBookId + 1
      && out.after.nextUserId == db.nextUserId && out.after.nextLoanId == db.nextLoanId
    ensures StocksNonNegative(db) && req.stock >= 0 ==> StocksNonNegative(out.after)
  {
    if exists id | id in db.books :: db.books[id].isbn == req.isbn then Step(DuplicateIsbn, db)
    else if exists id | id in db.books :: db.books[id].title == req.title then Step(DuplicateTitle, db)
    else if commitFails then Step(ServerError, db)
    else
      Step(Created, db.(books := db.books[db.nextBookId := Book(req.title, req.isbn, req.stock)], nextBookId := db.nextBookId + 1))
  }

  /** DELETE /books/<id>: removes the book whatever loans still refer to it. */
  function DeleteBook(db: Db, bookId: int, commitFails: bool): (out: Step)
    requires db.Valid()
    ensures out.after.Valid()
    ensures out.response in {Done, BookNotFound, ServerError}
    ensures out.response != Done ==> out.after == db
    ensures out.response == BookNotFound <==> bookId !in db.books
    ensures out.response == Done <==> bookId in db.books && !commitFails
    ensures out.response == Done ==>
      && out.after.books.Keys == db.books.Keys - {bookId}
      && (forall id :: id in out.after.books ==> out.after.books[id] == db.books[id])
      && out.after.loans == db.loans && out.after.users == db.users
    ensures SameCounters(db, out.after)
    ensures StocksNonNegative(db) ==> StocksNonNegative(out.after)
  {
    if bookId !in db.books then Step(BookNotFound, db)
    else if commitFails then Step(ServerError, db)
    else Step(Done, db.(books := db.books - {bookId}))
  }

  // ---------------------------------------------------------------- loans

  /** The loan a successful POST /loans inserts. */
  function NewLoan(parse: string -> Option<DateTime>, req: LoanRequest): (loan: Loan)
    requires req.HasRequiredFields() && DatesParse(parse, req)
    ensures Some(loan.loanDate) == parse(req.loanDate.value)
    ensures loan.bookId == req.bookId.value && loan.userId == req.userId.value
    ensures loan.IsOpen() <==> !TruthyText(req.returnDate)
    ensures !loan.IsOpen() ==> parse(req.returnDate.value) == loan.returnDate
  {
    Loan(req.bookId.value, req.userId.value, parse(req.loanDate.value).value, ParseOptional(parse, req.returnDate).value)
  }

  /**
   * POST /loans. The guards run in order and the first that fails answers: missing
   * fields, a date that does not parse, an unknown book, an unknown user, no stock
   * left. Past them the loan is inserted and the book's stock goes down by one, both
   * or neither.
   */
  function CreateLoan(db: Db, parse: string -> Option<DateTime>, req: LoanRequest, commitFails: bool): (out: Step)
    requires db.Valid()
    ensures out.after.Valid()
    ensures out.response in {Created, MissingFields, InvalidDateFormat, BookNotFound, UserNotFound, OutOfStock, ServerError}
    ensures out.response != Created ==> out.after == db
    ensures out.response == MissingFields <==> !req.HasRequiredFields()
    ensures out.response == InvalidDateFormat <==> req.HasRequiredFields() && !DatesParse(parse, req)
    ensures out.response == BookNotFound <==>
      req.HasRequiredFields() && DatesParse(parse, req) && req.bookId.value !in db.books
    ensures out.response == UserNotFound <==>
      req.HasRequiredFields() && DatesParse(parse, req) && req.bookId.value in db.books && req.userId.value !in db.users
    ensures out.response == OutOfStock <==>
      req.HasRequiredFields() && DatesParse(parse, req) && req.bookId.value in db.books && req.userId.value in db.users
      && db.books[req.bookId.value].stock <= 0
    ensures out.response == Created ==>
      && req.HasRequiredFields() && DatesParse(parse, req) && !commitFails
      && req.bookId.value in db.books && req.userId.value in db.users
      && db.books[req.bookId.value].stock > 0
      && db.nextLoanId !in db.loans
      && out.after.loans == db.loans[db.nextLoanId := NewLoan(parse, req)]
      && out.after.books.Keys == db.books.Keys
      && out.after.books[req.bookId.value] == db.books[req.bookId.value].(stock := db.books[req.bookId.value].stock - 1)
      && (forall id :: id in db.books && id != req.bookId.value ==> out.after.books[id] == db.books[id])
      && out.after.users == db.users
      && out.after.nextLoanId == db.nextLoanId + 1
      && out.after.nextBookId == db.nextBookId && out.after.nextUserId == db.nextUserId
    ensures out.response == Created <==>
      req.HasRequiredFields() && DatesParse(parse, req) && req.bookId.value in db.books && req.userId.value in db.users
      && db.books[req.bookId.value].stock > 0 && !commitFails
    ensures StocksNonNegative(db) ==> StocksNonNegative(out.after)
  {
    if !req.HasRequiredFields() then Step(MissingFields, db)
    else if !DatesParse(parse, req) then Step(InvalidDateFormat, db)
    else
      var bookId, userId := req.bookId.value, req.userId.value;
      if bookId !in db.books then Step(BookNotFound, db)
      else if userId !in db.users then Step(UserNotFound, db)
      else if db.books[bookId].stock <= 0 then Step(OutOfStock, db)
      else if commitFails then Step(ServerError, db)
      else
        var book := db.books[bookId];
        Step(Created, db.(
          loans := db.loans[db.nextLoanId := NewLoan(parse, req)],
          nextLoanId := db.nextLoanId + 1,
          books := db.books[bookId := book.(stock := book.stock - 1)]))
  }

  /**
   * PUT /loans/<id>: a truthy return date is parsed and set (closing the loan), a falsy
   * one clears it (reopening the loan). A date that does not parse raises inside the
   * route's try block and is answered like a refused commit, with 500.
   */
  function UpdateLoan(db: Db, parse: string -> Option<DateTime>, loanId: int, returnDate: Option<string>, commitFails: bool): (out: Step)
    requires db.Valid()
    ensures out.after.Valid()
    ensures out.response in {Done, LoanNotFound, ServerError}
    ensures out.response != Done ==> out.after == db
    ensures out.response == LoanNotFound <==> loanId !in db.loans
    ensures out.response == Done <==> loanId in db.loans && ParseOptional(parse, returnDate).Some? && !commitFails
    ensures out.response == Done ==>
      && out.after.loans.Keys == db.loans.Keys
      && out.after.loans[loanId].bookId == db.loans[loanId].bookId
      && out.after.loans[loanId].userId == db.loans[loanId].userId
      && out.after.loans[loanId].loanDate == db.loans[loanId].loanDate
      && (out.after.loans[loanId].IsOpen() <==> !TruthyText(returnDate))
      && (TruthyText(returnDate) ==> parse(returnDate.value) == out.after.loans[loanId].returnDate)
      && (forall id :: id in db.loans && id != loanId ==> out.after.loans[id] == db.loans[id])
    ensures out.after.books == db.books && out.after.users == db.users
    ensures SameCounters(db, out.after)
  {
    if loanId !in db.loans then Step(LoanNotFound, db)
    else
      match ParseOptional(parse, returnDate)
      case None => Step(ServerError, db)
      case Some(date) =>
        if commitFails then Step(ServerError, db)
        else Step(Done, db.(loans := db.loans[loanId := db.loans[loanId].(returnDate := date)]))
  }

  /** DELETE /loans/<id>: removes the loan; the book's stock is not given back. */
  function DeleteLoan(db: Db, loanId: int, commitFails: bool): (out: Step)
    requires db.Valid()
    ensures out.after.Valid()
    ensures out.response in {Done, LoanNotFound, ServerError}
    ensures out.response != Done ==> out.after == db
    ensures out.response == LoanNotFound <==> loanId !in db.loans
    ensures out.response == Done <==> loanId in db.loans && !commitFails
    ensures out.response == Done ==>
      && out.after.loans.Keys == db.loans.Keys - {loanId}
      && (forall id :: id in out.after.loans ==> out.after.loans[id] == db.loans[id])
    ensures out.after.books == db.books && out.after.users == db.users
    ensures SameCounters(db, out.after)
  {
    if loanId !in db.loans then Step(LoanNotFound, db)
    else if commitFails then Step(ServerError, db)
    else Step(Done, db.(loans := db.loans - {loanId}))
  }
}
