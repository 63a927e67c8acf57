/**
 * The routes of routes.py as methods of one object that owns the store and changes it
 * in place, the way the route handlers change rows through the database session.
 * Each method that changes the store runs the handler's steps in order (guards, writes,
 * commit, rollback on a refused commit) and is proved to end in exactly the response and
 * store that the corresponding function of module Store describes; GetLoan only reads
 * the loans and states its answer directly.
 */
module Service {
  import opened Wrappers
  import opened Store
  import Passwords

  class Library {
    /** datetime.fromisoformat, as far as the routes use it. */
    const parse: string -> Option<DateTime>

    var books: map<int, Book>
    var users: map<int, User>
    var loans: map<int, Loan>
    var nextBookId: int
    var nextUserId: int
    var nextLoanId: int

    /** The store as a value. */
    function State(): Db
      reads this
    {
      Db(books, users, loans, nextBookId, nextUserId, nextLoanId)
    }

    ghost predicate Valid()
      reads this
    {
      State().Valid()
    }

    /** A fresh, empty database. */
    constructor (parse: string -> Option<DateTime>)
      ensures Valid() && State() == EmptyDb && this.parse == parse
    {
      this.parse := parse;
      books, users, loans := map[], map[], map[];
      nextBookId, nextUserId, nextLoanId := 1, 1, 1;
    }

    /** POST /register */
    method Register(reg: Registration, commitFails: bool) returns (r: Response)
      requires Valid()
      modifies this
      ensures Valid()
      ensures Step(r, State()) == Store.Register(old(State()), reg, commitFails)
      ensures books == old(books) && loans == old(loans)
    {
      if reg.password.None? {
        // len(None) raises and the route does not catch it
        return ServerError;
      }
      if !Passwords.ValidatePassword(reg.password.value) {
        return WeakPassword;
      }
      var savedUsers, savedNext := users, nextUserId;
      users := users[nextUserId := User(reg.username, reg.email)];
      nextUserId := nextUserId + 1;
      var clash := exists id | id in savedUsers :: savedUsers[id].username == reg.username || savedUsers[id].email == reg.email;
      if clash || commitFails {
        users, nextUserId := savedUsers, savedNext;
        r := if clash then DuplicateUser else ServerError;
        return;
      }
      r := Created;
    }

    /** POST /books */
    method AddBook(req: BookRequest, commitFails: bool) returns (r: Response)
      requires Valid()
      modifies this
      ensures Valid()
      ensures Step(r, State()) == Store.AddBook(old(State()), req, commitFails)
      ensures users == old(users) && loans == old(loans)
    {
      if exists id | id in books :: books[id].isbn == req.isbn {
        return DuplicateIsbn;
      }
      if exists id | id in books :: books[id].title == req.title {
        return DuplicateTitle;
      }
      if commitFails {
        // the commit is outside any try block: the request fails and nothing is stored
        return ServerError;
      }
      books := books[nextBookId := Book(req.title, req.isbn, req.stock)];
      nextBookId := nextBookId + 1;
      r := Created;
    }

    /** DELETE /books/<id> */
    method DeleteBook(bookId: int, commitFails: bool) returns (r: Response)
      requires Valid()
      modifies this
      ensures Valid()
      ensures Step(r, State()) == Store.DeleteBook(old(State()), bookId, commitFails)
      ensures users == old(users) && loans == old(loans)
    {
      if bookId !in books {
        return BookNotFound;
      }
      var saved := books;
      books := books - {bookId};
      if commitFails {
        books := saved;
        return ServerError;
      }
      r := Done;
    }

    /** POST /loans */
    method CreateLoan(req: LoanRequest, commitFails: bool) returns (r: Response)
      requires Valid()
      modifies this
      ensures Valid()
      ensures Step(r, State()) == Store.CreateLoan(old(State()), parse, req, commitFails)
      ensures users == old(users)
    {
      if req.bookId.None? || req.bookId.value == 0
        || req.userId.None? || req.userId.value == 0
        || req.loanDate.None? || req.loanDate.value == "" {
        return MissingFields;
      }
      var loanDate := parse(req.loanDate.value);
      if loanDate.None? {
        return InvalidDateFormat;
      }
      var returnDate: Option<DateTime> := None;
      if req.returnDate.Some? && req.returnDate.value != "" {
        returnDate := parse(req.returnDate.value);
        if returnDate.None? {
          return InvalidDateFormat;
        }
      }
      var bookId, userId := req.bookId.value, req.userId.value;
      if bookId !in books {
        return BookNotFound;
      }
      if userId !in users {
        return UserNotFound;
      }
      if books[bookId].stock <= 0 {
        return OutOfStock;
      }
      var savedBooks, savedLoans, savedNext := books, loans, nextLoanId;
      loans := loans[nextLoanId := Loan(bookId, userId, loanDate.value, returnDate)];
      nextLoanId := nextLoanId + 1;
      books := books[bookId := books[bookId].(stock := books[bookId].stock - 1)];
      if commitFails {
        books, loans, nextLoanId := savedBooks, savedLoans, savedNext;
        return ServerError;
      }
      r := Created;
    }

    /** GET /loans/<id>: reads the store and changes nothing. */
    method GetLoan(loanId: int) returns (r: Response)
      ensures r.LoanFound? <==> loanId in loans
      ensures r.LoanFound? ==> r.id == loanId && r.loan == loans[loanId]
      ensures !r.LoanFound? ==> r == LoanNotFound
    {
      if loanId !in loans {
        return LoanNotFound;
      }
      r := LoanFound(loanId, loans[loanId]);
    }

    /** PUT /loans/<id> */
    method UpdateLoan(loanId: int, returnDate: Option<string>, commitFails: bool) returns (r: Response)
      requires Valid()
      modifies this
      ensures Valid()
      ensures Step(r, State()) == Store.UpdateLoan(old(State()), parse, loanId, returnDate, commitFails)
      ensures books == old(books) && users == old(users)
    {
      if loanId !in loans {
        return LoanNotFound;
      }
      var saved := loans;
      var date: Option<DateTime> := None;
      if returnDate.Some? && returnDate.value != "" {
        var parsed := parse(returnDate.value);
        if parsed.None? {
          // the ValueError is caught by the route's generic handler
          return ServerError;
        }
        date := parsed;
      }
      loans := loans[loanId := loans[loanId].(returnDate := date)];
      if commitFails {
        loans := saved;
        return ServerError;
      }
      r := Done;
    }

    /** DELETE /loans/<id> */
    method DeleteLoan(loanId: int, commitFails: bool) returns (r: Response)
      requires Valid()
      modifies this
      ensures Valid()
      ensures Step(r, State()) == Store.DeleteLoan(old(State()), loanId, commitFails)
      ensures books == old(books) && users == old(users)
    {
      if loanId !in loans {
        return LoanNotFound;
      }
      var saved := loans;
      loans := loans - {loanId};
      if commitFails {
        loans := saved;
        return ServerError;
      }
      r := Done;
    }
  }
}
