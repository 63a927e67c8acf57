/**
 * Sequences of requests against the store: what holds after any series of the modelled
 * routes, not just after one. PUT /books/<id>, which can overwrite a stock, is not one
 * of them.
 */
module Traces {
  import opened Wrappers
  import opened Store

  /** One request to a route that changes the store. */
  datatype Request =
    | RegisterCall(reg: Registration)
    | AddBookCall(book: BookRequest)
    | DeleteBookCall(bookId: int)
    | CreateLoanCall(loan: LoanRequest)
    | UpdateLoanCall(loanId: int, returnDate: Option<string>)
    | DeleteLoanCall(loanId: int)

  /** A request together with the database's verdict on its commit. */
  datatype Call = Call(request: Request, commitFails: bool)

  function Apply(db: Db, parse: string -> Option<DateTime>, call: Call): (out: Step)
    requires db.Valid()
    ensures out.after.Valid()
  {
    match call.request
    case RegisterCall(reg) => Register(db, reg, call.commitFails)
    case AddBookCall(book) => AddBook(db, book, call.commitFails)
    case DeleteBookCall(bookId) => DeleteBook(db, bookId, call.commitFails)
    case CreateLoanCall(loan) => CreateLoan(db, parse, loan, call.commitFails)
    case UpdateLoanCall(loanId, returnDate) => UpdateLoan(db, parse, loanId, returnDate, call.commitFails)
    case DeleteLoanCall(loanId) => DeleteLoan(db, loanId, call.commitFails)
  }

  /**
   * The store after serving the calls one after the other. Registered users are never
   * changed or removed by any route.
   */
  function Run(db: Db, parse: string -> Option<DateTime>, calls: seq<Call>): (after: Db)
    requires db.Valid()
    ensures after.Valid()
    ensures forall id :: id in db.users ==> id in after.users && after.users[id] == db.users[id]
    decreases |calls|
  {
    if calls == [] then db
    else Run(Apply(db, parse, calls[0]).after, parse, calls[1..])
  }

  /** How many of the calls were answered 201 by POST /loans for the given book. */
  function LoansGranted(db: Db, parse: string -> Option<DateTime>, calls: seq<Call>, bookId: int): nat
    requires db.Valid()
    decreases |calls|
  {
    if calls == [] then 0
    else
      var out := Apply(db, parse, calls[0]);
      var here := if calls[0].request.CreateLoanCall? && out.response == Created
                     && calls[0].request.loan.bookId == Some(bookId) then 1 else 0;
      here + LoansGranted(out.after, parse, calls[1..], bookId)
  }

  predicate AddsOnlyNonNegativeStock(calls: seq<Call>)
  {
    forall i :: 0 <= i < |calls| && calls[i].request.AddBookCall? ==> calls[i].request.book.stock >= 0
  }

  predicate NeverDeletesBook(calls: seq<Call>, bookId: int)
  {
    forall i :: 0 <= i < |calls| ==> calls[i].request != DeleteBookCall(bookId)
  }

  /**
   * No stock goes negative, whatever the modelled requests and whatever the database
   * does with the commits, as long as the books added to the catalogue come with a non-negative
   * stock (POST /books takes the stock as given).
   */
  lemma {:induction false} StockStaysNonNegative(db: Db, parse: string -> Option<DateTime>, calls: seq<Call>)
    requires db.Valid() && StocksNonNegative(db)
    requires AddsOnlyNonNegativeStock(calls)
    ensures StocksNonNegative(Run(db, parse, calls))
    decreases |calls|
  {
    if calls != [] {
      var out := Apply(db, parse, calls[0]);
      assert StocksNonNegative(out.after);
      assert AddsOnlyNonNegativeStock(calls[1..]) by {
        forall i | 0 <= i < |calls[1..]| && calls[1..][i].request.AddBookCall?
          ensures calls[1..][i].request.book.stock >= 0
        {
          assert calls[1..][i] == calls[i + 1];
        }
      }
      StockStaysNonNegative(out.after, parse, calls[1..]);
    }
  }

  /**
   * Stock accounting for one book that is never deleted: its final stock plus the loans
   * granted on it equals its initial stock, its other fields never change, and when it
   * starts with a non-negative stock no more loans are granted than it had copies.
   * Returning or deleting a loan never gives a copy back.
   */
  lemma {:induction false} StockConservation(db: Db, parse: string -> Option<DateTime>, calls: seq<Call>, bookId: int)
    requires db.Valid() && bookId in db.books
    requires NeverDeletesBook(calls, bookId)
    ensures bookId in Run(db, parse, calls).books
    ensures Run(db, parse, calls).books[bookId].stock + LoansGranted(db, parse, calls, bookId) == db.books[bookId].stock
    ensures Run(db, parse, calls).books[bookId].title == db.books[bookId].title
    ensures Run(db, parse, calls).books[bookId].isbn == db.books[bookId].isbn
    ensures db.books[bookId].stock >= 0 ==> LoansGranted(db, parse, calls, bookId) <= db.books[bookId].stock
    decreases |calls|
  {
    if calls != [] {
      var out := Apply(db, parse, calls[0]);
      var book := db.books[bookId];
      assert calls[0].request != DeleteBookCall(bookId);
      assert bookId in out.after.books;
      assert out.after.books[bookId].title == book.title && out.after.books[bookId].isbn == book.isbn;
      if calls[0].request.CreateLoanCall? && out.response == Created && calls[0].request.loan.bookId == Some(bookId) {
        assert out.after.books[bookId].stock == book.stock - 1 && book.stock > 0;
      } else {
        assert out.after.books[bookId].stock == book.stock;
      }
      assert NeverDeletesBook(calls[1..], bookId) by {
        forall i | 0 <= i < |calls[1..]| ensures calls[1..][i].request != DeleteBookCall(bookId) {
          assert calls[1..][i] == calls[i + 1];
        }
      }
      StockConservation(out.after, parse, calls[1..], bookId);
    }
  }

  // ---------------------------------------------------------------- scenarios

  /** A store with one book (id 1, one copy) and one user (id 1). */
  function OneCopyStore(): (db: Db)
    ensures db.Valid()
  {
    Db(map[1 := Book("Rayuela", "978-84-376-0494-7", 1)], map[1 := User("ana", "ana@example.org")], map[], 2, 2, 1)
  }

  /**
   * With a single copy, the first loan request succeeds and takes the stock to 0; the
   * second, for the same book, is refused for lack of stock and changes nothing.
   */
  lemma LastCopyScenario(parse: string -> Option<DateTime>, loanDate: string)
    requires loanDate != "" && parse(loanDate).Some?
    ensures
      var req := LoanRequest(Some(1), Some(1), Some(loanDate), None);
      var first := CreateLoan(OneCopyStore(), parse, req, false);
      var second := CreateLoan(first.after, parse, req, false);
      && first.response == Created && first.after.books[1].stock == 0
      && second.response == OutOfStock && second.after == first.after
  {
  }

  /**
   * Setting a return date and then clearing it reopens the loan and restores it exactly;
   * neither call touches a stock.
   */
  lemma CloseThenReopen(db: Db, parse: string -> Option<DateTime>, loanId: int, date: string)
    requires db.Valid() && loanId in db.loans && db.loans[loanId].IsOpen()
    requires date != "" && parse(date).Some?
    ensures
      var closed := UpdateLoan(db, parse, loanId, Some(date), false);
      var reopened := UpdateLoan(closed.after, parse, loanId, None, false);
      && closed.response == Done && !closed.after.loans[loanId].IsOpen()
      && reopened.response == Done && reopened.after == db
  {
  }

  /**
   * A loan granted and then deleted leaves the loans as they were but the book one copy
   * short: deleting a loan never returns its copy.
   */
  lemma DeletedLoanKeepsCopy(db: Db, parse: string -> Option<DateTime>, req: LoanRequest)
    requires db.Valid()
    requires CreateLoan(db, parse, req, false).response == Created
    ensures
      var created := CreateLoan(db, parse, req, false);
      var deleted := DeleteLoan(created.after, db.nextLoanId, false);
      && deleted.response == Done
      && deleted.after.loans == db.loans
      && deleted.after.books[req.bookId.value].stock == db.books[req.bookId.value].stock - 1
  {
  }
}
