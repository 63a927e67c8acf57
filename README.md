# Library loans and password policy, modelled in Dafny

This project models the core of a small library-management service: the routes in
`routes.py` that register users, add and delete books, and create, read, update and
delete loans, and the password policy of `utils.py`.

The service keeps three tables: books, each with a `stock` counter; users; and loans
that point to a book and a user and carry an optional return date. A loan is *open*
while its return date is absent and *closed* once it is set. POST /loans checks its
guards in a fixed order. Once they pass, it inserts the loan and takes one copy off the
book's stock, both or neither. PUT /loans/<id> sets or clears the return date.
DELETE /loans/<id> removes the loan. Neither of these two gives the copy back.

Files:

- `wrappers.dfy`: `Option`.
- `passwords.dfy` (module `Passwords`): `validate_password`. The regular-expression
  searches are recursive scans. Each scan is proved equal to an "exists a position"
  predicate, and the policy is proved to hold exactly when its four conditions hold.
- `store.dfy` (module `Store`): the tables as a value `Db` with one id counter per table.
  Each route is a pure function from the store before a request to the response and the
  store after it. Its contract states the guard order, that nothing changes on failure,
  what the one write on success is, the frame on every other record, and that stocks
  stay non-negative.
- `service.dfy` (module `Service`): class `Library`. It owns the tables as fields and runs
  each route step by step: guards, writes, commit, and the rollback that restores the
  saved tables. Each method that changes the store is proved to end in exactly the
  response and store that the matching `Store` function gives; `GetLoan` only reads
  the loans and states its answer directly.
- `traces.dfy` (module `Traces`): sequences of the modelled requests (PUT /books/<id>
  is not among them). No stock ever becomes negative.
  For a book that is never deleted, stock plus loans granted is constant. The worked scenarios are the last
  copy, close-then-reopen, and delete-does-not-restock.

Things the routes call but that are not modelled become inputs. `parse` stands for
`datetime.fromisoformat` and gives `None` where that raises `ValueError`. It is a constant
of `Library` and a parameter of the `Store` functions. `commitFails` says whether the
database refuses the commit. Every route then ends with the store as it was.

Three behaviours of the code that a stricter design would not have, and that the model
keeps:

- A return date that does not parse in PUT /loans/<id> is answered 500, not 400. The
  parse happens inside the route's generic `try`.
- POST /books does not check the sign of the stock it is given. So "stock is never
  negative" holds only when the books added have a non-negative stock
  (`Traces.StockStaysNonNegative`).
- A missing password in POST /register makes the length check raise outside any `try`.
  The answer is 500.

## Model

| member | source | states |
|---|---|---|
| `Passwords.SearchRange` | utils.py:8-12 | the scan finds a character in the range [lo-hi] exactly when some position of the string holds one |
| `Passwords.SearchSet` | utils.py:14-15 | the scan finds a character of the class exactly when some position holds one |
| `Passwords.ValidatePassword` | utils.py:3-16 | accepted if and only if the length is 8 to 15 and there is an ASCII lower-case letter, an ASCII upper-case letter and one of ¡"#$%&/()!@ |
| `Passwords.TooShortRejected` | utils.py:5-6 | fewer than 8 characters is rejected |
| `Passwords.TooLongRejected` | utils.py:5-6 | more than 15 characters is rejected |
| `Passwords.NoLowerRejected` | utils.py:8-9 | no character in a-z is rejected |
| `Passwords.NoUpperRejected` | utils.py:11-12 | no character in A-Z is rejected |
| `Passwords.NoSpecialRejected` | utils.py:14-15 | no character from the special set is rejected |
| `Passwords.AcceptedWithWitnesses` | utils.py:3-16 | a length in range plus one witness position per class is enough for acceptance |
| `Passwords.DigitsNotRequired` | utils.py:3-16 | an example: the digit-free password "Abcdefg!" is accepted (the general fact is the iff of `ValidatePassword`) |
| `Passwords.NonAsciiLettersDoNotCount` | utils.py:11-12 | accented capitals do not meet the upper-case rule |
| `Store.ParseOptional` | routes.py:122 | a falsy return date means no date; a truthy one succeeds exactly when it parses, and then gives exactly the parsed date |
| `Store.NewLoan` | routes.py:138 | the inserted loan carries the requested book, user and parsed loan date, and is open iff no truthy return date was sent |
| `Store.Register` | routes.py:15-35 | absent password gives 500; 400 exactly when the password is present and outside the policy; 409 exactly when it meets the policy and the username or email is taken; each leaves the store unchanged; otherwise exactly one user is added under a fresh id |
| `Store.AddBook` | routes.py:51-63 | a taken ISBN gives 409 before a taken title gives 409; nothing is inserted on failure; on success one book is added under a fresh id and loans and users are untouched |
| `Store.DeleteBook` | routes.py:94-107 | unknown id gives 404 and no change; otherwise the book alone is removed, loans that refer to it are left as they are |
| `Store.CreateLoan` | routes.py:109-147 | missing fields (0 and "" count as missing), bad date, unknown book, unknown user, stock at most 0: the first failing guard answers and nothing changes; 201 exactly when every guard passes and the commit is accepted, with one loan under a fresh id and exactly that book's stock minus 1, every other book, loan and user unchanged; stocks stay non-negative; a refused commit changes nothing |
| `Store.UpdateLoan` | routes.py:173-193 | unknown id gives 404; a truthy date is parsed and closes the loan, a falsy one reopens it; an unparseable date gives 500 and no change; books, users and other loans never change |
| `Store.DeleteLoan` | routes.py:195-208 | unknown id gives 404 and no change; otherwise only that loan is removed and no stock is restored |
| `Service.Library.constructor` | app.py:4-6 | a fresh store holds no books, users or loans |
| `Service.Library.Register` | routes.py:15-35 | the response and new tables are those of `Store.Register`; books and loans unchanged |
| `Service.Library.AddBook` | routes.py:51-63 | the response and new tables are those of `Store.AddBook` |
| `Service.Library.DeleteBook` | routes.py:94-107 | the response and new tables, after rollback on a refused commit, are those of `Store.DeleteBook` |
| `Service.Library.CreateLoan` | routes.py:109-147 | the insert, the decrement and their joint rollback end in the response and tables of `Store.CreateLoan` |
| `Service.Library.GetLoan` | routes.py:160-171 | the loan is returned under its id exactly when it exists, else 404 |
| `Service.Library.UpdateLoan` | routes.py:173-193 | the response and new tables are those of `Store.UpdateLoan`; books and users unchanged |
| `Service.Library.DeleteLoan` | routes.py:195-208 | the response and new tables are those of `Store.DeleteLoan`; books and users unchanged |
| `Traces.Run` | routes.py:15-208 | after any series of requests the store is still well formed and every registered user is still there, unchanged |
| `Traces.StockStaysNonNegative` | routes.py:134-141 | if every stock starts non-negative and books are added with non-negative stock, no stock is ever negative |
| `Traces.StockConservation` | routes.py:134-141 | for a book never deleted, final stock plus loans granted on it equals initial stock, and no more loans are granted than it had copies |
| `Traces.LastCopyScenario` | routes.py:134-147 | with one copy, the first loan succeeds and leaves stock 0, and the second is refused as out of stock without change |
| `Traces.CloseThenReopen` | routes.py:182-188 | setting and then clearing the return date closes and then reopens the loan and gives back the original store |
| `Traces.DeletedLoanKeepsCopy` | routes.py:195-208 | granting a loan and deleting it restores the loans but leaves the book one copy short |

## Left out

- HTTP plumbing (routing, `request.get_json`, `jsonify`, message texts). A response is
  a `Store.Response` value, and `Response.Status` gives its HTTP code.
- `login`, bcrypt hashing (`set_password`, `check_password`) and JWT creation are foreign
  library calls. The user record keeps no password hash.
- `get_book` and the listing routes `get_books`, `get_loans` and `get_users` only read
  and are not modelled.
- `update_book` is not modelled. Its loop sets whatever attributes the request names,
  so PUT /books/<id> can overwrite a book's stock (with a negative value too), its
  title and its ISBN. The properties of `Traces` hold for request sequences that
  contain no PUT /books/<id>; with one, the stock can become negative and the stock
  accounting of a book no longer balances.
- A client-supplied book id is not modelled. `Book(**data)` would also store an `id`
  key of the request body, placing the book under that id (a taken id making the
  commit raise, answered 500, and an id of 0 or below giving a store outside
  `Db.Valid`). Here book ids are always handed out by the counter.
- `datetime.fromisoformat` and `isoformat` are not modelled. Parsing is the `parse`
  input, and a `DateTime` is a plain record.
- models.py is not part of this model. Column constraints, foreign keys and
  relationship cascades are unknown. A database that refuses a book deletion or an
  insert is a refused commit, and the only integrity error POST /register is modelled
  to meet is a taken username or email.
- Equality of ISBN, title, username and email is modelled as exact equality of
  character sequences. In the service these comparisons happen in the database (the
  duplicate queries of POST /books and the unique constraints behind the 409 of POST
  /register), so a collation that ignores case or accents would also treat "Ana" and
  "ana" as taken; the database configuration is not part of this model.
- A book keeps only its title, ISBN and stock. The other columns POST /books stores
  from the request (the author, for one) are not represented; no route here reads them.
- Store.DeleteBook: leaves the loans that refer to the deleted book as they are. If
  models.py declared a relationship from books to loans without a delete cascade,
  SQLAlchemy would instead set those loans' book id to NULL; that is not modelled.
- JSON fields of an unexpected type are not modelled. Examples are a string `book_id`,
  a numeric date (which raises `TypeError`) and unknown keys in POST /books. The
  fields of POST /loans and the password of POST /register may be absent; an absent
  username or email in POST /register, and an absent title, ISBN or stock in POST
  /books (all read with `data.get`, which gives None), are not modelled: those
  fields are always present strings or integers.
- Id allocation is a counter per table that a rollback restores and that never goes
  back. Whether the real database reuses an id after a failed insert is not modelled,
  nor is a database that allocates one more than the largest id in use (SQLite's
  default rowid), which hands out the id of the newest deleted row again.
- Concurrent requests and row locking are not modelled. The source takes no locks, and
  every request here runs to completion before the next one starts.
