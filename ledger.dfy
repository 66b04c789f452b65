/**
 * The lending ledger as values: the two tables the checkout views read and
 * write, and one step function per view saying what the view answers and
 * what the tables hold afterwards.
 */
module Ledger {
  import opened Wrappers
  import opened Models

  /** The error responses of the ledger views. */
  datatype Error =
    | BookNotFound         // no book with that id
    | NoCopiesAvailable    // copy count below one
    | AlreadyCheckedOut    // REST checkout: some row, open or closed, exists for the pair
    | AlreadyBorrowed      // HTML borrow: an open row exists for the pair
    | IntegrityError       // HTML borrow: the insert broke the (user, book) uniqueness
    | NotCheckedOut        // no (open) row for the pair
    | MailNotSent          // the overdue notice could not be delivered
    | TransactionNotFound  // no row with that id

  /** The overdue notice: recipient, book title, days late and penalty. */
  datatype Mail = Mail(to: string, title: string, days: int, penalty: int)

  /** The book table (id to record) and the transaction table (row id = index). */
  datatype Tables = Tables(books: map<BookId, Book>, rows: seq<Transaction>)

  /** What a view answers, the tables after it, and the notice it sent, if any. */
  datatype Step<+T> = Step(result: Result<T, Error>, after: Tables, mail: Option<Mail>)

  /** Row `row` belongs to user `u` and book `b` (and is still open, when asked). */
  predicate Matches(row: Transaction, u: UserId, b: BookId, openOnly: bool)
  {
    row.user == u && row.book == b && (openOnly ==> row.returnDate.None?)
  }

  /** Row `i` is the first open row of the pair: the one the return views pick. */
  predicate FirstOpen(rows: seq<Transaction>, u: UserId, b: BookId, i: int)
  {
    0 <= i < |rows| && Matches(rows[i], u, b, true) && forall j | 0 <= j < i :: !Matches(rows[j], u, b, true)
  }

  /**
   * `filter(...).first()`: the lowest row id at or after `from` matching the
   * pair, or None when there is none.
   */
  function FirstMatch(rows: seq<Transaction>, u: UserId, b: BookId, openOnly: bool, from: nat): (r: Option<nat>)
    requires from <= |rows|
    ensures r.Some? ==> from <= r.value < |rows| && Matches(rows[r.value], u, b, openOnly)
    ensures r.Some? ==> forall j | from <= j < r.value :: !Matches(rows[j], u, b, openOnly)
    ensures r.None? <==> forall j | from <= j < |rows| :: !Matches(rows[j], u, b, openOnly)
    decreases |rows| - from
  {
    if from == |rows| then None
    else if Matches(rows[from], u, b, openOnly) then Some(from)
    else FirstMatch(rows, u, b, openOnly, from + 1)
  }

  /** The database constraint: at most one row per (user, book), returned or not. */
  ghost predicate UniquePairs(rows: seq<Transaction>)
  {
    forall i, j | 0 <= i < j < |rows| :: rows[i].user != rows[j].user || rows[i].book != rows[j].book
  }

  /** Every book has a non-negative copy count. */
  ghost predicate NonNegative(books: map<BookId, Book>)
  {
    forall b | b in books :: books[b].copies >= 0
  }

  /** 1 when `row` is an open loan of book `b`, else 0. */
  function OpenLoan(row: Transaction, b: BookId): nat
  {
    if row.book == b && row.returnDate.None? then 1 else 0
  }

  /** Number of open loans of book `b`. */
  function OpenLoans(rows: seq<Transaction>, b: BookId): nat
  {
    if rows == [] then 0 else OpenLoans(rows[..|rows| - 1], b) + OpenLoan(rows[|rows| - 1], b)
  }

  /** Copies on the shelf plus copies lent out: what checkout and return keep fixed. */
  ghost function Holdings(t: Tables, b: BookId): int
    requires b in t.books
  {
    t.books[b].copies + OpenLoans(t.rows, b)
  }

  /** Book `b` with its copy count moved by `delta`; every other book untouched. */
  function Adjust(books: map<BookId, Book>, b: BookId, delta: int): map<BookId, Book>
    requires b in books
  {
    books[b := books[b].(copies := books[b].copies + delta)]
  }

  /** Row `row` as a return on `today` leaves it: dated, and charged when overdue. */
  function Closed(row: Transaction, today: Day): Transaction
  {
    if today > row.dueDate then row.(returnDate := Some(today), penalty := Penalty(today - row.dueDate))
    else row.(returnDate := Some(today))
  }

  /**
   * REST checkout (`BookCheckoutView.create`): three guards, then one copy
   * fewer and one new row.
   */
  function CheckoutStep(t: Tables, u: UserId, b: BookId, today: Day, defaultDue: Day): (r: Step<nat>)
    ensures r.mail == None
    ensures r.result == Failure(BookNotFound) <==> b !in t.books
    ensures r.result == Failure(NoCopiesAvailable) <==> b in t.books && t.books[b].copies < 1
    ensures r.result == Failure(AlreadyCheckedOut) <==>
      b in t.books && t.books[b].copies >= 1 && exists i | 0 <= i < |t.rows| :: Matches(t.rows[i], u, b, false)
    ensures r.result.Failure? ==> r.after == t
    ensures r.result.Success? <==>
      b in t.books && t.books[b].copies >= 1 && forall i | 0 <= i < |t.rows| :: !Matches(t.rows[i], u, b, false)
    ensures r.result.Success? ==>
      && b in t.books
      && r.result.value == |t.rows|
      && r.after.books == Adjust(t.books, b, -1)
      && |r.after.rows| == |t.rows| + 1
      && r.after.rows[..|t.rows|] == t.rows
      && r.after.rows[|t.rows|] == NewTransaction(u, b, today, defaultDue)
    ensures NonNegative(t.books) ==> NonNegative(r.after.books)
    ensures UniquePairs(t.rows) ==> UniquePairs(r.after.rows)
  {
    if b !in t.books then Step(Failure(BookNotFound), t, None)
    else if t.books[b].copies < 1 then Step(Failure(NoCopiesAvailable), t, None)
    else if FirstMatch(t.rows, u, b, false, 0).Some? then Step(Failure(AlreadyCheckedOut), t, None)
    else
      var rows := t.rows + [NewTransaction(u, b, today, defaultDue)];
      assert rows[..|t.rows|] == t.rows;
      Step(Success(|t.rows|), Tables(Adjust(t.books, b, -1), rows), None)
  }

  /**
   * HTML `borrow_book`: only an OPEN row blocks, and the copy is taken
   * before the insert, so an insert the uniqueness constraint rejects keeps
   * the decrement.
   */
  function BorrowStep(t: Tables, u: UserId, b: BookId, today: Day, defaultDue: Day): (r: Step<nat>)
    ensures r.mail == None
    ensures r.result == Failure(BookNotFound) <==> b !in t.books
    ensures r.result == Failure(NoCopiesAvailable) <==> b in t.books && t.books[b].copies < 1
    ensures r.result == Failure(AlreadyBorrowed) <==>
      b in t.books && t.books[b].copies >= 1 && exists i | 0 <= i < |t.rows| :: Matches(t.rows[i], u, b, true)
    ensures r.result == Failure(IntegrityError) <==>
      && b in t.books && t.books[b].copies >= 1
      && (forall i | 0 <= i < |t.rows| :: !Matches(t.rows[i], u, b, true))
      && exists i | 0 <= i < |t.rows| :: Matches(t.rows[i], u, b, false)
    ensures r.result == Failure(IntegrityError) ==> r.after == Tables(Adjust(t.books, b, -1), t.rows)
    ensures r.result.Failure? && r.result != Failure(IntegrityError) ==> r.after == t
    ensures r.result.Success? <==>
      b in t.books && t.books[b].copies >= 1 && forall i | 0 <= i < |t.rows| :: !Matches(t.rows[i], u, b, false)
    ensures r.result.Success? ==>
      && b in t.books
      && r.result.value == |t.rows|
      && r.after.books == Adjust(t.books, b, -1)
      && |r.after.rows| == |t.rows| + 1
      && r.after.rows[..|t.rows|] == t.rows
      && r.after.rows[|t.rows|] == NewTransaction(u, b, today, defaultDue)
    ensures NonNegative(t.books) ==> NonNegative(r.after.books)
    ensures UniquePairs(t.rows) ==> UniquePairs(r.after.rows)
  {
    if b !in t.books then Step(Failure(BookNotFound), t, None)
    else if t.books[b].copies < 1 then Step(Failure(NoCopiesAvailable), t, None)
    else if FirstMatch(t.rows, u, b, true, 0).Some? then Step(Failure(AlreadyBorrowed), t, None)
    else
      var books := Adjust(t.books, b, -1);
      if FirstMatch(t.rows, u, b, false, 0).Some? then Step(Failure(IntegrityError), Tables(books, t.rows), None)
      else
        var rows := t.rows + [NewTransaction(u, b, today, defaultDue)];
        assert rows[..|t.rows|] == t.rows;
        Step(Success(|t.rows|), Tables(books, rows), None)
  }

  /**
   * Return (REST `return_book`, HTML `return_book`): close the first open
   * row of the pair, charge and notify when overdue, put the copy back.
   * The notice goes out before anything is saved, so an undelivered
   * notice aborts the return.
   */
  function ReturnStep(t: Tables, user: User, b: BookId, today: Day, delivered: bool): (r: Step<nat>)
    ensures r.result == Failure(BookNotFound) <==> b !in t.books
    ensures r.result == Failure(NotCheckedOut) <==>
      b in t.books && forall i | 0 <= i < |t.rows| :: !Matches(t.rows[i], user.id, b, true)
    ensures r.result == Failure(MailNotSent) <==>
      b in t.books && !delivered && exists i | FirstOpen(t.rows, user.id, b, i) :: today > t.rows[i].dueDate
    ensures r.result.Success? <==>
      b in t.books && exists i | FirstOpen(t.rows, user.id, b, i) :: today <= t.rows[i].dueDate || delivered
    ensures r.result.Success? || r.result in {Failure(BookNotFound), Failure(NotCheckedOut), Failure(MailNotSent)}
    ensures r.result.Failure? ==> r.after == t && r.mail == None
    ensures r.result.Success? ==>
      var i := r.result.value;
      && b in t.books
      && FirstOpen(t.rows, user.id, b, i)
      && r.after.books == Adjust(t.books, b, 1)
      && |r.after.rows| == |t.rows|
      && (forall j | 0 <= j < |t.rows| && j != i :: r.after.rows[j] == t.rows[j])
      && r.after.rows[i].returnDate == Some(today)
      && r.after.rows[i] == t.rows[i].(returnDate := Some(today), penalty := r.after.rows[i].penalty)
      && (today > t.rows[i].dueDate ==>
            && r.after.rows[i].penalty == Penalty(today - t.rows[i].dueDate)
            && r.mail == Some(Mail(user.email, t.books[b].title, today - t.rows[i].dueDate, r.after.rows[i].penalty)))
      && (today <= t.rows[i].dueDate ==> r.after.rows[i].penalty == t.rows[i].penalty && r.mail == None)
    ensures NonNegative(t.books) ==> NonNegative(r.after.books)
    ensures UniquePairs(t.rows) ==> UniquePairs(r.after.rows)
  {
    if b !in t.books then Step(Failure(BookNotFound), t, None)
    else match FirstMatch(t.rows, user.id, b, true, 0)
      case None => Step(Failure(NotCheckedOut), t, None)
      case Some(i) =>
        var row := t.rows[i];
        if today > row.dueDate && !delivered then Step(Failure(MailNotSent), t, None)
        else
          var closed := Closed(row, today);
          var mail := if today > row.dueDate
                      then Some(Mail(user.email, t.books[b].title, today - row.dueDate, closed.penalty))
                      else None;
          Step(Success(i), Tables(Adjust(t.books, b, 1), t.rows[i := closed]), mail)
  }

  /**
   * `is_returned` and `check_book_status`: the first row of the pair,
   * reported as returned exactly when it carries a return date.
   */
  function Status(t: Tables, u: UserId, b: BookId): (r: Result<bool, Error>)
    ensures r == Failure(BookNotFound) <==> b !in t.books
    ensures r == Failure(NotCheckedOut) <==>
      b in t.books && forall i | 0 <= i < |t.rows| :: !Matches(t.rows[i], u, b, false)
    ensures UniquePairs(t.rows) ==>
      (r == Success(true) <==>
        b in t.books && exists i | 0 <= i < |t.rows| :: Matches(t.rows[i], u, b, false) && t.rows[i].returnDate.Some?)
    ensures UniquePairs(t.rows) ==>
      (r == Success(false) <==>
        b in t.books && exists i | 0 <= i < |t.rows| :: Matches(t.rows[i], u, b, true))
  {
    if b !in t.books then Failure(BookNotFound)
    else match FirstMatch(t.rows, u, b, false, 0)
      case None => Failure(NotCheckedOut)
      case Some(i) => Success(t.rows[i].returnDate.Some?)
  }

  /**
   * `borrowing_return`: stamp today's date on row `id`, whoever owns it and
   * whether or not it was already returned; the copy count is not touched.
   */
  function CloseStep(t: Tables, id: int, today: Day): (r: Step<nat>)
    ensures r.mail == None
    ensures r.result.Failure? <==> !(0 <= id < |t.rows|)
    ensures r.result.Failure? ==> r.result.error == TransactionNotFound && r.after == t
    ensures r.result.Success? ==>
      && r.result.value == id
      && r.after.books == t.books
      && |r.after.rows| == |t.rows|
      && (forall j | 0 <= j < |t.rows| && j != id :: r.after.rows[j] == t.rows[j])
      && r.after.rows[id] == t.rows[id].(returnDate := Some(today))
    ensures UniquePairs(t.rows) ==> UniquePairs(r.after.rows)
  {
    if !(0 <= id < |t.rows|) then Step(Failure(TransactionNotFound), t, None)
    else Step(Success(id), Tables(t.books, t.rows[id := t.rows[id].(returnDate := Some(today))]), None)
  }

  /**
   * `borrowing_penalty`: charge row `id` for the days from its due date to
   * today, returned or not; before the due date the charge is negative.
   */
  function PenaltyStep(t: Tables, id: int, today: Day): (r: Step<nat>)
    ensures r.mail == None
    ensures r.result.Failure? <==> !(0 <= id < |t.rows|)
    ensures r.result.Failure? ==> r.result.error == TransactionNotFound && r.after == t
    ensures r.result.Success? ==>
      && r.result.value == id
      && r.after.books == t.books
      && |r.after.rows| == |t.rows|
      && (forall j | 0 <= j < |t.rows| && j != id :: r.after.rows[j] == t.rows[j])
      && r.after.rows[id] == t.rows[id].(penalty := r.after.rows[id].penalty)
      && r.after.rows[id].penalty == Penalty(today - t.rows[id].dueDate)
      && (r.after.rows[id].penalty < 0 <==> today < t.rows[id].dueDate)
      && (r.after.rows[id].penalty == 0 <==> today == t.rows[id].dueDate)
    ensures UniquePairs(t.rows) ==> UniquePairs(r.after.rows)
  {
    if !(0 <= id < |t.rows|) then Step(Failure(TransactionNotFound), t, None)
    else Step(Success(id), Tables(t.books, t.rows[id := t.rows[id].(penalty := Penalty(today - t.rows[id].dueDate))]), None)
  }
}
