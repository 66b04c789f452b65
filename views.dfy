/**
 * The checkout views as they run: a library object holding the book and
 * transaction tables, whose methods look up, test and then update fields
 * in place, in the order the views do. Each method is tied to the step
 * function in `Ledger` that says what it answers and leaves behind.
 */
module Views {
  import opened Wrappers
  import opened Models
  import opened Ledger

  class Library {
    /** Book table: id to record. */
    var books: map<BookId, Book>
    /** Transaction table; a row's id is its index. */
    var rows: seq<Transaction>
    /** Due date given to every new row, fixed when the models module was loaded. */
    const defaultDue: Day
    /** Overdue notices delivered so far. */
    ghost var mails: seq<Mail>

    /** The uniqueness constraint on (user, book) that the database enforces. */
    ghost predicate Valid()
      reads this
    {
      UniquePairs(rows)
    }

    /** Both tables as one value. */
    function Snapshot(): Tables
      reads this
    {
      Tables(books, rows)
    }

    /** Tables as found when the models module is loaded on day `loadDay`. */
    constructor (initialBooks: map<BookId, Book>, initialRows: seq<Transaction>, loadDay: Day)
      requires UniquePairs(initialRows)
      ensures Valid()
      ensures books == initialBooks && rows == initialRows && mails == []
      ensures defaultDue == DefaultDueDate(loadDay)
    {
      books := initialBooks;
      rows := initialRows;
      defaultDue := DefaultDueDate(loadDay);
      mails := [];
    }

    /** REST checkout by `user` of book `b` on `today`; answers the new row's id. */
    method Checkout(user: User, b: BookId, today: Day) returns (r: Result<nat, Error>)
      requires Valid()
      modifies this
      ensures Valid()
      ensures var s := CheckoutStep(old(Snapshot()), user.id, b, today, defaultDue);
              r == s.result && Snapshot() == s.after
      ensures mails == old(mails)
    {
      if b !in books {
        return Failure(BookNotFound);
      }
      var book := books[b];
      if book.copies < 1 {
        return Failure(NoCopiesAvailable);
      }
      if FirstMatch(rows, user.id, b, false, 0).Some? {
        return Failure(AlreadyCheckedOut);
      }
      book := book.(copies := book.copies - 1);
      books := books[b := book];
      rows := rows + [NewTransaction(user.id, b, today, defaultDue)];
      r := Success(|rows| - 1);
    }

    /** HTML borrow by `user` of book `b` on `today`; answers the new row's id. */
    method BorrowBook(user: User, b: BookId, today: Day) returns (r: Result<nat, Error>)
      requires Valid()
      modifies this
      ensures Valid()
      ensures var s := BorrowStep(old(Snapshot()), user.id, b, today, defaultDue);
              r == s.result && Snapshot() == s.after
      ensures mails == old(mails)
    {
      if b !in books {
        return Failure(BookNotFound);
      }
      var book := books[b];
      if book.copies < 1 {
        return Failure(NoCopiesAvailable);
      }
      if FirstMatch(rows, user.id, b, true, 0).Some? {
        return Failure(AlreadyBorrowed);
      }
      book := book.(copies := book.copies - 1);
      books := books[b := book];
      // the insert: the uniqueness constraint rejects a second row for the pair
      if FirstMatch(rows, user.id, b, false, 0).Some? {
        return Failure(IntegrityError);
      }
      rows := rows + [NewTransaction(user.id, b, today, defaultDue)];
      r := Success(|rows| - 1);
    }

    /**
     * Return (REST and HTML alike) by `user` of book `b` on `today`;
     * `delivered` says whether the overdue notice, if one is due, gets
     * through. Answers the closed row's id.
     */
    method ReturnBook(user: User, b: BookId, today: Day, delivered: bool) returns (r: Result<nat, Error>)
      requires Valid()
      modifies this
      ensures Valid()
      ensures var s := ReturnStep(old(Snapshot()), user, b, today, delivered);
              && r == s.result && Snapshot() == s.after
              && mails == old(mails) + (if s.mail.Some? then [s.mail.value] else [])
    {
      if b !in books {
        return Failure(BookNotFound);
      }
      var book := books[b];
      var found := FirstMatch(rows, user.id, b, true, 0);
      if found.None? {
        return Failure(NotCheckedOut);
      }
      var i := found.value;
      var checkout := rows[i].(returnDate := Some(today));
      if today > checkout.dueDate {
        var overdue := today - checkout.dueDate;
        checkout := checkout.(penalty := Penalty(overdue));
        if !delivered {
          return Failure(MailNotSent);
        }
        mails := mails + [Mail(user.email, book.title, overdue, checkout.penalty)];
      }
      rows := rows[i := checkout];
      book := book.(copies := book.copies + 1);
      books := books[b := book];
      r := Success(i);
    }

    /** `borrowing_return` of row `id` on `today`. */
    method BorrowingReturn(id: int, today: Day) returns (r: Result<nat, Error>)
      requires Valid()
      modifies this
      ensures Valid()
      ensures var s := CloseStep(old(Snapshot()), id, today);
              r == s.result && Snapshot() == s.after
      ensures mails == old(mails)
    {
      if !(0 <= id < |rows|) {
        return Failure(TransactionNotFound);
      }
      var borrowing := rows[id];
      borrowing := borrowing.(returnDate := Some(today));
      rows := rows[id := borrowing];
      r := Success(id);
    }

    /** `borrowing_penalty` of row `id` on `today`. */
    method BorrowingPenalty(id: int, today: Day) returns (r: Result<nat, Error>)
      requires Valid()
      modifies this
      ensures Valid()
      ensures var s := PenaltyStep(old(Snapshot()), id, today);
              r == s.result && Snapshot() == s.after
      ensures mails == old(mails)
    {
      if !(0 <= id < |rows|) {
        return Failure(TransactionNotFound);
      }
      var borrowing := rows[id];
      var overdue := today - borrowing.dueDate;
      borrowing := borrowing.(penalty := Penalty(overdue));
      rows := rows[id := borrowing];
      r := Success(id);
    }
  }

  /**
   * The due date is fixed when the ledger is set up: two users checking out
   * copies of one book on any two days both get `loadDay + 14`, whatever
   * those days are.
   */
  method SameDueDateAcrossDays(initialBooks: map<BookId, Book>, b: BookId, user1: User, user2: User,
                               loadDay: Day, day1: Day, day2: Day)
    returns (due1: Day, due2: Day)
    requires b in initialBooks && initialBooks[b].copies >= 2
    requires user1.id != user2.id
    ensures due1 == due2 == DefaultDueDate(loadDay)
  {
    var library := new Library(initialBooks, [], loadDay);
    var r1 := library.Checkout(user1, b, day1);
    assert r1 == Success(0);
    var r2 := library.Checkout(user2, b, day2);
    assert !Matches(library.rows[0], user2.id, b, false);
    assert r2 == Success(1);
    due1 := library.rows[0].dueDate;
    due2 := library.rows[1].dueDate;
  }
}
