/**
 * What the ledger code evidently meant to do where it does something else.
 * Each definition here corrects one step of the code as written (module
 * `Ledger`, class `Accounts.UserTable`) and comes with the property the
 * correction restores.
 */
module Intended {
  import opened Wrappers
  import opened Models
  import opened Ledger
  import opened LedgerProperties
  import opened Accounts

  // ---------------------------------------------------------------------
  // Checkout: a per-row loan period, and only an open loan blocks

  /** The row a checkout was meant to insert: due one loan period after its own checkout day. */
  function LoanRow(u: UserId, b: BookId, today: Day): (r: Transaction)
    ensures r.user == u && r.book == b && r.checkoutDate == today
    ensures r.dueDate == today + LOAN_DAYS
    ensures r.returnDate == None && r.penalty == 0
  {
    Transaction(u, b, today, None, today + LOAN_DAYS, 0)
  }

  /** The invariant a ledger that allows borrowing again keeps: at most one OPEN row per pair. */
  ghost predicate UniqueOpenPairs(rows: seq<Transaction>)
  {
    forall i, j | 0 <= i < j < |rows| && rows[i].returnDate.None? && rows[j].returnDate.None? ::
      rows[i].user != rows[j].user || rows[i].book != rows[j].book
  }

  /**
   * Checkout as intended: the same two guards, refused only while the pair
   * has an open loan, and the new row due `LOAN_DAYS` after today.
   */
  function CheckoutStep(t: Tables, u: UserId, b: BookId, today: Day): (r: Step<nat>)
    ensures r.mail == None
    ensures r.result == Failure(BookNotFound) <==> b !in t.books
    ensures r.result == Failure(NoCopiesAvailable) <==> b in t.books && t.books[b].copies < 1
    ensures r.result == Failure(AlreadyBorrowed) <==>
      b in t.books && t.books[b].copies >= 1 && exists i | 0 <= i < |t.rows| :: Matches(t.rows[i], u, b, true)
    ensures r.result.Failure? ==> r.after == t
    ensures r.result.Success? <==>
      b in t.books && t.books[b].copies >= 1 && forall i | 0 <= i < |t.rows| :: !Matches(t.rows[i], u, b, true)
    ensures r.result.Success? ==>
      && b in t.books
      && r.result.value == |t.rows|
      && r.after.books == Adjust(t.books, b, -1)
      && r.after.rows == t.rows + [LoanRow(u, b, today)]
    ensures NonNegative(t.books) ==> NonNegative(r.after.books)
    ensures UniqueOpenPairs(t.rows) ==> UniqueOpenPairs(r.after.rows)
  {
    if b !in t.books then Step(Failure(BookNotFound), t, None)
    else if t.books[b].copies < 1 then Step(Failure(NoCopiesAvailable), t, None)
    else if FirstMatch(t.rows, u, b, true, 0).Some? then Step(Failure(AlreadyBorrowed), t, None)
    else Step(Success(|t.rows|), Tables(Adjust(t.books, b, -1), t.rows + [LoanRow(u, b, today)]), None)
  }

  /** The intended checkout keeps every book's holdings, whatever it answers. */
  lemma CheckoutKeepsHoldings(t: Tables, u: UserId, b: BookId, today: Day, c: BookId)
    requires c in t.books
    ensures var s := CheckoutStep(t, u, b, today);
            c in s.after.books && Holdings(s.after, c) == Holdings(t, c)
  {
    var s := CheckoutStep(t, u, b, today);
    if s.result.Success? {
      OpenLoansAppend(t.rows, LoanRow(u, b, today), c);
    }
  }

  /** A return closes the first open row and opens none, so it keeps one open row per pair. */
  lemma ReturnKeepsUniqueOpenPairs(t: Tables, user: User, b: BookId, today: Day, delivered: bool)
    requires UniqueOpenPairs(t.rows)
    ensures UniqueOpenPairs(ReturnStep(t, user, b, today, delivered).after.rows)
  {
    var s := ReturnStep(t, user, b, today, delivered);
    if s.result.Success? {
      var i := s.result.value;
      forall j, k | 0 <= j < k < |s.after.rows| && s.after.rows[j].returnDate.None? && s.after.rows[k].returnDate.None?
        ensures s.after.rows[j].user != s.after.rows[k].user || s.after.rows[j].book != s.after.rows[k].book
      {
        assert j != i && k != i;
        assert t.rows[j] == s.after.rows[j] && t.rows[k] == s.after.rows[k];
      }
    }
  }

  /**
   * With the loan period counted from the checkout day, a book checked out
   * on day `d` and returned on or before day `d + 14` is free and draws no
   * notice; a return on a later day, with the notice delivered, is charged
   * one unit per day past `d + 14`, so exactly 1 on day `d + 15`.
   */
  lemma LoanPeriodFromCheckout(t: Tables, user: User, b: BookId, d: Day, today: Day, delivered: bool)
    requires CheckoutStep(t, user.id, b, d).result.Success?
    ensures var s1 := CheckoutStep(t, user.id, b, d);
            var s2 := ReturnStep(s1.after, user, b, today, delivered);
            && (today <= d + LOAN_DAYS ==>
                  s2.result == Success(|t.rows|) && s2.after.rows[|t.rows|].penalty == 0 && s2.mail == None)
            && (today > d + LOAN_DAYS && delivered ==>
                  && s2.result == Success(|t.rows|)
                  && s2.after.rows[|t.rows|].penalty == Penalty(today - (d + LOAN_DAYS))
                  && s2.mail.Some? && s2.mail.value.days == today - (d + LOAN_DAYS))
            && (today == d + LOAN_DAYS + 1 && delivered ==> s2.after.rows[|t.rows|].penalty == 1)
            && (today > d + LOAN_DAYS && !delivered ==> s2.result == Failure(MailNotSent))
  {
    var s1 := CheckoutStep(t, user.id, b, d);
    var rows := s1.after.rows;
    var n := |t.rows|;
    forall j | 0 <= j < n
      ensures !Matches(rows[j], user.id, b, true)
    {
      assert rows[j] == t.rows[j];
    }
    assert rows[n] == LoanRow(user.id, b, d);
    assert FirstOpen(rows, user.id, b, n);
    var s2 := ReturnStep(s1.after, user, b, today, delivered);
    if s2.result.Success? {
      assert s2.result.value == n by {
        var i := s2.result.value;
        assert FirstOpen(rows, user.id, b, i);
        assert !(i < n);
      }
    }
  }

  /**
   * Once a loan is returned, the same user can check the same book out
   * again: the return closed the pair's only open row and put a copy back,
   * and both steps keep every book's holdings.
   */
  lemma CheckoutAgainAfterReturn(t: Tables, user: User, b: BookId, day1: Day, delivered: bool, day2: Day, c: BookId)
    requires UniqueOpenPairs(t.rows) && NonNegative(t.books)
    requires ReturnStep(t, user, b, day1, delivered).result.Success?
    requires c in t.books
    ensures var s := ReturnStep(t, user, b, day1, delivered);
            var s2 := CheckoutStep(s.after, user.id, b, day2);
            && s2.result == Success(|t.rows|)
            && c in s2.after.books && Holdings(s2.after, c) == Holdings(t, c)
  {
    var s := ReturnStep(t, user, b, day1, delivered);
    var i := s.result.value;
    forall j | 0 <= j < |s.after.rows|
      ensures !Matches(s.after.rows[j], user.id, b, true)
    {
      if j != i {
        assert s.after.rows[j] == t.rows[j];
      }
    }
    ReturnKeepsHoldings(t, user, b, day1, delivered, c);
    CheckoutKeepsHoldings(s.after, user.id, b, day2, c);
  }

  // ---------------------------------------------------------------------
  // HTML borrow: insert first, then take the copy

  /**
   * `borrow_book` with the insert tried before the decrement: an insert
   * that the uniqueness constraint refuses leaves both tables as they were.
   */
  function BorrowStep(t: Tables, u: UserId, b: BookId, today: Day, defaultDue: Day): (r: Step<nat>)
    ensures r.mail == None
    ensures r.result == Failure(IntegrityError) <==>
      && b in t.books && t.books[b].copies >= 1
      && (forall i | 0 <= i < |t.rows| :: !Matches(t.rows[i], u, b, true))
      && exists i | 0 <= i < |t.rows| :: Matches(t.rows[i], u, b, false)
    ensures r.result.Failure? ==> r.after == t
    ensures r.result.Success? <==> Ledger.BorrowStep(t, u, b, today, defaultDue).result.Success?
    ensures r.result.Success? ==> r.after == Ledger.BorrowStep(t, u, b, today, defaultDue).after
    ensures r.result.Failure? && r.result != Failure(IntegrityError) ==>
      r.result == Ledger.BorrowStep(t, u, b, today, defaultDue).result
  {
    if b !in t.books then Step(Failure(BookNotFound), t, None)
    else if t.books[b].copies < 1 then Step(Failure(NoCopiesAvailable), t, None)
    else if FirstMatch(t.rows, u, b, true, 0).Some? then Step(Failure(AlreadyBorrowed), t, None)
    else if FirstMatch(t.rows, u, b, false, 0).Some? then Step(Failure(IntegrityError), t, None)
    else Step(Success(|t.rows|), Tables(Adjust(t.books, b, -1), t.rows + [NewTransaction(u, b, today, defaultDue)]), None)
  }

  /** Inserting first, every HTML borrow keeps every book's holdings, the refused re-borrow included. */
  lemma BorrowAlwaysKeepsHoldings(t: Tables, u: UserId, b: BookId, today: Day, defaultDue: Day, c: BookId)
    requires c in t.books
    ensures var s := BorrowStep(t, u, b, today, defaultDue);
            c in s.after.books && Holdings(s.after, c) == Holdings(t, c)
  {
    var s := BorrowStep(t, u, b, today, defaultDue);
    if s.result.Success? {
      BorrowKeepsHoldings(t, u, b, today, defaultDue, c);
    }
  }

  // ---------------------------------------------------------------------
  // `borrowing_return`: put the copy back

  /**
   * `borrowing_return` as intended: closing an open row also puts its copy
   * back on the shelf; a row already returned is re-dated and no copy moves.
   */
  function CloseStep(t: Tables, id: int, today: Day): (r: Step<nat>)
    ensures r.mail == None
    ensures r.result.Failure? <==> !(0 <= id < |t.rows|)
    ensures r.result.Failure? ==> r.result.error == TransactionNotFound && r.after == t
    ensures r.result.Success? ==>
      var row := t.rows[id];
      && r.result.value == id
      && r.after.rows == t.rows[id := row.(returnDate := Some(today))]
      && (row.returnDate.None? && row.book in t.books ==> r.after.books == Adjust(t.books, row.book, 1))
      && (row.returnDate.Some? || row.book !in t.books ==> r.after.books == t.books)
  {
    if !(0 <= id < |t.rows|) then Step(Failure(TransactionNotFound), t, None)
    else
      var row := t.rows[id];
      var books := if row.returnDate.None? && row.book in t.books then Adjust(t.books, row.book, 1) else t.books;
      Step(Success(id), Tables(books, t.rows[id := row.(returnDate := Some(today))]), None)
  }

  /** Putting the copy back, `borrowing_return` keeps every book's holdings. */
  lemma CloseKeepsHoldings(t: Tables, id: int, today: Day, c: BookId)
    requires c in t.books
    ensures var s := CloseStep(t, id, today);
            c in s.after.books && Holdings(s.after, c) == Holdings(t, c)
  {
    var s := CloseStep(t, id, today);
    if s.result.Success? {
      OpenLoansUpdate(t.rows, id, s.after.rows[id], c);
    }
  }

  // ---------------------------------------------------------------------
  // `borrowing_penalty`: no negative charge

  /** The charge for a row on `today`: the days past its due date, never below zero. */
  function Charge(row: Transaction, today: Day): (p: int)
    ensures p >= 0
    ensures today >= row.dueDate ==> p == Penalty(today - row.dueDate)
    ensures today <= row.dueDate ==> p == 0
  {
    if today > row.dueDate then Penalty(today - row.dueDate) else 0
  }

  /** `borrowing_penalty` as intended: the charge is clamped at zero before the due date. */
  function PenaltyStep(t: Tables, id: int, today: Day): (r: Step<nat>)
    ensures r.mail == None
    ensures r.result.Failure? <==> !(0 <= id < |t.rows|)
    ensures r.result.Failure? ==> r.result.error == TransactionNotFound && r.after == t
    ensures r.result.Success? ==>
      && r.result.value == id
      && r.after.books == t.books
      && r.after.rows == t.rows[id := t.rows[id].(penalty := Charge(t.rows[id], today))]
  {
    if !(0 <= id < |t.rows|) then Step(Failure(TransactionNotFound), t, None)
    else Step(Success(id), Tables(t.books, t.rows[id := t.rows[id].(penalty := Charge(t.rows[id], today))]), None)
  }

  /**
   * The clamped charge never goes negative, agrees with the code as written
   * from the due date on, and is what a return on the same day charges
   * an overdue row.
   */
  lemma PenaltyNeverNegative(t: Tables, id: int, today: Day)
    requires 0 <= id < |t.rows|
    ensures var p := PenaltyStep(t, id, today).after.rows[id].penalty;
            && p >= 0
            && (today >= t.rows[id].dueDate ==> p == Ledger.PenaltyStep(t, id, today).after.rows[id].penalty)
            && (today > t.rows[id].dueDate ==> p == Closed(t.rows[id], today).penalty)
  {
  }

  // ---------------------------------------------------------------------
  // `create_superuser`: save an admin

  /** The account `create_superuser` was meant to leave: active, admin and superuser. */
  function AdminUser(id: UserId, email: string, username: string, today: Day): (u: User)
    ensures u == PlainUser(id, email, username, today).(isAdmin := true, isSuperuser := true)
    ensures IsStaff(u) && u.isSuperuser && u.isActive
    ensures forall perm: string, obj: Option<BookId> :: HasPerm(u, perm, obj)
  {
    User(id, username, email, true, true, true, today)
  }

  /**
   * `create_superuser` without the assignment to the read-only `is_staff`
   * (which already follows `is_admin`): `create_user`'s refusals come
   * through, otherwise exactly one admin account is added.
   */
  method CreateSuperuser(table: UserTable, email: string, username: string, password: string, today: Day)
    returns (r: Result<UserId, AccountError>)
    requires table.Valid()
    modifies table
    ensures table.Valid()
    ensures email == [] ==> r == Failure(MissingEmail)
    ensures email != [] && username == [] ==> r == Failure(MissingUsername)
    ensures email != [] && username != [] && (UsernameInUse(old(table.users), username) || EmailInUse(old(table.users), email))
            ==> r == Failure(DuplicateAccount)
    ensures r.Failure? ==> table.users == old(table.users)
    ensures r.Success? <==>
            email != [] && username != [] && !UsernameInUse(old(table.users), username) && !EmailInUse(old(table.users), email)
    ensures r.Success? ==>
            r.value == |old(table.users)| && table.users == old(table.users) + [AdminUser(|old(table.users)|, email, username, today)]
  {
    r := table.CreateUser(email, username, password, today);
    if r.Success? {
      var id := r.value;
      table.users := table.users[id := table.users[id].(isAdmin := true, isSuperuser := true)];
    }
  }
}
