/**
 * What the checkout views promise across calls: copies are conserved by
 * checkout and return, never go negative, a pair cannot be returned twice
 * or borrowed again, and the two bypasses (`borrow_book`'s failed insert,
 * `borrowing_return`) lose track of a copy.
 */
module LedgerProperties {
  import opened Wrappers
  import opened Models
  import opened Ledger

  // ---------------------------------------------------------------------
  // Counting open loans

  /** Appending a row adds its own open loan and nothing else. */
  lemma {:induction false} OpenLoansAppend(rows: seq<Transaction>, t: Transaction, b: BookId)
    ensures OpenLoans(rows + [t], b) == OpenLoans(rows, b) + OpenLoan(t, b)
  {
    assert (rows + [t])[..|rows|] == rows;
  }

  /** Replacing row `i` trades its open loan for the new row's. */
  lemma {:induction false} OpenLoansUpdate(rows: seq<Transaction>, i: int, t: Transaction, b: BookId)
    requires 0 <= i < |rows|
    ensures OpenLoans(rows[i := t], b) == OpenLoans(rows, b) - OpenLoan(rows[i], b) + OpenLoan(t, b)
  {
    var n := |rows|;
    if i == n - 1 {
      assert rows[i := t][..n - 1] == rows[..n - 1];
    } else {
      assert rows[i := t][..n - 1] == rows[..n - 1][i := t];
      OpenLoansUpdate(rows[..n - 1], i, t, b);
    }
  }

  // ---------------------------------------------------------------------
  // Conservation: copies on the shelf plus copies lent out

  /** A REST checkout keeps every book's holdings. */
  lemma CheckoutKeepsHoldings(t: Tables, u: UserId, b: BookId, today: Day, defaultDue: Day, c: BookId)
    requires c in t.books
    ensures var s := CheckoutStep(t, u, b, today, defaultDue);
            c in s.after.books && Holdings(s.after, c) == Holdings(t, c)
  {
    var s := CheckoutStep(t, u, b, today, defaultDue);
    if s.result.Success? {
      var row := NewTransaction(u, b, today, defaultDue);
      assert s.after.rows == t.rows + [row];
      OpenLoansAppend(t.rows, row, c);
    }
  }

  /** A successful HTML borrow keeps every book's holdings. */
  lemma BorrowKeepsHoldings(t: Tables, u: UserId, b: BookId, today: Day, defaultDue: Day, c: BookId)
    requires c in t.books
    requires BorrowStep(t, u, b, today, defaultDue).result.Success?
    ensures var s := BorrowStep(t, u, b, today, defaultDue);
            c in s.after.books && Holdings(s.after, c) == Holdings(t, c)
  {
    var s := BorrowStep(t, u, b, today, defaultDue);
    var row := NewTransaction(u, b, today, defaultDue);
    assert s.after.rows == t.rows + [row];
    OpenLoansAppend(t.rows, row, c);
  }

  /**
   * Re-borrowing through the HTML form a book the user has returned: the
   * open-row check passes, the copy is taken, the insert is refused, and
   * the book's holdings drop by one.
   */
  lemma ReborrowLosesCopy(t: Tables, u: UserId, b: BookId, today: Day, defaultDue: Day, i: int)
    requires b in t.books && t.books[b].copies >= 1
    requires 0 <= i < |t.rows| && Matches(t.rows[i], u, b, false)
    requires forall j | 0 <= j < |t.rows| :: !Matches(t.rows[j], u, b, true)
    ensures var s := BorrowStep(t, u, b, today, defaultDue);
            && s.result == Failure(IntegrityError)
            && s.after.rows == t.rows
            && b in s.after.books
            && s.after.books[b].copies == t.books[b].copies - 1
            && Holdings(s.after, b) == Holdings(t, b) - 1
  {
  }

  /** A return (REST or HTML) keeps every book's holdings. */
  lemma ReturnKeepsHoldings(t: Tables, user: User, b: BookId, today: Day, delivered: bool, c: BookId)
    requires c in t.books
    ensures var s := ReturnStep(t, user, b, today, delivered);
            c in s.after.books && Holdings(s.after, c) == Holdings(t, c)
  {
    var s := ReturnStep(t, user, b, today, delivered);
    if s.result.Success? {
      var i := s.result.value;
      assert s.after.rows == t.rows[i := s.after.rows[i]];
      OpenLoansUpdate(t.rows, i, s.after.rows[i], c);
    }
  }

  /** `borrowing_return` on an open row closes the loan but keeps the copy out. */
  lemma CloseLosesCopy(t: Tables, id: int, today: Day)
    requires 0 <= id < |t.rows| && t.rows[id].returnDate.None?
    requires t.rows[id].book in t.books
    ensures var s := CloseStep(t, id, today);
            var b := t.rows[id].book;
            b in s.after.books && Holdings(s.after, b) == Holdings(t, b) - 1
  {
    var s := CloseStep(t, id, today);
    assert s.after.rows == t.rows[id := s.after.rows[id]];
    OpenLoansUpdate(t.rows, id, s.after.rows[id], t.rows[id].book);
  }

  // ---------------------------------------------------------------------
  // Return after return, borrow after return, round trip

  /** Once a pair is returned, returning it again is refused. */
  lemma SecondReturnFails(t: Tables, user: User, b: BookId, day1: Day, delivered1: bool, day2: Day, delivered2: bool)
    requires UniquePairs(t.rows)
    requires ReturnStep(t, user, b, day1, delivered1).result.Success?
    ensures var s := ReturnStep(t, user, b, day1, delivered1);
            ReturnStep(s.after, user, b, day2, delivered2).result == Failure(NotCheckedOut)
  {
    var s := ReturnStep(t, user, b, day1, delivered1);
    var i := s.result.value;
    forall j | 0 <= j < |s.after.rows|
      ensures !Matches(s.after.rows[j], user.id, b, true)
    {
      if j != i {
        assert !Matches(t.rows[j], user.id, b, false) by {
          if j < i { assert t.rows[j].user != t.rows[i].user || t.rows[j].book != t.rows[i].book; }
          else { assert t.rows[i].user != t.rows[j].user || t.rows[i].book != t.rows[j].book; }
        }
      }
    }
  }

  /** Once a pair is returned, a REST checkout of it is refused for good. */
  lemma NoCheckoutAfterReturn(t: Tables, user: User, b: BookId, day1: Day, delivered: bool, day2: Day, defaultDue: Day)
    requires ReturnStep(t, user, b, day1, delivered).result.Success?
    ensures var s := ReturnStep(t, user, b, day1, delivered);
            CheckoutStep(s.after, user.id, b, day2, defaultDue).result.Failure?
    ensures var s := ReturnStep(t, user, b, day1, delivered);
            b in t.books && t.books[b].copies >= 0 ==>
            CheckoutStep(s.after, user.id, b, day2, defaultDue).result == Failure(AlreadyCheckedOut)
  {
    var s := ReturnStep(t, user, b, day1, delivered);
    var i := s.result.value;
    assert Matches(s.after.rows[i], user.id, b, false);
  }

  /**
   * Checkout followed by the return of the same pair gives the copy back:
   * the return closes the new row and the book table is as before.
   */
  lemma CheckoutReturnRestoresBooks(t: Tables, user: User, b: BookId, day1: Day, defaultDue: Day, day2: Day, delivered: bool)
    requires CheckoutStep(t, user.id, b, day1, defaultDue).result.Success?
    requires day2 <= defaultDue || delivered
    ensures var s1 := CheckoutStep(t, user.id, b, day1, defaultDue);
            var s2 := ReturnStep(s1.after, user, b, day2, delivered);
            s2.result == Success(|t.rows|) && s2.after.books == t.books
  {
    var s1 := CheckoutStep(t, user.id, b, day1, defaultDue);
    var rows := s1.after.rows;
    forall j | 0 <= j < |t.rows|
      ensures !Matches(rows[j], user.id, b, true)
    {
      assert rows[j] == rows[..|t.rows|][j];
    }
    var n := |t.rows|;
    assert rows[n].dueDate == defaultDue;
    assert FirstOpen(rows, user.id, b, n);
    var s2 := ReturnStep(s1.after, user, b, day2, delivered);
    assert s2.result.Success?;
    assert s2.result.value == n by {
      var i := s2.result.value;
      assert FirstOpen(rows, user.id, b, i);
      assert !(i < n);
    }
    assert Adjust(Adjust(t.books, b, -1), b, 1) == t.books;
  }

  // ---------------------------------------------------------------------
  // Status query

  /** Right after a checkout the pair reads as not returned. */
  lemma StatusAfterCheckout(t: Tables, u: UserId, b: BookId, today: Day, defaultDue: Day)
    requires CheckoutStep(t, u, b, today, defaultDue).result.Success?
    ensures Status(CheckoutStep(t, u, b, today, defaultDue).after, u, b) == Success(false)
  {
    var s := CheckoutStep(t, u, b, today, defaultDue);
    forall j | 0 <= j < |t.rows|
      ensures !Matches(s.after.rows[j], u, b, false)
    {
      assert s.after.rows[j] == s.after.rows[..|t.rows|][j];
    }
    assert FirstMatch(s.after.rows, u, b, false, 0) == Some(|t.rows|);
  }

  /** Right after a return the pair reads as returned. */
  lemma StatusAfterReturn(t: Tables, user: User, b: BookId, today: Day, delivered: bool)
    requires UniquePairs(t.rows)
    requires ReturnStep(t, user, b, today, delivered).result.Success?
    ensures Status(ReturnStep(t, user, b, today, delivered).after, user.id, b) == Success(true)
  {
    var s := ReturnStep(t, user, b, today, delivered);
    assert Matches(s.after.rows[s.result.value], user.id, b, false);
  }

  // ---------------------------------------------------------------------
  // Sequences of requests

  /** A request to one of the ledger views. */
  datatype Request =
    | RestCheckout(u: UserId, b: BookId, day: Day)
    | HtmlBorrow(u: UserId, b: BookId, day: Day)
    | Return(user: User, b: BookId, day: Day, delivered: bool)
    | CloseRow(id: int, day: Day)
    | ChargeRow(id: int, day: Day)

  /** The checkout and return requests: the ones that keep holdings. */
  predicate Conserving(q: Request)
  {
    q.RestCheckout? || q.Return?
  }

  /** One request against the tables. */
  function Apply(t: Tables, q: Request, defaultDue: Day): Step<nat>
  {
    match q
    case RestCheckout(u, b, day) => CheckoutStep(t, u, b, day, defaultDue)
    case HtmlBorrow(u, b, day) => BorrowStep(t, u, b, day, defaultDue)
    case Return(user, b, day, delivered) => ReturnStep(t, user, b, day, delivered)
    case CloseRow(id, day) => CloseStep(t, id, day)
    case ChargeRow(id, day) => PenaltyStep(t, id, day)
  }

  /** The tables after serving `qs` one after the other. */
  function Run(t: Tables, qs: seq<Request>, defaultDue: Day): Tables
    decreases |qs|
  {
    if qs == [] then t else Run(Apply(t, qs[0], defaultDue).after, qs[1..], defaultDue)
  }

  /**
   * Whatever the requests, copy counts stay non-negative and the
   * (user, book) pairs stay unique.
   */
  lemma {:induction false} RunKeepsInvariants(t: Tables, qs: seq<Request>, defaultDue: Day)
    requires NonNegative(t.books) && UniquePairs(t.rows)
    ensures NonNegative(Run(t, qs, defaultDue).books) && UniquePairs(Run(t, qs, defaultDue).rows)
    decreases |qs|
  {
    if qs != [] {
      RunKeepsInvariants(Apply(t, qs[0], defaultDue).after, qs[1..], defaultDue);
    }
  }

  /** Any run of checkouts and returns keeps every book's holdings. */
  lemma {:induction false} RunKeepsHoldings(t: Tables, qs: seq<Request>, defaultDue: Day, c: BookId)
    requires c in t.books
    requires forall k | 0 <= k < |qs| :: Conserving(qs[k])
    ensures c in Run(t, qs, defaultDue).books
    ensures Holdings(Run(t, qs, defaultDue), c) == Holdings(t, c)
    decreases |qs|
  {
    if qs != [] {
      var s := Apply(t, qs[0], defaultDue);
      match qs[0] {
        case RestCheckout(u, b, day) => CheckoutKeepsHoldings(t, u, b, day, defaultDue, c);
        case Return(user, b, day, delivered) => ReturnKeepsHoldings(t, user, b, day, delivered, c);
      }
      assert Conserving(qs[0]);
      RunKeepsHoldings(s.after, qs[1..], defaultDue, c);
    }
  }

  // ---------------------------------------------------------------------
  // A worked day

  /**
   * One copy of book 7; the models module loaded on day `d`, so rows are
   * due on `d + 14`. User `a` checks it out on day `d`; user `other` is then
   * refused; `a` returns it on day `d + 20`, six days late, pays 6 and is
   * sent a notice.
   */
  lemma OverdueDay(bk: Book, a: User, other: User, d: Day)
    requires bk.copies == 1
    ensures var t0 := Tables(map[7 := bk], []);
            var s1 := CheckoutStep(t0, a.id, 7, d, DefaultDueDate(d));
            var s2 := CheckoutStep(s1.after, other.id, 7, d, DefaultDueDate(d));
            var s3 := ReturnStep(s1.after, a, 7, d + 20, true);
            && s1.result == Success(0)
            && s1.after.books[7].copies == 0
            && s1.after.rows[0] == Transaction(a.id, 7, d, None, d + 14, 0)
            && s2.result == Failure(NoCopiesAvailable)
            && s3.result == Success(0)
            && s3.after.books[7].copies == 1
            && s3.after.rows[0].returnDate == Some(d + 20)
            && s3.after.rows[0].penalty == 6
            && s3.mail == Some(Mail(a.email, bk.title, 6, 6))
  {
  }
}
