/**
 * The record declarations of the library app: books, users and the
 * checkout transactions that link them, with the defaults each new
 * row receives and the permission answers a user gives.
 */
module Models {
  import opened Wrappers

  /** Primary keys are integers assigned by the database. */
  type UserId = int
  type BookId = int

  /** A calendar date, as a day number. */
  type Day = int

  /** Length of the loan period the due-date default adds, in days. */
  const LOAN_DAYS: int := 14

  /** Penalty charged per overdue day, in currency units. */
  const PENALTY_PER_DAY: int := 1

  /**
   * A catalog entry. The copy count is a plain integer: nothing at the
   * record level keeps it from going negative.
   */
  datatype Book = Book(title: string, author: string, isbn: string, published: Day, copies: int)

  /**
   * An account. There is no separate staff flag: the `is_staff` property
   * replaces the field of the same name and reads `isAdmin`.
   */
  datatype User = User(
    id: UserId,
    username: string,
    email: string,
    isActive: bool,
    isAdmin: bool,
    isSuperuser: bool,
    joined: Day)

  /** One ledger entry: user `user` borrowed book `book`. */
  datatype Transaction = Transaction(
    user: UserId,
    book: BookId,
    checkoutDate: Day,
    returnDate: Option<Day>,
    dueDate: Day,
    penalty: int)

  /**
   * The due date every row created without one receives: the moment the
   * module was loaded plus the loan period, computed once for all rows.
   */
  function DefaultDueDate(loadDay: Day): Day
  {
    loadDay + LOAN_DAYS
  }

  /** The row a checkout inserts: only user and book are given, the rest are defaults. */
  function NewTransaction(u: UserId, b: BookId, today: Day, defaultDue: Day): Transaction
  {
    Transaction(u, b, today, None, defaultDue, 0)
  }

  /** Penalty for a number of overdue days (negative days give a negative penalty). */
  function Penalty(days: int): int
  {
    days * PENALTY_PER_DAY
  }

  /** `has_perm`: the answer ignores the permission asked for and the object. */
  function HasPerm(u: User, perm: string, obj: Option<BookId>): bool
  {
    u.isAdmin
  }

  /** `has_module_perms`: every user may see every app. */
  function HasModulePerms(u: User, appLabel: string): bool
  {
    true
  }

  /** The read-only `is_staff` property. */
  function IsStaff(u: User): bool
  {
    u.isAdmin
  }

  /**
   * Staff status, every permission and admin status are one and the same
   * flag, and module permissions are granted to everyone.
   */
  lemma PermissionsFollowAdmin(u: User, perm: string, obj: Option<BookId>, appLabel: string)
    ensures IsStaff(u) == u.isAdmin
    ensures HasPerm(u, perm, obj) == IsStaff(u)
    ensures HasModulePerms(u, appLabel)
  {
  }

  /**
   * A row created on any day gets the same due date: the checkout day does
   * not enter into it.
   */
  lemma DueDateIgnoresCheckoutDay(u: UserId, b: BookId, day1: Day, day2: Day, loadDay: Day)
    ensures NewTransaction(u, b, day1, DefaultDueDate(loadDay)).dueDate
         == NewTransaction(u, b, day2, DefaultDueDate(loadDay)).dueDate
    ensures NewTransaction(u, b, day1, DefaultDueDate(loadDay)).returnDate == None
    ensures NewTransaction(u, b, day1, DefaultDueDate(loadDay)).penalty == 0
  {
  }

  /**
   * So a book checked out some days after load is due sooner than
   * fourteen days after its checkout: here, checked out on day 10 of a
   * module loaded on day 0, it is due on day 14, not day 24.
   */
  lemma LateCheckoutGetsShortLoan()
    ensures var t := NewTransaction(1, 1, 10, DefaultDueDate(0));
            t.dueDate == 14 && t.dueDate != t.checkoutDate + LOAN_DAYS
  {
  }
}
