# Library lending ledger, in Dafny

This project models the lending ledger of a Django library-management app.
The ledger is two tables: books, each with a count of copies on the shelf,
and transactions, each linking one user to one book. The model covers the
views that check books out, return them and report their status. It also
covers the record declarations and account creation that those views rely on.

- `wrappers.dfy`: `Option` and `Result`.
- `models.dfy` (module `Models`): the `Book`, `User` and `Transaction` records.
  It also holds the defaults a new transaction gets, the penalty rate, and the
  permission answers (`has_perm`, `has_module_perms`, `is_staff`).
- `ledger.dfy` (module `Ledger`): the two tables as one value, `Tables`, plus
  one step function per view. A step function gives the view's answer, the
  tables afterwards and the overdue notice sent, if any. These functions are
  the specification of the views.
- `views.dfy` (module `Views`): class `Library` holds the tables as fields.
  Its methods perform the views' steps in place, in the source's order. Each
  method's postcondition ties its answer and the new fields to the step
  function. The class invariant is the database's (user, book) uniqueness
  constraint.
- `ledger_properties.dfy` (module `LedgerProperties`): lemmas that relate
  several calls. They cover holdings (shelf copies plus open loans), return
  after return, checkout after return, and the checkout/return round trip.
  They also cover status after each operation, invariants over any sequence
  of requests, and a worked overdue scenario.
- `accounts.dfy` (module `Accounts`): class `UserTable` models the user
  manager's `create_user` and `create_superuser` and the registration form.
- `catalog.dfy` (module `Catalog`): the `available=true|false` filter of the
  book listing.
- `intended.dfy` (module `Intended`): the corrected definitions for the
  findings below, each with the property the correction restores. The
  modules above keep the code as written.

Modelling choices:
- The copy count is an unbounded `int`. Like the source's `IntegerField`, it
  has no lower bound at the record level. The class invariant
  does not bound it. Non-negativity (`Ledger.NonNegative`) is only preserved
  by the views, because each decrement is guarded by count ≥ 1. Each step
  function's contract proves this, and so does `RunKeepsInvariants`.
- Dates are day numbers. "Today" is a parameter of every operation.
- The penalty is an integer number of currency units: days late × 1.
- A transaction's id is its index in the row sequence. So `.first()`, which
  has no ordering, is the lowest matching index.
- The due date of a new row is the ledger's `defaultDue`. The `Library`
  constructor fixes it once, as `loadDay + 14`. This matches the source, where
  the field default `timezone.now() + timedelta(days=14)` is evaluated once,
  when the models module is imported. It is not checkout date + 14.
- The overdue notice is sent before anything is saved. Whether delivery
  succeeds is a parameter, `delivered`. A failed delivery raises, so the
  return is aborted and the tables are unchanged. Delivered notices are kept
  in the ghost log `mails`.
- The REST `return_book` and the HTML `return_book` run the same steps, so
  one method (`ReturnBook`) and one step function (`ReturnStep`) model both.
  Likewise `Status` models both `is_returned` and `check_book_status`.

## Model

| member | source | states |
|---|---|---|
| `Models.PermissionsFollowAdmin` | library_management_system_api/Library/models.py:62-71 | `is_staff`, `has_perm` for any permission and object, and `is_admin` are one flag; `has_module_perms` is always true |
| `Models.DueDateIgnoresCheckoutDay` | library_management_system_api/Library/models.py:76-79 | rows created on different days get the same default due date; a new row has no return date and penalty 0 |
| `Views.SameDueDateAcrossDays` | library_management_system_api/Library/models.py:78 | two checkouts through one ledger, by two users on any two days, both get the due date `loadDay + 14` fixed at load |
| `Models.LateCheckoutGetsShortLoan` | library_management_system_api/Library/models.py:78 | a book checked out on day 10 of a module loaded on day 0 is due on day 14, not checkout + 14 |
| `Ledger.FirstMatch` | library_management_system_api/Library/views.py:90 | `filter(...).first()`: the lowest row id matching user, book (and open, when asked), and None exactly when no row matches |
| `Ledger.CheckoutStep` | library_management_system_api/Library/views.py:60-79 | REST checkout: "Book not found" iff the book is absent, then "No copies available" iff count < 1, then "already checked out" iff any row, returned or not, exists for the pair; success iff none of these; every failure leaves the tables unchanged; success decrements that book only, by 1, and appends exactly one row with no return date, penalty 0 and the default due date; keeps counts non-negative and pairs unique |
| `Ledger.BorrowStep` | library_management_system_api/Library/views.py:283-313 | HTML borrow: the same first two guards, then refusal only for an OPEN row; success iff no row at all exists for the pair; if only a returned row exists, the insert fails with the count already decremented and no row added; otherwise the same effect as REST checkout; keeps counts non-negative and pairs unique |
| `Ledger.ReturnStep` | library_management_system_api/Library/views.py:82-113 | return: "Book not found" iff the book is absent, "not checked out" iff no open row for the pair; "mail not sent" iff the first open row is overdue and the notice is not delivered; no other outcome; on success the first open row (lowest id) gets return date today; when overdue, penalty = days late × 1 and exactly one notice (email, title, days, penalty), else the penalty is kept and no notice; count + 1 with no upper bound; other rows and books unchanged; an undelivered notice aborts with nothing changed |
| `Ledger.Status` | library_management_system_api/Library/views.py:115-132 | error iff the book is absent or the pair has no row at all (never a default answer); with unique pairs, "returned" iff the pair's row has a return date and "not returned" iff it is open |
| `Ledger.CloseStep` | library_management_system_api/Library/views.py:243-248 | `borrowing_return`: any existing row id gets return date today, whoever owns it and even if already returned; copy counts are untouched; an unknown id fails with no change |
| `Ledger.PenaltyStep` | library_management_system_api/Library/views.py:250-256 | `borrowing_penalty`: the row's penalty becomes (today − due date) × 1, negative exactly when today is before the due date; nothing else changes |
| `Views.Library.constructor` | library_management_system_api/Library/models.py:73-82 | the ledger starts from given tables with unique pairs; every later row gets the one due date `loadDay + 14` |
| `Views.Library.Checkout` | library_management_system_api/Library/views.py:60-79 | in-place REST checkout: answer and new tables are those of `CheckoutStep`; uniqueness kept; no notice |
| `Views.Library.BorrowBook` | library_management_system_api/Library/views.py:283-313 | in-place HTML borrow (decrement saved before the insert): answer and new tables are those of `BorrowStep` |
| `Views.Library.ReturnBook` | library_management_system_api/Library/views.py:315-353 | in-place return, REST and HTML alike: answer and tables are those of `ReturnStep`; the mail log grows by exactly the notice sent |
| `Views.Library.BorrowingReturn` | library_management_system_api/Library/views.py:244-248 | in-place `borrowing_return`, as `CloseStep` |
| `Views.Library.BorrowingPenalty` | library_management_system_api/Library/views.py:251-256 | in-place `borrowing_penalty`, as `PenaltyStep` |
| `LedgerProperties.CheckoutKeepsHoldings` | library_management_system_api/Library/views.py:74-77 | for every book, count + open loans is the same after a REST checkout, successful or not |
| `LedgerProperties.BorrowKeepsHoldings` | library_management_system_api/Library/views.py:303-307 | a successful HTML borrow keeps count + open loans for every book |
| `LedgerProperties.ReborrowLosesCopy` | library_management_system_api/Library/views.py:299-310 | HTML re-borrow of a returned book: integrity error, rows unchanged, count one lower, holdings one lower |
| `LedgerProperties.ReturnKeepsHoldings` | library_management_system_api/Library/views.py:95-110 | for every book, count + open loans is the same after a return, successful or not |
| `LedgerProperties.CloseLosesCopy` | library_management_system_api/Library/views.py:246-247 | `borrowing_return` on an open row lowers that book's count + open loans by one |
| `LedgerProperties.SecondReturnFails` | library_management_system_api/Library/views.py:90-93 | after a successful return, returning the same pair again fails with "not checked out" |
| `LedgerProperties.NoCheckoutAfterReturn` | library_management_system_api/Library/models.py:81-82 | after a return, a REST checkout of the same pair is always refused: a book can never be borrowed twice by one user; with a non-negative count the refusal is "already checked out" |
| `LedgerProperties.CheckoutReturnRestoresBooks` | library_management_system_api/Library/views.py:74-110 | a successful checkout followed by the return of the same pair (on time, or with the notice delivered) succeeds on the new row and restores the book table exactly |
| `LedgerProperties.StatusAfterCheckout` | library_management_system_api/Library/views.py:124-132 | right after a checkout the pair reads "not returned" |
| `LedgerProperties.StatusAfterReturn` | library_management_system_api/Library/views.py:367-378 | right after a return the pair reads "returned" |
| `LedgerProperties.RunKeepsInvariants` | library_management_system_api/Library/views.py:68 | along any sequence of ledger requests, copy counts stay non-negative and (user, book) pairs stay unique |
| `LedgerProperties.RunKeepsHoldings` | library_management_system_api/Library/views.py:74 | along any sequence of REST checkouts and returns, every book's count + open loans is constant |
| `LedgerProperties.OverdueDay` | library_management_system_api/Library/views.py:97-107 | one copy: checkout leaves 0 copies and an open row due day d+14; a second user is refused; a return on day d+20 leaves 1 copy, penalty 6 and one notice to the borrower |
| `Accounts.UserTable.CreateUser` | library_management_system_api/Library/models.py:20-32 | refuses an empty email, then an empty username, before creating anything; otherwise saves exactly one active, non-admin account (the unique username and email constraints refuse a reuse) |
| `Accounts.UserTable.CreateSuperuser` | library_management_system_api/Library/models.py:34-44 | always fails: an empty email or username gives `create_user`'s missing-field error, a reused username or email the duplicate-account error, and otherwise the read-only `is_staff` error after a plain, non-admin account was already saved |
| `Accounts.UserTable.Register` | library_management_system_api/Library/views.py:172-191 | checks in order: passwords match, username free, email free, then `create_user`, whose missing-email and missing-username errors come through unchanged; a failure changes nothing; success adds exactly one plain account |
| `Catalog.AvailableFilter` | library_management_system_api/Library/views.py:38-46 | `available=true` (any case) keeps exactly the books with count > 0, `false` those with count ≤ 0, anything else or no parameter keeps all |
| `Catalog.FiltersSplitCatalog` | library_management_system_api/Library/views.py:41-45 | the `true` and `false` listings are disjoint and together cover the catalog |
| `Catalog.FilterIgnoresCase` | library_management_system_api/Library/views.py:42-44 | `TRUE`, `True` and `true` give the same listing, as do `False` and `false` |
| `Intended.CheckoutStep` | library_management_system_api/Library/views.py:295-307 | checkout as intended: the two guards as before, refused iff the pair has an OPEN row, success iff none; the new row is due `LOAN_DAYS` after its own checkout day; a failure changes nothing; keeps counts non-negative and at most one open row per pair |
| `Intended.CheckoutKeepsHoldings` | library_management_system_api/Library/views.py:303-307 | the intended checkout keeps every book's count + open loans, whatever it answers |
| `Intended.ReturnKeepsUniqueOpenPairs` | library_management_system_api/Library/views.py:86-110 | a return never leaves two open rows for one pair |
| `Intended.LoanPeriodFromCheckout` | library_management_system_api/Library/models.py:78 | with the due date counted from the checkout day d: a return on or before d + 14 succeeds with penalty 0 and no notice; a later delivered return is charged (days past d + 14) × 1, exactly 1 on d + 15, with one notice; an undelivered one fails with "mail not sent" |
| `Intended.CheckoutAgainAfterReturn` | library_management_system_api/Library/views.py:299-300 | with at most one open row per pair and non-negative counts, after a successful return the same user checks the same book out again, and every book's holdings are as before the return |
| `Intended.BorrowStep` | library_management_system_api/Library/views.py:303-310 | HTML borrow with the insert tried before the decrement: the refused re-borrow is an integrity error with both tables unchanged; every other answer and new state is that of the code as written |
| `Intended.BorrowAlwaysKeepsHoldings` | library_management_system_api/Library/views.py:303-310 | inserting first, every HTML borrow, refused or not, keeps every book's count + open loans |
| `Intended.CloseStep` | library_management_system_api/Library/views.py:244-247 | `borrowing_return` as intended: an unknown id fails with no change; the row is dated today; closing an open row puts one copy of its book back; an already returned row moves no copy |
| `Intended.CloseKeepsHoldings` | library_management_system_api/Library/views.py:244-247 | the intended `borrowing_return` keeps every book's count + open loans |
| `Intended.Charge` | library_management_system_api/Library/views.py:252-254 | the charge is never negative: (today − due) × 1 from the due date on, 0 on or before it |
| `Intended.PenaltyStep` | library_management_system_api/Library/views.py:251-255 | `borrowing_penalty` as intended: the row's penalty becomes the clamped charge, nothing else changes, an unknown id fails with no change |
| `Intended.PenaltyNeverNegative` | library_management_system_api/Library/views.py:252-254 | the stored penalty is never negative, equals the code as written from the due date on, and equals what a return that day charges an overdue row |
| `Intended.AdminUser` | library_management_system_api/Library/models.py:39-42 | the account `create_superuser` meant to save is the plain account with admin and superuser set, so it is staff and has every permission |
| `Intended.CreateSuperuser` | library_management_system_api/Library/models.py:34-44 | `create_superuser` without the read-only assignment: `create_user`'s refusals come through with no change; otherwise exactly one admin account is appended |

## Findings

In each case below the code does something that other parts of the same
code show was not intended. The modules `Models`, `Ledger`, `Views` and
`Accounts` keep the code as written. The as-written member exhibits the
behaviour, and module `Intended` gives the corrected definition with the
property it restores.

| source | as written | input that shows it | evidently intended | confidence | as-written member | corrected member |
|---|---|---|---|---|---|---|
| library_management_system_api/Library/models.py:78 | the due-date default `timezone.now() + timedelta(days=14)` is evaluated once, at import, so every row gets the same due date | module loaded on day 0, book checked out on day 10: due on day 14, not day 24 | each row due 14 days after its own checkout, as the added loan period says | high; not executed | `Models.LateCheckoutGetsShortLoan` | `Intended.LoanPeriodFromCheckout` |
| library_management_system_api/Library/models.py:81-82 | `unique_together = ('user', 'book')` allows one row per pair for ever | a user checks a book out, returns it, and checks it out again: refused as "already checked out" | only an open loan blocks: `borrow_book` checks only open rows and says the user "has not returned it yet" (views.py:299-300) | medium; not executed | `LedgerProperties.NoCheckoutAfterReturn` | `Intended.CheckoutAgainAfterReturn` |
| library_management_system_api/Library/views.py:303-310 | the count is decremented and saved before the insert, and the `IntegrityError` handler does not restore it | a returned pair, borrowed again through the form: integrity error, no new row, count one lower | a refused insert leaves the count as it was | high; not executed | `LedgerProperties.ReborrowLosesCopy` | `Intended.BorrowAlwaysKeepsHoldings` |
| library_management_system_api/Library/views.py:244-247 | `borrowing_return` dates the row but does not put the copy back | an open row of a book with 0 copies: afterwards the row is closed and the count is still 0 | closing a loan puts the copy back, as `return_book` does (views.py:109-110) | medium; not executed | `LedgerProperties.CloseLosesCopy` | `Intended.CloseKeepsHoldings` |
| library_management_system_api/Library/views.py:252-254 | the penalty is (today − due) × 1 with no lower bound | a row due on day 20, charged on day 15: penalty −5 | no charge before the due date, as `return_book` charges only when `return_date > due_date` (views.py:97-99) | high; not executed | `Ledger.PenaltyStep` | `Intended.PenaltyNeverNegative` |
| library_management_system_api/Library/models.py:41 | `create_superuser` assigns to `is_staff`, a property with no setter (models.py:69-71), which raises after `create_user` has saved a plain account | any unused email and username: a plain, non-admin account is saved and the call fails | an admin, superuser account is saved; `is_staff` already follows `is_admin` | high; not executed | `Accounts.UserTable.CreateSuperuser` | `Intended.CreateSuperuser` |

## Left out

- Book, user and transaction CRUD through the generic viewsets, and book deletion. These are framework-generated views. Deleting a book would cascade to its rows.
- Search, ordering and pagination of the listings. These are framework filters; `AvailableFilter` returns the kept ids as a set, in no order.
- Authentication, sessions, templates and flash messages. The current user is a parameter. Each error becomes an `Error` or `AccountError` value instead of a response or message.
- The non-POST branches of `borrow_book`, `return_book` and `register`, and the non-GET branch of `check_book_status`. They only render a form and touch no table.
- Malformed book ids (a missing or non-numeric `book` field). Ids are integers here. A missing id reaches the same "Book not found" path as an absent one.
- `send_mail`'s delivery and message text. Only the delivery outcome (`delivered`) and the notice's recipient, title, days and penalty are modelled.
- Concurrency, and the read-then-write race on the copy count. The model is sequential.
- The database range of `IntegerField` (models.py:14), 32-bit on PostgreSQL and MySQL. Copy counts are unbounded integers, so a save that overflows that range is not modelled.
- The penalty as a float converted to a `DecimalField(max_digits=5, decimal_places=2)`. The penalty is an unbounded integer, so the 999.99 bound is not modelled.
- `normalize_email`, which is framework code. Emails are stored as given, so `Register`'s email check and the stored email always agree.
- Password hashing (`set_password`). The password is not stored.
- `Catalog.AvailableFilter`: `str.lower()` is modelled on ASCII letters only. No non-ASCII character lowers to a letter of `true` or `false`, so the filter's result is the same.
- `borrowing_email` (views.py:258-268): it sends an overdue notice for any existing row id to any logged-in caller, with delivery failures raised, giving the row's stored penalty as the number of days late, and changes no table. The user's address and the row's title live outside the ledger's tables, so the notice is not modelled; the only notice modelled is the one `return_book` sends. urls.py routes none of `borrowing_detail`, `borrowing_return`, `borrowing_penalty`, `borrowing_email`, `borrowing_is_returned` or the `borrowing_history(request, user_id)` page. `borrowing_list` and `borrowing_history_view` are routed, but they only list rows.
- `borrowing_history`, `borrowing_is_returned`, `user_list` and the other read-only pages. They only list or render rows and are not part of the ledger.
