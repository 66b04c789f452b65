/**
 * The user table and the code that adds to it: the user manager's
 * `create_user` and `create_superuser`, and the registration form's checks.
 */
module Accounts {
  import opened Wrappers
  import opened Models

  /** Why an account was not created. */
  datatype AccountError =
    | MissingEmail        // create_user: empty email
    | MissingUsername     // create_user: empty username
    | DuplicateAccount    // the table's unique username or email constraint refused the row
    | StaffIsReadOnly     // create_superuser assigned to the read-only `is_staff` property
    | PasswordMismatch    // register: the two passwords differ
    | UsernameTaken       // register: the username is in use
    | EmailTaken          // register: the email is in use

  /** Some account already uses `username`. */
  predicate UsernameInUse(users: seq<User>, username: string)
  {
    exists i | 0 <= i < |users| :: users[i].username == username
  }

  /** Some account already uses `email`. */
  predicate EmailInUse(users: seq<User>, email: string)
  {
    exists i | 0 <= i < |users| :: users[i].email == email
  }

  /** The account `create_user` saves: active, not an admin, not a superuser. */
  function PlainUser(id: UserId, email: string, username: string, today: Day): User
  {
    User(id, username, email, true, false, false, today)
  }

  class UserTable {
    /** The user table; an account's id is its index. */
    var users: seq<User>

    /** Ids follow the rows, usernames and emails are unique. */
    ghost predicate Valid()
      reads this
    {
      && (forall i | 0 <= i < |users| :: users[i].id == i)
      && (forall i, j | 0 <= i < j < |users| :: users[i].username != users[j].username)
      && (forall i, j | 0 <= i < j < |users| :: users[i].email != users[j].email)
    }

    constructor ()
      ensures Valid() && users == []
    {
      users := [];
    }

    /**
     * `create_user`: refuse an empty email, then an empty username, then
     * save a plain account (the database refuses a reused username or
     * email). The password is hashed by the framework and not kept here.
     */
    method CreateUser(email: string, username: string, password: string, today: Day) returns (r: Result<UserId, AccountError>)
      requires Valid()
      modifies this
      ensures Valid()
      ensures email == [] ==> r == Failure(MissingEmail)
      ensures email != [] && username == [] ==> r == Failure(MissingUsername)
      ensures email != [] && username != [] && (UsernameInUse(old(users), username) || EmailInUse(old(users), email))
              ==> r == Failure(DuplicateAccount)
      ensures r.Failure? ==> users == old(users)
      ensures r.Success? <==>
              email != [] && username != [] && !UsernameInUse(old(users), username) && !EmailInUse(old(users), email)
      ensures r.Success? ==>
              r.value == |old(users)| && users == old(users) + [PlainUser(|old(users)|, email, username, today)]
    {
      if email == [] {
        return Failure(MissingEmail);
      }
      if username == [] {
        return Failure(MissingUsername);
      }
      var user := PlainUser(|users|, email, username, today);
      if UsernameInUse(users, username) || EmailInUse(users, email) {
        return Failure(DuplicateAccount);
      }
      users := users + [user];
      r := Success(user.id);
    }

    /**
     * `create_superuser`: `create_user` saves a plain account, the admin
     * flag is set on the object in memory, and then the assignment to the
     * read-only `is_staff` property raises before the second save. So it
     * always fails, leaving behind at most a plain, non-admin account.
     */
    method CreateSuperuser(email: string, username: string, password: string, today: Day) returns (r: Result<UserId, AccountError>)
      requires Valid()
      modifies this
      ensures Valid()
      ensures r.Failure?
      ensures email == [] ==> r == Failure(MissingEmail) && users == old(users)
      ensures email != [] && username == [] ==> r == Failure(MissingUsername) && users == old(users)
      ensures email != [] && username != [] && (UsernameInUse(old(users), username) || EmailInUse(old(users), email))
              ==> r == Failure(DuplicateAccount)
      ensures r == Failure(StaffIsReadOnly) <==>
              email != [] && username != [] && !UsernameInUse(old(users), username) && !EmailInUse(old(users), email)
      ensures r == Failure(StaffIsReadOnly) ==>
              users == old(users) + [PlainUser(|old(users)|, email, username, today)]
      ensures r != Failure(StaffIsReadOnly) ==> users == old(users)
    {
      var created := CreateUser(email, username, password, today);
      if created.Failure? {
        return Failure(created.error);
      }
      var user := users[created.value];
      user := user.(isAdmin := true);
      // `user.is_staff = True`: no setter, so the view stops here unsaved
      r := Failure(StaffIsReadOnly);
    }

    /**
     * The registration form: passwords must match, then the username and
     * then the email must be free, and only then is `create_user` called.
     */
    method Register(email: string, username: string, password: string, confirmPassword: string, today: Day)
      returns (r: Result<UserId, AccountError>)
      requires Valid()
      modifies this
      ensures Valid()
      ensures password != confirmPassword ==> r == Failure(PasswordMismatch)
      ensures password == confirmPassword && UsernameInUse(old(users), username) ==> r == Failure(UsernameTaken)
      ensures password == confirmPassword && !UsernameInUse(old(users), username) && EmailInUse(old(users), email)
              ==> r == Failure(EmailTaken)
      ensures password == confirmPassword && !UsernameInUse(old(users), username) && !EmailInUse(old(users), email) ==>
              (email == [] ==> r == Failure(MissingEmail)) && (email != [] && username == [] ==> r == Failure(MissingUsername))
      ensures r.Failure? ==> users == old(users)
      ensures r.Success? <==>
              password == confirmPassword && email != [] && username != []
              && !UsernameInUse(old(users), username) && !EmailInUse(old(users), email)
      ensures r.Success? ==>
              r.value == |old(users)| && users == old(users) + [PlainUser(|old(users)|, email, username, today)]
    {
      if password != confirmPassword {
        return Failure(PasswordMismatch);
      }
      if UsernameInUse(users, username) {
        return Failure(UsernameTaken);
      }
      if EmailInUse(users, email) {
        return Failure(EmailTaken);
      }
      r := CreateUser(email, username, password, today);
    }
  }
}
