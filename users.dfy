/**
 * The user store as the upload handler relies on it, after the model in
 * models/User.js: an email is stored as `trim().toLowerCase()` of what was
 * given, and no two stored users share an email; creating one whose
 * normalised email is already stored raises the unique-constraint error.
 */
module Users {
  import opened Wrappers
  import opened Strings

  datatype StoredUser = StoredUser(name: string, email: string)

  /** How `User.create` ends: a new row, `SequelizeUniqueConstraintError`, or any other error with its message. */
  datatype CreateOutcome = Created | UniqueConstraintError | OtherError(message: string)

  /** What an insert reports, with the stored rows after it. */
  datatype Insertion = Insertion(outcome: CreateOutcome, users: seq<StoredUser>)

  /** The email setter of the model: trim, then lower-case. Its result is
      its own normal form. */
  function NormalizeEmail(e: string): (r: string)
    ensures Trim(r) == r && ToLower(r) == r
  {
    TrimLower(e)
  }

  lemma NormalizeIdempotent(e: string)
    ensures NormalizeEmail(NormalizeEmail(e)) == NormalizeEmail(e)
  {
  }

  /** Two emails that differ only in the case of their letters are stored the same. */
  lemma SameUpToCase(a: string, b: string)
    requires ToLower(a) == ToLower(b)
    ensures NormalizeEmail(a) == NormalizeEmail(b)
  {
    ToLowerTrim(a);
    ToLowerTrim(b);
  }

  /** The stored emails. */
  function Emails(users: seq<StoredUser>): set<string>
    decreases |users|
  {
    if users == [] then {} else Emails(users[..|users| - 1]) + {users[|users| - 1].email}
  }

  /** The unique index on `email`: each row's email differs from those of the rows before it. */
  predicate UniqueEmails(users: seq<StoredUser>)
    decreases |users|
  {
    users == [] ||
    (UniqueEmails(users[..|users| - 1]) && users[|users| - 1].email !in Emails(users[..|users| - 1]))
  }

  /** Every stored email went through the setter. */
  predicate Normalized(users: seq<StoredUser>)
    decreases |users|
  {
    users == [] ||
    (Normalized(users[..|users| - 1]) && NormalizeEmail(users[|users| - 1].email) == users[|users| - 1].email)
  }

  lemma {:induction false} EmailsHas(users: seq<StoredUser>, k: nat)
    requires k < |users|
    ensures users[k].email in Emails(users)
    decreases |users|
  {
    if k < |users| - 1 {
      var front := users[..|users| - 1];
      assert front[k] == users[k];
      EmailsHas(front, k);
    }
  }

  /** Each stored email is in normal form. */
  lemma {:induction false} NormalizedAt(users: seq<StoredUser>, k: nat)
    requires Normalized(users)
    requires k < |users|
    ensures NormalizeEmail(users[k].email) == users[k].email
    decreases |users|
  {
    if k < |users| - 1 {
      var front := users[..|users| - 1];
      assert front[k] == users[k];
      NormalizedAt(front, k);
    }
  }

  /** No two rows share an email. */
  lemma {:induction false} UniqueEmailsDistinct(users: seq<StoredUser>, i: nat, j: nat)
    requires UniqueEmails(users)
    requires i < j < |users|
    ensures users[i].email != users[j].email
    decreases |users|
  {
    var front := users[..|users| - 1];
    if j == |users| - 1 {
      assert front[i] == users[i];
      EmailsHas(front, i);
    } else {
      UniqueEmailsDistinct(front, i, j);
      assert front[i] == users[i] && front[j] == users[j];
    }
  }

  /** `User.create({ name, email })` against the stored rows `users`. `fault`
      is a failure other than the unique index that the insert meets (the
      model's `isEmail` validation, a database error), supplied by the
      environment; it wins over the unique check, as validation runs before
      the insert. */
  function Insert(users: seq<StoredUser>, name: string, email: string, fault: Option<string>): (r: Insertion)
    ensures r.outcome == Created <==> fault == None && NormalizeEmail(email) !in Emails(users)
    ensures r.outcome == UniqueConstraintError <==> fault == None && NormalizeEmail(email) in Emails(users)
    ensures fault.Some? ==> r.outcome == OtherError(fault.value)
    ensures r.users == if r.outcome == Created then users + [StoredUser(name, NormalizeEmail(email))] else users
    ensures fault == None ==> Emails(r.users) == Emails(users) + {NormalizeEmail(email)}
  {
    var e := NormalizeEmail(email);
    if fault.Some? then Insertion(OtherError(fault.value), users)
    else if e in Emails(users) then Insertion(UniqueConstraintError, users)
    else
      var after := users + [StoredUser(name, e)];
      assert after[..|after| - 1] == users;
      Insertion(Created, after)
  }

  /** An insert keeps the unique index and the normal form of the stored emails. */
  lemma InsertKeepsIndex(users: seq<StoredUser>, name: string, email: string, fault: Option<string>)
    requires UniqueEmails(users) && Normalized(users)
    ensures var after := Insert(users, name, email, fault).users;
      UniqueEmails(after) && Normalized(after)
  {
    var after := Insert(users, name, email, fault).users;
    if after != users {
      assert after[..|after| - 1] == users;
    }
  }

  /** The repository handle the import uses: the stored rows of the users table. */
  class UserRepository {
    var users: seq<StoredUser>

    ghost predicate Valid()
      reads this
    {
      UniqueEmails(users) && Normalized(users)
    }

    constructor (initial: seq<StoredUser>)
      requires UniqueEmails(initial) && Normalized(initial)
      ensures Valid() && users == initial
    {
      users := initial;
    }

    /** `User.create`: stores the user when no fault occurs and the normalised
        email is new, and reports which of the three outcomes happened. */
    method Create(name: string, email: string, fault: Option<string>) returns (outcome: CreateOutcome)
      requires Valid()
      modifies this
      ensures Valid()
      ensures Insertion(outcome, users) == Insert(old(users), name, email, fault)
    {
      var e := NormalizeEmail(email);
      ghost var expected := Insert(users, name, email, fault);
      InsertKeepsIndex(users, name, email, fault);
      if fault.Some? {
        outcome := OtherError(fault.value);
      } else if e in Emails(users) {
        outcome := UniqueConstraintError;
      } else {
        outcome := Created;
        users := users + [StoredUser(name, e)];
      }
      assert Insertion(outcome, users) == expected;
    }
  }
}
