/** The user record (Models/User.cs) and the table of users that the identity
    store keeps (Data/ApplicationDbContext.cs). Both request handlers work on
    this table through the store's find/create/update/delete operations. */
module Identity {

  datatype Option<+T> = None | Some(value: T)

  /** One row of the users table. Timestamps are supplied by the caller as
      integers (ticks); the password hash is kept by the framework and is not
      part of this model. */
  datatype User = User(
    id: string,
    userName: string,
    email: string,
    registrationDate: int,
    lastLoginTime: int,
    isBlocked: bool)

  /** The users table, keyed by user id. */
  type Table = map<string, User>

  /** Every row is stored under its own id. */
  ghost predicate KeyedById(t: Table)
  {
    forall k | k in t :: t[k].id == k
  }

  /** The unique index on Email: no two rows share an email address. */
  ghost predicate EmailsUnique(t: Table)
  {
    forall a, b | a in t && b in t && t[a].email == t[b].email :: a == b
  }

  /** The invariant the database keeps for the table. */
  ghost predicate WellFormed(t: Table)
  {
    KeyedById(t) && EmailsUnique(t)
  }

  /** A freshly constructed user: both timestamps are the construction time
      and the account is not blocked. */
  function NewUser(id: string, now: int): (u: User)
    ensures u.id == id && !u.isBlocked
    ensures u.registrationDate == now && u.lastLoginTime == now
  {
    User(id, "", "", now, now, false)
  }

  /** FindByIdAsync: the row stored under the id, if any. */
  function FindById(t: Table, id: string): (r: Option<User>)
    ensures r.Some? <==> id in t
    ensures r.Some? ==> r.value == t[id]
  {
    if id in t then Some(t[id]) else None
  }

  /** FindByEmailAsync(...) != null: whether some row carries the email. */
  predicate EmailRegistered(t: Table, email: string)
  {
    exists k | k in t :: t[k].email == email
  }

  /** Whether inserting the row would break the primary key or the unique
      email index; the database refuses such an insert with an exception. */
  predicate InsertViolatesIndex(t: Table, u: User)
  {
    u.id in t || EmailRegistered(t, u.email)
  }

  /** Inserting a row the indexes accept keeps the table well formed and adds
      exactly that row. */
  lemma InsertKeepsWellFormed(t: Table, u: User)
    requires WellFormed(t)
    requires !InsertViolatesIndex(t, u)
    ensures WellFormed(t[u.id := u])
    ensures |t[u.id := u]| == |t| + 1
  {
  }

  /** Once a row is inserted under a fresh id, exactly its email joins the
      registered ones: a second registration with that email is refused by
      the duplicate-email check. */
  lemma {:induction false} EmailRegisteredAfterInsert(t: Table, u: User, email: string)
    requires u.id !in t
    ensures EmailRegistered(t[u.id := u], email) <==> email == u.email || EmailRegistered(t, email)
  {
    var t' := t[u.id := u];
    if EmailRegistered(t', email) {
      var k :| k in t' && t'[k].email == email;
      if k != u.id {
        assert k in t && t[k].email == email;
      }
    }
    if email == u.email {
      assert u.id in t' && t'[u.id].email == email;
    } else if EmailRegistered(t, email) {
      var k :| k in t && t[k].email == email;
      assert k in t' && t'[k].email == email;
    }
  }

  /** On a well-formed table the store refuses an insert exactly when it
      would overwrite a row or put a second row on an email. */
  lemma {:induction false} InsertViolatesIndexIff(t: Table, u: User)
    requires WellFormed(t)
    ensures InsertViolatesIndex(t, u) <==> !(WellFormed(t[u.id := u]) && |t[u.id := u]| == |t| + 1)
  {
    var t' := t[u.id := u];
    if u.id in t {
      assert t'.Keys == t.Keys;
    } else if EmailRegistered(t, u.email) {
      var k :| k in t && t[k].email == u.email;
      assert k in t' && u.id in t' && t'[k].email == t'[u.id].email && k != u.id;
    } else {
      InsertKeepsWellFormed(t, u);
    }
  }
}
