/** The `users` table as the core sees it: lookup by email (`queryUser`), the
    emails the admin token listing joins in, and the insert `createUser`
    performs. The database functions behind them are not part of this model;
    the table is a sequence of rows with a serial id counter. */
module Users {
  import opened Types

  /** `queryUser(email)`: the first row whose email equals `email`. */
  function FindUserByEmail(users: seq<User>, email: string): (r: Option<User>)
    ensures r.Some? ==> r.value in users && r.value.email == email
    ensures r.None? <==> forall i | 0 <= i < |users| :: users[i].email != email
  {
    if users == [] then None
    else if users[0].email == email then Some(users[0])
    else FindUserByEmail(users[1..], email)
  }

  /** The email a LEFT JOIN on `users.id = id` yields: missing when no row has that id. */
  function EmailOfUser(users: seq<User>, id: int): (r: Option<string>)
    ensures r.Some? ==> exists i | 0 <= i < |users| :: users[i].id == id && users[i].email == r.value
    ensures r.None? <==> forall i | 0 <= i < |users| :: users[i].id != id
  {
    if users == [] then None
    else if users[0].id == id then Some(users[0].email)
    else EmailOfUser(users[1..], id)
  }

  predicate UniqueEmails(users: seq<User>) {
    forall i, j | 0 <= i < j < |users| :: users[i].email != users[j].email
  }

  /** A user table holding ids below `nextId`, in increasing order, and no
      email twice (the table's unique constraint). */
  predicate WellFormedUsers(users: seq<User>, nextId: int) {
    && UniqueEmails(users)
    && (forall i, j | 0 <= i < j < |users| :: users[i].id < users[j].id)
    && (forall i | 0 <= i < |users| :: users[i].id < nextId)
  }

  /** The row `createUser(email, hash, role)` inserts, with the next serial
      id; both timestamps are the insertion time. */
  function NewUser(id: int, email: string, passwordHash: string, role: string, now: int): User {
    User(id, email, passwordHash, role, now, now)
  }

  /** Appending a row with a free email and the next id keeps the table well formed. */
  lemma InsertUserWellFormed(users: seq<User>, nextId: int, u: User)
    requires WellFormedUsers(users, nextId)
    requires FindUserByEmail(users, u.email).None?
    requires u.id == nextId
    ensures WellFormedUsers(users + [u], nextId + 1)
  {
    var r := users + [u];
    forall i, j | 0 <= i < j < |r| ensures r[i].email != r[j].email && r[i].id < r[j].id {
      if j == |users| {
        assert r[i] == users[i] && r[j] == u;
      } else {
        assert r[i] == users[i] && r[j] == users[j];
      }
    }
  }

  /** After appending a row with a free email, `queryUser` finds that row. */
  lemma {:induction false} FindAppendedUser(users: seq<User>, u: User)
    requires FindUserByEmail(users, u.email).None?
    ensures FindUserByEmail(users + [u], u.email) == Some(u)
  {
    if users == [] {
      assert users + [u] == [u];
    } else {
      assert (users + [u])[1..] == users[1..] + [u];
      FindAppendedUser(users[1..], u);
    }
  }

  class UserStore {
    var rows: seq<User>
    var nextId: int

    ghost predicate Valid()
      reads this
    {
      WellFormedUsers(rows, nextId)
    }

    constructor ()
      ensures Valid() && rows == [] && nextId == 1
    {
      rows := [];
      nextId := 1;
    }

    /** `createUser(email, hash, role)`: a new row with the next id. The
        caller has checked that the email is free. */
    method CreateUser(email: string, passwordHash: string, role: string, now: int) returns (u: User)
      requires Valid()
      requires FindUserByEmail(rows, email).None?
      modifies this
      ensures Valid()
      ensures u == NewUser(old(nextId), email, passwordHash, role, now)
      ensures rows == old(rows) + [u] && nextId == old(nextId) + 1
      ensures FindUserByEmail(rows, email) == Some(u)
    {
      u := NewUser(nextId, email, passwordHash, role, now);
      InsertUserWellFormed(rows, nextId, u);
      FindAppendedUser(rows, u);
      rows := rows + [u];
      nextId := nextId + 1;
    }
  }
}
