/** `GET /api/admin/users`: list every user without the password hash. */
module AdminUsersRoute {
  import opened Types
  import opened Http
  import opened AdminAuth

  /** The projection the handler maps over the rows. */
  function WithoutHash(u: User): UserWithMeta {
    UserWithMeta(u.id, u.email, u.role, u.createdAt, u.updatedAt)
  }

  /** `all` is what `getAllUsers` returns. */
  function ListUsers(h: Headers, all: seq<User>): (r: Response)
    ensures RequireAdmin(h).Some? ==> r == RequireAdmin(h).value
    ensures RequireAdmin(h).None? ==> r.status == 200 && r.body.UserList? && |r.body.users| == |all|
    ensures RequireAdmin(h).None? ==> forall i | 0 <= i < |all| ::
      && r.body.users[i].id == all[i].id
      && r.body.users[i].email == all[i].email
      && r.body.users[i].role == all[i].role
      && r.body.users[i].createdAt == all[i].createdAt
      && r.body.users[i].updatedAt == all[i].updatedAt
  {
    match RequireAdmin(h)
    case Some(denied) => denied
    case None => Response(200, UserList(seq(|all|, i requires 0 <= i < |all| => WithoutHash(all[i]))))
  }

  /** Two user tables that differ at most in their password hashes. */
  predicate SameButHashes(a: seq<User>, b: seq<User>) {
    |a| == |b| && forall i | 0 <= i < |a| :: a[i].(passwordHash := "") == b[i].(passwordHash := "")
  }

  /** No hash reaches the response: changing every hash changes nothing in it.
      A refused request does not depend on the table at all. */
  lemma HashesNeverListed(h: Headers, a: seq<User>, b: seq<User>)
    requires SameButHashes(a, b) || RequireAdmin(h).Some?
    ensures ListUsers(h, a) == ListUsers(h, b)
  {
    if RequireAdmin(h).None? {
      var ra, rb := ListUsers(h, a).body.users, ListUsers(h, b).body.users;
      forall i | 0 <= i < |a| ensures ra[i] == rb[i] {
        assert a[i].(passwordHash := "").email == b[i].(passwordHash := "").email;
      }
      assert ra == rb;
    }
  }
}
