/** The read-only user endpoints: `GET /users` and `GET /users/<id>`. Neither
    discloses a password hash. */
module Users {
  import opened Seqs
  import opened Models
  import opened Http
  import Auth

  datatype UserProfile = UserProfile(id: Id, username: string, email: string, createdAt: Timestamp)

  datatype UserPayload =
    | UserList(users: seq<PublicUser>)
    | Profile(profile: UserProfile)

  /** GET /users: one public entry per row of `users`, in table order. */
  function ListUsers(st: Store): (r: Reply<UserPayload>)
    ensures r.status == OK && r.store == st && r.body.Payload? && r.body.data.UserList?
    ensures var us := r.body.data.users;
      && |us| == |st.users|
      && forall i :: 0 <= i < |us| ==>
           us[i].id == st.users[i].id && us[i].username == st.users[i].username && us[i].email == st.users[i].email
  {
    Reply(OK, Payload(UserList(seq(|st.users|, i requires 0 <= i < |st.users| => Public(st.users[i])))), st)
  }

  /** GET /users/<id>: 404 for an unknown id; otherwise that user's id,
      username, email and creation time. Nothing is written. */
  function GetUser(st: Store, id: Id): (r: Reply<UserPayload>)
    ensures r.store == st
    ensures UserById(st, id).None? <==> r.status == NOT_FOUND
    ensures UserById(st, id).None? ==> r == NotFound(st)
    ensures UserById(st, id).Some? ==>
      var u := UserById(st, id).value;
      && u in st.users
      && r.status == OK
      && r.body == Payload(Profile(UserProfile(id, u.username, u.email, u.createdAt)))
  {
    match UserById(st, id)
    case None => NotFound(st)
    case Some(u) => Reply(OK, Payload(Profile(UserProfile(u.id, u.username, u.email, u.createdAt))), st)
  }

  /** In a valid store every user appears in the list exactly once. */
  lemma ListUsersOnePerUser(st: Store, u: User)
    requires Valid(st) && u in st.users
    ensures var us := ListUsers(st).body.data.users;
      exists i :: 0 <= i < |us| && us[i] == Public(u) && forall j :: 0 <= j < |us| && j != i ==> us[j].id != u.id
  {
    var us := ListUsers(st).body.data.users;
    var i :| 0 <= i < |st.users| && st.users[i] == u;
    assert us[i] == Public(u);
    forall j | 0 <= j < |us| && j != i ensures us[j].id != u.id {
      if j < i {
        assert st.users[j].id < st.users[i].id;
      } else {
        assert st.users[i].id < st.users[j].id;
      }
    }
  }

  /** Two stores that differ only in password hashes. */
  predicate SameButPasswords(a: Store, b: Store) {
    && |a.users| == |b.users|
    && (forall i :: 0 <= i < |a.users| ==> a.users[i].(passwordHash := "") == b.users[i].(passwordHash := ""))
    && a.(users := []) == b.(users := [])
  }

  /** Neither user endpoint's reply depends on any password hash. */
  lemma RepliesIgnorePasswords(a: Store, b: Store, id: Id)
    requires SameButPasswords(a, b)
    ensures ListUsers(a).body == ListUsers(b).body
    ensures GetUser(a, id).status == GetUser(b, id).status
    ensures GetUser(a, id).body == GetUser(b, id).body
  {
    var la := ListUsers(a).body.data.users;
    var lb := ListUsers(b).body.data.users;
    forall i | 0 <= i < |la| ensures la[i] == lb[i] {
      assert a.users[i].(passwordHash := "").id == b.users[i].(passwordHash := "").id;
      assert a.users[i].(passwordHash := "").username == b.users[i].(passwordHash := "").username;
      assert a.users[i].(passwordHash := "").email == b.users[i].(passwordHash := "").email;
    }
    assert la == lb;
    SameIdsSameLookup(a.users, b.users, id);
  }

  lemma {:induction false} SameIdsSameLookup(a: seq<User>, b: seq<User>, id: Id)
    requires |a| == |b|
    requires forall i :: 0 <= i < |a| ==> a[i].(passwordHash := "") == b[i].(passwordHash := "")
    ensures Find(a, (u: User) => u.id == id).None? <==> Find(b, (u: User) => u.id == id).None?
    ensures Find(a, (u: User) => u.id == id).Some? ==>
      Find(a, (u: User) => u.id == id).value.(passwordHash := "") == Find(b, (u: User) => u.id == id).value.(passwordHash := "")
  {
    if |a| > 0 {
      assert a[0].id == a[0].(passwordHash := "").id;
      assert b[0].id == b[0].(passwordHash := "").id;
      SameIdsSameLookup(a[1..], b[1..], id);
    }
  }

  /** After a successful registration the new account is served under the
      id it was given, with the username and email sent. */
  lemma RegisterThenGetUser(st: Store, crypto: Auth.Crypto, req: Auth.Registration, now: Timestamp)
    requires Valid(st)
    requires Auth.Register(st, crypto, req, now).status == CREATED
    ensures var after := Auth.Register(st, crypto, req, now).store;
      GetUser(after, st.nextUserId) ==
        Reply(OK, Payload(Profile(UserProfile(st.nextUserId, req.username.v, req.email.v, now))), after)
  {
    var u := Auth.NewUser(st, crypto, req, now);
    FindAppended(st.users, u, (x: User) => x.id == st.nextUserId);
  }
}
