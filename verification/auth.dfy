/** The two unauthenticated endpoints: `POST /login` and `POST /register`.
    Password hashing and token issuance are library calls; they enter the
    model as the `Crypto` parameter and the `Token` record. */
module Auth {
  import opened Seqs
  import opened Models
  import opened Http

  /** bcrypt as a pair of functions: `hash` is `generate_password_hash` (its
      random salt fixed per call site) and `check` is `check_password_hash`. */
  datatype Crypto = Crypto(hash: string -> string, check: (string, string) -> bool)

  /** An access token; the handlers only ever read its identity claim. */
  datatype Token = AccessToken(identity: Id)

  datatype Credentials = Credentials(email: Field<string>, password: Field<string>)

  datatype Registration = Registration(username: Field<string>, email: Field<string>, password: Field<string>)

  datatype AuthPayload =
    | LoggedIn(token: Token, user: PublicUser)
    | Registered(message: string, user: PublicUser)

  const MISSING_CREDENTIALS := "Missing email or password"
  const INVALID_CREDENTIALS := "Invalid credentials"
  const INCOMPLETE_REGISTRATION := "Missing required fields"
  const EMAIL_TAKEN := "Email already exists"
  const USERNAME_TAKEN := "Username already exists"
  const USER_CREATED := "User created successfully"

  predicate CredentialsGiven(req: Credentials) {
    TruthyText(req.email) && TruthyText(req.password)
  }

  /** The password check passes for the account registered under `email`. */
  predicate Authentic(st: Store, crypto: Crypto, req: Credentials)
    requires CredentialsGiven(req)
  {
    var found := UserByEmail(st, req.email.v);
    found.Some? && crypto.check(found.value.passwordHash, req.password.v)
  }

  /** POST /login: 400 for missing fields; one and the same 401 whether the
      email is unknown or the password is wrong; otherwise a token for the
      matched account. Nothing is written. */
  function Login(st: Store, crypto: Crypto, req: Credentials): (r: Reply<AuthPayload>)
    ensures r.store == st
    ensures r.status == BAD_REQUEST <==> !CredentialsGiven(req)
    ensures r.status == BAD_REQUEST ==> r.body == Note(MISSING_CREDENTIALS)
    ensures r.status == UNAUTHORIZED <==> CredentialsGiven(req) && !Authentic(st, crypto, req)
    ensures r.status == UNAUTHORIZED ==> r.body == Note(INVALID_CREDENTIALS)
    ensures r.status == OK <==> CredentialsGiven(req) && Authentic(st, crypto, req)
    ensures r.status == OK ==>
      exists u :: u in st.users && u.email == req.email.v && crypto.check(u.passwordHash, req.password.v)
        && r.body == Payload(LoggedIn(AccessToken(u.id), Public(u)))
  {
    if !CredentialsGiven(req) then
      Reply(BAD_REQUEST, Note(MISSING_CREDENTIALS), st)
    else
      match UserByEmail(st, req.email.v)
      case Some(u) =>
        if crypto.check(u.passwordHash, req.password.v) then
          Reply(OK, Payload(LoggedIn(AccessToken(u.id), Public(u))), st)
        else
          Reply(UNAUTHORIZED, Note(INVALID_CREDENTIALS), st)
      case None =>
        Reply(UNAUTHORIZED, Note(INVALID_CREDENTIALS), st)
  }

  /** An unknown email and a wrong password for a known one get identical replies. */
  lemma LoginFailuresIndistinguishable(st: Store, crypto: Crypto, unknown: Credentials, wrong: Credentials)
    requires CredentialsGiven(unknown) && UserByEmail(st, unknown.email.v).None?
    requires CredentialsGiven(wrong) && UserByEmail(st, wrong.email.v).Some?
    requires !crypto.check(UserByEmail(st, wrong.email.v).value.passwordHash, wrong.password.v)
    ensures Login(st, crypto, unknown) == Login(st, crypto, wrong) == Reply(UNAUTHORIZED, Note(INVALID_CREDENTIALS), st)
  {
  }

  /** A token is only ever issued for a registered user: the identity in it
      names a row of `users`, in a valid store the very row logged into. */
  lemma LoginIdentityIsUser(st: Store, crypto: Crypto, req: Credentials)
    requires Login(st, crypto, req).status == OK
    ensures var r := Login(st, crypto, req);
            && r.body.Payload? && r.body.data.LoggedIn?
            && UserById(st, r.body.data.token.identity).Some?
            && (Valid(st) ==> UserById(st, r.body.data.token.identity).value.email == req.email.v)
  {
  }

  predicate RegistrationGiven(req: Registration) {
    TruthyText(req.username) && TruthyText(req.email) && TruthyText(req.password)
  }

  /** The row a successful registration inserts. */
  function NewUser(st: Store, crypto: Crypto, req: Registration, now: Timestamp): User
    requires RegistrationGiven(req)
  {
    User(st.nextUserId, req.username.v, req.email.v, crypto.hash(req.password.v), now)
  }

  /** POST /register. Checks run in order: missing fields, taken email, taken
      username; only a request passing all three inserts a user, whose stored
      hash is the hash of the given password and whose reply omits it. */
  function Register(st: Store, crypto: Crypto, req: Registration, now: Timestamp): (r: Reply<AuthPayload>)
    ensures r.status == BAD_REQUEST || r.status == CREATED
    ensures r.status == BAD_REQUEST ==> r.store == st
    ensures r.body == Note(INCOMPLETE_REGISTRATION) <==> !RegistrationGiven(req)
    ensures r.body == Note(EMAIL_TAKEN) <==> RegistrationGiven(req) && UserByEmail(st, req.email.v).Some?
    ensures r.body == Note(USERNAME_TAKEN) <==>
      RegistrationGiven(req) && UserByEmail(st, req.email.v).None? && UserByName(st, req.username.v).Some?
    ensures r.status == CREATED <==>
      RegistrationGiven(req) && UserByEmail(st, req.email.v).None? && UserByName(st, req.username.v).None?
    ensures r.status == CREATED ==>
      var u := NewUser(st, crypto, req, now);
      && u.username == req.username.v && u.email == req.email.v
      && u.passwordHash == crypto.hash(req.password.v)
      && r.store == st.(users := st.users + [u], nextUserId := st.nextUserId + 1)
      && r.body == Payload(Registered(USER_CREATED, PublicUser(st.nextUserId, req.username.v, req.email.v)))
  {
    if !RegistrationGiven(req) then
      Reply(BAD_REQUEST, Note(INCOMPLETE_REGISTRATION), st)
    else if UserByEmail(st, req.email.v).Some? then
      Reply(BAD_REQUEST, Note(EMAIL_TAKEN), st)
    else if UserByName(st, req.username.v).Some? then
      Reply(BAD_REQUEST, Note(USERNAME_TAKEN), st)
    else
      var u := NewUser(st, crypto, req, now);
      Reply(CREATED, Payload(Registered(USER_CREATED, Public(u))),
            st.(users := st.users + [u], nextUserId := st.nextUserId + 1))
  }

  /** Every lookup that succeeded before a registration still succeeds after it. */
  lemma RegisterKeepsUsers(st: Store, u: User)
    ensures forall id :: UserById(st, id).Some? ==> UserById(st.(users := st.users + [u]), id) == UserById(st, id)
  {
    forall id | UserById(st, id).Some?
      ensures UserById(st.(users := st.users + [u]), id) == UserById(st, id)
    {
      FindExtends(st.users, u, (x: User) => x.id == id);
    }
  }

  /** Registration keeps the store valid; in particular usernames and emails
      stay unique. */
  lemma RegisterPreservesValid(st: Store, crypto: Crypto, req: Registration, now: Timestamp)
    requires Valid(st)
    ensures Valid(Register(st, crypto, req, now).store)
  {
    var r := Register(st, crypto, req, now);
    if r.status == CREATED {
      var u := NewUser(st, crypto, req, now);
      AppendKeysAllocated(st.users, u, (x: User) => x.id, st.nextUserId);
      RegisterKeepsUsers(st, u);
      var users := st.users + [u];
      forall i, j | 0 <= i < j < |users|
        ensures users[i].username != users[j].username && users[i].email != users[j].email
      {
        if j == |users| - 1 {
          assert users[i] == st.users[i];
        } else {
          assert users[i] == st.users[i] && users[j] == st.users[j];
        }
      }
    }
  }

  /** With a sound password check, logging in with the credentials just
      registered yields a token for the new account. */
  lemma RegisterThenLogin(st: Store, crypto: Crypto, req: Registration, now: Timestamp)
    requires Register(st, crypto, req, now).status == CREATED
    requires crypto.check(crypto.hash(req.password.v), req.password.v)
    ensures var after := Register(st, crypto, req, now).store;
      Login(after, crypto, Credentials(req.email, req.password)) ==
        Reply(OK, Payload(LoggedIn(AccessToken(st.nextUserId),
                                   PublicUser(st.nextUserId, req.username.v, req.email.v))), after)
  {
    var u := NewUser(st, crypto, req, now);
    FindAppended(st.users, u, (x: User) => x.email == req.email.v);
  }
}
