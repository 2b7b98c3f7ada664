/** The three tables of the database (`users`, `groups`, `messages`) and the
    `user_groups` junction table, as an immutable store, together with the
    constraints the schema declares on them. */
module Models {
  import opened Seqs

  /** Primary keys are integer columns; the database hands out 1, 2, 3, ... */
  type Id = int

  /** A point in time; the clock itself is an input to every operation. */
  type Timestamp = nat

  datatype User = User(
    id: Id,
    username: string,
    email: string,
    passwordHash: string,
    createdAt: Timestamp)

  /** `description` is a nullable text column. */
  datatype Group = Group(
    id: Id,
    name: string,
    description: Option<string>,
    createdAt: Timestamp)

  datatype Message = Message(
    id: Id,
    senderId: Id,
    recipientId: Id,
    content: string,
    timestamp: Timestamp,
    isRead: bool)

  /** The part of a user every endpoint may disclose: never the password hash. */
  datatype PublicUser = PublicUser(id: Id, username: string, email: string)

  /** Each table in insertion order, the membership relation as a set of
      (user id, group id) pairs (its primary key), and the next id each
      table will allocate. */
  datatype Store = Store(
    users: seq<User>,
    groups: seq<Group>,
    memberships: set<(Id, Id)>,
    messages: seq<Message>,
    nextUserId: Id,
    nextGroupId: Id,
    nextMessageId: Id)

  function Public(u: User): PublicUser {
    PublicUser(u.id, u.username, u.email)
  }

  const EmptyStore := Store([], [], {}, [], 1, 1, 1)

  // Lookups, one per query the handlers issue.

  function UserById(st: Store, id: Id): Option<User> {
    Find(st.users, (u: User) => u.id == id)
  }

  function UserByEmail(st: Store, email: string): Option<User> {
    Find(st.users, (u: User) => u.email == email)
  }

  function UserByName(st: Store, username: string): Option<User> {
    Find(st.users, (u: User) => u.username == username)
  }

  function GroupById(st: Store, id: Id): Option<Group> {
    Find(st.groups, (g: Group) => g.id == id)
  }

  function MessageById(st: Store, id: Id): Option<Message> {
    Find(st.messages, (m: Message) => m.id == id)
  }

  // Store invariants.

  /** Keys are positive, strictly increasing in table order (hence distinct),
      and below the next key the table will allocate. */
  predicate KeysAllocated<T>(s: seq<T>, key: T -> Id, next: Id) {
    && next >= 1
    && (forall i :: 0 <= i < |s| ==> 1 <= key(s[i]) < next)
    && (forall i, j :: 0 <= i < j < |s| ==> key(s[i]) < key(s[j]))
  }

  /** `username` and `email` are both unique columns. */
  predicate UniqueAccounts(users: seq<User>) {
    forall i, j :: 0 <= i < j < |users| ==>
      users[i].username != users[j].username && users[i].email != users[j].email
  }

  /** Both columns of `user_groups` are foreign keys. */
  predicate MembershipsReferenced(st: Store) {
    forall p :: p in st.memberships ==> UserById(st, p.0).Some? && GroupById(st, p.1).Some?
  }

  /** A message's sender and recipient are foreign keys into `users`. */
  predicate MessagesReferenced(st: Store) {
    forall m :: m in st.messages ==>
      UserById(st, m.senderId).Some? && UserById(st, m.recipientId).Some?
  }

  predicate Valid(st: Store) {
    && KeysAllocated(st.users, (u: User) => u.id, st.nextUserId)
    && KeysAllocated(st.groups, (g: Group) => g.id, st.nextGroupId)
    && KeysAllocated(st.messages, (m: Message) => m.id, st.nextMessageId)
    && UniqueAccounts(st.users)
    && MembershipsReferenced(st)
    && MessagesReferenced(st)
  }

  lemma EmptyStoreValid()
    ensures Valid(EmptyStore)
  {
  }

  /** In a valid store a user is found by id exactly when it is in the table. */
  lemma UserByIdExact(st: Store, u: User)
    requires Valid(st)
    requires u in st.users
    ensures UserById(st, u.id) == Some(u)
  {
    var r := UserById(st, u.id);
    assert r.Some?;
    var i :| 0 <= i < |st.users| && st.users[i] == r.value && st.users[i].id == u.id;
    var j :| 0 <= j < |st.users| && st.users[j] == u;
    assert !(i < j) && !(j < i);
  }

  /** Uniqueness of emails makes the login query's `.first()` the one user with that email. */
  lemma UserByEmailExact(st: Store, u: User)
    requires Valid(st)
    requires u in st.users
    ensures UserByEmail(st, u.email) == Some(u)
  {
    var r := UserByEmail(st, u.email);
    assert r.Some?;
    var i :| 0 <= i < |st.users| && st.users[i] == r.value && st.users[i].email == u.email;
    var j :| 0 <= j < |st.users| && st.users[j] == u;
    assert !(i < j) && !(j < i);
  }

  /** Dropping rows from a table keeps its keys allocated. */
  lemma {:induction false} FilterKeysAllocated<T(!new)>(s: seq<T>, p: T -> bool, key: T -> Id, next: Id)
    requires KeysAllocated(s, key, next)
    ensures KeysAllocated(Filter(s, p), key, next)
  {
    if |s| > 0 {
      FilterKeysAllocated(s[1..], p, key, next);
      var t := Filter(s[1..], p);
      HeadBelowRest(s, p, key, next);
      if p(s[0]) {
        assert Filter(s, p) == [s[0]] + t by {
          assert s == [s[0]] + s[1..];
        }
        PrependKey(s[0], t, key, next);
      } else {
        assert Filter(s, p) == t by {
          assert s == [s[0]] + s[1..];
        }
      }
    }
  }

  /** The tail of a table keeps its keys allocated, and all of them lie above the head's. */
  lemma KeysAllocatedTail<T>(s: seq<T>, key: T -> Id, next: Id)
    requires |s| > 0 && KeysAllocated(s, key, next)
    ensures KeysAllocated(s[1..], key, next)
    ensures forall x :: x in s[1..] ==> key(s[0]) < key(x)
  {
    forall x | x in s[1..] ensures key(s[0]) < key(x) {
      var k :| 0 <= k < |s[1..]| && s[1..][k] == x;
      assert s[k + 1] == x;
    }
  }

  lemma HeadBelowRest<T(!new)>(s: seq<T>, p: T -> bool, key: T -> Id, next: Id)
    requires |s| > 0 && KeysAllocated(s, key, next)
    ensures forall k :: 0 <= k < |Filter(s[1..], p)| ==> key(s[0]) < key(Filter(s[1..], p)[k])
  {
    var t := Filter(s[1..], p);
    forall k | 0 <= k < |t| ensures key(s[0]) < key(t[k]) {
      FilterMembership(s[1..], p, t[k]);
      var i :| 0 <= i < |s[1..]| && s[1..][i] == t[k];
      assert s[i + 1] == t[k];
    }
  }

  lemma PrependKey<T>(x: T, t: seq<T>, key: T -> Id, next: Id)
    requires KeysAllocated(t, key, next) && 1 <= key(x) < next
    requires forall k :: 0 <= k < |t| ==> key(x) < key(t[k])
    ensures KeysAllocated([x] + t, key, next)
  {
    var r := [x] + t;
    forall i, j | 0 <= i < j < |r| ensures key(r[i]) < key(r[j]) {
      assert r[j] == t[j - 1];
      if i > 0 {
        assert r[i] == t[i - 1];
      }
    }
  }

  /** Appending a row under the table's next key keeps its keys allocated. */
  lemma AppendKeysAllocated<T>(s: seq<T>, x: T, key: T -> Id, next: Id)
    requires KeysAllocated(s, key, next) && key(x) == next
    ensures KeysAllocated(s + [x], key, next + 1)
  {
    var r := s + [x];
    forall i, j | 0 <= i < j < |r| ensures key(r[i]) < key(r[j]) {
      assert r[i] == s[i];
    }
  }
}
