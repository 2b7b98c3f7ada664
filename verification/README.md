# MessageMe REST backend, modelled in Dafny

MessageMe is a chat application: a Flask REST server over a SQL database of
users, groups, group memberships and direct messages, and a React client. This
project models the server's request handlers as pure functions. Each handler
takes the store, the caller's identity (for protected routes) and the request,
and returns a `Reply(status, body, store)`. The store holds the `users`,
`groups` and `messages` tables in insertion order. It also holds the
`user_groups` junction table as a set of (user id, group id) pairs, plus the
next id each table will allocate.

Modules, one per source file or shared concept:

- `Seqs` (`seqs.dfy`): `Option`, plus `Find` and `Filter`, which stand in for `query.get` / `filter(...).first()` and `filter(...).all()`.
- `Models` (`models.dfy`): the records of `server/models.py` and the store invariant `Valid`. `Valid` covers positive, increasing, allocated primary keys, unique usernames and emails, and foreign keys for memberships and messages.
- `Http` (`http.dfy`): JSON fields with Python truthiness (`Field`, `TruthyText`, `TruthyNumber`), status codes, and `Reply`.
- `Chronology` (`chronology.dfy`): timestamp order and the sort used by the two message queries.
- `Messages`, `Auth`, `Groups`, `Users`: the handlers of `server/resources/*.py`, with their properties.

## Model

| member | source | states |
|---|---|---|
| Models.EmptyStoreValid | server/models.py:13-17 | the empty database satisfies every store invariant, so the invariant holds before any request |
| Models.UserByIdExact | server/models.py:15 | in a valid store, looking a user up by primary key returns exactly that user |
| Models.UserByEmailExact | server/models.py:17 | because emails are unique, the login query's `.first()` by email returns the one user with that email |
| Seqs.Find | server/resources/auth.py:16 | `filter_by(...).first()`: `None` iff no row satisfies the filter; otherwise a row that does, with no earlier row satisfying it |
| Chronology.SortByTime | server/resources/message.py:14 | the ordered result is a permutation of the selected rows (same multiset) and is non-strictly ordered by timestamp in the requested direction |
| Messages.InboxOrder | server/resources/message.py:12-14 | the inbox query selects a message iff the caller is its sender or recipient; it keeps each selected row exactly as often as the table does, newest first |
| Messages.ListMessages | server/resources/message.py:8-28 | when the caller's own rows reference existing users: 200 and the store unchanged; one entry per message involving the caller, and every such message has an entry; entries are newest first; `is_mine` holds iff the caller is the sender; usernames come from the referenced user rows |
| Messages.ValidServesInbox | server/models.py:35-45 | in a valid store, where both message columns are foreign keys into `users`, every user's inbox can be rendered |
| Messages.Send | server/resources/message.py:32-67 | missing or falsy `recipient_id`/`content` gives 400 whatever the store holds; otherwise an unknown recipient gives 404, then a self-message gives 400; every error leaves the store unchanged; 201 appends exactly one unread message from the caller, stamped now, under the next id, and echoes it |
| Messages.ConversationOrder | server/resources/message.py:81-84 | the conversation query selects a message iff it went from u to o or from o to u; oldest first, each row kept exactly as often as in the table |
| Messages.GetConversation | server/resources/message.py:72-98 | an unknown other user gives 404 "User not found" with no messages; otherwise 200 names the other user, has one entry per message exchanged in either direction, is oldest first, and sets `is_mine` iff the caller sent it; the store is unchanged |
| Messages.Delete | server/resources/message.py:102-114 | an unknown id gives the 404 page; a caller who is not the sender gets 403 and the store is unchanged; otherwise 200, only the messages table changes, and a message survives iff it was there and has another id |
| Messages.ConversationSymmetric | server/resources/message.py:81-90 | the two message lists of the conversations (u, o) and (o, u) hold the same rows (as multisets); their entries agree once `is_mine` is set aside; each reply names the other party |
| Messages.ConversationWithinInboxes | server/resources/message.py:12-14 | every message of a conversation appears in both participants' inboxes |
| Messages.SendPreservesValid | server/models.py:35-42 | a send by a registered user keeps the store valid: the new id belongs to no existing message, and sender and recipient still reference users |
| Messages.SendReachesBothParties | server/resources/message.py:49-55 | after a successful send, the new message is in the sender's inbox, the recipient's inbox and their conversation; every other user's inbox is unchanged |
| Messages.SendThenDelete | server/resources/message.py:105-114 | when the sender deletes a message they just sent, the 200 reply leaves the store exactly as before the send, except that the id counter has moved on |
| Messages.DeleteRemovesOne | server/resources/message.py:111-112 | in a valid store, a successful delete removes exactly one row and keeps the store valid |
| Auth.Login | server/resources/auth.py:10-29 | a missing or falsy email or password gives 400; an unknown email and a failed password check both give 401 "Invalid credentials"; otherwise 200 with a token whose identity is the matched user's id and that user's public fields; the store is never changed |
| Auth.LoginFailuresIndistinguishable | server/resources/auth.py:16-29 | an unknown email and a wrong password for a known email receive identical replies |
| Auth.LoginIdentityIsUser | server/resources/auth.py:18-19 | the identity in an issued token names an existing user; in a valid store, that user is the one with the email given |
| Auth.Register | server/resources/auth.py:31-65 | a missing username, email or password gives 400 "Missing required fields"; a taken email gives 400 "Email already exists" before the username is looked at; a taken username gives 400 "Username already exists"; every error leaves the store unchanged; 201 appends exactly one user whose stored hash is the hash of the password, and the reply exposes only id, username and email |
| Auth.RegisterPreservesValid | server/models.py:16-17 | registration keeps the store valid; in particular usernames and emails remain pairwise unique |
| Auth.RegisterThenLogin | server/resources/auth.py:46-56 | when the password check accepts the hash of the password, logging in with the credentials just registered returns a token for the new user's id |
| Groups.ListGroups | server/resources/group.py:8-19 | 200, one entry per group in table order, carrying the group's id, name, description, creation time and the length of its member list |
| Groups.ListGroupsCountsMembers | server/resources/group.py:10-18 | in a valid store, every listed `member_count` equals the number of users the junction table pairs with that group |
| Groups.MemberCountIsMembershipSize | server/resources/group.py:16 | in a valid store, a group's loaded member list has as many users as the junction table has pairs for it |
| Groups.MembersDistinct | server/models.py:7-11 | no user appears twice in a group's member list |
| Groups.CreateGroup | server/resources/group.py:22-44 | a missing or falsy name gives 400 "Group name required" and writes nothing; otherwise 201 appends exactly one group with that name; a missing description is stored as the empty string and an explicit null as NULL; memberships are untouched, so the creator is not enrolled |
| Groups.CreateGroupPreservesValid | server/models.py:21-26 | group creation keeps the store valid |
| Groups.CreateThenGet | server/resources/group.py:29-35 | a newly created group is found under its new id with the name sent, the empty-string description when none was sent, zero members and an empty member list |
| Groups.GetGroup | server/resources/group.py:49-63 | an unknown id gives the 404 page; otherwise 200 with the group's fields and its members' ids and usernames, where `member_count` equals the length of the returned members list; the store is unchanged |
| Users.ListUsers | server/resources/user.py:8-17 | 200 and the store unchanged; exactly one entry per user row, in table order, with that row's id, username and email |
| Users.ListUsersOnePerUser | server/resources/user.py:10-16 | in a valid store, every user's public record appears at exactly one position, and no other entry carries that user's id |
| Users.RepliesIgnorePasswords | server/resources/user.py:12-30 | two stores that differ only in password hashes produce identical user-list and user-lookup replies, so no hash is disclosed |
| Users.GetUser | server/resources/user.py:22-30 | an unknown id gives the 404 page; otherwise 200 with that user's id, username, email and creation time; the store is unchanged |
| Users.RegisterThenGetUser | server/resources/user.py:24-30 | after a successful registration, the new user is served under its new id with the username, email and creation time given at registration |

## Left out

- The React client (`client/src/pages/*.jsx`, `client/src/App.jsx`) and its fetch plumbing (`client/src/services/api.js`): these are presentation and transport code, not server logic.
- `client/src/services/socket.js`: it only configures socket.io-client; the server files contain no socket handlers.
- Group join and leave endpoints: the client calls `/groups/<id>/members`, but no server handler for it exists. Memberships are therefore only ever read here.
- `server/app.py` (Flask, CORS, JWT wiring and the hello-world route): it is configuration, not handler logic.
- `jwt_required` rejection of a missing or invalid token: the model takes the caller's identity as an input. It also assumes the token identity and request ids compare as plain integers.
- bcrypt: `generate_password_hash` and `check_password_hash` are the two function fields of `Crypto`. The random salt is treated as fixed for each call.
- JWT creation: a token is the record `AccessToken(identity)`. Signing and expiry are not modelled.
- The clock: `datetime.utcnow` is the `now: nat` argument. `isoformat` serialisation is not modelled, and timestamps are compared as numbers.
- The `joined_at` column of `user_groups`: no handler reads it.
- Column length limits (`String(80)`, `String(120)`, `String(200)`, `String(100)`): they are not checked by the handlers.
- Id allocation: each table's next id is a counter that never reuses an id. The database's own allocation policy is not part of the source.
- The text of the framework's 404 page for `get_or_404`: it is the body `NotFoundPage`.
- JSON values of the wrong type (for example a string `recipient_id`), and request bodies that are not JSON objects: each field is typed. A JSON `null` or `{}` body reads as every key missing. What `request.get_json()` does for a missing or non-JSON body depends on the Flask version, so it is not modelled.
- Commit failures and races between a uniqueness check and the insert: the handlers run one at a time here.
- Messages.ListMessages: requires that every message the caller sent or received references existing users (`InboxReferenced`). The source fails with a server error when one of those rows has a dangling sender or recipient, which is not modelled. Rows between two other users are not constrained (`Messages.DanglingElsewhereServesInbox`). `Valid` implies the requirement for every caller (`Messages.ValidServesInbox`), and every writing handler preserves `Valid`.
- Messages.SendPreservesValid: assumes the caller is a registered user. Tokens are only issued for existing users (`Auth.LoginIdentityIsUser`), and no handler deletes users.
- Chronology.SortByTime: among messages with equal timestamps, the database's order is unspecified. The model's sort picks one admissible order, and no contract states an order among equal timestamps.
- Messages.ConversationSymmetric: compares the two conversations as multisets, not position by position, because the two queries may order equal timestamps differently.
- Users.ListUsers: `User.query.all()` has no `order_by`, so the database promises no order. The model lists users in insertion order, which is primary-key order. The list equality in Users.RepliesIgnorePasswords relies on the same choice.
- Groups.ListGroups: `Group.query.all()` has no `order_by`. The model lists groups in insertion order, which is primary-key order.
- Groups.GetGroup: the `members` relationship has no `order_by`. The model lists members in the order of the `users` table.
