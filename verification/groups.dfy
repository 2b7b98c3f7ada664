/** The group endpoints: `GET /groups`, `POST /groups` and `GET /groups/<id>`.
    A group's members are the users paired with it in `user_groups`. */
module Groups {
  import opened Seqs
  import opened Models
  import opened Http

  datatype GroupRequest = GroupRequest(name: Field<string>, description: Field<string>)

  datatype GroupSummary = GroupSummary(
    id: Id,
    name: string,
    description: Option<string>,
    memberCount: nat,
    createdAt: Timestamp)

  datatype GroupInfo = GroupInfo(id: Id, name: string, description: Option<string>)

  datatype MemberRef = MemberRef(id: Id, username: string)

  datatype GroupDetail = GroupDetail(
    id: Id,
    name: string,
    description: Option<string>,
    createdAt: Timestamp,
    memberCount: nat,
    members: seq<MemberRef>)

  datatype GroupPayload =
    | GroupList(groups: seq<GroupSummary>)
    | GroupCreated(message: string, group: GroupInfo)
    | GroupFound(detail: GroupDetail)

  const NAME_REQUIRED := "Group name required"
  const GROUP_CREATED := "Group created successfully"

  /** The rows of `users` the `members` relationship loads, in table order. */
  function Members(st: Store, gid: Id): seq<User> {
    Filter(st.users, (u: User) => (u.id, gid) in st.memberships)
  }

  /** The user ids the junction table pairs with `gid`. */
  function MemberIds(st: Store, gid: Id): set<Id> {
    set p | p in st.memberships && p.1 == gid :: p.0
  }

  function Summary(st: Store, g: Group): GroupSummary {
    GroupSummary(g.id, g.name, g.description, |Members(st, g.id)|, g.createdAt)
  }

  /** GET /groups: one entry per group, in table order. */
  function ListGroups(st: Store): (r: Reply<GroupPayload>)
    ensures r.status == OK && r.store == st && r.body.Payload? && r.body.data.GroupList?
    ensures var gs := r.body.data.groups;
      && |gs| == |st.groups|
      && forall i :: 0 <= i < |gs| ==>
           && gs[i].id == st.groups[i].id && gs[i].name == st.groups[i].name
           && gs[i].description == st.groups[i].description && gs[i].createdAt == st.groups[i].createdAt
           && gs[i].memberCount == |Members(st, st.groups[i].id)|
  {
    Reply(OK, Payload(GroupList(seq(|st.groups|, i requires 0 <= i < |st.groups| => Summary(st, st.groups[i])))), st)
  }

  /** `data.get('description', '')`: a missing key defaults to the empty string,
      an explicit `null` is stored as NULL. */
  function DescriptionOf(f: Field<string>): Option<string> {
    match f
    case Absent => Some("")
    case Null => None
    case Value(s) => Some(s)
  }

  /** The row a successful creation inserts. */
  function NewGroup(st: Store, req: GroupRequest, now: Timestamp): Group
    requires TruthyText(req.name)
  {
    Group(st.nextGroupId, req.name.v, DescriptionOf(req.description), now)
  }

  /** POST /groups: a missing or empty name is a 400 and writes nothing;
      otherwise exactly one group is added, with no members (the creator is
      not enrolled). */
  function CreateGroup(st: Store, req: GroupRequest, now: Timestamp): (r: Reply<GroupPayload>)
    ensures !TruthyText(req.name) <==> r.status == BAD_REQUEST
    ensures r.status == BAD_REQUEST ==> r.body == Note(NAME_REQUIRED) && r.store == st
    ensures TruthyText(req.name) ==>
      var g := NewGroup(st, req, now);
      && r.status == CREATED
      && g.name == req.name.v && g.description == DescriptionOf(req.description)
      && r.store == st.(groups := st.groups + [g], nextGroupId := st.nextGroupId + 1)
      && r.store.memberships == st.memberships
      && (req.description.Absent? ==> g.description == Some(""))
      && (req.description.Null? ==> g.description.None?)
      && r.body == Payload(GroupCreated(GROUP_CREATED, GroupInfo(st.nextGroupId, req.name.v, DescriptionOf(req.description))))
  {
    if !TruthyText(req.name) then
      Reply(BAD_REQUEST, Note(NAME_REQUIRED), st)
    else
      var g := NewGroup(st, req, now);
      Reply(CREATED, Payload(GroupCreated(GROUP_CREATED, GroupInfo(g.id, g.name, g.description))),
            st.(groups := st.groups + [g], nextGroupId := st.nextGroupId + 1))
  }

  /** GET /groups/<id>: 404 for an unknown id, otherwise the group with its
      member list, whose length is the reported member count. */
  function GetGroup(st: Store, gid: Id): (r: Reply<GroupPayload>)
    ensures r.store == st
    ensures GroupById(st, gid).None? ==> r == NotFound(st)
    ensures GroupById(st, gid).Some? ==>
      var g := GroupById(st, gid).value;
      && r.status == OK && r.body.Payload? && r.body.data.GroupFound?
      && var d := r.body.data.detail;
      && d.id == gid && d.name == g.name && d.description == g.description && d.createdAt == g.createdAt
      && d.memberCount == |d.members|
      && |d.members| == |Members(st, gid)|
      && forall i :: 0 <= i < |d.members| ==>
           d.members[i] == MemberRef(Members(st, gid)[i].id, Members(st, gid)[i].username)
  {
    match GroupById(st, gid)
    case None => NotFound(st)
    case Some(g) =>
      var ms := Members(st, g.id);
      var refs := seq(|ms|, i requires 0 <= i < |ms| => MemberRef(ms[i].id, ms[i].username));
      Reply(OK, Payload(GroupFound(GroupDetail(g.id, g.name, g.description, g.createdAt, |ms|, refs))), st)
  }

  // Properties.

  /** The ids of the users in `s` that satisfy `p`. */
  function IdsWhere(s: seq<User>, p: User -> bool): set<Id> {
    set u | u in s && p(u) :: u.id
  }

  lemma IdsWhereCons(x: User, t: seq<User>, p: User -> bool)
    ensures IdsWhere([x] + t, p) == (if p(x) then {x.id} else {}) + IdsWhere(t, p)
  {
  }


  /** The first user's id is new to the rest, so it adds one to the id count
      exactly when that user passes `p`. */
  lemma IdsWhereStep(s: seq<User>, p: User -> bool, next: Id)
    requires |s| > 0 && KeysAllocated(s, (u: User) => u.id, next)
    ensures |IdsWhere(s, p)| == (if p(s[0]) then 1 else 0) + |IdsWhere(s[1..], p)|
  {
    KeysAllocatedTail(s, (u: User) => u.id, next);
    assert s == [s[0]] + s[1..];
    IdsWhereCons(s[0], s[1..], p);
    assert s[0].id !in IdsWhere(s[1..], p);
  }


  /** With distinct ids, filtering loses no count when passing to ids. */
  lemma {:induction false} FilterCountsIds(s: seq<User>, p: User -> bool, next: Id)
    requires KeysAllocated(s, (u: User) => u.id, next)
    ensures |Filter(s, p)| == |IdsWhere(s, p)|
  {
    if |s| > 0 {
      KeysAllocatedTail(s, (u: User) => u.id, next);
      FilterCountsIds(s[1..], p, next);
      FilterStep(s, p);
      IdsWhereStep(s, p, next);
    }
  }

  /** A group's member count equals the number of users the junction table
      pairs with it; no user is counted twice. */
  lemma MemberCountIsMembershipSize(st: Store, gid: Id)
    requires Valid(st)
    ensures |Members(st, gid)| == |MemberIds(st, gid)|
  {
    var p := (u: User) => (u.id, gid) in st.memberships;
    FilterCountsIds(st.users, p, st.nextUserId);
    assert IdsWhere(st.users, p) == MemberIds(st, gid) by {
      forall id | id in MemberIds(st, gid) ensures id in IdsWhere(st.users, p) {
        var pr :| pr in st.memberships && pr.1 == gid && pr.0 == id;
        var u := UserById(st, id).value;
        assert u in st.users && p(u);
      }
    }
  }

  /** GET /groups reports, for every group, the size of its membership. */
  lemma ListGroupsCountsMembers(st: Store)
    requires Valid(st)
    ensures var gs := ListGroups(st).body.data.groups;
      forall i :: 0 <= i < |gs| ==> gs[i].memberCount == |MemberIds(st, st.groups[i].id)|
  {
    forall i | 0 <= i < |st.groups| {
      MemberCountIsMembershipSize(st, st.groups[i].id);
    }
  }

  /** No user is listed twice among a group's members. */
  lemma MembersDistinct(st: Store, gid: Id)
    requires Valid(st)
    ensures var ms := Members(st, gid);
      forall i, j :: 0 <= i < j < |ms| ==> ms[i].id != ms[j].id
  {
    FilterKeysAllocated(st.users, (u: User) => (u.id, gid) in st.memberships, (u: User) => u.id, st.nextUserId);
  }

  /** Group creation keeps the store valid. */
  lemma CreateGroupPreservesValid(st: Store, req: GroupRequest, now: Timestamp)
    requires Valid(st)
    ensures Valid(CreateGroup(st, req, now).store)
  {
    if TruthyText(req.name) {
      var g := NewGroup(st, req, now);
      AppendKeysAllocated(st.groups, g, (x: Group) => x.id, st.nextGroupId);
      forall id | GroupById(st, id).Some?
        ensures GroupById(st.(groups := st.groups + [g]), id).Some?
      {
        FindExtends(st.groups, g, (x: Group) => x.id == id);
      }
    }
  }

  /** A newly created group is found under the id it was given, with the
      name sent and no members. */
  lemma CreateThenGet(st: Store, req: GroupRequest, now: Timestamp)
    requires Valid(st) && TruthyText(req.name)
    ensures var after := CreateGroup(st, req, now).store;
      var r := GetGroup(after, st.nextGroupId);
      && r.status == OK && r.body.Payload? && r.body.data.GroupFound?
      && r.body.data.detail.name == req.name.v
      && (req.description.Absent? ==> r.body.data.detail.description == Some(""))
      && r.body.data.detail.memberCount == 0
      && r.body.data.detail.members == []
  {
    var g := NewGroup(st, req, now);
    var after := CreateGroup(st, req, now).store;
    FindAppended(st.groups, g, (x: Group) => x.id == st.nextGroupId);
    forall i | 0 <= i < |after.users| ensures (after.users[i].id, st.nextGroupId) !in after.memberships {
      if (after.users[i].id, st.nextGroupId) in st.memberships {
        assert false;
      }
    }
    FilterKeepsNone(after.users, (u: User) => (u.id, st.nextGroupId) in after.memberships);
  }

}
