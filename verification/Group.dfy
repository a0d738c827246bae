/**
  Group membership (internal/logic/group/service.go:164-232, 302-350, 388-786): roles, ownership,
  capacity, mutes and dismissal over the `groups` and `group_members` tables. Each service call is
  one step, as several of its checks run outside its transaction.
 */
module Group {
  import opened Options
  import Messages
  import T = KeyedTable

  const DEFAULT_MAX_MEMBERS: nat := 500

  datatype Role = Owner | Admin | Plain

  datatype Via = ByCreate | ByInvite | ByJoin

  datatype Member = Member(role: Role, muted: bool, mutedBy: string, via: Via, deleted: bool)

  datatype Info = Info(owner: string, maxMembers: nat, active: bool)

  type Members = seq<T.Row<Member>>
  type Groups = map<string, Info>

  datatype Code = ParamInvalid | GroupNotFound | NotMember | Permission | Full | Muted | Already | OwnerLeave
    | RoleInvalid | UserMissing | Internal

  datatype Result = Ok | Refused(code: Code)

  predicate IsLive(m: Member) {
    !m.deleted
  }

  predicate Live(m: Option<Member>) {
    m.Some? && !m.value.deleted
  }

  predicate MuteOk(m: Member) {
    m.muted <==> m.mutedBy != ""
  }

  /** One group: who owns it, who is in it, how many. */
  ghost predicate GroupOk(info: Info, members: Members, g: string) {
    if info.active then
      && Live(T.Find(members, g, info.owner))
      && (forall u :: Live(T.Find(members, g, u)) ==> (T.Find(members, g, u).value.role == Owner <==> u == info.owner))
      && T.Count(members, g, IsLive) <= info.maxMembers
    else
      forall u :: !Live(T.Find(members, g, u))
  }

  /** Rows belong to groups, and are muted exactly when somebody muted them. */
  ghost predicate RowsOk(gs: set<string>, members: Members) {
    forall g, u :: T.Find(members, g, u).Some? ==> g in gs && MuteOk(T.Find(members, g, u).value)
  }

  ghost predicate TablesOk(groups: Groups, members: Members) {
    && T.Distinct(members)
    && RowsOk(groups.Keys, members)
    && (forall g :: g in groups ==> GroupOk(groups[g], members, g))
  }

  // ----- one member row is written -----

  /** Nobody but u in g changes. */
  ghost predicate MemberSet(members: Members, members': Members, g: string, u: string, m: Member) {
    && T.Distinct(members')
    && forall x, y :: T.Find(members', x, y) == if x == g && y == u then Some(m) else T.Find(members, x, y)
  }

  /** The row may be written: it keeps the owner where it is and does not overfill the group. */
  ghost predicate MayPut(info: Info, members: Members, g: string, u: string, m: Member) {
    && info.active && MuteOk(m)
    && (u == info.owner ==> !m.deleted)
    && (!m.deleted ==> (m.role == Owner <==> u == info.owner))
    && (!m.deleted && !Live(T.Find(members, g, u)) ==> T.Count(members, g, IsLive) < info.maxMembers)
  }

  /** A group whose rows nobody touched. */
  lemma GroupFrame(info: Info, members: Members, members': Members, g: string)
    requires GroupOk(info, members, g) && T.Count(members', g, IsLive) == T.Count(members, g, IsLive)
    requires forall u :: T.Find(members', g, u) == T.Find(members, g, u)
    ensures GroupOk(info, members', g)
  {
  }

  lemma GroupPut(info: Info, members: Members, members': Members, g: string, u: string, m: Member)
    requires GroupOk(info, members, g) && MayPut(info, members, g, u, m) && MemberSet(members, members', g, u, m)
    requires T.Count(members', g, IsLive)
      == T.Count(members, g, IsLive) - (if Live(T.Find(members, g, u)) then 1 else 0) + if m.deleted then 0 else 1
    ensures GroupOk(info, members', g)
  {
  }

  lemma UpsertMember(members: Members, g: string, u: string, m: Member)
    requires T.Distinct(members)
    ensures MemberSet(members, T.Upsert(members, g, u, m), g, u, m)
    ensures forall x :: x != g ==> T.Count(T.Upsert(members, g, u, m), x, IsLive) == T.Count(members, x, IsLive)
    ensures T.Count(T.Upsert(members, g, u, m), g, IsLive) ==
      T.Count(members, g, IsLive) - (if Live(T.Find(members, g, u)) then 1 else 0) + if m.deleted then 0 else 1
  {
    T.UpsertFinds(members, g, u, m);
    T.UpsertCounts(members, g, u, m, IsLive);
    hide T.Upsert;
    hide T.Find;
    hide T.Count;
  }

  lemma PutKeeps(groups: Groups, members: Members, g: string, u: string, m: Member)
    requires TablesOk(groups, members) && g in groups && MayPut(groups[g], members, g, u, m)
    ensures TablesOk(groups, T.Upsert(members, g, u, m)) && MemberSet(members, T.Upsert(members, g, u, m), g, u, m)
    ensures T.Count(T.Upsert(members, g, u, m), g, IsLive) ==
      T.Count(members, g, IsLive) - (if Live(T.Find(members, g, u)) then 1 else 0) + if m.deleted then 0 else 1
  {
    hide GroupOk;
    hide T.Upsert;
    hide T.Find;
    hide T.Count;
    UpsertMember(members, g, u, m);
    var members' := T.Upsert(members, g, u, m);
    forall x | x in groups ensures GroupOk(groups[x], members', x) {
      if x == g {
        GroupPut(groups[g], members, members', g, u, m);
      } else {
        GroupFrame(groups[x], members, members', x);
      }
    }
  }

  // ----- ownership moves, groups end -----

  /** The rows after a transfer: the old owner is an admin, the new owner an owner. */
  function Transferred(members: Members, g: string, from: string, to: string): Members
    requires Live(T.Find(members, g, from)) && Live(T.Find(members, g, to)) && from != to
  {
    var demoted := T.Update(members, g, from, T.Find(members, g, from).value.(role := Admin));
    T.Update(demoted, g, to, T.Find(members, g, to).value.(role := Owner))
  }

  lemma TransferFinds(members: Members, g: string, from: string, to: string)
    requires T.Distinct(members) && from != to && Live(T.Find(members, g, from)) && Live(T.Find(members, g, to))
    ensures var members' := Transferred(members, g, from, to);
      && T.Distinct(members')
      && (forall x, y :: T.Find(members', x, y) ==
            if x == g && y == from then Some(T.Find(members, x, y).value.(role := Admin))
            else if x == g && y == to then Some(T.Find(members, x, y).value.(role := Owner)) else T.Find(members, x, y))
      && (forall x :: T.Count(members', x, IsLive) == T.Count(members, x, IsLive))
  {
    var a := T.Find(members, g, from).value.(role := Admin);
    var o := T.Find(members, g, to).value.(role := Owner);
    RoleChange(members, g, from, a);
    RoleChange(T.Update(members, g, from, a), g, to, o);
    hide T.Update;
    hide T.Find;
    hide T.Count;
  }

  /** A change to a live row that leaves it live. */
  lemma RoleChange(members: Members, g: string, u: string, m: Member)
    requires T.Distinct(members) && Live(T.Find(members, g, u)) && !m.deleted
    ensures MemberSet(members, T.Update(members, g, u, m), g, u, m)
    ensures forall x :: T.Count(T.Update(members, g, u, m), x, IsLive) == T.Count(members, x, IsLive)
  {
    UpsertMember(members, g, u, m);
    assert T.Upsert(members, g, u, m) == T.Update(members, g, u, m);
    hide T.Update;
    hide T.Find;
    hide T.Count;
    hide T.Upsert;
  }

  lemma GroupTransferred(info: Info, members: Members, g: string, to: string)
    requires GroupOk(info, members, g) && info.active && T.Distinct(members)
    requires to != info.owner && Live(T.Find(members, g, to))
    ensures Live(T.Find(members, g, info.owner))
    ensures GroupOk(info.(owner := to), Transferred(members, g, info.owner, to), g)
  {
    TransferFinds(members, g, info.owner, to);
    hide Transferred;
    hide T.Find;
    hide T.Count;
  }

  lemma TransferRows(gs: set<string>, members: Members, g: string, from: string, to: string)
    requires T.Distinct(members) && from != to && Live(T.Find(members, g, from)) && Live(T.Find(members, g, to))
    requires RowsOk(gs, members)
    ensures RowsOk(gs, Transferred(members, g, from, to))
  {
    var members' := Transferred(members, g, from, to);
    TransferFinds(members, g, from, to);
    hide Transferred;
    hide T.Find;
    forall x, y | T.Find(members', x, y).Some? ensures x in gs && MuteOk(T.Find(members', x, y).value) {
      assert T.Find(members, x, y).Some?;
    }
  }

  lemma TransferKeeps(groups: Groups, members: Members, g: string, to: string)
    requires TablesOk(groups, members) && g in groups && groups[g].active
    requires to != groups[g].owner && Live(T.Find(members, g, to))
    ensures Live(T.Find(members, g, groups[g].owner))
    ensures TablesOk(groups[g := groups[g].(owner := to)], Transferred(members, g, groups[g].owner, to))
  {
    assert groups[g := groups[g].(owner := to)].Keys == groups.Keys;
    hide Transferred;
    GroupTransferred(groups[g], members, g, to);
    TransferFinds(members, g, groups[g].owner, to);
    hide GroupOk;
    hide T.Find;
    hide T.Count;
    TransferRows(groups.Keys, members, g, groups[g].owner, to);
    hide RowsOk;
    var groups' := groups[g := groups[g].(owner := to)];
    var members' := Transferred(members, g, groups[g].owner, to);
    forall x | x in groups' ensures GroupOk(groups'[x], members', x) {
      if x != g { GroupFrame(groups[x], members, members', x); }
    }
  }

  /** UPDATE ... SET deleted_at WHERE group_id = ?: every live row of the group. */
  function Emptied(members: Members, g: string): (members': Members)
    ensures |members'| == |members|
  {
    seq(|members|, i requires 0 <= i < |members| =>
      if members[i].a == g then T.Row(g, members[i].b, members[i].v.(deleted := true)) else members[i])
  }

  lemma EmptiedFinds(members: Members, g: string)
    requires T.Distinct(members)
    ensures var members' := Emptied(members, g);
      && T.Distinct(members')
      && (forall x, y :: T.Find(members', x, y) ==
            var m := T.Find(members, x, y);
            if x == g && m.Some? then Some(m.value.(deleted := true)) else m)
      && (forall x :: x != g ==> T.Count(members', x, IsLive) == T.Count(members, x, IsLive))
  {
    var members' := Emptied(members, g);
    assert forall i :: 0 <= i < |members| ==> members'[i].a == members[i].a && members'[i].b == members[i].b;
    forall x, y
      ensures var m := T.Find(members, x, y);
        T.Find(members', x, y) == if x == g && m.Some? then Some(m.value.(deleted := true)) else m
    {
      if T.Find(members, x, y).Some? {
        var i :| 0 <= i < |members| && members[i] == T.Row(x, y, T.Find(members, x, y).value);
        T.FoundAt(members', i);
      } else {
        assert forall i :: 0 <= i < |members'| ==> !T.SameKey(members'[i], x, y);
      }
    }
    forall x | x != g ensures T.Count(members', x, IsLive) == T.Count(members, x, IsLive) {
      T.CountSame(members, members', x, IsLive);
    }
  }

  lemma DismissKeeps(groups: Groups, members: Members, g: string)
    requires TablesOk(groups, members) && g in groups
    ensures TablesOk(groups[g := groups[g].(active := false)], Emptied(members, g))
  {
    EmptiedFinds(members, g);
    hide Emptied;
    var groups' := groups[g := groups[g].(active := false)];
    forall x | x in groups' ensures GroupOk(groups'[x], Emptied(members, g), x) {
      assert GroupOk(groups[x], members, x);
    }
  }

  /** A new group has its owner's row and nothing else. */
  lemma NewGroup(members: Members, g: string, owner: string)
    requires T.Distinct(members) && forall u :: T.Find(members, g, u).None?
    ensures var m := Member(Owner, false, "", ByCreate, false);
      var members' := members + [T.Row(g, owner, m)];
      && MemberSet(members, members', g, owner, m) && GroupOk(Info(owner, DEFAULT_MAX_MEMBERS, true), members', g)
      && forall x :: x != g ==> T.Count(members', x, IsLive) == T.Count(members, x, IsLive)
  {
    var m := Member(Owner, false, "", ByCreate, false);
    UpsertMember(members, g, owner, m);
    NoRows(members, g);
    assert T.Upsert(members, g, owner, m) == members + [T.Row(g, owner, m)];
    hide T.Upsert;
    hide T.Find;
    hide T.Count;
  }

  lemma CreateKeeps(groups: Groups, members: Members, g: string, owner: string)
    requires TablesOk(groups, members) && g !in groups
    ensures var members' := members + [T.Row(g, owner, Member(Owner, false, "", ByCreate, false))];
      TablesOk(groups[g := Info(owner, DEFAULT_MAX_MEMBERS, true)], members')
        && MemberSet(members, members', g, owner, Member(Owner, false, "", ByCreate, false))
  {
    hide GroupOk;
    hide T.Find;
    hide T.Count;
    NewGroup(members, g, owner);
    var members' := members + [T.Row(g, owner, Member(Owner, false, "", ByCreate, false))];
    var groups' := groups[g := Info(owner, DEFAULT_MAX_MEMBERS, true)];
    forall x | x in groups' ensures GroupOk(groups'[x], members', x) {
      if x != g { GroupFrame(groups[x], members, members', x); }
    }
  }

  lemma NoRows(members: Members, g: string)
    requires forall u :: T.Find(members, g, u).None?
    ensures T.Count(members, g, IsLive) == 0
  {
    forall i | 0 <= i < |members| ensures members[i].a != g {
      assert T.Find(members, g, members[i].b).Some? || members[i].a != g;
    }
    T.CountZero(members, g, IsLive);
  }

  predicate OwnerRow(members: Members, g: string, i: nat)
    requires i < |members|
  {
    members[i].a == g && members[i].v.role == Owner && !members[i].v.deleted
  }

  /** An active group has exactly one live owner row, its recorded owner's. */
  lemma OneOwner(groups: Groups, members: Members, g: string)
    requires TablesOk(groups, members) && g in groups && groups[g].active
    ensures exists i: nat :: i < |members| && OwnerRow(members, g, i) && members[i].b == groups[g].owner
    ensures forall i: nat, j: nat ::
              i < |members| && j < |members| && OwnerRow(members, g, i) && OwnerRow(members, g, j) ==> i == j
  {
    assert GroupOk(groups[g], members, g);
    var i :| 0 <= i < |members| && members[i] == T.Row(g, groups[g].owner, T.Find(members, g, groups[g].owner).value);
    assert OwnerRow(members, g, i);
    forall j: nat | j < |members| && OwnerRow(members, g, j) ensures members[j].b == groups[g].owner {
      T.FoundAt(members, j);
    }
  }

  // ----- invitations -----

  /** The names an invitation is about: trimmed, blanks dropped. */
  function Names(targets: seq<string>): set<string> {
    set i | 0 <= i < |targets| && Messages.Trim(targets[i]) != "" :: Messages.Trim(targets[i])
  }

  /** Those of them who are not in the group yet. */
  function Newcomers(members: Members, g: string, names: set<string>): set<string> {
    set t | t in names && !Live(T.Find(members, g, t))
  }

  predicate NoRepeats(xs: seq<string>) {
    forall i, j :: 0 <= i < j < |xs| ==> xs[i] != xs[j]
  }

  function Elements(xs: seq<string>): set<string> {
    set x | x in xs
  }

  lemma {:induction false} NoRepeatsSize(xs: seq<string>)
    requires NoRepeats(xs)
    ensures |Elements(xs)| == |xs|
  {
    if xs != [] {
      var end := |xs| - 1;
      NoRepeatsSize(xs[..end]);
      assert Elements(xs) == Elements(xs[..end]) + {xs[end]};
    }
  }

  const INVITED := Member(Plain, false, "", ByInvite, false)

  /** The members after the first k newcomers are in. */
  ghost predicate Admitted(members: Members, members': Members, g: string, xs: seq<string>, k: nat) {
    && k <= |xs|
    && forall x, y ::
         T.Find(members', x, y) == if x == g && y in xs[..k] then Some(INVITED) else T.Find(members, x, y)
  }

  /** Those invited, and nobody else, have become plain, unmuted members by invitation. */
  ghost predicate InvitedIn(members: Members, members': Members, g: string, invited: seq<string>) {
    forall x, y :: T.Find(members', x, y) ==
      if x == g && y in invited then Some(Member(Plain, false, "", ByInvite, false)) else T.Find(members, x, y)
  }

  lemma AllAdmitted(members: Members, members': Members, g: string, xs: seq<string>)
    requires Admitted(members, members', g, xs, |xs|)
    ensures InvitedIn(members, members', g, xs)
  {
    assert xs[..|xs|] == xs;
  }

  lemma NoneAdmitted(members: Members, g: string, xs: seq<string>)
    ensures Admitted(members, members, g, xs, 0)
  {
  }

  /** The next newcomer may come in. */
  lemma MayAdmit(groups: Groups, before: Members, members: Members, g: string, xs: seq<string>, k: nat)
    requires TablesOk(groups, members) && g in groups && groups[g].active && NoRepeats(xs)
    requires k < |xs| && Admitted(before, members, g, xs, k) && !Live(T.Find(before, g, xs[k]))
    requires T.Count(members, g, IsLive) < groups[g].maxMembers
    ensures MayPut(groups[g], members, g, xs[k], INVITED) && !Live(T.Find(members, g, xs[k]))
  {
    assert GroupOk(groups[g], members, g);
    assert xs[k] !in xs[..k];
    hide T.Find;
    hide T.Count;
  }

  lemma AdmitNext(members: Members, members': Members, members'': Members, g: string, xs: seq<string>, k: nat)
    requires Admitted(members, members', g, xs, k) && k < |xs| && MemberSet(members', members'', g, xs[k], INVITED)
    ensures Admitted(members, members'', g, xs, k + 1)
  {
    assert xs[..k + 1] == xs[..k] + [xs[k]];
  }

  // ----- the service -----

  /** Only the owner may do everything; admins act on plain members. */
  predicate Outranks(actor: Role, target: Role) {
    actor == Owner || (actor == Admin && target == Plain)
  }

  /** Owners and admins manage their group. */
  predicate Manages(actor: Option<Member>) {
    Live(actor) && actor.value.role != Plain
  }

  function RoleOf(name: string): Option<Role> {
    if name == "owner" then Some(Owner)
    else if name == "admin" then Some(Admin)
    else if name == "member" then Some(Plain)
    else None
  }

  class GroupService {
    const users: set<string>
    var groups: Groups
    var members: Members

    ghost predicate Valid()
      reads this
    {
      TablesOk(groups, members)
    }

    constructor (users: set<string>)
      ensures Valid() && groups == map[] && members == [] && this.users == users && fresh(this)
    {
      this.users, groups, members := users, map[], [];
    }

    predicate Active(g: string)
      reads this
    {
      g in groups && groups[g].active
    }

    function Row(g: string, u: string): Option<Member>
      reads this
    {
      T.Find(members, g, u)
    }

    /** The member row is live and carries this role. */
    predicate IsA(g: string, u: string, role: Role)
      reads this
    {
      Live(Row(g, u)) && Row(g, u).value.role == role
    }

    /** group.IsMember: what the router asks. */
    predicate IsMember(g: string, u: string)
      reads this
    {
      g != "" && u != "" && Active(g) && Live(Row(g, u))
    }

    /** group.IsMuted: only a live member of an active group can be muted. */
    predicate IsMuted(g: string, u: string)
      reads this
    {
      IsMember(g, u) && Row(g, u).value.muted
    }

    method CreateGroup(ownerName: string, groupName: string, id: string, fault: bool) returns (r: Result)
      requires Valid()
      modifies this
      ensures Valid()
      ensures r != Ok ==> groups == old(groups) && members == old(members)
      ensures var owner := Messages.Trim(ownerName);
        && (r == Ok <==> owner != "" && !Messages.Blank(groupName) && owner in users && id !in old(groups) && !fault)
        && (r == Refused(ParamInvalid) <==> owner == "" || Messages.Blank(groupName))
        && (r == Refused(UserMissing) <==> owner != "" && !Messages.Blank(groupName) && owner !in users)
        && (r == Refused(Internal) <==>
              owner != "" && !Messages.Blank(groupName) && owner in users && (id in old(groups) || fault))
        && (r == Ok ==> groups == old(groups)[id := Info(owner, 500, true)])
        && (r == Ok ==> MemberSet(old(members), members, id, owner, Member(Owner, false, "", ByCreate, false)))
    {
      hide TablesOk;
      hide MemberSet;
      var owner := Messages.Trim(ownerName);
      if owner == "" || Messages.Trim(groupName) == "" {
        return Refused(ParamInvalid);
      }
      if owner !in users {
        return Refused(UserMissing);
      }
      if id in groups || fault {
        return Refused(Internal);
      }
      CreateKeeps(groups, members, id, owner);
      groups := groups[id := Info(owner, DEFAULT_MAX_MEMBERS, true)];
      members := members + [T.Row(id, owner, Member(Owner, false, "", ByCreate, false))];
      r := Ok;
    }

    /** Join: a former member comes back as a plain, unmuted one. */
    method Join(u: string, g: string, fault: bool) returns (r: Result)
      requires Valid()
      modifies this
      ensures Valid() && groups == old(groups)
      ensures r != Ok ==> members == old(members)
      ensures r == Ok <==>
        && !Messages.Blank(u) && !Messages.Blank(g) && old(Active(g)) && u in users && !Live(old(Row(g, u))) && !fault
        && T.Count(old(members), g, IsLive) < groups[g].maxMembers
      ensures r == Ok ==> MemberSet(old(members), members, g, u, Member(Plain, false, "", ByJoin, false))
      ensures var named := !Messages.Blank(u) && !Messages.Blank(g);
        var meant := named && old(Active(g)) && u in users;
        && (r == Refused(ParamInvalid) <==> !named)
        && (r == Refused(GroupNotFound) <==> named && !old(Active(g)))
        && (r == Refused(UserMissing) <==> named && old(Active(g)) && u !in users)
        && (r == Refused(Internal) <==> meant && fault)
        && (r == Refused(Already) <==> meant && !fault && Live(old(Row(g, u))))
        && (r == Refused(Full) <==>
              meant && !fault && !Live(old(Row(g, u))) && T.Count(old(members), g, IsLive) >= groups[g].maxMembers)
    {
      hide TablesOk;
      hide MemberSet;
      hide T.Upsert;
      hide T.Find;
      hide T.Count;
      hide MayPut;
      if Messages.Trim(u) == "" || Messages.Trim(g) == "" {
        return Refused(ParamInvalid);
      }
      if !Active(g) {
        return Refused(GroupNotFound);
      }
      if u !in users {
        return Refused(UserMissing);
      }
      if fault {
        return Refused(Internal);
      }
      if Live(Row(g, u)) {
        return Refused(Already);
      }
      if T.Count(members, g, IsLive) + 1 > groups[g].maxMembers {
        return Refused(Full);
      }
      MayJoin(u, g);
      PutKeeps(groups, members, g, u, Member(Plain, false, "", ByJoin, false));
      members := T.Upsert(members, g, u, Member(Plain, false, "", ByJoin, false));
      r := Ok;
    }

    /** A newcomer may come in while there is room. */
    lemma MayJoin(u: string, g: string)
      requires Valid() && Active(g) && !Live(Row(g, u)) && T.Count(members, g, IsLive) < groups[g].maxMembers
      ensures MayPut(groups[g], members, g, u, Member(Plain, false, "", ByJoin, false))
    {
      ActiveFacts(g);
      hide TablesOk;
      hide T.Find;
      hide T.Count;
    }

    /** What is known of an active group. */
    lemma ActiveFacts(g: string)
      requires Valid()
      ensures Active(g) ==> Live(Row(g, groups[g].owner)) && T.Count(members, g, IsLive) <= groups[g].maxMembers
      ensures forall u :: Active(g) && Live(Row(g, u)) ==> (Row(g, u).value.role == Owner <==> u == groups[g].owner)
      ensures forall u :: Row(g, u).Some? ==> MuteOk(Row(g, u).value)
    {
    }

    /** Leave: anyone but the owner. */
    method Leave(u: string, g: string, fault: bool) returns (r: Result)
      requires Valid()
      modifies this
      ensures Valid() && groups == old(groups)
      ensures r != Ok ==> members == old(members)
      ensures r == Ok <==>
        !Messages.Blank(u) && !Messages.Blank(g) && old(Active(g)) && Live(old(Row(g, u))) && u != groups[g].owner
        && !fault
      ensures r == Ok ==> MemberSet(old(members), members, g, u, old(Row(g, u)).value.(deleted := true))
      ensures r == Refused(OwnerLeave) <==>
        !Messages.Blank(u) && !Messages.Blank(g) && old(Active(g)) && u == groups[g].owner
      ensures var named := !Messages.Blank(u) && !Messages.Blank(g);
        && (r == Refused(ParamInvalid) <==> !named)
        && (r == Refused(GroupNotFound) <==> named && g !in old(groups))
        && (r == Refused(NotMember) <==> named && g in old(groups) && !(old(Active(g)) && Live(old(Row(g, u)))))
        && (r == Refused(Internal) <==>
              named && old(Active(g)) && Live(old(Row(g, u))) && u != groups[g].owner && fault)
    {
      ActiveFacts(g);
      hide TablesOk;
      hide MemberSet;
      if Messages.Trim(u) == "" || Messages.Trim(g) == "" {
        return Refused(ParamInvalid);
      }
      if !Active(g) {
        return Refused(if g in groups then NotMember else GroupNotFound);
      }
      if !Live(Row(g, u)) {
        return Refused(NotMember);
      }
      if Row(g, u).value.role == Owner {
        return Refused(OwnerLeave);
      }
      if fault {
        return Refused(Internal);
      }
      WriteMember(g, u, Row(g, u).value.(deleted := true));
      r := Ok;
    }

    /** UPDATE of one live member row. */
    method WriteMember(g: string, u: string, m: Member)
      requires Valid() && g in groups && Live(Row(g, u)) && MayPut(groups[g], members, g, u, m)
      modifies this`members
      ensures Valid() && MemberSet(old(members), members, g, u, m)
    {
      hide TablesOk;
      hide MemberSet;
      hide MayPut;
      PutKeeps(groups, members, g, u, m);
      assert T.Upsert(members, g, u, m) == T.Update(members, g, u, m);
      members := T.Update(members, g, u, m);
    }

    /** Kick: the owner kicks anyone else, an admin plain members only. */
    method Kick(actor: string, g: string, target: string, fault: bool) returns (r: Result)
      requires Valid()
      modifies this
      ensures Valid() && groups == old(groups)
      ensures r != Ok ==> members == old(members)
      ensures r == Ok <==>
        && !Messages.Blank(actor) && !Messages.Blank(g) && !Messages.Blank(target) && old(Active(g)) && !fault
        && Live(old(Row(g, actor))) && Live(old(Row(g, target))) && target != groups[g].owner
        && Outranks(old(Row(g, actor)).value.role, old(Row(g, target)).value.role)
      ensures r == Ok ==> MemberSet(old(members), members, g, target, old(Row(g, target)).value.(deleted := true))
      ensures var named := !Messages.Blank(actor) && !Messages.Blank(g) && !Messages.Blank(target);
        var manager := named && old(Active(g)) && Manages(old(Row(g, actor)));
        var allowed := manager && Live(old(Row(g, target))) && target != groups[g].owner
                       && Outranks(old(Row(g, actor)).value.role, old(Row(g, target)).value.role);
        && (r == Refused(ParamInvalid) <==> !named)
        && (r == Refused(GroupNotFound) <==> named && !old(Active(g)))
        && (r == Refused(NotMember) <==> manager && !Live(old(Row(g, target))))
        && (r == Refused(Permission) <==>
              named && old(Active(g)) && (!manager || (Live(old(Row(g, target))) && !allowed)))
        && (r == Refused(Internal) <==> allowed && fault)
    {
      ActiveFacts(g);
      hide TablesOk;
      hide MemberSet;
      hide T.Find;
      hide T.Count;
      if Messages.Trim(actor) == "" || Messages.Trim(g) == "" || Messages.Trim(target) == "" {
        return Refused(ParamInvalid);
      }
      if !Active(g) {
        return Refused(GroupNotFound);
      }
      if !IsA(g, actor, Owner) && !IsA(g, actor, Admin) {
        return Refused(Permission);
      }
      if !Live(Row(g, target)) {
        return Refused(NotMember);
      }
      if Row(g, target).value.role == Owner {
        return Refused(Permission);
      }
      if Row(g, actor).value.role == Admin && Row(g, target).value.role != Plain {
        return Refused(Permission);
      }
      if fault {
        return Refused(Internal);
      }
      WriteMember(g, target, Row(g, target).value.(deleted := true));
      r := Ok;
    }

    /** SetMuted: the owner mutes anyone, an admin plain members only; a mute records who did it. */
    method SetMuted(actor: string, g: string, target: string, muted: bool, fault: bool) returns (r: Result)
      requires Valid()
      modifies this
      ensures Valid() && groups == old(groups)
      ensures r != Ok ==> members == old(members)
      ensures r == Ok <==>
        && !Messages.Blank(actor) && !Messages.Blank(g) && !Messages.Blank(target) && old(Active(g)) && !fault
        && Live(old(Row(g, actor))) && Live(old(Row(g, target)))
        && Outranks(old(Row(g, actor)).value.role, old(Row(g, target)).value.role)
      ensures r == Ok ==>
        MemberSet(old(members), members, g, target,
                  old(Row(g, target)).value.(muted := muted, mutedBy := if muted then actor else ""))
      ensures var named := !Messages.Blank(actor) && !Messages.Blank(g) && !Messages.Blank(target);
        var manager := named && old(Active(g)) && Manages(old(Row(g, actor)));
        var allowed := manager && Live(old(Row(g, target)))
                       && Outranks(old(Row(g, actor)).value.role, old(Row(g, target)).value.role);
        && (r == Refused(ParamInvalid) <==> !named)
        && (r == Refused(GroupNotFound) <==> named && !old(Active(g)))
        && (r == Refused(NotMember) <==> manager && !Live(old(Row(g, target))))
        && (r == Refused(Permission) <==>
              named && old(Active(g)) && (!manager || (Live(old(Row(g, target))) && !allowed)))
        && (r == Refused(Internal) <==> allowed && fault)
    {
      ActiveFacts(g);
      hide TablesOk;
      hide MemberSet;
      if Messages.Trim(actor) == "" || Messages.Trim(g) == "" || Messages.Trim(target) == "" {
        return Refused(ParamInvalid);
      }
      if !Active(g) {
        return Refused(GroupNotFound);
      }
      if !IsA(g, actor, Owner) && !IsA(g, actor, Admin) {
        return Refused(Permission);
      }
      if !Live(Row(g, target)) {
        return Refused(NotMember);
      }
      if Row(g, actor).value.role == Admin && Row(g, target).value.role != Plain {
        return Refused(Permission);
      }
      if fault {
        return Refused(Internal);
      }
      WriteMember(g, target, Row(g, target).value.(muted := muted, mutedBy := if muted then actor else ""));
      r := Ok;
    }

    /**
      SetRole: only the owner, for live members. "owner" hands the group over in one step; the
      owner's own role changes in no other way.
     */
    method SetRole(actor: string, g: string, target: string, roleName: string, fault: bool) returns (r: Result)
      requires Valid()
      modifies this
      ensures Valid()
      ensures r != Ok ==> groups == old(groups) && members == old(members)
      ensures var role := Messages.Trim(roleName);
        var row := old(Row(g, target));
        var named := !Messages.Blank(actor) && !Messages.Blank(g) && !Messages.Blank(target);
        var asked := named && (role == "owner" || role == "admin" || role == "member") && old(Active(g));
        var wanted := if role == "owner" then Owner else if role == "admin" then Admin else Plain;
        var mine := asked && actor == old(groups)[g].owner && Live(row);
        var idle := Live(row) && wanted != Owner && row.value.role == wanted;
        && (r == Ok <==> mine && if target == actor then wanted == Owner else !fault || idle)
        && (r == Refused(Internal) <==> mine && target != actor && fault && !idle)
        && (r == Refused(ParamInvalid) <==> !named)
        && (r == Refused(RoleInvalid) <==> named && !(role == "owner" || role == "admin" || role == "member"))
        && (r == Refused(GroupNotFound) <==>
              named && (role == "owner" || role == "admin" || role == "member") && !old(Active(g)))
        && (r == Refused(NotMember) <==> asked && actor == old(groups)[g].owner && !Live(row))
        && (r == Refused(Permission) <==>
              asked && (actor != old(groups)[g].owner || (Live(row) && target == actor && wanted != Owner)))
        && (r == Ok && row.value.role == wanted ==> groups == old(groups) && members == old(members))
        && (r == Ok && row.value.role != wanted && wanted != Owner ==>
              groups == old(groups) && MemberSet(old(members), members, g, target, row.value.(role := wanted)))
        && (r == Ok && row.value.role != wanted && wanted == Owner ==>
              && groups == old(groups)[g := old(groups)[g].(owner := target)] && Live(T.Find(old(members), g, actor))
              && target != actor
              && members == Transferred(old(members), g, actor, target))
    {
      ActiveFacts(g);
      hide TablesOk;
      hide MemberSet;
      hide T.Find;
      hide T.Count;
      hide Transferred;
      var role := RoleOf(Messages.Trim(roleName));
      if Messages.Trim(actor) == "" || Messages.Trim(g) == "" || Messages.Trim(target) == "" {
        return Refused(ParamInvalid);
      }
      if role.None? {
        return Refused(RoleInvalid);
      }
      if !Active(g) {
        return Refused(GroupNotFound);
      }
      if groups[g].owner != actor {
        return Refused(Permission);
      }
      var row := Row(g, target);
      if !Live(row) {
        return Refused(NotMember);
      }
      if role.value == Owner {
        if target == actor {
          return Ok;
        }
        if fault {
          return Refused(Internal);
        }
        TransferKeeps(groups, members, g, target);
        HandOver(g, actor, target);
        return Ok;
      }
      if target == actor {
        return Refused(Permission);
      }
      if row.value.role == role.value {
        return Ok;
      }
      if fault {
        return Refused(Internal);
      }
      WriteMember(g, target, row.value.(role := role.value));
      return Ok;
    }

    /** The transaction of an ownership transfer: demote, promote, record the new owner. */
    method HandOver(g: string, actor: string, target: string)
      requires g in groups && actor != target && Live(Row(g, actor)) && Live(Row(g, target))
      modifies this
      ensures groups == old(groups)[g := old(groups)[g].(owner := target)]
      ensures Live(T.Find(old(members), g, actor)) && Live(T.Find(old(members), g, target))
      ensures members == Transferred(old(members), g, actor, target)
    {
      var m := Row(g, target).value;
      members := T.Update(members, g, actor, Row(g, actor).value.(role := Admin));
      members := T.Update(members, g, target, m.(role := Owner));
      groups := groups[g := groups[g].(owner := target)];
    }

    /** Dismiss: the recorded owner ends the group; ending it again changes nothing. */
    method Dismiss(actor: string, g: string, fault: bool) returns (r: Result)
      requires Valid()
      modifies this
      ensures Valid()
      ensures r != Ok ==> groups == old(groups) && members == old(members)
      ensures r == Ok <==>
        !Messages.Blank(actor) && !Messages.Blank(g) && g in old(groups) && old(groups)[g].owner == actor
          && (fault ==> !old(groups)[g].active)
      ensures r == Ok ==> groups == old(groups)[g := old(groups)[g].(active := false)]
      ensures r == Ok ==> members == if old(Active(g)) then Emptied(old(members), g) else old(members)
      ensures var named := !Messages.Blank(actor) && !Messages.Blank(g);
        && (r == Refused(ParamInvalid) <==> !named)
        && (r == Refused(GroupNotFound) <==> named && g !in old(groups))
        && (r == Refused(Permission) <==> named && g in old(groups) && old(groups)[g].owner != actor)
        && (r == Refused(Internal) <==> named && old(Active(g)) && old(groups)[g].owner == actor && fault)
    {
      hide TablesOk;
      hide Emptied;
      if Messages.Trim(actor) == "" || Messages.Trim(g) == "" {
        return Refused(ParamInvalid);
      }
      if g !in groups {
        return Refused(GroupNotFound);
      }
      if groups[g].owner != actor {
        return Refused(Permission);
      }
      if !groups[g].active {
        assert groups == groups[g := groups[g].(active := false)];
        return Ok;
      }
      if fault {
        return Refused(Internal);
      }
      DismissKeeps(groups, members, g);
      groups := groups[g := groups[g].(active := false)];
      members := Emptied(members, g);
      return Ok;
    }

    /** Dedupe and drop blanks, keeping the order. */
    method Clean(targets: seq<string>) returns (names: seq<string>)
      ensures NoRepeats(names) && Elements(names) == Names(targets)
    {
      names := [];
      var seen: set<string> := {};
      var i := 0;
      while i < |targets|
        invariant 0 <= i <= |targets| && NoRepeats(names)
        invariant forall t :: t in names <==> t in seen
        invariant forall t :: t in seen <==> exists j :: 0 <= j < i && Messages.Trim(targets[j]) == t && t != ""
      {
        var t := Messages.Trim(targets[i]);
        if t != "" && t !in seen {
          seen := seen + {t};
          names := names + [t];
        }
        i := i + 1;
      }
    }

    /** The names that are not live members, in order. */
    method SkipMembers(g: string, names: seq<string>) returns (toAdd: seq<string>)
      requires NoRepeats(names)
      ensures NoRepeats(toAdd) && Elements(toAdd) == Newcomers(members, g, Elements(names))
    {
      toAdd := [];
      var i := 0;
      while i < |names|
        invariant 0 <= i <= |names| && NoRepeats(toAdd)
        invariant forall t :: t in toAdd <==> t in names[..i] && !Live(Row(g, t))
      {
        assert names[..i + 1] == names[..i] + [names[i]];
        if !Live(Row(g, names[i])) {
          toAdd := toAdd + [names[i]];
        }
        i := i + 1;
      }
      assert names[..|names|] == names;
    }

    /** Creates or revives every row, or none of them. */
    method Admit(g: string, toAdd: seq<string>)
      requires Valid() && Active(g) && NoRepeats(toAdd)
      requires forall i :: 0 <= i < |toAdd| ==> !Live(T.Find(members, g, toAdd[i]))
      requires T.Count(members, g, IsLive) + |toAdd| <= groups[g].maxMembers
      modifies this`members
      ensures Valid() && Admitted(old(members), members, g, toAdd, |toAdd|)
    {
      hide TablesOk;
      hide MemberSet;
      hide MayPut;
      hide Admitted;
      hide GroupOk;
      hide NoRepeats;
      hide T.Upsert;
      hide T.Find;
      hide T.Count;
      ghost var before := members;
      ghost var n := T.Count(members, g, IsLive);
      NoneAdmitted(members, g, toAdd);
      var i := 0;
      while i < |toAdd|
        invariant 0 <= i <= |toAdd| && Valid() && groups == old(groups) && Admitted(before, members, g, toAdd, i)
        invariant T.Count(members, g, IsLive) == n + i
      {
        MayAdmit(groups, before, members, g, toAdd, i);
        PutKeeps(groups, members, g, toAdd[i], INVITED);
        AdmitNext(before, members, T.Upsert(members, g, toAdd[i], INVITED), g, toAdd, i);
        members := T.Upsert(members, g, toAdd[i], INVITED);
        i := i + 1;
      }
    }

    /**
      Invite: by a live member, of existing users only, all newcomers or none. Members already in
      are skipped; newcomers are plain, unmuted members.
     */
    method Invite(actor: string, g: string, targets: seq<string>, fault: bool) returns (r: Result, invited: seq<string>)
      requires Valid()
      modifies this
      ensures Valid() && groups == old(groups)
      ensures r != Ok ==> members == old(members) && invited == []
      ensures var newcomers := Newcomers(old(members), g, Names(targets));
        && (r == Ok <==>
              && !Messages.Blank(actor) && !Messages.Blank(g) && old(Active(g)) && Live(old(Row(g, actor)))
              && Names(targets) <= users
              && (newcomers != {} ==> !fault && T.Count(old(members), g, IsLive) + |newcomers| <= groups[g].maxMembers))
        && (r == Ok ==> NoRepeats(invited) && Elements(invited) == newcomers)
        && (r == Ok ==> InvitedIn(old(members), members, g, invited))
      ensures r == Ok ==> Admitted(old(members), members, g, invited, |invited|)
      ensures var named := !Messages.Blank(actor) && !Messages.Blank(g);
        var asked := named && old(Active(g)) && Live(old(Row(g, actor)));
        var newcomers := Newcomers(old(members), g, Names(targets));
        && (r == Refused(ParamInvalid) <==> !named)
        && (r == Refused(GroupNotFound) <==> named && !old(Active(g)))
        && (r == Refused(NotMember) <==> named && old(Active(g)) && !Live(old(Row(g, actor))))
        && (r == Refused(UserMissing) <==> asked && !(Names(targets) <= users))
        && (r == Refused(Internal) <==> asked && Names(targets) <= users && newcomers != {} && fault)
        && (r == Refused(Full) <==>
              asked && Names(targets) <= users && newcomers != {} && !fault
              && T.Count(old(members), g, IsLive) + |newcomers| > groups[g].maxMembers)
    {
      hide TablesOk;
      hide Admitted;
      hide InvitedIn;
      hide T.Find;
      hide T.Count;
      invited := [];
      if Messages.Trim(actor) == "" || Messages.Trim(g) == "" {
        return Refused(ParamInvalid), [];
      }
      if !Active(g) {
        return Refused(GroupNotFound), [];
      }
      if !Live(Row(g, actor)) {
        return Refused(NotMember), [];
      }
      var names := Clean(targets);
      if exists t :: t in names && t !in users {
        return Refused(UserMissing), [];
      }
      var toAdd := SkipMembers(g, names);
      NoRepeatsSize(toAdd);
      forall i | 0 <= i < |toAdd| ensures !Live(T.Find(members, g, toAdd[i])) {
        assert toAdd[i] in Elements(toAdd);
      }
      if toAdd == [] {
        NoneAdmitted(members, g, []);
        AllAdmitted(members, members, g, []);
        return Ok, [];
      }
      if fault {
        return Refused(Internal), [];
      }
      if T.Count(members, g, IsLive) + |toAdd| > groups[g].maxMembers {
        return Refused(Full), [];
      }
      ghost var before := members;
      Admit(g, toAdd);
      AllAdmitted(before, members, g, toAdd);
      return Ok, toAdd;
    }
  }
}
