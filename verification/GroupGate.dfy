/**
  The router's group gate over the membership cache (internal/router/interceptors.go:193-266), with
  the group service dropping the verdicts its calls outdate. A service call with its
  invalidations, and a probe with the caching of its verdict, are one step.
 */
module GroupGate {
  import opened Options
  import opened CovKeys
  import G = Group
  import V = VerdictCache

  /** Membership as helpers.go reads it from the tables. */
  predicate IsMember(groups: G.Groups, members: G.Members, g: string, u: string) {
    g != "" && u != "" && g in groups && groups[g].active && G.Live(G.T.Find(members, g, u))
  }

  /** Every cached verdict is what the tables say, for users whose id has no colon. */
  ghost predicate Coherent(items: map<string, V.Entry>, groups: G.Groups, members: G.Members) {
    forall g, u :: NoColon(u) && GroupKey(g, u) in items ==>
      items[GroupKey(g, u)].allowed == IsMember(groups, members, g, u)
  }

  /** Verdicts may only change under keys that were dropped. */
  lemma ChangeKeepsCoherent(items: map<string, V.Entry>, items': map<string, V.Entry>,
                            groups: G.Groups, members: G.Members, groups': G.Groups, members': G.Members)
    requires Coherent(items, groups, members)
    requires forall k :: k in items' ==> k in items && items'[k] == items[k]
    requires forall g, u :: GroupKey(g, u) in items' ==>
               IsMember(groups', members', g, u) == IsMember(groups, members, g, u)
    ensures Coherent(items', groups', members')
  {
  }

  lemma VerdictKeepsCoherent(items: map<string, V.Entry>, items': map<string, V.Entry>, groups: G.Groups,
    members: G.Members, g: string, u: string)
    requires Coherent(items, groups, members) && NoColon(u)
    requires forall k :: k in items' && k != GroupKey(g, u) ==> k in items && items'[k] == items[k]
    requires GroupKey(g, u) in items' ==> items'[GroupKey(g, u)].allowed == IsMember(groups, members, g, u)
    ensures Coherent(items', groups, members)
  {
    forall h, v | NoColon(v) && GroupKey(h, v) in items'
      ensures items'[GroupKey(h, v)].allowed == IsMember(groups, members, h, v) {
      if GroupKey(h, v) == GroupKey(g, u) {
        GroupKeyInjective(h, v, g, u);
      }
    }
  }

  /**
    CreateGroup drops no verdict: the cache stays true exactly when the owner never asked for this
    group id before it existed (such a question leaves a denial).
   */
  lemma CreateCoherence(items: map<string, V.Entry>, groups: G.Groups, members: G.Members, groups': G.Groups,
    members': G.Members, id: string, owner: string)
    requires Coherent(items, groups, members) && G.TablesOk(groups, members)
    requires id != "" && owner != "" && id !in groups && NoColon(owner)
    requires groups' == groups[id := G.Info(owner, G.DEFAULT_MAX_MEMBERS, true)]
    requires G.MemberSet(members, members', id, owner, G.Member(G.Owner, false, "", G.ByCreate, false))
    ensures Coherent(items, groups', members') <==> GroupKey(id, owner) !in items
  {
    assert IsMember(groups', members', id, owner) && !IsMember(groups, members, id, owner);
    if GroupKey(id, owner) !in items {
      forall g, u | GroupKey(g, u) in items
        ensures IsMember(groups', members', g, u) == IsMember(groups, members, g, u) {
        assert !(g == id && u == owner);
        assert g == id ==> G.T.Find(members, id, u).None?;
      }
      ChangeKeepsCoherent(items, items, groups, members, groups', members');
    }
  }

  class Gate {
    const service: G.GroupService
    const verdicts: V.Cache

    ghost predicate Valid()
      reads this, service, verdicts
    {
      && service.Valid() && verdicts.Valid()
      && (forall u :: u in service.users ==> NoColon(u))
      && Coherent(verdicts.items, service.groups, service.members)
    }

    constructor (service: G.GroupService, verdicts: V.Cache)
      requires service.Valid() && verdicts.Valid() && verdicts.items == map[]
        && forall u :: u in service.users ==> NoColon(u)
      ensures Valid() && this.service == service && this.verdicts == verdicts
    {
      this.service, this.verdicts := service, verdicts;
    }

    /**
      groupChatInterceptor: a message to a group passes exactly when its sender is a live member
      now and not muted now, however long ago the membership verdict was cached, unless one of the
      two queries made fails. The membership verdict is cached either way, the mute never.
     */
    method GroupChatPasses(g: string, u: string, now: int, memberError: bool, muteError: bool) returns (pass: bool)
      requires Valid() && NoColon(u)
      modifies verdicts
      ensures Valid()
      ensures g == "" ==> pass
      ensures g != "" ==>
        (pass <==>
          && service.IsMember(g, u) && !service.IsMuted(g, u) && !muteError
          && (memberError ==> V.Hit(old(verdicts.items), GroupKey(g, u), now)))
      ensures g != "" && !memberError ==>
        V.Hit(verdicts.items, GroupKey(g, u), now)
        && verdicts.items[GroupKey(g, u)].allowed == service.IsMember(g, u)
      ensures var row := G.T.Find(service.members, g, u);
        g != "" && u != "" ==>
          (service.IsMember(g, u) && !service.IsMuted(g, u) <==>
            && g in service.groups && service.groups[g].active
            && row.Some? && !row.value.deleted && !row.value.muted)
    {
      hide G.TablesOk;
      hide Coherent;
      if g == "" {
        return true;
      }
      var key := GroupKey(g, u);
      var groups, members := service.groups, service.members;
      CoherentAt(verdicts.items, groups, members, g, u);
      ghost var before := verdicts.items;
      var hit := verdicts.Get(key, now);
      VerdictKeepsCoherent(before, verdicts.items, groups, members, g, u);
      if hit.Some? {
        if !hit.value {
          return false;
        }
      } else {
        if memberError {
          return false;
        }
        var member := service.IsMember(g, u);
        before := verdicts.items;
        verdicts.Add(key, member, now);
        VerdictKeepsCoherent(before, verdicts.items, groups, members, g, u);
        if !member {
          return false;
        }
      }
      if muteError {
        return false;
      }
      return !service.IsMuted(g, u);
    }

    lemma CoherentAt(items: map<string, V.Entry>, groups: G.Groups, members: G.Members, g: string, u: string)
      requires Coherent(items, groups, members) && NoColon(u)
      ensures GroupKey(g, u) in items ==> items[GroupKey(g, u)].allowed == IsMember(groups, members, g, u)
    {
    }

    /** Joining, leaving, kicking and muting touch one member and drop one verdict. */
    lemma OneMember(items: map<string, V.Entry>, groups: G.Groups, members: G.Members, members': G.Members, g: string,
      u: string, m: G.Member)
      requires Coherent(items, groups, members) && G.MemberSet(members, members', g, u, m)
      ensures Coherent(items - {GroupKey(g, u)}, groups, members')
    {
      ChangeKeepsCoherent(items, items - {GroupKey(g, u)}, groups, members, groups, members');
    }

    method Join(u: string, g: string, fault: bool) returns (r: G.Result)
      requires Valid()
      modifies service, verdicts
      ensures Valid()
      ensures r == G.Ok ==> service.IsMember(g, u)
      ensures r != G.Ok ==> verdicts.items == old(verdicts.items) && service.members == old(service.members)
    {
      hide G.TablesOk;
      hide Coherent;
      ghost var members := service.members;
      r := service.Join(u, g, fault);
      if r == G.Ok {
        OneMember(verdicts.items, service.groups, members, service.members, g, u,
          G.Member(G.Plain, false, "", G.ByJoin, false));
        verdicts.Invalidate(GroupKey(g, u));
      }
    }

    method Leave(u: string, g: string, fault: bool) returns (r: G.Result)
      requires Valid()
      modifies service, verdicts
      ensures Valid()
      ensures r == G.Ok ==> !service.IsMember(g, u)
      ensures r != G.Ok ==> verdicts.items == old(verdicts.items) && service.members == old(service.members)
    {
      hide G.TablesOk;
      hide Coherent;
      ghost var members := service.members;
      r := service.Leave(u, g, fault);
      if r == G.Ok {
        OneMember(verdicts.items, service.groups, members, service.members, g, u,
          G.T.Find(members, g, u).value.(deleted := true));
        verdicts.Invalidate(GroupKey(g, u));
      }
    }

    method Kick(actor: string, g: string, target: string, fault: bool) returns (r: G.Result)
      requires Valid()
      modifies service, verdicts
      ensures Valid()
      ensures r == G.Ok ==> !service.IsMember(g, target)
      ensures r != G.Ok ==> verdicts.items == old(verdicts.items) && service.members == old(service.members)
    {
      hide G.TablesOk;
      hide Coherent;
      ghost var members := service.members;
      r := service.Kick(actor, g, target, fault);
      if r == G.Ok {
        OneMember(verdicts.items, service.groups, members, service.members, g, target,
          G.T.Find(members, g, target).value.(deleted := true));
        verdicts.Invalidate(GroupKey(g, target));
      }
    }

    method SetMuted(actor: string, g: string, target: string, muted: bool, fault: bool) returns (r: G.Result)
      requires Valid()
      modifies service, verdicts
      ensures Valid()
      ensures r == G.Ok ==> service.IsMuted(g, target) == muted
      ensures r != G.Ok ==> verdicts.items == old(verdicts.items) && service.members == old(service.members)
    {
      hide G.TablesOk;
      hide Coherent;
      ghost var members := service.members;
      r := service.SetMuted(actor, g, target, muted, fault);
      if r == G.Ok {
        OneMember(verdicts.items, service.groups, members, service.members, g, target,
          G.T.Find(members, g, target).value.(muted := muted, mutedBy := if muted then actor else ""));
        verdicts.Invalidate(GroupKey(g, target));
      }
    }

    /** A change of role changes nobody's membership, so nothing needs dropping. */
    method SetRole(actor: string, g: string, target: string, roleName: string, fault: bool) returns (r: G.Result)
      requires Valid()
      modifies service
      ensures Valid()
      ensures forall h, u ::
                IsMember(service.groups, service.members, h, u) == old(IsMember(service.groups, service.members, h, u))
    {
      assert G.T.Distinct(service.members);
      hide Coherent;
      hide IsMember;
      hide G.TablesOk;
      hide G.MemberSet;
      hide G.Transferred;
      hide G.T.Find;
      ghost var groups, members := service.groups, service.members;
      r := service.SetRole(actor, g, target, roleName, fault);
      if r == G.Ok && G.T.Find(members, g, target).value.role != G.RoleOf(G.Messages.Trim(roleName)).value {
        if G.RoleOf(G.Messages.Trim(roleName)) == Some(G.Owner) {
          TransferKeepsMembers(groups, members, g, actor, target);
        } else {
          RoleKeepsMembers(groups, members, service.members, g, target,
            G.T.Find(members, g, target).value.(role := G.RoleOf(G.Messages.Trim(roleName)).value));
        }
      }
      ChangeKeepsCoherent(verdicts.items, verdicts.items, groups, members, service.groups, service.members);
    }

    /** Drops the verdicts of these users in the group. */
    method DropAll(g: string, ids: seq<string>)
      requires verdicts.Valid()
      modifies verdicts
      ensures verdicts.Valid()
      ensures forall k :: k in verdicts.items ==>
                k in old(verdicts.items) && verdicts.items[k] == old(verdicts.items)[k]
      ensures forall u :: u in ids ==> GroupKey(g, u) !in verdicts.items
    {
      hide V.Indexed;
      hide V.Added;
      hide V.Remove;
      hide GroupKey;
      var i := 0;
      while i < |ids|
        invariant 0 <= i <= |ids| && verdicts.Valid()
        invariant forall k :: k in verdicts.items ==>
                    k in old(verdicts.items) && verdicts.items[k] == old(verdicts.items)[k]
        invariant forall j :: 0 <= j < i ==> GroupKey(g, ids[j]) !in verdicts.items
      {
        verdicts.Invalidate(GroupKey(g, ids[i]));
        i := i + 1;
      }
    }

    method Invite(actor: string, g: string, targets: seq<string>, fault: bool)
      returns (r: G.Result, invited: seq<string>)
      requires Valid()
      modifies service, verdicts
      ensures Valid()
      ensures forall u :: u in invited ==> service.IsMember(g, u)
      ensures r != G.Ok ==> invited == [] && service.members == old(service.members)
    {
      hide G.TablesOk;
      hide Coherent;
      ghost var members, items := service.members, verdicts.items;
      r, invited := service.Invite(actor, g, targets, fault);
      DropAll(g, invited);
      if r == G.Ok {
        InvitedMembers(service.groups, members, service.members, g, invited, targets);
      }
      ChangeKeepsCoherent(items, verdicts.items, service.groups, members, service.groups, service.members);
    }

    /** The live members of a group, for invalidation after it is gone. */
    method LiveMembers(g: string) returns (ids: seq<string>)
      requires service.Valid()
      ensures forall u :: G.Live(service.Row(g, u)) ==> u in ids
      ensures forall u :: u in ids ==> G.Live(service.Row(g, u))
    {
      ids := [];
      var rows := service.members;
      var i := 0;
      while i < |rows|
        invariant 0 <= i <= |rows|
        invariant forall j :: 0 <= j < i && rows[j].a == g && !rows[j].v.deleted ==> rows[j].b in ids
        invariant forall u :: u in ids ==> G.Live(G.T.Find(rows, g, u))
      {
        G.T.FoundAt(rows, i);
        if rows[i].a == g && !rows[i].v.deleted {
          ids := ids + [rows[i].b];
        }
        i := i + 1;
      }
    }

    method Dismiss(actor: string, g: string, fault: bool) returns (r: G.Result)
      requires Valid()
      modifies service, verdicts
      ensures Valid()
      ensures r == G.Ok ==> forall u :: !service.IsMember(g, u)
      ensures r != G.Ok ==>
        verdicts.items == old(verdicts.items) && service.groups == old(service.groups)
        && service.members == old(service.members)
    {
      hide G.TablesOk;
      hide Coherent;
      ghost var groups, members, items := service.groups, service.members, verdicts.items;
      var ids := LiveMembers(g);
      r := service.Dismiss(actor, g, fault);
      if r == G.Ok {
        DropAll(g, ids);
        DismissedMembers(groups, members, g);
        if !groups[g].active {
          assert service.groups == groups;
        }
        ChangeKeepsCoherent(items, verdicts.items, groups, members, service.groups, service.members);
      }
    }

    /** A new group keeps the cache true when its id was not asked about before; ids are fresh UUIDs. */
    method CreateGroup(ownerName: string, groupName: string, id: string, fault: bool) returns (r: G.Result)
      requires Valid() && id != ""
      modifies service
      ensures r == G.Ok ==> service.IsMember(id, G.Messages.Trim(ownerName))
      ensures r != G.Ok ==> Valid()
      ensures r == G.Ok ==> (Valid() <==> GroupKey(id, G.Messages.Trim(ownerName)) !in verdicts.items)
    {
      ghost var groups, members := service.groups, service.members;
      r := service.CreateGroup(ownerName, groupName, id, fault);
      if r == G.Ok {
        CreateCoherence(verdicts.items, groups, members, service.groups, service.members, id,
          G.Messages.Trim(ownerName));
      }
    }
  }

  /** A change of role leaves everybody in. */
  lemma RoleKeepsMembers(groups: G.Groups, members: G.Members, members': G.Members, g: string, u: string, m: G.Member)
    requires G.Live(G.T.Find(members, g, u)) && !m.deleted && G.MemberSet(members, members', g, u, m)
    ensures forall h, v :: IsMember(groups, members', h, v) == IsMember(groups, members, h, v)
  {
  }

  lemma SameMembers(groups: G.Groups, groups': G.Groups, members: G.Members, members': G.Members)
    requires forall h :: (h in groups && groups[h].active) <==> (h in groups' && groups'[h].active)
    requires forall h, v :: G.Live(G.T.Find(members', h, v)) == G.Live(G.T.Find(members, h, v))
    ensures forall h, v :: IsMember(groups', members', h, v) == IsMember(groups, members, h, v)
  {
    hide G.T.Find;
    hide G.Live;
  }

  /** So does a transfer of ownership. */
  lemma TransferKeepsMembers(groups: G.Groups, members: G.Members, g: string, from: string, to: string)
    requires G.T.Distinct(members) && g in groups && from != to && G.Live(G.T.Find(members, g, from))
      && G.Live(G.T.Find(members, g, to))
    ensures forall h, v ::
              IsMember(groups[g := groups[g].(owner := to)], G.Transferred(members, g, from, to), h, v)
              == IsMember(groups, members, h, v)
  {
    hide G.Transferred;
    hide G.T.Find;
    hide G.Live;
    hide IsMember;
    hide G.T.Distinct;
    TransferKeepsLive(members, g, from, to);
    SameMembers(groups, groups[g := groups[g].(owner := to)], members, G.Transferred(members, g, from, to));
  }

  lemma TransferKeepsLive(members: G.Members, g: string, from: string, to: string)
    requires G.T.Distinct(members) && from != to && G.Live(G.T.Find(members, g, from))
      && G.Live(G.T.Find(members, g, to))
    ensures forall h, v ::
              G.Live(G.T.Find(G.Transferred(members, g, from, to), h, v)) == G.Live(G.T.Find(members, h, v))
  {
    G.TransferFinds(members, g, from, to);
    hide G.Transferred;
    hide G.T.Find;
    hide G.T.Count;
  }

  lemma InvitedMembers(groups: G.Groups, members: G.Members, members': G.Members, g: string, invited: seq<string>,
    targets: seq<string>)
    requires g in groups && groups[g].active && !G.Messages.Blank(g)
    requires G.Elements(invited) == G.Newcomers(members, g, G.Names(targets))
      && G.Admitted(members, members', g, invited, |invited|)
    ensures forall u :: u in invited ==> IsMember(groups, members', g, u)
    ensures forall h, u :: !(h == g && u in invited) ==>
              IsMember(groups, members', h, u) == IsMember(groups, members, h, u)
  {
    assert invited[..|invited|] == invited;
    forall u | u in invited ensures IsMember(groups, members', g, u) {
      assert u in G.Elements(invited);
    }
  }

  lemma DismissedMembers(groups: G.Groups, members: G.Members, g: string)
    requires G.TablesOk(groups, members) && g in groups
    ensures forall h, u ::
              IsMember(groups[g := groups[g].(active := false)], G.Emptied(members, g), h, u)
              == (h != g && IsMember(groups, members, h, u))
  {
    EmptiedLive(groups, members, g);
    hide G.Emptied;
    hide G.T.Find;
    hide G.Live;
    hide G.TablesOk;
    var groups' := groups[g := groups[g].(active := false)];
    var members' := G.Emptied(members, g);
    forall h, u ensures IsMember(groups', members', h, u) == (h != g && IsMember(groups, members, h, u)) {
      assert G.Live(G.T.Find(members', h, u)) == (h != g && G.Live(G.T.Find(members, h, u)));
    }
  }

  lemma EmptiedLive(groups: G.Groups, members: G.Members, g: string)
    requires G.TablesOk(groups, members) && g in groups
    ensures forall h, u :: G.Live(G.T.Find(G.Emptied(members, g), h, u)) == (h != g && G.Live(G.T.Find(members, h, u)))
  {
    G.EmptiedFinds(members, g);
    hide G.Emptied;
    hide G.T.Find;
    hide G.T.Count;
  }
}
