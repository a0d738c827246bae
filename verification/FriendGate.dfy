/**
  The router's friendship gates over the shared verdict cache (internal/router/interceptors.go:273-316),
  with the friend service invalidating it after every change. A service call with its
  invalidation, and a probe with the caching of its verdict, are one step.
 */
module FriendGate {
  import opened Options
  import opened FriendHistory
  import opened CovKeys
  import F = Friend
  import V = VerdictCache

  /** Every verdict in the cache, live or expired, is what the history says about every pair with that key. */
  ghost predicate Coherent(items: map<string, V.Entry>, h: History) {
    forall u, f :: PrivateKey(u, f) in items ==> items[PrivateKey(u, f)].allowed == Friends(h, u, f)
  }

  ghost predicate NoColons(users: set<string>) {
    forall u :: u in users ==> NoColon(u)
  }

  /** Strangers to the users table have no history. */
  lemma OnlyUsersAreFriends(rows: F.Table, h: History, users: set<string>, u: string, f: string)
    requires F.TableOk(rows, h) && F.Known(rows, users) && Friends(h, u, f)
    ensures u in users && f in users && u != f
  {
    assert F.Tells(F.T.Find(rows, u, f), Last(h, u, f));
    assert F.T.Find(rows, u, u).None?;
  }

  /** Pairs that share a key share the verdict, whatever the client calls its peer. */
  lemma SameKeySameVerdict(rows: F.Table, h: History, users: set<string>, u: string, f: string, x: string, y: string)
    requires F.TableOk(rows, h) && F.Known(rows, users) && NoColons(users) && PrivateKey(u, f) == PrivateKey(x, y)
    ensures Friends(h, u, f) == Friends(h, x, y)
  {
    if Friends(h, u, f) {
      OnlyUsersAreFriends(rows, h, users, u, f);
      KeyInjective(u, f, x, y);
    }
    if Friends(h, x, y) {
      OnlyUsersAreFriends(rows, h, users, x, y);
      KeyInjective(x, y, u, f);
    }
    LastSymmetric(h, u, f);
  }

  /** One event changes the verdict of one key only, and that key is dropped. */
  lemma EventKeepsCoherent(items: map<string, V.Entry>, h: History, e: Event)
    requires Coherent(items, h)
    ensures Coherent(items - {PrivateKey(e.who, e.to)}, h + [e])
  {
    var left := items - {PrivateKey(e.who, e.to)};
    forall u, f | PrivateKey(u, f) in left ensures left[PrivateKey(u, f)].allowed == Friends(h + [e], u, f) {
      KeySymmetric(u, f);
      F.LastAppend(h, e, u, f);
    }
  }

  lemma VerdictKeepsCoherent(items: map<string, V.Entry>, items': map<string, V.Entry>, rows: F.Table, h: History,
    users: set<string>, from: string, to: string)
    requires Coherent(items, h) && F.TableOk(rows, h) && F.Known(rows, users) && NoColons(users)
    requires forall k :: k in items' && k != PrivateKey(from, to) ==> k in items && items'[k] == items[k]
    requires PrivateKey(from, to) in items' ==> items'[PrivateKey(from, to)].allowed == Friends(h, from, to)
    ensures Coherent(items', h)
  {
    forall u, f | PrivateKey(u, f) in items' ensures items'[PrivateKey(u, f)].allowed == Friends(h, u, f) {
      if PrivateKey(u, f) == PrivateKey(from, to) {
        SameKeySameVerdict(rows, h, users, u, f, from, to);
      }
    }
  }

  /** The table's answers, for strangers and for oneself too. */
  lemma TableAnswers(rows: F.Table, h: History, from: string, to: string)
    requires F.TableOk(rows, h)
    ensures from != to ==> (F.CountAccepted(rows, F.Direction(from, to)) > 0 <==> Friends(h, from, to))
    ensures F.CountAccepted(rows, F.EitherDirection(from, to)) == 2 <==> Friends(h, from, to)
  {
    if from != to {
      F.GatesAgree(rows, h, from, to);
    } else {
      F.CountOne(rows, from, from);
      SameDirection(rows, from);
      assert F.Tells(F.T.Find(rows, from, from), Last(h, from, from));
    }
  }

  lemma {:induction false} SameDirection(rows: F.Table, u: string)
    ensures F.CountAccepted(rows, F.EitherDirection(u, u)) == F.CountAccepted(rows, F.Direction(u, u))
  {
    if rows != [] {
      SameDirection(rows[..|rows| - 1], u);
    }
  }

  class Gate {
    const service: F.FriendService
    const friends: V.Cache

    ghost predicate Valid()
      reads this, service, friends
    {
      service.Valid() && friends.Valid() && NoColons(service.users) && Coherent(friends.items, service.history)
    }

    constructor (service: F.FriendService, friends: V.Cache)
      requires service.Valid() && friends.Valid() && friends.items == map[] && NoColons(service.users)
      ensures Valid() && this.service == service && this.friends == friends
    {
      this.service, this.friends := service, friends;
    }

    /**
      friendshipCheckInterceptor: a message to another user passes exactly when the two are
      friends now, however long ago the verdict was cached; a database error lets nothing through
      that is not cached. The verdict is cached either way.
     */
    method PrivateChatPasses(from: string, to: string, now: int, dbError: bool) returns (pass: bool)
      requires Valid()
      modifies friends
      ensures Valid()
      ensures to == "" || to == from ==> pass
      ensures to != "" && to != from ==>
        (pass <==>
          && Friends(service.history, from, to)
          && (dbError ==> V.Hit(old(friends.items), PrivateKey(from, to), now)))
      ensures to != "" && to != from && !dbError ==>
        V.Hit(friends.items, PrivateKey(from, to), now) && friends.items[PrivateKey(from, to)].allowed == pass
    {
      hide F.TableOk;
      hide F.Known;
      hide Coherent;
      if to == "" || to == from {
        return true;
      }
      var key := PrivateKey(from, to);
      CoherentAt(friends.items, service.history, from, to);
      ghost var before := friends.items;
      var hit := friends.Get(key, now);
      VerdictKeepsCoherent(before, friends.items, service.rows, service.history, service.users, from, to);
      if hit.Some? {
        return hit.value;
      }
      if dbError {
        return false;
      }
      TableAnswers(service.rows, service.history, from, to);
      before := friends.items;
      pass := F.CountAccepted(service.rows, F.Direction(from, to)) > 0;
      friends.Add(key, pass, now);
      VerdictKeepsCoherent(before, friends.items, service.rows, service.history, service.users, from, to);
    }

    /** signalingPairAllowed: the same verdict, from both directions; a denial is not cached. */
    method SignalingPasses(from: string, to: string, now: int, dbError: bool) returns (pass: bool)
      requires Valid()
      modifies friends
      ensures Valid()
      ensures pass <==>
        Friends(service.history, from, to) && (dbError ==> V.Hit(old(friends.items), PrivateKey(from, to), now))
      ensures pass ==> V.Hit(friends.items, PrivateKey(from, to), now)
      ensures forall k :: k in friends.items && !friends.items[k].allowed ==> k in old(friends.items)
    {
      hide F.TableOk;
      hide F.Known;
      hide Coherent;
      var key := PrivateKey(from, to);
      CoherentAt(friends.items, service.history, from, to);
      ghost var before := friends.items;
      var hit := friends.Get(key, now);
      VerdictKeepsCoherent(before, friends.items, service.rows, service.history, service.users, from, to);
      if hit.Some? {
        return hit.value;
      }
      if dbError {
        return false;
      }
      TableAnswers(service.rows, service.history, from, to);
      if F.CountAccepted(service.rows, F.EitherDirection(from, to)) == 2 {
        before := friends.items;
        friends.Add(key, true, now);
        VerdictKeepsCoherent(before, friends.items, service.rows, service.history, service.users, from, to);
        return true;
      }
      return false;
    }

    lemma CoherentAt(items: map<string, V.Entry>, h: History, from: string, to: string)
      requires Coherent(items, h)
      ensures PrivateKey(from, to) in items ==> items[PrivateKey(from, to)].allowed == Friends(h, from, to)
    {
    }

    method Apply(applicant: string, targetUsername: string, remark: string, fault: bool)
      returns (r: F.Result, target: string)
      requires Valid()
      modifies service, friends
      ensures Valid()
      ensures service.history == old(service.history) + if r == F.Ok then [Applied(applicant, target)] else []
      ensures friends.items == old(friends.items) - if r == F.Ok then {PrivateKey(applicant, target)} else {}
    {
      hide F.TableOk;
      hide F.Known;
      hide F.PairSet;
      hide Coherent;
      ghost var h := service.history;
      r, target := service.Apply(applicant, targetUsername, remark, fault);
      if r == F.Ok {
        EventKeepsCoherent(friends.items, h, Applied(applicant, target));
        friends.Invalidate(PrivateKey(applicant, target));
      }
    }

    method Respond(responder: string, initiator: string, action: string, fault: bool) returns (r: F.Result)
      requires Valid()
      modifies service, friends
      ensures Valid()
      ensures var x, y := F.Messages.Trim(responder), F.Messages.Trim(initiator);
        && service.history
          == old(service.history) + (if r == F.Ok then [Answered(x, y, F.Messages.Trim(action) == "accept")] else [])
        && friends.items == old(friends.items) - if r == F.Ok then {PrivateKey(x, y)} else {}
    {
      hide F.TableOk;
      hide F.Known;
      hide F.PairSet;
      hide Coherent;
      ghost var h := service.history;
      r := service.Respond(responder, initiator, action, fault);
      if r == F.Ok {
        var x, y := F.Messages.Trim(responder), F.Messages.Trim(initiator);
        EventKeepsCoherent(friends.items, h, Answered(x, y, F.Messages.Trim(action) == "accept"));
        friends.Invalidate(PrivateKey(x, y));
      }
    }

    method Delete(user: string, friend: string, fault: bool) returns (r: F.Result)
      requires Valid()
      modifies service, friends
      ensures Valid()
      ensures var x, y := F.Messages.Trim(user), F.Messages.Trim(friend);
        && service.history == old(service.history) + (if r == F.Ok then [Removed(x, y)] else [])
        && friends.items == old(friends.items) - if r == F.Ok then {PrivateKey(x, y)} else {}
    {
      hide F.TableOk;
      hide F.Known;
      hide F.PairSet;
      hide Coherent;
      ghost var h := service.history;
      r := service.Delete(user, friend, fault);
      if r == F.Ok {
        var x, y := F.Messages.Trim(user), F.Messages.Trim(friend);
        EventKeepsCoherent(friends.items, h, Removed(x, y));
        friends.Invalidate(PrivateKey(x, y));
      }
    }
  }
}
