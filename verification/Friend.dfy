/**
  The friendship service over the double-row table (internal/logic/friend/service.go:264-472) and
  the two gates that read it (internal/router/interceptors.go:293-309,
  internal/router/signaling.go:73-88). Each service call is one step.
 */
module Friend {
  import opened Options
  import opened FriendHistory
  import Messages
  import T = KeyedTable

  datatype Status = Pending | Accepted | Rejected | Blocked

  datatype Pair = Pair(initiator: string, status: Status, remark: string, deleted: bool)

  type Table = seq<T.Row<Pair>>

  datatype Code = ParamInvalid | UserNotFound | FriendBlocked | FriendAlready | FriendNotFound | Internal

  datatype Result = Ok | Refused(code: Code)

  /** A row tells the latest event of its pair. */
  predicate Tells(r: Option<Pair>, last: Option<Event>) {
    match r
    case None => last.None?
    case Some(p) =>
      && last.Some?
      && (p.deleted <==> last.value.Removed?)
      && (!p.deleted ==>
            match p.status
            case Pending => last.value.Applied? && last.value.who == p.initiator
            case Accepted => last.value.Answered? && last.value.accept && last.value.to == p.initiator
            case Rejected => last.value.Answered? && !last.value.accept && last.value.to == p.initiator
            case Blocked => last.value.Barred?)
  }

  /** Both directions of every pair carry the same columns, and they tell the history of the pair. */
  ghost predicate TableOk(rows: Table, h: History) {
    && T.Distinct(rows) && Legal(h)
    && (forall u, f :: T.Find(rows, u, f) == T.Find(rows, f, u))
    && (forall u :: T.Find(rows, u, u).None?)
    && (forall u, f :: Tells(T.Find(rows, u, f), Last(h, u, f)))
  }

  predicate Live(r: Option<Pair>) {
    r.Some? && !r.value.deleted
  }

  predicate Has(r: Option<Pair>, status: Status) {
    Live(r) && r.value.status == status
  }

  /** Both rows of a pair after they have been written. */
  ghost predicate PairSet(rows: Table, rows': Table, u: string, f: string, p: Pair) {
    T.Distinct(rows') &&
    forall x, y ::
      T.Find(rows', x, y) == if (x == u && y == f) || (x == f && y == u) then Some(p) else T.Find(rows, x, y)
  }

  /** Only users have rows. */
  ghost predicate Known(rows: Table, users: set<string>) {
    forall u, f :: T.Find(rows, u, f).Some? ==> u in users && f in users
  }

  lemma KnownPair(rows: Table, users: set<string>, u: string, f: string)
    requires Known(rows, users)
    ensures T.Find(rows, u, f).Some? ==> u in users && f in users
  {
  }

  lemma KnownSet(rows: Table, rows': Table, users: set<string>, u: string, f: string, p: Pair)
    requires Known(rows, users) && PairSet(rows, rows', u, f, p) && u in users && f in users
    ensures Known(rows', users)
  {
  }

  lemma LastAppend(h: History, e: Event, u: string, f: string)
    ensures Last(h + [e], u, f) == if About(e, u, f) then Some(e) else Last(h, u, f)
  {
    assert (h + [e])[..|h|] == h;
  }

  lemma LegalAppend(h: History, e: Event)
    requires Legal(h) && LegalNext(h, e)
    ensures Legal(h + [e])
  {
    assert (h + [e])[..|h|] == h;
  }

  /** Writing a pair and recording the event it tells of keeps the table in order. */
  lemma PairSetKeeps(rows: Table, rows': Table, h: History, u: string, f: string, p: Pair, e: Event)
    requires TableOk(rows, h) && PairSet(rows, rows', u, f, p) && u != f
    requires e.who == u && e.to == f && LegalNext(h, e) && Tells(Some(p), Some(e))
    ensures TableOk(rows', h + [e])
  {
    LegalAppend(h, e);
    forall x, y ensures Tells(T.Find(rows', x, y), Last(h + [e], x, y)) {
      LastAppend(h, e, x, y);
    }
  }

  // ----- SQL over the table -----

  /** Both directions written one after the other. */
  lemma UpsertBoth(rows: Table, h: History, u: string, f: string, p: Pair)
    requires TableOk(rows, h) && u != f
    ensures PairSet(rows, T.Upsert(T.Upsert(rows, u, f, p), f, u, p), u, f, p)
  {
    T.UpsertFinds(rows, u, f, p);
    T.UpsertFinds(T.Upsert(rows, u, f, p), f, u, p);
  }

  /** UPDATE of both directions where deleted_at IS NULL. */
  function UpdateBoth(rows: Table, u: string, f: string, change: Pair -> Pair): (rows': Table)
    ensures |rows'| == |rows|
  {
    seq(|rows|, i requires 0 <= i < |rows| =>
      if (T.SameKey(rows[i], u, f) || T.SameKey(rows[i], f, u)) && !rows[i].v.deleted
      then T.Row(rows[i].a, rows[i].b, change(rows[i].v)) else rows[i])
  }

  function Changed(r: Option<Pair>, mine: bool, change: Pair -> Pair): Option<Pair> {
    if mine && Live(r) then Some(change(r.value)) else r
  }

  predicate Between(x: string, y: string, u: string, f: string) {
    (x == u && y == f) || (x == f && y == u)
  }

  lemma UpdateBothFinds(rows: Table, u: string, f: string, change: Pair -> Pair)
    requires T.Distinct(rows)
    ensures T.Distinct(UpdateBoth(rows, u, f, change))
    ensures forall x, y ::
              T.Find(UpdateBoth(rows, u, f, change), x, y) == Changed(T.Find(rows, x, y), Between(x, y, u, f), change)
  {
    var rows' := UpdateBoth(rows, u, f, change);
    assert forall i :: 0 <= i < |rows| ==> rows'[i].a == rows[i].a && rows'[i].b == rows[i].b;
    forall x, y ensures T.Find(rows', x, y) == Changed(T.Find(rows, x, y), Between(x, y, u, f), change) {
      if T.Find(rows, x, y).Some? {
        var i :| 0 <= i < |rows| && rows[i] == T.Row(x, y, T.Find(rows, x, y).value);
        T.FoundAt(rows', i);
      } else {
        assert forall i :: 0 <= i < |rows'| ==> !T.SameKey(rows'[i], x, y);
      }
    }
  }

  lemma UpdatedPair(rows: Table, h: History, u: string, f: string, change: Pair -> Pair)
    requires TableOk(rows, h) && u != f && Live(T.Find(rows, u, f))
    ensures PairSet(rows, UpdateBoth(rows, u, f, change), u, f, change(T.Find(rows, u, f).value))
  {
    UpdateBothFinds(rows, u, f, change);
  }

  lemma PairFacts(rows: Table, h: History, u: string, f: string)
    requires TableOk(rows, h)
    ensures T.Find(rows, u, f) == T.Find(rows, f, u) && Tells(T.Find(rows, u, f), Last(h, u, f))
  {
  }

  // ----- the gates -----

  /** SELECT COUNT(*) of the live accepted rows that satisfy a condition on the key. */
  function CountAccepted(rows: Table, key: (string, string) -> bool): (n: nat)
  {
    if rows == [] then 0
    else
      var r := rows[|rows| - 1];
      CountAccepted(rows[..|rows| - 1], key) + if key(r.a, r.b) && r.v.status == Accepted && !r.v.deleted then 1 else 0
  }

  function Direction(u: string, f: string): (string, string) -> bool {
    (a, b) => a == u && b == f
  }

  function EitherDirection(u: string, f: string): (string, string) -> bool {
    (a, b) => (a == u && b == f) || (a == f && b == u)
  }

  lemma {:induction false} CountOne(rows: Table, u: string, f: string)
    requires T.Distinct(rows)
    ensures CountAccepted(rows, Direction(u, f)) == if Has(T.Find(rows, u, f), Accepted) then 1 else 0
  {
    if rows != [] {
      var end := |rows| - 1;
      CountOne(rows[..end], u, f);
      if T.SameKey(rows[end], u, f) {
        T.FoundAt(rows, end);
        assert T.Find(rows[..end], u, f).None?;
      } else if T.Find(rows, u, f).Some? {
        var i :| 0 <= i < |rows| && rows[i] == T.Row(u, f, T.Find(rows, u, f).value);
        assert rows[..end][i] == rows[i];
        T.FoundAt(rows[..end], i);
      }
    }
  }

  lemma {:induction false} CountBoth(rows: Table, u: string, f: string)
    requires u != f
    ensures CountAccepted(rows, EitherDirection(u, f))
      == CountAccepted(rows, Direction(u, f)) + CountAccepted(rows, Direction(f, u))
  {
    if rows != [] {
      CountBoth(rows[..|rows| - 1], u, f);
    }
  }

  /**
    The chat gate looks at one direction, the signaling gate wants two accepted rows: they always
    agree, and they pass exactly friends.
   */
  lemma GatesAgree(rows: Table, h: History, u: string, f: string)
    requires TableOk(rows, h) && u != f
    ensures CountAccepted(rows, Direction(u, f)) > 0 <==> Friends(h, u, f)
    ensures CountAccepted(rows, EitherDirection(u, f)) == 2 <==> Friends(h, u, f)
  {
    CountOne(rows, u, f);
    CountOne(rows, f, u);
    CountBoth(rows, u, f);
    assert Tells(T.Find(rows, u, f), Last(h, u, f));
  }

  // ----- the service -----

  /** How Apply answers to a target name with no white space around it. */
  ghost predicate ApplyAnswer(users: set<string>, names: map<string, string>, rows: Table,
                              applicant: string, name: string, fault: bool, r: Result, target: string)
  {
    var strangers := name != "" && name in names && names[name] != applicant && applicant in users
                     && !Messages.Blank(applicant);
    var pair := if name in names then T.Find(rows, applicant, names[name]) else None;
    && (r == Ok <==> strangers && (Live(pair) ==> pair.value.status == Rejected) && !fault)
    && (r == Refused(FriendBlocked) <==> strangers && Has(pair, Blocked))
    && (r == Refused(FriendAlready) <==> strangers && (Has(pair, Accepted) || Has(pair, Pending)))
    && (r == Refused(Internal) <==> strangers && (Live(pair) ==> pair.value.status == Rejected) && fault)
    && (r == Refused(ParamInvalid) <==>
          Messages.Blank(applicant) || name == "" || (name in names && names[name] == applicant))
    && (r == Refused(UserNotFound) <==>
          && !Messages.Blank(applicant) && name != ""
          && (name !in names || (names[name] != applicant && applicant !in users)))
    && target == if r == Ok then names[name] else ""
  }

  /** How Respond answers to ids and an action with no white space around them. */
  ghost predicate RespondAnswer(rows: Table, responder: string, initiator: string, action: string, fault: bool,
                                r: Result)
  {
    var asked := responder != "" && initiator != "" && (action == "accept" || action == "reject");
    var pair := T.Find(rows, responder, initiator);
    var pending := Has(pair, Pending) && pair.value.initiator == initiator;
    && (r == Ok <==> asked && responder != initiator && !fault && pending)
    && (r == Refused(ParamInvalid) <==> !asked)
    && (r == Refused(FriendNotFound) <==> asked && (responder == initiator || (!fault && !pending)))
    && (r == Refused(Internal) <==> asked && responder != initiator && fault)
  }

  class FriendService {
    const users: set<string>                 // ids of the users that exist
    const names: map<string, string>         // username to id
    var rows: Table
    ghost var history: History

    ghost predicate Valid()
      reads this
    {
      TableOk(rows, history) && Known(rows, users) && names.Values <= users
    }

    constructor (users: set<string>, names: map<string, string>)
      requires names.Values <= users
      ensures Valid() && rows == [] && history == [] && this.users == users && this.names == names && fresh(this)
    {
      this.users, this.names, this.rows, this.history := users, names, [], [];
    }

    /** The transaction of an application: both directions, created or revived. */
    method WritePending(applicant: string, target: string, remark: string)
      requires Valid() && applicant in users && target in users && applicant != target
      requires LegalNext(history, Applied(applicant, target))
      modifies this
      ensures Valid() && history == old(history) + [Applied(applicant, target)]
      ensures PairSet(old(rows), rows, applicant, target, Pair(applicant, Pending, remark, false))
    {
      hide TableOk;
      hide PairSet;
      hide Known;
      hide T.Upsert;
      hide LegalNext;
      var p := Pair(applicant, Pending, remark, false);
      UpsertBoth(rows, history, applicant, target, p);
      PairSetKeeps(rows, T.Upsert(T.Upsert(rows, applicant, target, p), target, applicant, p), history, applicant,
        target, p, Applied(applicant, target));
      KnownSet(rows, T.Upsert(T.Upsert(rows, applicant, target, p), target, applicant, p), users, applicant, target, p);
      var dirs := [(applicant, target), (target, applicant)];
      var i := 0;
      while i < 2
        invariant 0 <= i <= 2 && history == old(history)
        invariant i == 0 ==> rows == old(rows)
        invariant i == 1 ==> rows == T.Upsert(old(rows), applicant, target, p)
        invariant i == 2 ==> rows == T.Upsert(T.Upsert(old(rows), applicant, target, p), target, applicant, p)
      {
        rows := T.Upsert(rows, dirs[i].0, dirs[i].1, p);
        i := i + 1;
      }
      history := history + [Applied(applicant, target)];
    }

    /** Apply once the target's name is trimmed. */
    method ApplyTo(applicant: string, name: string, remark: string, fault: bool) returns (r: Result, target: string)
      requires Valid()
      modifies this
      ensures Valid()
      ensures r != Ok ==> rows == old(rows) && history == old(history)
      ensures r == Ok ==> history == old(history) + [Applied(applicant, target)]
      ensures r == Ok ==> PairSet(old(rows), rows, applicant, target, Pair(applicant, Pending, remark, false))
      ensures ApplyAnswer(users, names, old(rows), applicant, name, fault, r, target)
    {
      hide TableOk;
      hide PairSet;
      hide Known;
      hide T.Find;
      hide Tells;
      hide Messages.Blank;
      if Messages.Blank(applicant) || name == "" {
        return Refused(ParamInvalid), "";
      }
      if name !in names {
        return Refused(UserNotFound), "";
      }
      target := names[name];
      if applicant == target {
        return Refused(ParamInvalid), "";
      }
      if applicant !in users {
        return Refused(UserNotFound), "";
      }
      PairFacts(rows, history, applicant, target);
      var ab, ba := T.Find(rows, applicant, target), T.Find(rows, target, applicant);
      if Has(ab, Blocked) || Has(ba, Blocked) {
        return Refused(FriendBlocked), "";
      }
      if Has(ab, Accepted) || Has(ab, Pending) || Has(ba, Accepted) || Has(ba, Pending) {
        return Refused(FriendAlready), "";
      }
      if fault {
        return Refused(Internal), "";
      }
      MayApply(rows, history, applicant, target);
      assert target in names.Values;
      WritePending(applicant, target, remark);
      r := Ok;
    }

    /**
      Apply: allowed exactly when the two are different existing users without a live pending,
      accepted or blocked pair. Both directions are written, created or revived.
     */
    method Apply(applicant: string, targetUsername: string, remark: string, fault: bool)
      returns (r: Result, target: string)
      requires Valid()
      modifies this
      ensures Valid()
      ensures r != Ok ==> rows == old(rows) && history == old(history)
      ensures r == Ok ==> history == old(history) + [Applied(applicant, target)]
      ensures r == Ok ==> PairSet(old(rows), rows, applicant, target, Pair(applicant, Pending, remark, false))
      ensures forall name :: Messages.Pads(targetUsername, name) ==>
                ApplyAnswer(users, names, old(rows), applicant, name, fault, r, target)
    {
      hide *;
      r, target := ApplyTo(applicant, Messages.Trim(targetUsername), remark, fault);
      forall name | Messages.Pads(targetUsername, name) ensures name == Messages.Trim(targetUsername) {
        Messages.TrimUnpads(targetUsername, name);
      }
    }

    /** Respond once ids and action are trimmed. */
    method RespondTo(responder: string, initiator: string, action: string, fault: bool) returns (r: Result)
      requires Valid()
      modifies this
      ensures Valid()
      ensures r != Ok ==> rows == old(rows) && history == old(history)
      ensures RespondAnswer(old(rows), responder, initiator, action, fault, r)
      ensures var pair := T.Find(old(rows), responder, initiator);
        r == Ok ==>
          && history == old(history) + [Answered(responder, initiator, action == "accept")]
          && pair.Some?
          && PairSet(old(rows), rows, responder, initiator,
                     pair.value.(status := if action == "accept" then Accepted else Rejected))
    {
      hide TableOk;
      hide PairSet;
      hide Known;
      hide T.Find;
      if responder == "" || initiator == "" || action == "" {
        return Refused(ParamInvalid);
      }
      if action != "accept" && action != "reject" {
        return Refused(ParamInvalid);
      }
      if responder == initiator {
        return Refused(FriendNotFound);
      }
      if fault {
        return Refused(Internal);
      }
      PairFacts(rows, history, responder, initiator);
      KnownPair(rows, users, responder, initiator);
      var ab, ba := T.Find(rows, responder, initiator), T.Find(rows, initiator, responder);
      var found := (Has(ab, Pending) && ab.value.initiator == initiator)
        || (Has(ba, Pending) && ba.value.initiator == initiator);
      if !found {
        return Refused(FriendNotFound);
      }
      var newStatus := if action == "reject" then Rejected else Accepted;
      var change: Pair -> Pair := (p: Pair) => p.(status := newStatus);
      var e := Answered(responder, initiator, action == "accept");
      PendingMeans(rows, history, responder, initiator);
      UpdatedPair(rows, history, responder, initiator, change);
      PairSetKeeps(rows, UpdateBoth(rows, responder, initiator, change), history, responder, initiator,
        change(ab.value), e);
      KnownSet(rows, UpdateBoth(rows, responder, initiator, change), users, responder, initiator, change(ab.value));
      rows := UpdateBoth(rows, responder, initiator, change);
      history := history + [e];
      r := Ok;
    }

    /**
      Respond: the side that did not apply answers a live pending application of the other side.
      Nothing but the status of the two rows changes.
     */
    method Respond(responderID: string, initiatorID: string, actionName: string, fault: bool) returns (r: Result)
      requires Valid()
      modifies this
      ensures Valid()
      ensures r != Ok ==> rows == old(rows) && history == old(history)
      ensures forall responder, initiator, action ::
                Messages.Pads(responderID, responder) && Messages.Pads(initiatorID, initiator)
                && Messages.Pads(actionName, action) ==>
                  RespondAnswer(old(rows), responder, initiator, action, fault, r)
      ensures var responder, initiator := Messages.Trim(responderID), Messages.Trim(initiatorID);
        var action := Messages.Trim(actionName);
        var pair := T.Find(old(rows), responder, initiator);
        r == Ok ==>
          && history == old(history) + [Answered(responder, initiator, action == "accept")]
          && pair.Some?
          && PairSet(old(rows), rows, responder, initiator,
                     pair.value.(status := if action == "accept" then Accepted else Rejected))
    {
      hide *;
      r := RespondTo(Messages.Trim(responderID), Messages.Trim(initiatorID), Messages.Trim(actionName), fault);
      forall s, x | Messages.Pads(s, x) ensures x == Messages.Trim(s) {
        Messages.TrimUnpads(s, x);
      }
    }

    /** Delete: both directions of a live pair, whatever its status, are soft-deleted. */
    method Delete(userID: string, friendID: string, fault: bool) returns (r: Result)
      requires Valid()
      modifies this
      ensures Valid()
      ensures r != Ok ==> rows == old(rows) && history == old(history)
      ensures var user, friend := Messages.Trim(userID), Messages.Trim(friendID);
        var pair := T.Find(old(rows), user, friend);
        && (r == Ok <==> user != "" && friend != "" && user != friend && !fault && Live(pair))
        && (r == Refused(ParamInvalid) <==> user == "" || friend == "" || user == friend)
        && (r == Refused(FriendNotFound) <==> user != "" && friend != "" && user != friend && !fault && !Live(pair))
        && (r == Refused(Internal) <==> user != "" && friend != "" && user != friend && fault)
        && (r == Ok ==> history == old(history) + [Removed(user, friend)])
        && (r == Ok ==> PairSet(old(rows), rows, user, friend, pair.value.(deleted := true)))
    {
      hide TableOk;
      hide PairSet;
      hide Known;
      var user, friend := Messages.Trim(userID), Messages.Trim(friendID);
      if user == "" || friend == "" || user == friend {
        return Refused(ParamInvalid);
      }
      if fault {
        return Refused(Internal);
      }
      PairFacts(rows, history, user, friend);
      KnownPair(rows, users, user, friend);
      var ab, ba := T.Find(rows, user, friend), T.Find(rows, friend, user);
      if !Live(ab) && !Live(ba) {
        return Refused(FriendNotFound);
      }
      var change: Pair -> Pair := (p: Pair) => p.(deleted := true);
      UpdatedPair(rows, history, user, friend, change);
      PairSetKeeps(rows, UpdateBoth(rows, user, friend, change), history, user, friend, change(ab.value),
        Removed(user, friend));
      KnownSet(rows, UpdateBoth(rows, user, friend, change), users, user, friend, change(ab.value));
      rows := UpdateBoth(rows, user, friend, change);
      history := history + [Removed(user, friend)];
      r := Ok;
    }
  }

  /** Two users without a live pending, accepted or blocked pair may get a new application. */
  lemma MayApply(rows: Table, h: History, applicant: string, target: string)
    requires TableOk(rows, h) && applicant != target
    requires var pair := T.Find(rows, applicant, target); Live(pair) ==> pair.value.status == Rejected
    ensures LegalNext(h, Applied(applicant, target))
  {
    assert Tells(T.Find(rows, applicant, target), Last(h, applicant, target));
  }

  /** Whoever has a pending pair can only answer the other side's application. */
  lemma PendingMeans(rows: Table, h: History, responder: string, initiator: string)
    requires TableOk(rows, h) && responder != initiator
    requires var pair := T.Find(rows, responder, initiator); Has(pair, Pending) && pair.value.initiator == initiator
    ensures LegalNext(h, Answered(responder, initiator, true)) && LegalNext(h, Answered(responder, initiator, false))
  {
    assert Tells(T.Find(rows, responder, initiator), Last(h, responder, initiator));
  }
}
