/**
  What a history of successful friend operations says about a pair of users: who may do what
  next, and when two users are friends.
 */
module FriendHistory {
  import opened Options

  datatype Event =
    | Applied(who: string, to: string)
    | Answered(who: string, to: string, accept: bool)   // `to` is the one who applied
    | Removed(who: string, to: string)
    | Barred(who: string, to: string)                   // set to "blocked" directly; no service call does

  type History = seq<Event>

  predicate About(e: Event, u: string, f: string) {
    (e.who == u && e.to == f) || (e.who == f && e.to == u)
  }

  /** The latest event between two users. */
  function Last(h: History, u: string, f: string): (e: Option<Event>)
    ensures e.Some? ==> About(e.value, u, f)
  {
    if h == [] then None
    else if About(h[|h| - 1], u, f) then Some(h[|h| - 1])
    else Last(h[..|h| - 1], u, f)
  }

  /** The protocol: an answer follows an application of the other side, an application needs a clean slate. */
  predicate LegalNext(h: History, e: Event) {
    var last := Last(h, e.who, e.to);
    e.who != e.to &&
    match e
    case Applied(_, _) => last.None? || last.value.Removed? || (last.value.Answered? && !last.value.accept)
    case Answered(who, to, _) => last == Some(Applied(to, who))
    case Removed(_, _) => last.Some? && !last.value.Removed?
    case Barred(_, _) => last.Some? && !last.value.Removed?
  }

  predicate Legal(h: History) {
    h == [] || (Legal(h[..|h| - 1]) && LegalNext(h[..|h| - 1], h[|h| - 1]))
  }

  predicate Friends(h: History, u: string, f: string) {
    var last := Last(h, u, f);
    last.Some? && last.value.Answered? && last.value.accept
  }

  lemma LastSymmetric(h: History, u: string, f: string)
    ensures Last(h, u, f) == Last(h, f, u)
  {
  }

  lemma {:induction false} LegalPrefix(h: History, n: nat)
    requires Legal(h) && n <= |h|
    ensures Legal(h[..n])
    ensures n < |h| ==> LegalNext(h[..n], h[n])
  {
    if n < |h| {
      if n + 1 < |h| {
        LegalPrefix(h[..|h| - 1], n + 1);
        assert h[..|h| - 1][..n + 1] == h[..n + 1];
        assert h[..n + 1][..n] == h[..n];
      }
    } else {
      assert h[..n] == h;
    }
  }

  /** Where the latest event is. */
  lemma {:induction false} LastAt(h: History, u: string, f: string) returns (j: nat)
    requires Last(h, u, f).Some?
    ensures j < |h| && h[j] == Last(h, u, f).value
    ensures forall k :: j < k < |h| ==> !About(h[k], u, f)
    ensures Last(h[..j + 1], u, f) == Some(h[j])
  {
    var end := |h| - 1;
    if About(h[end], u, f) {
      j := end;
      assert h[..j + 1] == h;
    } else {
      j := LastAt(h[..end], u, f);
      assert h[..end][..j + 1] == h[..j + 1];
    }
  }

  /** x asked, y said yes, and neither has been undone or barred since. */
  ghost predicate AskedAndAccepted(h: History, x: string, y: string, i: nat, j: nat) {
    && i < j < |h| && h[i] == Applied(x, y) && h[j] == Answered(y, x, true)
    && forall k :: j < k < |h| && About(h[k], x, y) ==> !h[k].Removed? && !h[k].Barred?
  }

  /** Once accepted, only a removal or a bar can come next. */
  lemma {:induction false} AcceptanceLasts(h: History, x: string, y: string, i: nat, j: nat)
    requires Legal(h) && AskedAndAccepted(h, x, y, i, j)
    ensures Last(h, x, y) == Some(h[j])
  {
    var end := |h| - 1;
    if j < end {
      var init := h[..end];
      assert AskedAndAccepted(init, x, y, i, j);
      AcceptanceLasts(init, x, y, i, j);
      LastSymmetric(init, x, y);
    }
  }

  /**
    Two users are friends exactly when one of them applied, the other accepted that application
    later, and the friendship has been neither removed nor barred since.
   */
  lemma FriendsMeans(h: History, u: string, f: string)
    requires Legal(h)
    ensures Friends(h, u, f) <==>
      exists i: nat, j: nat :: AskedAndAccepted(h, u, f, i, j) || AskedAndAccepted(h, f, u, i, j)
  {
    if Friends(h, u, f) {
      var j := LastAt(h, u, f);
      var y, x := h[j].who, h[j].to;
      LegalPrefix(h, j);
      LastSymmetric(h[..j], x, y);
      var i := LastAt(h[..j], x, y);
      assert h[i] == h[..j][i];
      assert AskedAndAccepted(h, x, y, i, j);
    }
    if i: nat, j: nat :| AskedAndAccepted(h, u, f, i, j) || AskedAndAccepted(h, f, u, i, j) {
      LastSymmetric(h, u, f);
      if AskedAndAccepted(h, u, f, i, j) { AcceptanceLasts(h, u, f, i, j); } else { AcceptanceLasts(h, f, u, i, j); }
    }
  }
}
