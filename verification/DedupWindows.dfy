/**
  The per-conversation dedup store of internal/router/dedup.go: one window per conversation,
  each a linked list of entries (front = newest) and an index into it, updated in place.
 */
module DedupWindows {
  import opened Options
  import opened Recency

  /** The values an entry points to; `seq` and `ts` are overwritten in place. */
  class DedupEntry {
    const stanza: string
    var n: nat
    var ts: int

    constructor (stanza: string, n: nat, ts: int)
      ensures this.stanza == stanza && this.n == n && this.ts == ts
    {
      this.stanza, this.n, this.ts := stanza, n, ts;
    }

    function Memo(): Memo
      reads this
    {
      Recency.Memo(stanza, n, ts)
    }
  }

  /** The entries of a list carry these memos. */
  ghost predicate Shows(ll: seq<DedupEntry>, ms: seq<Memo>)
    reads ll
  {
    |ms| == |ll| && forall i :: 0 <= i < |ll| ==> ll[i].Memo() == ms[i]
  }

  lemma ShowsAround(ll: seq<DedupEntry>, ms: seq<Memo>, p: nat)
    requires Shows(ll, ms) && p < |ll|
    ensures Shows(ll[..p], ms[..p]) && Shows(ll[p + 1..], ms[p + 1..])
  {
  }

  lemma ShowsConcat(xs: seq<DedupEntry>, ms: seq<Memo>, ys: seq<DedupEntry>, ns: seq<Memo>)
    requires Shows(xs, ms) && Shows(ys, ns)
    ensures Shows(xs + ys, ms + ns)
  {
  }

  lemma ShowsMoved(e: DedupEntry, newer: seq<DedupEntry>, ms: seq<Memo>, older: seq<DedupEntry>, ns: seq<Memo>)
    requires Shows(newer, ms) && Shows(older, ns)
    ensures Shows([e] + (newer + older), [e.Memo()] + (ms + ns))
  {
    ShowsConcat(newer, ms, older, ns);
    ShowsConcat([e], [e.Memo()], newer + older, ms + ns);
  }

  /** list.MoveToFront. */
  function MoveToFront(ll: seq<DedupEntry>, e: DedupEntry): seq<DedupEntry> {
    [e] + Drop(ll, e)
  }

  /** list.Remove. */
  function Drop(ll: seq<DedupEntry>, e: DedupEntry): seq<DedupEntry> {
    if ll == [] then [] else if ll[0] == e then ll[1..] else [ll[0]] + Drop(ll[1..], e)
  }

  lemma {:induction false} DropAt(ll: seq<DedupEntry>, p: nat)
    requires p < |ll| && forall i :: 0 <= i < p ==> ll[i] != ll[p]
    ensures Drop(ll, ll[p]) == ll[..p] + ll[p + 1..]
  {
    if p > 0 {
      DropAt(ll[1..], p - 1);
    }
  }

  /** List and index are in bijection. */
  ghost predicate Indexed(ll: seq<DedupEntry>, items: map<string, DedupEntry>) {
    && (forall i :: 0 <= i < |ll| ==> ll[i].stanza in items && items[ll[i].stanza] == ll[i])
    && (forall s :: s in items ==> items[s] in ll && items[s].stanza == s)
    && (forall i, j :: 0 <= i < j < |ll| ==> ll[i] != ll[j])
  }

  lemma MovedMembers(ll: seq<DedupEntry>, p: nat)
    requires p < |ll|
    ensures forall e :: e in [ll[p]] + (ll[..p] + ll[p + 1..]) <==> e in ll
  {
    assert ll == ll[..p] + [ll[p]] + ll[p + 1..];
  }

  lemma MovedIndexed(ll: seq<DedupEntry>, items: map<string, DedupEntry>, p: nat)
    requires Indexed(ll, items) && p < |ll|
    ensures var ll' := [ll[p]] + (ll[..p] + ll[p + 1..]); Indexed(ll', items) && (forall e :: e in ll' <==> e in ll)
  {
    var ll' := [ll[p]] + (ll[..p] + ll[p + 1..]);
    MovedMembers(ll, p);
    forall i | 0 <= i < |ll'| ensures ll'[i].stanza in items && items[ll'[i].stanza] == ll'[i] {
      assert ll'[i] in ll;
    }
  }

  lemma MovedToFront(ll: seq<DedupEntry>, items: map<string, DedupEntry>, p: nat)
    requires Indexed(ll, items) && p < |ll|
    ensures MoveToFront(ll, ll[p]) == [ll[p]] + (ll[..p] + ll[p + 1..])
    ensures Indexed(MoveToFront(ll, ll[p]), items) && (forall e :: e in MoveToFront(ll, ll[p]) <==> e in ll)
  {
    DropAt(ll, p);
    MovedIndexed(ll, items, p);
  }

  lemma PushedIndexed(ll: seq<DedupEntry>, items: map<string, DedupEntry>, e: DedupEntry)
    requires Indexed(ll, items) && e.stanza !in items
    ensures Indexed([e] + ll, items[e.stanza := e])
  {
    assert ([e] + ll)[0] == e;
    assert forall x :: x in ll ==> x in [e] + ll;
  }

  lemma EvictedIndexed(ll: seq<DedupEntry>, items: map<string, DedupEntry>)
    requires Indexed(ll, items) && ll != []
    ensures Indexed(ll[..|ll| - 1], items - {ll[|ll| - 1].stanza})
  {
    var back := |ll| - 1;
    forall s | s in items - {ll[back].stanza} ensures items[s] in ll[..back] {
      var i :| 0 <= i < |ll| && ll[i] == items[s];
      assert i < back && ll[..back][i] == items[s];
    }
  }

  class ConvWindow {
    var ll: seq<DedupEntry>
    var items: map<string, DedupEntry>
    ghost var history: seq<Memo>
    ghost var Repr: set<object>

    /** List and index are in bijection, and the list is the window of the history. */
    ghost predicate Valid()
      reads this, Repr
      ensures Valid() ==> this in Repr
    {
      && this in Repr && (forall e :: e in ll ==> e in Repr)
      && Indexed(ll, items) && Shows(ll, Window(history))
    }

    constructor ()
      ensures Valid() && history == [] && fresh(Repr)
    {
      ll, items, history, Repr := [], map[], [], {this};
    }

    method Lookup(stanza: string) returns (hit: Option<(nat, int)>)
      requires Valid()
      ensures hit.Some? ==> Memo(stanza, hit.value.0, hit.value.1) in Window(history)
      ensures hit.None? ==> forall m :: m in Window(history) ==> m.stanza != stanza
    {
      if stanza in items {
        var e := items[stanza];
        ghost var p :| 0 <= p < |ll| && ll[p] == e;
        assert Window(history)[p] == e.Memo();
        hit := Some((e.n, e.ts));
      } else {
        hit := None;
      }
    }

    /** Overwrite the values of an entry and move it to the front. */
    method Touch(e: DedupEntry, n: nat, ts: int, ghost p: nat, ghost before: seq<Memo>)
      requires Indexed(ll, items) && Shows(ll, before) && p < |ll| && ll[p] == e
      modifies this`ll, e
      ensures Indexed(ll, items) && Shows(ll, [Memo(e.stanza, n, ts)] + (before[..p] + before[p + 1..]))
      ensures forall x :: x in ll <==> x in old(ll)
    {
      MovedToFront(ll, items, p);
      ShowsAround(ll, before, p);
      ghost var newer, older := ll[..p], ll[p + 1..];
      assert e !in newer && e !in older;
      e.n, e.ts := n, ts;
      ShowsMoved(e, newer, before[..p], older, before[p + 1..]);
      ll := MoveToFront(ll, e);
    }

    /** Push a new entry to the front. */
    method Push(stanza: string, n: nat, ts: int, ghost before: seq<Memo>) returns (ghost pushed: DedupEntry)
      requires Indexed(ll, items) && Shows(ll, before) && stanza !in items
      modifies this`ll, this`items
      ensures Indexed(ll, items) && Shows(ll, [Memo(stanza, n, ts)] + before)
      ensures fresh(pushed) && forall x :: x in ll ==> x == pushed || x in old(ll)
    {
      var e := new DedupEntry(stanza, n, ts);
      pushed := e;
      PushedIndexed(ll, items, e);
      ShowsConcat([e], [Memo(stanza, n, ts)], ll, before);
      ll := [e] + ll;
      items := items[stanza := e];
    }

    /** Remove the oldest entry from list and index. */
    method EvictBack(ghost shown: seq<Memo>)
      requires Indexed(ll, items) && Shows(ll, shown) && ll != []
      modifies this`ll, this`items
      ensures Indexed(ll, items) && Shows(ll, shown[..|shown| - 1])
      ensures ll == old(ll)[..|shown| - 1]
    {
      EvictedIndexed(ll, items);
      var back := ll[|ll| - 1];
      ll := ll[..|ll| - 1];
      items := items - {back.stanza};
    }

    /** Drop entries from the back while the list is longer than the capacity. */
    method Trim(ghost before: seq<Memo>)
      requires Indexed(ll, items) && Shows(ll, before)
      modifies this`ll, this`items
      ensures Indexed(ll, items) && Shows(ll, Front(before))
      ensures forall e :: e in ll ==> e in old(ll)
    {
      ghost var shown := before;
      while |ll| > WINDOW_CAP
        invariant Indexed(ll, items) && Shows(ll, shown) && Front(shown) == Front(before)
        invariant forall e :: e in ll ==> e in old(ll)
        decreases |ll|
      {
        EvictBack(shown);
        shown := shown[..|shown| - 1];
      }
    }

    method Refresh(stanza: string, n: nat, ts: int)
      requires Valid() && stanza in items
      modifies Repr
      ensures Valid() && Repr == old(Repr) && history == old(history) + [Memo(stanza, n, ts)]
    {
      var e := items[stanza];
      ghost var p :| 0 <= p < |ll| && ll[p] == e;
      WindowRefreshed(history, Memo(stanza, n, ts), p);
      Touch(e, n, ts, p, Window(history));
      history := history + [Memo(stanza, n, ts)];
    }

    method Add(stanza: string, n: nat, ts: int)
      requires Valid() && stanza !in items
      modifies this
      ensures Valid() && fresh(Repr - old(Repr)) && history == old(history) + [Memo(stanza, n, ts)]
    {
      ghost var before := Window(history);
      ghost var after := Front([Memo(stanza, n, ts)] + before);
      assert Window(history + [Memo(stanza, n, ts)]) == after by {
        assert forall i :: 0 <= i < |before| ==> before[i].stanza == ll[i].stanza;
        WindowGrown(history, Memo(stanza, n, ts));
      }
      Insert(stanza, n, ts, before);
      history := history + [Memo(stanza, n, ts)];
    }

    method Insert(stanza: string, n: nat, ts: int, ghost before: seq<Memo>)
      requires Indexed(ll, items) && Shows(ll, before) && stanza !in items
      requires this in Repr && forall e :: e in ll ==> e in Repr
      modifies this`ll, this`items, this`Repr
      ensures Indexed(ll, items) && Shows(ll, Front([Memo(stanza, n, ts)] + before))
      ensures fresh(Repr - old(Repr)) && this in Repr && forall e :: e in ll ==> e in Repr
    {
      ghost var pushed := Push(stanza, n, ts, before);
      Repr := Repr + {pushed};
      Trim([Memo(stanza, n, ts)] + before);
    }

    method Store(stanza: string, n: nat, ts: int)
      requires Valid()
      modifies Repr
      ensures Valid() && fresh(Repr - old(Repr)) && history == old(history) + [Memo(stanza, n, ts)]
    {
      if stanza in items {
        Refresh(stanza, n, ts);
      } else {
        Add(stanza, n, ts);
      }
    }
  }

  class DedupWindows {
    var covs: map<string, ConvWindow>
    ghost var Repr: set<object>

    /** Every window is sound, and no two share anything. */
    ghost predicate Valid()
      reads this, Repr
    {
      && this in Repr
      && (forall c :: c in covs ==> covs[c] in Repr && covs[c].Repr <= Repr && this !in covs[c].Repr && covs[c].Valid())
      && (forall c, d :: c in covs && d in covs && c != d ==> covs[c].Repr !! covs[d].Repr)
    }

    /** Everything stored for one conversation, in order. */
    ghost function History(cov: string): seq<Memo>
      reads this, Repr
      requires Valid()
    {
      if cov in covs then covs[cov].history else []
    }

    constructor ()
      ensures Valid() && fresh(Repr) && forall c :: History(c) == []
    {
      covs, Repr := map[], {this};
    }

    /** windowFor: the window of a conversation, created on first use. */
    method WindowFor(cov: string) returns (w: ConvWindow)
      requires Valid()
      modifies this
      ensures Valid() && fresh(Repr - old(Repr)) && cov in covs && covs[cov] == w
      ensures forall c :: History(c) == old(History(c))
    {
      if cov in covs {
        return covs[cov];
      }
      w := new ConvWindow();
      covs := covs[cov := w];
      Repr := Repr + w.Repr;
    }

    /** Does not modify anything: a lookup does not refresh recency. */
    method Lookup(cov: string, stanza: string) returns (hit: Option<(nat, int)>)
      requires Valid()
      ensures hit == Answer(History(cov), stanza)
    {
      if stanza == "" || cov !in covs {
        AnswerMiss(History(cov), stanza);
        return None;
      }
      hit := covs[cov].Lookup(stanza);
      if hit.Some? {
        AnswerHit(History(cov), Memo(stanza, hit.value.0, hit.value.1));
      } else {
        AnswerMiss(History(cov), stanza);
      }
    }

    /** Remembers one stanza of one conversation and touches no other. */
    method Store(cov: string, stanza: string, n: nat, ts: int)
      requires Valid()
      modifies Repr
      ensures Valid() && fresh(Repr - old(Repr))
      ensures forall c ::
                History(c) == old(History(c)) + (if c == cov && stanza != "" then [Memo(stanza, n, ts)] else [])
    {
      if stanza == "" {
        return;
      }
      var w := WindowFor(cov);
      StoreIn(cov, stanza, n, ts);
    }

    method StoreIn(cov: string, stanza: string, n: nat, ts: int)
      requires Valid() && cov in covs
      modifies Repr
      ensures Valid() && fresh(Repr - old(Repr)) && covs == old(covs)
      ensures covs[cov].history == old(covs[cov].history) + [Memo(stanza, n, ts)]
      ensures forall c :: c in covs && c != cov ==> covs[c].history == old(covs[c].history)
    {
      hide Indexed;
      hide Shows;
      hide Window;
      var w := covs[cov];
      w.Store(stanza, n, ts);
      forall c | c in covs && c != cov
        ensures covs[c].Valid() && covs[c].Repr == old(covs[c].Repr) && covs[c].Repr !! w.Repr
          && covs[c].history == old(covs[c].history)
      {
        assert covs[c].Repr !! old(w.Repr);
      }
      Repr := Repr + w.Repr;
    }
  }
}
