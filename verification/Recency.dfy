/**
  What the sliding dedup window of internal/router/dedup.go remembers, as a function of the
  history of stores into one conversation, and an independent account of when a lookup hits.
 */
module Recency {
  import opened Options

  const WINDOW_CAP: nat := 100

  datatype Memo = Memo(stanza: string, n: nat, ts: int)

  function Stanzas(ms: seq<Memo>): set<string> {
    if ms == [] then {} else {ms[0].stanza} + Stanzas(ms[1..])
  }

  function Without(ms: seq<Memo>, stanza: string): seq<Memo> {
    if ms == [] then []
    else if ms[0].stanza == stanza then Without(ms[1..], stanza)
    else [ms[0]] + Without(ms[1..], stanza)
  }

  /** Every remembered stanza once, most recently stored first. */
  function ByRecency(history: seq<Memo>): seq<Memo> {
    if history == [] then []
    else
      var last := history[|history| - 1];
      [last] + Without(ByRecency(history[..|history| - 1]), last.stanza)
  }

  function Front(ms: seq<Memo>): seq<Memo> {
    if |ms| <= WINDOW_CAP then ms else ms[..WINDOW_CAP]
  }

  /** The window: the 100 most recently stored distinct stanzas. */
  function Window(history: seq<Memo>): (w: seq<Memo>)
    ensures |w| <= WINDOW_CAP
  {
    Front(ByRecency(history))
  }

  ghost predicate Distinct(ms: seq<Memo>) {
    forall i, j :: 0 <= i < j < |ms| ==> ms[i].stanza != ms[j].stanza
  }

  /** i is where the stanza was last stored. */
  ghost predicate LastStored(history: seq<Memo>, stanza: string, i: nat) {
    && i < |history| && history[i].stanza == stanza
    && forall j :: i < j < |history| ==> history[j].stanza != stanza
  }

  lemma {:induction false} StanzasConcat(xs: seq<Memo>, ys: seq<Memo>)
    ensures Stanzas(xs + ys) == Stanzas(xs) + Stanzas(ys)
  {
    if xs == [] {
      assert xs + ys == ys;
    } else {
      assert (xs + ys)[1..] == xs[1..] + ys;
      StanzasConcat(xs[1..], ys);
    }
  }

  lemma {:induction false} WithoutAbsent(ms: seq<Memo>, stanza: string)
    requires forall i :: 0 <= i < |ms| ==> ms[i].stanza != stanza
    ensures Without(ms, stanza) == ms
  {
    if ms != [] {
      WithoutAbsent(ms[1..], stanza);
    }
  }

  /** Removing a stanza of a duplicate-free list cuts out its one element. */
  lemma {:induction false} WithoutPresent(ms: seq<Memo>, p: nat)
    requires Distinct(ms) && p < |ms|
    ensures Without(ms, ms[p].stanza) == ms[..p] + ms[p + 1..]
  {
    if p == 0 {
      WithoutAbsent(ms[1..], ms[0].stanza);
    } else {
      WithoutPresent(ms[1..], p - 1);
    }
  }

  lemma {:induction false} WithoutMembers(ms: seq<Memo>, stanza: string)
    ensures forall m :: m in Without(ms, stanza) <==> m in ms && m.stanza != stanza
  {
    if ms != [] {
      WithoutMembers(ms[1..], stanza);
    }
  }

  lemma DistinctWithout(ms: seq<Memo>, stanza: string)
    requires Distinct(ms)
    ensures Distinct(Without(ms, stanza))
  {
    if p :| 0 <= p < |ms| && ms[p].stanza == stanza {
      WithoutPresent(ms, p);
    } else {
      WithoutAbsent(ms, stanza);
    }
  }

  lemma CutBefore(ms: seq<Memo>, p: nat, k: nat)
    requires p < k < |ms|
    ensures (ms[..p] + ms[p + 1..])[..k - 1] == ms[..p] + ms[p + 1..k]
    ensures {ms[p].stanza} + Stanzas(ms[..p] + ms[p + 1..k]) == Stanzas(ms[..k])
  {
    assert ms[..k] == ms[..p] + ([ms[p]] + ms[p + 1..k]);
    StanzasConcat(ms[..p], [ms[p]] + ms[p + 1..k]);
    StanzasConcat([ms[p]], ms[p + 1..k]);
    StanzasConcat(ms[..p], ms[p + 1..k]);
  }

  /** Where an element goes, and who stands before it, when another stanza is removed. */
  lemma Shifted(ms: seq<Memo>, stanza: string, k: nat) returns (k': nat)
    requires Distinct(ms) && k < |ms| && ms[k].stanza != stanza
    ensures var r := Without(ms, stanza);
      k' < |r| && r[k'] == ms[k] && {stanza} + Stanzas(r[..k']) == {stanza} + Stanzas(ms[..k])
  {
    k' := k;
    if p :| 0 <= p < |ms| && ms[p].stanza == stanza {
      WithoutPresent(ms, p);
      if p < k {
        k' := k - 1;
        CutBefore(ms, p, k);
      } else {
        assert (ms[..p] + ms[p + 1..])[..k] == ms[..k];
      }
    } else {
      WithoutAbsent(ms, stanza);
    }
  }

  lemma {:induction false} ByRecencyDistinct(history: seq<Memo>)
    ensures Distinct(ByRecency(history))
  {
    if history != [] {
      var last := history[|history| - 1];
      var before := ByRecency(history[..|history| - 1]);
      ByRecencyDistinct(history[..|history| - 1]);
      DistinctWithout(before, last.stanza);
      var rest := Without(before, last.stanza);
      WithoutMembers(before, last.stanza);
      assert forall i :: 0 <= i < |rest| ==> rest[i] in rest;
    }
  }

  /** One more store: the newest first, then the others as before. */
  lemma PositionStep(before: seq<Memo>, last: Memo, i: nat, k: nat) returns (k': nat)
    requires i < |before| && before[i].stanza != last.stanza
    requires k < |ByRecency(before)| && ByRecency(before)[k] == before[i]
    requires Stanzas(ByRecency(before)[..k]) == Stanzas(before[i + 1..])
    ensures var list := ByRecency(before + [last]);
      k' < |list| && list[k'] == before[i] && Stanzas(list[..k']) == Stanzas(before[i + 1..] + [last])
  {
    ByRecencyDistinct(before);
    var j := Shifted(ByRecency(before), last.stanza, k);
    var rest := Without(ByRecency(before), last.stanza);
    assert (before + [last])[..|before|] == before;
    assert ByRecency(before + [last]) == [last] + rest;
    k' := j + 1;
    assert ([last] + rest)[..k'] == [last] + rest[..j];
    StanzasConcat([last], rest[..j]);
    StanzasConcat(before[i + 1..], [last]);
  }

  /** A stanza stands in the list after exactly the distinct stanzas stored since. */
  lemma {:induction false} Position(history: seq<Memo>, stanza: string, i: nat) returns (k: nat)
    requires LastStored(history, stanza, i)
    ensures k < |ByRecency(history)| && ByRecency(history)[k] == history[i]
    ensures Stanzas(ByRecency(history)[..k]) == Stanzas(history[i + 1..])
  {
    var end := |history| - 1;
    if i == end {
      return 0;
    }
    var before := history[..end];
    k := Position(before, stanza, i);
    k := PositionStep(before, history[end], i, k);
    assert before + [history[end]] == history;
    assert history[i + 1..] == before[i + 1..] + [history[end]];
  }

  lemma {:induction false} StanzaIn(ms: seq<Memo>, stanza: string)
    ensures stanza in Stanzas(ms) <==> exists i :: 0 <= i < |ms| && ms[i].stanza == stanza
  {
    if ms != [] {
      StanzaIn(ms[1..], stanza);
      if stanza in Stanzas(ms[1..]) {
        var i :| 0 <= i < |ms[1..]| && ms[1..][i].stanza == stanza;
        assert ms[i + 1].stanza == stanza;
      }
    }
  }

  lemma {:induction false} DistinctCount(ms: seq<Memo>)
    requires Distinct(ms)
    ensures |Stanzas(ms)| == |ms|
  {
    if ms != [] {
      DistinctCount(ms[1..]);
      assert ms == [ms[0]] + ms[1..];
      StanzaIn(ms[1..], ms[0].stanza);
    }
  }

  lemma {:induction false} Remembered(history: seq<Memo>, m: Memo)
    requires m in ByRecency(history)
    ensures exists i: nat :: LastStored(history, m.stanza, i) && history[i] == m
  {
    var end := |history| - 1;
    if m == history[end] {
      assert LastStored(history, m.stanza, end);
    } else {
      var before := history[..end];
      WithoutMembers(ByRecency(before), history[end].stanza);
      Remembered(before, m);
      var i: nat :| LastStored(before, m.stanza, i) && before[i] == m;
      assert LastStored(history, m.stanza, i);
    }
  }

  /**
    The window holds a memo exactly when it is the latest store of its stanza and fewer than
    100 distinct stanzas have been stored since.
   */
  lemma WindowHolds(history: seq<Memo>, m: Memo)
    ensures m in Window(history) <==>
      exists i: nat :: LastStored(history, m.stanza, i) && history[i] == m && |Stanzas(history[i + 1..])| < 100
  {
    var list := ByRecency(history);
    ByRecencyDistinct(history);
    if m in Window(history) {
      Remembered(history, m);
      var i: nat :| LastStored(history, m.stanza, i) && history[i] == m;
      var k := Position(history, m.stanza, i);
      var j :| 0 <= j < |Window(history)| && Window(history)[j] == m;
      assert list[j] == list[k];
      assert j == k;
      DistinctCount(list[..k]);
    }
    if i: nat :| LastStored(history, m.stanza, i) && history[i] == m && |Stanzas(history[i + 1..])| < WINDOW_CAP {
      var k := Position(history, m.stanza, i);
      DistinctCount(list[..k]);
      assert Window(history)[k] == m;
    }
  }

  /** At most one memo per stanza, so a lookup has one answer. */
  lemma WindowDistinct(history: seq<Memo>)
    ensures Distinct(Window(history))
  {
    ByRecencyDistinct(history);
  }

  lemma FrontCut(list: seq<Memo>, m: Memo, p: nat)
    requires p < |Front(list)|
    ensures var f := Front(list);
      Front([m] + (f[..p] + f[p + 1..])) == Front([m] + (list[..p] + list[p + 1..]))
  {
  }

  lemma FrontBeyond(list: seq<Memo>, m: Memo, p: nat)
    requires |Front(list)| <= p < |list|
    ensures Front([m] + Front(list)) == Front([m] + (list[..p] + list[p + 1..]))
  {
  }

  lemma FrontAfter(list: seq<Memo>, m: Memo)
    requires Distinct(list)
    ensures Front([m] + Without(list, m.stanza)) == Front([m] + Without(Front(list), m.stanza))
  {
    if p :| 0 <= p < |list| && list[p].stanza == m.stanza {
      WithoutPresent(list, p);
      if p < |Front(list)| {
        WithoutPresent(Front(list), p);
        FrontCut(list, m, p);
      } else {
        WithoutAbsent(Front(list), m.stanza);
        FrontBeyond(list, m, p);
      }
    } else {
      WithoutAbsent(list, m.stanza);
      WithoutAbsent(Front(list), m.stanza);
    }
  }

  /** The window after a store depends on the window before it alone. */
  lemma WindowAfter(history: seq<Memo>, m: Memo)
    ensures Window(history + [m]) == Front([m] + Without(Window(history), m.stanza))
  {
    ByRecencyDistinct(history);
    assert (history + [m])[..|history|] == history;
    FrontAfter(ByRecency(history), m);
  }

  /** Storing a remembered stanza moves it to the front with its new values. */
  lemma WindowRefreshed(history: seq<Memo>, m: Memo, p: nat)
    requires p < |Window(history)| && Window(history)[p].stanza == m.stanza
    ensures Window(history + [m]) == [m] + (Window(history)[..p] + Window(history)[p + 1..])
  {
    WindowAfter(history, m);
    WindowDistinct(history);
    WithoutPresent(Window(history), p);
  }

  /** Storing a stanza that is not remembered pushes it, and the oldest out when there were 100. */
  lemma WindowGrown(history: seq<Memo>, m: Memo)
    requires forall i :: 0 <= i < |Window(history)| ==> Window(history)[i].stanza != m.stanza
    ensures Window(history + [m]) == Front([m] + Window(history))
  {
    WindowAfter(history, m);
    WithoutAbsent(Window(history), m.stanza);
  }

  /** The independent account of a lookup: the values last stored, unless 100 other stanzas followed. */
  ghost function Answer(history: seq<Memo>, stanza: string): Option<(nat, int)> {
    if stanza != "" && exists i: nat :: LastStored(history, stanza, i) && |Stanzas(history[i + 1..])| < 100 then
      var i: nat :| LastStored(history, stanza, i) && |Stanzas(history[i + 1..])| < 100;
      Some((history[i].n, history[i].ts))
    else
      None
  }

  lemma AnswerHit(history: seq<Memo>, m: Memo)
    requires m in Window(history) && m.stanza != ""
    ensures Answer(history, m.stanza) == Some((m.n, m.ts))
  {
    WindowHolds(history, m);
  }

  lemma AnswerMiss(history: seq<Memo>, stanza: string)
    requires stanza == "" || forall m :: m in Window(history) ==> m.stanza != stanza
    ensures Answer(history, stanza) == None
  {
    if i: nat :| stanza != "" && LastStored(history, stanza, i) && |Stanzas(history[i + 1..])| < WINDOW_CAP {
      WindowHolds(history, history[i]);
    }
  }

  /** What was stored last is what a lookup answers. */
  lemma AnswerLatest(history: seq<Memo>, m: Memo)
    requires m.stanza != ""
    ensures Answer(history + [m], m.stanza) == Some((m.n, m.ts))
  {
    var h := history + [m];
    assert LastStored(h, m.stanza, |history|);
    assert h[|history| + 1..] == [];
    assert |Stanzas(h[|history| + 1..])| < WINDOW_CAP;
    forall i: nat | LastStored(h, m.stanza, i) ensures i == |history| {
    }
  }
}
