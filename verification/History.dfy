/**
  Backward pagination over the messages of one conversation
  (internal/logic/message/service.go:174-183, 294-334), and a client that follows it to the end.
 */
module History {
  import opened Messages

  const DEFAULT_LIMIT: int := 50
  const MAX_LIMIT: int := 100

  /** clampLimit. */
  function ClampLimit(limit: int): (r: nat)
    ensures 1 <= r <= 100
    ensures 1 <= limit <= 100 ==> r == limit
    ensures limit <= 0 ==> r == 50
    ensures limit > 100 ==> r == 100
  {
    if limit <= 0 then DEFAULT_LIMIT else if limit > MAX_LIMIT then MAX_LIMIT else limit
  }

  /** WHERE cov_id = ? and, for a positive before_seq, seq < ?. */
  predicate Wanted(m: Message, cov: string, before: int) {
    m.cov == cov && (before > 0 ==> m.n < before)
  }

  function Matching(t: Table, cov: string, before: int): (rows: seq<Message>)
    ensures forall m :: m in rows <==> m in t && Wanted(m, cov, before)
  {
    if t == [] then []
    else
      var rest := Matching(t[..|t| - 1], cov, before);
      assert t == t[..|t| - 1] + [t[|t| - 1]];
      if Wanted(t[|t| - 1], cov, before) then rest + [t[|t| - 1]] else rest
  }

  function Insert(rows: seq<Message>, m: Message): (r: seq<Message>)
    ensures |r| == |rows| + 1 && forall x :: x in r <==> x in rows || x == m
  {
    if rows == [] || rows[0].n <= m.n then [m] + rows else [rows[0]] + Insert(rows[1..], m)
  }

  /** ORDER BY seq DESC. */
  function Newest(rows: seq<Message>): (r: seq<Message>)
    ensures |r| == |rows| && forall x :: x in r <==> x in rows
  {
    if rows == [] then []
    else
      assert rows == rows[..|rows| - 1] + [rows[|rows| - 1]];
      Insert(Newest(rows[..|rows| - 1]), rows[|rows| - 1])
  }

  ghost predicate Descending(rows: seq<Message>) {
    forall i, j :: 0 <= i < j < |rows| ==> rows[i].n > rows[j].n
  }

  ghost predicate Ascending(rows: seq<Message>) {
    forall i, j :: 0 <= i < j < |rows| ==> rows[i].n < rows[j].n
  }

  /** Positive seqs, no two alike within a conversation. */
  ghost predicate DistinctSeqs(t: Table) {
    && (forall i :: 0 <= i < |t| ==> t[i].n > 0)
    && (forall i, j :: 0 <= i < j < |t| ==> !SameSeq(t[i], t[j]))
  }

  lemma {:induction false} InsertDescending(rows: seq<Message>, m: Message)
    requires Descending(rows) && forall x :: x in rows ==> x.n != m.n
    ensures Descending(Insert(rows, m))
  {
    if rows != [] && rows[0].n > m.n {
      InsertDescending(rows[1..], m);
      var r := Insert(rows[1..], m);
      forall i | 0 <= i < |r| ensures rows[0].n > r[i].n {
        assert r[i] in r;
      }
    } else {
      forall i | 0 <= i < |rows| ensures m.n > rows[i].n {
        assert rows[i] in rows;
        assert i > 0 ==> rows[0].n > rows[i].n;
      }
    }
  }

  ghost predicate Apart(rows: seq<Message>) {
    forall i, j :: 0 <= i < j < |rows| ==> rows[i].n != rows[j].n
  }

  lemma {:induction false} NewestDescending(rows: seq<Message>)
    requires Apart(rows)
    ensures Descending(Newest(rows))
  {
    if rows != [] {
      var end := |rows| - 1;
      NewestDescending(rows[..end]);
      forall x | x in Newest(rows[..end]) ensures x.n != rows[end].n {
        var i :| 0 <= i < end && rows[..end][i] == x;
      }
      InsertDescending(Newest(rows[..end]), rows[end]);
    }
  }

  lemma {:induction false} MatchingApart(t: Table, cov: string, before: int)
    requires DistinctSeqs(t)
    ensures Apart(Matching(t, cov, before))
  {
    if t != [] {
      var end := |t| - 1;
      MatchingApart(t[..end], cov, before);
      var rest := Matching(t[..end], cov, before);
      if Wanted(t[end], cov, before) {
        forall k | 0 <= k < |rest| ensures rest[k].n != t[end].n {
          assert rest[k] in rest;
          var i :| 0 <= i < end && t[..end][i] == rest[k];
          assert !SameSeq(t[i], t[end]);
        }
      }
    }
  }

  /** Everything of a conversation before a seq, newest first. */
  function Rows(t: Table, cov: string, before: int): (rows: seq<Message>)
    ensures forall m :: m in rows <==> m in t && Wanted(m, cov, before)
  {
    Newest(Matching(t, cov, before))
  }

  lemma RowsDescending(t: Table, cov: string, before: int)
    requires DistinctSeqs(t)
    ensures Descending(Rows(t, cov, before))
  {
    MatchingApart(t, cov, before);
    NewestDescending(Matching(t, cov, before));
  }

  /** A descending list is known by its members. */
  lemma {:induction false} DescendingUnique(xs: seq<Message>, ys: seq<Message>)
    requires Descending(xs) && Descending(ys) && forall m :: m in xs <==> m in ys
    ensures xs == ys
  {
    assert ys != [] ==> ys[0] in xs;
    if xs != [] {
      assert xs[0] in ys;
      var j :| 0 <= j < |ys| && ys[j] == xs[0];
      assert ys[0] in xs;
      var i :| 0 <= i < |xs| && xs[i] == ys[0];
      assert i == 0 && j == 0;
      forall m | m in xs[1..] ensures m in ys[1..] {
        var k :| 0 <= k < |xs[1..]| && xs[1..][k] == m;
        assert m == xs[k + 1] && m in ys && m != ys[0];
        var l :| 0 <= l < |ys| && ys[l] == m;
        assert ys[1..][l - 1] == m;
      }
      forall m | m in ys[1..] ensures m in xs[1..] {
        var k :| 0 <= k < |ys[1..]| && ys[1..][k] == m;
        assert m == ys[k + 1] && m in xs && m != xs[0];
        var l :| 0 <= l < |xs| && xs[l] == m;
        assert xs[1..][l - 1] == m;
      }
      DescendingUnique(xs[1..], ys[1..]);
    }
  }

  /** Asking with the seq of the k-th newest message continues right after it. */
  lemma RowsContinue(t: Table, cov: string, before: int, k: nat)
    requires DistinctSeqs(t) && k < |Rows(t, cov, before)|
    ensures Rows(t, cov, Rows(t, cov, before)[k].n) == Rows(t, cov, before)[k + 1..]
  {
    var all := Rows(t, cov, before);
    RowsDescending(t, cov, before);
    RowsDescending(t, cov, all[k].n);
    var rest := Rows(t, cov, all[k].n);
    assert all[k] in all && all[k].n > 0;
    forall m | m in rest ensures m in all[k + 1..] {
      assert m in all;
      var i :| 0 <= i < |all| && all[i] == m;
      assert i > k;
      assert all[k + 1..][i - k - 1] == m;
    }
    forall m | m in all[k + 1..] ensures m in rest {
      var i :| 0 <= i < |all[k + 1..]| && all[k + 1..][i] == m;
      assert m == all[k + 1 + i];
      assert m in all;
    }
    DescendingUnique(rest, all[k + 1..]);
  }

  function Reversed(rows: seq<Message>): (r: seq<Message>)
    ensures |r| == |rows| && forall i :: 0 <= i < |rows| ==> r[i] == rows[|rows| - 1 - i]
  {
    if rows == [] then [] else Reversed(rows[1..]) + [rows[0]]
  }

  lemma {:induction false} ReversedConcat(xs: seq<Message>, ys: seq<Message>)
    ensures Reversed(xs + ys) == Reversed(ys) + Reversed(xs)
  {
    if xs == [] {
      assert xs + ys == ys;
    } else {
      assert (xs + ys)[1..] == xs[1..] + ys;
      ReversedConcat(xs[1..], ys);
    }
  }

  function Take(rows: seq<Message>, k: nat): seq<Message> {
    if |rows| > k then rows[..k] else rows
  }

  /** A list turned round by walking it from its end. */
  method Turn(rows: seq<Message>) returns (page: seq<Message>)
    ensures page == Reversed(rows)
  {
    page := [];
    var i := |rows| - 1;
    while i >= 0
      invariant -1 <= i < |rows| && page == Reversed(rows[i + 1..])
    {
      assert rows[i..][1..] == rows[i + 1..];
      page := page + [rows[i]];
      i := i - 1;
    }
    assert i + 1 == 0 && rows[0..] == rows;
  }

  /**
    A page holds messages of the conversation, before the seq if a positive one was given, in
    ascending order, at most `limit`; whatever else there is is older than all of the page, which
    is then full; and `hasMore` says whether there is anything else.
   */
  ghost predicate PageOk(t: Table, cov: string, before: int, limit: nat, page: seq<Message>, hasMore: bool) {
    && |page| <= limit && Ascending(page)
    && (forall m :: m in page ==> m in t && m.cov == cov && (before <= 0 || m.n < before))
    && (forall m :: m in t && m.cov == cov && (before <= 0 || m.n < before) && m !in page ==>
          hasMore && |page| == limit && forall p :: p in page ==> m.n < p.n)
    && (hasMore ==> exists m :: m in t && m.cov == cov && (before <= 0 || m.n < before) && m !in page)
  }

  /** The first rows are the newest. */
  lemma TopRows(rows: seq<Message>, limit: nat)
    requires Descending(rows)
    ensures |Take(rows, limit)| <= limit && Descending(Take(rows, limit))
    ensures forall m :: m in Take(rows, limit) ==> m in rows
    ensures forall m :: m in rows && m !in Take(rows, limit) ==>
      |rows| > limit == |Take(rows, limit)| && forall p :: p in Take(rows, limit) ==> m.n < p.n
    ensures |rows| > limit ==> exists m :: m in rows && m !in Take(rows, limit)
  {
    var top := Take(rows, limit);
    assert forall i :: 0 <= i < |top| ==> rows[i] in top;
    forall m | m in rows && m !in top ensures |rows| > limit == |top| && forall p :: p in top ==> m.n < p.n {
      var i :| 0 <= i < |rows| && rows[i] == m;
      assert !(i < |top|);
    }
    if |rows| > limit {
      assert rows[limit] in rows;
      assert forall i :: 0 <= i < limit ==> top[i].n > rows[limit].n;
    }
  }

  lemma DescendingReversed(rows: seq<Message>)
    requires Descending(rows)
    ensures Ascending(Reversed(rows))
  {
  }

  lemma PageMeans(t: Table, cov: string, before: int, limit: nat)
    requires DistinctSeqs(t)
    ensures PageOk(t, cov, before, limit, Reversed(Take(Rows(t, cov, before), limit)), |Rows(t, cov, before)| > limit)
  {
    RowsDescending(t, cov, before);
    hide Reversed;
    hide Take;
    TopPage(t, cov, before, limit, Rows(t, cov, before));
  }

  lemma TopPage(t: Table, cov: string, before: int, limit: nat, rows: seq<Message>)
    requires Descending(rows) && forall m :: m in rows <==> m in t && m.cov == cov && (before <= 0 || m.n < before)
    ensures PageOk(t, cov, before, limit, Reversed(Take(rows, limit)), |rows| > limit)
  {
    TopRows(rows, limit);
    ReversedMembers(Take(rows, limit));
    DescendingReversed(Take(rows, limit));
    hide Reversed;
    hide Take;
    hide Descending;
    hide Ascending;
  }

  /** queryCov: the newest `limit` messages before a seq, oldest first, and whether there are more. */
  method QueryCov(t: Table, cov: string, before: int, limit: nat) returns (page: seq<Message>, hasMore: bool)
    requires limit > 0
    ensures page == Reversed(Take(Rows(t, cov, before), limit)) && hasMore == (|Rows(t, cov, before)| > limit)
    ensures DistinctSeqs(t) ==> PageOk(t, cov, before, limit, page, hasMore)
  {
    if DistinctSeqs(t) {
      PageMeans(t, cov, before, limit);
    }
    hide PageOk;
    hide Rows;
    hide Reversed;
    var rows := Take(Rows(t, cov, before), limit + 1);
    hasMore := |rows| > limit;
    if hasMore {
      rows := rows[..limit];
    }
    assert rows == Take(Rows(t, cov, before), limit);
    page := Turn(rows);
  }

  /** Pages laid end to end, the last one first: the reading order of a chat. */
  function InOrder(pages: seq<seq<Message>>): seq<Message> {
    if pages == [] then [] else pages[|pages| - 1] + InOrder(pages[..|pages| - 1])
  }

  lemma InOrderAppend(pages: seq<seq<Message>>, page: seq<Message>)
    ensures InOrder(pages + [page]) == page + InOrder(pages)
  {
    assert (pages + [page])[..|pages|] == pages;
  }

  /** `done` messages are read, the rest is what the next request sees. */
  ghost predicate ReadTo(all: seq<Message>, next: seq<Message>, pages: seq<seq<Message>>, done: nat) {
    done <= |all| && next == all[done..] && InOrder(pages) == Reversed(all[..done])
  }

  lemma PageAdds(all: seq<Message>, next: seq<Message>, pages: seq<seq<Message>>, done: nat, k: nat)
    requires ReadTo(all, next, pages, done) && k <= |next|
    ensures ReadTo(all, next[k..], pages + [Reversed(next[..k])], done + k)
  {
    InOrderAppend(pages, Reversed(next[..k]));
    hide InOrder;
    ReversedConcat(all[..done], next[..k]);
    hide Reversed;
    assert all[..done] + next[..k] == all[..done + k];
    assert next[k..] == all[done + k..];
  }

  /** The least number of pages that hold n messages; one even when there are none. */
  ghost predicate IsRequestCount(k: nat, n: nat, limit: nat) {
    k >= 1 && n <= k * limit && (k > 1 ==> (k - 1) * limit < n)
  }

  lemma OneMorePage(k: nat, limit: nat)
    ensures (k + 1) * limit == k * limit + limit
  {
  }

  /** What a client that follows has_more knows. */
  ghost predicate Reading(all: seq<Message>, next: seq<Message>, pages: seq<seq<Message>>, limit: nat) {
    ReadTo(all, next, pages, |pages| * limit) && (pages != [] ==> next != [])
  }

  /** The oldest message of a full page. */
  lemma OldestOfPage(next: seq<Message>, limit: nat)
    requires 0 < limit <= |next|
    ensures |Reversed(Take(next, limit))| == limit && Reversed(Take(next, limit))[0] == next[limit - 1]
      && Take(next, limit) == next[..limit]
  {
  }

  lemma ReadsOn(t: Table, cov: string, before: int, limit: nat, pages: seq<seq<Message>>)
    requires DistinctSeqs(t) && limit > 0 && Reading(Rows(t, cov, 0), Rows(t, cov, before), pages, limit)
      && |Rows(t, cov, before)| > limit
    ensures var page := Reversed(Take(Rows(t, cov, before), limit));
      |page| == limit && Reading(Rows(t, cov, 0), Rows(t, cov, page[0].n), pages + [page], limit)
  {
    hide Rows;
    hide Reversed;
    hide ReadTo;
    hide Take;
    hide DistinctSeqs;
    var all, next := Rows(t, cov, 0), Rows(t, cov, before);
    RowsContinue(t, cov, before, limit - 1);
    OldestOfPage(next, limit);
    PageAdds(all, next, pages, |pages| * limit, limit);
    OneMorePage(|pages|, limit);
  }

  lemma ReadsLast(all: seq<Message>, next: seq<Message>, pages: seq<seq<Message>>, limit: nat)
    requires limit > 0 && Reading(all, next, pages, limit) && |next| <= limit
    ensures InOrder(pages + [Reversed(next)]) == Reversed(all) && IsRequestCount(|pages| + 1, |all|, limit)
  {
    PageAdds(all, next, pages, |pages| * limit, |next|);
    OneMorePage(|pages|, limit);
    hide Reversed;
    hide InOrder;
    assert next[..|next|] == next;
    assert all[..|all|] == all;
  }

  /**
    Asking again with before_seq set to the smallest seq of the last page, until there are no
    more: every message of the conversation exactly once, oldest first, in as few requests as
    the limit allows; each page lies entirely below the one before.
   */
  method ReadAll(t: Table, cov: string, wish: int) returns (pages: seq<seq<Message>>)
    requires DistinctSeqs(t)
    ensures InOrder(pages) == Reversed(Rows(t, cov, 0)) && Ascending(InOrder(pages))
    ensures forall m :: m in InOrder(pages) <==> m in t && m.cov == cov
    ensures IsRequestCount(|pages|, |Rows(t, cov, 0)|, ClampLimit(wish))
  {
    ReadOrder(t, cov);
    ReadStart(Rows(t, cov, 0), ClampLimit(wish));
    hide Rows;
    hide Reading;
    hide InOrder;
    hide Reversed;
    var limit := ClampLimit(wish);
    var before := 0;
    pages := [];
    while true
      invariant Reading(Rows(t, cov, 0), Rows(t, cov, before), pages, limit)
      decreases |Rows(t, cov, before)|
    {
      var page, hasMore := QueryCov(t, cov, before, limit);
      if !hasMore {
        ReadsLast(Rows(t, cov, 0), Rows(t, cov, before), pages, limit);
        pages := pages + [page];
        return;
      }
      ReadsOn(t, cov, before, limit, pages);
      FewerLeft(t, cov, before, limit);
      pages := pages + [page];
      before := page[0].n;
    }
  }

  lemma ReadStart(all: seq<Message>, limit: nat)
    ensures Reading(all, all, [], limit)
  {
    assert all[0..] == all;
  }

  lemma FewerLeft(t: Table, cov: string, before: int, limit: nat)
    requires DistinctSeqs(t) && 0 < limit < |Rows(t, cov, before)|
    ensures var page := Reversed(Take(Rows(t, cov, before), limit));
      |page| == limit && |Rows(t, cov, page[0].n)| < |Rows(t, cov, before)|
  {
    RowsContinue(t, cov, before, limit - 1);
    OldestOfPage(Rows(t, cov, before), limit);
    hide Rows;
    hide Reversed;
  }

  lemma ReversedMembers(xs: seq<Message>)
    ensures forall m :: m in Reversed(xs) <==> m in xs
  {
    var r := Reversed(xs);
    forall m | m in xs ensures m in r {
      var i :| 0 <= i < |xs| && xs[i] == m;
      assert r[|xs| - 1 - i] == m;
    }
    forall m | m in r ensures m in xs {
      var i :| 0 <= i < |r| && r[i] == m;
      assert xs[|xs| - 1 - i] == m;
    }
  }

  lemma ReadOrder(t: Table, cov: string)
    requires DistinctSeqs(t)
    ensures Ascending(Reversed(Rows(t, cov, 0)))
    ensures forall m :: m in Reversed(Rows(t, cov, 0)) <==> m in t && m.cov == cov
  {
    RowsDescending(t, cov, 0);
    ReversedMembers(Rows(t, cov, 0));
    hide DistinctSeqs;
    hide Rows;
    hide Reversed;
  }
}
