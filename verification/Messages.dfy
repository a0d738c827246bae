/**
  The `messages` table and the INSERT OR IGNORE / requery pair the batch writer runs for each
  row (internal/store/batch.go:149-195), under the two unique indexes of the table:
  UNIQUE(cov_id, seq) and UNIQUE(cov_id, stanza_id) over rows whose stanza_id is not ''.
 */
module Messages {
  import opened Options

  datatype Message = Message(cov: string, n: nat, stanza: string, ts: int, from: string, to: string, content: string)

  type Table = seq<Message>

  /** unicode.IsSpace. */
  predicate IsSpace(c: char) {
    c in {'\t', '\n', '\U{0B}', '\U{0C}', '\r', ' ', '\U{85}', '\U{A0}', '\U{1680}', '\U{2028}', '\U{2029}', '\U{202F}',
      '\U{205F}', '\U{3000}'}
    || '\U{2000}' <= c <= '\U{200A}'
  }

  /** strings.TrimSpace(s) == "". */
  predicate Blank(s: string) {
    forall i :: 0 <= i < |s| ==> IsSpace(s[i])
  }

  /** The code points of Unicode's White_Space property. */
  const WHITE_SPACE: set<int> :=
    {0x09, 0x0A, 0x0B, 0x0C, 0x0D, 0x20, 0x85, 0xA0, 0x1680, 0x2000, 0x2001, 0x2002, 0x2003, 0x2004, 0x2005, 0x2006,
     0x2007, 0x2008, 0x2009, 0x200A, 0x2028, 0x2029, 0x202F, 0x205F, 0x3000}

  lemma SpacesAre(c: char)
    ensures IsSpace(c) <==> c as int in WHITE_SPACE
  {
  }

  /** A character with a glyph of its own in ASCII. */
  predicate Visible(s: string) {
    exists i :: 0 <= i < |s| && '!' <= s[i] <= '~'
  }

  /** Stanza ids as clients make them, UUIDs say, are not blank; blank ones consist of white space only. */
  lemma BlankMeans(s: string)
    ensures Blank(s) <==> forall i :: 0 <= i < |s| ==> s[i] as int in WHITE_SPACE
    ensures Visible(s) ==> !Blank(s)
  {
    forall i | 0 <= i < |s| ensures IsSpace(s[i]) <==> s[i] as int in WHITE_SPACE {
      SpacesAre(s[i]);
    }
  }

  /** Before i and from j on there is only white space; between them, none at either end. */
  ghost predicate CutAt(s: string, i: nat, j: nat) {
    && i <= j <= |s|
    && (forall p :: 0 <= p < i || j <= p < |s| ==> IsSpace(s[p]))
    && (i < j ==> !IsSpace(s[i]) && !IsSpace(s[j - 1]))
  }

  /** s is r with white space around it; r has none at either end. */
  ghost predicate Pads(s: string, r: string) {
    exists i: nat, j: nat :: CutAt(s, i, j) && r == s[i..j]
  }

  /** strings.TrimSpace. */
  function Trim(s: string): (r: string)
    ensures r == "" <==> Blank(s)
    decreases |s|
  {
    if s == "" then ""
    else if IsSpace(s[0]) then
      assert Blank(s[1..]) <==> Blank(s);
      Trim(s[1..])
    else if IsSpace(s[|s| - 1]) then Trim(s[..|s| - 1])
    else s
  }

  lemma CutAfter(s: string, i: nat, j: nat)
    requires s != "" && IsSpace(s[0]) && CutAt(s[1..], i, j)
    ensures CutAt(s, i + 1, j + 1) && s[i + 1..j + 1] == s[1..][i..j]
  {
    forall p | 0 <= p < i + 1 || j + 1 <= p < |s| ensures IsSpace(s[p]) {
      assert p > 0 ==> s[p] == s[1..][p - 1];
    }
    var r, q := s[i + 1..j + 1], s[1..][i..j];
    assert forall p :: 0 <= p < |r| ==> r[p] == q[p];
  }

  lemma CutBefore(s: string, i: nat, j: nat)
    requires s != "" && IsSpace(s[|s| - 1]) && CutAt(s[..|s| - 1], i, j)
    ensures CutAt(s, i, j) && s[i..j] == s[..|s| - 1][i..j]
  {
    forall p | 0 <= p < i || j <= p < |s| ensures IsSpace(s[p]) {
      assert p < |s| - 1 ==> s[p] == s[..|s| - 1][p];
    }
  }

  /** What is cut off both ends is white space, and all of it. */
  lemma {:induction false} TrimPads(s: string)
    ensures Pads(s, Trim(s))
    decreases |s|
  {
    if s == "" {
      assert CutAt(s, 0, 0);
    } else if IsSpace(s[0]) {
      TrimPads(s[1..]);
      var i: nat, j: nat :| CutAt(s[1..], i, j) && Trim(s[1..]) == s[1..][i..j];
      CutAfter(s, i, j);
    } else if IsSpace(s[|s| - 1]) {
      TrimPads(s[..|s| - 1]);
      var i: nat, j: nat :| CutAt(s[..|s| - 1], i, j) && Trim(s[..|s| - 1]) == s[..|s| - 1][i..j];
      CutBefore(s, i, j);
    } else {
      assert CutAt(s, 0, |s|) && s == s[0..|s|];
    }
  }

  /** Only one string is left when the white space around it is gone. */
  lemma CutOnce(s: string, i: nat, j: nat, k: nat, l: nat)
    requires CutAt(s, i, j) && CutAt(s, k, l)
    ensures s[i..j] == s[k..l]
  {
    if i < j {
      assert !(i < k) && !(l < j) && !(l <= i);
      assert k < l && !(k < i) && !(j < l);
    } else if k < l {
      assert false;
    }
  }

  lemma PadsOnce(s: string, r: string, q: string)
    requires Pads(s, r) && Pads(s, q)
    ensures r == q
  {
    var i: nat, j: nat :| CutAt(s, i, j) && r == s[i..j];
    var k: nat, l: nat :| CutAt(s, k, l) && q == s[k..l];
    CutOnce(s, i, j, k, l);
  }

  /** Trimming is exactly that: it undoes padding, whatever the padding. */
  lemma TrimUnpads(s: string, r: string)
    ensures Pads(s, r) <==> r == Trim(s)
  {
    TrimPads(s);
    if Pads(s, r) {
      PadsOnce(s, r, Trim(s));
    }
  }

  lemma TrimPadded(pre: string, name: string, post: string)
    requires Blank(pre) && Blank(post)
    requires name != "" ==> !IsSpace(name[0]) && !IsSpace(name[|name| - 1])
    ensures Trim(pre + name + post) == name
  {
    var s := pre + name + post;
    var i, j := |pre|, |pre| + |name|;
    assert s[i..j] == name;
    forall p | 0 <= p < i || j <= p < |s| ensures IsSpace(s[p]) {
      assert s[p] == if p < i then pre[p] else post[p - j];
    }
    assert CutAt(s, i, j);
    TrimUnpads(s, name);
  }

  /** The seqs of a conversation's messages. */
  function SeqsOf(t: Table, cov: string): set<nat> {
    set i | 0 <= i < |t| && t[i].cov == cov :: t[i].n
  }

  predicate SameStanza(r: Message, m: Message) {
    r.cov == m.cov && r.stanza == m.stanza && m.stanza != ""
  }

  predicate SameSeq(r: Message, m: Message) {
    r.cov == m.cov && r.n == m.n
  }

  /** Both unique indexes hold. */
  ghost predicate Unique(t: Table) {
    forall i, j :: 0 <= i < j < |t| ==> !SameSeq(t[i], t[j]) && !SameStanza(t[i], t[j])
  }

  predicate Conflicts(t: Table, m: Message) {
    exists i :: 0 <= i < |t| && (SameSeq(t[i], m) || SameStanza(t[i], m))
  }

  /** The first row SELECT ... WHERE cov_id = ? AND stanza_id = ? yields. */
  function FindStanza(t: Table, cov: string, stanza: string): (r: Option<Message>)
    ensures r.Some? ==> r.value in t && r.value.cov == cov && r.value.stanza == stanza
    ensures r.None? ==> forall i :: 0 <= i < |t| ==> !(t[i].cov == cov && t[i].stanza == stanza)
  {
    if t == [] then None
    else if t[0].cov == cov && t[0].stanza == stanza then Some(t[0])
    else FindStanza(t[1..], cov, stanza)
  }

  datatype WriteError = QueueFull | NilMessage | BeginFailed | InsertFailed | RequeryFailed | OriginalMissing
    | CommitFailed

  datatype WriteResult =
    | Stored(n: nat, ts: int, duplicated: bool)
    | Failed(error: WriteError)

  /** What the database does to one row of a batch. */
  datatype Fault = NoFault | InsertError | RequeryError

  /** One row of a batch: INSERT OR IGNORE, and the requery when no row was affected. */
  function StoreOne(t: Table, m: Message, fault: Fault): (Table, WriteResult) {
    if fault == InsertError then (t, Failed(InsertFailed))
    else if !Conflicts(t, m) then (t + [m], Stored(m.n, m.ts, false))
    else if Blank(m.stanza) then (t, Stored(m.n, m.ts, false))
    else if fault == RequeryError then (t, Failed(RequeryFailed))
    else
      match FindStanza(t, m.cov, m.stanza)
      case None => (t, Failed(OriginalMissing))
      case Some(row) => (t, Stored(row.n, row.ts, true))
  }

  /**
    A result is honest: an error left the table alone; a success names a row of the table by
    its seq and timestamp, this message's own new row unless the result says "duplicated".
   */
  ghost predicate Honest(t: Table, m: Message, t': Table, r: WriteResult) {
    match r
    case Failed(_) => t' == t
    case Stored(n, ts, duplicated) =>
      if duplicated then t' == t && exists row :: row in t && SameStanza(row, m) && row.n == n && row.ts == ts
      else t' == t + [m] && n == m.n && ts == m.ts
  }

  lemma StoreOneKeepsUnique(t: Table, m: Message, fault: Fault)
    requires Unique(t)
    ensures Unique(StoreOne(t, m, fault).0)
    ensures t <= StoreOne(t, m, fault).0
  {
    var t' := StoreOne(t, m, fault).0;
    if t' != t {
      forall i, j | 0 <= i < j < |t'| ensures !SameSeq(t'[i], t'[j]) && !SameStanza(t'[i], t'[j]) {
        assert t'[i] == t[i];
      }
    }
  }

  /**
    When the writer tells the truth about a row: exactly when the row does not both collide
    and carry a stanza id that trims to nothing. (A whitespace-only id is in the unique index
    but skips the requery.)
   */
  lemma HonestUnlessBlankConflict(t: Table, m: Message, fault: Fault)
    ensures var (t', r) := StoreOne(t, m, fault);
      Honest(t, m, t', r) <==>
        || fault == InsertError || !Conflicts(t, m)
        || exists i :: 0 <= i < |m.stanza| && m.stanza[i] as int !in WHITE_SPACE
  {
    BlankMeans(m.stanza);
    var (t', r) := StoreOne(t, m, fault);
    if fault != InsertError && Conflicts(t, m) && !Blank(m.stanza) && r.Stored? {
      var row := FindStanza(t, m.cov, m.stanza).value;
      assert m.stanza != "";
      assert SameStanza(row, m);
    }
  }

  /** The row m collides with by its stanza, if any. */
  ghost predicate OriginalOf(t: Table, m: Message, row: Message) {
    row in t && row.cov == m.cov && row.stanza == m.stanza
  }

  /**
    A resend under a stanza with a visible character, a UUID say: the writer leaves the table alone
    and answers with the original's seq and timestamp, marked as a duplicate, or fails when one of
    its statements does.
   */
  lemma ResendAnswered(t: Table, m: Message, row: Message, fault: Fault)
    requires Unique(t) && OriginalOf(t, m, row) && Visible(m.stanza)
    ensures StoreOne(t, m, fault) == match fault
      case NoFault => (t, Stored(row.n, row.ts, true))
      case InsertError => (t, Failed(InsertFailed))
      case RequeryError => (t, Failed(RequeryFailed))
  {
    BlankMeans(m.stanza);
    var k :| 0 <= k < |t| && t[k] == row;
    assert SameStanza(t[k], m);
    var found := FindStanza(t, m.cov, m.stanza).value;
    var j :| 0 <= j < |t| && t[j] == found;
    assert SameStanza(t[j], t[k]) && SameStanza(t[k], t[j]);
  }

  /** A message whose seq and stanza are new, or that has no stanza, becomes a row of its own. */
  lemma NewStored(t: Table, m: Message, fault: Fault)
    requires forall i :: 0 <= i < |t| && t[i].cov == m.cov ==>
      t[i].n != m.n && (m.stanza == "" || t[i].stanza != m.stanza)
    ensures StoreOne(t, m, fault) ==
      if fault == InsertError then (t, Failed(InsertFailed)) else (t + [m], Stored(m.n, m.ts, false))
  {
  }

  /** A row whose seq is taken by another stanza's row is an error, unless its own stanza is white space. */
  lemma SeqTaken(t: Table, m: Message)
    requires Visible(m.stanza) && exists i :: 0 <= i < |t| && SameSeq(t[i], m)
    requires forall i :: 0 <= i < |t| ==> !(t[i].cov == m.cov && t[i].stanza == m.stanza)
    ensures StoreOne(t, m, NoFault) == (t, Failed(OriginalMissing))
  {
    BlankMeans(m.stanza);
  }

  /** Two sends of the one-space stanza: the second is reported stored under a seq no row has. */
  lemma WhitespaceStanzaLies()
    ensures var first := Message("cov:a:b", 1, " ", 10, "a", "b", "hi");
      var second := first.(n := 2, ts := 20);
      StoreOne([first], second, NoFault) == ([first], Stored(2, 20, false))
  {
    var first := Message("cov:a:b", 1, " ", 10, "a", "b", "hi");
    var second := first.(n := 2, ts := 20);
    assert SameStanza([first][0], second);
  }

  // ----- batches -----

  /** A message and what the database will do to its row. */
  datatype Attempt = Attempt(m: Message, fault: Fault)

  /** Rows stored one after the other. */
  function StoreAll(t: Table, rows: seq<Attempt>): (out: (Table, seq<WriteResult>))
    ensures |out.1| == |rows|
  {
    if rows == [] then (t, [])
    else
      var last := |rows| - 1;
      var (t1, rs) := StoreAll(t, rows[..last]);
      var (t2, r) := StoreOne(t1, rows[last].m, rows[last].fault);
      (t2, rs + [r])
  }

  lemma StoreAllSingle(t: Table, row: Attempt)
    ensures var (t', r) := StoreOne(t, row.m, row.fault); StoreAll(t, [row]) == (t', [r])
  {
    var rows := [row];
    assert rows[..|rows| - 1] == [];
    var none: seq<WriteResult> := [];
    var r := StoreOne(t, row.m, row.fault).1;
    assert none + [r] == [r];
  }

  lemma {:induction false} StoreAllKeepsUnique(t: Table, rows: seq<Attempt>)
    requires Unique(t)
    ensures Unique(StoreAll(t, rows).0) && t <= StoreAll(t, rows).0
  {
    if rows != [] {
      var last := |rows| - 1;
      StoreAllKeepsUnique(t, rows[..last]);
      StoreOneKeepsUnique(StoreAll(t, rows[..last]).0, rows[last].m, rows[last].fault);
    }
  }

  lemma {:induction false} StoreAllConcat(t: Table, xs: seq<Attempt>, ys: seq<Attempt>)
    ensures StoreAll(t, xs + ys) ==
      (StoreAll(StoreAll(t, xs).0, ys).0, StoreAll(t, xs).1 + StoreAll(StoreAll(t, xs).0, ys).1)
  {
    if ys == [] {
      assert xs + ys == xs;
      assert StoreAll(t, xs).1 + [] == StoreAll(t, xs).1;
    } else {
      var last := |ys| - 1;
      StoreAllConcat(t, xs, ys[..last]);
      assert (xs + ys)[..|xs + ys| - 1] == xs + ys[..last];
      var t1 := StoreAll(t, xs).0;
      var one := StoreOne(StoreAll(t1, ys[..last]).0, ys[last].m, ys[last].fault);
      assert StoreAll(t, xs).1 + (StoreAll(t1, ys[..last]).1 + [one.1])
          == (StoreAll(t, xs).1 + StoreAll(t1, ys[..last]).1) + [one.1];
    }
  }

  /** How the transaction of one batch goes. */
  datatype Outcome = BeginFails | CommitFails | Commits

  datatype Batch = Batch(rows: seq<Attempt>, outcome: Outcome)

  /** One flush: all rows in one transaction, results released only after the commit. */
  function FlushBatch(t: Table, b: Batch): (out: (Table, seq<WriteResult>))
    ensures |out.1| == |b.rows|
  {
    match b.outcome
    case BeginFails => (t, seq(|b.rows|, _ => Failed(BeginFailed)))
    case CommitFails => (t, seq(|b.rows|, _ => Failed(CommitFailed)))
    case Commits => StoreAll(t, b.rows)
  }

  function FlushAll(t: Table, batches: seq<Batch>): (Table, seq<WriteResult>)
    decreases |batches|
  {
    if batches == [] then (t, [])
    else
      var (t1, rs) := FlushBatch(t, batches[0]);
      var (t2, rest) := FlushAll(t1, batches[1..]);
      (t2, rs + rest)
  }

  /** All rows, in queue order. */
  function Rows(batches: seq<Batch>): seq<Attempt> {
    if batches == [] then [] else batches[0].rows + Rows(batches[1..])
  }

  function Committed(batches: seq<Batch>): seq<Batch> {
    if batches == [] then []
    else if batches[0].outcome.Commits? then [batches[0]] + Committed(batches[1..])
    else Committed(batches[1..])
  }

  /**
    Batch boundaries are invisible: however the queue is cut, when all commits succeed the
    table and the results are those of storing the messages one at a time.
   */
  lemma {:induction false} BoundariesInvisible(t: Table, batches: seq<Batch>)
    requires forall i :: 0 <= i < |batches| ==> batches[i].outcome.Commits?
    ensures FlushAll(t, batches) == StoreAll(t, Rows(batches))
    decreases |batches|
  {
    if batches != [] {
      BoundariesInvisible(StoreAll(t, batches[0].rows).0, batches[1..]);
      StoreAllConcat(t, batches[0].rows, Rows(batches[1..]));
    }
  }

  /** A batch whose begin or commit fails leaves the table alone, and every row is told which it was. */
  lemma FailedBatchTold(t: Table, b: Batch)
    requires !b.outcome.Commits?
    ensures var (t', rs) := FlushBatch(t, b);
      && t' == t && |rs| == |b.rows|
      && forall i :: 0 <= i < |rs| ==> rs[i] == Failed(if b.outcome.BeginFails? then BeginFailed else CommitFailed)
  {
  }

  /** A failed batch is as if it had never been sent, except that each of its rows is told so. */
  lemma {:induction false} FailedBatchesVanish(t: Table, batches: seq<Batch>)
    ensures FlushAll(t, batches).0 == StoreAll(t, Rows(Committed(batches))).0
    ensures |FlushAll(t, batches).1| == |Rows(batches)|
    decreases |batches|
  {
    if batches != [] {
      var t1 := FlushBatch(t, batches[0]).0;
      FailedBatchesVanish(t1, batches[1..]);
      if batches[0].outcome.Commits? {
        StoreAllConcat(t, batches[0].rows, Rows(Committed(batches[1..])));
      }
    }
  }
}
