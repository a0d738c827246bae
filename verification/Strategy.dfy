/**
  CentralRelayStrategy.relay (internal/router/strategy.go:113-202) in its own form: one request
  taken from start to end over the dedup store and the allocator as objects, with the batch
  writer's part condensed to what it does to one row. (`Relay` has any number of requests at once.)
 */
module Strategy {
  import opened Options
  import opened Messages
  import opened Recency
  import A = Allocator
  import D = DedupWindows
  import S = SessionAllocator
  import P = Relay

  /** What becomes of the row handed to the writer. */
  datatype Persist =
    | Reply(fault: Fault)                  // its batch commits; the row itself may fail
    | BatchFails                           // queue full, begin or commit error
    | Late(stored: Option<Fault>)          // the timeout strikes first; the row may still be stored

  /** Everything remembered of one conversation is a committed row. */
  ghost predicate MemosTrue(t: Table, cov: string, history: seq<Memo>) {
    forall i :: 0 <= i < |history| ==> P.MemoTrue(t, cov, history[i])
  }

  lemma MemosGrow(t: Table, t': Table, cov: string, history: seq<Memo>)
    requires t <= t' && MemosTrue(t, cov, history)
    ensures MemosTrue(t', cov, history)
  {
    forall i | 0 <= i < |history| ensures P.MemoTrue(t', cov, history[i]) {
      assert P.MemoTrue(t, cov, history[i]);
      P.HasRowGrows(t, t', cov, history[i].stanza, history[i].n, history[i].ts);
    }
  }

  lemma AckAdded(t: Table, acks: seq<P.Ack>, cov: string, stanza: string, n: nat, ts: int)
    requires P.AcksTrue(t, acks) && P.HasRow(t, cov, stanza, n, ts)
    ensures P.AcksTrue(t, acks + [P.Ack(cov, stanza, n, ts)])
  {
  }

  /** A row whose seq is above every committed one was never pushed. */
  lemma PushAdded(t: Table, t': Table, pushes: seq<Message>, m: Message)
    requires P.PushesTrue(t, pushes) && t' == t + [m] && forall n :: n in SeqsOf(t, m.cov) ==> n < m.n
    ensures P.PushesTrue(t', pushes) && P.PushesTrue(t', pushes + [m])
  {
    assert t'[|t|] == m;
    forall i | 0 <= i < |pushes| ensures pushes[i] in t' && !SameSeq(pushes[i], m) {
      P.InGrows(t, t', pushes[i]);
      var k :| 0 <= k < |t| && t[k] == pushes[i];
      assert t[k].cov == m.cov ==> t[k].n in SeqsOf(t, m.cov);
    }
  }

  lemma AcksGrow(t: Table, t': Table, acks: seq<P.Ack>)
    requires t <= t' && P.AcksTrue(t, acks)
    ensures P.AcksTrue(t', acks)
  {
    forall i | 0 <= i < |acks| ensures P.HasRow(t', acks[i].cov, acks[i].stanza, acks[i].n, acks[i].ts) {
      P.HasRowGrows(t, t', acks[i].cov, acks[i].stanza, acks[i].n, acks[i].ts);
    }
  }

  /** The stanza, if it is made of whitespace, is not stored yet. */
  predicate FirstWhitespace(t: Table, cov: string, stanza: string) {
    P.StanzaOk(stanza) || FindStanza(t, cov, stanza).None?
  }

  /** Plain stanzas, as clients make them, always satisfy that. */
  lemma PlainIsFirst(t: Table, cov: string, stanza: string)
    requires P.PlainStanza(stanza)
    ensures FirstWhitespace(t, cov, stanza)
  {
    P.PlainIsOk(stanza);
  }

  /** A seq above all committed ones collides with none. */
  lemma NoClash(t: Table, m: Message)
    requires FirstWhitespace(t, m.cov, m.stanza) && forall n :: n in SeqsOf(t, m.cov) ==> n < m.n
    ensures forall k :: 0 <= k < |t| ==> !P.Clash(m, t[k])
  {
    forall k | 0 <= k < |t| ensures !P.Clash(m, t[k]) {
      assert t[k].cov == m.cov ==> t[k].n in SeqsOf(t, m.cov);
    }
  }

  /** What "stored" means for a row whose seq is new: the original's numbers, or a new row of its own. */
  lemma StoredMeans(t: Table, m: Message, fault: Fault)
    requires forall k :: 0 <= k < |t| ==> !P.Clash(m, t[k])
    ensures var (t', r) := StoreOne(t, m, fault);
      var original := FindStanza(t, m.cov, m.stanza);
      r.Stored? ==>
        if m.stanza != "" && original.Some? then t' == t && r == Stored(original.value.n, original.value.ts, true)
        else t' == t + [m] && r == Stored(m.n, m.ts, false)
    ensures StoreOne(t, m, fault).1.Failed? ==> StoreOne(t, m, fault).0 == t && fault != NoFault
  {
    if m.stanza != "" && FindStanza(t, m.cov, m.stanza).Some? {
      var row := FindStanza(t, m.cov, m.stanza).value;
      var k :| 0 <= k < |t| && t[k] == row;
      assert SameStanza(t[k], m);
    }
  }

  class CentralRelay {
    const dedup: D.DedupWindows
    const alloc: S.SessionAllocator
    var acks: seq<P.Ack>
    var pushes: seq<Message>

    /** The promises of the pipeline, at rest. */
    ghost predicate Valid()
      reads this, dedup, dedup.Repr, alloc
    {
      && dedup.Valid() && alloc.Valid() && alloc !in dedup.Repr && this !in dedup.Repr
      && Unique(alloc.messages) && P.AcksTrue(alloc.messages, acks) && P.PushesTrue(alloc.messages, pushes)
      && forall cov :: MemosTrue(alloc.messages, cov, dedup.History(cov))
    }

    constructor (dedup: D.DedupWindows, alloc: S.SessionAllocator)
      requires dedup.Valid() && alloc.Valid() && alloc !in dedup.Repr && Unique(alloc.messages)
      requires forall cov :: dedup.History(cov) == []
      ensures Valid() && this.dedup == dedup && this.alloc == alloc && acks == [] && pushes == []
    {
      this.dedup, this.alloc, acks, pushes := dedup, alloc, [], [];
    }

    /** The writer's part for one row. */
    method Persist(m: Message, fault: Fault) returns (r: WriteResult)
      requires alloc.Valid() && A.Issued(alloc.Conv(m.cov), m.n)
      modifies alloc
      ensures alloc.Valid() && (alloc.messages, r) == StoreOne(old(alloc.messages), m, fault)
      ensures alloc.seqs == old(alloc.seqs) && alloc.rows == old(alloc.rows)
    {
      var (t, result) := StoreOne(alloc.messages, m, fault);
      if t != alloc.messages {
        alloc.Commit(m);
      }
      r := result;
    }

    /** The table grew by a row under a seq above all others, or not at all: nothing said before becomes untrue. */
    lemma RowStored(t: Table, m: Message, fault: Fault)
      requires Valid() && t == alloc.messages && FirstWhitespace(t, m.cov, m.stanza)
        && forall n :: n in SeqsOf(t, m.cov) ==> n < m.n
      ensures var (t', r) := StoreOne(t, m, fault);
        && Unique(t') && t <= t' && P.AcksTrue(t', acks) && P.PushesTrue(t', pushes)
        && (forall cov :: MemosTrue(t', cov, dedup.History(cov)))
        && (r.Stored? ==> P.ResultOk(t', m, r.n, r.ts, r.duplicated) && P.HasRow(t', m.cov, m.stanza, r.n, r.ts))
        && (r.Stored? && !r.duplicated ==>
          t' == t + [m] && r.n == m.n && r.ts == m.ts && P.PushesTrue(t', pushes + [m]))
    {
      var (t', r) := StoreOne(t, m, fault);
      NoClash(t, m);
      P.StoreOneHonest(t, m, fault);
      AcksGrow(t, t', acks);
      forall cov ensures MemosTrue(t', cov, dedup.History(cov)) {
        MemosGrow(t, t', cov, dedup.History(cov));
      }
      if t' == t + [m] {
        PushAdded(t, t', pushes, m);
      }
      if r.Stored? {
        P.ResultHasRow(t', m, r.n, r.ts, r.duplicated);
        if !r.duplicated { NewRow(t, m, fault); }
      }
    }

    lemma NewRow(t: Table, m: Message, fault: Fault)
      requires forall k :: 0 <= k < |t| ==> !P.Clash(m, t[k])
      requires StoreOne(t, m, fault).1.Stored? && !StoreOne(t, m, fault).1.duplicated
      ensures StoreOne(t, m, fault) == (t + [m], Stored(m.n, m.ts, false))
    {
    }

    /** The answer the window gives, if any. */
    ghost function Hit(req: P.Request): Option<(nat, int)>
      requires dedup.Valid()
      reads this, dedup, dedup.Repr
    {
      Answer(dedup.History(req.cov), req.stanza)
    }

    /** A committed row is remembered, if it has a stanza. */
    method Remember(m: Message, n: nat, ts: int)
      requires Valid() && P.HasRow(alloc.messages, m.cov, m.stanza, n, ts)
      modifies dedup.Repr
      ensures Valid() && fresh(dedup.Repr - old(dedup.Repr))
      ensures forall c :: dedup.History(c) ==
                old(dedup.History(c)) + if c == m.cov && m.stanza != "" then [Memo(m.stanza, n, ts)] else []
    {
      hide P.AcksTrue;
      hide P.PushesTrue;
      hide Unique;
      hide P.HasRow;
      hide S.SessionAllocator.Valid;
      hide D.DedupWindows.Valid;
      hide D.DedupWindows.History;
      if m.stanza != "" {
        dedup.Store(m.cov, m.stanza, n, ts);
        forall c ensures MemosTrue(alloc.messages, c, dedup.History(c)) {
          assert MemosTrue(alloc.messages, c, old(dedup.History(c)));
        }
      }
    }

    /** A stored row is remembered, acknowledged, and pushed unless it is a duplicate. */
    method SendOut(m: Message, n: nat, ts: int, duplicated: bool)
      requires Valid() && P.HasRow(alloc.messages, m.cov, m.stanza, n, ts)
      requires !duplicated ==> P.PushesTrue(alloc.messages, pushes + [m]) && n == m.n && ts == m.ts
      modifies this, dedup.Repr
      ensures Valid()
      ensures acks == old(acks) + [P.Ack(m.cov, m.stanza, n, ts)]
      ensures pushes == old(pushes) + if duplicated then [] else [m]
      ensures forall c :: dedup.History(c) ==
                old(dedup.History(c)) + if c == m.cov && m.stanza != "" then [Memo(m.stanza, n, ts)] else []
    {
      hide P.AcksTrue;
      hide P.PushesTrue;
      hide Unique;
      hide P.HasRow;
      hide MemosTrue;
      hide S.SessionAllocator.Valid;
      hide D.DedupWindows.Valid;
      hide D.DedupWindows.History;
      Remember(m, n, ts);
      AckAdded(alloc.messages, acks, m.cov, m.stanza, n, ts);
      acks := acks + [P.Ack(m.cov, m.stanza, n, ts)];
      if !duplicated {
        assert m.(n := n, ts := ts) == m;
        pushes := pushes + [m.(n := n, ts := ts)];
      }
    }

    /** The writer's part failed, or came too late to be heard of. */
    method Unheard(m: Message, persist: Persist)
      requires Valid() && FirstWhitespace(alloc.messages, m.cov, m.stanza) && A.Issued(alloc.Conv(m.cov), m.n)
      requires forall n :: n in SeqsOf(alloc.messages, m.cov) ==> n < m.n
      requires !persist.Reply?
      modifies alloc
      ensures Valid() && old(alloc.messages) <= alloc.messages
      ensures persist.BatchFails? || persist.stored.None? ==> alloc.messages == old(alloc.messages)
    {
      if persist.Late? && persist.stored.Some? {
        RowStored(alloc.messages, m, persist.stored.value);
        hide P.AcksTrue;
        hide P.PushesTrue;
        hide Unique;
        hide MemosTrue;
        hide S.SessionAllocator.Valid;
        hide D.DedupWindows.Valid;
        hide D.DedupWindows.History;
        var r := Persist(m, persist.stored.value);
      }
    }

    /** The writer answered: an error goes back, a stored row goes out. */
    method Answered(m: Message, fault: Fault) returns (err: bool)
      requires Valid() && FirstWhitespace(alloc.messages, m.cov, m.stanza) && A.Issued(alloc.Conv(m.cov), m.n)
      requires forall n :: n in SeqsOf(alloc.messages, m.cov) ==> n < m.n
      modifies this, alloc, dedup.Repr
      ensures Valid()
      ensures var (t, r) := StoreOne(old(alloc.messages), m, fault);
        && alloc.messages == t && err == r.Failed?
        && (err ==> acks == old(acks) && pushes == old(pushes) && forall c :: dedup.History(c) == old(dedup.History(c)))
        && (!err ==>
              && acks == old(acks) + [P.Ack(m.cov, m.stanza, r.n, r.ts)]
              && pushes == old(pushes) + (if r.duplicated then [] else [m])
              && forall c :: dedup.History(c) ==
                   old(dedup.History(c)) + if c == m.cov && m.stanza != "" then [Memo(m.stanza, r.n, r.ts)] else [])
    {
      RowStored(alloc.messages, m, fault);
      hide P.AcksTrue;
      hide P.PushesTrue;
      hide P.HasRow;
      hide P.ResultOk;
      hide Unique;
      hide MemosTrue;
      hide StoreOne;
      hide S.SessionAllocator.Valid;
      hide D.DedupWindows.Valid;
      hide D.DedupWindows.History;
      var r := Persist(m, fault);
      if r.Failed? {
        return true;
      }
      SendOut(m, r.n, r.ts, r.duplicated);
      return false;
    }

    /**
      relay. An error sends nothing. A success sends one ACK: with the original's numbers, no push
      and an unchanged table when the stanza is already stored, else with the numbers of the one
      new row, which is pushed. So the window is a pure shortcut: what a hit answers is what the
      way through the database would have. Either way a resend is then answered the same.
     */
    method Relay(req: P.Request, ts: int, faults: S.Faults, persist: Persist) returns (err: bool)
      requires Valid() && (FirstWhitespace(alloc.messages, req.cov, req.stanza) || Hit(req).Some?)
      requires faults.row && req.cov !in alloc.seqs ==> alloc.Conv(req.cov).log == []
      modifies this, alloc, dedup.Repr
      ensures Valid()
      ensures !err ==> Delivered(req, ts, old(alloc.messages), alloc.messages, old(acks), acks, old(pushes), pushes)
      ensures !err && req.stanza != "" ==> Hit(req) == Some((acks[|acks| - 1].n, acks[|acks| - 1].ts))
      ensures req.stanza != "" && old(Hit(req)).Some? ==>
        !err && alloc.seqs == old(alloc.seqs) && alloc.rows == old(alloc.rows)
      ensures err ==>
        && acks == old(acks) && pushes == old(pushes) && (forall c :: dedup.History(c) == old(dedup.History(c)))
        && (!persist.Late? ==> alloc.messages == old(alloc.messages))
        && (faults.update || faults.reload || faults.ensure || !persist.Reply? || persist.fault != NoFault)
    {
      hide P.AcksTrue;
      hide P.PushesTrue;
      hide Unique;
      hide MemosTrue;
      hide StoreOne;
      hide S.SessionAllocator.Valid;
      hide D.DedupWindows.Valid;
      hide D.DedupWindows.History;
      hide P.HasRow;
      hide P.Clash;
      hide Answer;
      hide A.Issued;
      if req.stanza != "" {
        var hit := dedup.Lookup(req.cov, req.stanza);
        if hit.Some? {
          HitIsOriginal(req, hit.value.0, hit.value.1);
          AckAdded(alloc.messages, acks, req.cov, req.stanza, hit.value.0, hit.value.1);
          acks := acks + [P.Ack(req.cov, req.stanza, hit.value.0, hit.value.1)];
          return false;
        }
      }
      var issued := alloc.Allocate(req.cov, faults);
      if issued.None? {
        return true;
      }
      var m := P.MessageOf(req, issued.value, ts);
      if !persist.Reply? {
        Unheard(m, persist);
        return true;
      }
      ghost var t := alloc.messages;
      NoClash(t, m);
      StoredMeans(t, m, persist.fault);
      ghost var history := dedup.History(req.cov);
      err := Answered(m, persist.fault);
      if !err {
        assert Delivered(req, ts, t, alloc.messages, old(acks), acks, old(pushes), pushes);
      }
      if !err && req.stanza != "" {
        ghost var r := StoreOne(t, m, persist.fault).1;
        AnswerLatest(history, Memo(m.stanza, r.n, r.ts));
      }
    }

    /** A hit names the row the requery would find. */
    lemma HitIsOriginal(req: P.Request, n: nat, ts: int)
      requires Valid() && Hit(req) == Some((n, ts))
      ensures P.HasRow(alloc.messages, req.cov, req.stanza, n, ts)
      ensures var original := FindStanza(alloc.messages, req.cov, req.stanza);
        original.Some? && original.value.n == n && original.value.ts == ts
    {
      hide S.SessionAllocator.Valid;
      hide D.DedupWindows.Valid;
      hide D.DedupWindows.History;
      hide Unique;
      hide P.AcksTrue;
      hide P.PushesTrue;
      hide P.HasRow;
      hide P.MemoTrue;
      hide Answer;
      var history := dedup.History(req.cov);
      assert MemosTrue(alloc.messages, req.cov, history);
      P.AnswerHasRow(alloc.messages, req.cov, history, req.stanza);
      P.RowIsOriginal(alloc.messages, req.cov, req.stanza, n, ts);
    }
  }

  /** What a successful request has done. */
  ghost predicate Delivered(req: P.Request, ts: int, t: Table, t': Table, acks: seq<P.Ack>, acks': seq<P.Ack>,
                            pushes: seq<Message>, pushes': seq<Message>)
  {
    var original := FindStanza(t, req.cov, req.stanza);
    if req.stanza != "" && original.Some? then
      && t' == t && pushes' == pushes
      && acks' == acks + [P.Ack(req.cov, req.stanza, original.value.n, original.value.ts)]
    else
      exists n: nat ::
        && (forall k :: k in SeqsOf(t, req.cov) ==> k < n)
        && t' == t + [Message(req.cov, n, req.stanza, ts, req.from, req.to, req.content)]
        && pushes' == pushes + [Message(req.cov, n, req.stanza, ts, req.from, req.to, req.content)]
        && acks' == acks + [P.Ack(req.cov, req.stanza, n, ts)]
  }
}
