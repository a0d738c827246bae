/**
  Why the pipeline of `Relay` needs its premise on stanza ids (internal/store/batch.go:176-179):
  for any two requests of one conversation with the same whitespace stanza there is a run, without
  a single failure, on which an ACK and a push go out under a seq no row has.
 */
module Whitespace {
  import opened Options
  import opened Messages
  import opened Relay
  import opened WhitespaceRuns
  import A = Allocator
  import B = BatchMachine
  import R = Recency

  // ----- what the resend does once it is alone in its batch -----

  /** An entry alone in its batch whose row is ignored and not requeried. */
  lemma ResendSettled(w: B.Writer, ch: nat, m: Message)
    requires m.stanza != "" && Blank(m.stanza) && Conflicts(w.table, m)
    requires w.batch == [B.Entry(ch, m, true)] && w.outbox == []
    ensures var w' := B.Flush(w, Commits, []);
      w'.table == w.table && |w'.outbox| == 1
        && w'.outbox[0] == B.Settled(B.Entry(ch, m, true), Stored(m.n, m.ts, false))
  {
    assert B.Attempts(w.batch, []) == [Attempt(m, NoFault)];
    StoreAllSingle(w.table, Attempt(m, NoFault));
    var xs := B.Pair(w.batch, [Stored(m.n, m.ts, false)]);
    assert B.Entries(xs)[0] == w.batch[0] && B.Results(xs)[0] == Stored(m.n, m.ts, false);
    assert [] + xs == xs;
  }

  /** The writer's last two steps for it. */
  lemma ResendReply(s: State, ch: nat, m: Message, rest: seq<Action>)
    requires m.stanza != "" && Blank(m.stanza) && Conflicts(s.back.bw.table, m)
    requires s.back.bw.deciding && s.back.bw.batch == [B.Entry(ch, m, true)] && s.back.bw.queue == []
      && s.back.bw.outbox == []
    ensures exists bw ::
      && Run(s, [Write(B.Decide(Commits, []))] + ([Write(B.Deliver)] + rest))
        == Run(s.(back := s.back.(bw := bw)), rest)
      && bw.table == s.back.bw.table && ch in bw.replies && bw.replies[ch] == Stored(m.n, m.ts, false)
  {
    var w := s.back.bw.(deciding := false);
    ResendSettled(w, ch, m);
    var w1 := B.Flush(w, Commits, []);
    var w2 := B.DeliverStep(w1);
    assert B.Step(s.back.bw, B.Decide(Commits, [])) == Some(w1) && B.Step(w1, B.Deliver) == Some(w2);
    assert w2.table == w.table && ch in w2.replies && w2.replies[ch] == Stored(m.n, m.ts, false);
    WriteTwice(s, B.Decide(Commits, []), B.Deliver, w1, w2, rest);
  }

  lemma WriteTwice(s: State, a: B.Action, b: B.Action, w1: B.Writer, w2: B.Writer, rest: seq<Action>)
    requires !a.Enqueue? && !b.Enqueue? && B.Step(s.back.bw, a) == Some(w1) && B.Step(w1, b) == Some(w2)
    ensures Run(s, [Write(a)] + ([Write(b)] + rest)) == Run(s.(back := s.back.(bw := w2)), rest)
  {
    RunCons(s, Write(a), [Write(b)] + rest);
    RunCons(s.(back := s.back.(bw := w1)), Write(b), rest);
  }

  /** A request told "stored, not a duplicate" remembers, acknowledges and pushes. */
  lemma StoredGoesOut(s: State, r: Rid, ch: nat, m: Message)
    requires r in s.jobs && s.jobs[r].pc == Waiting(ch, m) && m.stanza != ""
    requires ch in s.back.bw.replies && s.back.bw.replies[ch] == Stored(m.n, m.ts, false)
    ensures var end := Run(s, [Receive(r)] + ([Remember(r)] + ([Acknowledge(r)] + ([Push(r)] + []))));
      && end.Some? && end.value.back == s.back
      && end.value.acks == s.acks + [Ack(m.cov, m.stanza, m.n, m.ts)] && end.value.pushes == s.pushes + [m]
  {
    RepliedFinishes(s, r, ch, m);
    assert m.(n := m.n, ts := m.ts) == m;
  }

  /** What is left for a request alone in its batch. */
  function LastSteps(r: Rid): seq<Action> {
    [Write(B.Decide(Commits, []))] +
      ([Write(B.Deliver)] + ([Receive(r)] + ([Remember(r)] + ([Acknowledge(r)] + ([Push(r)] + [])))))
  }

  lemma LastStepsSmooth(r: Rid)
    ensures AllSmooth(LastSteps(r)) && forall i :: 0 <= i < |LastSteps(r)| ==> !LastSteps(r)[i].Arrive?
  {
  }

  lemma NotBacked(t: Table, pushes: seq<Message>, m: Message)
    requires m !in t
    ensures !PushesTrue(t, pushes + [m])
  {
    assert (pushes + [m])[|pushes|] == m;
  }

  /**
    A resend whose stanza is whitespace, alone in the batch while its original is already
    stored: it is acknowledged and pushed, under a seq that no row carries.
   */
  lemma ResendPushed(s: State, r: Rid, ch: nat, m: Message)
    requires r in s.jobs && s.jobs[r].pc == Waiting(ch, m) && m.stanza != "" && Blank(m.stanza)
    requires s.back.bw.deciding && s.back.bw.batch == [B.Entry(ch, m, true)] && s.back.bw.queue == []
      && s.back.bw.outbox == []
    requires exists i :: 0 <= i < |s.back.bw.table| && SameStanza(s.back.bw.table[i], m)
    requires forall i :: 0 <= i < |s.back.bw.table| ==> !SameSeq(s.back.bw.table[i], m)
    ensures var end := Run(s, LastSteps(r));
      && end.Some? && end.value.back.bw.table == s.back.bw.table
      && end.value.pushes == s.pushes + [m] && m !in s.back.bw.table
      && !AcksTrue(s.back.bw.table, end.value.acks)
  {
    var rest := [Receive(r)] + ([Remember(r)] + ([Acknowledge(r)] + ([Push(r)] + [])));
    ResendReply(s, ch, m, rest);
    var bw :|
      Run(s, [Write(B.Decide(Commits, []))] + ([Write(B.Deliver)] + rest)) == Run(s.(back := s.back.(bw := bw)), rest)
      && bw.table == s.back.bw.table && ch in bw.replies && bw.replies[ch] == Stored(m.n, m.ts, false);
    StoredGoesOut(s.(back := s.back.(bw := bw)), r, ch, m);
    var end := Run(s.(back := s.back.(bw := bw)), rest).value;
    assert end.acks[|s.acks|] == Ack(m.cov, m.stanza, m.n, m.ts);
    assert !HasRow(s.back.bw.table, m.cov, m.stanza, m.n, m.ts);
  }

  // ----- a run that gets there -----

  /** An ACK and a push went out that no row backs. */
  ghost predicate Broken(s: State) {
    !AcksTrue(s.back.bw.table, s.acks) && !PushesTrue(s.back.bw.table, s.pushes)
  }

  /**
    The premise is exact: for any two requests of one conversation with the same whitespace
    stanza there is a run on which nothing fails, nobody else asks, and the second is
    acknowledged and pushed under a seq that no row carries.
   */
  lemma ResendBreaks(q1: Request, q2: Request)
    requires SameWhitespace(q1, q2)
    ensures exists s :: Reached(s, [q1, q2]) && Broken(s)
  {
    var s, ch := ResendBatched(q1, q2);
    hide Reached;
    var m, row := MessageOf(q2, 2, 0), MessageOf(q1, 1, 0);
    assert s.back.bw.table[0] == row && SameStanza(row, m) && !SameSeq(row, m);
    ResendPushed(s, 1, ch, m);
    hide Run;
    hide LastSteps;
    hide AcksTrue;
    hide PushesTrue;
    hide AllSmooth;
    var end := Run(s, LastSteps(1)).value;
    LastStepsSmooth(1);
    ReachRun(s, [q1, q2], LastSteps(1), end);
    NotBacked(s.back.bw.table, s.pushes, m);
    assert Broken(end);
  }
}
