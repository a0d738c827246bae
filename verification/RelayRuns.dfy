/**
  What the pipeline of `Relay` does on whole runs: with clients as they are, every promise holds;
  and with any clients, nothing that is stored or pushed is invented
  (internal/router/strategy.go:113-202).
 */
module RelayRuns {
  import opened Options
  import opened Messages
  import opened Relay
  import A = Allocator
  import B = BatchMachine
  import R = Recency

  // ----- clients as they are -----

  /** Every request's stanza is plain, and no row is read unsuccessfully once one of its seqs is out. */
  ghost predicate PlainRun(s: State, actions: seq<Action>)
    decreases |actions|
  {
    actions != [] && Step(s, actions[0]).Some? ==>
      && (actions[0].Arrive? ==> PlainStanza(actions[0].req.stanza))
      && (actions[0].Allocate? ==> Premise(s, actions[0]))
      && PlainRun(Step(s, actions[0]).value, actions[1..])
  }

  lemma {:induction false} PlainRunMeetsPremises(s: State, actions: seq<Action>)
    requires PlainRun(s, actions)
    ensures Premises(s, actions)
    decreases |actions|
  {
    hide Step;
    if actions != [] && Step(s, actions[0]).Some? {
      if actions[0].Arrive? {
        PlainIsOk(actions[0].req.stanza);
      }
      PlainRunMeetsPremises(Step(s, actions[0]).value, actions[1..]);
    }
  }

  /** With such clients everything promised holds, however often a stanza is resent. */
  lemma PlainClientsServedOnce(actions: seq<Action>)
    requires Run(INITIAL, actions).Some? && PlainRun(INITIAL, actions)
    ensures var s := Run(INITIAL, actions).value;
      var t := s.back.bw.table;
      && Unique(t) && AcksTrue(t, s.acks) && PushesTrue(t, s.pushes) && WindowsTrue(t, s.windows)
      && AtMostOnce(s.acks, s.pushes)
  {
    PlainRunMeetsPremises(INITIAL, actions);
    NothingUntrueLeaves(actions);
    StanzaAtMostOnce(actions);
  }

  // ----- nothing is invented -----

  /** The request a message is about. */
  function Asked(m: Message): Request {
    Request(m.cov, m.from, m.to, m.stanza, m.content)
  }

  /** The message a job carries, if any. */
  function Carried(j: Job): Option<Message> {
    match j.pc
    case Waiting(_, m) => Some(m)
    case Storing(m, _, _, _) => Some(m)
    case Acking(m, _, _, _) => Some(m)
    case Pushing(m) => Some(m)
    case _ => None
  }

  /** All that is queued, stored or pushed carries what one of these requests asked for. */
  ghost predicate Faithful(s: State, asked: set<Request>) {
    && (forall r :: r in s.jobs ==> s.jobs[r].req in asked)
    && (forall r :: r in s.jobs && Carried(s.jobs[r]).Some? ==> Asked(Carried(s.jobs[r]).value) == s.jobs[r].req)
    && (forall e :: e in s.back.bw.accepted ==> Asked(e.m) in asked)
    && (forall m :: m in s.back.bw.table ==> Asked(m) in asked)
    && (forall m :: m in s.pushes ==> Asked(m) in asked)
  }

  lemma {:induction false} StoredFrom(t: Table, rows: seq<Attempt>)
    ensures forall m :: m in StoreAll(t, rows).0 ==> m in t || FromBatch(rows, m)
  {
    if rows != [] {
      StoredFrom(t, rows[..|rows| - 1]);
    }
  }

  lemma FlushedFrom(w: B.Writer, o: Outcome, faults: seq<Fault>)
    ensures forall m :: m in B.Flush(w, o, faults).table ==> m in w.table || exists e :: e in w.batch && e.m == m
  {
    if w.batch != [] {
      var rows := B.Attempts(w.batch, faults);
      StoredFrom(w.table, rows);
      forall m | m in B.Flush(w, o, faults).table && m !in w.table ensures exists e :: e in w.batch && e.m == m {
        var i :| 0 <= i < |rows| && rows[i].m == m;
        assert w.batch[i] in w.batch && w.batch[i].m == m;
      }
    }
  }

  lemma WaitingAccepted(w: B.Writer, boot: Table)
    requires B.Inv(w, boot)
    ensures forall e :: e in w.batch || e in w.queue ==> e in w.accepted
  {
  }

  /** The writer only stores what it has accepted. */
  lemma WrittenFrom(w: B.Writer, boot: Table, a: B.Action)
    requires B.Inv(w, boot) && B.Step(w, a).Some? && !a.Enqueue?
    ensures var w' := B.Step(w, a).value;
      && w'.accepted == w.accepted
      && forall m :: m in w'.table ==> m in w.table || exists e :: e in w.accepted && e.m == m
  {
    hide B.Inv;
    hide B.Flush;
    WaitingAccepted(w, boot);
    match a
    case Decide(o, fs) =>
      FlushFields(w.(deciding := false), o, fs);
      FlushedFrom(w.(deciding := false), o, fs);
    case Tick(o, fs) =>
      FlushFields(w, o, fs);
      FlushedFrom(w, o, fs);
    case Drain(o, fs) =>
      FlushFields(w, o, fs);
      FlushedFrom(w, o, fs);
      if w.queue != [] {
        FlushFields(B.Take(w), o, fs);
        FlushedFrom(B.Take(w), o, fs);
      }
    case _ =>
  }

  lemma FlushFields(w: B.Writer, o: Outcome, fs: seq<Fault>)
    ensures B.Flush(w, o, fs).accepted == w.accepted
  {
  }

  function Arrivals(a: Action): set<Request> {
    if a.Arrive? then {a.req} else {}
  }

  /** What has been accepted and stored is the same. */
  predicate SameBooks(b: Backend, c: Backend) {
    c.bw.accepted == b.bw.accepted && c.bw.table == b.bw.table
  }

  lemma GoneKeepsFaith(s: State, s': State, r: Rid, asked: set<Request>)
    requires Faithful(s, asked) && SameBooks(s.back, s'.back)
    requires s'.jobs == s.jobs - {r}
    requires forall m :: m in s'.pushes ==> m in s.pushes || (r in s.jobs && Carried(s.jobs[r]) == Some(m))
    ensures Faithful(s', asked)
  {
  }

  lemma MovedKeepsFaith(s: State, s': State, r: Rid, pc: Pc, asked: set<Request>)
    requires Faithful(s, asked) && SameBooks(s.back, s'.back) && s'.pushes == s.pushes
    requires r in s.jobs && s'.jobs == s.jobs[r := s.jobs[r].(pc := pc)]
    requires var c := Carried(s'.jobs[r]);
      c.Some? ==> Carried(s.jobs[r]).Some? && Asked(c.value) == Asked(Carried(s.jobs[r]).value)
    ensures Faithful(s', asked)
  {
  }

  lemma EnqueueKeepsFaith(s: State, r: Rid, ts: int, asked: set<Request>)
    requires Faithful(s, asked) && r in s.jobs && s.jobs[r].pc.Sequenced?
    ensures Faithful(EnqueueStep(s, r, ts), asked)
  {
    var s' := EnqueueStep(s, r, ts);
    assert Asked(s'.jobs[r].pc.m) == s.jobs[r].req;
    assert forall e :: e in s'.back.bw.accepted ==> e in s.back.bw.accepted || e.m == s'.jobs[r].pc.m;
  }

  lemma AllocateKeepsFaith(s: State, r: Rid, ok: bool, asked: set<Request>)
    requires Faithful(s, asked) && r in s.jobs && s.jobs[r].pc.Allocating? && AllocateStep(s, r, ok).Some?
    ensures Faithful(AllocateStep(s, r, ok).value, asked)
  {
    hide Faithful;
    var s' := AllocateStep(s, r, ok).value;
    hide A.Step;
    hide Conv;
    if r !in s'.jobs {
      GoneKeepsFaith(s, s', r, asked);
    } else if s'.jobs[r].pc.Sequenced? {
      MovedKeepsFaith(s, s', r, s'.jobs[r].pc, asked);
    } else {
      assert s'.jobs == s.jobs[r := s.jobs[r].(pc := Allocating)];
      MovedKeepsFaith(s, s', r, Allocating, asked);
    }
  }

  lemma LookKeepsFaith(s: State, r: Rid, asked: set<Request>)
    requires Faithful(s, asked) && r in s.jobs && s.jobs[r].pc.Looking? && LookStep(s, r).Some?
    ensures Faithful(LookStep(s, r).value, asked)
  {
    hide Faithful;
    hide A.Step;
    hide R.Answer;
    hide Conv;
    var s' := LookStep(s, r).value;
    if r in s'.jobs {
      MovedKeepsFaith(s, s', r, Allocating, asked);
    } else {
      GoneKeepsFaith(s, s', r, asked);
    }
  }

  /** A request's step after its message was handed over. */
  lemma LateKeepsFaith(s: State, a: Action, asked: set<Request>)
    requires Faithful(s, asked) && Step(s, a).Some?
    requires a.Receive? || a.Timeout? || a.Remember? || a.Acknowledge? || a.Push? || a.AbandonPush?
    ensures Faithful(Step(s, a).value, asked)
  {
    hide Faithful;
    var s' := Step(s, a).value;
    if a.r in s'.jobs {
      MovedKeepsFaith(s, s', a.r, s'.jobs[a.r].pc, asked);
    } else {
      GoneKeepsFaith(s, s', a.r, asked);
    }
  }

  lemma WriteKeepsFaith(s: State, a: B.Action, asked: set<Request>)
    requires Inv(s) && Faithful(s, asked) && Step(s, Write(a)).Some?
    ensures Faithful(Step(s, Write(a)).value, asked)
  {
    WrittenFrom(s.back.bw, s.back.boot, a);
    hide B.Step;
    hide B.Inv;
  }

  /** A step adds nothing but what the requests asked for. */
  lemma StepKeepsFaith(s: State, a: Action, asked: set<Request>)
    requires Inv(s) && Faithful(s, asked) && Step(s, a).Some?
    ensures Faithful(Step(s, a).value, asked + Arrivals(a))
  {
    hide Inv;
    if a.Arrive? || a.CreateRow? || a.Crash? {
      return;
    }
    hide Faithful;
    assert asked + Arrivals(a) == asked;
    match a
    case Look(r) => LookKeepsFaith(s, r, asked);
    case Allocate(r, ok) => AllocateKeepsFaith(s, r, ok, asked);
    case Enqueue(r, ts) => EnqueueKeepsFaith(s, r, ts, asked);
    case Write(b) => WriteKeepsFaith(s, b, asked);
    case _ => LateKeepsFaith(s, a, asked);
  }

  /** The requests that arrived. */
  function Requests(actions: seq<Action>): set<Request> {
    if actions == [] then {} else Arrivals(actions[0]) + Requests(actions[1..])
  }

  lemma {:induction false} RunKeepsFaith(s: State, actions: seq<Action>, asked: set<Request>)
    requires Inv(s) && Faithful(s, asked) && Run(s, actions).Some? && Premises(s, actions)
    ensures Faithful(Run(s, actions).value, asked + Requests(actions))
    decreases |actions|
  {
    hide Faithful;
    hide Inv;
    hide Step;
    if actions == [] {
      assert asked + Requests(actions) == asked;
    } else {
      StepKeepsInv(s, actions[0]);
      StepKeepsFaith(s, actions[0], asked);
      RunKeepsFaith(Step(s, actions[0]).value, actions[1..], asked + Arrivals(actions[0]));
      assert asked + Requests(actions) == asked + Arrivals(actions[0]) + Requests(actions[1..]);
    }
  }

  lemma RunFaithful(s: State, actions: seq<Action>)
    requires Inv(s) && Faithful(s, {}) && Run(s, actions).Some? && Premises(s, actions)
    ensures Faithful(Run(s, actions).value, Requests(actions))
  {
    hide Inv;
    hide Faithful;
    hide Run;
    hide Premises;
    RunKeepsFaith(s, actions, {});
    assert {} + Requests(actions) == Requests(actions);
  }

  /**
    On every run each committed row and each push has the conversation, sender, receiver, stanza
    and content of one request that arrived.
   */
  lemma NothingInvented(actions: seq<Action>)
    requires Run(INITIAL, actions).Some? && Premises(INITIAL, actions)
    ensures var s := Run(INITIAL, actions).value;
      && (forall m :: m in s.back.bw.table ==> Asked(m) in Requests(actions))
      && (forall m :: m in s.pushes ==> Asked(m) in Requests(actions))
  {
    InitialInv();
    assert Faithful(INITIAL, {});
    RunFaithful(INITIAL, actions);
  }
}
