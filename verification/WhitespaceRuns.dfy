/**
  A run of the pipeline of `Relay` for two requests of one conversation with the same stanza made of
  whitespace, up to the point where the first one's row is committed and the second one's message
  waits in a batch of its own: nothing fails, nobody else asks, and both requests take their seq,
  1 and 2, from the allocator of the conversation.

  Each lemma takes the run a few steps further: into Allocate, through it, into the writer's queue,
  through its flush. `Reached` says that such a run leads to a state.
 */
module WhitespaceRuns {
  import opened Options
  import opened Messages
  import opened Relay
  import A = Allocator
  import B = BatchMachine
  import R = Recency

  /** No statement fails, no commit fails, no timeout, no crash. */
  predicate Smooth(a: Action) {
    match a
    case Allocate(_, ok) => ok
    case Timeout(_) => false
    case AbandonPush(_) => false
    case Write(b) => b.Receive? || b.Deliver? || b == B.Decide(Commits, [])
    case Crash(_) => false
    case _ => true
  }

  function Arrival(a: Action): seq<Request> {
    if a.Arrive? then [a.req] else []
  }

  function Arrivals(actions: seq<Action>): seq<Request> {
    if actions == [] then [] else Arrivals(actions[..|actions| - 1]) + Arrival(actions[|actions| - 1])
  }

  ghost predicate AllSmooth(actions: seq<Action>) {
    forall i :: 0 <= i < |actions| ==> Smooth(actions[i])
  }

  /** A smooth run on which exactly these requests arrive ends in s. */
  ghost predicate Reached(s: State, reqs: seq<Request>) {
    exists actions :: Run(INITIAL, actions) == Some(s) && AllSmooth(actions) && Arrivals(actions) == reqs
  }

  lemma {:induction false} RunSnoc(s0: State, actions: seq<Action>, a: Action)
    requires Run(s0, actions).Some?
    ensures Run(s0, actions + [a]) == Step(Run(s0, actions).value, a)
    decreases |actions|
  {
    hide Step;
    if actions == [] {
      assert [] + [a] == [a] && [a][1..] == [];
    } else {
      assert (actions + [a])[1..] == actions[1..] + [a];
      RunSnoc(Step(s0, actions[0]).value, actions[1..], a);
    }
  }

  lemma ReachOn(s: State, reqs: seq<Request>, a: Action, s': State)
    requires Reached(s, reqs) && Step(s, a) == Some(s') && Smooth(a)
    ensures Reached(s', reqs + Arrival(a))
  {
    hide Step;
    hide Smooth;
    var actions :| Run(INITIAL, actions) == Some(s) && AllSmooth(actions) && Arrivals(actions) == reqs;
    RunSnoc(INITIAL, actions, a);
    assert (actions + [a])[..|actions|] == actions;
    assert AllSmooth(actions + [a]);
  }

  /** The same for a step that is not an arrival. */
  lemma ReachQuietly(s: State, reqs: seq<Request>, a: Action, s': State)
    requires Reached(s, reqs) && Step(s, a) == Some(s') && Smooth(a) && !a.Arrive?
    ensures Reached(s', reqs)
  {
    ReachOn(s, reqs, a, s');
    assert reqs + [] == reqs;
  }

  function Inside(s: State, cov: string, c: A.State): State {
    s.(back := SetConv(s.back, cov, c))
  }

  /** A request works its way through Allocate until just before it takes its seq. */
  lemma {:induction false} Allocates(s: State, reqs: seq<Request>, r: Rid, k: nat, c: A.State, c': A.State)
    requires r in s.jobs && s.jobs[r].pc.Allocating? && c.stored == SeqsOf(s.back.bw.table, s.jobs[r].req.cov)
    requires Reached(Inside(s, s.jobs[r].req.cov, c), reqs)
    requires A.Run(c, A.Goes(r, k)) == Some(c') && c'.log == c.log && r in c'.workers
    ensures Reached(Inside(s, s.jobs[r].req.cov, c'), reqs) && c'.stored == c.stored
    decreases k
  {
    hide Reached;
    if k > 0 {
      var cov := s.jobs[r].req.cov;
      var c1 := A.Perform(c, r).value;
      A.GoOnce(c, r, k);
      A.StepLog(c, A.Go(r));
      A.RunLogGrows(c1, A.Goes(r, k - 1));
      assert c1.log == c.log;
      assert r in c1.workers by { StillInside(c1, r, k - 1, c'); }
      var s1, s2 := Inside(s, cov, c), Inside(s, cov, c1);
      assert Conv(s1.back, cov) == c;
      assert s.back.alloc[cov := c][cov := c1] == s.back.alloc[cov := c1];
      ReachQuietly(s1, reqs, Allocate(r, true), s2);
      Allocates(s, reqs, r, k - 1, c1, c');
    }
  }

  lemma StillInside(c: A.State, r: Rid, k: nat, c': A.State)
    requires A.Run(c, A.Goes(r, k)) == Some(c') && r in c'.workers
    ensures r in c.workers
  {
    if k > 0 {
      assert A.Goes(r, k)[0] == A.Go(r);
    }
  }

  /** The writer has nothing to do. */
  predicate Quiet(w: B.Writer) {
    w.mode == B.Running && !w.deciding && w.queue == [] && w.batch == [] && w.outbox == []
  }

  /** A request waits for its message, which is alone in a batch about to be flushed. */
  predicate InBatch(s: State, r: Rid, ch: nat, m: Message) {
    && r in s.jobs && s.jobs[r].pc == Waiting(ch, m)
    && var w := s.back.bw;
      w.mode == B.Running && w.deciding && w.batch == [B.Entry(ch, m, true)] && w.queue == [] && w.outbox == []
  }

  /** A request arrives, misses the window and enters Allocate. */
  lemma Enters(s: State, reqs: seq<Request>, r: Rid, q: Request, c: A.State)
    requires Reached(s, reqs) && r !in s.used && s.windows == map[]
      && A.Step(Conv(s.back, q.cov), A.Begin(r)) == Some(c)
    ensures Reached(Inside(Goto(Arrived(s, r, q), r, Allocating), q.cov, c), reqs + [q])
  {
    var s1 := Arrived(s, r, q);
    ReachOn(s, reqs, Arrive(r, q), s1);
    R.AnswerMiss([], q.stanza);
    hide Reached;
    hide R.Answer;
    ReachQuietly(s1, reqs + [q], Look(r), Inside(Goto(s1, r, Allocating), q.cov, c));
  }

  /** It takes a seq. */
  lemma TakesSeq(s: State, reqs: seq<Request>, r: Rid, c: A.State, c': A.State, n: nat)
    requires r in s.jobs && s.jobs[r].pc.Allocating? && c.stored == SeqsOf(s.back.bw.table, s.jobs[r].req.cov)
    requires Reached(Inside(s, s.jobs[r].req.cov, c), reqs)
    requires A.Step(c, A.Go(r)) == Some(c') && |c'.log| == |c.log| + 1 && c'.log[|c.log|].n == n
    ensures Reached(Goto(Inside(s, s.jobs[r].req.cov, c'), r, Sequenced(n)), reqs)
  {
    var cov := s.jobs[r].req.cov;
    var s1 := Inside(s, cov, c);
    assert Conv(s1.back, cov) == c;
    assert s.back.alloc[cov := c][cov := c'] == s.back.alloc[cov := c'];
    hide Reached;
    ReachQuietly(s1, reqs, Allocate(r, true), Goto(Inside(s, cov, c'), r, Sequenced(n)));
  }

  /** It hands its message over, and the writer takes it. */
  lemma HandsOver(s: State, reqs: seq<Request>, r: Rid, n: nat, ts: int) returns (s': State)
    requires Reached(s, reqs) && r in s.jobs && s.jobs[r].pc == Sequenced(n) && Quiet(s.back.bw)
    ensures Reached(s', reqs) && InBatch(s', r, s.back.bw.nextId, MessageOf(s.jobs[r].req, n, ts))
    ensures s'.back.bw.table == s.back.bw.table && s'.back.alloc == s.back.alloc
    ensures s'.windows == s.windows && s'.used == s.used && s'.acks == s.acks
  {
    hide Reached;
    var s1 := EnqueueStep(s, r, ts);
    ReachQuietly(s, reqs, Enqueue(r, ts), s1);
    var w := B.Take(s1.back.bw).(deciding := true);
    assert B.Step(s1.back.bw, B.Receive) == Some(w);
    s' := s1.(back := s1.back.(bw := w));
    ReachQuietly(s1, reqs, Write(B.Receive), s');
  }

  /** One request, from its arrival until its message is alone in a batch. */
  lemma RequestBatched(s: State, reqs: seq<Request>, r: Rid, q: Request, k: nat, c: A.State, c': A.State, n: nat,
    ts: int)
    returns (s': State)
    requires Reached(s, reqs) && r !in s.used && s.windows == map[] && Quiet(s.back.bw)
    requires var c0 := A.Step(Conv(s.back, q.cov), A.Begin(r));
      && c0.Some? && A.Run(c0.value, A.Goes(r, k)) == Some(c) && c.log == c0.value.log && r in c.workers
    requires A.Step(c, A.Go(r)) == Some(c') && |c'.log| == |c.log| + 1 && c'.log[|c.log|].n == n
    ensures Reached(s', reqs + [q]) && InBatch(s', r, s.back.bw.nextId, MessageOf(q, n, ts))
    ensures s'.back.bw.table == s.back.bw.table && s'.back.alloc == s.back.alloc[q.cov := c']
    ensures s'.windows == map[] && s'.used == s.used + {r} && s'.acks == s.acks
  {
    var c0 := A.Step(Conv(s.back, q.cov), A.Begin(r)).value;
    Enters(s, reqs, r, q, c0);
    hide Reached;
    hide A.Run;
    hide A.Step;
    var s1 := Goto(Arrived(s, r, q), r, Allocating);
    assert c0.stored == SeqsOf(s.back.bw.table, q.cov) by { BeginStores(Conv(s.back, q.cov), r, c0); }
    Allocates(s1, reqs + [q], r, k, c0, c);
    TakesSeq(s1, reqs + [q], r, c, c', n);
    s' := HandsOver(Goto(Inside(s1, q.cov, c'), r, Sequenced(n)), reqs + [q], r, n, ts);
  }

  lemma BeginStores(c: A.State, r: Rid, c': A.State)
    requires A.Step(c, A.Begin(r)) == Some(c')
    ensures c'.stored == c.stored
  {
  }

  /** The writer commits the one row and answers. */
  lemma Commits1(s: State, reqs: seq<Request>, r: Rid, ch: nat, m: Message) returns (s': State)
    requires Reached(s, reqs) && InBatch(s, r, ch, m) && !Conflicts(s.back.bw.table, m)
    ensures Reached(s', reqs) && Quiet(s'.back.bw) && s'.back.bw.table == s.back.bw.table + [m]
    ensures s'.back.alloc == s.back.alloc && s'.windows == s.windows && s'.used == s.used && s'.acks == s.acks
  {
    hide Reached;
    var w := s.back.bw.(deciding := false);
    assert B.Attempts(w.batch, []) == [Attempt(m, NoFault)];
    StoreAllSingle(w.table, Attempt(m, NoFault));
    var w1 := B.Flush(w, Commits, []);
    assert B.Step(s.back.bw, B.Decide(Commits, [])) == Some(w1) && |w1.outbox| == 1;
    var s1 := s.(back := s.back.(bw := w1));
    ReachQuietly(s, reqs, Write(B.Decide(Commits, [])), s1);
    var w2 := B.DeliverStep(w1);
    assert B.Step(w1, B.Deliver) == Some(w2);
    s' := s1.(back := s1.back.(bw := w2));
    ReachQuietly(s1, reqs, Write(B.Deliver), s');
  }

  /** The first request ever is stored under seq 1; nobody has been told yet. */
  lemma FirstStored(q: Request) returns (s: State)
    ensures Reached(s, [q]) && Quiet(s.back.bw) && s.back.bw.table == [MessageOf(q, 1, 0)]
    ensures Conv(s.back, q.cov) == A.OneOut({1}) && s.windows == map[] && s.used == {0} && s.acks == []
  {
    assert Run(INITIAL, []) == Some(INITIAL) && AllSmooth([]) && Arrivals([]) == [];
    hide Reached;
    assert SeqsOf(INITIAL.back.bw.table, q.cov) == {};
    assert A.INITIAL.workers[0 := A.Probe] == map[0 := A.Probe];
    A.FirstCallExtends(8);
    A.TakesOne();
    var c := A.Alone(Some(A.STRIDE), Some(A.CovSeq(0, A.STRIDE)), None, A.SwapExtended(0));
    assert A.Step(Conv(INITIAL.back, q.cov), A.Begin(0)) == Some(A.Alone(None, None, None, A.Probe));
    var s1 := RequestBatched(INITIAL, [], 0, q, 8, c, A.OneOut({}), 1, 0);
    assert [] + [q] == [q];
    var m := MessageOf(q, 1, 0);
    s := Commits1(s1, [q], 0, INITIAL.back.bw.nextId, m);
    assert [] + [m] == [m] && [m][0] == m;
    assert SeqsOf(s.back.bw.table, q.cov) == {1};
  }

  lemma {:induction false} ReachRun(s: State, reqs: seq<Request>, actions: seq<Action>, end: State)
    requires Reached(s, reqs) && Run(s, actions) == Some(end)
    requires AllSmooth(actions) && forall i :: 0 <= i < |actions| ==> !actions[i].Arrive?
    ensures Reached(end, reqs)
    decreases |actions|
  {
    hide Step;
    hide Reached;
    hide Smooth;
    if actions != [] {
      assert Smooth(actions[0]);
      var s1 := Step(s, actions[0]).value;
      ReachQuietly(s, reqs, actions[0], s1);
      ReachRun(s1, reqs, actions[1..], end);
    }
  }

  /** The second of two such requests, before the first is told: its message waits beside its original's row. */
  lemma ResendBatched(q1: Request, q2: Request) returns (s: State, ch: nat)
    requires SameWhitespace(q1, q2)
    ensures Reached(s, [q1, q2]) && InBatch(s, 1, ch, MessageOf(q2, 2, 0))
    ensures s.back.bw.table == [MessageOf(q1, 1, 0)]
  {
    var s1 := FirstStored(q1);
    hide Reached;
    A.NextCallDecides({1});
    A.NextCallTakesTwo({1});
    var c := A.At(A.OneOut({1}), 1, A.Decide(1, A.STRIDE));
    ch := s1.back.bw.nextId;
    s := RequestBatched(s1, [q1], 1, q2, 3, c, A.Step(c, A.Go(1)).value, 2, 0);
    assert [q1] + [q2] == [q1, q2];
  }
}
