/**
  The batch writer of internal/store/batch.go as a transition system: callers enqueue at any
  moment, the single worker goroutine receives, flushes, delivers, ticks, drains and exits.
  The transaction of a flush is one step; each delivery of a result is a step of its own.
 */
module BatchMachine {
  import opened Options
  import opened Messages

  const QUEUE_CAP: nat := 10000
  const BATCH_MAX: nat := 100

  /** A queued message; `id` is its result channel, unused when nobody waits. */
  datatype Entry = Entry(id: nat, m: Message, waits: bool)

  datatype Settled = Settled(entry: Entry, result: WriteResult)

  datatype Mode = Running | Draining | Exiting | Exited

  datatype Writer = Writer(
    queue: seq<Entry>,
    batch: seq<Entry>,
    deciding: bool,                     // an entry was appended, the flush test is next
    outbox: seq<Settled>,               // results of the flushed batch still to be delivered
    table: Table,
    stopping: bool,                     // `done` is closed
    mode: Mode,
    nextId: nat,
    replies: map<nat, WriteResult>,     // what each result channel (capacity 1) holds
    // history
    accepted: seq<Entry>,
    settled: seq<Settled>,
    flushed: seq<Batch>,
    closed: nat)                        // |accepted| when the drain found the queue empty

  datatype Action =
    | Enqueue(m: Option<Message>, waits: bool)
    | Receive
    | Decide(outcome: Outcome, faults: seq<Fault>)
    | Tick(outcome: Outcome, faults: seq<Fault>)
    | Stop
    | BeginDrain
    | Drain(outcome: Outcome, faults: seq<Fault>)
    | Deliver
    | Exit

  function Initial(table: Table): Writer {
    Writer([], [], false, [], table, false, Running, 0, map[], [], [], [], 0)
  }

  function Entries(xs: seq<Settled>): (es: seq<Entry>)
    ensures |es| == |xs|
    ensures forall i :: 0 <= i < |xs| ==> es[i] == xs[i].entry
  {
    seq(|xs|, i requires 0 <= i < |xs| => xs[i].entry)
  }

  function Results(xs: seq<Settled>): (rs: seq<WriteResult>)
    ensures |rs| == |xs|
    ensures forall i :: 0 <= i < |xs| ==> rs[i] == xs[i].result
  {
    seq(|xs|, i requires 0 <= i < |xs| => xs[i].result)
  }

  function FaultAt(faults: seq<Fault>, i: nat): (f: Fault)
    ensures i < |faults| ==> f == faults[i]
    ensures i >= |faults| ==> f == NoFault
  {
    if i < |faults| then faults[i] else NoFault
  }

  function Attempts(es: seq<Entry>, faults: seq<Fault>): (rows: seq<Attempt>)
    ensures |rows| == |es|
    ensures forall i :: 0 <= i < |es| ==> rows[i] == Attempt(es[i].m, FaultAt(faults, i))
  {
    seq(|es|, i requires 0 <= i < |es| => Attempt(es[i].m, FaultAt(faults, i)))
  }

  function Pair(es: seq<Entry>, rs: seq<WriteResult>): (xs: seq<Settled>)
    requires |es| == |rs|
    ensures Entries(xs) == es && Results(xs) == rs
  {
    seq(|es|, i requires 0 <= i < |es| => Settled(es[i], rs[i]))
  }

  // ----- the steps -----

  function EnqueueStep(w: Writer, m: Option<Message>, waits: bool): Writer {
    match m
    case None => if waits then w.(replies := w.replies[w.nextId := Failed(NilMessage)], nextId := w.nextId + 1) else w
    case Some(msg) =>
      if |w.queue| < QUEUE_CAP then
        var e := Entry(w.nextId, msg, waits);
        w.(queue := w.queue + [e], accepted := w.accepted + [e], nextId := w.nextId + 1)
      else if waits then w.(replies := w.replies[w.nextId := Failed(QueueFull)], nextId := w.nextId + 1)
      else w
  }

  function Flush(w: Writer, outcome: Outcome, faults: seq<Fault>): Writer {
    if w.batch == [] then w
    else
      var b := Batch(Attempts(w.batch, faults), outcome);
      var (t, rs) := FlushBatch(w.table, b);
      w.(table := t, outbox := w.outbox + Pair(w.batch, rs), batch := [], flushed := w.flushed + [b])
  }

  function Take(w: Writer): Writer
    requires w.queue != []
  {
    w.(queue := w.queue[1..], batch := w.batch + [w.queue[0]])
  }

  function FlushIfDue(w: Writer, outcome: Outcome, faults: seq<Fault>): Writer {
    if |w.batch| >= BATCH_MAX || w.queue == [] then Flush(w, outcome, faults) else w
  }

  function DeliverStep(w: Writer): Writer
    requires w.outbox != []
  {
    var x := w.outbox[0];
    w.(outbox := w.outbox[1..],
       settled := w.settled + [x],
       replies := if x.entry.waits then w.replies[x.entry.id := x.result] else w.replies)
  }

  function DrainStep(w: Writer, outcome: Outcome, faults: seq<Fault>): Writer {
    if w.queue != [] then
      var w1 := Take(w);
      if |w1.batch| >= BATCH_MAX then Flush(w1, outcome, faults) else w1
    else
      Flush(w, outcome, faults).(mode := Exiting, closed := |w.accepted|)
  }

  /** The worker is at a select with nothing in hand. */
  predicate Idle(w: Writer) {
    !w.deciding && w.outbox == []
  }

  function Step(w: Writer, a: Action): Option<Writer> {
    match a
    case Enqueue(m, waits) => Some(EnqueueStep(w, m, waits))
    case Receive => if w.mode == Running && Idle(w) && w.queue != [] then Some(Take(w).(deciding := true)) else None
    case Decide(o, fs) => if w.deciding then Some(FlushIfDue(w.(deciding := false), o, fs)) else None
    case Tick(o, fs) => if w.mode == Running && Idle(w) then Some(Flush(w, o, fs)) else None
    case Stop => Some(w.(stopping := true))
    case BeginDrain => if w.mode == Running && Idle(w) && w.stopping then Some(w.(mode := Draining)) else None
    case Drain(o, fs) => if w.mode == Draining && Idle(w) then Some(DrainStep(w, o, fs)) else None
    case Deliver => if w.outbox != [] then Some(DeliverStep(w)) else None
    case Exit => if w.mode == Exiting && Idle(w) then Some(w.(mode := Exited)) else None
  }

  function Run(w: Writer, actions: seq<Action>): Option<Writer>
    decreases |actions|
  {
    if actions == [] then Some(w)
    else
      match Step(w, actions[0])
      case None => None
      case Some(w') => Run(w', actions[1..])
  }

  // ----- the promises -----

  /** Nothing is lost, duplicated or overtaken: accepted = settled + in delivery + batch + queue. */
  ghost predicate Conserved(w: Writer) {
    w.accepted == Entries(w.settled) + Entries(w.outbox) + w.batch + w.queue
  }

  /** Fewer than 100 entries wait for a flush whenever the worker selects, and none when nobody else is coming. */
  ghost predicate Bounded(w: Writer) {
    && |w.queue| <= 10000
    && |w.batch| <= 100
    && (!w.deciding ==> |w.batch| < 100)
    && (w.mode == Running && !w.deciding && w.queue == [] ==> w.batch == [])
  }

  /** Results are those of flushing the batches in order; batches hold the settled entries in order. */
  ghost predicate Faithful(w: Writer, start: Table) {
    var done := w.settled + w.outbox;
    && FlushAll(start, w.flushed) == (w.table, Results(done))
    && |Rows(w.flushed)| == |done|
    && forall i :: 0 <= i < |done| ==> Rows(w.flushed)[i].m == done[i].entry.m
  }

  /** A channel holds a result exactly when its entry is settled (or was turned away): never two. */
  ghost predicate OneReply(w: Writer) {
    && (forall i :: 0 <= i < |w.settled| && w.settled[i].entry.waits ==>
          w.settled[i].entry.id in w.replies && w.replies[w.settled[i].entry.id] == w.settled[i].result)
    && (forall i :: |w.settled| <= i < |w.accepted| ==> w.accepted[i].id !in w.replies)
  }

  /** Once the worker has exited, everything accepted before its last look at the queue is settled. */
  ghost predicate Drained(w: Writer) {
    && (w.mode == Exiting ==>
      w.closed <= |w.accepted| && w.batch == [] && Entries(w.settled) + Entries(w.outbox) == w.accepted[..w.closed])
    && (w.mode == Exited ==>
      w.closed <= |w.accepted| && w.batch == [] && w.outbox == [] && Entries(w.settled) == w.accepted[..w.closed])
  }

  ghost predicate Ids(w: Writer) {
    && (forall i, j :: 0 <= i < j < |w.accepted| ==> w.accepted[i].id < w.accepted[j].id)
    && (forall i :: 0 <= i < |w.accepted| ==> w.accepted[i].id < w.nextId)
    && (forall id :: id in w.replies ==> id < w.nextId)
  }

  ghost predicate Phases(w: Writer) {
    && (w.deciding ==> w.mode == Running && w.outbox == [] && w.batch != [])
    && (w.outbox != [] ==> w.batch == [])
  }

  ghost predicate Inv(w: Writer, start: Table) {
    Conserved(w) && Bounded(w) && Faithful(w, start) && OneReply(w) && Drained(w) && Ids(w) && Phases(w)
  }

  // ----- proofs -----

  lemma {:induction false} FlushAllSnoc(t: Table, bs: seq<Batch>, b: Batch)
    ensures var (t1, rs) := FlushAll(t, bs);
      FlushAll(t, bs + [b]) == (FlushBatch(t1, b).0, rs + FlushBatch(t1, b).1)
    ensures Rows(bs + [b]) == Rows(bs) + b.rows
    decreases |bs|
  {
    if bs == [] {
      assert FlushAll(t, [b]) == (FlushBatch(t, b).0, FlushBatch(t, b).1 + []) by {
        assert ([b])[1..] == [];
      }
      assert [] + FlushBatch(t, b).1 == FlushBatch(t, b).1;
      assert FlushBatch(t, b).1 + [] == FlushBatch(t, b).1;
      assert bs + [b] == [b];
      assert b.rows + [] == b.rows;
    } else {
      var t1 := FlushBatch(t, bs[0]).0;
      FlushAllSnoc(t1, bs[1..], b);
      assert (bs + [b])[1..] == bs[1..] + [b];
      var (t2, rs) := FlushAll(t1, bs[1..]);
      assert FlushBatch(t, bs[0]).1 + (rs + FlushBatch(t2, b).1) == (FlushBatch(t, bs[0]).1 + rs) + FlushBatch(t2, b).1;
      assert bs[0].rows + (Rows(bs[1..]) + b.rows) == (bs[0].rows + Rows(bs[1..])) + b.rows;
    }
  }

  lemma FlushKeepsFaith(w: Writer, start: Table, outcome: Outcome, faults: seq<Fault>)
    requires Faithful(w, start)
    ensures Faithful(Flush(w, outcome, faults), start)
  {
    hide Attempts;
    hide FlushBatch;
    hide Pair;
    if w.batch != [] {
      var b := Batch(Attempts(w.batch, faults), outcome);
      FlushAllSnoc(start, w.flushed, b);
      var w' := Flush(w, outcome, faults);
      var added := Pair(w.batch, FlushBatch(w.table, b).1);
      assert w'.settled + w'.outbox == (w.settled + w.outbox) + added;
      assert Results((w.settled + w.outbox) + added) == Results(w.settled + w.outbox) + Results(added);
    }
  }

  /** A worker about to flush; the batch may be full. */
  ghost predicate Flushable(w: Writer, start: Table) {
    && Conserved(w) && Faithful(w, start) && OneReply(w) && Ids(w)
    && (w.mode == Running || w.mode == Draining)
    && |w.queue| <= QUEUE_CAP && Idle(w)
  }

  /** What a flush changes when nothing is left to deliver. */
  lemma FlushedFields(w: Writer, outcome: Outcome, faults: seq<Fault>)
    requires w.batch != [] && w.outbox == []
    ensures var b := Batch(Attempts(w.batch, faults), outcome);
      var (t, rs) := FlushBatch(w.table, b);
      Flush(w, outcome, faults) == w.(table := t, outbox := Pair(w.batch, rs), batch := [], flushed := w.flushed + [b])
  {
    var xs := Pair(w.batch, FlushBatch(w.table, Batch(Attempts(w.batch, faults), outcome)).1);
    assert w.outbox + xs == xs;
  }

  /** The batch moves to the outbox. */
  lemma BatchPaired(w: Writer, w': Writer)
    requires Conserved(w) && w.outbox == []
    requires w' == w.(table := w'.table, outbox := w'.outbox, batch := [], flushed := w'.flushed)
      && Entries(w'.outbox) == w.batch
    ensures Conserved(w') && (OneReply(w) ==> OneReply(w')) && (Ids(w) ==> Ids(w'))
  {
    assert w.accepted == Entries(w.settled) + w.batch + w.queue;
    assert w'.accepted == Entries(w'.settled) + Entries(w'.outbox) + [] + w'.queue;
  }

  lemma FlushKeepsInv(w: Writer, start: Table, outcome: Outcome, faults: seq<Fault>)
    requires Flushable(w, start)
    ensures Inv(Flush(w, outcome, faults), start)
  {
    FlushKeepsFaith(w, start, outcome, faults);
    hide Faithful;
    hide FlushBatch;
    hide Attempts;
    if w.batch != [] {
      FlushedFields(w, outcome, faults);
      BatchPaired(w, Flush(w, outcome, faults));
      hide Flush;
      hide Conserved;
      hide Ids;
    }
  }

  lemma TakeKeepsInv(w: Writer, start: Table)
    requires Inv(w, start) && Idle(w) && w.queue != [] && (w.mode == Running || w.mode == Draining)
    ensures var w' := Take(w);
      Conserved(w') && Faithful(w', start) && OneReply(w') && Drained(w') && Ids(w') && |w'.batch| <= BATCH_MAX
  {
    assert [w.queue[0]] + w.queue[1..] == w.queue;
  }

  lemma DeliverKeepsInv(w: Writer, start: Table)
    requires Inv(w, start) && w.outbox != []
    ensures w.outbox[0].entry.id !in w.replies
    ensures Inv(DeliverStep(w), start)
  {
    var w' := DeliverStep(w);
    var k := |w.settled|;
    assert w.accepted[k] == w.outbox[0].entry;
    assert w'.settled + w'.outbox == w.settled + w.outbox;
    assert Entries(w'.settled) + Entries(w'.outbox) == Entries(w.settled) + Entries(w.outbox);
    forall i | 0 <= i < |w'.settled| && w'.settled[i].entry.waits
      ensures w'.settled[i].entry.id in w'.replies && w'.replies[w'.settled[i].entry.id] == w'.settled[i].result
    {
      assert w.accepted[i] == w'.settled[i].entry;
    }
  }

  lemma FaithFrame(w: Writer, w': Writer, start: Table)
    requires Faithful(w, start)
    requires w'.table == w.table && w'.flushed == w.flushed && w'.settled == w.settled && w'.outbox == w.outbox
    ensures Faithful(w', start)
  {
  }

  lemma AcceptConserves(w: Writer, m: Message, waits: bool)
    requires Conserved(w) && Drained(w) && |w.queue| < QUEUE_CAP
    ensures var w' := EnqueueStep(w, Some(m), waits); Conserved(w') && Drained(w')
  {
    var w' := EnqueueStep(w, Some(m), waits);
    assert w.closed <= |w.accepted| ==> w'.accepted[..w.closed] == w.accepted[..w.closed];
  }

  lemma AcceptKeepsInv(w: Writer, start: Table, m: Message, waits: bool)
    requires Inv(w, start) && |w.queue| < QUEUE_CAP
    ensures Inv(EnqueueStep(w, Some(m), waits), start)
  {
    FaithFrame(w, EnqueueStep(w, Some(m), waits), start);
    AcceptConserves(w, m, waits);
  }

  lemma RefuseKeepsInv(w: Writer, start: Table, m: Option<Message>, waits: bool)
    requires Inv(w, start) && (m.None? || |w.queue| >= QUEUE_CAP)
    ensures Inv(EnqueueStep(w, m, waits), start)
  {
    FaithFrame(w, EnqueueStep(w, m, waits), start);
    assert OneReply(EnqueueStep(w, m, waits));
  }

  lemma DrainKeepsInv(w: Writer, start: Table, outcome: Outcome, faults: seq<Fault>)
    requires Inv(w, start) && Idle(w) && w.mode == Draining
    ensures Inv(DrainStep(w, outcome, faults), start)
  {
    if w.queue != [] {
      TakeKeepsInv(w, start);
      TakenFlushKeepsInv(Take(w), start, outcome, faults);
    } else {
      FlushKeepsInv(w, start, outcome, faults);
      assert w.accepted[..|w.accepted|] == w.accepted;
    }
  }

  /** A full batch is flushed, before the worker looks at anything else. */
  lemma TakenFlushKeepsInv(w: Writer, start: Table, outcome: Outcome, faults: seq<Fault>)
    requires Conserved(w) && Faithful(w, start) && OneReply(w) && Drained(w) && Ids(w)
    requires |w.batch| <= BATCH_MAX && |w.queue| <= QUEUE_CAP && w.outbox == [] && !w.deciding
    requires w.mode == Running || w.mode == Draining
    ensures w.mode == Draining ==> Inv(if |w.batch| >= BATCH_MAX then Flush(w, outcome, faults) else w, start)
    ensures Inv(FlushIfDue(w, outcome, faults), start)
  {
    FlushKeepsInv(w, start, outcome, faults);
  }

  lemma DecideKeepsInv(w: Writer, start: Table, outcome: Outcome, faults: seq<Fault>)
    requires Inv(w, start) && w.deciding
    ensures Inv(FlushIfDue(w.(deciding := false), outcome, faults), start)
  {
    var w1 := w.(deciding := false);
    FaithFrame(w, w1, start);
    TakenFlushKeepsInv(w1, start, outcome, faults);
  }

  lemma WorkerKeepsInv(w: Writer, start: Table, a: Action)
    requires Inv(w, start) && Step(w, a).Some?
    requires a.Receive? || a.Decide? || a.Tick? || a.Drain? || a.Deliver?
    ensures Inv(Step(w, a).value, start)
  {
    match a
    case Receive => TakeKeepsInv(w, start); FaithFrame(Take(w), Step(w, a).value, start);
    case Decide(o, fs) => DecideKeepsInv(w, start, o, fs);
    case Tick(o, fs) => FlushKeepsInv(w, start, o, fs);
    case Drain(o, fs) => DrainKeepsInv(w, start, o, fs);
    case Deliver => DeliverKeepsInv(w, start);
  }

  lemma StepKeepsInv(w: Writer, start: Table, a: Action)
    requires Inv(w, start) && Step(w, a).Some?
    ensures Inv(Step(w, a).value, start)
  {
    match a
    case Enqueue(m, waits) =>
      if m.Some? && |w.queue| < QUEUE_CAP {
        AcceptKeepsInv(w, start, m.value, waits);
      } else {
        RefuseKeepsInv(w, start, m, waits);
      }
    case Stop => FaithFrame(w, Step(w, a).value, start);
    case BeginDrain => FaithFrame(w, Step(w, a).value, start);
    case Exit =>
      FaithFrame(w, Step(w, a).value, start);
      assert Entries([]) == [];
      assert Entries(w.settled) + [] == Entries(w.settled);
    case _ => WorkerKeepsInv(w, start, a);
  }

  lemma {:induction false} RunKeepsInv(w: Writer, start: Table, actions: seq<Action>)
    requires Inv(w, start) && Run(w, actions).Some?
    ensures Inv(Run(w, actions).value, start)
    decreases |actions|
  {
    if actions != [] {
      StepKeepsInv(w, start, actions[0]);
      RunKeepsInv(Step(w, actions[0]).value, start, actions[1..]);
    }
  }

  /**
    On every run every entry is settled exactly once, in the order accepted, with the result
    its batch gave it; a channel never gets two results; and once the worker has exited,
    nothing accepted before its last look at the queue is left behind.
   */
  lemma EveryEntrySettledOnce(start: Table, actions: seq<Action>)
    requires Run(Initial(start), actions).Some?
    ensures var w := Run(Initial(start), actions).value;
      Conserved(w) && Bounded(w) && Faithful(w, start) && OneReply(w) && Drained(w)
  {
    RunKeepsInv(Initial(start), start, actions);
  }

  // ----- deliveries without interference -----

  /** All results in the outbox delivered, in order. */
  function DeliverAll(w: Writer): (w': Writer)
    ensures w'.outbox == []
    decreases |w.outbox|
  {
    if w.outbox == [] then w else DeliverAll(DeliverStep(w))
  }

  lemma {:induction false} DeliverAllFrame(w: Writer)
    ensures DeliverAll(w) == w.(outbox := [], settled := w.settled + w.outbox, replies := DeliverAll(w).replies)
    decreases |w.outbox|
  {
    if w.outbox != [] {
      DeliverAllFrame(DeliverStep(w));
      assert w.outbox == [w.outbox[0]] + w.outbox[1..];
      assert w.settled + w.outbox == (w.settled + [w.outbox[0]]) + w.outbox[1..];
    } else {
      assert w.settled + [] == w.settled;
    }
  }

  lemma {:induction false} DeliverAllKeepsInv(w: Writer, start: Table)
    requires Inv(w, start)
    ensures Inv(DeliverAll(w), start)
    decreases |w.outbox|
  {
    if w.outbox != [] {
      DeliverKeepsInv(w, start);
      DeliverAllKeepsInv(DeliverStep(w), start);
    }
  }

  /** Flushing and delivering in one go settles exactly the batch. */
  lemma FlushedAndDelivered(w: Writer, start: Table, outcome: Outcome, faults: seq<Fault>)
    requires Flushable(w, start)
    ensures var w' := DeliverAll(Flush(w, outcome, faults));
      && Inv(w', start) && w'.batch == [] && w'.queue == w.queue && w'.accepted == w.accepted && w.settled <= w'.settled
      && w'.mode == w.mode && w'.stopping == w.stopping && Idle(w')
  {
    var f := Flush(w, outcome, faults);
    FlushKeepsInv(w, start, outcome, faults);
    DeliverAllKeepsInv(f, start);
    DeliverAllFrame(f);
  }

  lemma BeginsDraining(w: Writer, start: Table)
    requires Inv(w, start) && w.mode == Running && Idle(w) && w.stopping
    ensures Inv(w.(mode := Draining), start)
  {
    StepKeepsInv(w, start, BeginDrain);
  }

  lemma DrainingFlushable(w: Writer, start: Table)
    requires Inv(w, start) && w.mode == Draining && Idle(w)
    ensures Flushable(w, start)
  {
  }

  /** The last look at the queue: with the queue empty and the batch settled, everything is. */
  lemma NothingLeft(w: Writer, start: Table)
    requires Inv(w, start) && w.queue == [] && w.batch == [] && Idle(w) && w.mode == Draining
    ensures Entries(w.settled) == w.accepted
    ensures Inv(w.(closed := |w.accepted|, mode := Exited), start)
  {
    assert Entries([]) == [];
    assert Entries(w.settled) + [] + [] + [] == Entries(w.settled);
    assert w.accepted[..|w.accepted|] == w.accepted;
    FaithFrame(w, w.(closed := |w.accepted|, mode := Exited), start);
  }
}
