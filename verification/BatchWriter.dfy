/**
  The batch writer as the object it is (internal/store/batch.go), run without interference:
  its fields are updated in place and every method is proved against the steps of
  `BatchMachine`, results being delivered as soon as a flush has them.
 */
module BatchWriter {
  import opened Options
  import opened Messages
  import opened BatchMachine

  /** How the database treats the i-th flush from here on. */
  type Weather = nat -> (Outcome, seq<Fault>)

  class BatchWriter {
    var queue: seq<Entry>
    var batch: seq<Entry>
    var table: Table
    var stopping: bool
    var mode: Mode
    var nextId: nat
    var replies: map<nat, WriteResult>

    ghost const start: Table
    ghost var accepted: seq<Entry>
    ghost var settled: seq<Settled>
    ghost var flushed: seq<Batch>
    ghost var closed: nat

    ghost function State(): Writer
      reads this
    {
      Writer(queue, batch, false, [], table, stopping, mode, nextId, replies, accepted, settled, flushed, closed)
    }

    ghost predicate Valid()
      reads this
    {
      Inv(State(), start)
    }

    constructor (table: Table)
      ensures Valid() && State() == Initial(table) && start == table
    {
      queue, batch, stopping, mode, nextId, replies := [], [], false, Running, 0, map[];
      this.table := table;
      start := table;
      accepted, settled, flushed, closed := [], [], [], 0;
    }

    /** Returns the channel; a nil message or a full queue is answered on it at once. */
    method EnqueueSync(m: Option<Message>) returns (ch: nat)
      requires Valid()
      modifies this
      ensures Valid() && State() == EnqueueStep(old(State()), m, true) && ch == old(nextId)
      ensures m.None? ==> replies == old(replies)[ch := Failed(NilMessage)] && queue == old(queue)
      ensures m.Some? && |old(queue)| >= 10000 ==>
        replies == old(replies)[ch := Failed(QueueFull)] && queue == old(queue)
      ensures m.Some? && |old(queue)| < 10000 ==>
        replies == old(replies) && queue == old(queue) + [Entry(ch, m.value, true)]
    {
      ch := nextId;
      nextId := nextId + 1;
      if m.None? {
        replies := replies[ch := Failed(NilMessage)];
      } else if |queue| < QUEUE_CAP {
        queue := queue + [Entry(ch, m.value, true)];
        accepted := accepted + [Entry(ch, m.value, true)];
      } else {
        replies := replies[ch := Failed(QueueFull)];
      }
      assert State() == EnqueueStep(old(State()), m, true);
      StepKeepsInv(old(State()), start, Enqueue(m, true));
    }

    method EnqueueAsync(m: Option<Message>) returns (ok: bool)
      requires Valid()
      modifies this
      ensures Valid() && State() == EnqueueStep(old(State()), m, false)
      ensures ok <==> m.Some? && |old(queue)| < 10000
      ensures replies == old(replies)
      ensures queue == if ok then old(queue) + [Entry(old(nextId), m.value, false)] else old(queue)
    {
      ok := m.Some? && |queue| < QUEUE_CAP;
      if ok {
        queue := queue + [Entry(nextId, m.value, false)];
        accepted := accepted + [Entry(nextId, m.value, false)];
        nextId := nextId + 1;
      }
      assert State() == EnqueueStep(old(State()), m, false);
      StepKeepsInv(old(State()), start, Enqueue(m, false));
    }

    /** The rows of the batch inside the transaction, their outcomes staged. */
    method ExecRows(faults: seq<Fault>) returns (tx: Table, pending: seq<WriteResult>)
      ensures (tx, pending) == StoreAll(table, Attempts(batch, faults))
    {
      tx, pending := table, [];
      ghost var rows := Attempts(batch, faults);
      for i := 0 to |batch|
        invariant (tx, pending) == StoreAll(table, rows[..i])
      {
        var (tx', r) := StoreOne(tx, batch[i].m, FaultAt(faults, i));
        assert rows[..i + 1][..i] == rows[..i];
        tx, pending := tx', pending + [r];
      }
      assert rows[..|rows|] == rows;
    }

    /** Sends every result to its waiter and clears the batch. */
    method DeliverResults(pending: seq<WriteResult>, ghost w: Writer)
      requires |pending| == |batch|
      requires w == State().(batch := [], outbox := Pair(batch, pending))
      modifies this`replies, this`settled, this`batch
      ensures State() == DeliverAll(w)
    {
      ghost var out := Pair(batch, pending);
      ghost var now := w;
      for i := 0 to |batch|
        invariant batch == old(batch)
        invariant DeliverAll(now) == DeliverAll(w)
        invariant now == State().(batch := [], outbox := out[i..])
      {
        now := DeliverStep(now);
        if batch[i].waits {
          replies := replies[batch[i].id := pending[i]];
        }
        settled := settled + [out[i]];
      }
      batch := [];
    }

    /** The transaction of one flush. */
    method Transact(outcome: Outcome, faults: seq<Fault>) returns (pending: seq<WriteResult>)
      modifies this`table
      ensures table == FlushBatch(old(table), Batch(Attempts(batch, faults), outcome)).0
      ensures pending == FlushBatch(old(table), Batch(Attempts(batch, faults), outcome)).1
    {
      if outcome == BeginFails {
        return seq(|batch|, _ => Failed(BeginFailed));
      }
      var tx;
      tx, pending := ExecRows(faults);
      if outcome == CommitFails {
        return seq(|batch|, _ => Failed(CommitFailed));
      }
      table := tx;
    }

    /** Begin, insert, commit, deliver. */
    method FlushRows(outcome: Outcome, faults: seq<Fault>, ghost w: Writer)
      requires batch != [] && w == BatchMachine.Flush(State(), outcome, faults)
      modifies this
      ensures State() == DeliverAll(w)
    {
      FlushedFields(State(), outcome, faults);
      hide Attempts;
      hide FlushBatch;
      hide Pair;
      hide DeliverAll;
      hide BatchMachine.Flush;
      ghost var b := Batch(Attempts(batch, faults), outcome);
      var pending := Transact(outcome, faults);
      flushed := flushed + [b];
      DeliverResults(pending, w);
    }

    method Flush(outcome: Outcome, faults: seq<Fault>)
      requires Flushable(State(), start)
      modifies this
      ensures State() == DeliverAll(BatchMachine.Flush(old(State()), outcome, faults))
      ensures Valid() && batch == [] && queue == old(queue) && mode == old(mode) && stopping == old(stopping)
      ensures accepted == old(accepted) && old(settled) <= settled
    {
      FlushedAndDelivered(State(), start, outcome, faults);
      if batch != [] {
        FlushRows(outcome, faults, BatchMachine.Flush(State(), outcome, faults));
      }
    }

    /** The worker's select picked the queue: append, and flush when full or when it ran dry. */
    method OnReceive(outcome: Outcome, faults: seq<Fault>)
      requires Valid() && mode == Running && queue != []
      modifies this
      ensures Valid() && State() == DeliverAll(FlushIfDue(Take(old(State())), outcome, faults))
    {
      TakeKeepsInv(State(), start);
      batch, queue := batch + [queue[0]], queue[1..];
      if |batch| >= BATCH_MAX || queue == [] {
        Flush(outcome, faults);
      }
    }

    /** The worker's select picked the ticker. */
    method OnTick(outcome: Outcome, faults: seq<Fault>)
      requires Valid() && mode == Running
      modifies this
      ensures Valid() && State() == DeliverAll(BatchMachine.Flush(old(State()), outcome, faults))
    {
      Flush(outcome, faults);
    }

    /** One round of the drain loop with something in the queue. */
    method DrainOne(outcome: Outcome, faults: seq<Fault>)
      requires Valid() && mode == Draining && queue != []
      modifies this
      ensures Valid() && mode == Draining && queue == old(queue)[1..]
      ensures accepted == old(accepted) && old(settled) <= settled
      ensures State() == DeliverAll(DrainStep(old(State()), outcome, faults))
    {
      TakeKeepsInv(State(), start);
      batch, queue := batch + [queue[0]], queue[1..];
      if |batch| >= BATCH_MAX {
        Flush(outcome, faults);
      }
    }

    /** Callers enqueue, one after the other. */
    method EnqueueAll(ms: seq<Option<Message>>)
      requires Valid()
      modifies this
      ensures Valid() && mode == old(mode) && settled == old(settled) && old(accepted) <= accepted
      ensures ms == [] ==> queue == old(queue) && accepted == old(accepted)
    {
      for i := 0 to |ms|
        invariant Valid() && mode == old(mode) && settled == old(settled) && old(accepted) <= accepted
        invariant i == 0 ==> queue == old(queue) && accepted == old(accepted)
      {
        var ch := EnqueueSync(ms[i]);
      }
    }

    /** The drain loop; `late[i]` is what callers enqueue before its i-th look at the queue. */
    method DrainQueue(weather: Weather, late: seq<seq<Option<Message>>>) returns (i: nat)
      requires Valid() && mode == Draining
      modifies this
      ensures Valid() && mode == Draining && queue == []
      ensures old(accepted) <= accepted && (late == [] ==> accepted == old(accepted)) && old(settled) <= settled
    {
      i := 0;
      EnqueueAll(if |late| > 0 then late[0] else []);
      while queue != []
        invariant Valid() && mode == Draining
        invariant old(accepted) <= accepted && (late == [] ==> accepted == old(accepted)) && old(settled) <= settled
        decreases if i < |late| then |late| - i else 0, |queue|
      {
        DrainOne(weather(i).0, weather(i).1);
        i := i + 1;
        EnqueueAll(if i < |late| then late[i] else []);
      }
    }

    /**
      The worker's select picked `done`: drain the queue completely, also of what is enqueued
      meanwhile, then exit. Everything accepted is settled.
     */
    method OnDone(weather: Weather, late: seq<seq<Option<Message>>>)
      requires Valid() && mode == Running && stopping
      modifies this
      ensures Valid() && mode == Exited && queue == [] && batch == []
      ensures old(accepted) <= accepted && (late == [] ==> accepted == old(accepted)) && Entries(settled) == accepted
      ensures old(settled) <= settled
    {
      hide Inv;
      hide Flushable;
      hide BatchMachine.Flush;
      hide DeliverAll;
      BeginsDraining(State(), start);
      mode := Draining;
      assert State() == old(State()).(mode := Draining);
      var i := DrainQueue(weather, late);
      DrainingFlushable(State(), start);
      Flush(weather(i).0, weather(i).1);
      NothingLeft(State(), start);
      ghost var w := State();
      closed := |accepted|;
      mode := Exited;
      assert State() == w.(closed := |w.accepted|, mode := Exited);
    }
  }
}
