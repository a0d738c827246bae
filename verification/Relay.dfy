/**
  The relay pipeline of internal/router/strategy.go for all conversations at once: requests run
  concurrently through dedup lookup, seq allocation, the batch writer, the dedup window, the ACK
  and the push, over the machines of `Allocator` and `BatchMachine`.
 */
module Relay {
  import opened Options
  import opened Messages
  import A = Allocator
  import B = BatchMachine
  import R = Recency

  type Rid = nat

  datatype Request = Request(cov: string, from: string, to: string, stanza: string, content: string)

  datatype Pc =
    | Looking                              // about to look the stanza up in the window
    | Allocating                           // inside Allocate
    | Sequenced(n: nat)                    // about to stamp the time and enqueue
    | Waiting(ch: nat, m: Message)         // waiting for the writer, or for the timeout
    | Storing(m: Message, n: nat, ts: int, duplicated: bool)   // about to remember the stanza
    | Acking(m: Message, n: nat, ts: int, duplicated: bool)
    | Pushing(m: Message)

  datatype Job = Job(req: Request, pc: Pc)

  datatype Ack = Ack(cov: string, stanza: string, n: nat, ts: int)

  /** What only one message may ever carry: a seq, or a stanza that is nothing but whitespace. */
  datatype Mark = Numbered(cov: string, n: nat) | Whitespace(cov: string, stanza: string)

  /** The allocator of every conversation and the batch writer with its table. */
  datatype Backend = Backend(
    alloc: map<string, A.State>,
    bw: B.Writer,
    boot: Table,                           // the table at the last restart
    spent: set<Mark>)                      // history: the marks of every message handed to the writer

  datatype State = State(
    back: Backend,
    windows: map<string, seq<R.Memo>>,     // everything stored in each window in this lifetime
    jobs: map<Rid, Job>,
    used: set<Rid>,
    seen: set<(string, string)>,           // history: conversation and stanza of every request
    acks: seq<Ack>,                        // what left the process
    pushes: seq<Message>)

  /**
    Resends of a stanza are requests like any other; timeouts, failed statements, failed commits,
    evictions, crashes and restarts happen at any step.
   */
  datatype Action =
    | Arrive(r: Rid, req: Request)
    | Look(r: Rid)
    | Allocate(r: Rid, ok: bool)           // one operation inside Allocate; !ok: its SQL fails
    | Enqueue(r: Rid, ts: int)
    | Receive(r: Rid)
    | Timeout(r: Rid)
    | Remember(r: Rid)
    | Acknowledge(r: Rid)
    | Push(r: Rid)
    | AbandonPush(r: Rid)                  // listing the group's members failed
    | Write(a: B.Action)                   // a step of the writer goroutine, or Stop
    | CreateRow(cov: string)
    | Crash(preload: A.Preload)

  const INITIAL := State(Backend(map[], B.Initial([]), [], {}), map[], map[], {}, {}, [], [])

  // ----- the steps -----

  /** The allocator's view of one conversation: its counters, and the committed messages. */
  function Conv(b: Backend, cov: string): A.State {
    (if cov in b.alloc then b.alloc[cov] else A.INITIAL).(stored := SeqsOf(b.bw.table, cov))
  }

  function SetConv(b: Backend, cov: string, c: A.State): Backend {
    b.(alloc := b.alloc[cov := c])
  }

  function History(windows: map<string, seq<R.Memo>>, cov: string): seq<R.Memo> {
    if cov in windows then windows[cov] else []
  }

  function MessageOf(req: Request, n: nat, ts: int): Message {
    Message(req.cov, n, req.stanza, ts, req.from, req.to, req.content)
  }

  /** No stanza id at all, or one that is not only whitespace. */
  predicate StanzaOk(stanza: string) {
    stanza == "" || !Blank(stanza)
  }

  function StanzaMark(cov: string, stanza: string): set<Mark> {
    if StanzaOk(stanza) then {} else {Whitespace(cov, stanza)}
  }

  function Marks(m: Message): set<Mark> {
    {Numbered(m.cov, m.n)} + StanzaMark(m.cov, m.stanza)
  }

  function Goto(s: State, r: Rid, pc: Pc): State
    requires r in s.jobs
  {
    s.(jobs := s.jobs[r := s.jobs[r].(pc := pc)])
  }

  function Done(s: State, r: Rid): State {
    s.(jobs := s.jobs - {r})
  }

  ghost function LookStep(s: State, r: Rid): Option<State>
    requires r in s.jobs
  {
    var req := s.jobs[r].req;
    match R.Answer(History(s.windows, req.cov), req.stanza)
    case Some((n, ts)) => Some(Done(s.(acks := s.acks + [Ack(req.cov, req.stanza, n, ts)]), r))
    case None =>
      match A.Step(Conv(s.back, req.cov), A.Begin(r))
      case None => None
      case Some(c) => Some(Goto(s.(back := SetConv(s.back, req.cov, c)), r, Allocating))
  }

  ghost function AllocateStep(s: State, r: Rid, ok: bool): Option<State>
    requires r in s.jobs
  {
    var cov := s.jobs[r].req.cov;
    var c := Conv(s.back, cov);
    match A.Step(c, if ok then A.Go(r) else A.Fail(r))
    case None => None
    case Some(c') =>
      var s' := s.(back := SetConv(s.back, cov, c'));
      if |c'.log| > |c.log| then Some(Goto(s', r, Sequenced(c'.log[|c.log|].n)))
      else if r in c'.workers then Some(s')
      else Some(Done(s', r))
  }

  function HandOver(b: Backend, m: Message): Backend {
    b.(bw := B.EnqueueStep(b.bw, Some(m), true), spent := b.spent + Marks(m))
  }

  function EnqueueStep(s: State, r: Rid, ts: int): State
    requires r in s.jobs && s.jobs[r].pc.Sequenced?
  {
    var m := MessageOf(s.jobs[r].req, s.jobs[r].pc.n, ts);
    Goto(s.(back := HandOver(s.back, m)), r, Waiting(s.back.bw.nextId, m))
  }

  function ReceiveStep(s: State, r: Rid): Option<State>
    requires r in s.jobs && s.jobs[r].pc.Waiting?
  {
    var Waiting(ch, m) := s.jobs[r].pc;
    if ch !in s.back.bw.replies then None
    else
      match s.back.bw.replies[ch]
      case Failed(_) => Some(Done(s, r))
      case Stored(n, ts, duplicated) =>
        Some(Goto(s, r, if m.stanza != "" then Storing(m, n, ts, duplicated) else Acking(m, n, ts, duplicated)))
  }

  function RememberStep(s: State, r: Rid): State
    requires r in s.jobs && s.jobs[r].pc.Storing?
  {
    var Storing(m, n, ts, duplicated) := s.jobs[r].pc;
    Goto(s.(windows := s.windows[m.cov := History(s.windows, m.cov) + [R.Memo(m.stanza, n, ts)]]), r,
      Acking(m, n, ts, duplicated))
  }

  function AckStep(s: State, r: Rid): State
    requires r in s.jobs && s.jobs[r].pc.Acking?
  {
    var Acking(m, n, ts, duplicated) := s.jobs[r].pc;
    var s' := s.(acks := s.acks + [Ack(m.cov, m.stanza, n, ts)]);
    if duplicated then Done(s', r) else Goto(s', r, Pushing(m.(n := n, ts := ts)))
  }

  ghost function Rebooted(b: Backend, preload: A.Preload): Backend {
    Backend(map cov | cov in b.alloc :: A.Restarted(Conv(b, cov), preload), B.Initial(b.bw.table), b.bw.table, b.spent)
  }

  function Arrived(s: State, r: Rid, req: Request): State {
    s.(jobs := s.jobs[r := Job(req, Looking)], used := s.used + {r}, seen := s.seen + {(req.cov, req.stanza)})
  }

  ghost function Step(s: State, a: Action): Option<State> {
    match a
    case Arrive(r, req) => if r in s.used then None else Some(Arrived(s, r, req))
    case Look(r) => if r in s.jobs && s.jobs[r].pc.Looking? then LookStep(s, r) else None
    case Allocate(r, ok) => if r in s.jobs && s.jobs[r].pc.Allocating? then AllocateStep(s, r, ok) else None
    case Enqueue(r, ts) => if r in s.jobs && s.jobs[r].pc.Sequenced? then Some(EnqueueStep(s, r, ts)) else None
    case Receive(r) => if r in s.jobs && s.jobs[r].pc.Waiting? then ReceiveStep(s, r) else None
    case Timeout(r) => if r in s.jobs && s.jobs[r].pc.Waiting? then Some(Done(s, r)) else None
    case Remember(r) => if r in s.jobs && s.jobs[r].pc.Storing? then Some(RememberStep(s, r)) else None
    case Acknowledge(r) => if r in s.jobs && s.jobs[r].pc.Acking? then Some(AckStep(s, r)) else None
    case Push(r) =>
      if r in s.jobs && s.jobs[r].pc.Pushing? then Some(Done(s.(pushes := s.pushes + [s.jobs[r].pc.m]), r)) else None
    case AbandonPush(r) => if r in s.jobs && s.jobs[r].pc.Pushing? then Some(Done(s, r)) else None
    case Write(b) =>
      if b.Enqueue? || B.Step(s.back.bw, b).None? then None
      else Some(s.(back := s.back.(bw := B.Step(s.back.bw, b).value)))
    case CreateRow(cov) => Some(s.(back := SetConv(s.back, cov, A.EnsureRow(Conv(s.back, cov)))))
    case Crash(preload) => Some(State(Rebooted(s.back, preload), map[], map[], s.used, s.seen, s.acks, s.pushes))
  }

  ghost function Run(s: State, actions: seq<Action>): Option<State>
    decreases |actions|
  {
    if actions == [] then Some(s)
    else
      match Step(s, actions[0])
      case None => None
      case Some(s') => Run(s', actions[1..])
  }

  // ----- the premises -----

  /**
    No two requests of one conversation carry the same stanza id made of whitespace, and no row
    of a conversation is read unsuccessfully once one of its seqs is out.
   */
  ghost predicate Premise(s: State, a: Action) {
    match a
    case Arrive(_, req) => StanzaOk(req.stanza) || (req.cov, req.stanza) !in s.seen
    case Allocate(r, ok) => !ok && r in s.jobs ==> A.Benign(Conv(s.back, s.jobs[r].req.cov), A.Fail(r))
    case _ => true
  }

  ghost predicate Premises(s: State, actions: seq<Action>)
    decreases |actions|
  {
    actions != [] && Step(s, actions[0]).Some? ==>
      Premise(s, actions[0]) && Premises(Step(s, actions[0]).value, actions[1..])
  }

  // ----- the promises -----

  predicate HasRow(t: Table, cov: string, stanza: string, n: nat, ts: int) {
    exists i :: 0 <= i < |t| && t[i].cov == cov && t[i].stanza == stanza && t[i].n == n && t[i].ts == ts
  }

  /** Every ACK that left carries the seq and timestamp of a committed row of its stanza. */
  ghost predicate AcksTrue(t: Table, acks: seq<Ack>) {
    forall i :: 0 <= i < |acks| ==> HasRow(t, acks[i].cov, acks[i].stanza, acks[i].n, acks[i].ts)
  }

  /** Every push that left is a committed row, pushed once. */
  ghost predicate PushesTrue(t: Table, pushes: seq<Message>) {
    && (forall i :: 0 <= i < |pushes| ==> pushes[i] in t)
    && (forall i, j :: 0 <= i < j < |pushes| ==> !SameSeq(pushes[i], pushes[j]))
  }

  ghost predicate MemoTrue(t: Table, cov: string, m: R.Memo) {
    m.stanza != "" && HasRow(t, cov, m.stanza, m.n, m.ts)
  }

  /** Every remembered stanza is a committed row. */
  ghost predicate WindowsTrue(t: Table, windows: map<string, seq<R.Memo>>) {
    forall cov :: cov in windows ==> forall i :: 0 <= i < |windows[cov]| ==> MemoTrue(t, cov, windows[cov][i])
  }

  // ----- the invariant -----

  /** Two messages that must not meet in the table: the writer would not tell the truth about one. */
  predicate Clash(a: Message, b: Message) {
    SameSeq(a, b) || (SameStanza(a, b) && !StanzaOk(a.stanza))
  }

  lemma MarksApart(a: Message, b: Message, spent: set<Mark>)
    requires Marks(a) <= spent && Marks(b) !! spent
    ensures !Clash(a, b) && !Clash(b, a)
  {
    assert Numbered(a.cov, a.n) in Marks(a) && Numbered(b.cov, b.n) in Marks(b);
    assert !StanzaOk(a.stanza) ==> Whitespace(a.cov, a.stanza) in Marks(a);
    assert !StanzaOk(b.stanza) ==> Whitespace(b.cov, b.stanza) in Marks(b);
  }

  ghost predicate ResultOk(t: Table, m: Message, n: nat, ts: int, duplicated: bool) {
    if duplicated then m.stanza != "" && HasRow(t, m.cov, m.stanza, n, ts)
    else m in t && n == m.n && ts == m.ts
  }

  ghost predicate SettledOk(t: Table, x: B.Settled) {
    x.result.Stored? ==> ResultOk(t, x.entry.m, x.result.n, x.result.ts, x.result.duplicated)
  }

  /** Accepted entries do not clash; those past the first `done` are still unknown to the table. */
  ghost predicate EntriesOk(t: Table, accepted: seq<B.Entry>, done: nat, spent: set<Mark>) {
    && (forall i :: 0 <= i < |accepted| ==> Marks(accepted[i].m) <= spent)
    && (forall i, j :: 0 <= i < j < |accepted| ==> !Clash(accepted[i].m, accepted[j].m))
    && (forall i, k :: done <= i < |accepted| && 0 <= k < |t| ==> !Clash(accepted[i].m, t[k]))
  }

  ghost predicate RowsSpent(t: Table, spent: set<Mark>) {
    forall i :: 0 <= i < |t| ==> Marks(t[i]) <= spent
  }

  ghost predicate PushesSpent(pushes: seq<Message>, spent: set<Mark>) {
    forall i :: 0 <= i < |pushes| ==> Numbered(pushes[i].cov, pushes[i].n) in spent
  }

  ghost predicate AllSettledOk(t: Table, xs: seq<B.Settled>) {
    forall i :: 0 <= i < |xs| ==> SettledOk(t, xs[i])
  }

  /** The table and what the writer has accepted and settled so far. */
  ghost predicate TableOk(t: Table, accepted: seq<B.Entry>, settled: seq<B.Settled>, outbox: seq<B.Settled>,
                          spent: set<Mark>)
  {
    && Unique(t)
    && RowsSpent(t, spent)
    && AllSettledOk(t, settled)
    && AllSettledOk(t, outbox)
    && EntriesOk(t, accepted, |settled| + |outbox|, spent)
  }

  ghost predicate StoreOk(w: B.Writer, boot: Table, spent: set<Mark>) {
    B.Inv(w, boot) && TableOk(w.table, w.accepted, w.settled, w.outbox, spent)
  }

  ghost predicate IssuedIn(b: Backend, cov: string, n: nat) {
    A.Issued(Conv(b, cov), n)
  }

  ghost predicate AllocOk(b: Backend) {
    && (forall cov :: A.Inv(Conv(b, cov)))
    && (forall cov, n :: Numbered(cov, n) in b.spent ==> IssuedIn(b, cov, n))
  }

  /** The seq a job holds, once it has one. */
  function Key(j: Job): Option<(string, nat)> {
    match j.pc
    case Looking => None
    case Allocating => None
    case Sequenced(n) => Some((j.req.cov, n))
    case Waiting(_, m) => Some((m.cov, m.n))
    case Storing(m, _, _, _) => Some((m.cov, m.n))
    case Acking(m, _, _, _) => Some((m.cov, m.n))
    case Pushing(m) => Some((m.cov, m.n))
  }

  /** The channel a job waits on belongs to its own entry, or was answered at once. */
  ghost predicate Awaits(w: B.Writer, ch: nat, m: Message) {
    || (ch in w.replies && w.replies[ch].Failed?)
    || exists i :: 0 <= i < |w.accepted| && w.accepted[i] == B.Entry(ch, m, true)
  }

  /** A job that has not handed its message over yet. */
  predicate Early(j: Job) {
    j.pc.Looking? || j.pc.Allocating? || j.pc.Sequenced?
  }

  /** The job's marks are still unused. */
  ghost predicate Unspent(j: Job, spent: set<Mark>) {
    && (Early(j) ==> StanzaMark(j.req.cov, j.req.stanza) !! spent)
    && (j.pc.Sequenced? ==> Numbered(j.req.cov, j.pc.n) !in spent)
  }

  ghost predicate JobOk(b: Backend, j: Job) {
    && Unspent(j, b.spent)
    && (Key(j).Some? ==> IssuedIn(b, Key(j).value.0, Key(j).value.1))
    && (Key(j).Some? && !j.pc.Sequenced? ==> Numbered(Key(j).value.0, Key(j).value.1) in b.spent)
    && match j.pc
       case Waiting(ch, m) => Awaits(b.bw, ch, m)
       case Storing(m, n, ts, duplicated) => m.stanza != "" && ResultOk(b.bw.table, m, n, ts, duplicated)
       case Acking(m, n, ts, duplicated) => ResultOk(b.bw.table, m, n, ts, duplicated)
       case Pushing(m) => m in b.bw.table
       case _ => true
  }

  /** No two jobs hold one seq, and no job holds a seq that was already pushed. */
  ghost predicate KeysApart(jobs: map<Rid, Job>, pushes: seq<Message>) {
    && (forall r, q :: r in jobs && q in jobs && r != q && Key(jobs[r]).Some? ==> Key(jobs[r]) != Key(jobs[q]))
    && (forall r, i :: r in jobs && 0 <= i < |pushes| ==> Key(jobs[r]) != Some((pushes[i].cov, pushes[i].n)))
  }

  /** Every stanza in use was seen, and no two jobs carry the same stanza made of whitespace. */
  ghost predicate SeenOk(s: State) {
    && (forall r :: r in s.jobs ==> (s.jobs[r].req.cov, s.jobs[r].req.stanza) in s.seen)
    && (forall cov, stanza :: Whitespace(cov, stanza) in s.back.spent ==> (cov, stanza) in s.seen)
    && (forall r, q :: r in s.jobs && q in s.jobs && r != q ==> !SameWhitespace(s.jobs[r].req, s.jobs[q].req))
  }

  predicate SameWhitespace(a: Request, b: Request) {
    a.cov == b.cov && a.stanza == b.stanza && !StanzaOk(a.stanza)
  }

  ghost predicate JobsOk(b: Backend, jobs: map<Rid, Job>) {
    forall r :: r in jobs ==> JobOk(b, jobs[r])
  }

  ghost predicate BackOk(b: Backend) {
    StoreOk(b.bw, b.boot, b.spent) && AllocOk(b)
  }

  ghost predicate FrontOk(s: State) {
    && JobsOk(s.back, s.jobs)
    && s.jobs.Keys <= s.used
    && SeenOk(s)
    && KeysApart(s.jobs, s.pushes)
    && PushesSpent(s.pushes, s.back.spent)
    && AcksTrue(s.back.bw.table, s.acks)
    && PushesTrue(s.back.bw.table, s.pushes)
    && WindowsTrue(s.back.bw.table, s.windows)
  }

  ghost predicate Inv(s: State) {
    BackOk(s.back) && FrontOk(s)
  }

  // ----- frames -----

  lemma HasRowGrows(t: Table, t': Table, cov: string, stanza: string, n: nat, ts: int)
    requires t <= t' && HasRow(t, cov, stanza, n, ts)
    ensures HasRow(t', cov, stanza, n, ts)
  {
    var i :| 0 <= i < |t| && t[i].cov == cov && t[i].stanza == stanza && t[i].n == n && t[i].ts == ts;
    assert t'[i] == t[i];
  }

  lemma InGrows(t: Table, t': Table, m: Message)
    requires t <= t' && m in t
    ensures m in t'
  {
    var i :| 0 <= i < |t| && t[i] == m;
    assert t'[i] == m;
  }

  lemma ResultGrows(t: Table, t': Table, m: Message, n: nat, ts: int, duplicated: bool)
    requires t <= t' && ResultOk(t, m, n, ts, duplicated)
    ensures ResultOk(t', m, n, ts, duplicated)
  {
    if duplicated {
      HasRowGrows(t, t', m.cov, m.stanza, n, ts);
    } else {
      InGrows(t, t', m);
    }
  }

  /** What left the process stays true while the table grows. */
  lemma OutputsFrame(t: Table, t': Table, acks: seq<Ack>, pushes: seq<Message>, windows: map<string, seq<R.Memo>>)
    requires t <= t' && AcksTrue(t, acks) && PushesTrue(t, pushes) && WindowsTrue(t, windows)
    ensures AcksTrue(t', acks) && PushesTrue(t', pushes) && WindowsTrue(t', windows)
  {
    forall i | 0 <= i < |acks| ensures HasRow(t', acks[i].cov, acks[i].stanza, acks[i].n, acks[i].ts) {
      HasRowGrows(t, t', acks[i].cov, acks[i].stanza, acks[i].n, acks[i].ts);
    }
    forall i | 0 <= i < |pushes| ensures pushes[i] in t' {
      InGrows(t, t', pushes[i]);
    }
    forall cov, i | cov in windows && 0 <= i < |windows[cov]| ensures MemoTrue(t', cov, windows[cov][i]) {
      assert MemoTrue(t, cov, windows[cov][i]);
      HasRowGrows(t, t', cov, windows[cov][i].stanza, windows[cov][i].n, windows[cov][i].ts);
    }
  }

  /** What an honest result means to the sender of m. */
  lemma ResultHasRow(t: Table, m: Message, n: nat, ts: int, duplicated: bool)
    requires ResultOk(t, m, n, ts, duplicated)
    ensures HasRow(t, m.cov, m.stanza, n, ts)
  {
    if !duplicated {
      var i :| 0 <= i < |t| && t[i] == m;
    }
  }

  ghost predicate Advances(b: Backend, b': Backend) {
    && b.bw.table <= b'.bw.table
    && b.bw.accepted <= b'.bw.accepted
    && (forall ch :: ch in b.bw.replies ==> ch in b'.bw.replies && b'.bw.replies[ch] == b.bw.replies[ch])
    && (forall cov, n :: IssuedIn(b, cov, n) ==> IssuedIn(b', cov, n))
    && b.spent <= b'.spent
  }

  lemma JobFrame(b: Backend, b': Backend, j: Job)
    requires JobOk(b, j) && Advances(b, b')
    requires Unspent(j, b'.spent)
    ensures JobOk(b', j)
  {
    match j.pc
    case Waiting(ch, m) =>
      if !(ch in b.bw.replies && b.bw.replies[ch].Failed?) {
        var i :| 0 <= i < |b.bw.accepted| && b.bw.accepted[i] == B.Entry(ch, m, true);
        assert b'.bw.accepted[i] == b.bw.accepted[i];
      }
    case Storing(m, n, ts, duplicated) => ResultGrows(b.bw.table, b'.bw.table, m, n, ts, duplicated);
    case Acking(m, n, ts, duplicated) => ResultGrows(b.bw.table, b'.bw.table, m, n, ts, duplicated);
    case Pushing(m) => InGrows(b.bw.table, b'.bw.table, m);
    case _ =>
  }

  // ----- the steps of a request outside allocator and writer -----

  lemma ArriveKeepsSeen(s: State, r: Rid, req: Request)
    requires SeenOk(s) && r !in s.jobs && Premise(s, Arrive(r, req))
    ensures SeenOk(Arrived(s, r, req))
  {
    forall q | q in s.jobs ensures !SameWhitespace(s.jobs[q].req, req) && !SameWhitespace(req, s.jobs[q].req) {
      assert (s.jobs[q].req.cov, s.jobs[q].req.stanza) in s.seen;
    }
    hide SameWhitespace;
    hide StanzaOk;
  }

  lemma NewJobOk(s: State, r: Rid, req: Request)
    requires SeenOk(s) && Premise(s, Arrive(r, req))
    ensures JobOk(s.back, Job(req, Looking)) && Key(Job(req, Looking)) == None
  {
    assert !StanzaOk(req.stanza) ==> Whitespace(req.cov, req.stanza) !in s.back.spent;
  }

  lemma ArriveKeepsFront(s: State, r: Rid, req: Request)
    requires FrontOk(s) && r !in s.used && Premise(s, Arrive(r, req))
    ensures FrontOk(Step(s, Arrive(r, req)).value)
  {
    hide AcksTrue;
    hide PushesTrue;
    hide WindowsTrue;
    hide PushesSpent;
    hide JobOk;
    hide Key;
    hide SeenOk;
    hide Premise;
    NewJobOk(s, r, req);
    ArriveKeepsSeen(s, r, req);
  }

  lemma QuitKeepsFront(s: State, r: Rid)
    requires FrontOk(s) && r in s.jobs
    ensures FrontOk(Done(s, r))
  {
  }

  /** The reply on a job's own channel is honest about its message. */
  lemma ReplyHonest(w: B.Writer, boot: Table, spent: set<Mark>, ch: nat, m: Message)
    requires StoreOk(w, boot, spent) && Awaits(w, ch, m) && ch in w.replies && w.replies[ch].Stored?
    ensures var res := w.replies[ch]; ResultOk(w.table, m, res.n, res.ts, res.duplicated)
  {
    var i :| 0 <= i < |w.accepted| && w.accepted[i] == B.Entry(ch, m, true);
    assert i < |w.settled|;
    assert w.settled[i].entry == w.accepted[i];
    assert SettledOk(w.table, w.settled[i]);
  }

  /** A job goes to another point without another seq. */
  lemma PcKeepsFront(s: State, r: Rid, pc: Pc)
    requires FrontOk(s) && r in s.jobs && JobOk(s.back, s.jobs[r].(pc := pc))
      && Key(s.jobs[r].(pc := pc)) == Key(s.jobs[r])
    ensures FrontOk(Goto(s, r, pc))
  {
    hide JobOk;
    hide Key;
    hide AcksTrue;
    hide PushesTrue;
    hide WindowsTrue;
    hide PushesSpent;
    hide SameWhitespace;
  }

  lemma ReceiveKeepsFront(s: State, r: Rid)
    requires FrontOk(s) && r in s.jobs && s.jobs[r].pc.Waiting? && ReceiveStep(s, r).Some?
    requires var res := s.back.bw.replies[s.jobs[r].pc.ch];
      res.Stored? ==> ResultOk(s.back.bw.table, s.jobs[r].pc.m, res.n, res.ts, res.duplicated)
    ensures FrontOk(ReceiveStep(s, r).value)
  {
    assert JobOk(s.back, s.jobs[r]);
    hide FrontOk;
    var Waiting(ch, m) := s.jobs[r].pc;
    match s.back.bw.replies[ch]
    case Failed(_) => QuitKeepsFront(s, r);
    case Stored(n, ts, duplicated) =>
      PcKeepsFront(s, r, if m.stanza != "" then Storing(m, n, ts, duplicated) else Acking(m, n, ts, duplicated));
  }

  lemma MemoKept(t: Table, windows: map<string, seq<R.Memo>>, cov: string, m: R.Memo)
    requires WindowsTrue(t, windows) && MemoTrue(t, cov, m)
    ensures WindowsTrue(t, windows[cov := History(windows, cov) + [m]])
  {
  }

  lemma RememberKeepsFront(s: State, r: Rid)
    requires FrontOk(s) && r in s.jobs && s.jobs[r].pc.Storing?
    ensures FrontOk(RememberStep(s, r))
  {
    var Storing(m, n, ts, duplicated) := s.jobs[r].pc;
    assert JobOk(s.back, s.jobs[r]);
    ResultHasRow(s.back.bw.table, m, n, ts, duplicated);
    var memo := R.Memo(m.stanza, n, ts);
    MemoKept(s.back.bw.table, s.windows, m.cov, memo);
    var s1 := s.(windows := s.windows[m.cov := History(s.windows, m.cov) + [memo]]);
    WindowsKeepFront(s, s1);
    hide FrontOk;
    PcKeepsFront(s1, r, Acking(m, n, ts, duplicated));
  }

  lemma WindowsKeepFront(s: State, s': State)
    requires FrontOk(s) && s' == s.(windows := s'.windows) && WindowsTrue(s.back.bw.table, s'.windows)
    ensures FrontOk(s')
  {
    hide JobsOk;
    hide KeysApart;
    hide WindowsTrue;
    hide AcksTrue;
    hide PushesTrue;
  }

  lemma AcksKeepFront(s: State, ack: Ack)
    requires FrontOk(s) && HasRow(s.back.bw.table, ack.cov, ack.stanza, ack.n, ack.ts)
    ensures FrontOk(s.(acks := s.acks + [ack]))
  {
    hide JobsOk;
    hide KeysApart;
    hide WindowsTrue;
    hide PushesTrue;
    hide HasRow;
  }

  lemma AckKeepsFront(s: State, r: Rid)
    requires FrontOk(s) && r in s.jobs && s.jobs[r].pc.Acking?
    ensures FrontOk(AckStep(s, r))
  {
    var Acking(m, n, ts, duplicated) := s.jobs[r].pc;
    assert JobOk(s.back, s.jobs[r]);
    ResultHasRow(s.back.bw.table, m, n, ts, duplicated);
    var ack := Ack(m.cov, m.stanza, n, ts);
    AcksKeepFront(s, ack);
    hide FrontOk;
    var s1 := s.(acks := s.acks + [ack]);
    if duplicated {
      QuitKeepsFront(s1, r);
    } else {
      assert m.(n := n, ts := ts) == m;
      PcKeepsFront(s1, r, Pushing(m));
    }
  }

  /** A push under a seq nothing was pushed under, by the job that holds it. */
  lemma PushKeepsFront(s: State, r: Rid)
    requires FrontOk(s) && r in s.jobs && s.jobs[r].pc.Pushing?
    ensures FrontOk(Step(s, Push(r)).value)
  {
    var m := s.jobs[r].pc.m;
    assert JobOk(s.back, s.jobs[r]) && Key(s.jobs[r]) == Some((m.cov, m.n));
    forall i | 0 <= i < |s.pushes| ensures !SameSeq(s.pushes[i], m) {
      assert Key(s.jobs[r]) != Some((s.pushes[i].cov, s.pushes[i].n));
    }
    assert KeysApart(s.jobs - {r}, s.pushes + [m]);
    QuitKeepsFront(s, r);
    hide JobsOk;
    hide KeysApart;
    hide WindowsTrue;
    hide AcksTrue;
  }

  // ----- the steps that touch the backend -----

  /** The front of the pipeline is indifferent to an advancing backend. */
  lemma FrontFrame(s: State, back: Backend)
    requires FrontOk(s) && Advances(s.back, back) && back.spent == s.back.spent
    ensures FrontOk(s.(back := back))
  {
    forall r | r in s.jobs ensures JobOk(back, s.jobs[r]) {
      JobFrame(s.back, back, s.jobs[r]);
    }
    OutputsFrame(s.back.bw.table, back.bw.table, s.acks, s.pushes, s.windows);
  }

  lemma SetConvAdvances(b: Backend, cov: string, c: A.State)
    requires AllocOk(b) && A.Inv(c) && c.stored == SeqsOf(b.bw.table, cov)
    requires forall n :: A.Issued(Conv(b, cov), n) ==> A.Issued(c, n)
    ensures AllocOk(SetConv(b, cov, c)) && Advances(b, SetConv(b, cov, c))
  {
    var b' := SetConv(b, cov, c);
    assert Conv(b', cov) == c;
    forall d | d != cov ensures Conv(b', d) == Conv(b, d) {
    }
  }

  /** A step of the allocator, taken in one conversation. */
  lemma AllocatorAdvances(b: Backend, cov: string, a: A.Action)
    requires AllocOk(b) && A.Step(Conv(b, cov), a).Some? && A.Benign(Conv(b, cov), a)
      && (a.Begin? || a.Go? || a.Fail? || a.CreateRow?)
    ensures var b' := SetConv(b, cov, A.Step(Conv(b, cov), a).value); AllocOk(b') && Advances(b, b')
  {
    var c := Conv(b, cov);
    A.StepKeepsInv(c, a);
    A.StepLog(c, a);
    A.StepRemembers(c, a);
    SetConvAdvances(b, cov, A.Step(c, a).value);
  }

  /** What a window answers is a committed row. */
  lemma AnswerHasRow(t: Table, cov: string, history: seq<R.Memo>, stanza: string)
    requires R.Answer(history, stanza).Some? && forall i :: 0 <= i < |history| ==> MemoTrue(t, cov, history[i])
    ensures var (n, ts) := R.Answer(history, stanza).value; stanza != "" && HasRow(t, cov, stanza, n, ts)
  {
    var (n, ts) := R.Answer(history, stanza).value;
    var i: nat :| R.LastStored(history, stanza, i) && history[i].n == n && history[i].ts == ts;
    assert MemoTrue(t, cov, history[i]);
  }

  lemma LookKeepsInv(s: State, r: Rid)
    requires Inv(s) && r in s.jobs && s.jobs[r].pc.Looking? && LookStep(s, r).Some?
    ensures Inv(LookStep(s, r).value)
  {
    var req := s.jobs[r].req;
    var history := History(s.windows, req.cov);
    match R.Answer(history, req.stanza)
    case Some((n, ts)) =>
      AnswerHasRow(s.back.bw.table, req.cov, history, req.stanza);
      AcksKeepFront(s, Ack(req.cov, req.stanza, n, ts));
      hide FrontOk;
      hide BackOk;
      QuitKeepsFront(s.(acks := s.acks + [Ack(req.cov, req.stanza, n, ts)]), r);
    case None =>
      AllocatorAdvances(s.back, req.cov, A.Begin(r));
      var back := SetConv(s.back, req.cov, A.Step(Conv(s.back, req.cov), A.Begin(r)).value);
      FrontFrame(s, back);
      MoveKeepsFront(s.(back := back), r, Allocating);
  }

  /** A job without a seq goes to a point without a seq. */
  lemma MoveKeepsFront(s: State, r: Rid, pc: Pc)
    requires FrontOk(s) && r in s.jobs && Early(s.jobs[r]) && Key(s.jobs[r]).None? && (pc.Allocating? || pc.Looking?)
    ensures FrontOk(Goto(s, r, pc))
  {
    assert JobOk(s.back, s.jobs[r]);
    hide FrontOk;
    PcKeepsFront(s, r, pc);
  }

  /** A job gets a seq nobody holds and nothing was pushed under. */
  lemma SequencedKeepsFront(s: State, r: Rid, n: nat)
    requires FrontOk(s) && r in s.jobs && s.jobs[r].pc.Allocating?
    requires IssuedIn(s.back, s.jobs[r].req.cov, n) && Numbered(s.jobs[r].req.cov, n) !in s.back.spent
    requires forall q :: q in s.jobs ==> Key(s.jobs[q]) != Some((s.jobs[r].req.cov, n))
    ensures FrontOk(Goto(s, r, Sequenced(n)))
  {
    assert JobOk(s.back, s.jobs[r]);
  }

  lemma AllocateKeepsInv(s: State, r: Rid, ok: bool)
    requires Inv(s) && r in s.jobs && s.jobs[r].pc.Allocating? && AllocateStep(s, r, ok).Some?
    requires Premise(s, Allocate(r, ok))
    ensures Inv(AllocateStep(s, r, ok).value)
  {
    var cov := s.jobs[r].req.cov;
    var c := Conv(s.back, cov);
    var a := if ok then A.Go(r) else A.Fail(r);
    var c' := A.Step(c, a).value;
    var back := SetConv(s.back, cov, c');
    AllocatorAdvances(s.back, cov, a);
    FrontFrame(s, back);
    A.StepLog(c, a);
    if |c'.log| > |c.log| {
      var n := c'.log[|c.log|].n;
      NewSeq(s.back, cov, a);
      forall q | q in s.jobs ensures Key(s.jobs[q]) != Some((cov, n)) {
        assert JobOk(s.back, s.jobs[q]);
      }
      SequencedKeepsFront(s.(back := back), r, n);
    } else if r !in c'.workers {
      QuitKeepsFront(s.(back := back), r);
    }
  }

  lemma NewSeq(b: Backend, cov: string, a: A.Action)
    requires AllocOk(b) && A.Step(Conv(b, cov), a).Some? && A.Benign(Conv(b, cov), a)
    requires (a.Go? || a.Fail?) && |A.Step(Conv(b, cov), a).value.log| > |Conv(b, cov).log|
    ensures var c' := A.Step(Conv(b, cov), a).value;
      var n := c'.log[|Conv(b, cov).log|].n;
      !IssuedIn(b, cov, n) && IssuedIn(SetConv(b, cov, c'), cov, n)
  {
    var c := Conv(b, cov);
    A.StepKeepsInv(c, a);
    A.StepLog(c, a);
    A.FreshlyIssued(c, A.Step(c, a).value);
    assert Conv(SetConv(b, cov, A.Step(c, a).value), cov) == A.Step(c, a).value;
  }

  // ----- handing a message to the writer -----

  lemma HandOverKeepsTable(w: B.Writer, spent: set<Mark>, m: Message)
    requires TableOk(w.table, w.accepted, w.settled, w.outbox, spent) && Marks(m) !! spent
    requires |w.settled| + |w.outbox| <= |w.accepted|
    ensures var w' := B.EnqueueStep(w, Some(m), true);
      TableOk(w'.table, w'.accepted, w'.settled, w'.outbox, spent + Marks(m)) && Awaits(w', w.nextId, m)
  {
    var w' := B.EnqueueStep(w, Some(m), true);
    forall i | 0 <= i < |w.accepted| ensures !Clash(w.accepted[i].m, m) { MarksApart(w.accepted[i].m, m, spent); }
    forall k | 0 <= k < |w.table| ensures !Clash(m, w.table[k]) { MarksApart(w.table[k], m, spent); }
    hide Clash;
    hide Marks;
    if |w.queue| < B.QUEUE_CAP {
      assert w'.accepted[|w.accepted|] == B.Entry(w.nextId, m, true);
    }
  }

  lemma HandOverKeepsStore(w: B.Writer, boot: Table, spent: set<Mark>, m: Message)
    requires StoreOk(w, boot, spent) && Marks(m) !! spent
    ensures StoreOk(B.EnqueueStep(w, Some(m), true), boot, spent + Marks(m))
    ensures Awaits(B.EnqueueStep(w, Some(m), true), w.nextId, m)
    ensures w.nextId !in w.replies
  {
    B.StepKeepsInv(w, boot, B.Enqueue(Some(m), true));
    HandOverKeepsTable(w, spent, m);
  }

  /** The allocator's view depends on the counters and the table alone. */
  lemma AllocFrame(b: Backend, b': Backend)
    requires AllocOk(b) && b'.alloc == b.alloc && b'.bw.table == b.bw.table
    requires forall cov, n :: Numbered(cov, n) in b'.spent ==> Numbered(cov, n) in b.spent || IssuedIn(b, cov, n)
    ensures AllocOk(b') && forall cov, n :: IssuedIn(b, cov, n) ==> IssuedIn(b', cov, n)
  {
    forall cov ensures Conv(b', cov) == Conv(b, cov) {
    }
  }

  lemma HandOverAdvances(b: Backend, m: Message)
    requires AllocOk(b) && IssuedIn(b, m.cov, m.n) && b.bw.nextId !in b.bw.replies
    ensures AllocOk(HandOver(b, m)) && Advances(b, HandOver(b, m))
  {
    AllocFrame(b, HandOver(b, m));
  }

  lemma HandOverKeepsBack(b: Backend, m: Message)
    requires BackOk(b) && Marks(m) !! b.spent && IssuedIn(b, m.cov, m.n)
    ensures BackOk(HandOver(b, m)) && Advances(b, HandOver(b, m))
    ensures Awaits(HandOver(b, m).bw, b.bw.nextId, m)
  {
    HandOverKeepsStore(b.bw, b.boot, b.spent, m);
    HandOverAdvances(b, m);
  }

  lemma EnqueueKeepsInv(s: State, r: Rid, ts: int)
    requires Inv(s) && r in s.jobs && s.jobs[r].pc.Sequenced?
    ensures Inv(EnqueueStep(s, r, ts))
  {
    var m := MessageOf(s.jobs[r].req, s.jobs[r].pc.n, ts);
    assert JobOk(s.back, s.jobs[r]);
    HandOverKeepsBack(s.back, m);
    WaitingKeepsFront(s, HandOver(s.back, m), r, m);
  }

  lemma WaitingKeepsFront(s: State, back: Backend, r: Rid, m: Message)
    requires FrontOk(s) && r in s.jobs && Key(s.jobs[r]) == Some((m.cov, m.n)) && Advances(s.back, back)
    requires s.jobs[r].pc.Sequenced? && m.stanza == s.jobs[r].req.stanza
    requires back.spent == s.back.spent + Marks(m) && Awaits(back.bw, s.back.bw.nextId, m)
    ensures FrontOk(Goto(s.(back := back), r, Waiting(s.back.bw.nextId, m)))
  {
    var s' := Goto(s.(back := back), r, Waiting(s.back.bw.nextId, m));
    assert JobOk(s.back, s.jobs[r]);
    forall q | q in s'.jobs ensures JobOk(back, s'.jobs[q]) {
      if q != r {
        assert Key(s.jobs[q]) != Key(s.jobs[r]) && !SameWhitespace(s.jobs[q].req, s.jobs[r].req);
        JobFrame(s.back, back, s.jobs[q]);
      }
    }
    OutputsFrame(s.back.bw.table, back.bw.table, s.acks, s.pushes, s.windows);
  }

  // ----- the writer's own steps -----

  ghost predicate BatchOk(t: Table, rows: seq<Attempt>, spent: set<Mark>) {
    && (forall i :: 0 <= i < |rows| ==> Marks(rows[i].m) <= spent)
    && (forall i, j :: 0 <= i < j < |rows| ==> !Clash(rows[i].m, rows[j].m))
    && (forall i, k :: 0 <= i < |rows| && 0 <= k < |t| ==> !Clash(rows[i].m, t[k]))
  }

  ghost predicate FromBatch(rows: seq<Attempt>, m: Message) {
    exists i :: 0 <= i < |rows| && rows[i].m == m
  }

  /** New rows of a table come from the batch. */
  ghost predicate RowsFrom(t: Table, t': Table, rows: seq<Attempt>) {
    forall k :: |t| <= k < |t'| ==> FromBatch(rows, t'[k])
  }

  ghost predicate ResultsOk(t: Table, rows: seq<Attempt>, rs: seq<WriteResult>) {
    && |rs| == |rows|
    && forall i :: 0 <= i < |rows| && rs[i].Stored? ==>
         ResultOk(t, rows[i].m, rs[i].n, rs[i].ts, rs[i].duplicated)
  }

  /** One row that clashes with none gets an honest result. */
  lemma StoreOneHonest(t: Table, m: Message, fault: Fault)
    requires Unique(t) && forall k :: 0 <= k < |t| ==> !Clash(m, t[k])
    ensures var (t', r) := StoreOne(t, m, fault);
      && t <= t' && Unique(t') && (t' == t || t' == t + [m])
      && (r.Stored? ==> ResultOk(t', m, r.n, r.ts, r.duplicated))
  {
    StoreOneKeepsUnique(t, m, fault);
    var (t', r) := StoreOne(t, m, fault);
    if r.Stored? && r.duplicated {
      var row := FindStanza(t, m.cov, m.stanza).value;
      var i :| 0 <= i < |t| && t[i] == row;
    } else if r.Stored? && Conflicts(t, m) {
      var i :| 0 <= i < |t| && (SameSeq(t[i], m) || SameStanza(t[i], m));
      assert false;
    }
  }

  /** The last row of a batch clashes with nothing that the rows before it left in the table. */
  lemma LastApart(t: Table, t1: Table, rows: seq<Attempt>, spent: set<Mark>)
    requires rows != [] && BatchOk(t, rows, spent) && t <= t1 && RowsFrom(t, t1, rows[..|rows| - 1])
    ensures forall k :: 0 <= k < |t1| ==> !Clash(rows[|rows| - 1].m, t1[k])
  {
    hide Marks;
    var last := |rows| - 1;
    forall k | 0 <= k < |t1| ensures !Clash(rows[last].m, t1[k]) {
      if k < |t| {
        assert t1[k] == t[k];
      } else {
        var i :| 0 <= i < last && rows[..last][i].m == t1[k];
        assert !Clash(rows[i].m, rows[last].m);
      }
    }
  }

  lemma BatchBefore(t: Table, rows: seq<Attempt>, spent: set<Mark>)
    requires rows != [] && BatchOk(t, rows, spent)
    ensures BatchOk(t, rows[..|rows| - 1], spent)
  {
    hide Marks;
    hide Clash;
  }

  lemma RowsGrow(t: Table, t1: Table, t2: Table, rows: seq<Attempt>)
    requires rows != [] && |t| <= |t1| && RowsFrom(t, t1, rows[..|rows| - 1])
    requires t2 == t1 || t2 == t1 + [rows[|rows| - 1].m]
    ensures RowsFrom(t, t2, rows)
  {
    forall k | |t| <= k < |t2| ensures FromBatch(rows, t2[k]) {
      if k < |t1| {
        assert t2[k] == t1[k];
      } else {
        assert t2[k] == rows[|rows| - 1].m;
      }
    }
  }

  lemma ResultsGrow(t1: Table, t2: Table, rows: seq<Attempt>, rs: seq<WriteResult>, r: WriteResult)
    requires rows != [] && t1 <= t2 && ResultsOk(t1, rows[..|rows| - 1], rs)
    requires r.Stored? ==> ResultOk(t2, rows[|rows| - 1].m, r.n, r.ts, r.duplicated)
    ensures ResultsOk(t2, rows, rs + [r])
  {
    hide ResultOk;
    var last := |rows| - 1;
    forall i | 0 <= i < last && rs[i].Stored? ensures ResultOk(t2, rows[i].m, rs[i].n, rs[i].ts, rs[i].duplicated) {
      assert rows[..last][i] == rows[i];
      ResultGrows(t1, t2, rows[i].m, rs[i].n, rs[i].ts, rs[i].duplicated);
    }
  }

  lemma {:induction false} StoreAllHonest(t: Table, rows: seq<Attempt>, spent: set<Mark>)
    requires Unique(t) && BatchOk(t, rows, spent)
    ensures var (t', rs) := StoreAll(t, rows);
      t <= t' && Unique(t') && RowsFrom(t, t', rows) && ResultsOk(t', rows, rs)
  {
    if rows != [] {
      var last := |rows| - 1;
      var (t1, rs) := StoreAll(t, rows[..last]);
      var (t2, r) := StoreOne(t1, rows[last].m, rows[last].fault);
      assert StoreAll(t, rows) == (t2, rs + [r]);
      hide StoreAll;
      hide StoreOne;
      hide BatchOk;
      hide Unique;
      hide Clash;
      hide RowsFrom;
      hide ResultsOk;
      hide ResultOk;
      BatchBefore(t, rows, spent);
      StoreAllHonest(t, rows[..last], spent);
      LastApart(t, t1, rows, spent);
      StoreOneHonest(t1, rows[last].m, rows[last].fault);
      RowsGrow(t, t1, t2, rows);
      ResultsGrow(t1, t2, rows, rs, r);
    }
  }

  /** A committed batch: honest results, rows nobody had handed over before, no clash with what still waits. */
  lemma BatchCommitted(t: Table, accepted: seq<B.Entry>, settled: seq<B.Settled>, batch: seq<B.Entry>,
    faults: seq<Fault>, spent: set<Mark>)
    requires TableOk(t, accepted, settled, [], spent) && |settled| + |batch| <= |accepted|
    requires forall i :: 0 <= i < |batch| ==> accepted[|settled| + i] == batch[i]
    ensures var (t', rs) := StoreAll(t, B.Attempts(batch, faults));
      t <= t' && TableOk(t', accepted, settled, B.Pair(batch, rs), spent)
  {
    var rows := B.Attempts(batch, faults);
    var (t', rs) := StoreAll(t, rows);
    assert BatchOk(t, rows, spent);
    StoreAllHonest(t, rows, spent);
    RowsStaySpent(t, t', rows, spent);
    SettledGrows(t, t', settled);
    assert AllSettledOk(t', B.Pair(batch, rs));
    forall i, k | |settled| + |batch| <= i < |accepted| && 0 <= k < |t'| ensures !Clash(accepted[i].m, t'[k]) {
      if k >= |t| {
        var j :| 0 <= j < |rows| && rows[j].m == t'[k];
        assert !Clash(accepted[|settled| + j].m, accepted[i].m);
      }
    }
  }

  lemma RowsStaySpent(t: Table, t': Table, rows: seq<Attempt>, spent: set<Mark>)
    requires t <= t' && RowsSpent(t, spent) && BatchOk(t, rows, spent) && RowsFrom(t, t', rows)
    ensures RowsSpent(t', spent)
  {
  }

  lemma SettledGrows(t: Table, t': Table, xs: seq<B.Settled>)
    requires t <= t' && AllSettledOk(t, xs)
    ensures AllSettledOk(t', xs)
  {
    forall i | 0 <= i < |xs| ensures SettledOk(t', xs[i]) {
      assert SettledOk(t, xs[i]);
      if xs[i].result.Stored? {
        ResultGrows(t, t', xs[i].entry.m, xs[i].result.n, xs[i].result.ts, xs[i].result.duplicated);
      }
    }
  }

  /** A failed transaction: the table stays, and every entry of the batch is told. */
  lemma BatchFailed(t: Table, accepted: seq<B.Entry>, settled: seq<B.Settled>, batch: seq<B.Entry>,
    rs: seq<WriteResult>, spent: set<Mark>)
    requires TableOk(t, accepted, settled, [], spent) && |rs| == |batch|
    requires forall i :: 0 <= i < |rs| ==> rs[i].Failed?
    ensures TableOk(t, accepted, settled, B.Pair(batch, rs), spent)
  {
    assert AllSettledOk(t, B.Pair(batch, rs)) by {
      forall i | 0 <= i < |batch| ensures SettledOk(t, B.Pair(batch, rs)[i]) {
        assert B.Results(B.Pair(batch, rs))[i] == rs[i];
      }
    }
  }

  lemma BatchFlushed(t: Table, accepted: seq<B.Entry>, settled: seq<B.Settled>, batch: seq<B.Entry>, faults: seq<Fault>,
    o: Outcome, spent: set<Mark>)
    requires TableOk(t, accepted, settled, [], spent) && |settled| + |batch| <= |accepted|
    requires forall i :: 0 <= i < |batch| ==> accepted[|settled| + i] == batch[i]
    ensures var (t', rs) := FlushBatch(t, Batch(B.Attempts(batch, faults), o));
      t <= t' && TableOk(t', accepted, settled, B.Pair(batch, rs), spent)
  {
    if o.Commits? {
      BatchCommitted(t, accepted, settled, batch, faults, spent);
    } else {
      var rs := FlushBatch(t, Batch(B.Attempts(batch, faults), o)).1;
      BatchFailed(t, accepted, settled, batch, rs, spent);
    }
  }

  lemma FlushKeepsTable(w: B.Writer, o: Outcome, faults: seq<Fault>, spent: set<Mark>)
    requires TableOk(w.table, w.accepted, w.settled, w.outbox, spent) && B.Conserved(w) && w.outbox == []
    ensures var w' := B.Flush(w, o, faults);
      w.table <= w'.table && TableOk(w'.table, w'.accepted, w'.settled, w'.outbox, spent)
  {
    hide TableOk;
    hide B.Conserved;
    hide FlushBatch;
    hide B.Pair;
    hide B.Attempts;
    if w.batch != [] {
      BatchInAccepted(w);
      BatchFlushed(w.table, w.accepted, w.settled, w.batch, faults, o, spent);
      var (t, rs) := FlushBatch(w.table, Batch(B.Attempts(w.batch, faults), o));
      assert B.Flush(w, o, faults).outbox == B.Pair(w.batch, rs);
    }
  }

  lemma BatchInAccepted(w: B.Writer)
    requires B.Conserved(w) && w.outbox == []
    ensures |w.settled| + |w.batch| <= |w.accepted|
    ensures forall i :: 0 <= i < |w.batch| ==> w.accepted[|w.settled| + i] == w.batch[i]
  {
  }

  lemma DeliverKeepsTable(w: B.Writer, spent: set<Mark>)
    requires TableOk(w.table, w.accepted, w.settled, w.outbox, spent) && w.outbox != []
    ensures var w' := B.DeliverStep(w); TableOk(w'.table, w'.accepted, w'.settled, w'.outbox, spent)
  {
  }

  lemma WriterKeepsTable(w: B.Writer, boot: Table, spent: set<Mark>, a: B.Action)
    requires StoreOk(w, boot, spent) && B.Step(w, a).Some? && !a.Enqueue?
    ensures var w' := B.Step(w, a).value;
      w.table <= w'.table && w'.accepted == w.accepted && TableOk(w'.table, w'.accepted, w'.settled, w'.outbox, spent)
  {
    match a
    case Decide(o, fs) => FlushKeepsTable(w.(deciding := false), o, fs, spent);
    case Tick(o, fs) => FlushKeepsTable(w, o, fs, spent);
    case Drain(o, fs) =>
      if w.queue != [] {
        B.TakeKeepsInv(w, boot);
        FlushKeepsTable(B.Take(w), o, fs, spent);
      } else {
        FlushKeepsTable(w, o, fs, spent);
      }
    case Deliver => DeliverKeepsTable(w, spent);
    case _ =>
  }

  /** Steps of the writer never change a reply, never take a row back. */
  lemma WriterAdvances(w: B.Writer, boot: Table, spent: set<Mark>, a: B.Action)
    requires StoreOk(w, boot, spent) && B.Step(w, a).Some? && !a.Enqueue?
    ensures var w' := B.Step(w, a).value;
      && StoreOk(w', boot, spent) && w.table <= w'.table && w'.accepted == w.accepted
      && forall ch :: ch in w.replies ==> ch in w'.replies && w'.replies[ch] == w.replies[ch]
  {
    WriterKeepsTable(w, boot, spent, a);
    hide TableOk;
    hide B.Inv;
    hide B.FlushIfDue;
    if a.Deliver? {
      B.DeliverKeepsInv(w, boot);
    }
    B.StepKeepsInv(w, boot, a);
  }

  lemma WriteKeepsInv(s: State, a: B.Action)
    requires Inv(s) && !a.Enqueue? && B.Step(s.back.bw, a).Some?
    ensures Inv(s.(back := s.back.(bw := B.Step(s.back.bw, a).value)))
  {
    WriterAdvances(s.back.bw, s.back.boot, s.back.spent, a);
    var back := s.back.(bw := B.Step(s.back.bw, a).value);
    NewTableKeepsAlloc(s.back, back);
    FrontFrame(s, back);
  }

  /** Committed messages carry seqs that were handed out, so the allocator may see them. */
  lemma NewTableKeepsAlloc(b: Backend, b': Backend)
    requires AllocOk(b) && b' == b.(bw := b'.bw) && RowsSpent(b'.bw.table, b.spent)
    ensures AllocOk(b') && forall cov, n :: IssuedIn(b, cov, n) ==> IssuedIn(b', cov, n)
  {
    forall cov ensures A.Inv(Conv(b', cov)) {
      forall n | n in SeqsOf(b'.bw.table, cov) ensures A.Issued(Conv(b, cov), n) {
        assert IssuedIn(b, cov, n);
      }
      A.StoredChanges(Conv(b, cov), SeqsOf(b'.bw.table, cov));
      assert Conv(b', cov) == Conv(b, cov).(stored := SeqsOf(b'.bw.table, cov));
    }
  }

  lemma CreateRowKeepsInv(s: State, cov: string)
    requires Inv(s)
    ensures Inv(Step(s, CreateRow(cov)).value)
  {
    AllocatorAdvances(s.back, cov, A.CreateRow);
    FrontFrame(s, Step(s, CreateRow(cov)).value.back);
  }

  // ----- crashes -----

  lemma CrashKeepsAlloc(b: Backend, preload: A.Preload)
    requires AllocOk(b)
    ensures AllocOk(Rebooted(b, preload))
  {
    var b' := Rebooted(b, preload);
    forall cov ensures A.Inv(Conv(b', cov)) && Conv(b', cov).log == Conv(b, cov).log {
      if cov in b.alloc {
        A.RestartKeepsInv(Conv(b, cov), preload);
        assert Conv(b', cov) == A.Restarted(Conv(b, cov), preload);
      } else {
        assert Conv(b', cov) == Conv(b, cov);
      }
    }
    forall cov, n | Numbered(cov, n) in b'.spent ensures IssuedIn(b', cov, n) {
      assert IssuedIn(b, cov, n);
    }
  }

  lemma CrashKeepsInv(s: State, preload: A.Preload)
    requires Inv(s)
    ensures Inv(Step(s, Crash(preload)).value)
  {
    CrashKeepsAlloc(s.back, preload);
    var s' := Step(s, Crash(preload)).value;
    assert B.Inv(s'.back.bw, s'.back.boot);
    assert TableOk(s'.back.bw.table, [], [], [], s.back.spent);
  }

  // ----- whole runs -----

  lemma StepKeepsInv(s: State, a: Action)
    requires Inv(s) && Step(s, a).Some? && Premise(s, a)
    ensures Inv(Step(s, a).value)
  {
    hide BackOk;
    hide FrontOk;
    match a
    case Arrive(r, req) => ArriveKeepsFront(s, r, req);
    case Look(r) => LookKeepsInv(s, r);
    case Allocate(r, ok) => AllocateKeepsInv(s, r, ok);
    case Enqueue(r, ts) => EnqueueKeepsInv(s, r, ts);
    case Receive(r) => ReceiveKeepsInv(s, r);
    case Timeout(r) => QuitKeepsFront(s, r);
    case Remember(r) => RememberKeepsFront(s, r);
    case Acknowledge(r) => AckKeepsFront(s, r);
    case Push(r) => PushKeepsFront(s, r);
    case AbandonPush(r) => QuitKeepsFront(s, r);
    case Write(b) => WriteKeepsInv(s, b);
    case CreateRow(cov) => CreateRowKeepsInv(s, cov);
    case Crash(preload) => CrashKeepsInv(s, preload);
  }

  lemma ReceiveKeepsInv(s: State, r: Rid)
    requires Inv(s) && r in s.jobs && s.jobs[r].pc.Waiting? && ReceiveStep(s, r).Some?
    ensures Inv(ReceiveStep(s, r).value)
  {
    assert JobOk(s.back, s.jobs[r]);
    if s.back.bw.replies[s.jobs[r].pc.ch].Stored? {
      ReplyHonest(s.back.bw, s.back.boot, s.back.spent, s.jobs[r].pc.ch, s.jobs[r].pc.m);
    }
    ReceiveKeepsFront(s, r);
  }

  lemma {:induction false} RunKeepsInv(s: State, actions: seq<Action>)
    requires Inv(s) && Run(s, actions).Some? && Premises(s, actions)
    ensures Inv(Run(s, actions).value)
    decreases |actions|
  {
    if actions != [] {
      StepKeepsInv(s, actions[0]);
      RunKeepsInv(Step(s, actions[0]).value, actions[1..]);
    }
  }

  lemma InitialInv()
    ensures Inv(INITIAL)
  {
    assert B.Inv(INITIAL.back.bw, []);
    forall cov ensures A.Inv(Conv(INITIAL.back, cov)) {
      assert Conv(INITIAL.back, cov) == A.INITIAL;
    }
  }

  /**
    On every run, whatever the interleaving, the resends, the timeouts, the failed statements
    and the crashes: every ACK names a committed row of its stanza, every push is a committed
    row pushed once, every remembered stanza is a committed row, and both unique indexes hold.
   */
  lemma NothingUntrueLeaves(actions: seq<Action>)
    requires Run(INITIAL, actions).Some? && Premises(INITIAL, actions)
    ensures var s := Run(INITIAL, actions).value;
      var t := s.back.bw.table;
      Unique(t) && AcksTrue(t, s.acks) && PushesTrue(t, s.pushes) && WindowsTrue(t, s.windows)
  {
    InitialInv();
    RunKeepsInv(INITIAL, actions);
  }

  /** The ACK is about this stanza. */
  predicate AckOf(ack: Ack, cov: string, stanza: string) {
    stanza != "" && ack.cov == cov && ack.stanza == stanza
  }

  /** No two pushes of one stanza; every ACK of a stanza is the same; a push agrees with the ACKs. */
  ghost predicate AtMostOnce(acks: seq<Ack>, pushes: seq<Message>) {
    && (forall i, j :: 0 <= i < j < |pushes| ==> !SameStanza(pushes[i], pushes[j]))
    && (forall i, j :: 0 <= i < j < |acks| && AckOf(acks[i], acks[j].cov, acks[j].stanza) ==> acks[i] == acks[j])
    && (forall i, j :: 0 <= i < |acks| && 0 <= j < |pushes| && AckOf(acks[i], pushes[j].cov, pushes[j].stanza) ==>
          acks[i].n == pushes[j].n && acks[i].ts == pushes[j].ts)
  }

  /** However often a stanza is resent, it is stored once, pushed at most once and always acknowledged alike. */
  lemma StanzaAtMostOnce(actions: seq<Action>)
    requires Run(INITIAL, actions).Some? && Premises(INITIAL, actions)
    ensures var s := Run(INITIAL, actions).value; AtMostOnce(s.acks, s.pushes)
  {
    NothingUntrueLeaves(actions);
    var s := Run(INITIAL, actions).value;
    var t := s.back.bw.table;
    forall i, j | 0 <= i < j < |s.pushes| ensures !SameStanza(s.pushes[i], s.pushes[j]) {
      if s.pushes[j].stanza != "" {
        OneRow(t, s.pushes[j].cov, s.pushes[j].stanza);
      }
    }
    forall i, j | 0 <= i < j < |s.acks| && AckOf(s.acks[i], s.acks[j].cov, s.acks[j].stanza)
      ensures s.acks[i] == s.acks[j]
    {
      OneRow(t, s.acks[i].cov, s.acks[i].stanza);
    }
    forall i, j | 0 <= i < |s.acks| && 0 <= j < |s.pushes| && AckOf(s.acks[i], s.pushes[j].cov, s.pushes[j].stanza)
      ensures s.acks[i].n == s.pushes[j].n && s.acks[i].ts == s.pushes[j].ts
    {
      OneRow(t, s.acks[i].cov, s.acks[i].stanza);
    }
  }

  /** Under the unique index a stanza names one row. */
  lemma OneRow(t: Table, cov: string, stanza: string)
    requires Unique(t) && stanza != ""
    ensures forall i, j ::
              0 <= i < |t| && 0 <= j < |t| && t[i].cov == t[j].cov == cov && t[i].stanza == t[j].stanza == stanza ==>
                i == j
  {
    forall i, j | 0 <= i < |t| && 0 <= j < |t| && t[i].cov == t[j].cov == cov && t[i].stanza == t[j].stanza == stanza
      ensures i == j
    {
    }
  }

  /** A committed row of a stanza is the one the requery finds. */
  lemma RowIsOriginal(t: Table, cov: string, stanza: string, n: nat, ts: int)
    requires Unique(t) && stanza != "" && HasRow(t, cov, stanza, n, ts)
    ensures var original := FindStanza(t, cov, stanza);
      original.Some? && original.value.n == n && original.value.ts == ts
  {
    OneRow(t, cov, stanza);
    hide Unique;
    var k :| 0 <= k < |t| && t[k].cov == cov && t[k].stanza == stanza && t[k].n == n && t[k].ts == ts;
    var row := FindStanza(t, cov, stanza).value;
    var j :| 0 <= j < |t| && t[j] == row;
    assert j == k;
  }

  lemma StoredAlready(t: Table, m: Message, n: nat, ts: int)
    requires Unique(t) && m.stanza != "" && HasRow(t, m.cov, m.stanza, n, ts)
    ensures StoreOne(t, m, NoFault) == (t, Stored(n, ts, true)) <==> StanzaOk(m.stanza)
  {
    RowIsOriginal(t, m.cov, m.stanza, n, ts);
    hide Unique;
    var k :| 0 <= k < |t| && t[k].cov == m.cov && t[k].stanza == m.stanza && t[k].n == n && t[k].ts == ts;
    assert SameStanza(t[k], m);
  }

  /**
    The dedup window is a pure shortcut: on every run, whenever it answers, sending the same
    stanza through the allocator and the writer under any seq and timestamp would have left
    the table alone and given that very answer, marked as a duplicate (so no push), exactly
    when the stanza is not made of whitespace.
   */
  lemma HitIsWhatTheWriterWouldSay(actions: seq<Action>, m: Message)
    requires Run(INITIAL, actions).Some? && Premises(INITIAL, actions)
    requires R.Answer(History(Run(INITIAL, actions).value.windows, m.cov), m.stanza).Some?
    ensures var s := Run(INITIAL, actions).value;
      var (n, ts) := R.Answer(History(s.windows, m.cov), m.stanza).value;
      StoreOne(s.back.bw.table, m, NoFault) == (s.back.bw.table, Stored(n, ts, true)) <==> StanzaOk(m.stanza)
  {
    NothingUntrueLeaves(actions);
    hide Run;
    hide Premises;
    hide StanzaOk;
    hide Unique;
    hide MemoTrue;
    hide HasRow;
    hide StoreOne;
    var s := Run(INITIAL, actions).value;
    var t := s.back.bw.table;
    var history := History(s.windows, m.cov);
    var (n, ts) := R.Answer(history, m.stanza).value;
    hide R.Answer;
    AnswerHasRow(t, m.cov, history, m.stanza);
    StoredAlready(t, m, n, ts);
  }

  // ----- clients as they are -----

  /** No stanza id, or one with a visible ASCII character, as UUIDs are. */
  predicate PlainStanza(stanza: string) {
    stanza == "" || Visible(stanza)
  }

  lemma PlainIsOk(stanza: string)
    requires PlainStanza(stanza)
    ensures StanzaOk(stanza)
  {
    BlankMeans(stanza);
  }

  // ----- what an answered request still does -----

  lemma RunCons(s: State, a: Action, rest: seq<Action>)
    requires Step(s, a).Some?
    ensures Run(s, [a] + rest) == Run(Step(s, a).value, rest)
  {
    assert ([a] + rest)[1..] == rest;
  }

  /** The steps of a request once its reply is there. */
  function Finish(r: Rid, stanza: string, duplicated: bool): seq<Action> {
    var sends := [Acknowledge(r)] + (if duplicated then [] else [Push(r)] + []);
    [Receive(r)] + (if stanza == "" then sends else [Remember(r)] + sends)
  }

  /**
    Left to itself, a request whose reply is there finishes: an error sends nothing; a stored row is
    remembered if it has a stanza, acknowledged with the reply's numbers, a duplicate like any
    other, and pushed unless it is one.
   */
  lemma RepliedFinishes(s: State, r: Rid, ch: nat, m: Message)
    requires r in s.jobs && s.jobs[r].pc == Waiting(ch, m) && ch in s.back.bw.replies
    ensures s.back.bw.replies[ch].Failed? ==> Step(s, Receive(r)) == Some(Done(s, r))
    ensures var res := s.back.bw.replies[ch];
      res.Stored? ==>
        var end := Run(s, Finish(r, m.stanza, res.duplicated));
        && end.Some? && end.value.back == s.back && r !in end.value.jobs
        && end.value.acks == s.acks + [Ack(m.cov, m.stanza, res.n, res.ts)]
        && end.value.pushes == s.pushes + (if res.duplicated then [] else [m.(n := res.n, ts := res.ts)])
        && History(end.value.windows, m.cov) ==
             History(s.windows, m.cov) + if m.stanza == "" then [] else [R.Memo(m.stanza, res.n, res.ts)]
  {
    hide LookStep;
    hide AllocateStep;
    hide EnqueueStep;
    hide Rebooted;
    hide B.Step;
    var res := s.back.bw.replies[ch];
    if res.Stored? {
      var tail: seq<Action> := if res.duplicated then [] else [Push(r)] + [];
      var s1 := ReceiveStep(s, r).value;
      var sends := [Acknowledge(r)] + tail;
      RunCons(s, Receive(r), if m.stanza == "" then sends else [Remember(r)] + sends);
      var s2 := if m.stanza == "" then s1 else RememberStep(s1, r);
      if m.stanza != "" {
        RunCons(s1, Remember(r), [Acknowledge(r)] + tail);
      }
      RunCons(s2, Acknowledge(r), tail);
      if !res.duplicated {
        RunCons(AckStep(s2, r), Push(r), []);
      }
    }
  }
}
